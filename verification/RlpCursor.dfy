/**
  The stateful side of class RLP: the list-indexing cache of operator[], the
  iterator, and the loops over list items.
 */
module RlpCursor {
  import opened Prelude
  import opened RlpFormat
  import opened RlpReader
  import opened Splitting

  lemma SizesSound()
    ensures Sound(SizeAsEncoded)
  {
  }

  /** A fresh scan: the bytes of the items that follow each other in a payload. */
  function ItemsOf(p: Bytes): Result<seq<Bytes>, Error> {
    SizesSound();
    Items(SizeAsEncoded, p)
  }

  function EncodeEach(xs: seq<Item>): seq<Bytes>
    requires AllEncodable(xs)
  {
    if xs == [] then [] else [Encode(xs[0])] + EncodeEach(xs[1..])
  }

  /** The items of an encoded list are the encodings of its elements. */
  lemma {:induction false} ItemsOfEncoding(xs: seq<Item>)
    requires AllEncodable(xs) && EncodedLengths(xs) < LIMIT
    ensures ItemsOf(EncodeAll(xs)) == Ok(EncodeEach(xs))
  {
    if xs == [] {
    } else {
      var rest := EncodeAll(xs[1..]);
      ElementLength(xs, 0);
      EncodedItem(xs[0], rest);
      ItemsOfEncoding(xs[1..]);
      SizesSound();
      ItemsCons(SizeAsEncoded, Encode(xs[0]), rest);
    }
  }

  /** An item that a scan finds is sized exactly. */
  lemma HeadSized(q: Bytes, x: Bytes)
    requires Heads(SizeAsEncoded, q, x)
    ensures Construct(x) == None
  {
    SizeOfPrefix(q);
    assert x == q[..|x|];
  }

  /**
    An RLP object over well-formed items. The source documents operator[] for
    lists only, but indexes the payload of data in the same way.
   */
  class Rlp {
    const data: Bytes
    var lastIndex: nat
    var lastEnd: nat
    var lastItem: Bytes

    ghost predicate WellFormed() {
      |data| < SIZE - 1 && Payload(data).Ok? && ItemsOf(Payload(data).value).Ok?
    }

    ghost function Contents(): seq<Bytes>
      requires WellFormed()
    {
      ItemsOf(Payload(data).value).value
    }

    /** The cache is untouched, or it is where a scan to lastIndex ends. */
    ghost predicate Valid()
      reads this
    {
      && WellFormed()
      && if lastIndex == SIZE - 1 then lastItem == [] else CachedAt(lastIndex)
    }

    constructor (d: Bytes)
      requires |d| < SIZE - 1 && Payload(d).Ok? && ItemsOf(Payload(d).value).Ok?
      ensures data == d && Valid()
    {
      data, lastIndex, lastEnd, lastItem := d, SIZE - 1, 0, [];
    }

    /** Where a scan that has reached item k leaves the cache; k may be one past the last item. */
    ghost predicate CachedAt(k: nat)
      requires WellFormed()
      reads this
    {
      var xs := Contents();
      && lastIndex == k <= |xs|
      && lastItem == (if k < |xs| then xs[k] else [])
      && lastEnd == Start(SizeAsEncoded, Payload(data).value, if k < |xs| then k + 1 else k)
    }

    /** What the payload holds from the start of item k on: item k, or nothing. */
    lemma AtStart(p: Bytes, k: nat)
      requires WellFormed() && p == Payload(data).value && k <= |Contents()|
      ensures Sound(SizeAsEncoded)
      ensures var off, xs := Start(SizeAsEncoded, p, k), Contents();
              && SizeAsEncoded(p[off..]) == Ok(if k < |xs| then |xs[k]| else 0)
              && (k < |xs| ==> 0 < |xs[k]| && xs[k] <= p[off..] && Start(SizeAsEncoded, p, k + 1) == off + |xs[k]|)
    {
      SizesSound();
      ItemOrEnd(SizeAsEncoded, p, k);
    }

    method Rewind()
      requires WellFormed()
      modifies this
      ensures CachedAt(0)
    {
      var p := Payload(data).value;
      AtStart(p, 0);
      assert p[0..] == p;
      lastEnd := SizeAsEncoded(p).value;
      lastItem, lastIndex := Cropped(p, 0, lastEnd), 0;
    }

    method Advance()
      requires WellFormed() && CachedAt(lastIndex) && |lastItem| != 0
      modifies this
      ensures CachedAt(old(lastIndex) + 1)
    {
      var p := Payload(data).value;
      AtStart(p, lastIndex + 1);
      lastItem := p[lastEnd..];
      lastItem := Cropped(lastItem, 0, SizeAsEncoded(lastItem).value);
      lastEnd, lastIndex := lastEnd + |lastItem|, lastIndex + 1;
    }

    /** Forward to item i, or to the end if there are fewer items. */
    method Seek(i: nat)
      requires WellFormed() && CachedAt(lastIndex) && lastIndex <= i
      modifies this
      ensures CachedAt(if i < |Contents()| then i else |Contents()|)
    {
      while lastIndex < i && |lastItem| != 0
        modifies this
        invariant CachedAt(lastIndex) && lastIndex <= i
        decreases i - lastIndex
      {
        Advance();
      }
      AtStart(Payload(data).value, lastIndex);
    }

    /** An item of the list is sized exactly, so the constructor of the result throws nothing. */
    lemma ItemSized(k: nat)
      requires WellFormed() && k < |Contents()|
      ensures Construct(Contents()[k]) == None
    {
      var p := Payload(data).value;
      SizesSound();
      ItemAt(SizeAsEncoded, p, k);
      HeadSized(p[Start(SizeAsEncoded, p, k)..], Contents()[k]);
    }

    /**
      Whatever was asked before, the item a fresh scan finds, or null past the
      end. Nothing is thrown, neither by the scan nor by the constructor of the
      result. An untouched cache is past every index, so there is nothing to seek.
     */
    method At(i: nat) returns (item: Bytes)
      requires Valid() && i < SIZE
      modifies this
      ensures Valid()
      ensures item == (if i < |Contents()| then Contents()[i] else []) && Construct(item) == None
    {
      SizesSound();
      LastEnds(SizeAsEncoded, Payload(data).value);
      if i < lastIndex {
        Rewind();
      }
      if lastIndex != SIZE - 1 {
        Seek(i);
      }
      if i < |Contents()| {
        ItemSized(i);
      }
      item := lastItem;
    }
  }

  /** The loop of RLP::items over a payload. */
  method CountItems(p: Bytes) returns (r: Result<nat, Error>)
    ensures r == match ItemsOf(p) case Ok(xs) => Ok(|xs|) case Err(e) => Err(e)
  {
    SizesSound();
    var d, i := p, 0;
    ghost var found := [];
    ScannedNothing(SizeAsEncoded, p);
    while |d| != 0
      invariant Scanned(SizeAsEncoded, p, found, d) && |found| == i
      decreases |d|
    {
      ScannedOne(SizeAsEncoded, p, found, d);
      var size :- SizeAsEncoded(d);
      found := found + [d[..size]];
      d, i := d[size..], i + 1;
    }
    ScannedAll(SizeAsEncoded, p, found);
    return Ok(i);
  }

  /** A view into the bytes of the list that is iterated: the pointer is an offset. */
  datatype View = View(off: nat, len: nat)

  /** RLP::iterator; what it needs of an item is its size as encoded, given as a function. */
  class Iterator<E(!new)> {
    const data: Bytes
    const size: Bytes -> Result<nat, E>
    var remaining: nat
    var current: View

    /** end(): an empty view behind the last byte. */
    constructor AtEnd(d: Bytes, size: Bytes -> Result<nat, E>)
      ensures data == d && current == View(|d|, 0) && remaining == 0
    {
      data, this.size, remaining, current := d, size, 0, View(|d|, 0);
    }

    /** begin(), before it looks at the first item. */
    constructor AtPayload(d: Bytes, off: nat, size: Bytes -> Result<nat, E>)
      requires off <= |d|
      ensures data == d && this.size == size && current == View(off, 0) && remaining == |d| - off
    {
      data, this.size, remaining, current := d, size, |d| - off, View(off, 0);
    }

    /** operator++; also the first item of begin(), whose current item is empty before. */
    method Forward() returns (r: Result<(), E>)
      requires current.off + current.len + remaining == |data|
      requires Sound(size) && size([]) == Ok(0)
      modifies this
      ensures var rest := data[old(current.off + current.len)..];
              match size(rest)
              case Err(e) => r == Err(e)
              case Ok(n) =>
                && r == Ok(())
                && current == View(old(current.off + current.len), n) && remaining == |rest| - n
    {
      var off := current.off + current.len;
      assert data[off..off + remaining] == data[off..];
      if remaining != 0 {
        current := View(off, remaining);
        var n :- size(data[off..off + remaining]);
        current := View(off, n);
        remaining := remaining - (if remaining < n then remaining else n);
      } else {
        current := View(off, 0);
      }
      return Ok(());
    }
  }

  /** toList with Strict: the items in order, or the error of the scan; a list that is not one is a bad cast. */
  method ToList(d: Bytes) returns (r: Result<seq<Bytes>, Error>)
    requires Construct(d) == None
    ensures r == if !IsList(d) then Err(BadCast)
                 else match Payload(d) case Err(e) => Err(e) case Ok(p) => ItemsOf(p)
  {
    if !IsList(d) {
      return Err(BadCast);
    }
    ghost var p := d[PayloadOffset(d)..];
    assert p == d[PayloadOffset(d)..PayloadOffset(d) + Length(d).value];
    assert Payload(d) == Ok(p);
    SizesSound();
    r := Collect(SizeAsEncoded, d, PayloadOffset(d), p);
  }

  /** The range-based for loop: it stops at end() with all items, or throws what the scan throws. */
  method Collect<E(!new)>(size: Bytes -> Result<nat, E>, d: Bytes, off: nat, ghost p: Bytes)
    returns (r: Result<seq<Bytes>, E>)
    requires Sound(size) && size([]) == Ok(0) && off <= |d| && p == d[off..]
    ensures r == Items(size, p)
  {
    var it := new Iterator.AtPayload(d, off, size);
    var end := new Iterator.AtEnd(d, size);
    var ret := [];
    ScannedNothing(size, p);
    var first := it.Forward();
    if first.Err? {
      return Err(first.error);
    }
    while it.current != end.current
      modifies it
      invariant it.data == d && it.size == size && end.current == View(|d|, 0)
      invariant it.current.off + it.current.len + it.remaining == |d|
      invariant Scanned(size, p, ret, d[it.current.off..])
      invariant size(d[it.current.off..]) == Ok(it.current.len)
      decreases |d| - it.current.off
    {
      ScannedView(size, p, ret, d, it.current.off, it.current.len);
      ret := ret + [d[it.current.off..it.current.off + it.current.len]];
      var next := it.Forward();
      if next.Err? {
        return Err(next.error);
      }
    }
    ScannedAll(size, p, ret);
    return Ok(ret);
  }
}
