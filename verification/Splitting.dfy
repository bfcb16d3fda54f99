/**
  Cutting a byte string into items that follow each other, given a function
  that finds the size of the item at the front.
 */
module Splitting {
  import opened Prelude

  /** An item is not larger than what it is found in, and not empty. */
  ghost predicate Sound<E(!new)>(size: Bytes -> Result<nat, E>) {
    forall p: Bytes :: size(p).Ok? ==> size(p).value <= |p| && (p != [] ==> size(p).value > 0)
  }

  /** A scan from the front; the first error ends it. */
  function Items<E(!new)>(size: Bytes -> Result<nat, E>, p: Bytes): Result<seq<Bytes>, E>
    requires Sound(size)
    decreases |p|
  {
    if p == [] then Ok([])
    else
      var n :- size(p);
      var rest :- Items(size, p[n..]);
      Ok([p[..n]] + rest)
  }

  /** Where item k starts; for k one past the last item, the end. */
  function Start<E(!new)>(size: Bytes -> Result<nat, E>, p: Bytes, k: nat): (r: nat)
    requires Sound(size) && Items(size, p).Ok? && k <= |Items(size, p).value|
    ensures r <= |p|
    decreases k
  {
    if k == 0 then 0 else size(p).value + Start(size, p[size(p).value..], k - 1)
  }

  /** x is the item at the front of q. */
  ghost predicate Heads<E(!new)>(size: Bytes -> Result<nat, E>, q: Bytes, x: Bytes) {
    size(q) == Ok(|x|) && 0 < |x| && x <= q
  }

  /** A scan that starts where item k starts finds item k. */
  lemma {:induction false} ItemAt<E(!new)>(size: Bytes -> Result<nat, E>, p: Bytes, k: nat)
    requires Sound(size) && Items(size, p).Ok? && k < |Items(size, p).value|
    ensures Heads(size, p[Start(size, p, k)..], Items(size, p).value[k])
    decreases k
  {
    if k == 0 {
      assert p[0..] == p;
    } else {
      var n := size(p).value;
      ItemAt(size, p[n..], k - 1);
      DropDrop(p, n, Start(size, p[n..], k - 1));
    }
  }

  lemma ItemsCons<E(!new)>(size: Bytes -> Result<nat, E>, first: Bytes, rest: Bytes)
    requires Sound(size) && first != [] && size(first + rest) == Ok(|first|) && Items(size, rest).Ok?
    ensures Items(size, first + rest) == Ok([first] + Items(size, rest).value)
  {
    TakeAppend(first, rest);
  }

  lemma {:induction false} StartNext<E(!new)>(size: Bytes -> Result<nat, E>, p: Bytes, k: nat)
    requires Sound(size) && Items(size, p).Ok? && k < |Items(size, p).value|
    ensures Start(size, p, k + 1) == Start(size, p, k) + |Items(size, p).value[k]|
    decreases k
  {
    if k == 0 {
    } else {
      StartNext(size, p[size(p).value..], k - 1);
    }
  }

  lemma {:induction false} LastEnds<E(!new)>(size: Bytes -> Result<nat, E>, p: Bytes)
    requires Sound(size) && Items(size, p).Ok?
    ensures Start(size, p, |Items(size, p).value|) == |p| && |Items(size, p).value| <= |p|
    decreases |p|
  {
    if p == [] {
    } else {
      LastEnds(size, p[size(p).value..]);
    }
  }

  /** What is found from the start of item k on: item k, or nothing. */
  lemma ItemOrEnd<E(!new)>(size: Bytes -> Result<nat, E>, p: Bytes, k: nat)
    requires Sound(size) && size([]) == Ok(0) && Items(size, p).Ok? && k <= |Items(size, p).value|
    ensures var off, xs := Start(size, p, k), Items(size, p).value;
            && size(p[off..]) == Ok(if k < |xs| then |xs[k]| else 0)
            && (k < |xs| ==> 0 < |xs[k]| && xs[k] <= p[off..] && Start(size, p, k + 1) == off + |xs[k]|)
  {
    if k < |Items(size, p).value| {
      ItemAt(size, p, k);
      StartNext(size, p, k);
    } else {
      LastEnds(size, p);
      assert p[|p|..] == [];
    }
  }

  /** Of a scan of p, the items ret are found and rest is still to be scanned. */
  ghost predicate Scanned<E(!new)>(size: Bytes -> Result<nat, E>, p: Bytes, ret: seq<Bytes>, rest: Bytes)
    requires Sound(size)
  {
    match Items(size, rest)
    case Ok(xs) => Items(size, p) == Ok(ret + xs)
    case Err(e) => Items(size, p) == Err(e)
  }

  /** One more item is found, or the scan fails. */
  lemma ScannedOne<E(!new)>(size: Bytes -> Result<nat, E>, p: Bytes, ret: seq<Bytes>, rest: Bytes)
    requires Sound(size) && rest != [] && Scanned(size, p, ret, rest)
    ensures size(rest).Err? ==> Items(size, p) == Err(size(rest).error)
    ensures size(rest).Ok? ==> Scanned(size, p, ret + [rest[..size(rest).value]], rest[size(rest).value..])
  {
    if size(rest).Ok? {
      var tail := Items(size, rest[size(rest).value..]);
      if tail.Ok? {
        AppendAssoc(ret, [rest[..size(rest).value]], tail.value);
      }
    }
  }

  lemma ScannedNothing<E(!new)>(size: Bytes -> Result<nat, E>, p: Bytes)
    requires Sound(size)
    ensures Scanned(size, p, [], p)
  {
    assert Items(size, p).Ok? ==> [] + Items(size, p).value == Items(size, p).value;
  }

  lemma ScannedAll<E(!new)>(size: Bytes -> Result<nat, E>, p: Bytes, ret: seq<Bytes>)
    requires Sound(size) && Scanned(size, p, ret, [])
    ensures Items(size, p) == Ok(ret)
  {
    assert ret + [] == ret;
  }

  /** The item in a view is found; the error of the next one, if any, is the error of the scan. */
  lemma ScannedView<E(!new)>(size: Bytes -> Result<nat, E>, p: Bytes, ret: seq<Bytes>, d: Bytes, off: nat, len: nat)
    requires Sound(size) && off < |d| && size(d[off..]) == Ok(len) && Scanned(size, p, ret, d[off..])
    ensures 0 < len && off + len <= |d| && Scanned(size, p, ret + [d[off..off + len]], d[off + len..])
    ensures off + len < |d| && size(d[off + len..]).Err? ==> Items(size, p) == Err(size(d[off + len..]).error)
  {
    ScannedOne(size, p, ret, d[off..]);
    DropDrop(d, off, len);
    assert d[off..][..len] == d[off..off + len];
    if off + len < |d| {
      ScannedOne(size, p, ret + [d[off..off + len]], d[off + len..]);
    }
  }
}
