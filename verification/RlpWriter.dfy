/**
  Class RLPStream: writing items whose lists are opened before their size is
  known. Every open list is on a stack with the items it still expects and the
  offset of its payload; the header is inserted in place when the last item
  arrives, which may close further lists.
 */
module RlpWriter {
  import opened Prelude
  import opened BigEndian
  import opened RlpFormat

  /** An open list: items still missing, and where its payload starts. */
  datatype Open = Open(missing: nat, start: nat)

  datatype Stream = Stream(out: Bytes, stack: seq<Open>) {
    /** Offsets lie inside the output, later lists start no earlier, and no open list is complete. */
    ghost predicate Valid() {
      && (forall i :: 0 <= i < |stack| ==> stack[i].missing > 0 && stack[i].start <= |out|)
      && (forall i, j :: 0 <= i < j < |stack| ==> stack[i].start <= stack[j].start)
    }
  }

  /** Insert the header of the payload that starts at p. */
  function Closed(out: Bytes, p: nat): Bytes
    requires p <= |out| && |out| - p < SIZE
  {
    out[..p] + EncodeList(out[p..])
  }

  /** The bytes from p on moved up by n; what was in the gap stays there. */
  function Moved(out: Bytes, p: nat, n: nat): (r: Bytes)
    requires p <= |out|
    ensures |r| == |out| + n
  {
    (out + Zeros(n))[..p + n] + out[p..]
  }

  /** Room was made for the header of the payload that starts at p, but its length has too many bytes. */
  function Unheaded(out: Bytes, p: nat): (r: Bytes)
    requires p <= |out|
    ensures |r| >= |out|
  {
    Moved(out, p, 1 + |Compact(|out| - p)|)
  }

  /** noteAppended: the stream after it, and whether it returned normally. */
  function AfterNote(st: Stream, count: nat): (r: (Stream, bool))
    requires st.Valid()
    ensures r.0.Valid()
    decreases |st.stack|
  {
    if count == 0 || st.stack == [] then (st, true)
    else
      var below, top := st.stack[..|st.stack| - 1], st.stack[|st.stack| - 1];
      if top.missing < count then (st, false)
      else if top.missing > count then
        (Stream(st.out, below + [Open(top.missing - count, top.start)]), true)
      else if |st.out| - top.start >= SIZE then
        (Stream(Unheaded(st.out, top.start), below), false)
      else AfterNote(Stream(Closed(st.out, top.start), below), 1)
  }

  lemma NoteFewer(st: Stream, count: nat)
    requires st.Valid() && st.stack != [] && st.stack[|st.stack| - 1].missing > count > 0
    ensures var last := |st.stack| - 1;
            var less := Open(st.stack[last].missing - count, st.stack[last].start);
            AfterNote(st, count) == (Stream(st.out, st.stack[last := less]), true)
  {
    var last, x := |st.stack| - 1, Open(st.stack[|st.stack| - 1].missing - count, st.stack[|st.stack| - 1].start);
    assert st.stack[last := x] == st.stack[..last] + [x];
  }

  lemma NoteLast(st: Stream, count: nat)
    requires st.Valid() && st.stack != [] && st.stack[|st.stack| - 1].missing == count > 0
    requires |st.out| - st.stack[|st.stack| - 1].start < SIZE
    ensures var below, p := st.stack[..|st.stack| - 1], st.stack[|st.stack| - 1].start;
            Stream(Closed(st.out, p), below).Valid()
            && AfterNote(st, count) == AfterNote(Stream(Closed(st.out, p), below), 1)
  {
  }

  lemma NoteTooLarge(st: Stream, count: nat)
    requires st.Valid() && st.stack != [] && st.stack[|st.stack| - 1].missing == count > 0
    requires |st.out| - st.stack[|st.stack| - 1].start >= SIZE
    ensures var below, p := st.stack[..|st.stack| - 1], st.stack[|st.stack| - 1].start;
            var left := Stream(Unheaded(st.out, p), below);
            left.Valid() && AfterNote(st, count) == (left, false)
  {
  }

  /** appendRaw of bytes that are one item. */
  function AppendedItem(st: Stream, bytes: Bytes): (Stream, bool)
    requires st.Valid()
  {
    AfterNote(Stream(st.out + bytes, st.stack), 1)
  }

  /** The calls that write an item: append for data, appendList and the items for lists. */
  function Walk(st: Stream, x: Item): (r: (Stream, bool))
    requires st.Valid() && Encodable(x)
    ensures r.0.Valid()
    decreases x, 0
  {
    match x
    case Data(b) => AppendedItem(st, EncodeData(b))
    case List(xs) =>
      if xs == [] then AppendedItem(st, EncodeList([]))
      else WalkAll(Stream(st.out, st.stack + [Open(|xs|, |st.out|)]), xs)
  }

  function WalkAll(st: Stream, xs: seq<Item>): (r: (Stream, bool))
    requires st.Valid() && AllEncodable(xs)
    ensures r.0.Valid()
    decreases xs, 1
  {
    if xs == [] then (st, true)
    else
      var (st', ok) := Walk(st, xs[0]);
      if ok then WalkAll(st', xs[1..]) else (st', false)
  }

  /** Walking an item does what appending its finished encoding does, cascaded closing included. */
  lemma {:induction false} WalkIsEncoding(st: Stream, x: Item)
    requires st.Valid() && Encodable(x)
    ensures Walk(st, x) == AppendedItem(st, Encode(x))
    decreases x, 0
  {
    if x.List? && x.items != [] {
      WalkOpenList(st, x.items, [], x.items);
      assert st.out + EncodeAll([]) == st.out;
    }
  }

  /** An item arrives in a list whose payload starts behind st. */
  lemma NoteInOpenList(st: Stream, missing: nat, payload: Bytes)
    requires st.Valid() && missing > 0 && |payload| < SIZE
    ensures var here := Stream(st.out + payload, st.stack + [Open(missing, |st.out|)]);
            && here.Valid()
            && AfterNote(here, 1)
            == if missing > 1 then (Stream(here.out, st.stack + [Open(missing - 1, |st.out|)]), true)
               else AppendedItem(st, EncodeList(payload))
  {
    var here := Stream(st.out + payload, st.stack + [Open(missing, |st.out|)]);
    assert here.stack[..|here.stack| - 1] == st.stack;
    assert here.out[..|st.out|] == st.out && here.out[|st.out|..] == payload;
  }

  /** An item is walked in a list whose payload so far is front. */
  lemma {:induction false} WalkInOpenList(st: Stream, missing: nat, front: Bytes, x: Item)
    requires st.Valid() && missing > 0 && Encodable(x) && |front + Encode(x)| < SIZE
    ensures var here := Stream(st.out + front, st.stack + [Open(missing, |st.out|)]);
            && here.Valid()
            && Walk(here, x)
            == if missing == 1 then AppendedItem(st, EncodeList(front + Encode(x)))
               else (Stream(st.out + (front + Encode(x)), st.stack + [Open(missing - 1, |st.out|)]), true)
    decreases x, 1
  {
    WalkIsEncoding(Stream(st.out + front, st.stack + [Open(missing, |st.out|)]), x);
    AppendAssoc(st.out, front, Encode(x));
    NoteInOpenList(st, missing, front + Encode(x));
  }

  lemma OneMore(all: seq<Item>, done: seq<Item>, todo: seq<Item>)
    requires AllEncodable(all) && all == done + todo && todo != [] && AllEncodable(done) && AllEncodable(todo)
    ensures all == (done + [todo[0]]) + todo[1..] && AllEncodable(done + [todo[0]])
    ensures EncodeAll(done + [todo[0]]) == EncodeAll(done) + Encode(todo[0])
    ensures |EncodeAll(done + [todo[0]])| <= |EncodeAll(all)|
  {
    EncodeAllSnoc(done, todo[0]);
    assert all == (done + [todo[0]]) + todo[1..];
    EncodeAllJoin(done + [todo[0]], todo[1..]);
  }

  /** Walking the remaining items of an open list. */
  lemma {:induction false} WalkOpenList(st: Stream, all: seq<Item>, done: seq<Item>, todo: seq<Item>)
    requires st.Valid() && AllEncodable(all) && EncodedLengths(all) < SIZE
    requires all == done + todo && todo != [] && AllEncodable(done) && AllEncodable(todo)
    ensures WalkAll(Stream(st.out + EncodeAll(done), st.stack + [Open(|todo|, |st.out|)]), todo)
         == AppendedItem(st, EncodeList(EncodeAll(all)))
    decreases todo, 1
  {
    OneMore(all, done, todo);
    WalkInOpenList(st, |todo|, EncodeAll(done), todo[0]);
    if |todo| == 1 {
      assert done + [todo[0]] == all;
    } else {
      WalkOpenList(st, all, done + [todo[0]], todo[1..]);
    }
  }

  lemma {:induction false} EncodeAllJoin(xs: seq<Item>, ys: seq<Item>)
    requires AllEncodable(xs) && AllEncodable(ys)
    ensures AllEncodable(xs + ys) && EncodeAll(xs + ys) == EncodeAll(xs) + EncodeAll(ys)
  {
    if xs == [] {
      assert xs + ys == ys;
    } else {
      EncodeAllJoin(xs[1..], ys);
      assert (xs + ys)[1..] == xs[1..] + ys;
    }
  }

  lemma EncodeAllSnoc(xs: seq<Item>, x: Item)
    requires AllEncodable(xs) && Encodable(x)
    ensures AllEncodable(xs + [x]) && EncodeAll(xs + [x]) == EncodeAll(xs) + Encode(x)
  {
    EncodeAllCons(x, []);
    assert [x] + [] == [x] && EncodeAll([]) == [];
    EncodeAllJoin(xs, [x]);
  }

  /** A fresh stream that walks an item ends with no open list and exactly the encoding. */
  lemma FreshWalk(x: Item)
    requires Encodable(x)
    ensures Walk(Stream([], []), x) == (Stream(Encode(x), []), true)
  {
    WalkIsEncoding(Stream([], []), x);
    assert [] + Encode(x) == Encode(x);
  }

  /** Leading zeros dropped, as append does when compact. */
  function Stripped(b: Bytes): Bytes {
    if b != [] && b[0] == 0 then Stripped(b[1..]) else b
  }

  /** The compact form of what the bytes denote. */
  lemma {:induction false} StrippedIsCompact(b: Bytes)
    ensures Stripped(b) == Compact(Value(b))
  {
    if b != [] && b[0] == 0 {
      StrippedIsCompact(b[1..]);
      LeadingZero(b);
    } else {
      CompactValue(b);
    }
  }

  lemma {:induction false} LeadingZero(b: Bytes)
    requires b != [] && b[0] == 0
    ensures Value(b) == Value(b[1..])
  {
    if |b| > 1 {
      LeadingZero(b[..|b| - 1]);
      assert b[1..][..|b| - 2] == b[..|b| - 1][1..];
    }
  }

  class RlpStream {
    var out: Bytes
    var listStack: seq<Open>

    ghost function View(): Stream
      reads this
    {
      Stream(out, listStack)
    }

    constructor ()
      ensures View() == Stream([], []) && View().Valid()
    {
      out, listStack := [], [];
    }

    /** Room for the bytes of i is made and filled from its end. */
    method PushInt(i: nat, br: nat)
      requires br == |Compact(i)|
      modifies this`out
      ensures out == old(out) + Compact(i)
    {
      var p := |out|;
      out := out + Zeros(br);
      FillBackwards(p, i, br);
      assert out == old(out) + Compact(i) + [];
    }

    /** The loop that stores the bytes of i from position p + br - 1 down, lowest byte first. */
    method FillBackwards(p: nat, i: nat, br: nat)
      requires p + br <= |out| && br == |Compact(i)|
      modifies this`out
      ensures out == old(out)[..p] + Compact(i) + old(out)[p + br..]
    {
      ghost var before, after := out[..p], out[p + br..];
      var n, k := i, br;
      while n != 0
        modifies this`out
        invariant k <= br && |out| == p + br + |after| && |Compact(n)| == k
        invariant out[..p] == before && out[p + br..] == after
        invariant Compact(i) == Compact(n) + out[p + k..p + br]
        decreases n
      {
        ghost var done := out[p + k..p + br];
        out := out[p + k - 1 := n % 256];
        n, k := n / 256, k - 1;
        assert out[p + k..p + br] == [out[p + k]] + done;
      }
      assert out == out[..p] + out[p..p + br] + out[p + br..];
    }

    /** A type byte and the count behind it; false where the source throws, because the type byte overflows. */
    method PushCount(count: nat, base: Byte) returns (ok: bool)
      modifies this`out
      ensures ok == (|Compact(count)| + base <= 0xff)
      ensures ok ==> out == old(out) + ([|Compact(count)| + base] + Compact(count))
    {
      var br := BytesRequired(count);
      if br + base > 0xff {
        return false;
      }
      out := out + [br + base];
      PushInt(count, br);
      return true;
    }

    /** The list whose payload starts at p is complete: make room, shift the payload, store the header if it fits. */
    method InsertHeader(p: nat) returns (ok: bool)
      requires p <= |out|
      modifies this`out
      ensures ok <==> |old(out)| - p < SIZE
      ensures out == if ok then Closed(old(out), p) else Unheaded(old(out), p)
    {
      var s := |out| - p;
      LengthBytes(s);
      var brs := BytesRequired(s);
      var encodeSize := if s < IMM_LEN_COUNT then 1 else 1 + brs;
      MakeRoom(p, encodeSize);
      if s < IMM_LEN_COUNT {
        out := out[p := LIST_START + s];
        assert out == old(out)[..p] + ([LIST_START + s] + old(out)[p..]);
      } else if LIST_IND_LEN_ZERO + brs <= 0xff {
        StoreLongHeader(p, s, brs);
      } else {
        return false;
      }
      return true;
    }

    /** resize and memmove: the bytes from p on move up; what stays in the gap is overwritten. */
    method MakeRoom(p: nat, n: nat)
      requires p <= |out|
      modifies this`out
      ensures |out| == |old(out)| + n && out[..p] == old(out)[..p] && out[p + n..] == old(out)[p..]
      ensures out == Moved(old(out), p, n)
    {
      var os := |out|;
      out := out + Zeros(n);
      assert out[p..os] == old(out)[p..];
      out := out[..p + n] + out[p..os];
    }

    method StoreLongHeader(p: nat, s: nat, brs: nat)
      requires IMM_LEN_COUNT <= s < SIZE && brs == |Compact(s)| && p + 1 + brs <= |out|
      modifies this`out
      ensures out == old(out)[..p] + Head(LIST_START, s) + old(out)[p + 1 + brs..]
    {
      LengthBytes(s);
      out := out[p := LIST_IND_LEN_ZERO + brs];
      assert out[..p + 1] == old(out)[..p] + [LIST_IND_LEN_ZERO + brs];
      assert out[p + 1 + brs..] == old(out)[p + 1 + brs..];
      FillBackwards(p + 1, s, brs);
    }

    /** The last open list has got all its items. */
    method CloseTop(ghost count: nat) returns (ok: bool)
      requires View().Valid() && listStack != [] && listStack[|listStack| - 1].missing == count > 0
      modifies this
      ensures View().Valid() && listStack == old(listStack)[..|old(listStack)| - 1]
      ensures AfterNote(old(View()), count) == if ok then AfterNote(View(), 1) else (View(), false)
    {
      var last := |listStack| - 1;
      var start := listStack[last].start;
      if |out| - start < SIZE {
        NoteLast(View(), count);
      } else {
        NoteTooLarge(View(), count);
      }
      listStack := listStack[..last];
      ok := InsertHeader(start);
    }

    /** false where the source throws. */
    method NoteAppended(itemCount: nat) returns (ok: bool)
      requires View().Valid()
      modifies this
      ensures View().Valid() && (View(), ok) == AfterNote(old(View()), itemCount)
    {
      if itemCount == 0 {
        return true;
      }
      var count := itemCount;
      while |listStack| > 0
        modifies this
        invariant View().Valid() && count > 0
        invariant AfterNote(old(View()), itemCount) == AfterNote(View(), count)
        decreases |listStack|
      {
        var last := |listStack| - 1;
        var top := listStack[last];
        if top.missing < count {
          return false;
        }
        if top.missing != count {
          NoteFewer(View(), count);
          listStack := listStack[last := Open(top.missing - count, top.start)];
          return true;
        }
        var closed := CloseTop(count);
        if !closed {
          return false;
        }
        count := 1;
      }
      return true;
    }

    method AppendRaw(bytes: Bytes, itemCount: nat) returns (ok: bool)
      requires View().Valid()
      modifies this
      ensures View().Valid()
      ensures (View(), ok) == AfterNote(Stream(old(out) + bytes, old(listStack)), itemCount)
    {
      out := out + bytes;
      ok := NoteAppended(itemCount);
    }

    /** The header of n bytes of payload: one type byte, or pushCount. */
    method PushHead(base: Byte, n: nat) returns (ok: bool)
      requires (base == DATA_IMM_LEN_START || base == LIST_START) && n < SIZE
      modifies this`out
      ensures ok && out == old(out) + Head(base, n)
    {
      LengthBytes(n);
      if n < IMM_LEN_COUNT {
        out := out + [n + base];
        ok := true;
      } else {
        ok := PushCount(n, if base == LIST_START then LIST_IND_LEN_ZERO else DATA_IND_LEN_ZERO);
      }
    }

    /** appendList of a finished payload. */
    method AppendListBytes(rlp: Bytes) returns (ok: bool)
      requires View().Valid() && |rlp| < SIZE
      modifies this
      ensures View().Valid() && (View(), ok) == AppendedItem(old(View()), EncodeList(rlp))
    {
      ok := PushHead(LIST_START, |rlp|);
      assert out + rlp == old(out) + EncodeList(rlp);
      ok := AppendRaw(rlp, 1);
    }

    /** appendList of a number of items that follow. */
    method AppendList(items: nat) returns (ok: bool)
      requires View().Valid()
      modifies this
      ensures View().Valid()
      ensures items == 0 ==> (View(), ok) == AppendedItem(old(View()), EncodeList([]))
      ensures items > 0 ==> ok && View() == Stream(old(out), old(listStack) + [Open(items, |old(out)|)])
    {
      if items != 0 {
        listStack := listStack + [Open(items, |out|)];
        ok := true;
      } else {
        ok := AppendListBytes([]);
      }
    }

    /** append of bytes; compact drops leading zeros first. */
    method Append(b: Bytes, compact: bool) returns (ok: bool)
      requires View().Valid() && |b| < SIZE
      modifies this
      ensures View().Valid()
      ensures |if compact then Stripped(b) else b| < SIZE
           && (View(), ok) == AppendedItem(old(View()), EncodeData(if compact then Stripped(b) else b))
    {
      var d: Bytes := b;
      if compact {
        d := Strip(b);
      }
      if |d| == 1 && d[0] < DATA_IMM_LEN_START {
        out := out + [d[0]];
        assert d == [d[0]];
      } else {
        ok := PushHead(DATA_IMM_LEN_START, |d|);
        assert out + d == old(out) + EncodeData(d);
        ok := AppendRaw(d, 0);
      }
      ok := NoteAppended(1);
    }

    static method Strip(b: Bytes) returns (d: Bytes)
      ensures d == Stripped(b) && |d| <= |b|
    {
      d := b;
      while d != [] && d[0] == 0
        invariant Stripped(d) == Stripped(b) && |d| <= |b|
        decreases |d|
      {
        d := d[1..];
      }
    }

    /** append of a number: its compact big-endian bytes as data. */
    method AppendInt(i: nat) returns (ok: bool)
      requires View().Valid() && |Compact(i)| < SIZE
      modifies this
      ensures View().Valid() && (View(), ok) == AppendedItem(old(View()), EncodeData(Compact(i)))
    {
      if i == 0 {
        out := out + [DATA_IMM_LEN_START];
        assert EncodeData([]) == [DATA_IMM_LEN_START];
      } else if i < DATA_IMM_LEN_START {
        out := out + [i];
        assert Compact(i / 256) == [] && Compact(i) == [i];
      } else {
        CompactSingle(i);
        var br := BytesRequired(i);
        PushIntHead(br);
        PushInt(i, br);
        assert out == old(out) + EncodeData(Compact(i));
      }
      ok := NoteAppended(1);
    }

    method PushIntHead(br: nat)
      requires br < SIZE
      modifies this`out
      ensures out == old(out) + Head(DATA_IMM_LEN_START, br)
    {
      LengthBytes(br);
      if br < IMM_LEN_COUNT {
        out := out + [br + DATA_IMM_LEN_START];
      } else {
        var brbr := BytesRequired(br);
        out := out + [DATA_IND_LEN_ZERO + brbr];
        PushInt(br, brbr);
      }
    }

    /** The calls that write an item. */
    method AppendItem(x: Item) returns (ok: bool)
      requires View().Valid() && Encodable(x)
      modifies this
      ensures View().Valid() && (View(), ok) == AppendedItem(old(View()), Encode(x))
      decreases x, 0
    {
      WalkIsEncoding(View(), x);
      match x
      case Data(b) =>
        ok := Append(b, false);
      case List(xs) =>
        ok := AppendList(|xs|);
        if xs != [] {
          ok := AppendItems(xs);
        }
    }

    method AppendItems(xs: seq<Item>) returns (ok: bool)
      requires View().Valid() && AllEncodable(xs)
      modifies this
      ensures View().Valid() && (View(), ok) == WalkAll(old(View()), xs)
      decreases xs, 1
    {
      ok := true;
      assert xs[0..] == xs;
      for i := 0 to |xs|
        modifies this
        invariant ok && View().Valid()
        invariant WalkAll(old(View()), xs) == WalkAll(View(), xs[i..])
      {
        WalkIsEncoding(View(), xs[i]);
        assert xs[i..][1..] == xs[i + 1..];
        ok := AppendItem(xs[i]);
        if !ok {
          return;
        }
      }
    }
  }

  lemma CompactSingle(i: nat)
    requires i >= 0x80
    ensures |Compact(i)| == 1 ==> Compact(i)[0] >= 0x80
  {
    if i / 256 > 0 {
      ValueCompact(i / 256);
    }
  }
}
