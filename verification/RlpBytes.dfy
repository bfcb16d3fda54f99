/**
  What the bytes of an encoded item are, after Appendix B of the Ethereum Yellow
  Paper.
 */
module RlpBytes {
  import opened Prelude
  import opened BigEndian
  import opened RlpFormat

  /**
    A payload of fewer than 56 bytes has its length in the first byte; a longer
    one has there the number of bytes of its length, and then the length without
    a leading zero.
   */
  ghost predicate Headed(d: Bytes, short: nat, long: nat, payload: Bytes) {
    if |payload| < 56 then |d| == 1 + |payload| && d[0] == short + |payload| && d[1..] == payload
    else LongHeaded(d, |d| - 1 - |payload|, long, payload)
  }

  ghost predicate LongHeaded(d: Bytes, k: int, long: nat, payload: Bytes) {
    && 1 <= k <= 8 && |d| == 1 + k + |payload| && d[0] == long + k && d[1] != 0
    && Value(d[1..1 + k]) == |payload| && d[1 + k..] == payload
  }

  /** A byte below 0x80 is itself; data are headed from 0x80 on, lists from 0xc0 on. */
  ghost predicate IsRlp(x: Item, d: Bytes)
    decreases x, 0
  {
    match x
    case Data(b) => if |b| == 1 && b[0] < 0x80 then d == b else Headed(d, 0x80, 0xb7, b)
    case List(xs) => exists parts :: AreRlp(xs, parts) && Headed(d, 0xc0, 0xf7, Concat(parts))
  }

  ghost predicate AreRlp(xs: seq<Item>, parts: seq<Bytes>)
    decreases xs, 1
  {
    |parts| == |xs| && forall i :: 0 <= i < |xs| ==> IsRlp(xs[i], parts[i])
  }

  lemma HeadIsHeaded(base: Byte, payload: Bytes)
    requires (base == DATA_IMM_LEN_START || base == LIST_START) && |payload| < SIZE
    ensures Headed(Head(base, |payload|) + payload, base, base + 0x37, payload)
  {
    var n, head := |payload|, Head(base, |payload|);
    var d := head + payload;
    TakeAppend(head, payload);
    LengthBytes(n);
    if n >= 56 {
      ValueCompact(n);
      assert d[1..|head|] == head[1..] == Compact(n);
    }
  }

  ghost function Encodings(xs: seq<Item>): (r: seq<Bytes>)
    requires AllEncodable(xs)
    ensures |r| == |xs| && forall i :: 0 <= i < |xs| ==> r[i] == Encode(xs[i])
  {
    seq(|xs|, i requires 0 <= i < |xs| => Encode(xs[i]))
  }

  lemma {:induction false} EncodeAllIsConcat(xs: seq<Item>)
    requires AllEncodable(xs)
    ensures EncodeAll(xs) == Concat(Encodings(xs))
  {
    if xs == [] {
    } else {
      EncodeAllIsConcat(xs[1..]);
      assert Encodings(xs)[1..] == Encodings(xs[1..]);
    }
  }

  lemma {:induction false} EncodeIsRlp(x: Item)
    requires Encodable(x)
    ensures IsRlp(x, Encode(x))
    decreases x
  {
    match x
    case Data(b) =>
      if !(|b| == 1 && b[0] < 0x80) {
        HeadIsHeaded(DATA_IMM_LEN_START, b);
      }
    case List(xs) =>
      forall i | 0 <= i < |xs|
        ensures IsRlp(xs[i], Encodings(xs)[i])
      {
        EncodeIsRlp(xs[i]);
      }
      EncodeAllIsConcat(xs);
      HeadIsHeaded(LIST_START, EncodeAll(xs));
      assert AreRlp(xs, Encodings(xs));
  }
}
