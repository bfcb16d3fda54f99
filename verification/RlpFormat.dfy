/**
  Recursive length prefix: item trees and their encoding, after Appendix B of
  the Ethereum Yellow Paper. Lengths are unsigned 64-bit numbers.
 */
module RlpFormat {
  import opened Prelude
  import opened BigEndian

  datatype Item = Data(data: Bytes) | List(items: seq<Item>)

  const DATA_IMM_LEN_START: Byte := 0x80
  const LIST_START: Byte := 0xc0
  const MAX_LENGTH_BYTES: nat := 8
  const IMM_LEN_COUNT: nat := 56
  const DATA_IND_LEN_ZERO: Byte := 0xb7
  const LIST_IND_LEN_ZERO: Byte := 0xf7

  lemma SizeIsEightBytes()
    ensures SIZE == Pow256(8)
  {
    assert Pow256(4) == 0x1_0000_0000;
  }

  lemma LengthBytes(n: nat)
    ensures |Compact(n)| <= MAX_LENGTH_BYTES <==> n < SIZE
    ensures n > 0 ==> |Compact(n)| > 0
  {
    SizeIsEightBytes();
    CompactLength(n, 8);
  }

  /** The header of a payload of n bytes; base is 0x80 for data and 0xc0 for lists. */
  function Head(base: Byte, n: nat): (r: Bytes)
    requires base == DATA_IMM_LEN_START || base == LIST_START
    requires n < SIZE
    ensures |r| == HeadLength(n)
  {
    LengthBytes(n);
    if n < IMM_LEN_COUNT then [base + n] else [base + 55 + |Compact(n)|] + Compact(n)
  }

  function HeadLength(n: nat): nat {
    if n < IMM_LEN_COUNT then 1 else 1 + |Compact(n)|
  }

  function EncodedLength(x: Item): nat {
    match x
    case Data(b) => if |b| == 1 && b[0] < DATA_IMM_LEN_START then 1 else HeadLength(|b|) + |b|
    case List(xs) => HeadLength(EncodedLengths(xs)) + EncodedLengths(xs)
  }

  function EncodedLengths(xs: seq<Item>): nat {
    if xs == [] then 0 else EncodedLength(xs[0]) + EncodedLengths(xs[1..])
  }

  /** Every payload length fits in 64 bits. */
  predicate Encodable(x: Item) {
    match x
    case Data(b) => |b| < SIZE
    case List(xs) => EncodedLengths(xs) < SIZE && forall i :: 0 <= i < |xs| ==> Encodable(xs[i])
  }

  predicate AllEncodable(xs: seq<Item>) {
    forall i :: 0 <= i < |xs| ==> Encodable(xs[i])
  }

  function EncodeData(b: Bytes): Bytes
    requires |b| < SIZE
  {
    if |b| == 1 && b[0] < DATA_IMM_LEN_START then b else Head(DATA_IMM_LEN_START, |b|) + b
  }

  function EncodeList(payload: Bytes): Bytes
    requires |payload| < SIZE
  {
    Head(LIST_START, |payload|) + payload
  }

  /** The encoding of an item. */
  function Encode(x: Item): (r: Bytes)
    requires Encodable(x)
    ensures |r| == EncodedLength(x) && r != []
  {
    match x
    case Data(b) => EncodeData(b)
    case List(xs) => EncodeList(EncodeAll(xs))
  }

  function EncodeAll(xs: seq<Item>): (r: Bytes)
    requires AllEncodable(xs)
    ensures |r| == EncodedLengths(xs)
  {
    if xs == [] then [] else Encode(xs[0]) + EncodeAll(xs[1..])
  }

  lemma EncodeAllCons(x: Item, xs: seq<Item>)
    requires Encodable(x) && AllEncodable(xs)
    ensures AllEncodable([x] + xs) && EncodeAll([x] + xs) == Encode(x) + EncodeAll(xs)
  {
    assert ([x] + xs)[1..] == xs;
  }
}
