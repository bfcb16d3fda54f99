/**
  Types and values of the contract ABI and their encoding (section "Formal
  Specification of the Encoding" of the Solidity Contract ABI Specification).
 */
module AbiFormat {
  import opened Prelude
  import opened BigEndian

  datatype Type =
    | UInt | SInt | Bool | Address | String32 | String
    | Array(n: nat, element: Type)
    | Vector(element: Type)

  /** Numbers, truth values, byte strings and sequences. */
  datatype Value = Num(n: int) | Flag(b: bool) | Blob(bytes: Bytes) | Values(values: seq<Value>)

  const WORD: nat := 32

  /** 2^256; u256 counts modulo this. */
  const U256: int := 0x1_0000000000000000_0000000000000000_0000000000000000_0000000000000000

  /** Unsigned 256-bit numbers; numbers of sign and 256-bit magnitude; byte strings of their lengths. */
  predicate HasType(t: Type, v: Value)
    decreases t, 0
  {
    match t
    case UInt => v.Num? && 0 <= v.n < U256
    case SInt => v.Num? && -U256 < v.n < U256
    case Bool => v.Flag?
    case Address => v.Blob? && |v.bytes| == 20
    case String32 => v.Blob? && |v.bytes| == 32
    case String => v.Blob?
    case Array(n, e) => v.Values? && |v.values| == n && AllHaveType(e, v.values)
    case Vector(e) => v.Values? && |v.values| < SIZE && AllHaveType(e, v.values)
  }

  predicate AllHaveType(e: Type, vs: seq<Value>)
    decreases e, |vs| + 1
  {
    vs == [] || (HasType(e, vs[0]) && AllHaveType(e, vs[1..]))
  }

  predicate Dynamic(t: Type) {
    match t
    case String => true
    case Vector(_) => true
    case Array(_, e) => Dynamic(e)
    case _ => false
  }

  /** Words in the fixed part: one for an offset, all of them for a static array. */
  function Length(t: Type): nat {
    if t.Array? && !Dynamic(t) then t.n * Length(t.element) else 1
  }

  function Word(n: nat): (r: Bytes)
    ensures |r| == WORD
  {
    Fixed(n, WORD)
  }

  /** Two's complement. */
  function Unsigned(n: int): nat
    requires -U256 < n < U256
  {
    if n >= 0 then n else n + U256
  }

  function PaddedLength(n: nat): (r: nat)
    ensures n <= r
  {
    (n + 31) / 32 * 32
  }

  function Encode(t: Type, v: Value): Bytes
    requires HasType(t, v)
    decreases t, 0
  {
    match t
    case UInt => Word(v.n)
    case SInt => Word(Unsigned(v.n))
    case Bool => Word(if v.b then 1 else 0)
    case Address => Zeros(12) + v.bytes
    case String32 => v.bytes
    case String => Word(|v.bytes|) + v.bytes + Zeros(PaddedLength(|v.bytes|) - |v.bytes|)
    case Array(n, e) => Elements(e, v.values)
    case Vector(e) => Word(|v.values|) + Elements(e, v.values)
  }

  /** The elements of an array: preceded by their offsets, if they are dynamic. */
  function Elements(e: Type, vs: seq<Value>): Bytes
    requires AllHaveType(e, vs)
    decreases e, |vs| + 2
  {
    var outs := EncodeEach(e, vs);
    if Dynamic(e) then Heads(outs, |outs| * 32) + Concat(outs) else Concat(outs)
  }

  function EncodeEach(e: Type, vs: seq<Value>): (r: seq<Bytes>)
    requires AllHaveType(e, vs)
    ensures |r| == |vs|
    decreases e, |vs| + 1
  {
    if vs == [] then [] else [Encode(e, vs[0])] + EncodeEach(e, vs[1..])
  }

  /** Where each element starts, if the first one starts at offset. */
  function Heads(outs: seq<Bytes>, offset: nat): (r: Bytes)
    ensures |r| == |outs| * 32
  {
    if outs == [] then [] else Word(offset) + Heads(outs[1..], offset + |outs[0]|)
  }

  predicate AllOfSize(outs: seq<Bytes>, size: nat) {
    outs == [] || (|outs[0]| == size && AllOfSize(outs[1..], size))
  }

  lemma {:induction false} ConcatOfSize(outs: seq<Bytes>, size: nat)
    requires AllOfSize(outs, size)
    ensures |Concat(outs)| == |outs| * size
  {
    if outs == [] {
    } else {
      ConcatOfSize(outs[1..], size);
      assert |outs| * size == (|outs| - 1) * size + size;
    }
  }

  /** A static value takes the words of its type. */
  lemma {:induction false} StaticLength(t: Type, v: Value)
    requires HasType(t, v) && !Dynamic(t)
    ensures |Encode(t, v)| == Length(t) * 32
    decreases t, 0
  {
    if t.Array? {
      StaticLengths(t.element, v.values);
      ConcatOfSize(EncodeEach(t.element, v.values), Length(t.element) * 32);
    }
  }

  lemma {:induction false} StaticLengths(e: Type, vs: seq<Value>)
    requires AllHaveType(e, vs) && !Dynamic(e)
    ensures AllOfSize(EncodeEach(e, vs), Length(e) * 32)
    decreases e, |vs| + 1
  {
    if vs == [] {
    } else {
      StaticLength(e, vs[0]);
      StaticLengths(e, vs[1..]);
    }
  }
}
