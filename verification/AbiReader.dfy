/** Reading ABI encodings back. */
module AbiReader {
  import opened Prelude
  import opened BigEndian
  import opened AbiFormat

  datatype Error = LengthError

  /** Arithmetic on std::size_t. */
  function Wrap(x: nat): (r: nat)
    ensures r < SIZE && (x < SIZE ==> r == x)
  {
    x % SIZE
  }

  /** A number of one word, after validOffset. */
  function ReadWord(data: Bytes, offset: nat): Result<nat, Error> {
    if Wrap(offset + WORD - 1) >= |data| then Err(LengthError) else Ok(BigEndian.Value(Cropped(data, offset, WORD)))
  }

  /** Copying a view over a target; what the view does not reach stays zero. */
  function Populate(view: Bytes, size: nat): (r: Bytes)
    ensures |r| == size
  {
    if |view| < size then view + Zeros(size - |view|) else view[..size]
  }

  /** Numbers above 0x8fff...f are taken to be negative. */
  function Signed(u: nat): int {
    if u > 0x8fffffffffffffffffffffffffffffffffffffffffffffffffffffffffffffff then u - U256 else u
  }

  function Decode(t: Type, data: Bytes, offset: nat): Result<AbiFormat.Value, Error>
    decreases t, 0
  {
    match t
    case UInt => var u :- ReadWord(data, offset); Ok(Num(u))
    case SInt => var u :- ReadWord(data, offset); Ok(Num(Signed(u)))
    case Bool => var u :- ReadWord(data, offset); Ok(Flag(u > 0))
    case Address => var _ :- ReadWord(data, offset); Ok(Blob(Populate(Cropped(data, Wrap(offset + WORD - 20), 20), 20)))
    case String32 => var _ :- ReadWord(data, offset); Ok(Blob(Populate(Cropped(data, offset, WORD), WORD)))
    case String =>
      var len :- ReadWord(data, offset);
      if Wrap(offset + WORD + Wrap(len) - 1) >= |data| then Err(LengthError)
      else Ok(Blob(Cropped(data, Wrap(offset + WORD), Wrap(len))))
    case Array(n, e) => var vs :- DecodeAll(e, data, offset, 0, n); Ok(Values(vs))
    case Vector(e) =>
      var len :- ReadWord(data, offset);
      var vs :- DecodeAll(e, data, Wrap(offset + WORD), 0, Wrap(len));
      Ok(Values(vs))
  }

  /** Where element k is. */
  function ElementOffset(e: Type, data: Bytes, base: nat, k: nat): Result<nat, Error> {
    ElementAt(e, data, base, base + k * Length(e) * 32)
  }

  /** Where the element is whose slot in the fixed part is given. */
  function ElementAt(e: Type, data: Bytes, base: nat, slot: nat): Result<nat, Error> {
    if Dynamic(e) then
      var offset :- ReadWord(data, Wrap(slot));
      Ok(Wrap(base + Wrap(offset)))
    else Ok(Wrap(slot))
  }

  /** Elements k to n of an array at base. */
  function DecodeAll(e: Type, data: Bytes, base: nat, k: nat, n: nat): Result<seq<AbiFormat.Value>, Error>
    decreases e, if k < n then n - k else 0
  {
    if k >= n then Ok([])
    else
      var offset :- ElementOffset(e, data, base, k);
      var v :- Decode(e, data, offset);
      var vs :- DecodeAll(e, data, base, k + 1, n);
      Ok([v] + vs)
  }

  /** What is read for a value: the value, except for signed numbers on the wrong side of the sign test. */
  function Reading(t: Type, v: AbiFormat.Value): AbiFormat.Value
    requires HasType(t, v)
    decreases t, 0
  {
    match t
    case SInt => Num(Signed(Unsigned(v.n)))
    case Array(_, e) => Values(ReadingAll(e, v.values))
    case Vector(e) => Values(ReadingAll(e, v.values))
    case _ => v
  }

  function ReadingAll(e: Type, vs: seq<AbiFormat.Value>): seq<AbiFormat.Value>
    requires AllHaveType(e, vs)
    decreases e, |vs| + 1
  {
    if vs == [] then [] else [Reading(e, vs[0])] + ReadingAll(e, vs[1..])
  }

  /** Every signed number is at least -7 * 2^252 and below 9 * 2^252. */
  predicate InRange(t: Type, v: AbiFormat.Value)
    requires HasType(t, v)
    decreases t, 0
  {
    match t
    case SInt => -7 * (U256 / 16) <= v.n < 9 * (U256 / 16)
    case Array(_, e) => AllInRange(e, v.values)
    case Vector(e) => AllInRange(e, v.values)
    case _ => true
  }

  predicate AllInRange(e: Type, vs: seq<AbiFormat.Value>)
    requires AllHaveType(e, vs)
    decreases e, |vs| + 1
  {
    vs == [] || (InRange(e, vs[0]) && AllInRange(e, vs[1..]))
  }

  /** A value is read as itself exactly when its signed numbers are in that range. */
  lemma {:induction false} ReadAsItself(t: Type, v: AbiFormat.Value)
    requires HasType(t, v)
    ensures Reading(t, v) == v <==> InRange(t, v)
    decreases t, 0
  {
    match t
    case Array(_, e) => AllReadAsThemselves(e, v.values);
    case Vector(e) => AllReadAsThemselves(e, v.values);
    case _ =>
  }

  lemma {:induction false} AllReadAsThemselves(e: Type, vs: seq<AbiFormat.Value>)
    requires AllHaveType(e, vs)
    ensures ReadingAll(e, vs) == vs <==> AllInRange(e, vs)
    decreases e, |vs| + 1
  {
    if vs == [] {
    } else {
      ReadAsItself(e, vs[0]);
      AllReadAsThemselves(e, vs[1..]);
      assert vs == [vs[0]] + vs[1..];
    }
  }

  /** b stands in data at offset. */
  predicate At(data: Bytes, offset: nat, b: Bytes) {
    offset + |b| <= |data| && data[offset..offset + |b|] == b
  }

  lemma AtParts(data: Bytes, offset: nat, a: Bytes, b: Bytes)
    requires At(data, offset, a + b)
    ensures At(data, offset, a) && At(data, offset + |a|, b)
  {
    var ab := data[offset..offset + |a + b|];
    assert data[offset..offset + |a|] == ab[..|a|] == a;
    assert data[offset + |a|..offset + |a| + |b|] == ab[|a|..] == b;
  }

  lemma WordBound()
    ensures Pow256(WORD) == U256
  {
    assert Pow256(8) == SIZE by {
      assert Pow256(4) == 0x1_0000_0000;
    }
    PowAdd(8, 8);
    PowAdd(16, 16);
  }

  lemma {:induction false} PowAdd(a: nat, b: nat)
    ensures Pow256(a + b) == Pow256(a) * Pow256(b)
  {
    if b == 0 {
    } else {
      PowAdd(a, b - 1);
      assert Pow256(a) * Pow256(b) == Pow256(a) * Pow256(b - 1) * 256;
    }
  }

  lemma ReadWordAt(data: Bytes, offset: nat, n: nat)
    requires |data| < SIZE && n < U256 && At(data, offset, Word(n))
    ensures ReadWord(data, offset) == Ok(n)
  {
    WordBound();
    ValueFixed(n, WORD);
  }

  /** What a word is read as, whatever it holds: a number, a signed number, a truth value, an address, or itself. */
  lemma DecodeWord(data: Bytes, offset: nat, w: Bytes)
    requires |w| == 32 && |data| < SIZE && At(data, offset, w)
    ensures Decode(UInt, data, offset) == Ok(Num(BigEndian.Value(w)))
    ensures var u := BigEndian.Value(w);
            Decode(SInt, data, offset) == Ok(Num(if u < 9 * (U256 / 16) then u else u - U256))
    ensures Decode(Bool, data, offset) == Ok(Flag(BigEndian.Value(w) != 0))
    ensures Decode(Address, data, offset) == Ok(Blob(w[12..])) && Decode(String32, data, offset) == Ok(Blob(w))
  {
    assert Cropped(data, offset, WORD) == w;
    assert Cropped(data, offset + 12, 20) == w[12..];
    assert w[12..][..20] == w[12..] && w[..32] == w;
  }

  /** A word that is not all there is an error. */
  lemma NoWord(t: Type, data: Bytes, offset: nat)
    requires (t.UInt? || t.SInt? || t.Bool? || t.Address? || t.String32?) && offset + 32 <= SIZE
    ensures Decode(t, data, offset).Ok? <==> offset + 32 <= |data|
  {
  }

  /** A string is what its length says, if that is there. */
  lemma DecodeString(data: Bytes, offset: nat, w: Bytes)
    requires |w| == 32 && |data| < SIZE && At(data, offset, w) && offset + 32 + BigEndian.Value(w) <= SIZE
    ensures var n, from := BigEndian.Value(w), offset + 32;
            Decode(String, data, offset)
            == if from + n <= |data| then Ok(Blob(data[from..from + n])) else Err(LengthError)
  {
    assert Cropped(data, offset, WORD) == w;
  }

  lemma NumberAt(t: Type, v: AbiFormat.Value, data: Bytes, offset: nat)
    requires (t.UInt? || t.SInt? || t.Bool?) && HasType(t, v) && |data| < SIZE && At(data, offset, Encode(t, v))
    ensures Decode(t, data, offset) == Ok(Reading(t, v))
  {
    match t
    case UInt => ReadWordAt(data, offset, v.n);
    case SInt => ReadWordAt(data, offset, Unsigned(v.n));
    case Bool => ReadWordAt(data, offset, if v.b then 1 else 0);
  }

  /** An encoded value is read back from wherever it stands. */
  lemma {:induction false} DecodeAt(t: Type, v: AbiFormat.Value, data: Bytes, offset: nat)
    requires HasType(t, v) && |data| < SIZE && At(data, offset, Encode(t, v))
    ensures Decode(t, data, offset) == Ok(Reading(t, v))
    decreases t, 0
  {
    match t
    case UInt => NumberAt(t, v, data, offset);
    case SInt => NumberAt(t, v, data, offset);
    case Bool => NumberAt(t, v, data, offset);
    case Address => AddressAt(v.bytes, data, offset);
    case String32 => assert v.bytes[..WORD] == v.bytes;
    case String => StringAt(v.bytes, data, offset);
    case Array(n, e) => ArrayAt(e, v.values, data, offset);
    case Vector(e) =>
      AtParts(data, offset, Word(|v.values|), Elements(e, v.values));
      ReadWordAt(data, offset, |v.values|);
      ArrayAt(e, v.values, data, offset + WORD);
  }

  lemma AddressAt(b: Bytes, data: Bytes, offset: nat)
    requires |b| == 20 && |data| < SIZE && At(data, offset, Zeros(12) + b)
    ensures Decode(Address, data, offset) == Ok(Blob(b))
  {
    AtParts(data, offset, Zeros(12), b);
    assert b[..20] == b;
  }

  lemma StringAt(b: Bytes, data: Bytes, offset: nat)
    requires |data| < SIZE && At(data, offset, Word(|b|) + b + Zeros(PaddedLength(|b|) - |b|))
    ensures Decode(String, data, offset) == Ok(Blob(b))
  {
    AtParts(data, offset, Word(|b|) + b, Zeros(PaddedLength(|b|) - |b|));
    UnpaddedAt(b, data, offset);
  }

  lemma UnpaddedAt(b: Bytes, data: Bytes, offset: nat)
    requires |data| < SIZE && At(data, offset, Word(|b|) + b)
    ensures Decode(String, data, offset) == Ok(Blob(b))
  {
    AtParts(data, offset, Word(|b|), b);
    ReadWordAt(data, offset, |b|);
  }

  /** Elements whose slots begin at slot are found at the given bodies. */
  predicate Located(e: Type, data: Bytes, base: nat, slot: nat, bodies: seq<Bytes>)
    decreases |bodies|
  {
    bodies == [] ||
    (var offset := ElementAt(e, data, base, slot);
     offset.Ok? && At(data, offset.value, bodies[0]) && Located(e, data, base, slot + Length(e) * 32, bodies[1..]))
  }

  lemma HeadRead(data: Bytes, slot: nat, bodies: seq<Bytes>, offset: nat)
    requires |data| < SIZE && bodies != [] && offset < SIZE && At(data, slot, Heads(bodies, offset))
    ensures ReadWord(data, slot) == Ok(offset) && At(data, slot + 32, Heads(bodies[1..], offset + |bodies[0]|))
  {
    AtParts(data, slot, Word(offset), Heads(bodies[1..], offset + |bodies[0]|));
    ReadWordAt(data, slot, offset);
  }

  /** The offsets of the bodies are read one after the other. */
  predicate OffsetsRead(data: Bytes, slot: nat, bodies: seq<Bytes>, offset: nat)
    decreases |bodies|
  {
    bodies == [] ||
    (slot + 32 <= |data| && ReadWord(data, slot) == Ok(offset) &&
     OffsetsRead(data, slot + 32, bodies[1..], offset + |bodies[0]|))
  }

  lemma {:induction false} HeadsRead(data: Bytes, slot: nat, bodies: seq<Bytes>, offset: nat)
    requires |data| < SIZE && offset + |Concat(bodies)| < SIZE && At(data, slot, Heads(bodies, offset))
    ensures OffsetsRead(data, slot, bodies, offset)
    decreases |bodies|
  {
    if bodies == [] {
    } else {
      HeadRead(data, slot, bodies, offset);
      HeadsRead(data, slot + 32, bodies[1..], offset + |bodies[0]|);
    }
  }

  lemma DynamicFirstLocated(e: Type, data: Bytes, base: nat, bodies: seq<Bytes>, slot: nat, offset: nat)
    requires Dynamic(e) && |data| < SIZE && bodies != []
    requires OffsetsRead(data, slot, bodies, offset) && At(data, base + offset, bodies[0])
    requires Located(e, data, base, slot + 32, bodies[1..])
    ensures Located(e, data, base, slot, bodies)
  {
  }

  /** Dynamic elements are found through their offsets. */
  lemma {:induction false} DynamicLocated(
      e: Type, data: Bytes, base: nat, bodies: seq<Bytes>, slot: nat, offset: nat, body: nat)
    requires Dynamic(e) && |data| < SIZE && body == base + offset
    requires OffsetsRead(data, slot, bodies, offset) && At(data, body, Concat(bodies))
    ensures Located(e, data, base, slot, bodies)
    decreases |bodies|
  {
    if bodies == [] {
    } else {
      var size := |bodies[0]|;
      AtParts(data, body, bodies[0], Concat(bodies[1..]));
      DynamicLocated(e, data, base, bodies[1..], slot + 32, offset + size, body + size);
      DynamicFirstLocated(e, data, base, bodies, slot, offset);
    }
  }

  /** Static elements are found one after the other. */
  lemma {:induction false} StaticLocated(e: Type, data: Bytes, base: nat, bodies: seq<Bytes>, slot: nat)
    requires !Dynamic(e) && |data| < SIZE && AllOfSize(bodies, Length(e) * 32) && At(data, slot, Concat(bodies))
    ensures Located(e, data, base, slot, bodies)
    decreases |bodies|
  {
    if bodies == [] {
    } else {
      AtParts(data, slot, bodies[0], Concat(bodies[1..]));
      StaticLocated(e, data, base, bodies[1..], slot + Length(e) * 32);
    }
  }

  lemma ElementsLocated(e: Type, vs: seq<AbiFormat.Value>, data: Bytes, base: nat)
    requires AllHaveType(e, vs) && |data| < SIZE && At(data, base, Elements(e, vs))
    ensures Located(e, data, base, base, EncodeEach(e, vs))
  {
    var outs := EncodeEach(e, vs);
    if Dynamic(e) {
      AtParts(data, base, Heads(outs, |outs| * 32), Concat(outs));
      HeadsRead(data, base, outs, |outs| * 32);
      DynamicLocated(e, data, base, outs, base, |outs| * 32, base + |outs| * 32);
    } else {
      StaticLengths(e, vs);
      StaticLocated(e, data, base, outs, base);
    }
  }

  lemma {:induction false} ArrayAt(e: Type, vs: seq<AbiFormat.Value>, data: Bytes, base: nat)
    requires AllHaveType(e, vs) && |data| < SIZE && At(data, base, Elements(e, vs))
    ensures DecodeAll(e, data, base, 0, |vs|) == Ok(ReadingAll(e, vs))
    decreases e, |vs| + 2
  {
    ElementsLocated(e, vs, data, base);
    LocatedDecodes(e, vs, data, base, 0, |vs|);
  }

  /** The slot of element k. */
  ghost function SlotOf(e: Type, base: nat, k: nat): nat {
    if k == 0 then base else SlotOf(e, base, k - 1) + Length(e) * 32
  }

  lemma {:induction false} SlotIs(e: Type, base: nat, k: nat)
    ensures SlotOf(e, base, k) == base + k * Length(e) * 32
  {
    if k == 0 {
    } else {
      SlotIs(e, base, k - 1);
    }
  }

  /** The first of the elements that are left is decoded. */
  lemma LocatedFirst(
      e: Type, data: Bytes, base: nat, k: nat, n: nat, offset: nat, v: AbiFormat.Value, vs: seq<AbiFormat.Value>)
    requires k < n && ElementAt(e, data, base, SlotOf(e, base, k)) == Ok(offset) && Decode(e, data, offset) == Ok(v)
    requires DecodeAll(e, data, base, k + 1, n) == Ok(vs)
    ensures DecodeAll(e, data, base, k, n) == Ok([v] + vs)
  {
    SlotIs(e, base, k);
  }

  lemma LocatedHead(e: Type, vs: seq<AbiFormat.Value>, data: Bytes, base: nat, k: nat) returns (offset: nat)
    requires AllHaveType(e, vs) && vs != [] && Located(e, data, base, SlotOf(e, base, k), EncodeEach(e, vs))
    ensures ElementAt(e, data, base, SlotOf(e, base, k)) == Ok(offset) && At(data, offset, Encode(e, vs[0]))
    ensures Located(e, data, base, SlotOf(e, base, k + 1), EncodeEach(e, vs[1..]))
  {
    offset := ElementAt(e, data, base, SlotOf(e, base, k)).value;
    assert EncodeEach(e, vs)[1..] == EncodeEach(e, vs[1..]);
  }

  lemma {:induction false} LocatedDecodes(
      e: Type, vs: seq<AbiFormat.Value>, data: Bytes, base: nat, k: nat, n: nat)
    requires AllHaveType(e, vs) && |data| < SIZE && n == k + |vs|
    requires Located(e, data, base, SlotOf(e, base, k), EncodeEach(e, vs))
    ensures DecodeAll(e, data, base, k, n) == Ok(ReadingAll(e, vs))
    decreases e, |vs| + 1
  {
    if vs == [] {
    } else {
      var offset := LocatedHead(e, vs, data, base, k);
      DecodeAt(e, vs[0], data, offset);
      LocatedDecodes(e, vs[1..], data, base, k + 1, n);
      LocatedFirst(e, data, base, k, n, offset, Reading(e, vs[0]), ReadingAll(e, vs[1..]));
    }
  }
}
