/** Class ContractABI: argument lists, with a fixed part for offsets and static values and a dynamic part behind it. */
module AbiCodec {
  import opened Prelude
  import opened AbiFormat
  import opened AbiReader

  predicate Typed(ts: seq<Type>, vs: seq<AbiFormat.Value>) {
    |ts| == |vs| && (ts == [] || (HasType(ts[0], vs[0]) && Typed(ts[1..], vs[1..])))
  }

  /** Words of the fixed part. */
  function FixedWords(ts: seq<Type>): nat {
    if ts == [] then 0 else Length(ts[0]) + FixedWords(ts[1..])
  }

  function EncodeTyped(ts: seq<Type>, vs: seq<AbiFormat.Value>): (outs: seq<Bytes>)
    requires Typed(ts, vs)
    ensures |outs| == |ts|
  {
    if ts == [] then [] else [Encode(ts[0], vs[0])] + EncodeTyped(ts[1..], vs[1..])
  }

  /** Static arguments themselves; of dynamic ones the offsets, the first of them being offset. */
  function FixedPart(ts: seq<Type>, outs: seq<Bytes>, offset: nat): Bytes
    requires |ts| == |outs|
  {
    if ts == [] then []
    else if Dynamic(ts[0]) then Word(offset) + FixedPart(ts[1..], outs[1..], offset + |outs[0]|)
    else outs[0] + FixedPart(ts[1..], outs[1..], offset)
  }

  function DynamicPart(ts: seq<Type>, outs: seq<Bytes>): Bytes
    requires |ts| == |outs|
  {
    if ts == [] then [] else (if Dynamic(ts[0]) then outs[0] else []) + DynamicPart(ts[1..], outs[1..])
  }

  function Arguments(ts: seq<Type>, vs: seq<AbiFormat.Value>): Bytes
    requires Typed(ts, vs)
  {
    var outs := EncodeTyped(ts, vs);
    FixedPart(ts, outs, FixedWords(ts) * 32) + DynamicPart(ts, outs)
  }

  /** The arguments from offset on. */
  function DecodeArguments(ts: seq<Type>, data: Bytes, offset: nat): Result<seq<AbiFormat.Value>, Error>
    decreases |ts|
  {
    if ts == [] then Ok([])
    else
      var at :- ArgumentOffset(ts[0], data, offset);
      var v :- Decode(ts[0], data, Wrap(at));
      var vs :- DecodeArguments(ts[1..], data, Wrap(offset + Length(ts[0]) * 32));
      Ok([v] + vs)
  }

  function ReadingEach(ts: seq<Type>, vs: seq<AbiFormat.Value>): seq<AbiFormat.Value>
    requires Typed(ts, vs)
  {
    if ts == [] then [] else [Reading(ts[0], vs[0])] + ReadingEach(ts[1..], vs[1..])
  }

  predicate EachInRange(ts: seq<Type>, vs: seq<AbiFormat.Value>)
    requires Typed(ts, vs)
  {
    ts == [] || (InRange(ts[0], vs[0]) && EachInRange(ts[1..], vs[1..]))
  }

  /** Static arguments take the words of their types. */
  predicate Sized(ts: seq<Type>, outs: seq<Bytes>) {
    |ts| == |outs| &&
    (ts == [] || ((Dynamic(ts[0]) || |outs[0]| == Length(ts[0]) * 32) && Sized(ts[1..], outs[1..])))
  }

  lemma {:induction false} EncodedSized(ts: seq<Type>, vs: seq<AbiFormat.Value>)
    requires Typed(ts, vs)
    ensures Sized(ts, EncodeTyped(ts, vs))
  {
    if ts == [] {
    } else {
      if !Dynamic(ts[0]) {
        StaticLength(ts[0], vs[0]);
      }
      EncodedSized(ts[1..], vs[1..]);
    }
  }

  lemma {:induction false} FixedLength(ts: seq<Type>, outs: seq<Bytes>, offset: nat)
    requires Sized(ts, outs)
    ensures |FixedPart(ts, outs, offset)| == FixedWords(ts) * 32
  {
    if ts == [] {
    } else {
      FixedLength(ts[1..], outs[1..], if Dynamic(ts[0]) then offset + |outs[0]| else offset);
    }
  }

  /** Where an argument with its slot at slot is. */
  function ArgumentOffset(t: Type, data: Bytes, slot: nat): Result<nat, Error> {
    if Dynamic(t) then ReadWord(data, slot) else Ok(slot)
  }

  /** The arguments are found at the given bodies. */
  predicate ArgumentsLocated(ts: seq<Type>, data: Bytes, slot: nat, outs: seq<Bytes>)
    requires |ts| == |outs|
  {
    ts == [] ||
    (var at := ArgumentOffset(ts[0], data, slot);
     && slot + Length(ts[0]) * 32 < SIZE && at.Ok? && at.value < SIZE && At(data, at.value, outs[0])
     && ArgumentsLocated(ts[1..], data, slot + Length(ts[0]) * 32, outs[1..]))
  }

  lemma DynamicFirst(
      ts: seq<Type>, outs: seq<Bytes>, data: Bytes, slot: nat, offset: nat, nextSlot: nat, nextOffset: nat)
    requires |ts| == |outs| && ts != [] && Dynamic(ts[0]) && |data| < SIZE
    requires nextSlot == slot + 32 && nextOffset == offset + |outs[0]|
    requires At(data, slot, FixedPart(ts, outs, offset)) && At(data, offset, DynamicPart(ts, outs))
    ensures Length(ts[0]) == 1 && nextSlot <= |data| && ReadWord(data, slot) == Ok(offset)
    ensures At(data, offset, outs[0])
    ensures At(data, nextSlot, FixedPart(ts[1..], outs[1..], nextOffset))
    ensures At(data, nextOffset, DynamicPart(ts[1..], outs[1..]))
  {
    AtParts(data, slot, Word(offset), FixedPart(ts[1..], outs[1..], nextOffset));
    AtParts(data, offset, outs[0], DynamicPart(ts[1..], outs[1..]));
    ReadWordAt(data, slot, offset);
  }

  lemma StaticFirst(ts: seq<Type>, outs: seq<Bytes>, data: Bytes, slot: nat, offset: nat, nextSlot: nat)
    requires |ts| == |outs| && ts != [] && !Dynamic(ts[0]) && nextSlot == slot + |outs[0]|
    requires At(data, slot, FixedPart(ts, outs, offset)) && At(data, offset, DynamicPart(ts, outs))
    ensures nextSlot <= |data| && At(data, slot, outs[0])
    ensures At(data, nextSlot, FixedPart(ts[1..], outs[1..], offset))
    ensures At(data, offset, DynamicPart(ts[1..], outs[1..]))
  {
    AtParts(data, slot, outs[0], FixedPart(ts[1..], outs[1..], offset));
    assert [] + DynamicPart(ts[1..], outs[1..]) == DynamicPart(ts[1..], outs[1..]);
  }

  lemma ArgumentsLocatedCons(ts: seq<Type>, data: Bytes, slot: nat, outs: seq<Bytes>, at: nat, next: nat)
    requires |ts| == |outs| && ts != [] && next == slot + Length(ts[0]) * 32 < SIZE && at < SIZE
    requires ArgumentOffset(ts[0], data, slot) == Ok(at) && At(data, at, outs[0])
    requires ArgumentsLocated(ts[1..], data, next, outs[1..])
    ensures ArgumentsLocated(ts, data, slot, outs)
  {
  }

  /** Static arguments are in their slots, dynamic ones where their slots point. */
  lemma {:induction false} PartsLocated(ts: seq<Type>, outs: seq<Bytes>, data: Bytes, slot: nat, offset: nat)
    requires Sized(ts, outs) && |data| < SIZE
    requires At(data, slot, FixedPart(ts, outs, offset)) && At(data, offset, DynamicPart(ts, outs))
    ensures ArgumentsLocated(ts, data, slot, outs)
  {
    if ts == [] {
    } else {
      var size := |outs[0]|;
      if Dynamic(ts[0]) {
        DynamicFirst(ts, outs, data, slot, offset, slot + 32, offset + size);
        PartsLocated(ts[1..], outs[1..], data, slot + 32, offset + size);
        ArgumentsLocatedCons(ts, data, slot, outs, offset, slot + 32);
      } else {
        StaticFirst(ts, outs, data, slot, offset, slot + size);
        PartsLocated(ts[1..], outs[1..], data, slot + size, offset);
        ArgumentsLocatedCons(ts, data, slot, outs, slot, slot + size);
      }
    }
  }

  lemma {:induction false} LocatedArgumentsDecode(ts: seq<Type>, vs: seq<AbiFormat.Value>, data: Bytes, slot: nat)
    requires Typed(ts, vs) && |data| < SIZE && ArgumentsLocated(ts, data, slot, EncodeTyped(ts, vs))
    ensures DecodeArguments(ts, data, slot) == Ok(ReadingEach(ts, vs))
    decreases |ts|
  {
    if ts == [] {
    } else {
      DecodeAt(ts[0], vs[0], data, ArgumentOffset(ts[0], data, slot).value);
      LocatedArgumentsDecode(ts[1..], vs[1..], data, slot + Length(ts[0]) * 32);
    }
  }

  lemma {:induction false} EachReadAsItself(ts: seq<Type>, vs: seq<AbiFormat.Value>)
    requires Typed(ts, vs)
    ensures ReadingEach(ts, vs) == vs <==> EachInRange(ts, vs)
  {
    if ts == [] {
    } else {
      ReadAsItself(ts[0], vs[0]);
      EachReadAsItself(ts[1..], vs[1..]);
      assert vs == [vs[0]] + vs[1..];
    }
  }

  /** Arguments are read back, exactly when no signed number is on the wrong side of the sign test. */
  lemma RoundTrip(ts: seq<Type>, vs: seq<AbiFormat.Value>)
    requires Typed(ts, vs) && |Arguments(ts, vs)| < SIZE
    ensures DecodeArguments(ts, Arguments(ts, vs), 0).Ok?
    ensures DecodeArguments(ts, Arguments(ts, vs), 0) == Ok(vs) <==> EachInRange(ts, vs)
  {
    var fixedSize, outs := FixedWords(ts) * 32, EncodeTyped(ts, vs);
    var data := Arguments(ts, vs);
    EncodedSized(ts, vs);
    FixedLength(ts, outs, fixedSize);
    assert data[0..0 + |data|] == data;
    AtParts(data, 0, FixedPart(ts, outs, fixedSize), DynamicPart(ts, outs));
    PartsLocated(ts, outs, data, 0, fixedSize);
    LocatedArgumentsDecode(ts, vs, data, 0);
    EachReadAsItself(ts, vs);
  }
}
