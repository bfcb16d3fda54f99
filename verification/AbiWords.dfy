/**
  What the bytes of encoded values are, type by type, as the section "Formal
  Specification of the Encoding" of the Solidity Contract ABI Specification has
  them.
 */
module AbiWords {
  import opened Prelude
  import opened BigEndian
  import opened AbiFormat
  import opened AbiReader
  import opened AbiCodec

  /** 32 bytes, big-endian. */
  ghost predicate IsWord(out: Bytes, n: nat) {
    |out| == 32 && (n < U256 ==> BigEndian.Value(out) == n)
  }

  /** A length, the bytes, and zeros up to a multiple of 32. */
  ghost predicate SpellsString(b: Bytes, out: Bytes) {
    && 32 + |b| <= |out| < 64 + |b| && |out| % 32 == 0
    && IsWord(out[..32], |b|) && out[32..32 + |b|] == b && forall i :: 32 + |b| <= i < |out| ==> out[i] == 0
  }

  /** From slot on there is an offset for each part, and from at on the parts are where these offsets say. */
  ghost predicate OffsetsFrom(parts: seq<Bytes>, out: Bytes, slot: nat, at: nat) {
    parts == [] ||
    (&& slot + 32 <= |out| && IsWord(out[slot..slot + 32], at) && At(out, at, parts[0])
     && OffsetsFrom(parts[1..], out, slot + 32, at + |parts[0]|))
  }

  /** Static elements follow each other; dynamic ones follow each other behind their offsets. */
  ghost predicate LaidOut(parts: seq<Bytes>, dynamic: bool, out: Bytes) {
    if dynamic then |out| == 32 * |parts| + |Concat(parts)| && OffsetsFrom(parts, out, 0, 32 * |parts|)
    else out == Concat(parts)
  }

  ghost predicate Spells(t: Type, v: AbiFormat.Value, out: Bytes)
    requires HasType(t, v)
    decreases t, 0
  {
    match t
    case UInt => IsWord(out, v.n)
    case SInt => IsWord(out, if v.n >= 0 then v.n else v.n + U256)
    case Bool => IsWord(out, if v.b then 1 else 0)
    case Address => |out| == 32 && (forall i :: 0 <= i < 12 ==> out[i] == 0) && out[12..] == v.bytes
    case String32 => out == v.bytes
    case String => SpellsString(v.bytes, out)
    case Array(_, e) => exists parts :: SpellsAll(e, v.values, parts) && LaidOut(parts, Dynamic(e), out)
    case Vector(e) =>
      && |out| >= 32 && IsWord(out[..32], |v.values|)
      && exists parts :: SpellsAll(e, v.values, parts) && LaidOut(parts, Dynamic(e), out[32..])
  }

  ghost predicate SpellsAll(e: Type, vs: seq<AbiFormat.Value>, parts: seq<Bytes>)
    requires AllHaveType(e, vs)
    decreases e, |vs| + 1
  {
    |parts| == |vs| && (vs == [] || (Spells(e, vs[0], parts[0]) && SpellsAll(e, vs[1..], parts[1..])))
  }

  lemma WordIsWord(n: nat)
    ensures IsWord(Word(n), n)
  {
    WordBound();
    if n < U256 {
      ValueFixed(n, WORD);
    }
  }

  lemma StringSpelled(b: Bytes)
    ensures SpellsString(b, Word(|b|) + b + Zeros(PaddedLength(|b|) - |b|))
  {
    var out := Word(|b|) + b + Zeros(PaddedLength(|b|) - |b|);
    WordIsWord(|b|);
    assert out[..32] == Word(|b|) && out[32..32 + |b|] == b;
  }

  lemma {:induction false} HeadsSpelled(parts: seq<Bytes>, out: Bytes, slot: nat, at: nat)
    requires At(out, slot, Heads(parts, at)) && At(out, at, Concat(parts))
    ensures OffsetsFrom(parts, out, slot, at)
    decreases |parts|
  {
    if parts == [] {
    } else {
      AtParts(out, slot, Word(at), Heads(parts[1..], at + |parts[0]|));
      AtParts(out, at, parts[0], Concat(parts[1..]));
      WordIsWord(at);
      HeadsSpelled(parts[1..], out, slot + 32, at + |parts[0]|);
    }
  }

  lemma AtBoth(a: Bytes, b: Bytes)
    ensures At(a + b, 0, a) && At(a + b, |a|, b)
  {
    TakeAppend(a, b);
  }

  lemma DynamicLaidOut(parts: seq<Bytes>, heads: Bytes, tails: Bytes, start: nat, at: nat)
    requires start == 0 && at == |parts| * 32 && heads == Heads(parts, at) && tails == Concat(parts)
    ensures LaidOut(parts, true, heads + tails)
  {
    AtBoth(heads, tails);
    HeadsSpelled(parts, heads + tails, start, at);
  }

  lemma {:induction false} EncodeSpells(t: Type, v: AbiFormat.Value)
    requires HasType(t, v)
    ensures Spells(t, v, Encode(t, v))
    decreases t, 0
  {
    match t
    case UInt => WordIsWord(v.n);
    case SInt => WordIsWord(Unsigned(v.n));
    case Bool => WordIsWord(if v.b then 1 else 0);
    case Address => assert Encode(t, v)[12..] == v.bytes;
    case String32 =>
    case String => StringSpelled(v.bytes);
    case Array(_, e) =>
      ElementsSpell(e, v.values);
    case Vector(e) =>
      ElementsSpell(e, v.values);
      WordIsWord(|v.values|);
      TakeAppend(Word(|v.values|), Elements(e, v.values));
  }

  lemma {:induction false} ElementsSpell(e: Type, vs: seq<AbiFormat.Value>)
    requires AllHaveType(e, vs)
    ensures SpellsAll(e, vs, EncodeEach(e, vs)) && LaidOut(EncodeEach(e, vs), Dynamic(e), Elements(e, vs))
    decreases e, |vs| + 2
  {
    EachSpells(e, vs);
    var parts := EncodeEach(e, vs);
    DynamicLaidOut(parts, Heads(parts, |parts| * 32), Concat(parts), 0, |parts| * 32);
  }

  lemma {:induction false} EachSpells(e: Type, vs: seq<AbiFormat.Value>)
    requires AllHaveType(e, vs)
    ensures SpellsAll(e, vs, EncodeEach(e, vs))
    decreases e, |vs| + 1
  {
    if vs == [] {
    } else {
      EncodeSpells(e, vs[0]);
      EachSpells(e, vs[1..]);
    }
  }

  ghost predicate SpellsEach(ts: seq<Type>, vs: seq<AbiFormat.Value>, parts: seq<Bytes>)
    requires Typed(ts, vs)
  {
    |parts| == |ts| && (ts == [] || (Spells(ts[0], vs[0], parts[0]) && SpellsEach(ts[1..], vs[1..], parts[1..])))
  }

  /** Bytes of the fixed part: static arguments, and one offset for each dynamic one. */
  ghost function HeadSize(ts: seq<Type>, parts: seq<Bytes>): nat
    requires |ts| == |parts|
  {
    if ts == [] then 0 else (if Dynamic(ts[0]) then 32 else |parts[0]|) + HeadSize(ts[1..], parts[1..])
  }

  ghost function TailSize(ts: seq<Type>, parts: seq<Bytes>): nat
    requires |ts| == |parts|
  {
    if ts == [] then 0 else (if Dynamic(ts[0]) then |parts[0]| else 0) + TailSize(ts[1..], parts[1..])
  }

  /** From slot on a static argument or an offset for each, and the dynamic ones where the offsets say, from at on. */
  ghost predicate ArgumentsFrom(ts: seq<Type>, parts: seq<Bytes>, out: Bytes, slot: nat, at: nat)
    requires |ts| == |parts|
  {
    if ts == [] then true
    else if Dynamic(ts[0]) then
      && slot + 32 <= |out| && IsWord(out[slot..slot + 32], at) && At(out, at, parts[0])
      && ArgumentsFrom(ts[1..], parts[1..], out, slot + 32, at + |parts[0]|)
    else At(out, slot, parts[0]) && ArgumentsFrom(ts[1..], parts[1..], out, slot + |parts[0]|, at)
  }

  /** The arguments of a call: the fixed part, and behind it the dynamic ones in order, with nothing in between. */
  ghost predicate SpellsArguments(ts: seq<Type>, vs: seq<AbiFormat.Value>, out: Bytes)
    requires Typed(ts, vs)
  {
    exists parts :: SpellsEach(ts, vs, parts) && ArgumentsLaidOut(ts, parts, out)
  }

  ghost predicate ArgumentsLaidOut(ts: seq<Type>, parts: seq<Bytes>, out: Bytes)
    requires |ts| == |parts|
  {
    && |out| == HeadSize(ts, parts) + TailSize(ts, parts)
    && ArgumentsFrom(ts, parts, out, 0, HeadSize(ts, parts))
  }

  lemma {:induction false} TypedSpells(ts: seq<Type>, vs: seq<AbiFormat.Value>)
    requires Typed(ts, vs)
    ensures SpellsEach(ts, vs, EncodeTyped(ts, vs))
  {
    if ts == [] {
    } else {
      EncodeSpells(ts[0], vs[0]);
      TypedSpells(ts[1..], vs[1..]);
    }
  }

  lemma {:induction false} PartSizes(ts: seq<Type>, parts: seq<Bytes>, offset: nat)
    requires |ts| == |parts|
    ensures |FixedPart(ts, parts, offset)| == HeadSize(ts, parts) && |DynamicPart(ts, parts)| == TailSize(ts, parts)
  {
    if ts == [] {
    } else {
      PartSizes(ts[1..], parts[1..], if Dynamic(ts[0]) then offset + |parts[0]| else offset);
    }
  }

  lemma DynamicSpelled(ts: seq<Type>, parts: seq<Bytes>, out: Bytes, slot: nat, at: nat)
    requires |ts| == |parts| && At(out, slot, FixedPart(ts, parts, at)) && At(out, at, DynamicPart(ts, parts))
    requires ts != [] && Dynamic(ts[0])
    ensures slot + 32 <= |out| && IsWord(out[slot..slot + 32], at) && At(out, at, parts[0])
    ensures At(out, slot + 32, FixedPart(ts[1..], parts[1..], at + |parts[0]|))
    ensures At(out, at + |parts[0]|, DynamicPart(ts[1..], parts[1..]))
  {
    AtParts(out, slot, Word(at), FixedPart(ts[1..], parts[1..], at + |parts[0]|));
    AtParts(out, at, parts[0], DynamicPart(ts[1..], parts[1..]));
    WordIsWord(at);
  }

  lemma {:induction false} PartsSpelled(ts: seq<Type>, parts: seq<Bytes>, out: Bytes, slot: nat, at: nat)
    requires |ts| == |parts| && At(out, slot, FixedPart(ts, parts, at)) && At(out, at, DynamicPart(ts, parts))
    ensures ArgumentsFrom(ts, parts, out, slot, at)
    decreases |ts|
  {
    if ts == [] {
    } else if Dynamic(ts[0]) {
      DynamicSpelled(ts, parts, out, slot, at);
      PartsSpelled(ts[1..], parts[1..], out, slot + 32, at + |parts[0]|);
    } else {
      StaticFirst(ts, parts, out, slot, at, slot + |parts[0]|);
      PartsSpelled(ts[1..], parts[1..], out, slot + |parts[0]|, at);
    }
  }

  lemma ArgumentsSpelled(ts: seq<Type>, vs: seq<AbiFormat.Value>)
    requires Typed(ts, vs)
    ensures SpellsArguments(ts, vs, Arguments(ts, vs))
  {
    var parts, at := EncodeTyped(ts, vs), FixedWords(ts) * 32;
    var fixed, dynamic := FixedPart(ts, parts, at), DynamicPart(ts, parts);
    TypedSpells(ts, vs);
    EncodedSized(ts, vs);
    FixedLength(ts, parts, at);
    PartSizes(ts, parts, at);
    AtBoth(fixed, dynamic);
    PartsSpelled(ts, parts, fixed + dynamic, 0, at);
  }
}
