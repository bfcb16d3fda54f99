/** The loops of the ABI codec and the state of class ContractABI. */
module ContractAbi {
  import opened Prelude
  import opened BigEndian
  import opened AbiFormat
  import opened AbiReader
  import opened AbiCodec
  import opened AbiWords

  /** A 32-byte hash object filled from a number. */
  method SerialiseNumber(n: nat) returns (out: Bytes)
    ensures out == Word(n)
  {
    var h256 := new Byte[WORD];
    ToBigEndian(n, h256);
    return h256[..];
  }

  /** serialise: the bytes of a value. */
  method Serialise(t: Type, v: AbiFormat.Value) returns (out: Bytes)
    requires HasType(t, v)
    ensures out == Encode(t, v) && Spells(t, v, out)
  {
    out := SerialiseByType(t, v);
    EncodeSpells(t, v);
  }

  /** serialise, for every type. */
  method SerialiseByType(t: Type, v: AbiFormat.Value) returns (out: Bytes)
    requires HasType(t, v)
    ensures out == Encode(t, v)
    decreases t, 0
  {
    match t
    case UInt => out := SerialiseNumber(v.n);
    case SInt => out := SerialiseNumber(Unsigned(v.n));
    case Bool => out := SerialiseNumber(if v.b then 1 else 0);
    case Address => out := Zeros(12) + v.bytes;
    case String32 => out := v.bytes;
    case String =>
      out := SerialiseNumber(|v.bytes|);
      out := out + v.bytes + Zeros((|v.bytes| + 31) / 32 * 32 - |v.bytes|);
    case Array(n, e) =>
      out := SerialiseElements(e, v.values, []);
      assert [] + Elements(e, v.values) == Elements(e, v.values);
    case Vector(e) =>
      var size := SerialiseNumber(|v.values|);
      out := SerialiseElements(e, v.values, size);
  }

  lemma {:induction false} HeadsSnoc(outs: seq<Bytes>, out: Bytes, offset: nat)
    ensures Heads(outs + [out], offset) == Heads(outs, offset) + Word(offset + |Concat(outs)|)
  {
    if outs != [] {
      HeadsSnoc(outs[1..], out, offset + |outs[0]|);
      assert (outs + [out])[1..] == outs[1..] + [out];
    } else {
      assert [] + [out] == [out];
    }
  }

  lemma OneMore(outs: seq<Bytes>, i: nat, offset: nat)
    requires i < |outs|
    ensures Concat(outs[..i + 1]) == Concat(outs[..i]) + outs[i]
    ensures Heads(outs[..i + 1], offset) == Heads(outs[..i], offset) + Word(offset + |Concat(outs[..i])|)
  {
    ConcatSnoc(outs[..i], outs[i]);
    HeadsSnoc(outs[..i], outs[i], offset);
    assert outs[..i] + [outs[i]] == outs[..i + 1];
  }

  lemma {:induction false} EncodeEachAt(e: Type, vs: seq<AbiFormat.Value>, i: nat)
    requires AllHaveType(e, vs) && i < |vs|
    ensures HasType(e, vs[i]) && EncodeEach(e, vs)[i] == Encode(e, vs[i])
  {
    if i == 0 {
    } else {
      EncodeEachAt(e, vs[1..], i - 1);
    }
  }

  /** The loop over the elements of an array or a vector. */
  method SerialiseElements(e: Type, vs: seq<AbiFormat.Value>, size: Bytes) returns (out: Bytes)
    requires AllHaveType(e, vs)
    ensures out == size + Elements(e, vs)
    decreases e, 1
  {
    var offsetBytes, content := size, [];
    var length := |vs| * 32;
    ghost var outs, heads := EncodeEach(e, vs), [];
    for i := 0 to |vs|
      invariant content == Concat(outs[..i]) && length == |vs| * 32 + if Dynamic(e) then |content| else 0
      invariant heads == if Dynamic(e) then Heads(outs[..i], |vs| * 32) else []
      invariant offsetBytes == size + heads
    {
      EncodeEachAt(e, vs, i);
      OneMore(outs, i, |vs| * 32);
      var element := SerialiseByType(e, vs[i]);
      content := content + element;
      if Dynamic(e) {
        var offset := SerialiseNumber(length);
        AppendAssoc(size, heads, offset);
        offsetBytes, heads := offsetBytes + offset, heads + offset;
        length := length + |element|;
      }
    }
    assert outs[..|vs|] == outs;
    AppendAssoc(size, heads, content);
    assert !Dynamic(e) ==> heads + content == content;
    out := offsetBytes + content;
  }

  /** deserialise, for every type. */
  method Deserialise(t: Type, data: Bytes, offset: nat) returns (r: Result<AbiFormat.Value, Error>)
    ensures r == Decode(t, data, offset)
    decreases t, 0
  {
    match t
    case Array(n, e) =>
      var vs :- DeserialiseElements(e, data, offset, n);
      return Ok(Values(vs));
    case Vector(e) =>
      var length :- ReadWord(data, offset);
      var vs :- DeserialiseElements(e, data, Wrap(offset + WORD), Wrap(length));
      return Ok(Values(vs));
    case _ =>
      return Decode(t, data, offset);
  }

  /** Of the elements, those in vs are read and those from u on are still to be read. */
  ghost predicate ReadSoFar(e: Type, data: Bytes, base: nat, n: nat, vs: seq<AbiFormat.Value>, u: nat) {
    match DecodeAll(e, data, base, u, n)
    case Ok(rest) => DecodeAll(e, data, base, 0, n) == Ok(vs + rest)
    case Err(e') => DecodeAll(e, data, base, 0, n) == Err(e')
  }

  /** The loop over the elements of an array or a vector. */
  method DeserialiseElements(e: Type, data: Bytes, base: nat, n: nat) returns (r: Result<seq<AbiFormat.Value>, Error>)
    ensures r == DecodeAll(e, data, base, 0, n)
    decreases e, 1
  {
    var out := [];
    ReadNothing(e, data, base, n);
    for u := 0 to n
      invariant ReadSoFar(e, data, base, n, out, u)
    {
      ReadOne(e, data, base, n, out, u);
      var thisOffset :- ElementOffset(e, data, base, u);
      var v :- Deserialise(e, data, thisOffset);
      out := out + [v];
    }
    assert out + [] == out;
    return Ok(out);
  }

  lemma ReadNothing(e: Type, data: Bytes, base: nat, n: nat)
    ensures ReadSoFar(e, data, base, n, [], 0)
  {
    assert DecodeAll(e, data, base, 0, n).Ok? ==>
        [] + DecodeAll(e, data, base, 0, n).value == DecodeAll(e, data, base, 0, n).value;
  }

  lemma ReadOne(e: Type, data: Bytes, base: nat, n: nat, vs: seq<AbiFormat.Value>, u: nat)
    requires u < n && ReadSoFar(e, data, base, n, vs, u)
    ensures var offset := ElementOffset(e, data, base, u);
            if offset.Err? then DecodeAll(e, data, base, 0, n) == Err(offset.error)
            else match Decode(e, data, offset.value)
                 case Err(e') => DecodeAll(e, data, base, 0, n) == Err(e')
                 case Ok(v) => ReadSoFar(e, data, base, n, vs + [v], u + 1)
  {
    var offset := ElementOffset(e, data, base, u);
    if offset.Ok? && Decode(e, data, offset.value).Ok? && DecodeAll(e, data, base, u + 1, n).Ok? {
      AppendAssoc(vs, [Decode(e, data, offset.value).value], DecodeAll(e, data, base, u + 1, n).value);
    }
  }

  /** The first argument, and the parts of the others behind it. */
  lemma PartsStep(ts: seq<Type>, outs: seq<Bytes>, offset: nat, f: Bytes, d: Bytes)
    requires |ts| == |outs| && ts != []
    ensures Dynamic(ts[0]) ==>
              && f + FixedPart(ts, outs, offset) == f + Word(offset) + FixedPart(ts[1..], outs[1..], offset + |outs[0]|)
              && d + DynamicPart(ts, outs) == d + outs[0] + DynamicPart(ts[1..], outs[1..])
    ensures !Dynamic(ts[0]) ==>
              && f + FixedPart(ts, outs, offset) == f + outs[0] + FixedPart(ts[1..], outs[1..], offset)
              && d + DynamicPart(ts, outs) == d + DynamicPart(ts[1..], outs[1..])
  {
    if Dynamic(ts[0]) {
      AppendAssoc(f, Word(offset), FixedPart(ts[1..], outs[1..], offset + |outs[0]|));
      AppendAssoc(d, outs[0], DynamicPart(ts[1..], outs[1..]));
    } else {
      AppendAssoc(f, outs[0], FixedPart(ts[1..], outs[1..], offset));
      assert [] + DynamicPart(ts[1..], outs[1..]) == DynamicPart(ts[1..], outs[1..]);
    }
  }

  lemma BehindSelector(selector: Bytes, ts: seq<Type>, vs: seq<AbiFormat.Value>, r: Bytes)
    requires Typed(ts, vs) && r == selector + Arguments(ts, vs)
    ensures |selector| <= |r| && r[..|selector|] == selector && SpellsArguments(ts, vs, r[|selector|..])
  {
    TakeAppend(selector, Arguments(ts, vs));
    ArgumentsSpelled(ts, vs);
  }

  class ContractABI {
    var offset: nat
    var fixed: Bytes
    var dynamic: Bytes
    var data: Bytes

    constructor ()
      ensures offset == 0 && fixed == [] && dynamic == [] && data == []
    {
      offset, fixed, dynamic, data := 0, [], [], [];
    }

    /** The arguments, one recursive call for each. */
    method AbiInAux(ts: seq<Type>, vs: seq<AbiFormat.Value>)
      requires Typed(ts, vs)
      modifies `offset, `fixed, `dynamic
      ensures fixed == old(fixed) + FixedPart(ts, EncodeTyped(ts, vs), old(offset))
      ensures dynamic == old(dynamic) + DynamicPart(ts, EncodeTyped(ts, vs))
      decreases |ts|
    {
      if ts != [] {
        PartsStep(ts, EncodeTyped(ts, vs), offset, fixed, dynamic);
        var out := Serialise(ts[0], vs[0]);
        if Dynamic(ts[0]) {
          dynamic := dynamic + out;
          var head := SerialiseNumber(offset);
          fixed := fixed + head;
          offset := offset + |out|;
        } else {
          fixed := fixed + out;
        }
        AbiInAux(ts[1..], vs[1..]);
      }
    }

    /** The fixed and the dynamic part of the arguments. */
    method AbiArguments(ts: seq<Type>, vs: seq<AbiFormat.Value>) returns (r: Bytes)
      requires Typed(ts, vs)
      modifies `offset, `fixed, `dynamic
      ensures r == Arguments(ts, vs)
    {
      offset := FixedWords(ts) * 32;
      fixed, dynamic := [], [];
      AbiInAux(ts, vs);
      r := fixed + dynamic;
    }

    /** A function selector is put in front, if there is a signature. */
    method AbiIn(h: Hash, sig: Bytes, ts: seq<Type>, vs: seq<AbiFormat.Value>) returns (r: Bytes)
      requires Typed(ts, vs) && IsHash(h)
      modifies `offset, `fixed, `dynamic
      ensures sig == [] ==> r == Arguments(ts, vs)
      ensures var n := if sig == [] then 0 else 4;
              |r| >= n && r[..n] == h(sig)[..n] && SpellsArguments(ts, vs, r[n..])
    {
      var selector := if sig == [] then [] else h(sig)[..4];
      r := AbiArguments(ts, vs);
      assert [] + r == r;
      r := selector + r;
      BehindSelector(selector, ts, vs, r);
    }

    method AbiOutAux(ts: seq<Type>) returns (r: Result<seq<AbiFormat.Value>, Error>)
      modifies `offset
      ensures r == DecodeArguments(ts, data, old(offset))
      decreases |ts|
    {
      if ts == [] {
        return Ok([]);
      }
      var at := offset;
      if Dynamic(ts[0]) {
        at :- ReadWord(data, offset);
      }
      var v :- Deserialise(ts[0], data, Wrap(at));
      offset := Wrap(offset + Length(ts[0]) * 32);
      var vs :- AbiOutAux(ts[1..]);
      return Ok([v] + vs);
    }

    /** None when it returns false: something was thrown. */
    method AbiOut(d: Bytes, ts: seq<Type>) returns (r: Option<seq<AbiFormat.Value>>)
      modifies `offset, `data
      ensures r == match DecodeArguments(ts, d, 0) case Ok(vs) => Some(vs) case Err(_) => None
    {
      data, offset := d, 0;
      var out := AbiOutAux(ts);
      r := match out case Ok(vs) => Some(vs) case Err(_) => None;
    }
  }

  /** What abiIn writes, abiOut reads. */
  method InAndOut(abi: ContractABI, h: Hash, ts: seq<Type>, vs: seq<AbiFormat.Value>)
    returns (r: Option<seq<AbiFormat.Value>>)
    requires Typed(ts, vs) && IsHash(h) && |Arguments(ts, vs)| < SIZE
    modifies abi
    ensures r.Some? && (r == Some(vs) <==> EachInRange(ts, vs))
  {
    var encoded := abi.AbiIn(h, [], ts, vs);
    RoundTrip(ts, vs);
    r := abi.AbiOut(encoded, ts);
  }
}
