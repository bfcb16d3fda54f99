/**
  Nibble strings and their hex-prefix form (Appendix C of the Ethereum Yellow
  Paper): a flag nibble that says odd and leaf, and the nibbles packed in pairs.
 */
module HexPrefix {
  import opened Prelude

  type Nibble = x: int | 0 <= x < 16
  type Nibbles = seq<Nibble>

  /** asNibbles: the two halves of every byte. */
  function AsNibbles(b: Bytes): (r: Nibbles)
    ensures |r| == 2 * |b|
  {
    if b == [] then [] else [b[0] / 16, b[0] % 16] + AsNibbles(b[1..])
  }

  /** nibble: the i-th half byte. */
  function NibbleAt(b: Bytes, i: nat): Nibble
    requires i < 2 * |b|
  {
    if i % 2 == 1 then b[i / 2] % 16 else b[i / 2] / 16
  }

  lemma {:induction false} NibbleAtIsIndex(b: Bytes, i: nat)
    requires i < 2 * |b|
    ensures AsNibbles(b)[i] == NibbleAt(b, i)
  {
    if i >= 2 {
      NibbleAtIsIndex(b[1..], i - 2);
    }
  }

  /** A byte is its first nibble times sixteen and its second one. */
  lemma {:induction false} NibblesOfByte(b: Bytes, i: nat)
    requires i < |b|
    ensures var hi: int, lo: int := AsNibbles(b)[2 * i], AsNibbles(b)[2 * i + 1]; b[i] == hi * 16 + lo
  {
    if i == 0 {
    } else {
      NibblesOfByte(b[1..], i - 1);
      assert AsNibbles(b)[2..] == AsNibbles(b[1..]);
    }
  }

  /** Different byte strings have different nibbles. */
  lemma {:induction false} AsNibblesInjective(a: Bytes, b: Bytes)
    requires AsNibbles(a) == AsNibbles(b)
    ensures a == b
  {
    if a == [] {
    } else {
      assert AsNibbles(a)[0] == AsNibbles(b)[0] && AsNibbles(a)[1] == AsNibbles(b)[1];
      assert AsNibbles(a)[2..] == AsNibbles(a[1..]) && AsNibbles(b)[2..] == AsNibbles(b[1..]);
      AsNibblesInjective(a[1..], b[1..]);
    }
  }

  /** A byte from its two halves. */
  function Join(hi: Nibble, lo: Nibble): (r: Byte)
    ensures r / 16 == hi && r % 16 == lo
  {
    var h: int, l: int := hi, lo;
    h * 16 + l
  }

  function Pairs(n: Nibbles): Bytes
    requires |n| % 2 == 0
  {
    if n == [] then [] else [Join(n[0], n[1])] + Pairs(n[2..])
  }

  lemma {:induction false} PairsUnpack(n: Nibbles)
    requires |n| % 2 == 0
    ensures AsNibbles(Pairs(n)) == n
  {
    if n == [] {
    } else {
      PairsUnpack(n[2..]);
      assert n == [n[0], n[1]] + n[2..];
    }
  }

  function Flags(leaf: bool, odd: bool): Nibble {
    (if leaf then 2 else 0) + (if odd then 1 else 0)
  }

  /** The hex-prefix form of a path. */
  function Prefixed(n: Nibbles, leaf: bool): Bytes {
    if |n| % 2 == 1 then [Join(Flags(leaf, true), n[0])] + Pairs(n[1..])
    else [Join(Flags(leaf, false), 0)] + Pairs(n)
  }

  /** keyOf: the nibbles behind the flag, or behind the flag and its padding. */
  function KeyOf(hpe: Bytes): Nibbles {
    if hpe == [] then [] else AsNibbles(hpe)[if (hpe[0] / 16) % 2 == 1 then 1 else 2..]
  }

  /** isLeaf, on the first item of a two-item node. */
  predicate IsLeaf(hpe: Bytes)
    requires hpe != []
  {
    (hpe[0] / 32) % 2 == 1
  }

  lemma JoinFlags(leaf: bool, odd: bool, lo: Nibble)
    ensures var b := Join(Flags(leaf, odd), lo);
            ((b / 16) % 2 == 1 <==> odd) && ((b / 32) % 2 == 1 <==> leaf) && b / 16 == Flags(leaf, odd) && b % 16 == lo
  {
  }

  /** What keyOf sees of a flag byte and the bytes behind it. */
  lemma KeyBehind(leaf: bool, odd: bool, lo: Nibble, rest: Bytes, hpe: Bytes)
    requires hpe == [Join(Flags(leaf, odd), lo)] + rest
    ensures KeyOf(hpe) == (if odd then [lo] else []) + AsNibbles(rest) && IsLeaf(hpe) == leaf
  {
    JoinFlags(leaf, odd, lo);
    assert hpe[1..] == rest;
    assert AsNibbles(hpe) == [Flags(leaf, odd), lo] + AsNibbles(rest);
  }

  /** A path and its kind are read back from the hex-prefix form. */
  lemma PrefixedReadBack(n: Nibbles, leaf: bool)
    ensures Prefixed(n, leaf) != []
    ensures KeyOf(Prefixed(n, leaf)) == n && IsLeaf(Prefixed(n, leaf)) == leaf
  {
    if |n| % 2 == 1 {
      PairsUnpack(n[1..]);
      KeyBehind(leaf, true, n[0], Pairs(n[1..]), Prefixed(n, leaf));
      assert [n[0]] + n[1..] == n;
    } else {
      PairsUnpack(n);
      KeyBehind(leaf, false, 0, Pairs(n), Prefixed(n, leaf));
      assert [] + n == n;
    }
  }

  /**
    Compact form of a path, by its nibbles: 1 or 3 in front of an odd path, 0 or
    2 and a zero in front of an even one, the larger of the two for a leaf.
   */
  ghost predicate IsHexPrefix(ret: Bytes, n: Nibbles, leaf: bool) {
    AsNibbles(ret) == (if |n| % 2 == 1 then [if leaf then 3 else 1] else [if leaf then 2 else 0, 0]) + n
  }

  lemma PrefixedIsHexPrefix(n: Nibbles, leaf: bool)
    ensures IsHexPrefix(Prefixed(n, leaf), n, leaf)
  {
    var odd := |n| % 2 == 1;
    var rest := if odd then n[1..] else n;
    var lo := if odd then n[0] else 0;
    PairsUnpack(rest);
    JoinFlags(leaf, odd, lo);
    assert Prefixed(n, leaf)[1..] == Pairs(rest);
    assert odd ==> n == [n[0]] + n[1..];
  }

  lemma {:induction false} PrefixedLength(n: Nibbles, leaf: bool)
    ensures |Prefixed(n, leaf)| == |n| / 2 + 1
  {
    PairsLength(if |n| % 2 == 1 then n[1..] else n);
  }

  lemma {:induction false} PairsLength(n: Nibbles)
    requires |n| % 2 == 0
    ensures |Pairs(n)| == |n| / 2
  {
    if n == [] {
    } else {
      PairsLength(n[2..]);
    }
  }

  /** hexPrefixEncode of a vector of nibbles; a negative end counts from behind its last position. */
  method EncodeVector(hexVector: Nibbles, leaf: bool, begin: nat, end: int) returns (ret: Bytes)
    requires begin <= EndOf(|hexVector|, end) <= |hexVector|
    ensures ret == Prefixed(hexVector[begin..EndOf(|hexVector|, end)], leaf)
    ensures var stop := if end < 0 then |hexVector| + 1 + end else end; IsHexPrefix(ret, hexVector[begin..stop], leaf)
  {
    var stop := EndOf(|hexVector|, end);
    var odd := (stop - begin) % 2 != 0;
    ret := [Join(Flags(leaf, odd), 0)];
    var i := begin;
    if odd {
      ret := [ret[0] + hexVector[i]];
      i := i + 1;
      assert hexVector[begin..stop][1..] == hexVector[i..stop];
    }
    ret := AppendPairs(ret, hexVector, i, stop);
    PrefixedIsHexPrefix(hexVector[begin..stop], leaf);
  }

  method AppendPairs(ret0: Bytes, hexVector: Nibbles, begin: nat, end: nat) returns (ret: Bytes)
    requires begin <= end <= |hexVector| && (end - begin) % 2 == 0
    ensures ret == ret0 + Pairs(hexVector[begin..end])
  {
    ret := ret0;
    var i := begin;
    while i < end
      invariant begin <= i <= end && (end - i) % 2 == 0
      invariant ret0 + Pairs(hexVector[begin..end]) == ret + Pairs(hexVector[i..end])
      decreases end - i
    {
      assert hexVector[i..end][2..] == hexVector[i + 2..end];
      ret := ret + [Join(hexVector[i], hexVector[i + 1])];
      i := i + 2;
    }
  }

  /** What the nibble-by-nibble loop makes of ret: odd positions complete the last byte, even ones start a new one. */
  function Packed(ret: Bytes, d: nat, n: Nibbles): Bytes
    requires ret != [] && (d % 2 == 1 ==> ret[|ret| - 1] % 16 == 0)
    decreases |n|
  {
    if n == [] then ret
    else if d % 2 == 1 then Packed(ret[|ret| - 1 := ret[|ret| - 1] + n[0]], d + 1, n[1..])
    else Packed(ret + [Join(n[0], 0)], d + 1, n[1..])
  }

  lemma PackedTwo(ret: Bytes, d: nat, n: Nibbles)
    requires ret != [] && d % 2 == 0 && |n| >= 2
    ensures Packed(ret, d, n) == Packed(ret + [Join(n[0], n[1])], d + 2, n[2..])
  {
    var half := ret + [Join(n[0], 0)];
    assert half[|half| - 1 := Join(n[0], n[1])] == ret + [Join(n[0], n[1])];
    assert n[1..][1..] == n[2..];
  }

  lemma {:induction false} PackedPairs(ret: Bytes, d: nat, n: Nibbles)
    requires ret != [] && d % 2 == 0 && |n| % 2 == 0
    ensures Packed(ret, d, n) == ret + Pairs(n)
    decreases |n|
  {
    if n == [] {
    } else {
      PackedTwo(ret, d, n);
      PackedPairs(ret + [Join(n[0], n[1])], d + 2, n[2..]);
      AppendAssoc(ret, [Join(n[0], n[1])], Pairs(n[2..]));
    }
  }

  /** A nibble at an odd position completes the last byte. */
  lemma PackedLow(ret: Bytes, d: nat, n: Nibbles, full: Bytes)
    requires |ret| == 1 && d % 2 == 1 && ret[0] % 16 == 0 && n != [] && full == [ret[0] + n[0]]
    ensures Packed(ret, d, n) == Packed(full, d + 1, n[1..])
  {
    assert ret[|ret| - 1 := ret[|ret| - 1] + n[0]] == full;
  }

  /** The first of an odd number of nibbles shares its byte with the flags. */
  lemma PackedOdd(ret: Bytes, n: Nibbles, full: Bytes)
    requires |ret| == 1 && ret[0] % 16 == 0 && |n| % 2 == 1 && full == [ret[0] + n[0]]
    ensures Packed(ret, 1, n) == full + Pairs(n[1..])
  {
    PackedLow(ret, 1, n, full);
    PackedPairs(full, 2, n[1..]);
  }

  /** Packing one nibble at a time gives the same form as packing pairs. */
  lemma PackedIsPrefixed(n: Nibbles, leaf: bool, ret: Bytes, d: nat)
    requires ret == [Join(Flags(leaf, |n| % 2 == 1), 0)] && d == if |n| % 2 == 1 then 1 else 2
    ensures Packed(ret, d, n) == Prefixed(n, leaf)
  {
    if |n| % 2 == 1 {
      PackedOdd(ret, n, [Join(Flags(leaf, true), n[0])]);
    } else {
      PackedPairs(ret, d, n);
    }
  }

  lemma FirstOfRange(all: Nibbles, i: nat, end: nat, more: Nibbles)
    requires i < end <= |all|
    ensures (all[i..end] + more)[0] == all[i] && (all[i..end] + more)[1..] == all[i + 1..end] + more
  {
    assert all[i..end] == [all[i]] + all[i + 1..end];
    AppendAssoc([all[i]], all[i + 1..end], more);
  }

  /** The loop over the nibbles of a packed byte string; more stands for the nibbles of the loops after it. */
  method AppendNibbles(ret0: Bytes, d0: nat, data: Bytes, begin: nat, end: nat, ghost more: Nibbles)
    returns (ret: Bytes, d: nat)
    requires ret0 != [] && (d0 % 2 == 1 ==> ret0[|ret0| - 1] % 16 == 0)
    requires begin <= end <= 2 * |data|
    ensures ret != [] && (d % 2 == 1 ==> ret[|ret| - 1] % 16 == 0)
    ensures Packed(ret0, d0, AsNibbles(data)[begin..end] + more) == Packed(ret, d, more)
  {
    ret, d := ret0, d0;
    ghost var all := AsNibbles(data);
    for i := begin to end
      invariant ret != [] && (d % 2 == 1 ==> ret[|ret| - 1] % 16 == 0)
      invariant Packed(ret0, d0, all[begin..end] + more) == Packed(ret, d, all[i..end] + more)
    {
      var n := NibbleAt(data, i);
      NibbleAtIsIndex(data, i);
      FirstOfRange(all, i, end, more);
      if d % 2 == 1 {
        ret := ret[|ret| - 1 := ret[|ret| - 1] + n];
      } else {
        ret := ret + [Join(n, 0)];
      }
      d := d + 1;
    }
    assert all[end..end] + more == more;
  }

  /** A negative end counts from behind the last of size nibbles. */
  function EndOf(size: nat, end: int): int {
    if end < 0 then size + 1 + end else end
  }

  /** hexPrefixEncode of a slice of packed nibbles. */
  method EncodeSlice(data: Bytes, leaf: bool, beginNibble: nat, endNibble: int, offset: nat) returns (ret: Bytes)
    requires offset <= 2 * |data|
    requires beginNibble <= EndOf(2 * |data| - offset, endNibble) <= 2 * |data| - offset
    ensures ret == Prefixed(AsNibbles(data)[offset..][beginNibble..EndOf(2 * |data| - offset, endNibble)], leaf)
    ensures var n := AsNibbles(data)[offset..];
            IsHexPrefix(ret, n[beginNibble..if endNibble < 0 then |n| + 1 + endNibble else endNibble], leaf)
  {
    var begin, end := beginNibble + offset, EndOf(2 * |data| - offset, endNibble) + offset;
    ret := EncodeRange(data, leaf, begin, end);
    assert AsNibbles(data)[begin..end] == AsNibbles(data)[offset..][beginNibble..end - offset];
    PrefixedIsHexPrefix(AsNibbles(data)[begin..end], leaf);
  }

  method EncodeRange(data: Bytes, leaf: bool, begin: nat, end: nat) returns (ret: Bytes)
    requires begin <= end <= 2 * |data|
    ensures ret == Prefixed(AsNibbles(data)[begin..end], leaf)
  {
    var odd := (end - begin) % 2 == 1;
    ret := [Join(Flags(leaf, odd), 0)];
    var d := if odd then 1 else 2;
    ghost var path := AsNibbles(data)[begin..end];
    PackedIsPrefixed(path, leaf, ret, d);
    assert path + [] == path;
    ret, d := AppendNibbles(ret, d, data, begin, end, []);
  }

  /** hexPrefixEncode of two slices, one behind the other. */
  method EncodeTwoSlices(d1: Bytes, o1: nat, d2: Bytes, o2: nat, leaf: bool) returns (ret: Bytes)
    requires o1 <= 2 * |d1| && o2 <= 2 * |d2|
    ensures ret == Prefixed(AsNibbles(d1)[o1..] + AsNibbles(d2)[o2..], leaf)
    ensures IsHexPrefix(ret, AsNibbles(d1)[o1..] + AsNibbles(d2)[o2..], leaf)
  {
    var odd := (2 * |d1| - o1 + 2 * |d2| - o2) % 2 == 1;
    ret := [Join(Flags(leaf, odd), 0)];
    var d := if odd then 1 else 2;
    ghost var first, second := AsNibbles(d1)[o1..2 * |d1|], AsNibbles(d2)[o2..2 * |d2|];
    assert first == AsNibbles(d1)[o1..] && second == AsNibbles(d2)[o2..];
    PackedIsPrefixed(first + second, leaf, ret, d);
    ret, d := AppendNibbles(ret, d, d1, o1, 2 * |d1|, second);
    assert second + [] == second;
    ret, d := AppendNibbles(ret, d, d2, o2, 2 * |d2|, []);
    PrefixedIsHexPrefix(first + second, leaf);
  }
}
