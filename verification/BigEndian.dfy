/** Numbers as big-endian byte strings: the arithmetic below the RLP and ABI codecs. */
module BigEndian {
  import opened Prelude

  /** 256 to the k. */
  function Pow256(k: nat): (r: nat)
    ensures r > 0
  {
    if k == 0 then 1 else 256 * Pow256(k - 1)
  }

  /** The shortest big-endian form of n; zero is the empty string. */
  function Compact(n: nat): Bytes {
    if n == 0 then [] else Compact(n / 256) + [n % 256]
  }

  /** The low k bytes of n. */
  function Fixed(n: nat, k: nat): (r: Bytes)
    ensures |r| == k
    decreases k, n
  {
    if k == 0 then [] else Fixed(n / 256, k - 1) + [n % 256]
  }

  function Value(b: Bytes): nat {
    if b == [] then 0 else 256 * Value(b[..|b| - 1]) + b[|b| - 1]
  }

  /** Bytes in front count 256 times as much for every byte behind them. */
  lemma {:induction false} ValueJoin(a: Bytes, b: Bytes)
    ensures Value(a + b) == Value(a) * Pow256(|b|) + Value(b)
  {
    if b == [] {
      assert a + b == a;
    } else {
      var front := b[..|b| - 1];
      ValueJoin(a, front);
      assert (a + b)[..|a + b| - 1] == a + front;
      assert Value(a) * Pow256(|b|) == 256 * (Value(a) * Pow256(|front|));
    }
  }

  lemma {:induction false} ValueCompact(n: nat)
    ensures Value(Compact(n)) == n
    ensures n > 0 ==> Compact(n) != [] && Compact(n)[0] != 0
  {
    if n == 0 {
    } else {
      ValueCompact(n / 256);
      assert Compact(n)[..|Compact(n)| - 1] == Compact(n / 256);
    }
  }

  /** A byte string without a leading zero is the compact form of its value. */
  lemma {:induction false} CompactValue(b: Bytes)
    requires b == [] || b[0] != 0
    ensures Compact(Value(b)) == b
    ensures b != [] ==> Value(b) > 0
  {
    if b == [] {
    } else {
      CompactValue(b[..|b| - 1]);
      assert b == b[..|b| - 1] + [b[|b| - 1]];
    }
  }

  /** The compact form has as many bytes as the number needs. */
  lemma {:induction false} CompactLength(n: nat, k: nat)
    ensures |Compact(n)| <= k <==> n < Pow256(k)
    decreases k
  {
    if n > 0 && k > 0 {
      CompactLength(n / 256, k - 1);
      assert n < 256 * Pow256(k - 1) <==> n / 256 < Pow256(k - 1);
    }
  }

  lemma {:induction false} ValueFixed(n: nat, k: nat)
    requires n < Pow256(k)
    ensures Value(Fixed(n, k)) == n
    decreases k
  {
    if k == 0 {
    } else {
      ValueFixed(n / 256, k - 1);
      assert Fixed(n, k)[..k - 1] == Fixed(n / 256, k - 1);
    }
  }

  lemma {:induction false} FixedValue(b: Bytes)
    ensures Fixed(Value(b), |b|) == b
  {
    if b == [] {
    } else {
      FixedValue(b[..|b| - 1]);
      assert b == b[..|b| - 1] + [b[|b| - 1]];
    }
  }

  /** What resize appends. */
  function Zeros(k: nat): Bytes {
    seq(k, _ => 0)
  }

  method BytesRequired(n: nat) returns (i: nat)
    ensures i == |Compact(n)|
  {
    i := 0;
    var m := n;
    while m != 0
      invariant i + |Compact(m)| == |Compact(n)|
      decreases m
    {
      i, m := i + 1, m / 256;
    }
  }

  /** Fills the buffer from its end; higher bytes of val are dropped. */
  method ToBigEndian(val: nat, out: array<Byte>)
    modifies out
    ensures out[..] == Fixed(val, out.Length)
  {
    var v, i := val, out.Length;
    while i != 0
      invariant 0 <= i <= out.Length
      invariant Fixed(val, out.Length) == Fixed(v, i) + out[i..]
      decreases i
    {
      ghost var tail := out[i..];
      out[i - 1] := v % 256;
      assert out[i - 1..] == [v % 256] + tail;
      v, i := v / 256, i - 1;
    }
  }

  method FromBigEndian(b: Bytes) returns (ret: nat)
    ensures ret == Value(b)
  {
    ret := 0;
    assert b[..|b|] == b;
    for i := 0 to |b|
      invariant ret == Value(b[..i])
    {
      ret := ret * 256 + b[i];
      assert b[..i + 1][..i] == b[..i];
    }
  }
}
