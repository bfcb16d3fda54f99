/**
  The Merkle Patricia trie of a map (Appendix D of the Ethereum Yellow Paper),
  as hash256rlp lays it out: which node stands for a set of entries that agree
  on their first nibbles, with a child inlined when its encoding is shorter than
  a hash and replaced by its hash otherwise.
 */
module TrieLayout {
  import opened Prelude
  import opened RlpFormat
  import opened RlpReader
  import opened HexPrefix

  datatype Entry = Entry(key: Nibbles, value: Bytes)

  /** Key lengths are signed 32-bit numbers, as hash256rlp takes them, and a node with its value fits the reader. */
  predicate Sized(e: Entry) {
    |e.key| < 0x8000_0000 && |e.value| + 0x1_0000_0000 < LIMIT
  }

  predicate SamePrefix(a: Nibbles, b: Nibbles, n: nat) {
    n <= |a| && n <= |b| && forall k :: 0 <= k < n ==> a[k] == b[k]
  }

  /** The key of e is different from those of the entries, and agrees with them on its first pre nibbles. */
  ghost predicate AgreesWith(e: Entry, s: seq<Entry>, pre: nat) {
    s == [] || (e.key != s[0].key && SamePrefix(e.key, s[0].key, pre) && AgreesWith(e, s[1..], pre))
  }

  /** Different keys that agree on their first pre nibbles. */
  ghost predicate Agree(s: seq<Entry>, pre: nat) {
    s == [] || (Sized(s[0]) && pre <= |s[0].key| && AgreesWith(s[0], s[1..], pre) && Agree(s[1..], pre))
  }

  lemma {:induction false} AgreesWithAt(e: Entry, s: seq<Entry>, pre: nat, j: nat)
    requires AgreesWith(e, s, pre) && j < |s|
    ensures e.key != s[j].key && SamePrefix(e.key, s[j].key, pre)
  {
    if j == 0 {
    } else {
      AgreesWithAt(e, s[1..], pre, j - 1);
    }
  }

  lemma {:induction false} AgreeAt(s: seq<Entry>, pre: nat, i: nat)
    requires Agree(s, pre) && i < |s|
    ensures Sized(s[i]) && pre <= |s[i].key|
  {
    if i == 0 {
    } else {
      AgreeAt(s[1..], pre, i - 1);
    }
  }

  lemma {:induction false} AgreePair(s: seq<Entry>, pre: nat, i: nat, j: nat)
    requires Agree(s, pre) && i < j < |s|
    ensures s[i].key != s[j].key && SamePrefix(s[i].key, s[j].key, pre)
  {
    if i > 0 {
      AgreePair(s[1..], pre, i - 1, j - 1);
    } else {
      AgreesWithAt(s[0], s[1..], pre, j - 1);
    }
  }

  /** Keys that all agree with k0 further on agree with each other further on. */
  lemma {:induction false} AgreeFurther(s: seq<Entry>, pre: nat, k0: Nibbles, r: nat)
    requires Agree(s, pre) && forall i :: 0 <= i < |s| ==> SamePrefix(k0, s[i].key, r)
    ensures Agree(s, r)
  {
    if s == [] {
    } else {
      AgreesWithFurther(s[0], s[1..], pre, k0, r);
      AgreeFurther(s[1..], pre, k0, r);
    }
  }

  lemma {:induction false} AgreesWithFurther(e: Entry, s: seq<Entry>, pre: nat, k0: Nibbles, r: nat)
    requires AgreesWith(e, s, pre) && SamePrefix(k0, e.key, r)
    requires forall i :: 0 <= i < |s| ==> SamePrefix(k0, s[i].key, r)
    ensures AgreesWith(e, s, r)
  {
    if s == [] {
    } else {
      AgreesWithFurther(e, s[1..], pre, k0, r);
    }
  }

  /** How far two keys agree, looking from position k on. */
  function Common(a: Nibbles, b: Nibbles, k: nat): (r: nat)
    ensures k <= r && (k <= |a| && k <= |b| ==> r <= |a| && r <= |b|)
    ensures forall n :: k <= n < r ==> n < |a| && n < |b| && a[n] == b[n]
    ensures r < |a| && r < |b| ==> a[r] != b[r]
    decreases |a| - k
  {
    if k < |a| && k < |b| && a[k] == b[k] then Common(a, b, k + 1) else k
  }

  /** How far the first m entries agree. */
  function Shared(s: seq<Entry>, pre: nat, m: nat): (r: nat)
    requires 2 <= m <= |s|
  {
    var c := Common(s[0].key, s[m - 1].key, pre);
    if m == 2 || c < Shared(s, pre, m - 1) then c else Shared(s, pre, m - 1)
  }

  /** The first m entries agree on r nibbles. */
  ghost predicate AgreeOn(s: seq<Entry>, m: nat, r: nat)
    requires 0 < m <= |s|
  {
    forall i :: 0 <= i < m ==> SamePrefix(s[0].key, s[i].key, r)
  }

  /** All m entries agree that far, and one of them no further with the first. */
  lemma {:induction false} SharedByAll(s: seq<Entry>, pre: nat, m: nat)
    requires 2 <= m <= |s| && Agree(s, pre)
    ensures pre <= Shared(s, pre, m) && AgreeOn(s, m, Shared(s, pre, m))
    ensures exists i :: 1 <= i < m && Shared(s, pre, m) == Common(s[0].key, s[i].key, pre)
  {
    if m > 2 {
      SharedByAll(s, pre, m - 1);
    }
    AgreePair(s, pre, 0, m - 1);
  }

  /** The entries whose next nibble is i. */
  function Bucket(s: seq<Entry>, pre: nat, i: Nibble): seq<Entry> {
    if s == [] then []
    else (if pre < |s[0].key| && s[0].key[pre] == i then [s[0]] else []) + Bucket(s[1..], pre, i)
  }

  /** The value of the entry whose key ends here, or the empty string. */
  function ValueAt(s: seq<Entry>, pre: nat): Bytes {
    if s == [] then [] else if |s[0].key| == pre then s[0].value else ValueAt(s[1..], pre)
  }

  function Weight(s: seq<Entry>): nat {
    if s == [] then 0 else |s[0].key| + Weight(s[1..])
  }

  lemma {:induction false} BucketWeight(s: seq<Entry>, pre: nat, i: Nibble)
    ensures Weight(Bucket(s, pre, i)) <= Weight(s)
  {
    if s == [] {
    } else {
      BucketWeight(s[1..], pre, i);
      if pre < |s[0].key| && s[0].key[pre] == i {
        assert Bucket(s, pre, i)[1..] == Bucket(s[1..], pre, i);
      } else {
        assert Bucket(s, pre, i) == Bucket(s[1..], pre, i);
      }
    }
  }

  lemma {:induction false} BucketAgreesWith(e: Entry, s: seq<Entry>, pre: nat, i: Nibble)
    requires AgreesWith(e, s, pre) && pre < |e.key| && e.key[pre] == i
    ensures AgreesWith(e, Bucket(s, pre, i), pre + 1)
  {
    if s == [] {
    } else {
      var rest := Bucket(s[1..], pre, i);
      BucketAgreesWith(e, s[1..], pre, i);
      if pre < |s[0].key| && s[0].key[pre] == i {
        assert ([s[0]] + rest)[1..] == rest;
      } else {
        assert [] + rest == rest;
      }
    }
  }

  lemma {:induction false} BucketAgrees(s: seq<Entry>, pre: nat, i: Nibble)
    requires Agree(s, pre)
    ensures Agree(Bucket(s, pre, i), pre + 1)
  {
    if s == [] {
    } else {
      var rest := Bucket(s[1..], pre, i);
      BucketAgrees(s[1..], pre, i);
      if pre < |s[0].key| && s[0].key[pre] == i {
        BucketAgreesWith(s[0], s[1..], pre, i);
        assert ([s[0]] + rest)[1..] == rest;
      } else {
        assert [] + rest == rest;
      }
    }
  }

  lemma {:induction false} WeightBound(s: seq<Entry>, pre: nat)
    requires s != [] && Agree(s, pre)
    ensures Weight(s) >= pre
  {
  }

  /** A child as it appears in its parent: itself when short, its hash otherwise. */
  ghost function Reference(h: Hash, x: Item): (r: Item)
    requires IsHash(h) && Encodable(x)
    ensures Encodable(r) && EncodedLength(r) <= 33
  {
    if EncodedLength(x) < 32 then x else Data(h(Encode(x)))
  }

  lemma {:induction false} LengthsBound(xs: seq<Item>)
    requires forall i :: 0 <= i < |xs| ==> EncodedLength(xs[i]) <= 33
    ensures EncodedLengths(xs) <= 33 * |xs|
  {
    if xs == [] {
    } else {
      LengthsBound(xs[1..]);
    }
  }

  lemma {:induction false} LengthsSnoc(xs: seq<Item>, x: Item)
    ensures EncodedLengths(xs + [x]) == EncodedLengths(xs) + EncodedLength(x)
  {
    if xs == [] {
    } else {
      LengthsSnoc(xs[1..], x);
      assert (xs + [x])[1..] == xs[1..] + [x];
    }
  }

  lemma DataLength(b: Bytes)
    requires |b| < SIZE
    ensures EncodedLength(Data(b)) <= |b| + 9
  {
    LengthBytes(|b|);
  }

  /** A two-item node: a path in hex-prefix form, and a value or a child. */
  ghost function Pair(path: Nibbles, leaf: bool, second: Item): (r: Item)
    requires |path| < 0x1_0000_0000 && Encodable(second) && EncodedLength(second) + 0x8000_0010 < LIMIT
    ensures Encodable(r) && EncodedLength(r) < SIZE && PayloadLength(r) < LIMIT
  {
    PrefixedLength(path, leaf);
    DataLength(Prefixed(path, leaf));
    var xs := [Data(Prefixed(path, leaf)), second];
    assert EncodedLengths(xs) == EncodedLength(xs[0]) + EncodedLength(second) by {
      assert EncodedLengths(xs[1..]) == EncodedLength(second);
    }
    LengthBytes(EncodedLengths(xs));
    List(xs)
  }

  /** A branch: sixteen children and a value. */
  ghost function Branch(slots: seq<Item>, value: Bytes): (r: Item)
    requires |slots| == 16 && (forall i :: 0 <= i < 16 ==> Encodable(slots[i]) && EncodedLength(slots[i]) <= 33)
    requires |value| + 0x1_0000_0000 < LIMIT
    ensures Encodable(r) && EncodedLength(r) < SIZE && PayloadLength(r) < LIMIT
  {
    LengthsBound(slots);
    LengthsSnoc(slots, Data(value));
    DataLength(value);
    LengthBytes(EncodedLengths(slots + [Data(value)]));
    List(slots + [Data(value)])
  }

  lemma {:induction false} ValueAtSized(s: seq<Entry>, pre: nat)
    requires Agree(s, pre)
    ensures |ValueAt(s, pre)| + 0x1_0000_0000 < LIMIT
  {
    if s == [] {
    } else {
      ValueAtSized(s[1..], pre);
    }
  }

  /** The node of entries that agree on their first pre nibbles. */
  ghost function Layout(h: Hash, s: seq<Entry>, pre: nat): (r: Item)
    requires IsHash(h) && Agree(s, pre)
    ensures Encodable(r) && EncodedLength(r) < SIZE && PayloadLength(r) < LIMIT
    ensures r.List? <==> s != []
    decreases Weight(s) - pre, 1, 0
  {
    if s == [] then Data([])
    else
      WeightBound(s, pre);
      if |s| == 1 then
        DataLength(s[0].value);
        Pair(s[0].key[pre..], true, Data(s[0].value))
      else
        SharedAgrees(s, pre);
        var shared := Shared(s, pre, |s|);
        if shared > pre then
          Pair(s[0].key[pre..shared], false, Reference(h, Layout(h, s, shared)))
        else
          ValueAtSized(s, pre);
          Branch(Slots(h, s, pre, 16), ValueAt(s, pre))
  }

  lemma SharedAgrees(s: seq<Entry>, pre: nat)
    requires |s| >= 2 && Agree(s, pre)
    ensures pre <= Shared(s, pre, |s|) <= |s[0].key| && Agree(s, Shared(s, pre, |s|))
  {
    SharedByAll(s, pre, |s|);
    AgreeFurther(s, pre, s[0].key, Shared(s, pre, |s|));
  }

  lemma LayoutLeaf(h: Hash, s: seq<Entry>, pre: nat)
    requires IsHash(h) && Agree(s, pre) && |s| == 1
    ensures Layout(h, s, pre) == List([Data(Prefixed(s[0].key[pre..], true)), Data(s[0].value)])
  {
  }

  /** Child slot i of a branch. */
  ghost function Slot(h: Hash, s: seq<Entry>, pre: nat, i: Nibble): (r: Item)
    requires IsHash(h) && Agree(s, pre) && s != []
    ensures Encodable(r) && EncodedLength(r) <= 33
    decreases Weight(s) - pre, 0, 0
  {
    var bucket := Bucket(s, pre, i);
    BucketWeight(s, pre, i);
    BucketAgrees(s, pre, i);
    WeightBound(s, pre);
    if bucket == [] then Data([]) else Reference(h, Layout(h, bucket, pre + 1))
  }

  /** The first k child slots of a branch. */
  ghost function Slots(h: Hash, s: seq<Entry>, pre: nat, k: nat): (r: seq<Item>)
    requires IsHash(h) && Agree(s, pre) && s != [] && k <= 16
    ensures |r| == k && forall i :: 0 <= i < k ==> Encodable(r[i]) && EncodedLength(r[i]) <= 33
    decreases Weight(s) - pre, 0, k + 1
  {
    if k == 0 then [] else Slots(h, s, pre, k - 1) + [Slot(h, s, pre, k - 1)]
  }

  lemma {:induction false} SlotAt(h: Hash, s: seq<Entry>, pre: nat, k: nat, i: Nibble)
    requires IsHash(h) && Agree(s, pre) && s != [] && i < k <= 16
    ensures Slots(h, s, pre, k)[i] == Slot(h, s, pre, i)
  {
    if i < k - 1 {
      SlotAt(h, s, pre, k - 1, i);
    }
  }

  lemma SlotHolds(h: Hash, s: seq<Entry>, pre: nat, i: Nibble, bucket: seq<Entry>)
    requires IsHash(h) && Agree(s, pre) && s != [] && bucket == Bucket(s, pre, i)
    ensures Agree(bucket, pre + 1)
    ensures Slot(h, s, pre, i) == if bucket == [] then Data([]) else Reference(h, Layout(h, bucket, pre + 1))
  {
    BucketAgrees(s, pre, i);
  }

  lemma LayoutBranch(h: Hash, s: seq<Entry>, pre: nat)
    requires IsHash(h) && Agree(s, pre) && |s| >= 2 && Shared(s, pre, |s|) == pre
    ensures Layout(h, s, pre) == List(Slots(h, s, pre, 16) + [Data(ValueAt(s, pre))])
  {
    SharedAgrees(s, pre);
  }
}
