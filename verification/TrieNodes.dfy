/**
  What a Merkle Patricia trie is (Appendix D of the Ethereum Yellow Paper): which
  node stands for which entries. The layout of module TrieLayout is such a trie.
 */
module TrieNodes {
  import opened Prelude
  import opened RlpFormat
  import opened HexPrefix
  import opened TrieLayout

  /** A child of fewer than 32 bytes stands in its parent itself, any other by its hash. */
  ghost predicate Refers(h: Hash, r: Item, child: Item)
    requires Encodable(child)
  {
    if |Encode(child)| < 32 then r == child else r == Data(h(Encode(child)))
  }

  /** All keys have another nibble, the same one. */
  ghost predicate OneNibble(s: seq<Entry>, pre: nat) {
    s != [] && forall e :: e in s ==> pre < |e.key| && pre < |s[0].key| && e.key[pre] == s[0].key[pre]
  }

  /** The keys have the same nibbles from pre to to, and no longer the same one behind. */
  ghost predicate OnePath(s: seq<Entry>, pre: nat, to: nat) {
    s != [] && pre < to && (forall k :: pre <= k < to ==> OneNibble(s, k)) && !OneNibble(s, to)
  }

  /** v is the value of the entry whose key ends at pre, and empty if there is none. */
  ghost predicate EndsHere(s: seq<Entry>, pre: nat, v: Bytes) {
    if exists e :: e in s && |e.key| == pre then exists e :: e in s && |e.key| == pre && e.value == v else v == []
  }

  /** node stands for entries that agree on their first pre nibbles. */
  ghost predicate IsTrie(h: Hash, s: seq<Entry>, pre: nat, node: Item)
    requires IsHash(h) && Agree(s, pre)
    decreases Weight(s) - pre, 1
  {
    if s == [] then node == Data([])
    else if |s| == 1 then IsLeafNode(s[0].key[pre..], s[0].value, node)
    else if OneNibble(s, pre) then
      exists to :: OnePath(s, pre, to) && IsExtensionTo(h, s, pre, to, node)
    else
      WeightBound(s, pre);
      && node.List? && |node.items| == 17
      && (forall i: Nibble :: IsChild(h, s, pre, i, node.items[i]))
      && node.items[16].Data? && EndsHere(s, pre, node.items[16].data)
  }

  /** A leaf: the rest of the key and the value. */
  ghost predicate IsLeafNode(path: Nibbles, value: Bytes, node: Item) {
    && node.List? && |node.items| == 2 && node.items[0].Data? && IsHexPrefix(node.items[0].data, path, true)
    && node.items[1] == Data(value)
  }

  /** An extension: the nibbles that all keys share, and the node behind them. */
  ghost predicate IsExtensionTo(h: Hash, s: seq<Entry>, pre: nat, to: nat, node: Item)
    requires IsHash(h) && Agree(s, pre) && OnePath(s, pre, to)
    decreases Weight(s) - pre, 0
  {
    SharesPath(s, pre, to);
    && node.List? && |node.items| == 2 && node.items[0].Data?
    && IsHexPrefix(node.items[0].data, s[0].key[pre..to], false)
    && exists child :: Encodable(child) && IsTrie(h, s, to, child) && Refers(h, node.items[1], child)
  }

  /** Child i of a branch stands for the entries with nibble i. */
  ghost predicate IsChild(h: Hash, s: seq<Entry>, pre: nat, i: Nibble, r: Item)
    requires IsHash(h) && Agree(s, pre) && Weight(s) >= pre
    decreases Weight(s) - pre, 0
  {
    BucketAgrees(s, pre, i);
    BucketWeight(s, pre, i);
    exists child :: Encodable(child) && IsTrie(h, Bucket(s, pre, i), pre + 1, child) && Refers(h, r, child)
  }

  /** The entries with a nibble are those whose keys have it at that place. */
  lemma {:induction false} BucketExactly(s: seq<Entry>, pre: nat, i: Nibble, e: Entry)
    ensures e in Bucket(s, pre, i) <==> e in s && pre < |e.key| && e.key[pre] == i
  {
    if s == [] {
    } else {
      BucketExactly(s[1..], pre, i, e);
      assert s == [s[0]] + s[1..];
    }
  }

  lemma SharesPath(s: seq<Entry>, pre: nat, to: nat)
    requires Agree(s, pre) && OnePath(s, pre, to)
    ensures to <= |s[0].key| && Agree(s, to) && Weight(s) >= to
  {
    assert OneNibble(s, to - 1) && s[0] in s;
    forall i | 0 <= i < |s|
      ensures SamePrefix(s[0].key, s[i].key, to)
    {
      KeyShares(s, pre, to, i);
    }
    AgreeFurther(s, pre, s[0].key, to);
    WeightBound(s, to);
  }

  lemma KeyShares(s: seq<Entry>, pre: nat, to: nat, i: nat)
    requires Agree(s, pre) && OnePath(s, pre, to) && i < |s|
    ensures SamePrefix(s[0].key, s[i].key, to)
  {
    assert OneNibble(s, to - 1) && s[0] in s && s[i] in s;
    if i > 0 {
      AgreePair(s, pre, 0, i);
    }
    forall k | 0 <= k < to
      ensures s[0].key[k] == s[i].key[k]
    {
      assert pre <= k ==> OneNibble(s, k);
    }
  }

  /** Up to the shared length all keys have the same nibbles, and behind it they have not. */
  lemma SharedIsPath(s: seq<Entry>, pre: nat)
    requires |s| >= 2 && Agree(s, pre)
    ensures var to := Shared(s, pre, |s|);
            to >= pre && !OneNibble(s, to) && forall k :: pre <= k < to ==> OneNibble(s, k)
  {
    var to := Shared(s, pre, |s|);
    SharedByAll(s, pre, |s|);
    var i :| 1 <= i < |s| && to == Common(s[0].key, s[i].key, pre);
    assert s[i] in s && s[0] in s;
    AgreePair(s, pre, 0, i);
    forall k | pre <= k < to
      ensures OneNibble(s, k)
    {
      assert forall j :: 0 <= j < |s| ==> SamePrefix(s[0].key, s[j].key, to);
    }
  }

  lemma {:induction false} ValueEndsHere(s: seq<Entry>, pre: nat)
    ensures EndsHere(s, pre, ValueAt(s, pre))
  {
    if s == [] {
    } else {
      ValueEndsHere(s[1..], pre);
      assert s == [s[0]] + s[1..];
      assert s[0] in s;
    }
  }

  lemma ReferenceRefers(h: Hash, child: Item)
    requires IsHash(h) && Encodable(child)
    ensures Refers(h, Reference(h, child), child)
  {
  }

  /** The layout of entries is a trie of them. */
  lemma {:induction false} LayoutIsTrie(h: Hash, s: seq<Entry>, pre: nat)
    requires IsHash(h) && Agree(s, pre)
    ensures IsTrie(h, s, pre, Layout(h, s, pre))
    decreases Weight(s) - pre, 2
  {
    if s == [] {
    } else if |s| == 1 {
      LayoutLeaf(h, s, pre);
      PrefixedIsHexPrefix(s[0].key[pre..], true);
    } else {
      WeightBound(s, pre);
      SharedAgrees(s, pre);
      SharedIsPath(s, pre);
      if Shared(s, pre, |s|) > pre {
        ExtensionIsTrie(h, s, pre, Shared(s, pre, |s|));
      } else {
        BranchIsTrie(h, s, pre);
      }
    }
  }

  lemma {:induction false} ExtensionIsTrie(h: Hash, s: seq<Entry>, pre: nat, to: nat)
    requires IsHash(h) && Agree(s, pre) && |s| >= 2 && to == Shared(s, pre, |s|) && OnePath(s, pre, to)
    ensures IsTrie(h, s, pre, Layout(h, s, pre))
    decreases Weight(s) - pre, 1
  {
    SharesPath(s, pre, to);
    LayoutIsTrie(h, s, to);
    ReferenceRefers(h, Layout(h, s, to));
    PrefixedIsHexPrefix(s[0].key[pre..to], false);
    assert OneNibble(s, pre);
    assert IsExtensionTo(h, s, pre, to, Layout(h, s, pre));
  }

  lemma {:induction false} BranchIsTrie(h: Hash, s: seq<Entry>, pre: nat)
    requires IsHash(h) && Agree(s, pre) && |s| >= 2 && Shared(s, pre, |s|) == pre && !OneNibble(s, pre)
    requires Weight(s) >= pre
    ensures IsTrie(h, s, pre, Layout(h, s, pre))
    decreases Weight(s) - pre, 1
  {
    var items := Layout(h, s, pre).items;
    forall i: Nibble
      ensures IsChild(h, s, pre, i, items[i])
    {
      SlotAt(h, s, pre, 16, i);
      SlotIsChild(h, s, pre, i);
    }
    ValueEndsHere(s, pre);
  }

  lemma {:induction false} SlotIsChild(h: Hash, s: seq<Entry>, pre: nat, i: Nibble)
    requires IsHash(h) && Agree(s, pre) && s != [] && Weight(s) >= pre
    ensures IsChild(h, s, pre, i, Slot(h, s, pre, i))
    decreases Weight(s) - pre, 0
  {
    var bucket := Bucket(s, pre, i);
    BucketAgrees(s, pre, i);
    BucketWeight(s, pre, i);
    var child := Layout(h, bucket, pre + 1);
    LayoutIsTrie(h, bucket, pre + 1);
    ReferenceRefers(h, child);
    assert bucket == [] ==> Refers(h, Data([]), child);
  }
}
