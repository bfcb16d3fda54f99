/**
  Reading the trie back: following hex-prefix paths and hashes from the root
  finds exactly the bindings of the map it was built from.
 */
module TrieLookup {
  import opened Prelude
  import opened RlpFormat
  import opened RlpReader
  import opened HexPrefix
  import opened TrieLayout

  /** The node behind a child slot: inlined, or stored under its hash; none for an empty slot. */
  function Resolve(db: map<Bytes, Bytes>, slot: Item): Option<Item> {
    match slot
    case List(_) => Some(slot)
    case Data(b) =>
      if b !in db then None
      else match Decode(db[b])
           case Ok(x) => if x.List? then Some(x) else None
           case Err(_) => None
  }

  /** The value of a key below a node; the empty string if there is none. */
  function Lookup(db: map<Bytes, Bytes>, node: Item, key: Nibbles): Bytes
    decreases |key|, 0
  {
    match node
    case Data(_) => []
    case List(xs) =>
      if |xs| == 2 && xs[0].Data? && xs[0].data != [] then
        var path := KeyOf(xs[0].data);
        if IsLeaf(xs[0].data) then if path == key && xs[1].Data? then xs[1].data else []
        else if path == [] || !(path <= key) then []
        else Follow(db, xs[1], key, |path|)
      else if |xs| == 17 then
        if key == [] then if xs[16].Data? then xs[16].data else []
        else Follow(db, xs[key[0]], key, 1)
      else []
  }

  function Follow(db: map<Bytes, Bytes>, slot: Item, key: Nibbles, n: nat): Bytes
    requires 0 < n <= |key|
    decreases |key| - n, 1
  {
    match Resolve(db, slot)
    case None => []
    case Some(child) => Lookup(db, child, key[n..])
  }

  /** The lookup that starts from the bytes of the root. */
  function LookupRoot(db: map<Bytes, Bytes>, root: Bytes, key: Nibbles): Bytes {
    match Decode(root)
    case Err(_) => []
    case Ok(node) => Lookup(db, node, key)
  }

  /** The value of the entry whose key goes on with key, or the empty string. */
  function Find(s: seq<Entry>, pre: nat, key: Nibbles): Bytes {
    if s == [] then []
    else if pre <= |s[0].key| && s[0].key[pre..] == key then s[0].value
    else Find(s[1..], pre, key)
  }

  lemma {:induction false} FindHere(s: seq<Entry>, pre: nat)
    requires Agree(s, pre)
    ensures Find(s, pre, []) == ValueAt(s, pre)
  {
    if s == [] {
    } else {
      assert |s[0].key| == pre <==> s[0].key[pre..] == [];
      FindHere(s[1..], pre);
    }
  }

  lemma {:induction false} FindInBucket(s: seq<Entry>, pre: nat, key: Nibbles)
    requires key != []
    ensures Find(Bucket(s, pre, key[0]), pre + 1, key[1..]) == Find(s, pre, key)
  {
    if s == [] {
    } else {
      FindInBucket(s[1..], pre, key);
      var e := s[0];
      var rest := Bucket(s[1..], pre, key[0]);
      if pre < |e.key| && e.key[pre] == key[0] {
        assert e.key[pre..] == [e.key[pre]] + e.key[pre + 1..];
        assert key == [key[0]] + key[1..];
        assert e.key[pre + 1..] == key[1..] <==> e.key[pre..] == key;
        assert ([e] + rest)[1..] == rest;
      } else {
        assert [] + rest == rest;
      }
    }
  }

  /** Entries that agree on a path are found below it, and only there. */
  lemma {:induction false} FindBelowPath(s: seq<Entry>, pre: nat, path: Nibbles, k0: Nibbles, key: Nibbles)
    requires pre + |path| <= |k0| && path == k0[pre..pre + |path|]
    requires forall i :: 0 <= i < |s| ==> SamePrefix(k0, s[i].key, pre + |path|)
    ensures path <= key ==> Find(s, pre + |path|, key[|path|..]) == Find(s, pre, key)
    ensures !(path <= key) ==> Find(s, pre, key) == []
  {
    if s == [] {
    } else {
      FindBelowPath(s[1..], pre, path, k0, key);
      BelowPath(s[0].key, pre, path, k0, key);
    }
  }

  lemma BelowPath(k: Nibbles, pre: nat, path: Nibbles, k0: Nibbles, key: Nibbles)
    requires pre + |path| <= |k0| && path == k0[pre..pre + |path|] && SamePrefix(k0, k, pre + |path|)
    ensures k[pre..] == key <==> path <= key && k[pre + |path|..] == key[|path|..]
  {
    assert k[pre..] == path + k[pre + |path|..];
    if path <= key {
      assert key == path + key[|path|..];
    }
  }

  /** A node is in the database under the hash of its encoding, if it is referred to by hash. */
  ghost predicate Holds(db: map<Bytes, Bytes>, h: Hash, x: Item)
    requires Encodable(x)
  {
    EncodedLength(x) < 32 || (h(Encode(x)) in db && db[h(Encode(x))] == Encode(x))
  }

  /** The database holds every node below that of the entries. */
  ghost predicate Stored(db: map<Bytes, Bytes>, h: Hash, s: seq<Entry>, pre: nat)
    requires IsHash(h) && Agree(s, pre)
    decreases Weight(s) - pre, 2
  {
    if |s| <= 1 then true
    else
      WeightBound(s, pre);
      SharedAgrees(s, pre);
      var shared := Shared(s, pre, |s|);
      if shared > pre then Holds(db, h, Layout(h, s, shared)) && Stored(db, h, s, shared)
      else SlotsStored(db, h, s, pre)
  }

  ghost predicate SlotsStored(db: map<Bytes, Bytes>, h: Hash, s: seq<Entry>, pre: nat)
    requires IsHash(h) && Agree(s, pre) && s != []
    decreases Weight(s) - pre, 1
  {
    forall i: Nibble :: SlotStored(db, h, s, pre, i)
  }

  ghost predicate SlotStored(db: map<Bytes, Bytes>, h: Hash, s: seq<Entry>, pre: nat, i: Nibble)
    requires IsHash(h) && Agree(s, pre) && s != []
    decreases Weight(s) - pre, 0
  {
    var bucket := Bucket(s, pre, i);
    BucketWeight(s, pre, i);
    BucketAgrees(s, pre, i);
    WeightBound(s, pre);
    bucket == [] || (Holds(db, h, Layout(h, bucket, pre + 1)) && Stored(db, h, bucket, pre + 1))
  }

  lemma ResolveReference(db: map<Bytes, Bytes>, h: Hash, x: Item)
    requires IsHash(h) && Encodable(x) && x.List? && PayloadLength(x) < LIMIT && Holds(db, h, x)
    ensures Resolve(db, Reference(h, x)) == Some(x)
  {
    if EncodedLength(x) >= 32 {
      DecodeEncode(x);
    }
  }

  lemma FollowReference(db: map<Bytes, Bytes>, h: Hash, x: Item, key: Nibbles, n: nat)
    requires IsHash(h) && Encodable(x) && x.List? && PayloadLength(x) < LIMIT && Holds(db, h, x)
    requires 0 < n <= |key|
    ensures Follow(db, Reference(h, x), key, n) == Lookup(db, x, key[n..])
  {
    ResolveReference(db, h, x);
  }

  /** What the nodes of a layout find, for a leaf, an extension and a branch. */
  lemma {:induction false} LookupFinds(db: map<Bytes, Bytes>, h: Hash, s: seq<Entry>, pre: nat, key: Nibbles)
    requires IsHash(h) && Agree(s, pre) && Stored(db, h, s, pre)
    requires [] !in db
    ensures Lookup(db, Layout(h, s, pre), key) == Find(s, pre, key)
    decreases Weight(s) - pre, 2
  {
    if s == [] {
    } else {
      WeightBound(s, pre);
      if |s| == 1 {
        PrefixedReadBack(s[0].key[pre..], true);
        assert s[1..] == [];
      } else {
        SharedAgrees(s, pre);
        var shared := Shared(s, pre, |s|);
        if shared > pre {
          var path := ExtensionParts(db, h, s, pre);
          LookupExtension(db, h, s, pre, path, shared, Layout(h, s, shared), key);
        } else {
          LayoutBranch(h, s, pre);
          LookupBranch(db, h, s, pre, key);
        }
      }
    }
  }

  lemma LookupPath(db: map<Bytes, Bytes>, path: Nibbles, second: Item, key: Nibbles)
    requires path != []
    ensures Lookup(db, List([Data(Prefixed(path, false)), second]), key)
         == if path <= key then Follow(db, second, key, |path|) else []
  {
    PrefixedReadBack(path, false);
  }

  lemma LayoutExtension(h: Hash, s: seq<Entry>, pre: nat)
    requires IsHash(h) && Agree(s, pre) && |s| >= 2 && Shared(s, pre, |s|) > pre
    ensures var shared := Shared(s, pre, |s|);
            && shared <= |s[0].key| && Agree(s, shared)
            && Layout(h, s, pre)
            == List([Data(Prefixed(s[0].key[pre..shared], false)), Reference(h, Layout(h, s, shared))])
  {
    SharedAgrees(s, pre);
  }

  /** An extension finds what its child finds behind the path. */
  lemma ExtensionFinds(
      db: map<Bytes, Bytes>, h: Hash, s: seq<Entry>, pre: nat, path: Nibbles, n: nat, child: Item, key: Nibbles)
    requires s != [] && path != [] && n == pre + |path| <= |s[0].key| && path == s[0].key[pre..n]
    requires AgreeOn(s, |s|, n)
    requires IsHash(h) && Encodable(child) && child.List? && PayloadLength(child) < LIMIT
    requires Holds(db, h, child)
    requires path <= key ==> Lookup(db, child, key[|path|..]) == Find(s, n, key[|path|..])
    ensures Lookup(db, List([Data(Prefixed(path, false)), Reference(h, child)]), key) == Find(s, pre, key)
  {
    LookupPath(db, path, Reference(h, child), key);
    FindBelowPath(s, pre, path, s[0].key, key);
    if path <= key {
      FollowReference(db, h, child, key, |path|);
    }
  }

  lemma ExtensionParts(db: map<Bytes, Bytes>, h: Hash, s: seq<Entry>, pre: nat) returns (path: Nibbles)
    requires IsHash(h) && Agree(s, pre) && |s| >= 2 && Shared(s, pre, |s|) > pre && Stored(db, h, s, pre)
    ensures var n := Shared(s, pre, |s|);
            && path != [] && n == pre + |path| <= |s[0].key| && path == s[0].key[pre..n]
            && Agree(s, n) && AgreeOn(s, |s|, n)
            && Layout(h, s, pre) == List([Data(Prefixed(path, false)), Reference(h, Layout(h, s, n))])
            && Holds(db, h, Layout(h, s, n)) && Stored(db, h, s, n)
  {
    LayoutExtension(h, s, pre);
    SharedByAll(s, pre, |s|);
    path := s[0].key[pre..Shared(s, pre, |s|)];
  }

  lemma {:induction false} LookupExtension(db: map<Bytes, Bytes>, h: Hash, s: seq<Entry>, pre: nat, path: Nibbles,
                                           n: nat, child: Item, key: Nibbles)
    requires IsHash(h) && s != [] && Agree(s, n) && Stored(db, h, s, n) && [] !in db
    requires child == Layout(h, s, n) && Holds(db, h, child)
    requires path != [] && n == pre + |path| <= |s[0].key| && path == s[0].key[pre..n] && AgreeOn(s, |s|, n)
    ensures Lookup(db, List([Data(Prefixed(path, false)), Reference(h, child)]), key) == Find(s, pre, key)
    decreases Weight(s) - pre, 0
  {
    WeightBound(s, n);
    if path <= key {
      LookupFinds(db, h, s, n, key[|path|..]);
    }
    ExtensionFinds(db, h, s, pre, path, n, child, key);
  }

  lemma LookupSlot(db: map<Bytes, Bytes>, slots: seq<Item>, value: Bytes, key: Nibbles)
    requires |slots| == 16
    ensures Lookup(db, List(slots + [Data(value)]), key)
         == if key == [] then value else Follow(db, slots[key[0]], key, 1)
  {
  }

  lemma {:induction false} LookupBranch(db: map<Bytes, Bytes>, h: Hash, s: seq<Entry>, pre: nat, key: Nibbles)
    requires IsHash(h) && Agree(s, pre) && s != []
    requires SlotsStored(db, h, s, pre) && [] !in db && Weight(s) >= pre
    ensures Lookup(db, List(Slots(h, s, pre, 16) + [Data(ValueAt(s, pre))]), key) == Find(s, pre, key)
    decreases Weight(s) - pre, 1
  {
    LookupSlot(db, Slots(h, s, pre, 16), ValueAt(s, pre), key);
    if key == [] {
      FindHere(s, pre);
    } else {
      LookupBucket(db, h, s, pre, key);
      FindInBucket(s, pre, key);
    }
  }

  lemma {:induction false} LookupBucket(db: map<Bytes, Bytes>, h: Hash, s: seq<Entry>, pre: nat, key: Nibbles)
    requires IsHash(h) && Agree(s, pre) && s != [] && key != []
    requires SlotsStored(db, h, s, pre) && [] !in db && Weight(s) >= pre
    ensures Follow(db, Slots(h, s, pre, 16)[key[0]], key, 1) == Find(Bucket(s, pre, key[0]), pre + 1, key[1..])
    decreases Weight(s) - pre, 0
  {
    var bucket := Bucket(s, pre, key[0]);
    SlotAt(h, s, pre, 16, key[0]);
    SlotHolds(h, s, pre, key[0], bucket);
    if bucket == [] {
    } else {
      assert SlotStored(db, h, s, pre, key[0]);
      BucketWeight(s, pre, key[0]);
      FollowReference(db, h, Layout(h, bucket, pre + 1), key, 1);
      LookupFinds(db, h, bucket, pre + 1, key[1..]);
    }
  }

  /** The encodings of the nodes that are referred to by hash. */
  ghost function Nodes(h: Hash, s: seq<Entry>, pre: nat): set<Bytes>
    requires IsHash(h) && Agree(s, pre)
    decreases Weight(s) - pre, 2, 0
  {
    if |s| <= 1 then {}
    else
      WeightBound(s, pre);
      SharedAgrees(s, pre);
      var shared := Shared(s, pre, |s|);
      if shared > pre then Hashed(Layout(h, s, shared)) + Nodes(h, s, shared)
      else SlotNodes(h, s, pre, 16)
  }

  ghost function SlotNodes(h: Hash, s: seq<Entry>, pre: nat, k: nat): set<Bytes>
    requires IsHash(h) && Agree(s, pre) && s != [] && k <= 16
    decreases Weight(s) - pre, 1, k
  {
    if k == 0 then {} else SlotNodes(h, s, pre, k - 1) + BucketNodes(h, s, pre, k - 1)
  }

  ghost function BucketNodes(h: Hash, s: seq<Entry>, pre: nat, i: Nibble): set<Bytes>
    requires IsHash(h) && Agree(s, pre) && s != []
    decreases Weight(s) - pre, 0, 0
  {
    var bucket := Bucket(s, pre, i);
    BucketWeight(s, pre, i);
    BucketAgrees(s, pre, i);
    WeightBound(s, pre);
    if bucket == [] then {} else Hashed(Layout(h, bucket, pre + 1)) + Nodes(h, bucket, pre + 1)
  }

  ghost function Hashed(x: Item): set<Bytes>
    requires Encodable(x)
  {
    if EncodedLength(x) < 32 then {} else {Encode(x)}
  }

  /** The hash tells the nodes apart. */
  ghost predicate CollisionFree(h: Hash, nodes: set<Bytes>) {
    forall a, b :: a in nodes && b in nodes && h(a) == h(b) ==> a == b
  }

  /** The nodes under their hashes. */
  ghost function Database(h: Hash, nodes: set<Bytes>): (db: map<Bytes, Bytes>)
    requires IsHash(h) && CollisionFree(h, nodes)
    ensures Stores(db, h, nodes) && [] !in db
  {
    var hashes := set e | e in nodes :: h(e);
    map k | k in hashes :: var e :| e in nodes && h(e) == k; e
  }

  ghost predicate Stores(db: map<Bytes, Bytes>, h: Hash, nodes: set<Bytes>) {
    forall e :: e in nodes ==> h(e) in db && db[h(e)] == e
  }

  lemma StoresLess(db: map<Bytes, Bytes>, h: Hash, nodes: set<Bytes>, fewer: set<Bytes>)
    requires Stores(db, h, nodes) && fewer <= nodes
    ensures Stores(db, h, fewer)
  {
  }

  lemma StoresHolds(db: map<Bytes, Bytes>, h: Hash, x: Item)
    requires Encodable(x) && Stores(db, h, Hashed(x))
    ensures Holds(db, h, x)
  {
    assert EncodedLength(x) >= 32 ==> Encode(x) in Hashed(x);
  }

  /** A database of the nodes holds what a lookup needs. */
  lemma {:induction false} NodesStored(db: map<Bytes, Bytes>, h: Hash, s: seq<Entry>, pre: nat)
    requires IsHash(h) && Agree(s, pre) && Stores(db, h, Nodes(h, s, pre))
    ensures Stored(db, h, s, pre)
    decreases Weight(s) - pre, 2
  {
    if |s| > 1 {
      WeightBound(s, pre);
      SharedAgrees(s, pre);
      var shared := Shared(s, pre, |s|);
      if shared > pre {
        var child := Layout(h, s, shared);
        StoresLess(db, h, Hashed(child) + Nodes(h, s, shared), Hashed(child));
        StoresHolds(db, h, child);
        StoresLess(db, h, Hashed(child) + Nodes(h, s, shared), Nodes(h, s, shared));
        NodesStored(db, h, s, shared);
      } else {
        forall i: Nibble
          ensures SlotStored(db, h, s, pre, i)
        {
          SlotNodesHas(h, s, pre, 16, i);
          StoresLess(db, h, SlotNodes(h, s, pre, 16), BucketNodes(h, s, pre, i));
          BucketStored(db, h, s, pre, i);
        }
      }
    }
  }

  lemma {:induction false} BucketStored(db: map<Bytes, Bytes>, h: Hash, s: seq<Entry>, pre: nat, i: Nibble)
    requires IsHash(h) && Agree(s, pre) && s != [] && Stores(db, h, BucketNodes(h, s, pre, i))
    ensures SlotStored(db, h, s, pre, i)
    decreases Weight(s) - pre, 1
  {
    var bucket := Bucket(s, pre, i);
    BucketWeight(s, pre, i);
    BucketAgrees(s, pre, i);
    WeightBound(s, pre);
    if bucket == [] {
    } else {
      var child := Layout(h, bucket, pre + 1);
      StoresLess(db, h, Hashed(child) + Nodes(h, bucket, pre + 1), Hashed(child));
      StoresHolds(db, h, child);
      StoresLess(db, h, Hashed(child) + Nodes(h, bucket, pre + 1), Nodes(h, bucket, pre + 1));
      NodesStored(db, h, bucket, pre + 1);
    }
  }

  lemma {:induction false} SlotNodesHas(h: Hash, s: seq<Entry>, pre: nat, k: nat, i: Nibble)
    requires IsHash(h) && Agree(s, pre) && s != [] && i < k <= 16
    ensures BucketNodes(h, s, pre, i) <= SlotNodes(h, s, pre, k)
  {
    if i < k - 1 {
      SlotNodesHas(h, s, pre, k - 1, i);
    }
    SubsetOfUnion(BucketNodes(h, s, pre, i), SlotNodes(h, s, pre, k - 1), BucketNodes(h, s, pre, k - 1));
  }

  lemma SubsetOfUnion(a: set<Bytes>, b: set<Bytes>, c: set<Bytes>)
    requires a <= b || a == c
    ensures a <= b + c
  {
  }

  /** From the bytes of the root and the stored nodes, a key finds its value and nothing else. */
  lemma RootFinds(db: map<Bytes, Bytes>, h: Hash, s: seq<Entry>, key: Nibbles)
    requires IsHash(h) && Agree(s, 0) && Stored(db, h, s, 0) && [] !in db
    ensures LookupRoot(db, Encode(Layout(h, s, 0)), key) == Find(s, 0, key)
  {
    DecodeEncode(Layout(h, s, 0));
    LookupFinds(db, h, s, 0, key);
  }

  /** The entries are those of the map, keyed by nibbles, each once. */
  ghost predicate Lists(s: seq<Entry>, m: map<Bytes, Bytes>) {
    && (forall i :: 0 <= i < |s| ==> Sized(s[i]))
    && (forall i, j :: 0 <= i < j < |s| ==> s[i].key != s[j].key)
    && (forall e :: e in s ==> exists k :: k in m && e == Entry(AsNibbles(k), m[k]))
    && (forall k :: k in m ==> Entry(AsNibbles(k), m[k]) in s)
  }

  lemma {:induction false} FindMember(s: seq<Entry>, e: Entry)
    requires e in s && forall i, j :: 0 <= i < j < |s| ==> s[i].key != s[j].key
    ensures Find(s, 0, e.key) == e.value
  {
    assert s[0].key[0..] == s[0].key;
    if s[0] != e {
      var j :| 0 <= j < |s| && s[j] == e;
      assert s[1..][j - 1] == e;
      FindMember(s[1..], e);
    }
  }

  lemma {:induction false} FindNone(s: seq<Entry>, key: Nibbles)
    requires forall i :: 0 <= i < |s| ==> s[i].key != key
    ensures Find(s, 0, key) == []
  {
    if s == [] {
    } else {
      assert s[0].key[0..] == s[0].key;
      FindNone(s[1..], key);
    }
  }

  /** The empty string stands for no binding. */
  function Binding(m: map<Bytes, Bytes>, k: Bytes): Bytes {
    if k in m then m[k] else []
  }

  lemma SameBindings(m: map<Bytes, Bytes>, m': map<Bytes, Bytes>)
    requires (forall k :: k in m ==> m[k] != []) && (forall k :: k in m' ==> m'[k] != [])
    requires forall k :: Binding(m, k) == Binding(m', k)
    ensures m == m'
  {
    assert forall k :: k in m <==> Binding(m, k) != [];
    assert forall k :: k in m' <==> Binding(m', k) != [];
  }

  /** Lookup in the trie of a map is lookup in the map. */
  lemma TrieIsMap(db: map<Bytes, Bytes>, h: Hash, s: seq<Entry>, m: map<Bytes, Bytes>, k: Bytes)
    requires IsHash(h) && Lists(s, m)
    requires Agree(s, 0) && Stored(db, h, s, 0) && [] !in db
    ensures LookupRoot(db, Encode(Layout(h, s, 0)), AsNibbles(k)) == Binding(m, k)
  {
    RootFinds(db, h, s, AsNibbles(k));
    if k in m {
      FindMember(s, Entry(AsNibbles(k), m[k]));
    } else {
      forall i | 0 <= i < |s|
        ensures s[i].key != AsNibbles(k)
      {
        assert s[i] in s;
        var k' :| k' in m && s[i] == Entry(AsNibbles(k'), m[k']);
        if AsNibbles(k') == AsNibbles(k) {
          AsNibblesInjective(k', k);
        }
      }
      FindNone(s, AsNibbles(k));
    }
  }

  /** A byte string that is the root of a map, with its nodes in a database. */
  ghost predicate RootOf(db: map<Bytes, Bytes>, h: Hash, root: Bytes, m: map<Bytes, Bytes>) {
    && IsHash(h) && [] !in db
    && exists s :: Lists(s, m) && Agree(s, 0) && Stored(db, h, s, 0) && root == Encode(Layout(h, s, 0))
  }

  lemma RootAnswers(db: map<Bytes, Bytes>, h: Hash, root: Bytes, m: map<Bytes, Bytes>, k: Bytes)
    requires RootOf(db, h, root, m)
    ensures LookupRoot(db, root, AsNibbles(k)) == Binding(m, k)
  {
    var s :| Lists(s, m) && Agree(s, 0) && Stored(db, h, s, 0) && root == Encode(Layout(h, s, 0));
    TrieIsMap(db, h, s, m, k);
  }

  /** The root commits to the map: two maps of non-empty values with the same root are equal. */
  lemma RootCommits(db: map<Bytes, Bytes>, h: Hash, root: Bytes, m: map<Bytes, Bytes>, m': map<Bytes, Bytes>)
    requires RootOf(db, h, root, m) && RootOf(db, h, root, m')
    requires (forall k :: k in m ==> m[k] != []) && (forall k :: k in m' ==> m'[k] != [])
    ensures m == m'
  {
    forall k: Bytes
      ensures Binding(m, k) == Binding(m', k)
    {
      RootAnswers(db, h, root, m, k);
      RootAnswers(db, h, root, m', k);
    }
    SameBindings(m, m');
  }

  lemma SharedIsExact(s: seq<Entry>, pre: nat)
    requires |s| >= 2 && Agree(s, pre)
    ensures Agree(s, Shared(s, pre, |s|))
    ensures Shared(s, Shared(s, pre, |s|), |s|) == Shared(s, pre, |s|)
  {
    SharedAgrees(s, pre);
    var shared := Shared(s, pre, |s|);
    var again := Shared(s, shared, |s|);
    SharedByAll(s, pre, |s|);
    SharedByAll(s, shared, |s|);
    var i :| 1 <= i < |s| && shared == Common(s[0].key, s[i].key, pre);
    if again > shared {
      assert false;
    }
  }

  /** Every extension leads to a branch. */
  lemma ExtensionLeadsToBranch(h: Hash, s: seq<Entry>, pre: nat)
    requires IsHash(h) && Agree(s, pre) && |s| >= 2 && Shared(s, pre, |s|) > pre
    ensures Agree(s, Shared(s, pre, |s|))
    ensures var child := Layout(h, s, Shared(s, pre, |s|)); child.List? && |child.items| == 17
  {
    SharedIsExact(s, pre);
    LayoutBranch(h, s, Shared(s, pre, |s|));
  }

  /** The slot of a branch that an entry goes to. */
  function SlotOf(e: Entry, pre: nat): nat
    requires pre <= |e.key|
  {
    if |e.key| == pre then 16 else e.key[pre]
  }

  lemma {:induction false} ValueFound(s: seq<Entry>, pre: nat, e: Entry)
    requires Agree(s, pre) && e in s && |e.key| == pre
    ensures ValueAt(s, pre) == e.value
  {
    if s[0] != e {
      var j :| 0 <= j < |s| && s[j] == e;
      AgreePair(s, pre, 0, j);
      assert s[1..][j - 1] == e;
      ValueFound(s[1..], pre, e);
    }
  }

  lemma {:induction false} BucketOccupied(s: seq<Entry>, pre: nat, j: nat)
    requires j < |s| && pre < |s[j].key|
    ensures Bucket(s, pre, s[j].key[pre]) != []
  {
    if j == 0 {
    } else {
      BucketOccupied(s[1..], pre, j - 1);
    }
  }

  lemma SlotOccupied(h: Hash, s: seq<Entry>, pre: nat, j: nat)
    requires IsHash(h) && Agree(s, pre) && j < |s| && s[j].value != []
    ensures pre <= |s[j].key|
    ensures (Slots(h, s, pre, 16) + [Data(ValueAt(s, pre))])[SlotOf(s[j], pre)] != Data([])
  {
    AgreeAt(s, pre, j);
    var e := s[j];
    assert e in s;
    if |e.key| == pre {
      ValueFound(s, pre, e);
    } else {
      SlotAt(h, s, pre, 16, e.key[pre]);
      SlotHolds(h, s, pre, e.key[pre], Bucket(s, pre, e.key[pre]));
      BucketOccupied(s, pre, j);
    }
  }

  /** Every branch has at least two occupied slots, if no value is empty. */
  lemma BranchHasTwo(h: Hash, s: seq<Entry>, pre: nat)
    requires IsHash(h) && Agree(s, pre) && |s| >= 2 && Shared(s, pre, |s|) == pre
    requires forall i :: 0 <= i < |s| ==> s[i].value != []
    ensures var node := Layout(h, s, pre);
            && node.List? && |node.items| == 17
            && exists a, b :: 0 <= a < b < 17 && node.items[a] != Data([]) && node.items[b] != Data([])
  {
    LayoutBranch(h, s, pre);
    SharedByAll(s, pre, |s|);
    var i :| 1 <= i < |s| && pre == Common(s[0].key, s[i].key, pre);
    SlotOccupied(h, s, pre, 0);
    SlotOccupied(h, s, pre, i);
    AgreePair(s, pre, 0, i);
    assert SlotOf(s[0], pre) != SlotOf(s[i], pre);
    var a, b := SlotOf(s[0], pre), SlotOf(s[i], pre);
    var node := Layout(h, s, pre);
    assert node.items[a] != Data([]) && node.items[b] != Data([]);
  }
}
