/** The root of a map, and what it says about the map. */
module TrieRoot {
  import opened Prelude
  import opened RlpFormat
  import opened RlpWriter
  import opened HexPrefix
  import opened TrieLayout
  import opened TrieNodes
  import opened TrieLookup
  import opened TrieHash

  lemma {:induction false} DifferentKeysAgree(s: seq<Entry>)
    requires forall i :: 0 <= i < |s| ==> Sized(s[i])
    requires forall i, j :: 0 <= i < j < |s| ==> s[i].key != s[j].key
    ensures Agree(s, 0)
  {
    if s == [] {
    } else {
      DifferentKeyAgrees(s[0], s[1..]);
      DifferentKeysAgree(s[1..]);
    }
  }

  lemma {:induction false} DifferentKeyAgrees(e: Entry, s: seq<Entry>)
    requires forall j :: 0 <= j < |s| ==> e.key != s[j].key
    ensures AgreesWith(e, s, 0)
  {
    if s == [] {
    } else {
      DifferentKeyAgrees(e, s[1..]);
    }
  }

  lemma {:induction false} LessTotal(a: Nibbles, b: Nibbles)
    requires a != b
    ensures Less(a, b) <==> !Less(b, a)
  {
    if a != [] && b != [] && a[0] == b[0] {
      assert a == [a[0]] + a[1..] && b == [b[0]] + b[1..];
      LessTotal(a[1..], b[1..]);
    }
  }

  lemma {:induction false} LessTransitive(a: Nibbles, b: Nibbles, c: Nibbles)
    requires Less(a, b) && Less(b, c)
    ensures Less(a, c)
  {
    if a != [] && b[0] == c[0] && a[0] == b[0] {
      LessTransitive(a[1..], b[1..], c[1..]);
    }
  }

  /** Every key before place i is below e, and every key from there on is above it. */
  ghost predicate PlaceFor(s: seq<Entry>, e: Entry, i: nat) {
    && i <= |s|
    && (forall j :: 0 <= j < i ==> Less(s[j].key, e.key))
    && (forall j :: i <= j < |s| ==> Less(e.key, s[j].key))
  }

  lemma PlacedSorted(s: seq<Entry>, e: Entry, i: nat)
    requires Sorted(s) && PlaceFor(s, e, i)
    ensures Sorted(s[..i] + [e] + s[i..])
  {
  }

  /** A new key goes into the map behind the smaller ones. */
  method Insert(s: seq<Entry>, e: Entry) returns (r: seq<Entry>)
    requires Sorted(s) && forall j :: 0 <= j < |s| ==> s[j].key != e.key
    ensures Sorted(r) && multiset(r) == multiset(s) + multiset{e}
  {
    var i := 0;
    while i < |s| && Less(s[i].key, e.key)
      invariant 0 <= i <= |s| && forall j :: 0 <= j < i ==> Less(s[j].key, e.key)
    {
      i := i + 1;
    }
    forall j | i <= j < |s|
      ensures Less(e.key, s[j].key)
    {
      LessTotal(s[i].key, e.key);
      if i < j {
        LessTransitive(e.key, s[i].key, s[j].key);
      }
    }
    PlacedSorted(s, e, i);
    r := s[..i] + [e] + s[i..];
    assert s == s[..i] + s[i..];
  }

  /** The entries are exactly those of the keys of the map that are not in todo. */
  ghost predicate ListsBut(s: seq<Entry>, m: map<Bytes, Bytes>, todo: set<Bytes>) {
    && (forall e :: e in s ==> exists k :: k in m && k !in todo && e == Entry(AsNibbles(k), m[k]))
    && (forall k :: k in m && k !in todo ==> Entry(AsNibbles(k), m[k]) in s)
  }

  lemma KeyIsNew(s: seq<Entry>, m: map<Bytes, Bytes>, todo: set<Bytes>, k: Bytes, j: nat)
    requires ListsBut(s, m, todo) && k in todo && j < |s|
    ensures s[j].key != AsNibbles(k)
  {
    assert s[j] in s;
    var k' :| k' in m && k' !in todo && s[j] == Entry(AsNibbles(k'), m[k']);
    if AsNibbles(k') == AsNibbles(k) {
      AsNibblesInjective(k', k);
    }
  }

  lemma ListsMore(s: seq<Entry>, r: seq<Entry>, m: map<Bytes, Bytes>, todo: set<Bytes>, k: Bytes)
    requires ListsBut(s, m, todo) && k in todo && k in m
    requires multiset(r) == multiset(s) + multiset{Entry(AsNibbles(k), m[k])}
    ensures ListsBut(r, m, todo - {k})
  {
    forall e
      ensures e in r <==> e in s || e == Entry(AsNibbles(k), m[k])
    {
      assert (e in r <==> e in multiset(r)) && (e in s <==> e in multiset(s));
    }
  }

  lemma {:induction false} LessIsNew(a: Nibbles, b: Nibbles)
    requires Less(a, b)
    ensures a != b
  {
    if a != [] && a[0] == b[0] {
      LessIsNew(a[1..], b[1..]);
    }
  }

  /** The map keyed by nibbles, in the order of its keys. */
  method HexMap(m: map<Bytes, Bytes>) returns (s: seq<Entry>)
    requires forall k :: k in m ==> Sized(Entry(AsNibbles(k), m[k]))
    ensures Sorted(s) && Lists(s, m)
  {
    s := [];
    var todo := m.Keys;
    while todo != {}
      invariant todo <= m.Keys && Sorted(s) && ListsBut(s, m, todo)
      decreases |todo|
    {
      var k :| k in todo;
      forall j | 0 <= j < |s| {
        KeyIsNew(s, m, todo, k, j);
      }
      var r := Insert(s, Entry(AsNibbles(k), m[k]));
      ListsMore(s, r, m, todo, k);
      s, todo := r, todo - {k};
    }
    forall i | 0 <= i < |s|
      ensures Sized(s[i])
    {
      assert s[i] in s;
    }
    forall i, j | 0 <= i < j < |s|
      ensures s[i].key != s[j].key
    {
      LessIsNew(s[i].key, s[j].key);
    }
  }

  lemma NotEmptied(s: seq<Entry>, t: seq<Entry>)
    requires forall e :: e in s ==> e in t
    ensures s != [] ==> t != []
  {
    if s != [] {
      assert s[0] in s;
    }
  }

  lemma {:induction false} SortedUnique(s: seq<Entry>, t: seq<Entry>)
    requires Sorted(s) && Sorted(t) && forall e :: e in s <==> e in t
    ensures s == t
  {
    NotEmptied(s, t);
    NotEmptied(t, s);
    if s != [] && t != [] {
      SameFirst(s, t);
      SameRest(s, t);
      SameRest(t, s);
      SortedUnique(s[1..], t[1..]);
      assert s == [s[0]] + s[1..] && t == [t[0]] + t[1..];
    }
  }

  lemma SameFirst(s: seq<Entry>, t: seq<Entry>)
    requires s != [] && t != [] && Sorted(s) && Sorted(t) && forall e :: e in s <==> e in t
    ensures s[0] == t[0]
  {
    assert s[0] in t && t[0] in s;
    var i, j :| 0 <= i < |s| && s[i] == t[0] && 0 <= j < |t| && t[j] == s[0];
    if i > 0 && j > 0 {
      LessIsNew(s[0].key, t[0].key);
      LessTotal(s[0].key, t[0].key);
    }
  }

  lemma SameRest(s: seq<Entry>, t: seq<Entry>)
    requires s != [] && t != [] && s[0] == t[0] && Sorted(s) && forall e :: e in s ==> e in t
    ensures forall e :: e in s[1..] ==> e in t[1..]
  {
    forall i | 1 <= i < |s|
      ensures s[i] in t[1..]
    {
      LessIsNew(s[0].key, s[i].key);
      assert s[i] in s && t == [t[0]] + t[1..];
    }
  }

  /** A database that serves lookups in the trie of a map. */
  ghost predicate Serves(db: map<Bytes, Bytes>, h: Hash, m: map<Bytes, Bytes>) {
    [] !in db && forall s :: IsHash(h) && Sorted(s) && Lists(s, m) && Agree(s, 0) ==> Stored(db, h, s, 0)
  }

  /** The nodes under their hashes serve as a database, if the hash tells them apart. */
  lemma DatabaseServes(h: Hash, s: seq<Entry>, m: map<Bytes, Bytes>)
    requires IsHash(h) && Sorted(s) && Lists(s, m) && Agree(s, 0) && CollisionFree(h, Nodes(h, s, 0))
    ensures Serves(Database(h, Nodes(h, s, 0)), h, m)
  {
    var db := Database(h, Nodes(h, s, 0));
    NodesStored(db, h, s, 0);
    forall t | Sorted(t) && Lists(t, m) && Agree(t, 0)
      ensures Stored(db, h, t, 0)
    {
      SortedUnique(s, t);
    }
  }

  lemma EmptyRoot(h: Hash, s: seq<Entry>, m: map<Bytes, Bytes>)
    requires IsHash(h) && Lists(s, m) && Agree(s, 0)
    ensures m == map[] ==> Encode(Layout(h, s, 0)) == [0x80]
  {
    if s != [] {
      assert s[0] in s;
      var k :| k in m;
    }
  }

  /** The bytes of the root node of a trie of the entries of a map. */
  ghost predicate EncodesTrieOf(h: Hash, m: map<Bytes, Bytes>, root: Bytes) {
    exists s, node :: IsHash(h) && Lists(s, m) && Agree(s, 0) && Encodable(node) && IsTrie(h, s, 0, node)
                      && root == Encode(node)
  }

  /** rlp256 of a map: with the nodes in a database, the root finds exactly the map. */
  method Rlp256(h: Hash, m: map<Bytes, Bytes>, ghost db: map<Bytes, Bytes>) returns (root: Bytes)
    requires IsHash(h) && (forall k :: k in m ==> Sized(Entry(AsNibbles(k), m[k]))) && Serves(db, h, m)
    ensures forall k :: LookupRoot(db, root, AsNibbles(k)) == Binding(m, k)
    ensures RootOf(db, h, root, m) && EncodesTrieOf(h, m, root)
  {
    var s := HexMap(m);
    DifferentKeysAgree(s);
    if m == map[] {
      EmptyRoot(h, s, m);
      root := [0x80];
    } else {
      var stream := new RlpStream();
      Hash256Rlp(h, s, 0, stream);
      root := stream.out;
    }
    LayoutIsTrie(h, s, 0);
    assert IsTrie(h, s, 0, Layout(h, s, 0)) && root == Encode(Layout(h, s, 0));
    forall k: Bytes {
      TrieIsMap(db, h, s, m, k);
    }
  }

  /**
    The root hash commits to the map: two maps of non-empty values with the same
    root hash are equal, if the hash tells their roots and nodes apart.
   */
  lemma RootHashCommits(h: Hash, s: seq<Entry>, m: map<Bytes, Bytes>, s': seq<Entry>, m': map<Bytes, Bytes>)
    requires IsHash(h) && Lists(s, m) && Lists(s', m') && Agree(s, 0) && Agree(s', 0)
    requires (forall k :: k in m ==> m[k] != []) && (forall k :: k in m' ==> m'[k] != [])
    requires var root, root' := Encode(Layout(h, s, 0)), Encode(Layout(h, s', 0));
             CollisionFree(h, Nodes(h, s, 0) + Nodes(h, s', 0) + {root, root'}) && h(root) == h(root')
    ensures m == m'
  {
    var root, root' := Encode(Layout(h, s, 0)), Encode(Layout(h, s', 0));
    var nodes := Nodes(h, s, 0) + Nodes(h, s', 0) + {root, root'};
    var db := Database(h, nodes);
    StoresLess(db, h, nodes, Nodes(h, s, 0));
    StoresLess(db, h, nodes, Nodes(h, s', 0));
    NodesStored(db, h, s, 0);
    NodesStored(db, h, s', 0);
    assert root in nodes && root' in nodes;
    RootCommits(db, h, root, m, m');
  }
}
