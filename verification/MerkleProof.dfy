/**
  Proofs that a leaf is in the tree: the map from parents to children, its
  inverse, and the walk from a leaf to the root.
 */
module MerkleProof {
  import opened Prelude
  import opened MerkleTree

  /** Node i of the level above level t. */
  predicate Spot(levels: seq<seq<Bytes>>, t: nat, i: nat) {
    t + 1 < |levels| && i < |levels[t + 1]| == Groups(|levels[t]|)
  }

  predicate Node(levels: seq<seq<Bytes>>, t: nat, j: nat) {
    t < |levels| && j < |levels[t]|
  }

  /** No two nodes are equal. */
  ghost predicate DistinctNodes(levels: seq<seq<Bytes>>) {
    forall t: nat, j: nat, t': nat, j': nat ::
      Node(levels, t, j) && Node(levels, t', j') && levels[t][j] == levels[t'][j'] ==> t == t' && j == j'
  }

  type Parent2Children = map<Bytes, seq<Bytes>>

  predicate Entry(levels: seq<seq<Bytes>>, m: Parent2Children, t: nat, i: nat)
    requires Spot(levels, t, i)
  {
    levels[t + 1][i] in m && m[levels[t + 1][i]] == Group(levels[t], i)
  }

  /** Written so far: the levels below t, and of level t what is not in todo. */
  predicate Done(t: nat, todo: set<nat>, s: nat, i: nat) {
    s < t || (s == t && i !in todo)
  }

  /** The map has exactly the entries that are written so far. */
  ghost predicate Filled(levels: seq<seq<Bytes>>, m: Parent2Children, t: nat, todo: set<nat>) {
    && (forall s: nat, i: nat :: Spot(levels, s, i) && Done(t, todo, s, i) ==> Entry(levels, m, s, i))
    && (forall p :: p in m ==> Written(levels, t, todo, p))
  }

  ghost predicate Written(levels: seq<seq<Bytes>>, t: nat, todo: set<nat>, p: Bytes) {
    exists s: nat, i: nat :: Spot(levels, s, i) && Done(t, todo, s, i) && p == levels[s + 1][i]
  }

  lemma NotYetWritten(levels: seq<seq<Bytes>>, t: nat, todo: set<nat>, i: nat)
    requires DistinctNodes(levels) && Spot(levels, t, i) && i in todo
    ensures !Written(levels, t, todo, levels[t + 1][i])
  {
    assert Node(levels, t + 1, i);
    if s: nat, k: nat :| Spot(levels, s, k) && Done(t, todo, s, k) && levels[t + 1][i] == levels[s + 1][k] {
      assert Node(levels, s + 1, k);
    }
  }

  lemma WrittenMore(levels: seq<seq<Bytes>>, t: nat, todo: set<nat>, i: nat, p: Bytes)
    requires Spot(levels, t, i) && (Written(levels, t, todo, p) || p == levels[t + 1][i])
    ensures Written(levels, t, todo - {i}, p)
  {
    if p == levels[t + 1][i] {
      assert Done(t, todo - {i}, t, i);
    } else {
      var s: nat, k: nat :| Spot(levels, s, k) && Done(t, todo, s, k) && p == levels[s + 1][k];
      assert Done(t, todo - {i}, s, k);
    }
  }

  lemma EntryKept(levels: seq<seq<Bytes>>, m: Parent2Children, t: nat, todo: set<nat>, i: nat, s: nat, k: nat)
    requires Filled(levels, m, t, todo) && Spot(levels, t, i) && !Written(levels, t, todo, levels[t + 1][i])
    requires Spot(levels, s, k) && Done(t, todo - {i}, s, k)
    ensures Entry(levels, m[levels[t + 1][i] := Group(levels[t], i)], s, k)
  {
    if s != t || k != i {
      assert Done(t, todo, s, k) && Entry(levels, m, s, k);
    }
  }

  /** One more node of the next level is written; its key is new. */
  lemma FilledOne(levels: seq<seq<Bytes>>, m: Parent2Children, t: nat, todo: set<nat>, i: nat)
    requires DistinctNodes(levels) && Filled(levels, m, t, todo) && Spot(levels, t, i) && i in todo
    ensures levels[t + 1][i] !in m
    ensures Filled(levels, m[levels[t + 1][i] := Group(levels[t], i)], t, todo - {i})
  {
    NotYetWritten(levels, t, todo, i);
    forall s: nat, k: nat | Spot(levels, s, k) && Done(t, todo - {i}, s, k) {
      EntryKept(levels, m, t, todo, i, s, k);
    }
    forall p | p in m || p == levels[t + 1][i] {
      WrittenMore(levels, t, todo, i, p);
    }
  }

  lemma FilledLevel(levels: seq<seq<Bytes>>, m: Parent2Children, t: nat, todo: set<nat>)
    requires Filled(levels, m, t, {}) && t + 1 < |levels|
    requires todo == if t + 2 < |levels| then Below(|levels[t + 2]|) else {}
    ensures Filled(levels, m, t + 1, todo)
  {
    assert forall s: nat, i: nat :: Spot(levels, s, i) ==> (Done(t, {}, s, i) <==> Done(t + 1, todo, s, i));
    forall p | p in m
      ensures Written(levels, t + 1, todo, p)
    {
      var s: nat, k: nat :| Spot(levels, s, k) && Done(t, {}, s, k) && p == levels[s + 1][k];
      assert Done(t + 1, todo, s, k);
    }
  }

  function Listed(m: Parent2Children, parent: Bytes): seq<Bytes> {
    if parent in m then m[parent] else []
  }

  /** The children of one node are pushed onto the list of their parent. */
  method PushChildren(m0: Parent2Children, parent: Bytes, childList: seq<Bytes>) returns (m: Parent2Children)
    requires childList != []
    ensures m == m0[parent := Listed(m0, parent) + childList]
  {
    m := m0;
    for k := 0 to |childList|
      invariant Listed(m, parent) == Listed(m0, parent) + childList[..k]
      invariant m == if k == 0 then m0 else m0[parent := Listed(m, parent)]
    {
      assert childList[..k + 1] == childList[..k] + [childList[k]];
      m := m[parent := Listed(m, parent) + [childList[k]]];
    }
    assert childList[..|childList|] == childList;
  }

  /** Going through level t of the tower, with the nodes in todo still to be written. */
  ghost predicate Climbing(
      h: Hash, levels: seq<seq<Bytes>>, level: seq<Bytes>, m: Parent2Children, t: nat, todo: set<nat>)
  {
    && DistinctNodes(levels) && t + 1 < |levels| && level == levels[t] && levels[t + 1] == Up(h, level)
    && Filled(levels, m, t, todo)
  }

  lemma ClimbOne(
      h: Hash, levels: seq<seq<Bytes>>, level: seq<Bytes>, m: Parent2Children, t: nat, todo: set<nat>, i: nat)
    requires Climbing(h, levels, level, m, t, todo) && i in todo && i < Groups(|level|)
    ensures var p := h(Concat(Group(level, i)));
            Climbing(h, levels, level, m[p := Listed(m, p) + Group(level, i)], t, todo - {i})
  {
    FilledOne(levels, m, t, todo, i);
    assert [] + Group(level, i) == Group(level, i);
  }

  /** One round of getMerkleProof over a level; its groups may be hashed and written in any order. */
  method AddLevel(h: Hash, level: seq<Bytes>, m0: Parent2Children, ghost levels: seq<seq<Bytes>>, ghost t: nat)
    returns (m: Parent2Children, higherLevelList: seq<Bytes>)
    ensures higherLevelList == Up(h, level)
    ensures Climbing(h, levels, level, m0, t, Below(Groups(|level|))) ==> Climbing(h, levels, level, m, t, {})
  {
    m := m0;
    var list := new Bytes[Groups(|level|)](_ => []);
    var todo: set<nat> := Below(Groups(|level|));
    ghost var up := Up(h, level);
    ghost var good := Climbing(h, levels, level, m0, t, todo);
    while todo != {}
      invariant forall i :: i in todo ==> i < list.Length
      invariant forall i: nat :: i < list.Length && i !in todo ==> list[i] == up[i]
      invariant good ==> Climbing(h, levels, level, m, t, todo)
      decreases |todo|
    {
      var i :| i in todo;
      list[i], m := AddGroup(h, level, i, m, levels, t, todo);
      todo := todo - {i};
    }
    higherLevelList := list[..];
  }

  /** One node of the next level: it is hashed, and its children are written. */
  method AddGroup(h: Hash, level: seq<Bytes>, i: nat, m0: Parent2Children,
                  ghost levels: seq<seq<Bytes>>, ghost t: nat, ghost todo: set<nat>)
    returns (parent: Bytes, m: Parent2Children)
    requires i < Groups(|level|) && i in todo
    ensures parent == Up(h, level)[i]
    ensures Climbing(h, levels, level, m0, t, todo) ==> Climbing(h, levels, level, m, t, todo - {i})
  {
    var byteValue, childList := JoinGroup(level, i);
    parent := h(byteValue);
    m := PushChildren(m0, parent, childList);
    if Climbing(h, levels, level, m0, t, todo) {
      ClimbOne(h, levels, level, m0, t, todo, i);
    }
  }

  /** The next level, once this one is written. */
  lemma ClimbLevel(h: Hash, levels: seq<seq<Bytes>>, level: seq<Bytes>, m: Parent2Children, t: nat)
    requires Tower(h, levels) && Climbing(h, levels, level, m, t, {}) && |level| > 1
    ensures Climbing(h, levels, Up(h, level), m, t + 1, Below(Groups(|Up(h, level)|)))
  {
    assert Rung(h, levels, t);
    assert Rung(h, levels, t + 1);
    FilledLevel(levels, m, t, Below(|levels[t + 2]|));
  }

  /** The map of the whole tower. */
  ghost predicate Complete(levels: seq<seq<Bytes>>, m: Parent2Children) {
    |levels| >= 2 && Filled(levels, m, |levels| - 1, {})
  }

  lemma ClimbTop(h: Hash, levels: seq<seq<Bytes>>, level: seq<Bytes>, m: Parent2Children, t: nat)
    requires Tower(h, levels) && |level| == 1 && Climbing(h, levels, level, m, t, Below(1))
    ensures var p := h(level[0]); Complete(levels, m[p := Listed(m, p) + [level[0]]])
  {
    assert Rung(h, levels, t);
    TopIsRoot(h, level);
    assert Group(level, 0) == level == [level[0]];
    ClimbOne(h, levels, level, m, t, Below(1), 0);
    assert Below(1) - {0} == {};
    var p := h(level[0]);
    FilledLevel(levels, m[p := Listed(m, p) + [level[0]]], t, {});
  }

  /** getMerkleProof of TrieHash2: the map from every node to its children. */
  method BuildParents(h: Hash, leaves: seq<Bytes>, ghost levels: seq<seq<Bytes>>) returns (m: Parent2Children)
    ensures leaves == [] ==> m == map[]
    ensures Tower(h, levels) && levels[0] == leaves && DistinctNodes(levels) ==> Complete(levels, m)
  {
    m := map[];
    if leaves == [] {
      return;
    }
    ghost var good := Tower(h, levels) && levels[0] == leaves && DistinctNodes(levels);
    ghost var t := 0;
    var level := leaves;
    if good {
      assert Rung(h, levels, 0);
    }
    while |level| > 1
      invariant level != []
      invariant good ==> Climbing(h, levels, level, m, t, Below(Groups(|level|)))
      decreases |level|
    {
      ghost var before := level;
      m, level := AddLevel(h, level, m, levels, t);
      if good {
        ClimbLevel(h, levels, before, m, t);
      }
      t := t + 1;
    }
    if good {
      ClimbTop(h, levels, level, m, t);
    }
    m := PushChildren(m, h(level[0]), [level[0]]);
  }

  type Child2Parent = map<Bytes, Bytes>

  /** Every child but the empty string has one of its parents, and nothing else has a parent. */
  ghost predicate Inverse(p2c: Parent2Children, c2p: Child2Parent) {
    && (forall p, c :: p in p2c && c in p2c[p] && c != [] ==> c in c2p)
    && (forall c :: c in c2p ==> c != [] && c2p[c] in p2c && c in p2c[c2p[c]])
  }

  /** parseMerkleMap: the children are entered concurrently, in any order. */
  method ParseMerkleMap(p2c: Parent2Children) returns (c2p: Child2Parent)
    ensures Inverse(p2c, c2p)
  {
    c2p := map[];
    var todo := set p, i | p in p2c && 0 <= i < |p2c[p]| :: (p, i);
    while todo != {}
      invariant forall x :: x in todo ==> x.0 in p2c && 0 <= x.1 < |p2c[x.0]|
      invariant forall p, i :: p in p2c && 0 <= i < |p2c[p]| && p2c[p][i] != [] && (p, i) !in todo ==> p2c[p][i] in c2p
      invariant forall c :: c in c2p ==> c != [] && c2p[c] in p2c && c in p2c[c2p[c]]
      decreases |todo|
    {
      var x :| x in todo;
      var child := p2c[x.0][x.1];
      if child != [] {
        c2p := c2p[child := x.0];
      }
      todo := todo - {x};
    }
  }

  /** A proof, per level: the nodes to the left and to the right. */
  type Proof = seq<(seq<Bytes>, seq<Bytes>)>

  /** Hashing upwards from a node along a proof. */
  function Fold(h: Hash, node: Bytes, proof: Proof): Bytes {
    if proof == [] then node
    else
      var last := proof[|proof| - 1];
      h(Concat(last.0) + Fold(h, node, proof[..|proof| - 1]) + Concat(last.1))
  }

  lemma ConcatSplit(xs: seq<Bytes>, k: nat)
    requires k < |xs|
    ensures Concat(xs) == Concat(xs[..k]) + xs[k] + Concat(xs[k + 1..])
  {
    ConcatSnoc(xs[..k], xs[k]);
    ConcatJoin(xs[..k] + [xs[k]], xs[k + 1..]);
    Around(xs, k);
  }

  lemma ChildIndex(level: seq<Bytes>, i: nat, c: Bytes) returns (j: nat)
    requires i < Groups(|level|) && c in Group(level, i)
    ensures j < |level| && j / 16 == i && level[j] == c
  {
    var k :| 0 <= k < |Group(level, i)| && Group(level, i)[k] == c;
    j := 16 * i + k;
  }

  /** A child in the map is a node below the root, and its parent is the node above it. */
  lemma ParentOf(levels: seq<seq<Bytes>>, p2c: Parent2Children, p: Bytes, c: Bytes) returns (t: nat, j: nat)
    requires Complete(levels, p2c) && p in p2c && c in p2c[p]
    ensures Node(levels, t, j) && levels[t][j] == c && Spot(levels, t, j / 16)
    ensures p == levels[t + 1][j / 16] && p2c[p] == Group(levels[t], j / 16)
  {
    assert Written(levels, |levels| - 1, {}, p);
    var i: nat;
    t, i :| Spot(levels, t, i) && Done(|levels| - 1, {}, t, i) && p == levels[t + 1][i];
    assert Entry(levels, p2c, t, i);
    j := ChildIndex(levels[t], i, c);
  }

  /** A node below the root has a parent, unless it is the empty string. */
  lemma HasParent(levels: seq<seq<Bytes>>, p2c: Parent2Children, c2p: Child2Parent, t: nat, j: nat)
    requires Complete(levels, p2c) && Inverse(p2c, c2p)
    requires Node(levels, t, j) && Spot(levels, t, j / 16) && levels[t][j] != []
    ensures levels[t][j] in c2p
  {
    assert Done(|levels| - 1, {}, t, j / 16) && Entry(levels, p2c, t, j / 16);
    GroupHas(levels[t], j);
    assert Group(levels[t], j / 16)[j % 16] in Group(levels[t], j / 16);
  }

  lemma FoldSnoc(h: Hash, node: Bytes, proof: Proof, left: seq<Bytes>, right: seq<Bytes>)
    ensures Fold(h, node, proof + [(left, right)]) == h(Concat(left) + Fold(h, node, proof) + Concat(right))
  {
    assert (proof + [(left, right)])[..|proof|] == proof;
  }

  /** std::find. */
  method IndexOf(xs: seq<Bytes>, x: Bytes) returns (k: nat)
    ensures k <= |xs| && (k < |xs| ==> xs[k] == x) && (k == |xs| <==> x !in xs)
  {
    k := 0;
    while k < |xs| && xs[k] != x
      invariant k <= |xs| && x !in xs[..k]
    {
      k := k + 1;
    }
    assert xs[..|xs|] == xs;
  }

  ghost predicate InTree(levels: seq<seq<Bytes>>, node: Bytes) {
    exists t: nat, j: nat :: Node(levels, t, j) && levels[t][j] == node
  }

  lemma SameNode(levels: seq<seq<Bytes>>, t: nat, j: nat, t': nat, j': nat)
    requires DistinctNodes(levels) && Node(levels, t, j) && Node(levels, t', j') && levels[t][j] == levels[t'][j']
    ensures t == t' && j == j'
  {
  }

  lemma AboveIsHash(h: Hash, levels: seq<seq<Bytes>>, t: nat, i: nat)
    requires IsHash(h) && Tower(h, levels) && Spot(levels, t, i)
    ensures levels[t + 1][i] == h(Concat(Group(levels[t], i))) != []
  {
    assert Rung(h, levels, t);
  }

  /** A step of the walk: the parent of the node at (t, j) is the node above it, and its children hash to it. */
  lemma StepUp(h: Hash, levels: seq<seq<Bytes>>, p2c: Parent2Children, p: Bytes, t: nat, j: nat, c: Bytes)
    requires IsHash(h) && Tower(h, levels) && DistinctNodes(levels) && Complete(levels, p2c)
    requires p in p2c && c in p2c[p] && Node(levels, t, j) && levels[t][j] == c
    ensures Node(levels, t + 1, j / 16) && levels[t + 1][j / 16] == p != [] && h(Concat(p2c[p])) == p
  {
    var t', j' := ParentOf(levels, p2c, p, c);
    SameNode(levels, t, j, t', j');
    AboveIsHash(h, levels, t', j' / 16);
  }

  lemma {:induction false} RootIsHash(h: Hash, level: seq<Bytes>)
    requires IsHash(h)
    ensures |Root(h, level)| == 32
    decreases |level|
  {
    if |level| > 1 {
      RootIsHash(h, Up(h, level));
    }
  }

  /** At the node where the walk ends there is nothing above. */
  lemma EndsAtRoot(h: Hash, levels: seq<seq<Bytes>>, p2c: Parent2Children, c2p: Child2Parent, t: nat, j: nat)
    requires IsHash(h) && Tower(h, levels) && Complete(levels, p2c) && Inverse(p2c, c2p)
    requires Node(levels, t, j) && levels[t][j] != [] && levels[t][j] !in c2p
    ensures levels[t][j] == Root(h, levels[0])
  {
    TowerRoot(h, levels);
    if t + 1 < |levels| {
      assert Rung(h, levels, t);
      GroupHas(levels[t], j);
      HasParent(levels, p2c, c2p, t, j);
    }
  }

  /**
    The walk of getMerkleProof. It ends; for a node of the tree, hashing along
    the proof gives the root, unless the node is the empty string; for anything
    else the proof is empty.
   */
  method WalkUp(h: Hash, txHash: Bytes, p2c: Parent2Children, c2p: Child2Parent, ghost levels: seq<seq<Bytes>>)
    returns (merkleProof: Proof)
    requires IsHash(h) && Tower(h, levels) && DistinctNodes(levels) && Complete(levels, p2c) && Inverse(p2c, c2p)
    ensures InTree(levels, txHash) ==> (Fold(h, txHash, merkleProof) == Root(h, levels[0]) <==> txHash != [])
    ensures !InTree(levels, txHash) || txHash == [] ==> merkleProof == []
  {
    merkleProof := [];
    var merkleNode := txHash;
    ghost var inTree := txHash != [] && InTree(levels, txHash);
    ghost var t: nat, j: nat := 0, 0;
    if txHash in c2p {
      t, j := ParentOf(levels, p2c, c2p[txHash], txHash);
    } else if inTree {
      t, j :| Node(levels, t, j) && levels[t][j] == txHash;
    }
    while merkleNode in c2p
      invariant Fold(h, txHash, merkleProof) == merkleNode
      invariant if inTree then Node(levels, t, j) && levels[t][j] == merkleNode != []
                else txHash !in c2p && merkleProof == []
      decreases |levels| - t
    {
      var parent := c2p[merkleNode];
      if parent !in p2c {
        break;
      }
      var children := p2c[parent];
      var k := IndexOf(children, merkleNode);
      if k == |children| {
        break;
      }
      StepUp(h, levels, p2c, parent, t, j, merkleNode);
      ConcatSplit(children, k);
      FoldSnoc(h, txHash, merkleProof, children[..k], children[k + 1..]);
      merkleProof := merkleProof + [(children[..k], children[k + 1..])];
      merkleNode := parent;
      t, j := t + 1, j / 16;
    }
    RootIsHash(h, levels[0]);
    if inTree {
      EndsAtRoot(h, levels, p2c, c2p, t, j);
    }
  }

  /** No two nodes of the tree over the leaves are equal. */
  ghost predicate DistinctTree(h: Hash, leaves: seq<Bytes>) {
    forall levels :: Tower(h, levels) && levels[0] == leaves ==> DistinctNodes(levels)
  }

  /** What a block answers when it is asked to prove a transaction: a proof that hashes to its transactions root. */
  method ProveTransaction(h: Hash, leaves: seq<Bytes>, k: nat) returns (merkleProof: Proof)
    requires IsHash(h) && k < |leaves| && leaves[k] != [] && DistinctTree(h, leaves)
    ensures Fold(h, leaves[k], merkleProof) == Root(h, leaves)
  {
    ghost var levels := TowerOf(h, leaves);
    var p2c := BuildParents(h, leaves, levels);
    var c2p := ParseMerkleMap(p2c);
    merkleProof := WalkUp(h, leaves[k], p2c, c2p, levels);
    assert Node(levels, 0, k);
  }
}
