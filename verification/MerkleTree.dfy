/**
  The Merkle tree over at most sixteen children per node, and its proofs. A node
  is its byte string; the hexadecimal strings that the source keys its maps with
  stand for the same nodes.
 */
module MerkleTree {
  import opened Prelude

  const MAX_CHILD_COUNT: nat := 16

  function Groups(n: nat): nat {
    (n + MAX_CHILD_COUNT - 1) / MAX_CHILD_COUNT
  }

  function Least(a: nat, b: nat): nat {
    if a < b then a else b
  }

  /** The children of node i of the next level. */
  function Group(level: seq<Bytes>, i: nat): (r: seq<Bytes>)
    requires i < Groups(|level|)
    ensures r != []
  {
    level[16 * i..Least(16 * i + 16, |level|)]
  }

  lemma GroupHas(level: seq<Bytes>, j: nat)
    requires j < |level|
    ensures j / 16 < Groups(|level|) && j % 16 < |Group(level, j / 16)| && Group(level, j / 16)[j % 16] == level[j]
  {
  }

  function UpTo(h: Hash, level: seq<Bytes>, n: nat): (r: seq<Bytes>)
    requires n <= Groups(|level|)
    ensures |r| == n && forall i :: 0 <= i < n ==> r[i] == h(Concat(Group(level, i)))
  {
    if n == 0 then [] else UpTo(h, level, n - 1) + [h(Concat(Group(level, n - 1)))]
  }

  /** The next level. */
  function Up(h: Hash, level: seq<Bytes>): (r: seq<Bytes>)
    ensures |r| == Groups(|level|) && forall i :: 0 <= i < |r| ==> r[i] == h(Concat(Group(level, i)))
  {
    UpTo(h, level, Groups(|level|))
  }

  function Root(h: Hash, level: seq<Bytes>): Bytes
    decreases |level|
  {
    if level == [] then h([]) else if |level| == 1 then h(level[0]) else Root(h, Up(h, level))
  }

  ghost predicate Rung(h: Hash, levels: seq<seq<Bytes>>, t: nat)
    requires t + 1 < |levels|
  {
    levels[t + 1] == Up(h, levels[t]) && (|levels[t]| == 1 <==> t + 2 == |levels|)
  }

  /** The levels from the leaves to the root. */
  ghost predicate Tower(h: Hash, levels: seq<seq<Bytes>>) {
    |levels| >= 2 && levels[0] != [] && forall t :: 0 <= t < |levels| - 1 ==> Rung(h, levels, t)
  }

  lemma TowerCons(h: Hash, leaves: seq<Bytes>, above: seq<seq<Bytes>>)
    requires |leaves| > 1 && Tower(h, above) && above[0] == Up(h, leaves)
    ensures Tower(h, [leaves] + above)
  {
    forall t | 0 <= t < |above|
      ensures Rung(h, [leaves] + above, t)
    {
      if t > 0 {
        assert Rung(h, above, t - 1);
      }
    }
  }

  lemma TowerRest(h: Hash, levels: seq<seq<Bytes>>)
    requires Tower(h, levels) && |levels| > 2
    ensures Tower(h, levels[1..]) && |levels[0]| > 1 && levels[1] == Up(h, levels[0])
  {
    assert Rung(h, levels, 0);
    forall t | 0 <= t < |levels| - 2
      ensures Rung(h, levels[1..], t)
    {
      assert Rung(h, levels, t + 1);
    }
  }

  lemma {:induction false} TowerOf(h: Hash, leaves: seq<Bytes>) returns (levels: seq<seq<Bytes>>)
    requires leaves != []
    ensures Tower(h, levels) && levels[0] == leaves
    decreases |leaves|
  {
    if |leaves| == 1 {
      levels := [leaves, Up(h, leaves)];
    } else {
      var above := TowerOf(h, Up(h, leaves));
      TowerCons(h, leaves, above);
      levels := [leaves] + above;
    }
  }

  lemma TopIsRoot(h: Hash, level: seq<Bytes>)
    requires |level| == 1
    ensures Up(h, level) == [h(level[0])]
  {
    assert Group(level, 0) == level;
    ConcatSnoc([], level[0]);
    assert [] + [level[0]] == level && [] + level[0] == level[0];
  }

  lemma {:induction false} TowerRoot(h: Hash, levels: seq<seq<Bytes>>)
    requires Tower(h, levels)
    ensures levels[|levels| - 1] == [Root(h, levels[0])]
    decreases |levels|
  {
    if |levels| == 2 {
      assert Rung(h, levels, 0);
      TopIsRoot(h, levels[0]);
    } else {
      TowerRest(h, levels);
      TowerRoot(h, levels[1..]);
    }
  }

  /** The inner loop: a node's children one after the other. */
  method JoinGroup(level: seq<Bytes>, i: nat) returns (byteValue: Bytes, childList: seq<Bytes>)
    requires i < Groups(|level|)
    ensures byteValue == Concat(childList) && childList == Group(level, i)
  {
    byteValue, childList := [], [];
    for j := 0 to MAX_CHILD_COUNT
      invariant byteValue == Concat(childList) && childList == level[16 * i..Least(16 * i + j, |level|)]
    {
      var index := i * MAX_CHILD_COUNT + j;
      if index < |level| {
        ConcatSnoc(childList, level[index]);
        byteValue := byteValue + level[index];
        childList := childList + [level[index]];
      }
    }
  }

  /** One round of getHash256; the groups may be hashed in any order. */
  method HigherLevel(h: Hash, level: seq<Bytes>) returns (higherLevelList: seq<Bytes>)
    ensures higherLevelList == Up(h, level)
  {
    var list := new Bytes[Groups(|level|)](_ => []);
    var todo: set<nat> := Below(Groups(|level|));
    ghost var up := Up(h, level);
    while todo != {}
      invariant forall i :: i in todo ==> i < list.Length
      invariant forall i: nat :: i < list.Length && i !in todo ==> list[i] == up[i]
      decreases |todo|
    {
      var i :| i in todo;
      var byteValue, childList := JoinGroup(level, i);
      list[i] := h(byteValue);
      todo := todo - {i};
    }
    return list[..];
  }

  /**
    The root: the hash of nothing; of a single node; or the root of the nodes
    above, each the hash of the sixteen or fewer nodes below it one after the other.
   */
  lemma RootIs(h: Hash, level: seq<Bytes>) returns (above: seq<Bytes>)
    ensures |level| == 0 ==> Root(h, level) == h([])
    ensures |level| == 1 ==> Root(h, level) == h(level[0])
    ensures |level| > 1 ==> 16 * |above| - 16 < |level| <= 16 * |above| && Root(h, level) == Root(h, above)
    ensures forall i :: 0 <= i < |above| && |level| > 1 ==>
              above[i] == h(Concat(level[16 * i..if 16 * i + 16 < |level| then 16 * i + 16 else |level|]))
  {
    above := Up(h, level);
  }

  method GetHash256(h: Hash, leaves: seq<Bytes>) returns (root: Bytes)
    ensures root == Root(h, leaves)
    ensures leaves == [] ==> root == h([])
  {
    if leaves == [] {
      return h([]);
    }
    var level := leaves;
    while |level| > 1
      invariant level != [] && Root(h, level) == Root(h, leaves)
      decreases |level|
    {
      level := HigherLevel(h, level);
    }
    return h(level[0]);
  }
}
