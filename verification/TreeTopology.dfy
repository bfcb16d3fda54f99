/** Class TreeTopology: which nodes a consensus node sends to, and from which one it gets. */
module TreeTopology {
  import opened Prelude
  import opened TreeShape

  /** getSelectedNodeIndex: the consensus node at a position of the tree that starts at start. */
  function Rotated(p: nat, start: nat, n: nat): (c: nat)
    requires n > 0
    ensures c < n
  {
    (p + start) % n
  }

  /** getNodeIndex: the position of a consensus node. */
  function Unrotated(c: nat, start: nat, n: nat): nat
    requires n > 0
  {
    if c >= start then c - start else (c + n - start % n) % n
  }

  lemma RemainderIs(x: nat, n: nat, r: nat)
    requires n > 0 && r < n && (x == r || x == r + n)
    ensures x % n == r
  {
    QuotientUnique(x, n, if x == r then 0 else 1, r);
  }

  lemma SumOfMultiples(a: nat, b: nat, n: nat)
    ensures (a + b) * n == a * n + b * n
  {
  }

  lemma RemainderOfSum(x: nat, s: nat, n: nat)
    requires n > 0
    ensures (x + s) % n == (x + s % n) % n
  {
    var q, q' := s / n, (x + s % n) / n;
    QuotientSmaller(s, n);
    QuotientSmaller(x + s % n, n);
    SumOfMultiples(q, q', n);
    QuotientUnique(x + s, n, q + q', (x + s % n) % n);
  }

  /** The rotation and its inverse cancel. */
  lemma RotateBack(c: nat, start: nat, n: nat)
    requires c < n
    ensures Unrotated(c, start, n) < n && Rotated(Unrotated(c, start, n), start, n) == c
  {
    if c >= start {
      RemainderIs(c, n, c);
    } else {
      var s := start % n;
      var p := if c >= s then c - s else c + n - s;
      RemainderIs(c + n - s, n, p);
      RemainderOfSum(p, start, n);
      RemainderIs(p + s, n, c);
    }
  }

  lemma UnrotateBack(p: nat, start: nat, n: nat)
    requires p < n
    ensures Unrotated(Rotated(p, start, n), start, n) == p
  {
    var s := start % n;
    var c := if p + s < n then p + s else p + s - n;
    RemainderOfSum(p, start, n);
    RemainderIs(p + s, n, c);
    if c < start {
      RemainderIs(c + n - s, n, p);
    } else {
      RemainderIs(start, n, start);
    }
  }

  /** Neighbouring positions hold neighbouring nodes, in a circle; the start node is at position 0. */
  lemma RotatedInCircle(p: nat, start: nat, n: nat)
    requires n > 0
    ensures Rotated(0, start, n) == start % n
    ensures Rotated(p + 1, start, n) == if Rotated(p, start, n) == n - 1 then 0 else Rotated(p, start, n) + 1
  {
    var c := Rotated(p, start, n);
    RemainderOfSum(1, p + start, n);
    RemainderIs(1 + c, n, if c == n - 1 then 0 else c + 1);
  }

  /** Whether the consensus node at a position is a peer. */
  function LiveAt<Id>(nodes: seq<Id>, peers: set<Id>, start: nat): nat -> bool
    requires nodes != []
  {
    (p: nat) => nodes[Rotated(p, start, |nodes|)] in peers
  }

  /** The consensus node at a position. */
  function NameAt<Id>(nodes: seq<Id>, start: nat): nat -> Id
    requires nodes != []
  {
    (p: nat) => nodes[Rotated(p, start, |nodes|)]
  }

  /** live and name say of position p what the list of nodes and the peers say of the node there. */
  ghost predicate PicturesAt<Id>(
      live: nat -> bool, name: nat -> Id, nodes: seq<Id>, peers: set<Id>, start: nat, p: nat)
    requires nodes != []
  {
    live(p) == (nodes[Rotated(p, start, |nodes|)] in peers) && name(p) == nodes[Rotated(p, start, |nodes|)]
  }

  ghost predicate Pictures<Id>(live: nat -> bool, name: nat -> Id, nodes: seq<Id>, peers: set<Id>, start: nat)
    requires nodes != []
  {
    forall p: nat :: PicturesAt(live, name, nodes, peers, start, p)
  }

  function Names<Id>(name: nat -> Id, ps: seq<nat>): seq<Id> {
    if ps == [] then [] else [name(ps[0])] + Names(name, ps[1..])
  }

  lemma {:induction false} NamesJoin<Id>(name: nat -> Id, a: seq<nat>, b: seq<nat>)
    ensures Names(name, a + b) == Names(name, a) + Names(name, b)
  {
    if a == [] {
      assert a + b == b;
    } else {
      NamesJoin(name, a[1..], b);
      assert (a + b)[1..] == a[1..] + b;
      AppendAssoc([name(a[0])], Names(name, a[1..]), Names(name, b));
    }
  }

  lemma NamesOne<Id>(name: nat -> Id, p: nat)
    ensures Names(name, [p]) == [name(p)]
  {
  }

  lemma NothingMore<Id>(name: nat -> Id, s: seq<Id>)
    ensures s + Names(name, []) == s
  {
  }

  /** The live positions above b, nearest first. */
  function LiveAbove(live: nat -> bool, width: nat, b: nat): seq<nat>
    requires width > 0
    decreases b, 0
  {
    if b == 0 then [] else LiveFrom(live, width, Up(width, b))
  }

  function LiveFrom(live: nat -> bool, width: nat, p: nat): seq<nat>
    requires width > 0
    decreases p, 1
  {
    (if live(p) then [p] else []) + LiveAbove(live, width, p)
  }

  lemma {:induction false} NearestIsFirst(live: nat -> bool, width: nat, b: nat)
    requires width > 0
    ensures Nearest(live, width, b)
         == if LiveAbove(live, width, b) == [] then None else Some(LiveAbove(live, width, b)[0])
    decreases b
  {
    if b > 0 && !live(Up(width, b)) {
      NearestIsFirst(live, width, Up(width, b));
    }
  }

  /** p is the parent of b, or above it. */
  ghost predicate IsAbove(width: nat, p: nat, b: nat)
    requires width > 0
    decreases b
  {
    b > 0 && (p == Up(width, b) || IsAbove(width, p, Up(width, b)))
  }

  /** The live positions above b are listed, and nothing else. */
  lemma {:induction false} LiveAboveExactly(live: nat -> bool, width: nat, b: nat, p: nat)
    requires width > 0
    ensures p in LiveAbove(live, width, b) <==> live(p) && IsAbove(width, p, b)
    decreases b
  {
    if b == 0 {
    } else {
      LiveAboveExactly(live, width, Up(width, b), p);
    }
  }

  /** They are listed from the nearest to the root. */
  lemma {:induction false} LiveAboveOrdered(live: nat -> bool, width: nat, b: nat)
    requires width > 0
    ensures forall i :: 0 <= i < |LiveAbove(live, width, b)| ==> LiveAbove(live, width, b)[i] < b
    ensures forall i, j :: 0 <= i < j < |LiveAbove(live, width, b)| ==>
              LiveAbove(live, width, b)[j] < LiveAbove(live, width, b)[i]
    decreases b
  {
    if b == 0 {
    } else {
      var p := Up(width, b);
      LiveAboveOrdered(live, width, p);
      assert LiveAbove(live, width, b) == (if live(p) then [p] else []) + LiveAbove(live, width, p);
    }
  }

  /** Division in C++ truncates towards zero. */
  function TruncatedQuotient(a: int, b: nat): int
    requires b > 0
  {
    if a >= 0 then a / b else -((-a) / b)
  }

  lemma TruncatedUp(width: nat, b: nat)
    requires width > 0
    ensures TruncatedQuotient(b - 1, width) == if b > 0 then Up(width, b) else if width == 1 then -1 else 0
  {
    if b == 0 && width > 1 {
      QuotientUnique(1, width, 0, 1);
    }
  }

  /** Going up one position. */
  lemma LookAt(live: nat -> bool, width: nat, all: seq<nat>, found: seq<nat>, p: nat)
    requires width > 0 && all == found + LiveFrom(live, width, p)
    ensures var found' := if live(p) then found + [p] else found;
            && found' <= all && all == found' + if p == 0 then [] else LiveFrom(live, width, Up(width, p))
  {
    AppendAssoc(found, [p], LiveAbove(live, width, p));
    assert [] + LiveAbove(live, width, p) == LiveAbove(live, width, p);
  }

  /** What selectParentNodes selects. */
  function Above(live: nat -> bool, width: nat, b: nat, selectAll: bool): seq<nat>
    requires width > 0
  {
    var above := LiveAbove(live, width, b);
    if selectAll || above == [] then above else above[..1]
  }

  /** The nodes that consensus node c sends to, in the tree that starts at start. */
  function Sends<Id>(nodes: seq<Id>, peers: set<Id>, width: nat, start: nat, c: nat): seq<Id>
    requires nodes != [] && width > 0
  {
    Names(NameAt(nodes, start), Children(LiveAt(nodes, peers, start), width, |nodes|, Unrotated(c, start, |nodes|)))
  }

  /** The nodes that consensus node c gets from: the nearest one, or all. */
  function Gets<Id>(nodes: seq<Id>, peers: set<Id>, width: nat, start: nat, c: nat, selectAll: bool): seq<Id>
    requires nodes != [] && width > 0
  {
    Names(NameAt(nodes, start), Above(LiveAt(nodes, peers, start), width, Unrotated(c, start, |nodes|), selectAll))
  }

  class TreeTopology<Id(==)> {
    const treeWidth: nat
    const nodeId: Id
    var nodes: seq<Id>
    var nodeNum: nat
    var consIndex: int
    var endIndex: int

    constructor (nodeId: Id, treeWidth: nat)
      ensures this.nodeId == nodeId && this.treeWidth == treeWidth && nodes == [] && Valid()
    {
      this.nodeId, this.treeWidth := nodeId, treeWidth;
      nodes, nodeNum, consIndex, endIndex := [], 0, 0, 0;
    }

    /** The indices are those of the list of consensus nodes, unless there never was one. */
    ghost predicate Valid()
      reads this
    {
      || (nodes == [] && nodeNum == 0 && consIndex == 0 && endIndex == 0)
      || (Bounded() && IsIndex(nodes, nodeId, consIndex))
    }

    /** The bounds are those of the list of consensus nodes. */
    ghost predicate Bounded()
      reads this
    {
      nodeNum == |nodes| && endIndex == |nodes| - 1
    }

    /** i is the index of the first occurrence, or -1. */
    ghost predicate IsIndex(findSet: seq<Id>, id: Id, i: int) {
      if id in findSet then 0 <= i < |findSet| && findSet[i] == id && id !in findSet[..i] else i == -1
    }

    method GetNodeIndexByNodeId(findSet: seq<Id>, id: Id) returns (nodeIndex: int)
      ensures IsIndex(findSet, id, nodeIndex)
    {
      nodeIndex := -1;
      for i := 0 to |findSet|
        invariant nodeIndex == -1 && id !in findSet[..i]
      {
        if id == findSet[i] {
          nodeIndex := i;
          break;
        }
      }
      assert findSet[..|findSet|] == findSet;
    }

    method UpdateConsensusNodeInfo(consensusNodes: seq<Id>)
      requires Valid()
      modifies this
      ensures Valid() && nodes == consensusNodes
    {
      if nodes == consensusNodes {
        return;
      }
      nodes := consensusNodes;
      consIndex := GetNodeIndexByNodeId(nodes, nodeId);
      endIndex, nodeNum := |nodes| - 1, |nodes|;
    }

    method GetNodeIDByIndex(nodeIndex: nat) returns (id: Option<Id>)
      ensures id == if nodeIndex >= |nodes| then None else Some(nodes[nodeIndex])
    {
      if nodeIndex >= |nodes| {
        return None;
      }
      return Some(nodes[nodeIndex]);
    }

    /** The list to which the children of a position are added. */
    method RecursiveSelectChildNodes(list: seq<Id>, parentIndex: nat, peers: set<Id>, startIndex: nat,
                                     ghost live: nat -> bool, ghost name: nat -> Id)
      returns (selected: seq<Id>)
      requires Bounded() && treeWidth > 0 && parentIndex < |nodes| && Pictures(live, name, nodes, peers, startIndex)
      ensures selected == list + Names(name, Children(live, treeWidth, |nodes|, parentIndex))
      decreases |nodes| - parentIndex, 0
    {
      TimesIs(parentIndex, treeWidth);
      TimesGrow(parentIndex, treeWidth);
      selected := SelectChildren(list, parentIndex * treeWidth + 1, peers, startIndex, live, name);
    }

    /** The loop over the children; first is the position of the first one. */
    method SelectChildren(list: seq<Id>, first: nat, peers: set<Id>, startIndex: nat,
                          ghost live: nat -> bool, ghost name: nat -> Id)
      returns (selected: seq<Id>)
      requires Bounded() && treeWidth > 0 && nodes != [] && Pictures(live, name, nodes, peers, startIndex)
      ensures selected == list + Names(name, Range(live, treeWidth, |nodes|, first, first + treeWidth - 1))
      decreases if first < |nodes| then |nodes| - first else 0, 3
    {
      selected := list;
      ghost var last := first + treeWidth - 1;
      ghost var all := list + Names(name, Range(live, treeWidth, |nodes|, first, last));
      for i := 0 to treeWidth
        invariant selected + Names(name, Range(live, treeWidth, |nodes|, first + i, last)) == all
      {
        var expectedIndex := first + i;
        if expectedIndex > endIndex {
          NothingMore(name, selected);
          return;
        }
        selected := SelectOne(selected, expectedIndex, last, peers, startIndex, live, name);
        if expectedIndex == endIndex {
          NothingMore(name, selected);
          return;
        }
      }
      NothingMore(name, selected);
    }

    /** One more child is done. */
    method SelectOne(list: seq<Id>, expectedIndex: nat, ghost last: nat, peers: set<Id>, startIndex: nat,
                     ghost live: nat -> bool, ghost name: nat -> Id)
      returns (selected: seq<Id>)
      requires Bounded() && treeWidth > 0 && expectedIndex < |nodes| && expectedIndex <= last
      requires Pictures(live, name, nodes, peers, startIndex)
      ensures list + Names(name, Range(live, treeWidth, |nodes|, expectedIndex, last))
           == selected + Names(name, Range(live, treeWidth, |nodes|, expectedIndex + 1, last))
      decreases |nodes| - expectedIndex, 2
    {
      SelectStep(list, live, name, treeWidth, |nodes|, expectedIndex, last);
      selected := SelectHere(list, expectedIndex, peers, startIndex, live, name);
    }

    /** A child, or its children if it is not among the peers. */
    method SelectHere(list: seq<Id>, expectedIndex: nat, peers: set<Id>, startIndex: nat,
                      ghost live: nat -> bool, ghost name: nat -> Id)
      returns (selected: seq<Id>)
      requires Bounded() && treeWidth > 0 && expectedIndex < |nodes| && Pictures(live, name, nodes, peers, startIndex)
      ensures selected == list + Names(name, Here(live, treeWidth, |nodes|, expectedIndex))
      decreases |nodes| - expectedIndex, 1
    {
      selected := list;
      assert PicturesAt(live, name, nodes, peers, startIndex, expectedIndex);
      NamesOne(name, expectedIndex);
      TimesGrow(expectedIndex, treeWidth);
      NothingMore(name, list);
      var selectedNode := GetNodeIDByIndex(Rotated(expectedIndex, startIndex, nodeNum));
      if selectedNode.Some? {
        if selectedNode.value in peers {
          selected := selected + [selectedNode.value];
        } else if expectedIndex < endIndex {
          selected := RecursiveSelectChildNodes(selected, expectedIndex, peers, startIndex, live, name);
        }
      }
    }

    /** The list to which the nearest live position above a position is added, or all of them. */
    method SelectParentNodes(list: seq<Id>, peers: set<Id>, nodeIndex: nat, startIndex: nat, selectAll: bool,
                             ghost live: nat -> bool, ghost name: nat -> Id)
      returns (selected: seq<Id>)
      requires Bounded() && treeWidth > 0 && nodeIndex < |nodes| && Pictures(live, name, nodes, peers, startIndex)
      ensures selected == list + Names(name, Above(live, treeWidth, nodeIndex, selectAll))
    {
      selected := list;
      ghost var all := LiveAbove(live, treeWidth, nodeIndex);
      ghost var found: seq<nat> := [];
      NothingMore(name, list);
      TruncatedUp(treeWidth, nodeIndex);
      var parentIndex := TruncatedQuotient(nodeIndex - 1, treeWidth);
      if parentIndex == nodeIndex {
        return;
      }
      while parentIndex >= 0
        invariant all == found + if parentIndex < 0 then [] else LiveFrom(live, treeWidth, parentIndex)
        invariant selected == list + Names(name, found) && (!selectAll ==> found == [])
        decreases parentIndex
      {
        LookAt(live, treeWidth, all, found, parentIndex);
        assert PicturesAt(live, name, nodes, peers, startIndex, parentIndex);
        var selectedNode := GetNodeIDByIndex(Rotated(parentIndex, startIndex, nodeNum));
        if selectedNode.Some? && selectedNode.value in peers {
          FoundOne(name, list, found, parentIndex);
          selected, found := selected + [selectedNode.value], found + [parentIndex];
          if !selectAll {
            break;
          }
        }
        if parentIndex <= 0 {
          break;
        }
        TruncatedUp(treeWidth, parentIndex);
        parentIndex := TruncatedQuotient(parentIndex - 1, treeWidth);
      }
      assert found == if selectAll || all == [] then all else all[..1];
    }

    /** selectNodes of a consensus node; other nodes only send when they start. */
    method SelectNodes(peers: set<Id>, start: nat, isTheStartNode: bool) returns (selected: seq<Id>)
      requires Valid() && treeWidth > 0 && nodes != [] && (consIndex < 0 ==> !isTheStartNode)
      ensures selected == if consIndex < 0 then [] else Sends(nodes, peers, treeWidth, start, consIndex)
    {
      if consIndex < 0 {
        return [];
      }
      RotateBack(consIndex, start, nodeNum);
      IsPicture(nodes, peers, start);
      selected := RecursiveSelectChildNodes([], Unrotated(consIndex, start, nodeNum), peers, start,
                                            LiveAt(nodes, peers, start), NameAt(nodes, start));
    }

    method SelectParent(peers: set<Id>, start: nat, selectAll: bool) returns (selected: seq<Id>)
      requires Valid() && treeWidth > 0 && nodes != []
      ensures selected == if consIndex < 0 then [] else Gets(nodes, peers, treeWidth, start, consIndex, selectAll)
    {
      if consIndex < 0 {
        return [];
      }
      RotateBack(consIndex, start, nodeNum);
      IsPicture(nodes, peers, start);
      selected := SelectParentNodes([], peers, Unrotated(consIndex, start, nodeNum), start, selectAll,
                                    LiveAt(nodes, peers, start), NameAt(nodes, start));
    }
  }

  lemma IsPicture<Id>(nodes: seq<Id>, peers: set<Id>, start: nat)
    requires nodes != []
    ensures Pictures(LiveAt(nodes, peers, start), NameAt(nodes, start), nodes, peers, start)
  {
  }

  lemma FoundOne<Id>(name: nat -> Id, list: seq<Id>, found: seq<nat>, p: nat)
    ensures list + Names(name, found + [p]) == list + Names(name, found) + [name(p)]
  {
    NamesJoin(name, found, [p]);
  }

  lemma SelectStep<Id>(
      before: seq<Id>, live: nat -> bool, name: nat -> Id, width: nat, n: nat, e: nat, last: nat)
    requires width > 0 && e <= last && e < n
    ensures before + Names(name, Range(live, width, n, e, last))
         == before + Names(name, Here(live, width, n, e)) + Names(name, Range(live, width, n, e + 1, last))
  {
    var here, rest := Here(live, width, n, e), Range(live, width, n, e + 1, last);
    NamesJoin(name, here, rest);
    AppendAssoc(before, Names(name, here), Names(name, rest));
  }

  lemma {:induction false} RangeSame(
      live: nat -> bool, live': nat -> bool, width: nat, n: nat, e: nat, last: nat)
    requires width > 0 && forall q: nat :: e <= q < n ==> live(q) == live'(q)
    ensures Range(live, width, n, e, last) == Range(live', width, n, e, last)
    decreases if e < n then n - e else 0
  {
    if e <= last && e < n {
      TimesGrow(e, width);
      RangeSame(live, live', width, n, Times(e, width) + 1, Times(e, width) + width);
      RangeSame(live, live', width, n, e + 1, last);
    }
  }

  lemma {:induction false} NearestSame(live: nat -> bool, live': nat -> bool, width: nat, b: nat)
    requires width > 0 && forall q: nat :: q < b ==> live(q) == live'(q)
    ensures Nearest(live, width, b) == Nearest(live', width, b)
    decreases b
  {
    if b == 0 {
    } else {
      NearestSame(live, live', width, Up(width, b));
    }
  }

  /** The peers of a node are the live nodes, whether or not it counts itself. */
  ghost predicate PeersOf<Id(!new)>(peers: set<Id>, alive: set<Id>, self: Id) {
    forall x :: x != self ==> (x in peers <==> x in alive)
  }

  lemma SameName<Id>(nodes: seq<Id>, start: nat, q: nat, c: nat)
    requires Distinct(nodes) && q < |nodes| && c < |nodes|
    ensures NameAt(nodes, start)(q) == nodes[c] <==> q == Unrotated(c, start, |nodes|)
  {
    RotateBack(c, start, |nodes|);
    UnrotateBack(q, start, |nodes|);
  }

  /** Away from its own position a node sees exactly which positions are alive. */
  lemma SeesOthers<Id(!new)>(nodes: seq<Id>, peers: set<Id>, alive: set<Id>, start: nat, c: nat, q: nat)
    requires Distinct(nodes) && c < |nodes| && q < |nodes| && q != Unrotated(c, start, |nodes|)
    requires PeersOf(peers, alive, nodes[c])
    ensures LiveAt(nodes, peers, start)(q) == LiveAt(nodes, alive, start)(q)
  {
    SameName(nodes, start, q, c);
  }

  lemma {:induction false} NamesHas<Id>(name: nat -> Id, ps: seq<nat>, x: Id)
    ensures x in Names(name, ps) <==> exists k :: 0 <= k < |ps| && name(ps[k]) == x
  {
    if ps == [] {
    } else {
      NamesHas(name, ps[1..], x);
      if k :| 0 <= k < |ps| && name(ps[k]) == x && k > 0 {
        assert ps[1..][k - 1] == ps[k];
      }
      if k :| 0 <= k < |ps[1..]| && name(ps[1..][k]) == x {
        assert ps[k + 1] == ps[1..][k];
      }
    }
  }

  /** A node is among the names of positions exactly when its position is among them. */
  lemma NamesHasNode<Id>(nodes: seq<Id>, start: nat, ps: seq<nat>, c: nat)
    requires Distinct(nodes) && c < |nodes| && forall q :: q in ps ==> q < |nodes|
    ensures nodes[c] in Names(NameAt(nodes, start), ps) <==> Unrotated(c, start, |nodes|) in ps
  {
    var name := NameAt(nodes, start);
    NamesHas(name, ps, nodes[c]);
    forall k | 0 <= k < |ps|
      ensures name(ps[k]) == nodes[c] <==> ps[k] == Unrotated(c, start, |nodes|)
    {
      assert ps[k] in ps;
      SameName(nodes, start, ps[k], c);
    }
  }

  /** Whom a node sends to does not depend on whether it counts itself alive. */
  lemma SendsByLive<Id(!new)>(nodes: seq<Id>, peers: set<Id>, alive: set<Id>, width: nat, start: nat, a: nat)
    requires width > 0 && Distinct(nodes) && a < |nodes| && PeersOf(peers, alive, nodes[a])
    ensures Sends(nodes, peers, width, start, a) == Sends(nodes, alive, width, start, a)
  {
    var n, p := |nodes|, Unrotated(a, start, |nodes|);
    TimesGrow(p, width);
    forall q: nat | Times(p, width) + 1 <= q < n
      ensures LiveAt(nodes, peers, start)(q) == LiveAt(nodes, alive, start)(q)
    {
      SeesOthers(nodes, peers, alive, start, a, q);
    }
    RangeSame(LiveAt(nodes, peers, start), LiveAt(nodes, alive, start), width, n,
              Times(p, width) + 1, Times(p, width) + width);
  }

  lemma NearestByLive<Id(!new)>(nodes: seq<Id>, peers: set<Id>, alive: set<Id>, width: nat, start: nat, b: nat)
    requires width > 0 && Distinct(nodes) && b < |nodes| && PeersOf(peers, alive, nodes[b])
    ensures var p := Unrotated(b, start, |nodes|);
            Nearest(LiveAt(nodes, peers, start), width, p) == Nearest(LiveAt(nodes, alive, start), width, p)
  {
    var p := Unrotated(b, start, |nodes|);
    RotateBack(b, start, |nodes|);
    forall q: nat | q < p
      ensures LiveAt(nodes, peers, start)(q) == LiveAt(nodes, alive, start)(q)
    {
      SeesOthers(nodes, peers, alive, start, b, q);
    }
    NearestSame(LiveAt(nodes, peers, start), LiveAt(nodes, alive, start), width, p);
  }

  /** The selected parent is the nearest live position above. */
  lemma GetsNearest<Id>(nodes: seq<Id>, peers: set<Id>, width: nat, start: nat, a: nat, b: nat)
    requires width > 0 && Distinct(nodes) && a < |nodes| && b < |nodes|
    ensures Gets(nodes, peers, width, start, b, false) == [nodes[a]]
       <==> Nearest(LiveAt(nodes, peers, start), width, Unrotated(b, start, |nodes|))
              == Some(Unrotated(a, start, |nodes|))
  {
    var live, p := LiveAt(nodes, peers, start), Unrotated(b, start, |nodes|);
    RotateBack(b, start, |nodes|);
    NearestIsFirst(live, width, p);
    var above := LiveAbove(live, width, p);
    if above != [] {
      NamesOne(NameAt(nodes, start), above[0]);
      assert above[..1] == [above[0]];
      SameName(nodes, start, above[0], a);
    }
  }

  /** When all parents are asked for, they are exactly the peers above. */
  lemma GetsAllAbove<Id>(nodes: seq<Id>, peers: set<Id>, width: nat, start: nat, a: nat, b: nat)
    requires width > 0 && Distinct(nodes) && a < |nodes| && b < |nodes|
    ensures nodes[a] in Gets(nodes, peers, width, start, b, true)
       <==> nodes[a] in peers && IsAbove(width, Unrotated(a, start, |nodes|), Unrotated(b, start, |nodes|))
  {
    var n, live := |nodes|, LiveAt(nodes, peers, start);
    var pa, pb := Unrotated(a, start, n), Unrotated(b, start, n);
    RotateBack(a, start, n);
    RotateBack(b, start, n);
    LiveAboveExactly(live, width, pb, pa);
    LiveAboveOrdered(live, width, pb);
    NamesHasNode(nodes, start, LiveAbove(live, width, pb), a);
  }

  /** Among consensus nodes, b is selected by a exactly when a is the parent that b selects. */
  lemma ChildExactlyOfParent<Id(!new)>(
      nodes: seq<Id>, alive: set<Id>, peersOfA: set<Id>, peersOfB: set<Id>, width: nat, start: nat, a: nat, b: nat)
    requires width > 0 && Distinct(nodes) && a < |nodes| && b < |nodes| && nodes[a] in alive
    requires PeersOf(peersOfA, alive, nodes[a]) && PeersOf(peersOfB, alive, nodes[b])
    ensures nodes[b] in Sends(nodes, peersOfA, width, start, a)
       <==> nodes[b] in alive && Gets(nodes, peersOfB, width, start, b, false) == [nodes[a]]
  {
    var n, live := |nodes|, LiveAt(nodes, alive, start);
    var pa, pb := Unrotated(a, start, n), Unrotated(b, start, n);
    SendsByLive(nodes, peersOfA, alive, width, start, a);
    NearestByLive(nodes, peersOfB, alive, width, start, b);
    GetsNearest(nodes, peersOfB, width, start, a, b);
    RotateBack(a, start, n);
    RotateBack(b, start, n);
    forall q: nat {
      SelectedExactly(live, width, n, pa, q);
    }
    NamesHasNode(nodes, start, Children(live, width, n, pa), b);
  }
}
