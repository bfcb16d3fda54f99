/**
  A broadcast among the consensus nodes: whoever gets the message sends it to
  the nodes that it selects from its own peers. Messages are delivered in any
  order.
 */
module Broadcast {
  import opened Prelude
  import opened TreeShape
  import opened TreeFlood
  import opened TreeTopology

  /** The nodes, whom each of them sends to, and the one that has the message first. */
  datatype Relay<!Id> = Relay(nodes: seq<Id>, sends: nat -> seq<Id>, first: Id)

  /** The messages in flight after the nodes of a run have got theirs; None if one got a message not in flight. */
  ghost function Undelivered<Id>(relay: Relay<Id>, run: seq<nat>): Option<multiset<Id>> {
    if run == [] then Some(multiset{relay.first})
    else
      var c := run[|run| - 1];
      match Undelivered(relay, run[..|run| - 1])
      case None => None
      case Some(m) =>
        if c < |relay.nodes| && relay.nodes[c] in m
        then Some(m - multiset{relay.nodes[c]} + multiset(relay.sends(c)))
        else None
  }

  /** The position of every node in a tree, and the node at every position. */
  datatype Seating = Seating(position: nat -> nat, node: nat -> nat) {
    predicate Seated(c: nat, n: nat) {
      position(c) < n && node(position(c)) == c
    }

    predicate Taken(q: nat, n: nat) {
      node(q) < n && position(node(q)) == q
    }

    ghost predicate Valid(n: nat) {
      forall i: nat :: i < n ==> Seated(i, n) && Taken(i, n)
    }

    ghost function Positions(run: seq<nat>): seq<nat> {
      if run == [] then [] else Positions(run[..|run| - 1]) + [position(run[|run| - 1])]
    }
  }

  /** Node a sends as many copies to c as the position of a selects that of c. */
  ghost predicate SendsAs<Id>(relay: Relay<Id>, tree: Tree, seats: Seating, a: nat, c: nat)
    requires tree.width > 0 && c < |relay.nodes|
  {
    multiset(relay.sends(a))[relay.nodes[c]] == multiset(tree.Selected(seats.position(a)))[seats.position(c)]
  }

  /** The nodes relay the message as the positions of the tree do. */
  ghost predicate Follows<Id>(relay: Relay<Id>, tree: Tree, seats: Seating) {
    && tree.Valid() && |relay.nodes| == tree.n && Distinct(relay.nodes) && seats.Valid(tree.n)
    && seats.Taken(0, tree.n) && relay.first == relay.nodes[seats.node(0)]
    && forall a: nat, c: nat :: a < tree.n && c < tree.n ==> SendsAs(relay, tree, seats, a, c)
  }

  /** The messages in flight to nodes are those in flight to their positions. */
  ghost predicate SameMessages<Id>(relay: Relay<Id>, seats: Seating, m: multiset<Id>, mp: multiset<nat>) {
    forall c: nat :: c < |relay.nodes| ==> m[relay.nodes[c]] == mp[seats.position(c)]
  }

  lemma Delivered<Id>(relay: Relay<Id>, tree: Tree, seats: Seating, m: multiset<Id>, mp: multiset<nat>, a: nat)
    returns (mp': multiset<nat>)
    requires Follows(relay, tree, seats) && a < tree.n && relay.nodes[a] in m && SameMessages(relay, seats, m, mp)
    ensures seats.position(a) in mp
    ensures mp' == mp - multiset{seats.position(a)} + multiset(tree.Selected(seats.position(a)))
    ensures SameMessages(relay, seats, m - multiset{relay.nodes[a]} + multiset(relay.sends(a)), mp')
  {
    var m' := m - multiset{relay.nodes[a]} + multiset(relay.sends(a));
    mp' := mp - multiset{seats.position(a)} + multiset(tree.Selected(seats.position(a)));
    forall c: nat | c < |relay.nodes|
      ensures m'[relay.nodes[c]] == mp'[seats.position(c)]
    {
      assert SendsAs(relay, tree, seats, a, c);
      assert m[relay.nodes[c]] == mp[seats.position(c)] && m[relay.nodes[a]] == mp[seats.position(a)];
      assert seats.Seated(a, tree.n) && seats.Seated(c, tree.n);
    }
  }

  lemma {:induction false} PositionsAt(seats: Seating, run: seq<nat>)
    ensures |seats.Positions(run)| == |run|
    ensures forall i :: 0 <= i < |run| ==> seats.Positions(run)[i] == seats.position(run[i])
  {
    if run == [] {
    } else {
      PositionsAt(seats, run[..|run| - 1]);
    }
  }

  lemma {:induction false} RunInRange<Id>(relay: Relay<Id>, run: seq<nat>, i: nat)
    requires Undelivered(relay, run).Some? && i < |run|
    ensures run[i] < |relay.nodes|
  {
    if i < |run| - 1 {
      RunInRange(relay, run[..|run| - 1], i);
    }
  }

  lemma FloodStep(tree: Tree, seats: Seating, run: seq<nat>, mp: multiset<nat>)
    requires run != [] && tree.width > 0 && InFlight(tree, seats.Positions(run[..|run| - 1])) == Some(mp)
    requires seats.position(run[|run| - 1]) in mp
    ensures var q := seats.position(run[|run| - 1]);
            InFlight(tree, seats.Positions(run)) == Some(mp - multiset{q} + multiset(tree.Selected(q)))
  {
    var ps := seats.Positions(run[..|run| - 1]);
    assert seats.Positions(run)[..|ps|] == ps;
  }

  lemma SameStart<Id>(relay: Relay<Id>, tree: Tree, seats: Seating)
    requires Follows(relay, tree, seats)
    ensures SameMessages(relay, seats, multiset{relay.first}, multiset{0})
  {
    forall c: nat | c < |relay.nodes|
      ensures multiset{relay.first}[relay.nodes[c]] == multiset{0}[seats.position(c)]
    {
      assert seats.Seated(c, tree.n) && seats.Taken(0, tree.n);
    }
  }

  /** A broadcast among the nodes is a flood of the tree. */
  lemma {:induction false} BroadcastIsFlood<Id>(
      relay: Relay<Id>, tree: Tree, seats: Seating, run: seq<nat>, m: multiset<Id>)
    returns (mp: multiset<nat>)
    requires Follows(relay, tree, seats) && Undelivered(relay, run) == Some(m)
    ensures InFlight(tree, seats.Positions(run)) == Some(mp) && SameMessages(relay, seats, m, mp)
  {
    if run == [] {
      SameStart(relay, tree, seats);
      mp := multiset{0};
    } else {
      var before, c := run[..|run| - 1], run[|run| - 1];
      var m1 := Undelivered(relay, before).value;
      var mp1 := BroadcastIsFlood(relay, tree, seats, before, m1);
      mp := Delivered(relay, tree, seats, m1, mp1, c);
      FloodStep(tree, seats, run, mp1);
    }
  }

  /** No node gets the message twice, and no node whose position is not alive gets it. */
  lemma OnceByPosition<Id>(relay: Relay<Id>, tree: Tree, seats: Seating, run: seq<nat>)
    requires Follows(relay, tree, seats) && Undelivered(relay, run).Some?
    ensures Distinct(run) && |run| <= tree.n
    ensures forall c :: c in run ==> c < tree.n && tree.live(seats.position(c))
  {
    var ps := seats.Positions(run);
    var mp := BroadcastIsFlood(relay, tree, seats, run, Undelivered(relay, run).value);
    PositionsAt(seats, run);
    AtMostOnce(tree, ps);
    FloodEnds(tree, ps);
    forall i, j | 0 <= i < j < |run|
      ensures run[i] != run[j]
    {
      assert ps[i] != ps[j];
    }
    forall i | 0 <= i < |run|
      ensures run[i] < tree.n && tree.live(seats.position(run[i]))
    {
      assert ps[i] in ps;
      RunInRange(relay, run, i);
    }
  }

  lemma NothingLeft<Id>(relay: Relay<Id>, tree: Tree, seats: Seating, run: seq<nat>)
    requires Follows(relay, tree, seats) && Undelivered(relay, run) == Some(multiset{})
    ensures InFlight(tree, seats.Positions(run)) == Some(multiset{})
  {
    var ps := seats.Positions(run);
    var mp := BroadcastIsFlood(relay, tree, seats, run, multiset{});
    FloodKeeps(tree, ps, mp);
    forall q: nat
      ensures mp[q] == 0
    {
      assert mp[q] <= Copies(ps, mp, q);
      if q < tree.n {
        assert seats.Taken(q, tree.n);
        assert mp[seats.position(seats.node(q))] == 0;
      }
    }
  }

  lemma HasSeat<Id>(relay: Relay<Id>, seats: Seating, run: seq<nat>, n: nat, c: nat)
    requires Undelivered(relay, run).Some? && n == |relay.nodes| && seats.Valid(n) && c < n
    requires seats.position(c) in seats.Positions(run)
    ensures c in run
  {
    var ps := seats.Positions(run);
    PositionsAt(seats, run);
    var i: nat :| i < |ps| && ps[i] == seats.position(c);
    RunInRange(relay, run, i);
    assert seats.Seated(run[i], n) && seats.Seated(c, n);
  }

  lemma CoversByPosition<Id>(relay: Relay<Id>, tree: Tree, seats: Seating, run: seq<nat>, c: nat)
    requires Follows(relay, tree, seats) && Undelivered(relay, run) == Some(multiset{})
    requires c < tree.n && tree.live(seats.position(c))
    ensures c in run
  {
    var ps := seats.Positions(run);
    NothingLeft(relay, tree, seats, run);
    assert seats.Seated(c, tree.n);
    if seats.position(c) !in ps {
      var a := StillInFlight(tree, ps, seats.position(c));
    }
    HasSeat(relay, seats, run, tree.n, c);
  }

  /** Copies of x among named positions are copies of the position named x. */
  lemma {:induction false} NamesCount<Id>(name: nat -> Id, ps: seq<nat>, x: Id, p: nat)
    requires forall i :: 0 <= i < |ps| ==> (name(ps[i]) == x <==> ps[i] == p)
    ensures multiset(Names(name, ps))[x] == multiset(ps)[p]
  {
    if ps == [] {
    } else {
      NamesCount(name, ps[1..], x, p);
      assert ps == [ps[0]] + ps[1..];
      assert multiset([name(ps[0])] + Names(name, ps[1..]))[x]
          == multiset([name(ps[0])])[x] + multiset(Names(name, ps[1..]))[x];
    }
  }

  /** The tree of the live nodes that starts at start. */
  ghost function TreeOf<Id>(nodes: seq<Id>, alive: set<Id>, width: nat, start: nat): Tree
    requires nodes != []
  {
    Tree(LiveAt(nodes, alive, start), width, |nodes|)
  }

  ghost function SeatsOf(start: nat, n: nat): Seating
    requires n > 0
  {
    Seating((c: nat) => Unrotated(c, start, n), (q: nat) => Rotated(q, start, n))
  }

  /** Every consensus node sends to those whom selectNodes gives it for its peers; the start node begins. */
  ghost function RelayOf<Id>(nodes: seq<Id>, peers: nat -> set<Id>, width: nat, start: nat): Relay<Id>
    requires nodes != [] && width > 0
  {
    Relay(nodes, (c: nat) => Sends(nodes, peers(c), width, start, c), nodes[start % |nodes|])
  }

  lemma SeatsValid(start: nat, n: nat)
    requires n > 0
    ensures SeatsOf(start, n).Valid(n)
  {
    forall i: nat | i < n
      ensures SeatsOf(start, n).Seated(i, n) && SeatsOf(start, n).Taken(i, n)
    {
      RotateBack(i, start, n);
      UnrotateBack(i, start, n);
    }
  }

  /** The nodes named by positions of the tree, counted by position. */
  lemma SelectedCount<Id>(nodes: seq<Id>, tree: Tree, start: nat, p: nat, c: nat)
    requires tree.width > 0 && tree.n == |nodes| && Distinct(nodes) && c < |nodes|
    ensures multiset(Names(NameAt(nodes, start), tree.Selected(p)))[nodes[c]]
         == multiset(tree.Selected(p))[Unrotated(c, start, |nodes|)]
  {
    var ps := tree.Selected(p);
    forall i | 0 <= i < |ps|
      ensures NameAt(nodes, start)(ps[i]) == nodes[c] <==> ps[i] == Unrotated(c, start, |nodes|)
    {
      assert ps[i] in ps;
      var e := Times(p, tree.width);
      RangeExactly(tree.live, tree.width, tree.n, p, e + 1, e + tree.width, ps[i]);
      SameName(nodes, start, ps[i], c);
    }
    NamesCount(NameAt(nodes, start), ps, nodes[c], Unrotated(c, start, |nodes|));
  }

  /** Every node has the nodes alive as its peers, whether or not it counts itself, and the start node is alive. */
  ghost predicate Connected<Id(!new)>(nodes: seq<Id>, peers: nat -> set<Id>, alive: set<Id>, start: nat) {
    && nodes != [] && Distinct(nodes) && nodes[start % |nodes|] in alive
    && forall c: nat :: c < |nodes| ==> PeersOf(peers(c), alive, nodes[c])
  }

  lemma RelayFollows<Id(!new)>(nodes: seq<Id>, peers: nat -> set<Id>, alive: set<Id>, width: nat, start: nat)
    requires Connected(nodes, peers, alive, start) && width > 0
    ensures Follows(RelayOf(nodes, peers, width, start), TreeOf(nodes, alive, width, start), SeatsOf(start, |nodes|))
  {
    var relay, tree := RelayOf(nodes, peers, width, start), TreeOf(nodes, alive, width, start);
    var seats := SeatsOf(start, |nodes|);
    SeatsValid(start, |nodes|);
    forall a: nat, c: nat | a < |nodes| && c < |nodes|
      ensures SendsAs(relay, tree, seats, a, c)
    {
      SendsByLive(nodes, peers(a), alive, width, start, a);
      SelectedCount(nodes, tree, start, Unrotated(a, start, |nodes|), c);
    }
  }

  lemma SeatLive<Id>(nodes: seq<Id>, alive: set<Id>, width: nat, start: nat, c: nat)
    requires c < |nodes|
    ensures TreeOf(nodes, alive, width, start).live(SeatsOf(start, |nodes|).position(c)) == (nodes[c] in alive)
  {
    RotateBack(c, start, |nodes|);
  }

  /** No node gets the message twice, and no node that is not alive gets it. */
  lemma BroadcastAtMostOnce<Id(!new)>(
      nodes: seq<Id>, peers: nat -> set<Id>, alive: set<Id>, width: nat, start: nat, run: seq<nat>)
    requires Connected(nodes, peers, alive, start) && width > 0
    requires Undelivered(RelayOf(nodes, peers, width, start), run).Some?
    ensures Distinct(run) && |run| <= |nodes| && forall c :: c in run ==> c < |nodes| && nodes[c] in alive
  {
    RelayFollows(nodes, peers, alive, width, start);
    OnceByPosition(RelayOf(nodes, peers, width, start), TreeOf(nodes, alive, width, start),
                   SeatsOf(start, |nodes|), run);
    forall c | c in run
      ensures c < |nodes| && nodes[c] in alive
    {
      SeatLive(nodes, alive, width, start, c);
    }
  }

  /** When no message is left, every live consensus node has got it exactly once, in whatever order. */
  lemma BroadcastReachesAll<Id(!new)>(
      nodes: seq<Id>, peers: nat -> set<Id>, alive: set<Id>, width: nat, start: nat, run: seq<nat>)
    requires Connected(nodes, peers, alive, start) && width > 0
    requires Undelivered(RelayOf(nodes, peers, width, start), run) == Some(multiset{})
    ensures Distinct(run) && forall c: nat :: c in run <==> c < |nodes| && nodes[c] in alive
  {
    BroadcastAtMostOnce(nodes, peers, alive, width, start, run);
    RelayFollows(nodes, peers, alive, width, start);
    forall c: nat | c < |nodes| && nodes[c] in alive
      ensures c in run
    {
      SeatLive(nodes, alive, width, start, c);
      CoversByPosition(RelayOf(nodes, peers, width, start), TreeOf(nodes, alive, width, start),
                       SeatsOf(start, |nodes|), run, c);
    }
  }
}
