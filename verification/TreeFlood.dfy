/**
  A message that starts at the root of the broadcast tree and is passed on by
  every node that gets it. Messages are delivered in any order.
 */
module TreeFlood {
  import opened Prelude
  import opened TreeShape

  datatype Tree = Tree(live: nat -> bool, width: nat, n: nat) {
    ghost predicate Valid() {
      width > 0 && n > 0 && live(0)
    }

    function Selected(a: nat): seq<nat>
      requires width > 0
    {
      Children(live, width, n, a)
    }
  }

  /** The messages in flight after the deliveries of a run; None if a message was delivered that was not in flight. */
  ghost function InFlight(tree: Tree, run: seq<nat>): Option<multiset<nat>>
    requires tree.width > 0
  {
    if run == [] then Some(multiset{0})
    else
      var last := run[|run| - 1];
      match InFlight(tree, run[..|run| - 1])
      case None => None
      case Some(m) =>
        if last in m then Some(m - multiset{last} + multiset(tree.Selected(last))) else None
  }

  /** b is the root, or the one that selects b has got the message. */
  ghost predicate Reached(tree: Tree, run: seq<nat>, b: nat)
    requires tree.Valid()
  {
    || b == 0
    || (b < tree.n && tree.live(b) &&
        Nearest(tree.live, tree.width, b).Some? && Nearest(tree.live, tree.width, b).value in run)
  }

  /** Copies of the message for b, delivered or in flight. */
  ghost function Copies(run: seq<nat>, m: multiset<nat>, b: nat): nat {
    multiset(run)[b] + m[b]
  }

  ghost predicate OneCopyEach(tree: Tree, run: seq<nat>, m: multiset<nat>)
    requires tree.Valid()
  {
    forall b: nat :: Copies(run, m, b) == if Reached(tree, run, b) then 1 else 0
  }

  lemma {:induction false} CountOnce(s: seq<nat>, b: nat)
    requires Distinct(s)
    ensures multiset(s)[b] == if b in s then 1 else 0
  {
    if s == [] {
    } else {
      assert s == s[..|s| - 1] + [s[|s| - 1]];
      CountOnce(s[..|s| - 1], b);
    }
  }

  lemma DeliverOne(tree: Tree, run: seq<nat>, m: multiset<nat>, a: nat, b: nat)
    requires tree.Valid() && OneCopyEach(tree, run, m) && a in m
    ensures Copies(run + [a], m - multiset{a} + multiset(tree.Selected(a)), b)
         == if Reached(tree, run + [a], b) then 1 else 0
  {
    assert Copies(run, m, a) == 1 && Reached(tree, run, a) && a !in run;
    SelectedOnce(tree.live, tree.width, tree.n, a);
    SelectedExactly(tree.live, tree.width, tree.n, a, b);
    CountOnce(tree.Selected(a), b);
    assert multiset(run + [a])[b] == multiset(run)[b] + if a == b then 1 else 0;
    assert Copies(run, m, b) == if Reached(tree, run, b) then 1 else 0;
  }

  lemma DeliverKeeps(tree: Tree, run: seq<nat>, m: multiset<nat>, a: nat)
    requires tree.Valid() && OneCopyEach(tree, run, m) && a in m
    ensures OneCopyEach(tree, run + [a], m - multiset{a} + multiset(tree.Selected(a)))
  {
    forall b: nat {
      DeliverOne(tree, run, m, a, b);
    }
  }

  lemma {:induction false} FloodKeeps(tree: Tree, run: seq<nat>, m: multiset<nat>)
    requires tree.Valid() && InFlight(tree, run) == Some(m)
    ensures OneCopyEach(tree, run, m)
  {
    if run == [] {
    } else {
      var before, a := run[..|run| - 1], run[|run| - 1];
      var m' := InFlight(tree, before).value;
      FloodKeeps(tree, before, m');
      DeliverKeeps(tree, before, m', a);
      Around(run, |run| - 1);
      assert run[|run|..] == [] && before + [a] + [] == before + [a];
    }
  }

  lemma {:induction false} RootAbove(tree: Tree, b: nat)
    requires tree.Valid() && b > 0
    ensures Nearest(tree.live, tree.width, b).Some?
  {
    if !tree.live(Up(tree.width, b)) {
      RootAbove(tree, Up(tree.width, b));
    }
  }

  /** Nobody gets the message twice, and nobody who is not alive gets it. */
  lemma AtMostOnce(tree: Tree, run: seq<nat>)
    requires tree.Valid() && InFlight(tree, run).Some?
    ensures Distinct(run) && forall b :: b in run ==> b < tree.n && tree.live(b)
  {
    var m := InFlight(tree, run).value;
    FloodKeeps(tree, run, m);
    forall i, j | 0 <= i < j < |run|
      ensures run[i] != run[j]
    {
      assert Copies(run, m, run[i]) <= 1;
      if run[i] == run[j] {
        Twice(run, i, j);
      }
    }
    forall b | b in run
      ensures b < tree.n && tree.live(b)
    {
      assert Copies(run, m, b) >= 1;
    }
  }

  lemma Twice(s: seq<nat>, i: nat, j: nat)
    requires i < j < |s| && s[i] == s[j]
    ensures multiset(s)[s[i]] >= 2
  {
    assert s == s[..j] + s[j..];
    assert s[i] in s[..j] && s[j] in s[j..];
  }

  /** As long as a live node has not got the message, there is one in flight. */
  lemma {:induction false} StillInFlight(tree: Tree, run: seq<nat>, b: nat) returns (a: nat)
    requires tree.Valid() && InFlight(tree, run).Some? && b < tree.n && tree.live(b) && b !in run
    ensures a in InFlight(tree, run).value
    decreases b
  {
    var m := InFlight(tree, run).value;
    FloodKeeps(tree, run, m);
    if Reached(tree, run, b) {
      assert Copies(run, m, b) == 1;
      a := b;
    } else {
      RootAbove(tree, b);
      a := StillInFlight(tree, run, Nearest(tree.live, tree.width, b).value);
    }
  }

  /** When nothing is in flight any more, every live node has got the message exactly once. */
  lemma FloodCovers(tree: Tree, run: seq<nat>)
    requires tree.Valid() && InFlight(tree, run) == Some(multiset{})
    ensures Distinct(run) && forall b: nat :: b in run <==> b < tree.n && tree.live(b)
  {
    AtMostOnce(tree, run);
    forall b: nat | b < tree.n && tree.live(b)
      ensures b in run
    {
      if b !in run {
        var a := StillInFlight(tree, run, b);
      }
    }
  }

  /** The deliveries come to an end. */
  lemma FloodEnds(tree: Tree, run: seq<nat>)
    requires tree.Valid() && InFlight(tree, run).Some?
    ensures |run| <= tree.n
  {
    AtMostOnce(tree, run);
    DistinctBound(run, tree.n);
  }

  function Elements(s: seq<nat>): set<nat> {
    set b | b in s
  }

  lemma DistinctBound(s: seq<nat>, n: nat)
    requires Distinct(s) && forall b :: b in s ==> b < n
    ensures |s| <= n
  {
    ElementCount(s);
    FullSet(Elements(s), n);
  }

  lemma {:induction false} ElementCount(s: seq<nat>)
    requires Distinct(s)
    ensures |Elements(s)| == |s|
  {
    if s == [] {
    } else {
      var rest, last := s[..|s| - 1], s[|s| - 1];
      ElementCount(rest);
      assert s == rest + [last];
      assert Elements(s) == Elements(rest) + {last};
    }
  }
}
