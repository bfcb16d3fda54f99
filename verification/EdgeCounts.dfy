/** Counting the edges that point at a vertex, with multiplicity. */
module EdgeCounts {
  /** How often t occurs in the lists. */
  ghost function InCount(lists: seq<seq<nat>>, t: nat): nat {
    if lists == [] then 0
    else multiset(lists[0])[t] + InCount(lists[1..], t)
  }

  lemma {:induction false} InCountUpdate(lists: seq<seq<nat>>, p: nat, l: seq<nat>, t: nat)
    requires p < |lists|
    ensures InCount(lists[p := l], t) == InCount(lists, t) - multiset(lists[p])[t] + multiset(l)[t]
  {
    var after := lists[p := l];
    if p == 0 {
      assert after[1..] == lists[1..];
    } else {
      assert after[1..] == lists[1..][p - 1 := l];
      InCountUpdate(lists[1..], p - 1, l, t);
    }
  }

  lemma {:induction false} InCountPositive(lists: seq<seq<nat>>, t: nat)
    ensures InCount(lists, t) > 0 <==> exists p :: 0 <= p < |lists| && t in lists[p]
  {
    if lists == [] {
    } else {
      InCountPositive(lists[1..], t);
      assert t in multiset(lists[0]) <==> t in lists[0];
      if p :| 0 <= p < |lists| && t in lists[p] {
        if p > 0 {
          assert lists[1..][p - 1] == lists[p];
        }
      }
      if p :| 0 <= p < |lists[1..]| && t in lists[1..][p] {
        assert lists[p + 1] == lists[1..][p];
      }
    }
  }

  lemma {:induction false} InCountEmpty(lists: seq<seq<nat>>, t: nat)
    requires forall p :: 0 <= p < |lists| ==> lists[p] == []
    ensures InCount(lists, t) == 0
  {
    if lists == [] {
    } else {
      InCountEmpty(lists[1..], t);
    }
  }

  /** t, n times. */
  function Repeat(t: nat, n: nat): (r: seq<nat>)
    ensures |r| == n && forall x :: x in r ==> x == t
  {
    seq(n, _ => t)
  }
}
