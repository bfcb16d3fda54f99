/**
  The objects that TxDAG::init fills: the field of latest holders, the graph
  with its in-degrees and out-edge vectors, and the transaction graph itself.
 */
module TxDag {
  import opened Prelude
  import opened Conflicts
  import opened EdgeCounts

  /** An ID is an unsigned 32-bit number; the largest one means "no vertex". */
  const INVALID_ID: nat := 0xFFFF_FFFF

  /** fetch_sub on an unsigned 32-bit counter. */
  function Decrement(x: nat): nat {
    if x == 0 then INVALID_ID else x - 1
  }

  /** The counters, the queue and the handed-off successor after consume has gone through edges. */
  function ConsumeEdges(deg: seq<nat>, queue: seq<nat>, next: Option<nat>, edges: seq<nat>)
    : (seq<nat>, seq<nat>, Option<nat>)
    requires forall i :: 0 <= i < |edges| ==> edges[i] < |deg|
    decreases |edges|
  {
    if edges == [] then (deg, queue, next)
    else
      var t := edges[0];
      var deg' := deg[t := Decrement(deg[t])];
      if deg[t] != 1 then ConsumeEdges(deg', queue, next, edges[1..])
      else if next.None? then ConsumeEdges(deg', queue, Some(t), edges[1..])
      else ConsumeEdges(deg', queue + [t], next, edges[1..])
  }

  /** CriticalField of TxDAG.h. */
  class CriticalField<K(==,!new)> {
    var criticals: map<K, nat>
    var criticalAll: nat

    ghost function View(): Field<K>
      reads this
    {
      Field(criticals, if criticalAll == INVALID_ID then None else Some(criticalAll))
    }

    constructor ()
      ensures View() == Field(map[], None)
    {
      criticals := map[];
      criticalAll := INVALID_ID;
    }

    method Get(k: K) returns (id: nat)
      requires forall x :: x in criticals ==> criticals[x] != INVALID_ID
      ensures Holder(View(), k) == if id == INVALID_ID then None else Some(id)
    {
      if k !in criticals {
        if criticalAll != INVALID_ID {
          return criticalAll;
        }
        return INVALID_ID;
      }
      return criticals[k];
    }

    method Update(k: K, id: nat)
      modifies this
      ensures criticals == old(criticals)[k := id] && criticalAll == old(criticalAll)
    {
      criticals := criticals[k := id];
    }

    /** foreachField: the ids in the order in which the callback sees them. */
    method Fields() returns (ids: seq<nat>)
      requires forall x :: x in criticals ==> criticals[x] != INVALID_ID
      ensures forall p :: multiset(ids)[p] == Multiplicity(View(), None, p)
    {
      ids := [];
      var todo := criticals.Keys;
      while todo != {}
        invariant todo <= criticals.Keys
        invariant forall p :: multiset(ids)[p] == |set k | k in criticals && k !in todo && criticals[k] == p|
        decreases |todo|
      {
        var c :| c in todo;
        ghost var before := todo;
        ghost var seen := ids;
        ids := ids + [criticals[c]];
        todo := todo - {c};
        forall p
          ensures multiset(ids)[p] == |set k | k in criticals && k !in todo && criticals[k] == p|
        {
          var was := set k | k in criticals && k !in before && criticals[k] == p;
          var now := set k | k in criticals && k !in todo && criticals[k] == p;
          assert now == if criticals[c] == p then was + {c} else was;
          assert multiset(ids) == multiset(seen) + multiset{criticals[c]};
        }
      }
      forall p
        ensures multiset(ids)[p] == |set k | k in criticals && criticals[k] == p|
      {
        assert (set k | k in criticals && k !in todo && criticals[k] == p)
            == (set k | k in criticals && criticals[k] == p);
      }
      if criticalAll != INVALID_ID {
        ids := ids + [criticalAll];
      }
    }

    method SetCriticalAll(id: nat)
      modifies this
      ensures criticals == map[] && criticalAll == id
    {
      criticalAll := id;
      criticals := map[];
    }
  }

  /** The vertices of DAG.h with the ready queue; the steps of the worker threads are in module Scheduler. */
  class Dag {
    var inDegree: seq<nat>
    var outEdge: seq<seq<nat>>
    var topLevel: seq<nat>
    var totalVtxs: nat
    var totalConsume: nat

    /** Each counter holds the number of edges that point at its vertex. */
    ghost predicate Balanced()
      reads this
    {
      && |inDegree| == |outEdge| == totalVtxs
      && forall t: nat :: t < |inDegree| ==> inDegree[t] == InCount(outEdge, t)
    }

    /** A new graph has an empty queue; init does not empty it. */
    constructor ()
      ensures Balanced() && outEdge == [] && topLevel == []
    {
      inDegree, outEdge, topLevel, totalVtxs, totalConsume := [], [], [], 0, 0;
    }

    method Init(maxSize: nat)
      modifies this
      ensures Balanced() && |outEdge| == maxSize && forall v :: 0 <= v < maxSize ==> outEdge[v] == []
      ensures topLevel == old(topLevel) && totalConsume == 0
    {
      inDegree, outEdge := [], [];
      for i := 0 to maxSize
        modifies this
        invariant |inDegree| == |outEdge| == i && topLevel == old(topLevel)
        invariant forall t :: 0 <= t < i ==> inDegree[t] == 0 && outEdge[t] == []
      {
        inDegree := inDegree + [0];
        outEdge := outEdge + [[]];
      }
      totalVtxs, totalConsume := maxSize, 0;
      forall t: nat | t < maxSize
        ensures inDegree[t] == InCount(outEdge, t)
      {
        InCountEmpty(outEdge, t);
      }
    }

    /** The guard returns only when both ids are out of range; one id out of range is undefined behaviour. */
    method AddEdge(f: nat, t: nat)
      requires Balanced()
      requires f < |outEdge| <==> t < |outEdge|
      modifies this
      ensures Balanced() && topLevel == old(topLevel) && totalConsume == old(totalConsume)
      ensures f >= |old(outEdge)| ==> outEdge == old(outEdge)
      ensures f < |old(outEdge)| ==> outEdge == old(outEdge)[f := old(outEdge)[f] + [t]]
    {
      if f >= |outEdge| && t >= |outEdge| {
        return;
      }
      ghost var before := outEdge;
      outEdge := outEdge[f := outEdge[f] + [t]];
      inDegree := inDegree[t := inDegree[t] + 1];
      forall v: nat | v < |inDegree|
        ensures inDegree[v] == InCount(outEdge, v)
      {
        InCountUpdate(before, f, before[f] + [t], v);
      }
    }

    method Generate()
      requires Balanced()
      modifies this
      ensures Balanced() && outEdge == old(outEdge) && totalConsume == old(totalConsume)
      ensures inDegree == old(inDegree) && topLevel == old(topLevel) + Ready(inDegree, |inDegree|)
    {
      for id := 0 to |inDegree|
        modifies this
        invariant Balanced() && outEdge == old(outEdge) && inDegree == old(inDegree)
        invariant totalConsume == old(totalConsume)
        invariant topLevel == old(topLevel) + Ready(inDegree, id)
      {
        if inDegree[id] == 0 {
          topLevel := topLevel + [id];
        }
      }
    }

    /** A wait that finds the queue empty ends with INVALID_ID. */
    method WaitPop() returns (top: nat)
      requires forall i :: 0 <= i < |topLevel| ==> topLevel[i] < INVALID_ID
      modifies this`topLevel
      ensures old(topLevel) == [] ==> top == INVALID_ID && topLevel == []
      ensures old(topLevel) != [] ==> top == old(topLevel)[0] && topLevel == old(topLevel)[1..]
    {
      top := INVALID_ID;
      if topLevel != [] {
        top, topLevel := topLevel[0], topLevel[1..];
      }
    }

    /** consume, when no other thread runs; module Uncontended relates it to the steps of the machine. */
    method Consume(id: nat) returns (nextId: nat)
      requires id < |outEdge| && |inDegree| <= INVALID_ID
      requires forall i :: 0 <= i < |outEdge[id]| ==> outEdge[id][i] < |inDegree|
      modifies this
      ensures outEdge == old(outEdge) && totalVtxs == old(totalVtxs) && totalConsume == old(totalConsume) + 1
      ensures (inDegree, topLevel, if nextId == INVALID_ID then None else Some(nextId))
           == ConsumeEdges(old(inDegree), old(topLevel), None, outEdge[id])
    {
      var producedNum := 0;
      nextId := INVALID_ID;
      ghost var next: Option<nat> := None;
      var edges := outEdge[id];
      assert edges[0..] == edges;
      for i := 0 to |edges|
        modifies this
        invariant outEdge == old(outEdge) && totalVtxs == old(totalVtxs) && totalConsume == old(totalConsume)
        invariant |inDegree| == |old(inDegree)|
        invariant next == (if nextId == INVALID_ID then None else Some(nextId))
        invariant producedNum == 0 <==> next == None
        invariant ConsumeEdges(old(inDegree), old(topLevel), None, edges)
               == ConsumeEdges(inDegree, topLevel, next, edges[i..])
      {
        var t := edges[i];
        assert edges[i..][1..] == edges[i + 1..];
        var lastDegree := inDegree[t];
        inDegree := inDegree[t := Decrement(lastDegree)];
        if lastDegree == 1 {
          producedNum := producedNum + 1;
          if producedNum == 1 {
            nextId := t;
            next := Some(t);
          } else {
            topLevel := topLevel + [t];
          }
        }
      }
      totalConsume := totalConsume + 1;
    }
  }

  /** The vertices below m whose in-degree is zero, in ascending order. */
  function Ready(deg: seq<nat>, m: nat): seq<nat>
    requires m <= |deg|
  {
    if m == 0 then [] else Ready(deg, m - 1) + if deg[m - 1] == 0 then [m - 1] else []
  }

  lemma {:induction false} ReadyExactly(deg: seq<nat>, m: nat)
    requires m <= |deg|
    ensures Distinct(Ready(deg, m))
    ensures forall v: nat :: v in Ready(deg, m) <==> v < m && deg[v] == 0
  {
    if m == 0 {
    } else {
      ReadyExactly(deg, m - 1);
    }
  }

  /** The out-edge vector of p after the transactions below j have been walked. */
  ghost function OutList<K(!new)>(cs: seq<Criticals<K>>, p: nat, j: nat): seq<nat>
    requires j <= |cs|
  {
    if j == 0 then [] else OutList(cs, p, j - 1) + Repeat(j - 1, EdgeMultiplicity(cs, p, j - 1))
  }

  ghost function OutEdges<K(!new)>(cs: seq<Criticals<K>>, j: nat): seq<seq<nat>>
    requires j <= |cs|
  {
    seq(|cs|, p requires 0 <= p => OutList(cs, p, j))
  }

  /** The out-edge vectors hold each dependency with its multiplicity, and nothing else. */
  lemma {:induction false} OutListExactly<K(!new)>(cs: seq<Criticals<K>>, p: nat, j: nat, t: nat)
    requires j <= |cs|
    ensures multiset(OutList(cs, p, j))[t] == if t < j then EdgeMultiplicity(cs, p, t) else 0
  {
    if j == 0 {
    } else {
      OutListExactly(cs, p, j - 1, t);
      RepeatCount(j - 1, EdgeMultiplicity(cs, p, j - 1), t);
    }
  }

  lemma {:induction false} RepeatCount(x: nat, n: nat, t: nat)
    ensures multiset(Repeat(x, n))[t] == if t == x then n else 0
  {
    if n == 0 {
    } else {
      RepeatCount(x, n - 1, t);
      assert Repeat(x, n) == Repeat(x, n - 1) + [x];
    }
  }

  /** Every out-edge leads forward, to a vertex of the graph, and is a dependency. */
  lemma OutEdgesAreEdges<K(!new)>(cs: seq<Criticals<K>>, p: nat, t: nat)
    requires p < |cs|
    ensures t in OutEdges(cs, |cs|)[p] <==> Edge(cs, p, t)
    ensures t in OutEdges(cs, |cs|)[p] ==> p < t < |cs|
  {
    OutListExactly(cs, p, |cs|, t);
    assert t in OutEdges(cs, |cs|)[p] <==> t in multiset(OutList(cs, p, |cs|));
    if Edge(cs, p, t) {
      EdgeForwardAndConflicting(cs, p, t);
    }
  }

  /** The edges that the walk still has to add to p's vector for transaction t. */
  ghost predicate PartWay<K(!new)>(cs: seq<Criticals<K>>, t: nat, out: seq<seq<nat>>, added: multiset<nat>)
    requires t < |cs|
  {
    && |out| == |cs|
    && forall p: nat :: p < |cs| ==> out[p] == OutList(cs, p, t) + Repeat(t, added[p])
  }

  lemma PartWayAdd<K(!new)>(cs: seq<Criticals<K>>, t: nat, out: seq<seq<nat>>, added: multiset<nat>, p: nat)
    requires t < |cs| && p < |cs| && PartWay(cs, t, out, added)
    ensures PartWay(cs, t, out[p := out[p] + [t]], added + multiset{p})
  {
    assert Repeat(t, added[p] + 1) == Repeat(t, added[p]) + [t];
    assert forall q: nat :: q != p ==> (added + multiset{p})[q] == added[q];
  }

  /** The transaction graph of one block; a fresh one is made for every block. */
  class TxDAG<K(==,!new)> {
    const dag: Dag
    var totalParaTxs: nat
    var exeCnt: nat

    constructor ()
      ensures fresh(dag) && dag.Balanced() && dag.topLevel == [] && exeCnt == 0
    {
      dag := new Dag();
      totalParaTxs, exeCnt := 0, 0;
    }

    /** The graph of a block, and the vertices without predecessors queued in order. */
    method Init(cs: seq<Criticals<K>>)
      requires |cs| <= INVALID_ID
      requires dag.topLevel == []
      modifies this, dag
      ensures dag.Balanced() && dag.outEdge == OutEdges(cs, |cs|)
      ensures dag.topLevel == Ready(dag.inDegree, |cs|) && dag.totalConsume == 0
      ensures totalParaTxs == |cs| && exeCnt == old(exeCnt)
    {
      dag.Init(|cs|);
      var field := new CriticalField<K>();
      assert cs[..0] == [];
      assert dag.outEdge == OutEdges(cs, 0);
      for id := 0 to |cs|
        modifies dag, field
        invariant fresh(field)
        invariant field.View() == FieldOf(cs[..id])
        invariant dag.Balanced() && dag.outEdge == OutEdges(cs, id)
        invariant dag.topLevel == [] && dag.totalConsume == 0
      {
        AddTransaction(cs, id, field);
      }
      assert cs[..|cs|] == cs;
      dag.Generate();
      totalParaTxs := |cs|;
    }

    /** The edges to one transaction; then it is the latest holder of its keys. */
    method AddTransaction(cs: seq<Criticals<K>>, id: nat, field: CriticalField<K>)
      requires id < |cs| <= INVALID_ID && field.View() == FieldOf(cs[..id])
      requires dag.Balanced() && dag.outEdge == OutEdges(cs, id)
      modifies dag, field
      ensures field.View() == FieldOf(cs[..id + 1])
      ensures dag.Balanced() && dag.outEdge == OutEdges(cs, id + 1)
      ensures dag.topLevel == old(dag.topLevel) && dag.totalConsume == old(dag.totalConsume)
    {
      HoldersSound(cs[..id]);
      assert PartWay(cs, id, dag.outEdge, multiset{});
      match cs[id] {
        case Some(keys) =>
          AddKeyEdges(cs, id, keys, field);
          RecordKeys(keys, id, field);
        case None =>
          AddAllEdges(cs, id, field);
          field.SetCriticalAll(id);
      }
      assert cs[..id + 1][..id] == cs[..id];
      assert dag.outEdge == OutEdges(cs, id + 1);
    }

    /** One edge per key whose holder is known; the same holder may be met several times. */
    method AddKeyEdges(cs: seq<Criticals<K>>, id: nat, keys: seq<K>, field: CriticalField<K>)
      requires id < |cs| <= INVALID_ID && cs[id] == Some(keys)
      requires field.View() == FieldOf(cs[..id])
      requires dag.Balanced() && PartWay(cs, id, dag.outEdge, multiset{})
      modifies dag
      ensures dag.Balanced() && |dag.outEdge| == |cs|
      ensures forall p: nat :: p < |cs| ==> dag.outEdge[p] == OutList(cs, p, id + 1)
      ensures dag.topLevel == old(dag.topLevel) && dag.totalConsume == old(dag.totalConsume)
    {
      HoldersSound(cs[..id]);
      ghost var f := field.View();
      ghost var added: multiset<nat> := multiset{};
      for i := 0 to |keys|
        modifies dag
        invariant dag.Balanced() && PartWay(cs, id, dag.outEdge, added)
        invariant forall p: nat :: added[p] == KeyMultiplicity(f, keys[..i], p)
        invariant dag.topLevel == old(dag.topLevel) && dag.totalConsume == old(dag.totalConsume)
      {
        assert keys[..i + 1][..i] == keys[..i];
        var pId := field.Get(keys[i]);
        if pId != INVALID_ID {
          PartWayAdd(cs, id, dag.outEdge, added, pId);
          dag.AddEdge(pId, id);
          added := added + multiset{pId};
        }
      }
      assert keys[..|keys|] == keys;
    }

    method RecordKeys(keys: seq<K>, id: nat, field: CriticalField<K>)
      requires id != INVALID_ID
      modifies field
      ensures field.View() == Record(old(field.View()), Some(keys), id)
    {
      for i := 0 to |keys|
        modifies field
        invariant field.criticalAll == old(field.criticalAll)
        invariant field.criticals == old(field.criticals) + (map k | k in keys[..i] :: id)
      {
        field.Update(keys[i], id);
      }
      assert keys[..|keys|] == keys;
    }

    /** One edge per remembered key and one from the latest critical-to-all transaction. */
    method AddAllEdges(cs: seq<Criticals<K>>, id: nat, field: CriticalField<K>)
      requires id < |cs| <= INVALID_ID && cs[id].None?
      requires field.View() == FieldOf(cs[..id])
      requires dag.Balanced() && PartWay(cs, id, dag.outEdge, multiset{})
      modifies dag
      ensures dag.Balanced() && |dag.outEdge| == |cs|
      ensures forall p: nat :: p < |cs| ==> dag.outEdge[p] == OutList(cs, p, id + 1)
      ensures dag.topLevel == old(dag.topLevel) && dag.totalConsume == old(dag.totalConsume)
    {
      HoldersSound(cs[..id]);
      var ids := field.Fields();
      ghost var added: multiset<nat> := multiset{};
      for i := 0 to |ids|
        modifies dag
        invariant dag.Balanced() && PartWay(cs, id, dag.outEdge, added)
        invariant added == multiset(ids[..i])
        invariant dag.topLevel == old(dag.topLevel) && dag.totalConsume == old(dag.totalConsume)
      {
        assert ids[..i + 1] == ids[..i] + [ids[i]];
        assert ids[i] < id by {
          assert ids[i] in multiset(ids);
          assert Edge(cs, ids[i], id);
          EdgeForwardAndConflicting(cs, ids[i], id);
        }
        PartWayAdd(cs, id, dag.outEdge, added, ids[i]);
        dag.AddEdge(ids[i], id);
        added := added + multiset{ids[i]};
      }
      assert ids[..|ids|] == ids;
    }
  }
}
