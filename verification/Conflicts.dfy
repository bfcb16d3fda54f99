/**
  Which transactions of a block depend on which: the critical keys of a
  transaction, the memory of latest holders that TxDAG::init walks along the
  block, and the dependency edges that follow from it.

  A transaction without a key list (a null pointer in the source) is critical
  to all. A transaction with an empty key list is neither.
 */
module Conflicts {
  import opened Prelude

  /** None: critical to all. Some(keys): critical to those keys, duplicates allowed. */
  type Criticals<K> = Option<seq<K>>

  ghost predicate Conflict<K(!new)>(a: Criticals<K>, b: Criticals<K>) {
    match (a, b)
    case (None, None) => true
    case (None, Some(y)) => y != []
    case (Some(x), None) => x != []
    case (Some(x), Some(y)) => exists k :: k in x && k in y
  }

  /** The value held by a CriticalField: latest holder of each key since the latest critical-to-all transaction. */
  datatype Field<K> = Field(latest: map<K, nat>, all: Option<nat>)

  function Holder<K>(f: Field<K>, k: K): Option<nat> {
    if k in f.latest then Some(f.latest[k]) else f.all
  }

  function Record<K>(f: Field<K>, c: Criticals<K>, id: nat): Field<K> {
    match c
    case None => Field(map[], Some(id))
    case Some(keys) => Field(f.latest + (map k | k in keys :: id), f.all)
  }

  /** The field after the transactions cs have been walked. */
  function FieldOf<K>(cs: seq<Criticals<K>>): Field<K> {
    if cs == [] then Field(map[], None)
    else Record(FieldOf(cs[..|cs| - 1]), cs[|cs| - 1], |cs| - 1)
  }

  function KeyMultiplicity<K>(f: Field<K>, keys: seq<K>, p: nat): nat {
    if keys == [] then 0
    else KeyMultiplicity(f, keys[..|keys| - 1], p)
         + if Holder(f, keys[|keys| - 1]) == Some(p) then 1 else 0
  }

  /** How many edges lead from p to a transaction with criticals c that is walked next. */
  ghost function Multiplicity<K(!new)>(f: Field<K>, c: Criticals<K>, p: nat): nat {
    match c
    case Some(keys) => KeyMultiplicity(f, keys, p)
    case None => |set k | k in f.latest && f.latest[k] == p| + if f.all == Some(p) then 1 else 0
  }

  ghost function EdgeMultiplicity<K(!new)>(cs: seq<Criticals<K>>, p: nat, t: nat): nat
    requires t < |cs|
  {
    Multiplicity(FieldOf(cs[..t]), cs[t], p)
  }

  ghost predicate Edge<K(!new)>(cs: seq<Criticals<K>>, p: nat, t: nat) {
    t < |cs| && EdgeMultiplicity(cs, p, t) > 0
  }

  /** i reaches j along one or more dependency edges. */
  ghost predicate Path<K(!new)>(cs: seq<Criticals<K>>, i: nat, j: nat)
    decreases j
  {
    Edge(cs, i, j) || exists m: nat :: i < m < j && Path(cs, i, m) && Edge(cs, m, j)
  }

  /** i reaches j along one or more conflicts between an earlier and a later transaction. */
  ghost predicate ConflictChain<K(!new)>(cs: seq<Criticals<K>>, i: nat, j: nat)
    decreases j
  {
    && i < j < |cs|
    && (Conflict(cs[i], cs[j]) || exists m: nat :: i < m < j && ConflictChain(cs, i, m) && Conflict(cs[m], cs[j]))
  }

  /** A remembered holder is an earlier transaction that is critical to the key. */
  lemma {:induction false} HoldersSound<K(!new)>(cs: seq<Criticals<K>>)
    ensures forall k :: k in FieldOf(cs).latest ==>
                          var p := FieldOf(cs).latest[k]; p < |cs| && cs[p].Some? && k in cs[p].value
    ensures FieldOf(cs).all.Some? ==> FieldOf(cs).all.value < |cs| && cs[FieldOf(cs).all.value].None?
  {
    if cs == [] {
    } else {
      HoldersSound(cs[..|cs| - 1]);
    }
  }

  /** No holder is forgotten in favour of an older one, although critical-to-all clears the map. */
  lemma {:induction false} HoldersLatest<K(!new)>(cs: seq<Criticals<K>>, i: nat, k: K)
    requires i < |cs|
    requires cs[i].None? || k in cs[i].value
    ensures Holder(FieldOf(cs), k).Some? && i <= Holder(FieldOf(cs), k).value
    ensures cs[i].None? ==> FieldOf(cs).all.Some? && i <= FieldOf(cs).all.value
  {
    var front := cs[..|cs| - 1];
    if i < |cs| - 1 {
      assert front[i] == cs[i];
      HoldersLatest(front, i, k);
      HoldersSound(front);
    }
  }

  /** The same for transactions critical to all, without naming a key. */
  lemma {:induction false} AllLatest<K(!new)>(cs: seq<Criticals<K>>, i: nat)
    requires i < |cs| && cs[i].None?
    ensures FieldOf(cs).all.Some? && i <= FieldOf(cs).all.value
  {
    var front := cs[..|cs| - 1];
    if i < |cs| - 1 {
      assert front[i] == cs[i];
      AllLatest(front, i);
      HoldersSound(front);
    }
  }

  lemma {:induction false} KeyMultiplicityPositive<K(!new)>(f: Field<K>, keys: seq<K>, p: nat)
    ensures KeyMultiplicity(f, keys, p) > 0 <==> exists k :: k in keys && Holder(f, k) == Some(p)
  {
    if keys == [] {
    } else {
      var front := keys[..|keys| - 1];
      KeyMultiplicityPositive(f, front, p);
      assert keys == front + [keys[|keys| - 1]];
    }
  }

  /** An edge leads to t exactly from the holders that t is told of. */
  lemma EdgeExactly<K(!new)>(cs: seq<Criticals<K>>, p: nat, t: nat)
    requires t < |cs|
    ensures Edge(cs, p, t) <==>
            var f := FieldOf(cs[..t]);
            match cs[t]
            case Some(keys) => exists k :: k in keys && Holder(f, k) == Some(p)
            case None => f.all == Some(p) || exists k :: k in f.latest && f.latest[k] == p
  {
    var f := FieldOf(cs[..t]);
    match cs[t]
    case Some(keys) => KeyMultiplicityPositive(f, keys, p);
    case None =>
      var holders := set k | k in f.latest && f.latest[k] == p;
      if k :| k in f.latest && f.latest[k] == p {
        assert k in holders;
      } else {
        assert holders == {};
      }
  }

  /** Every edge leads from an earlier to a later transaction, and only between conflicting ones. */
  lemma EdgeForwardAndConflicting<K(!new)>(cs: seq<Criticals<K>>, p: nat, t: nat)
    requires Edge(cs, p, t)
    ensures p < t < |cs| && Conflict(cs[p], cs[t])
  {
    EdgeExactly(cs, p, t);
    HoldersSound(cs[..t]);
  }

  /** The holder that a later conflicting transaction is told of conflicts with i as well, or is i. */
  lemma ConflictHolder<K(!new)>(cs: seq<Criticals<K>>, i: nat, j: nat) returns (p: nat)
    requires i < j < |cs| && Conflict(cs[i], cs[j])
    ensures i <= p < j && Edge(cs, p, j)
    ensures i < p ==> Conflict(cs[i], cs[p])
  {
    var f := FieldOf(cs[..j]);
    HoldersSound(cs[..j]);
    if cs[i].None? && cs[j].None? {
      AllLatest(cs[..j], i);
      p := f.all.value;
    } else {
      var k;
      if cs[i].None? {
        k := cs[j].value[0];
      } else if cs[j].None? {
        k := cs[i].value[0];
      } else {
        k :| k in cs[i].value && k in cs[j].value;
      }
      HoldersLatest(cs[..j], i, k);
      p := Holder(f, k).value;
    }
    EdgeExactly(cs, p, j);
  }

  /** Conflicting transactions are joined by a path, although only the latest holder of each key is remembered. */
  lemma {:induction false} ConflictHasPath<K(!new)>(cs: seq<Criticals<K>>, i: nat, j: nat)
    requires i < j < |cs| && Conflict(cs[i], cs[j])
    ensures Path(cs, i, j)
    decreases j
  {
    var p := ConflictHolder(cs, i, j);
    if i < p {
      ConflictHasPath(cs, i, p);
    }
  }

  lemma {:induction false} PathJoin<K(!new)>(cs: seq<Criticals<K>>, i: nat, m: nat, j: nat)
    requires i < m && Path(cs, i, m) && Path(cs, m, j)
    ensures Path(cs, i, j)
    decreases j
  {
    if Edge(cs, m, j) {
      EdgeForwardAndConflicting(cs, m, j);
    } else {
      var q: nat :| m < q < j && Path(cs, m, q) && Edge(cs, q, j);
      PathJoin(cs, i, m, q);
    }
  }

  /** The graph orders exactly what the conflicts order: reachability is the closure of Conflict. */
  lemma {:induction false} PathsAreConflictChains<K(!new)>(cs: seq<Criticals<K>>, i: nat, j: nat)
    ensures Path(cs, i, j) <==> ConflictChain(cs, i, j)
    decreases j
  {
    if Path(cs, i, j) {
      if Edge(cs, i, j) {
        EdgeForwardAndConflicting(cs, i, j);
      } else {
        var m: nat :| i < m < j && Path(cs, i, m) && Edge(cs, m, j);
        PathsAreConflictChains(cs, i, m);
        EdgeForwardAndConflicting(cs, m, j);
      }
    }
    if ConflictChain(cs, i, j) {
      if Conflict(cs[i], cs[j]) {
        ConflictHasPath(cs, i, j);
      } else {
        var m: nat :| i < m < j && ConflictChain(cs, i, m) && Conflict(cs[m], cs[j]);
        PathsAreConflictChains(cs, i, m);
        ConflictHasPath(cs, m, j);
        PathJoin(cs, i, m, j);
      }
    }
  }

  /** A transaction with an empty key list has no edge in either direction. */
  lemma EmptyCriticalsAreIsolated<K(!new)>(cs: seq<Criticals<K>>, e: nat, t: nat)
    requires e < |cs| && cs[e] == Some([])
    ensures !Edge(cs, e, t) && !Edge(cs, t, e)
  {
    if Edge(cs, e, t) {
      EdgeForwardAndConflicting(cs, e, t);
    }
    if Edge(cs, t, e) {
      EdgeForwardAndConflicting(cs, t, e);
    }
  }

  /** How many of the keys have a holder. */
  ghost function HeldKeys<K(!new)>(f: Field<K>, keys: seq<K>): nat {
    if keys == [] then 0 else HeldKeys(f, keys[1..]) + if Holder(f, keys[0]).Some? then 1 else 0
  }

  /** The edges into transaction t from those below n. */
  ghost function EdgesFromBelow<K(!new)>(cs: seq<Criticals<K>>, t: nat, n: nat): nat
    requires t < |cs|
  {
    if n == 0 then 0 else EdgesFromBelow(cs, t, n - 1) + EdgeMultiplicity(cs, n - 1, t)
  }

  /** How many of the keys have a holder below n. */
  ghost function HeldBelow<K(!new)>(f: Field<K>, keys: seq<K>, n: nat): nat {
    if keys == [] then 0
    else HeldBelow(f, keys[..|keys| - 1], n)
         + match Holder(f, keys[|keys| - 1]) case Some(p) => (if p < n then 1 else 0) case None => 0
  }

  lemma {:induction false} HeldBelowNext<K(!new)>(f: Field<K>, keys: seq<K>, n: nat)
    ensures HeldBelow(f, keys, n + 1) == HeldBelow(f, keys, n) + KeyMultiplicity(f, keys, n)
    ensures HeldBelow(f, keys, 0) == 0
  {
    if keys == [] {
    } else {
      HeldBelowNext(f, keys[..|keys| - 1], n);
    }
  }

  lemma {:induction false} HeldBelowAll<K(!new)>(f: Field<K>, keys: seq<K>, n: nat)
    requires forall k :: Holder(f, k).Some? ==> Holder(f, k).value < n
    ensures HeldBelow(f, keys, n) == HeldKeys(f, keys)
  {
    if keys == [] {
    } else {
      HeldBelowAll(f, keys[..|keys| - 1], n);
      HeldSnoc(f, keys[..|keys| - 1], keys[|keys| - 1]);
      assert keys == keys[..|keys| - 1] + [keys[|keys| - 1]];
    }
  }

  lemma {:induction false} HeldSnoc<K(!new)>(f: Field<K>, keys: seq<K>, k: K)
    ensures HeldKeys(f, keys + [k]) == HeldKeys(f, keys) + if Holder(f, k).Some? then 1 else 0
  {
    if keys == [] {
      assert [] + [k] == [k];
    } else {
      HeldSnoc(f, keys[1..], k);
      assert (keys + [k])[1..] == keys[1..] + [k];
    }
  }

  ghost function FieldsBelow<K(!new)>(f: Field<K>, n: nat): set<K> {
    set k | k in f.latest && f.latest[k] < n
  }

  lemma FieldsBelowNext<K(!new)>(f: Field<K>, n: nat)
    ensures |FieldsBelow(f, n + 1)| == |FieldsBelow(f, n)| + |set k | k in f.latest && f.latest[k] == n|
  {
    var here := set k | k in f.latest && f.latest[k] == n;
    assert FieldsBelow(f, n + 1) == FieldsBelow(f, n) + here;
  }

  lemma {:induction false} KeyEdgesBelow<K(!new)>(cs: seq<Criticals<K>>, t: nat, n: nat)
    requires t < |cs| && cs[t].Some?
    ensures EdgesFromBelow(cs, t, n) == HeldBelow(FieldOf(cs[..t]), cs[t].value, n)
  {
    if n == 0 {
      HeldBelowNext(FieldOf(cs[..t]), cs[t].value, 0);
    } else {
      KeyEdgesBelow(cs, t, n - 1);
      HeldBelowNext(FieldOf(cs[..t]), cs[t].value, n - 1);
    }
  }

  lemma {:induction false} AllEdgesBelow<K(!new)>(cs: seq<Criticals<K>>, t: nat, n: nat)
    requires t < |cs| && cs[t].None?
    ensures var f := FieldOf(cs[..t]);
            EdgesFromBelow(cs, t, n) == |FieldsBelow(f, n)| + if f.all.Some? && f.all.value < n then 1 else 0
  {
    var f := FieldOf(cs[..t]);
    if n == 0 {
      assert FieldsBelow(f, 0) == {};
    } else {
      AllEdgesBelow(cs, t, n - 1);
      FieldsBelowNext(f, n - 1);
    }
  }

  /**
    A transaction with a key list has one edge for every key in it with a
    holder, a key that occurs twice counted twice; one that is critical to all
    has one for every remembered key and one for the remembered critical-to-all
    transaction.
   */
  lemma EdgesIntoCount<K(!new)>(cs: seq<Criticals<K>>, t: nat)
    requires t < |cs|
    ensures var f := FieldOf(cs[..t]);
            EdgesFromBelow(cs, t, t)
            == match cs[t]
               case Some(keys) => HeldKeys(f, keys)
               case None => |f.latest| + if f.all.Some? then 1 else 0
  {
    var f := FieldOf(cs[..t]);
    HoldersSound(cs[..t]);
    match cs[t]
    case Some(keys) =>
      KeyEdgesBelow(cs, t, t);
      HeldBelowAll(f, keys, t);
    case None =>
      AllEdgesBelow(cs, t, t);
      assert FieldsBelow(f, t) == f.latest.Keys && |f.latest| == |f.latest.Keys|;
  }
}
