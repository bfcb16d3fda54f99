/**
  hash256rlp over a sorted map: ranges of neighbouring entries instead of sets
  of entries, written into RLP streams as they are found. It produces the bytes
  of the layout.
 */
module TrieHash {
  import opened Prelude
  import opened RlpFormat
  import opened RlpWriter
  import opened HexPrefix
  import opened TrieLayout

  /** The order of std::map over byte vectors. */
  predicate Less(a: Nibbles, b: Nibbles) {
    b != [] && (a == [] || a[0] < b[0] || (a[0] == b[0] && Less(a[1..], b[1..])))
  }

  ghost predicate Sorted(s: seq<Entry>) {
    forall i, j :: 0 <= i < j < |s| ==> Less(s[i].key, s[j].key)
  }

  lemma SortedRun(s: seq<Entry>, b: nat, n: nat)
    requires Sorted(s) && b <= n <= |s|
    ensures Sorted(s[b..n])
  {
  }

  /** Of two sorted keys that agree on pre nibbles the second goes on, with no smaller nibble. */
  lemma {:induction false} SortedBelow(a: Nibbles, b: Nibbles, pre: nat)
    requires Less(a, b) && SamePrefix(a, b, pre)
    ensures pre < |b| && (pre < |a| ==> a[pre] <= b[pre])
  {
    if pre == 0 {
    } else {
      SortedBelow(a[1..], b[1..], pre - 1);
    }
  }

  /** A run of neighbours is the bucket, if it has all entries with that nibble. */
  lemma {:induction false} BucketIsRun(s: seq<Entry>, pre: nat, i: Nibble, b: nat, n: nat)
    requires b <= n <= |s|
    requires forall j :: 0 <= j < b || n <= j < |s| ==> !(pre < |s[j].key| && s[j].key[pre] == i)
    requires forall j :: b <= j < n ==> pre < |s[j].key| && s[j].key[pre] == i
    ensures Bucket(s, pre, i) == s[b..n]
  {
    if s == [] {
    } else {
      var b', n' := if b > 0 then b - 1 else 0, if n > 0 then n - 1 else 0;
      BucketIsRun(s[1..], pre, i, b', n');
      if b > 0 || n == 0 {
        assert s[b..n] == s[1..][b'..n'];
      } else {
        assert s[b..n] == [s[0]] + s[1..][b'..n'];
      }
    }
  }

  lemma {:induction false} SharedShrinks(s: seq<Entry>, pre: nat, m: nat, m': nat)
    requires 2 <= m <= m' <= |s| && Agree(s, pre)
    ensures Shared(s, pre, m') <= Shared(s, pre, m)
    decreases m'
  {
    if m < m' {
      SharedShrinks(s, pre, m, m' - 1);
    }
  }

  /** The inner loop: how far two keys agree, looking no further than x. */
  method CommonUpTo(a: Nibbles, b: Nibbles, preLen: nat, x: nat) returns (shared: nat)
    requires preLen <= x <= |a| && x <= |b|
    ensures shared == if Common(a, b, preLen) < x then Common(a, b, preLen) else x
  {
    ghost var common := Common(a, b, preLen);
    shared := preLen;
    while shared < x && a[shared] == b[shared]
      invariant preLen <= shared <= x && Common(a, b, shared) == common
    {
      shared := shared + 1;
    }
  }

  /** The loop that finds how many nibbles all entries share. */
  method SharedPrefix(s: seq<Entry>, preLen: nat) returns (sharedPre: nat)
    requires |s| >= 2 && Agree(s, preLen)
    ensures sharedPre == Shared(s, preLen, |s|)
  {
    sharedPre := 0xFFFF_FFFF;
    var i := 1;
    while i < |s| && sharedPre != 0
      invariant 1 <= i <= |s| && preLen <= sharedPre
      invariant i == 1 ==> sharedPre == 0xFFFF_FFFF
      invariant i >= 2 ==> sharedPre == Shared(s, preLen, i)
    {
      AgreeAt(s, preLen, i);
      var x := if |s[0].key| < |s[i].key| then |s[0].key| else |s[i].key|;
      x := if sharedPre < x then sharedPre else x;
      var shared := CommonUpTo(s[0].key, s[i].key, preLen, x);
      sharedPre := if shared < sharedPre then shared else sharedPre;
      i := i + 1;
    }
    if i < |s| {
      SharedShrinks(s, preLen, i, |s|);
    }
  }

  /** What is still to be appended to a stream so that it ends with no open list and exactly target. */
  ghost predicate Pending(st: Stream, todo: seq<Item>, target: Bytes) {
    st.Valid() && AllEncodable(todo) && WalkAll(st, todo) == (Stream(target, []), true)
  }

  lemma PendingList(xs: seq<Item>)
    requires Encodable(List(xs)) && xs != []
    ensures Pending(Stream([], [Open(|xs|, 0)]), xs, Encode(List(xs)))
  {
    var empty := Stream([], []);
    WalkOpenList(empty, xs, [], xs);
    assert [] + EncodeAll([]) == [] && empty.stack + [Open(|xs|, 0)] == [Open(|xs|, 0)];
    assert [] + Encode(List(xs)) == Encode(List(xs));
  }

  lemma PendingStep(st: Stream, todo: seq<Item>, target: Bytes, st': Stream, ok: bool)
    requires Pending(st, todo, target) && todo != [] && (st', ok) == AppendedItem(st, Encode(todo[0]))
    ensures ok && Pending(st', todo[1..], target)
  {
    WalkIsEncoding(st, todo[0]);
  }

  /** The list of a node of n items is opened in a fresh stream. */
  method OpenNode(n: nat, rlp: RlpStream, ghost xs: seq<Item>)
    requires rlp.View() == Stream([], []) && |xs| == n > 0 && Encodable(List(xs))
    modifies rlp
    ensures Pending(rlp.View(), xs, Encode(List(xs)))
  {
    PendingList(xs);
    var ok := rlp.AppendList(n);
    assert rlp.View() == Stream([], [Open(n, 0)]);
  }

  /** The value slot of a branch: only the first of sorted entries can end here. */
  lemma ValueIsFirst(s: seq<Entry>, pre: nat)
    requires Agree(s, pre) && Sorted(s) && s != []
    ensures ValueAt(s, pre) == if |s[0].key| == pre then s[0].value else []
    ensures forall j :: 1 <= j < |s| ==> pre < |s[j].key|
  {
    forall j | 1 <= j < |s|
      ensures pre < |s[j].key|
    {
      AgreePair(s, pre, 0, j);
      SortedBelow(s[0].key, s[j].key, pre);
    }
    NoValue(s[1..], pre);
  }

  lemma {:induction false} NoValue(s: seq<Entry>, pre: nat)
    requires forall j :: 0 <= j < |s| ==> |s[j].key| != pre
    ensures ValueAt(s, pre) == []
  {
    if s == [] {
    } else {
      NoValue(s[1..], pre);
    }
  }

  /** Entries from b on go on with nibbles of at least i, entries before b end here or go on with smaller ones. */
  ghost predicate SplitAt(s: seq<Entry>, pre: nat, i: nat, b: nat) {
    && b <= |s|
    && (forall j :: 0 <= j < b ==> pre <= |s[j].key| && (pre < |s[j].key| ==> s[j].key[pre] < i))
    && (forall j :: b <= j < |s| ==> pre < |s[j].key| && s[j].key[pre] >= i)
  }

  /** The inner loop of a branch: the run of entries whose next nibble is i. */
  method RunEnd(s: seq<Entry>, pre: nat, i: Nibble, b: nat) returns (n: nat)
    requires Agree(s, pre) && Sorted(s) && SplitAt(s, pre, i, b)
    ensures b <= n <= |s| && s[b..n] == Bucket(s, pre, i) && SplitAt(s, pre, i + 1, n)
  {
    n := b;
    while n != |s| && s[n].key[pre] == i
      invariant b <= n <= |s|
      invariant forall j :: b <= j < n ==> s[j].key[pre] == i
    {
      n := n + 1;
    }
    forall j | n <= j < |s|
      ensures s[j].key[pre] > i
    {
      if n < j {
        AgreePair(s, pre, n, j);
        SortedBelow(s[n].key, s[j].key, pre);
      }
    }
    BucketIsRun(s, pre, i, b, n);
  }

  /** hash256aux: the node as it appears in its parent. */
  method Hash256Aux(h: Hash, s: seq<Entry>, preLen: nat, rlp: RlpStream) returns (ok: bool)
    requires IsHash(h) && Agree(s, preLen) && Sorted(s) && s != [] && rlp.View().Valid()
    modifies rlp
    ensures rlp.View().Valid()
    ensures (rlp.View(), ok) == AppendedItem(old(rlp.View()), Encode(Reference(h, Layout(h, s, preLen))))
    decreases Weight(s) - preLen, 1, 0
  {
    var sub := new RlpStream();
    Hash256Rlp(h, s, preLen, sub);
    if |sub.out| < 32 {
      ok := rlp.AppendRaw(sub.out, 1);
    } else {
      ok := rlp.Append(h(sub.out), false);
    }
  }

  /** hash256rlp, into a fresh stream: exactly the bytes of the layout, and no list left open. */
  method Hash256Rlp(h: Hash, s: seq<Entry>, preLen: nat, rlp: RlpStream)
    requires IsHash(h) && Agree(s, preLen) && Sorted(s) && rlp.View() == Stream([], [])
    modifies rlp
    ensures rlp.View() == Stream(Encode(Layout(h, s, preLen)), [])
    decreases Weight(s) - preLen, 0, 3
  {
    var ok;
    if s == [] {
      ok := rlp.Append([], false);
    } else if |s| == 1 {
      WriteLeaf(h, s, preLen, rlp);
    } else {
      WeightBound(s, preLen);
      SharedAgrees(s, preLen);
      var sharedPre := SharedPrefix(s, preLen);
      if sharedPre > preLen {
        WriteExtension(h, s, preLen, sharedPre, rlp);
      } else {
        WriteBranch(h, s, preLen, rlp);
      }
    }
  }

  method WriteLeaf(h: Hash, s: seq<Entry>, preLen: nat, rlp: RlpStream)
    requires IsHash(h) && Agree(s, preLen) && |s| == 1 && rlp.View() == Stream([], [])
    modifies rlp
    ensures rlp.View() == Stream(Encode(Layout(h, s, preLen)), [])
  {
    var path := EncodeVector(s[0].key, true, preLen, -1);
    assert s[0].key[preLen..|s[0].key|] == s[0].key[preLen..];
    LayoutLeaf(h, s, preLen);
    ghost var xs := [Data(path), Data(s[0].value)];
    OpenNode(2, rlp, xs);
    WriteString(path, rlp, xs, Encode(List(xs)));
    WriteString(s[0].value, rlp, xs[1..], Encode(List(xs)));
  }

  /** A string of a node whose list is open. */
  method WriteString(data: Bytes, rlp: RlpStream, ghost xs: seq<Item>, ghost target: Bytes)
    requires xs != [] && xs[0] == Data(data) && Pending(rlp.View(), xs, target)
    modifies rlp
    ensures Pending(rlp.View(), xs[1..], target)
  {
    ghost var before := rlp.View();
    assert Encodable(xs[0]);
    var ok := rlp.Append(data, false);
    PendingStep(before, xs, target, rlp.View(), ok);
  }

  method WriteExtension(h: Hash, s: seq<Entry>, preLen: nat, sharedPre: nat, rlp: RlpStream)
    requires IsHash(h) && Agree(s, preLen) && Sorted(s) && |s| >= 2 && rlp.View() == Stream([], [])
    requires sharedPre == Shared(s, preLen, |s|) > preLen && Agree(s, sharedPre) && sharedPre <= |s[0].key|
    requires Weight(s) >= preLen
    modifies rlp
    ensures rlp.View() == Stream(Encode(Layout(h, s, preLen)), [])
    decreases Weight(s) - preLen, 0, 0
  {
    var path := EncodeVector(s[0].key, false, preLen, sharedPre);
    ghost var xs := [Data(path), Reference(h, Layout(h, s, sharedPre))];
    assert Layout(h, s, preLen) == List(xs);
    OpenNode(2, rlp, xs);
    WriteString(path, rlp, xs, Encode(List(xs)));
    ghost var before := rlp.View();
    var ok := Hash256Aux(h, s, sharedPre, rlp);
    PendingStep(before, xs[1..], Encode(List(xs)), rlp.View(), ok);
  }

  method WriteBranch(h: Hash, s: seq<Entry>, preLen: nat, rlp: RlpStream)
    requires IsHash(h) && Agree(s, preLen) && Sorted(s) && |s| >= 2 && rlp.View() == Stream([], [])
    requires Shared(s, preLen, |s|) == preLen && Weight(s) >= preLen
    modifies rlp
    ensures rlp.View() == Stream(Encode(Layout(h, s, preLen)), [])
    decreases Weight(s) - preLen, 0, 2
  {
    ghost var slots := Slots(h, s, preLen, 16);
    ghost var xs := slots + [Data(ValueAt(s, preLen))];
    LayoutBranch(h, s, preLen);
    ghost var target := Encode(List(xs));
    ValueIsFirst(s, preLen);
    OpenNode(17, rlp, xs);
    WriteSlots(h, s, preLen, rlp, slots, xs, target);
    TakeAppend(slots, [Data(ValueAt(s, preLen))]);
    if preLen == |s[0].key| {
      WriteLast(s[0].value, rlp, target);
    } else {
      WriteLast([], rlp, target);
    }
  }

  /** The last string of a node. */
  method WriteLast(data: Bytes, rlp: RlpStream, ghost target: Bytes)
    requires Pending(rlp.View(), [Data(data)], target)
    modifies rlp
    ensures rlp.View() == Stream(target, [])
  {
    WriteString(data, rlp, [Data(data)], target);
    assert [Data(data)][1..] == [];
  }

  /** The loop over the sixteen child slots of a branch. */
  method WriteSlots(h: Hash, s: seq<Entry>, preLen: nat, rlp: RlpStream,
                    ghost slots: seq<Item>, ghost xs: seq<Item>, ghost target: Bytes)
    requires IsHash(h) && Agree(s, preLen) && Sorted(s) && s != [] && Weight(s) >= preLen
    requires forall j :: 1 <= j < |s| ==> preLen < |s[j].key|
    requires slots == Slots(h, s, preLen, 16) && slots <= xs && Pending(rlp.View(), xs, target)
    modifies rlp
    ensures Pending(rlp.View(), xs[16..], target)
    decreases Weight(s) - preLen, 0, 1
  {
    assert xs[0..] == xs;
    var b := if preLen == |s[0].key| then 1 else 0;
    for i := 0 to 16
      modifies rlp
      invariant SplitAt(s, preLen, i, b)
      invariant Pending(rlp.View(), xs[i..], target)
    {
      var n := RunEnd(s, preLen, i, b);
      SlotAt(h, s, preLen, 16, i);
      WriteSlot(h, s, preLen, i, b, n, rlp, xs[i..], target);
      b := n;
      assert xs[i..][1..] == xs[i + 1..];
    }
  }

  /** One of the sixteen child slots of a branch. */
  method WriteSlot(h: Hash, s: seq<Entry>, preLen: nat, i: Nibble, b: nat, n: nat, rlp: RlpStream,
                   ghost todo: seq<Item>, ghost target: Bytes)
    requires IsHash(h) && Agree(s, preLen) && Sorted(s) && s != [] && Weight(s) >= preLen
    requires b <= n <= |s| && s[b..n] == Bucket(s, preLen, i)
    requires todo != [] && todo[0] == Slot(h, s, preLen, i) && Pending(rlp.View(), todo, target)
    modifies rlp
    ensures Pending(rlp.View(), todo[1..], target)
    decreases Weight(s) - preLen, 0, 0
  {
    SlotHolds(h, s, preLen, i, s[b..n]);
    if b == n {
      WriteString([], rlp, todo, target);
    } else {
      ghost var before := rlp.View();
      BucketWeight(s, preLen, i);
      SortedRun(s, b, n);
      var ok := Hash256Aux(h, s[b..n], preLen + 1, rlp);
      PendingStep(before, todo, target, rlp.View(), ok);
    }
  }
}
