/**
  commitBlock, called by any number of threads. What a thread does between two
  accesses to shared state is one step; the writes of a block reach the storage
  in one commit, which may fail.
 */
module ChainCommit {
  import opened Prelude

  type H256 = nat

  /** What numberHash returns for a height without a hash. */
  const NO_HASH: H256 := 0

  datatype Block = Block(number: int, hash: H256, parentHash: H256, txs: nat)

  /** The system tables that commitBlock writes. */
  datatype Store = Store(current: int, hashes: map<int, H256>, blocks: map<H256, Block>, total: Option<int>)

  datatype CommitResult = OK | ERROR_NUMBER | ERROR_PARENT_HASH | ERROR_COMMITTING

  /** Where a thread is, with the number it has read. */
  datatype Pc =
    | Begin
    | Checked
    | HaveNumber(n: int)
    | Matched(n: int)
    | Locked(n: int)
    | Writing(n: int)
    | Persisted
    | Returned(result: CommitResult)

  datatype Committer = Committer(block: Block, pc: Pc)

  /** number is the cached height, -1 before the first use; committed is the order of successful commits. */
  datatype State = State(
    store: Store, number: int, owner: Option<nat>, committers: seq<Committer>, committed: seq<Block>)

  /** A step of one thread; ok is whether the storage accepts a commit. */
  datatype Action = Step(who: nat, ok: bool)

  function NumberHash(store: Store, n: int): H256 {
    if n in store.hashes then store.hashes[n] else NO_HASH
  }

  function Total(store: Store): int {
    if store.total.Some? then store.total.value else 0
  }

  /** The writes of a block. */
  function Written(store: Store, b: Block): Store {
    Store(b.number, store.hashes[b.number := b.hash], store.blocks[b.hash := b], Some(Total(store) + b.txs))
  }

  function Number(s: State): int {
    if s.number == -1 then s.store.current else s.number
  }

  predicate Enabled(s: State, a: Action) {
    && a.who < |s.committers| && !s.committers[a.who].pc.Returned?
    && (s.committers[a.who].pc.Matched? ==> s.owner.None?)
  }

  function Goto(s: State, who: nat, pc: Pc): State
    requires who < |s.committers|
  {
    s.(committers := s.committers[who := s.committers[who].(pc := pc)])
  }

  function Next(s: State, a: Action): State
    requires Enabled(s, a)
  {
    var b := s.committers[a.who].block;
    match s.committers[a.who].pc
    case Begin =>
      Goto(s, a.who, if b.number != Number(s) + 1 then Returned(ERROR_NUMBER) else Checked).(number := Number(s))
    case Checked => Goto(s, a.who, HaveNumber(Number(s))).(number := Number(s))
    case HaveNumber(n) =>
      Goto(s, a.who, if b.parentHash != NumberHash(s.store, n) then Returned(ERROR_PARENT_HASH) else Matched(n))
    case Matched(n) => Goto(s, a.who, Locked(n)).(owner := Some(a.who))
    case Locked(n) =>
      if b.number != Number(s) + 1 then
        Goto(s, a.who, Returned(ERROR_PARENT_HASH)).(number := Number(s), owner := None)
      else Goto(s, a.who, Writing(n)).(number := Number(s))
    case Writing(_) =>
      if a.ok then Goto(s, a.who, Persisted).(store := Written(s.store, b), committed := s.committed + [b])
      else Goto(s, a.who, Returned(ERROR_COMMITTING)).(owner := None)
    case Persisted => Goto(s, a.who, Returned(OK)).(number := b.number, owner := None)
  }

  predicate Initial(s: State, base: Store) {
    && s.store == base && s.number == -1 && s.owner == None && s.committed == []
    && forall c :: 0 <= c < |s.committers| ==> s.committers[c].pc.Begin?
  }

  predicate Legal(s: State, run: seq<Action>)
    decreases |run|
  {
    run == [] || (Enabled(s, run[0]) && Legal(Next(s, run[0]), run[1..]))
  }

  function After(s: State, run: seq<Action>): State
    requires Legal(s, run)
    decreases |run|
  {
    if run == [] then s else After(Next(s, run[0]), run[1..])
  }

  /** The hash at height n of the chain that the committed blocks make on top of base. */
  function HashAt(base: Store, committed: seq<Block>, n: int): H256 {
    if base.current < n <= base.current + |committed| then committed[n - base.current - 1].hash else NumberHash(base, n)
  }

  /** The block that the storage has under a hash. */
  function BlockOf(store: Store, hash: H256): Option<Block> {
    if hash in store.blocks then Some(store.blocks[hash]) else None
  }

  /** The latest committed block with a hash, and otherwise what base has. */
  function BlockAt(base: Store, committed: seq<Block>, hash: H256): Option<Block> {
    if committed == [] then BlockOf(base, hash)
    else if committed[|committed| - 1].hash == hash then Some(committed[|committed| - 1])
    else BlockAt(base, committed[..|committed| - 1], hash)
  }

  function Transactions(blocks: seq<Block>): nat {
    if blocks == [] then 0 else Transactions(blocks[..|blocks| - 1]) + blocks[|blocks| - 1].txs
  }

  /** The heights follow each other, and every block names the hash one height below. */
  ghost predicate Chained(base: Store, committed: seq<Block>) {
    forall i :: 0 <= i < |committed| ==> ChainedAt(base, committed, i)
  }

  predicate ChainedAt(base: Store, committed: seq<Block>, i: nat)
    requires i < |committed|
  {
    && committed[i].number == base.current + 1 + i
    && committed[i].parentHash == if i == 0 then NumberHash(base, base.current) else committed[i - 1].hash
  }

  /** The storage holds that chain: its height, its hashes, its blocks and the number of its transactions. */
  ghost predicate Holds(base: Store, store: Store, committed: seq<Block>) {
    && store.current == base.current + |committed|
    && (forall n :: n <= store.current ==> NumberHash(store, n) == HashAt(base, committed, n))
    && (forall hash :: BlockOf(store, hash) == BlockAt(base, committed, hash))
    && Total(store) == Total(base) + Transactions(committed)
  }

  predicate Inside(pc: Pc) {
    pc.Locked? || pc.Writing? || pc.Persisted?
  }

  /** A thread that has passed the check still has a number that is not too low. */
  ghost predicate Sane(base: Store, s: State, c: Committer) {
    match c.pc
    case Begin => true
    case Checked => s.number != -1 && c.block.number - 1 <= s.number
    case HaveNumber(n) => s.number != -1 && c.block.number - 1 <= n <= s.number
    case Matched(n) =>
      && s.number != -1 && c.block.number - 1 <= n <= s.number
      && c.block.parentHash == HashAt(base, s.committed, n)
    case Locked(n) =>
      && s.number != -1 && c.block.number - 1 <= n <= s.number
      && c.block.parentHash == HashAt(base, s.committed, n)
    case Writing(n) =>
      && n == s.number == c.block.number - 1 && s.number != -1
      && c.block.parentHash == HashAt(base, s.committed, n)
    case Persisted => s.number == c.block.number - 1 && s.number != -1 && c.block in s.committed
    case Returned(result) => s.number != -1 && (result.OK? ==> c.block in s.committed)
  }

  /** The cached height is that of the storage, except between a commit to the storage and the update of the height. */
  ghost predicate NumberFollows(s: State) {
    s.number == -1 || s.number + (if Ahead(s) then 1 else 0) == s.store.current
  }

  predicate Ahead(s: State) {
    s.owner.Some? && s.owner.value < |s.committers| && s.committers[s.owner.value].pc.Persisted?
  }

  ghost predicate Inv(base: Store, s: State) {
    && base.current >= 0 && Chained(base, s.committed) && Holds(base, s.store, s.committed) && NumberFollows(s)
    && (forall c :: 0 <= c < |s.committers| ==> (Inside(s.committers[c].pc) <==> s.owner == Some(c)))
    && (forall c :: 0 <= c < |s.committers| ==> Sane(base, s, s.committers[c]))
  }

  lemma Extended(base: Store, store: Store, committed: seq<Block>, b: Block)
    requires Chained(base, committed) && Holds(base, store, committed) && b.number == store.current + 1
    requires b.parentHash == HashAt(base, committed, store.current)
    ensures Chained(base, committed + [b]) && Holds(base, Written(store, b), committed + [b])
    ensures forall n :: n <= store.current ==> HashAt(base, committed + [b], n) == HashAt(base, committed, n)
  {
    assert (committed + [b])[..|committed|] == committed;
    forall hash
      ensures BlockOf(Written(store, b), hash) == BlockAt(base, committed + [b], hash)
    {
      assert BlockOf(store, hash) == BlockAt(base, committed, hash);
    }
    forall i | 0 <= i <= |committed|
      ensures ChainedAt(base, committed + [b], i)
    {
      assert i < |committed| ==> ChainedAt(base, committed, i);
    }
    forall n | n <= store.current
      ensures HashAt(base, committed + [b], n) == HashAt(base, committed, n)
      ensures NumberHash(Written(store, b), n) == NumberHash(store, n)
    {
    }
    forall n | n <= store.current + 1
      ensures NumberHash(Written(store, b), n) == HashAt(base, committed + [b], n)
    {
      if n <= store.current {
        assert NumberHash(store, n) == HashAt(base, committed, n);
      }
    }
  }

  lemma BeginKeeps(base: Store, s: State, a: Action)
    requires Inv(base, s) && Enabled(s, a) && (s.committers[a.who].pc.Begin? || s.committers[a.who].pc.Checked?)
    ensures Inv(base, Next(s, a))
  {
  }

  lemma CompareKeeps(base: Store, s: State, a: Action)
    requires Inv(base, s) && Enabled(s, a) && s.committers[a.who].pc.HaveNumber?
    ensures Inv(base, Next(s, a))
  {
    assert NumberHash(s.store, s.committers[a.who].pc.n) == HashAt(base, s.committed, s.committers[a.who].pc.n);
  }

  lemma LockKeeps(base: Store, s: State, a: Action)
    requires Inv(base, s) && Enabled(s, a) && (s.committers[a.who].pc.Matched? || s.committers[a.who].pc.Locked?)
    ensures Inv(base, Next(s, a))
  {
  }

  lemma WriteKeeps(base: Store, s: State, a: Action)
    requires Inv(base, s) && Enabled(s, a) && s.committers[a.who].pc.Writing?
    ensures Inv(base, Next(s, a))
  {
    if a.ok {
      Extended(base, s.store, s.committed, s.committers[a.who].block);
    }
  }

  lemma UpdateKeeps(base: Store, s: State, a: Action)
    requires Inv(base, s) && Enabled(s, a) && s.committers[a.who].pc.Persisted?
    ensures Inv(base, Next(s, a))
  {
  }

  lemma StepKeeps(base: Store, s: State, a: Action)
    requires Inv(base, s) && Enabled(s, a)
    ensures Inv(base, Next(s, a))
  {
    match s.committers[a.who].pc
    case Begin => BeginKeeps(base, s, a);
    case Checked => BeginKeeps(base, s, a);
    case HaveNumber(_) => CompareKeeps(base, s, a);
    case Matched(_) => LockKeeps(base, s, a);
    case Locked(_) => LockKeeps(base, s, a);
    case Writing(_) => WriteKeeps(base, s, a);
    case Persisted => UpdateKeeps(base, s, a);
  }

  lemma {:induction false} RunKeeps(base: Store, s: State, run: seq<Action>)
    requires Inv(base, s) && Legal(s, run)
    ensures Inv(base, After(s, run))
    decreases |run|
  {
    if run == [] {
    } else {
      StepKeeps(base, s, run[0]);
      RunKeeps(base, Next(s, run[0]), run[1..]);
    }
  }

  /** The storage has a committed block at its height, and one height below the hash that the block names. */
  predicate Linked(base: Store, store: Store, committed: seq<Block>, i: nat)
    requires i < |committed|
  {
    && committed[i].number == base.current + 1 + i
    && NumberHash(store, committed[i].number) == committed[i].hash
    && NumberHash(store, committed[i].number - 1) == committed[i].parentHash
  }

  lemma ChainInStore(base: Store, store: Store, committed: seq<Block>, i: nat)
    requires Chained(base, committed) && Holds(base, store, committed) && i < |committed|
    ensures Linked(base, store, committed, i)
  {
    assert ChainedAt(base, committed, i);
    var n := committed[i].number;
    assert NumberHash(store, n) == HashAt(base, committed, n);
    assert NumberHash(store, n - 1) == HashAt(base, committed, n - 1);
  }

  predicate Accepted(pc: Pc) {
    pc.Persisted? || pc == Returned(OK)
  }

  /** How many threads have had a commit of block b accepted. */
  function CommittersOf(committers: seq<Committer>, b: Block): nat {
    if committers == [] then 0 else CommittersOf(committers[1..], b) + Share(committers[0], b)
  }

  function Share(c: Committer, b: Block): nat {
    if Accepted(c.pc) && c.block == b then 1 else 0
  }

  lemma {:induction false} CommittersUpdate(committers: seq<Committer>, w: nat, x: Committer, b: Block)
    requires w < |committers|
    ensures CommittersOf(committers[w := x], b) == CommittersOf(committers, b) - Share(committers[w], b) + Share(x, b)
  {
    if w > 0 {
      CommittersUpdate(committers[1..], w - 1, x, b);
      assert committers[w := x][1..] == committers[1..][w - 1 := x];
    } else {
      assert committers[w := x][1..] == committers[1..];
    }
  }

  lemma {:induction false} NothingCommitted(committers: seq<Committer>, b: Block)
    requires forall c :: 0 <= c < |committers| ==> committers[c].pc.Begin?
    ensures CommittersOf(committers, b) == 0
  {
    if committers == [] {
    } else {
      NothingCommitted(committers[1..], b);
    }
  }

  /** Every committed block has one thread that committed it, and nothing else was accepted. */
  ghost predicate Accounted(s: State) {
    forall b :: CommittersOf(s.committers, b) == multiset(s.committed)[b]
  }

  lemma StepCounts(s: State, a: Action, b: Block)
    requires Enabled(s, a)
    ensures Next(s, a).committers == s.committers[a.who := Next(s, a).committers[a.who]]
    ensures multiset(Next(s, a).committed)[b] - multiset(s.committed)[b]
         == Share(Next(s, a).committers[a.who], b) - Share(s.committers[a.who], b)
  {
  }

  lemma StepAccounted(s: State, a: Action)
    requires Enabled(s, a) && Accounted(s)
    ensures Accounted(Next(s, a))
  {
    var s' := Next(s, a);
    forall b
      ensures CommittersOf(s'.committers, b) == multiset(s'.committed)[b]
    {
      StepCounts(s, a, b);
      CommittersUpdate(s.committers, a.who, s'.committers[a.who], b);
    }
  }

  lemma {:induction false} RunAccounted(s: State, run: seq<Action>)
    requires Legal(s, run) && Accounted(s)
    ensures Accounted(After(s, run))
    decreases |run|
  {
    if run == [] {
    } else {
      StepAccounted(s, run[0]);
      RunAccounted(Next(s, run[0]), run[1..]);
    }
  }

  lemma {:induction false} LatestBlock(base: Store, committed: seq<Block>, i: nat)
    requires i < |committed| && forall j :: i < j < |committed| ==> committed[j].hash != committed[i].hash
    ensures BlockAt(base, committed, committed[i].hash) == Some(committed[i])
  {
    if i < |committed| - 1 {
      LatestBlock(base, committed[..|committed| - 1], i);
    }
  }

  /** The storage has a committed block under its hash, unless a later one has the same hash. */
  ghost predicate Found(store: Store, committed: seq<Block>, i: nat)
    requires i < |committed|
  {
    (forall j :: i < j < |committed| ==> committed[j].hash != committed[i].hash) ==>
      BlockOf(store, committed[i].hash) == Some(committed[i])
  }

  /**
    Each height is committed at most once, every committed block names the hash
    that the storage has one height below, the blocks and the number of
    transactions in the storage are those of the committed blocks, and the
    threads whose commit was accepted have committed exactly these blocks, one
    each.
   */
  ghost predicate Consistent(base: Store, f: State) {
    && (forall i :: 0 <= i < |f.committed| ==> Linked(base, f.store, f.committed, i) && Found(f.store, f.committed, i))
    && f.store.current == base.current + |f.committed|
    && Total(f.store) == Total(base) + Transactions(f.committed)
    && Accounted(f)
  }

  lemma InvIsConsistent(base: Store, f: State)
    requires Inv(base, f) && Accounted(f)
    ensures Consistent(base, f)
  {
    forall i | 0 <= i < |f.committed|
      ensures Linked(base, f.store, f.committed, i) && Found(f.store, f.committed, i)
    {
      ChainInStore(base, f.store, f.committed, i);
      if forall j :: i < j < |f.committed| ==> f.committed[j].hash != f.committed[i].hash {
        LatestBlock(base, f.committed, i);
      }
    }
  }

  lemma InitialInv(base: Store, s: State)
    requires base.current >= 0 && Initial(s, base)
    ensures Inv(base, s)
  {
  }

  /** However the threads interleave, the storage has a chain of the committed blocks. */
  lemma EveryRunCommitsAChain(base: Store, s: State, run: seq<Action>)
    requires base.current >= 0 && Initial(s, base) && Legal(s, run)
    ensures Consistent(base, After(s, run))
  {
    InitialInv(base, s);
    RunKeeps(base, s, run);
    forall b {
      NothingCommitted(s.committers, b);
    }
    RunAccounted(s, run);
    InvIsConsistent(base, After(s, run));
  }

  /** While a thread is inside the lock no other one is. */
  lemma OneInside(base: Store, s: State, run: seq<Action>, c: nat, d: nat)
    requires base.current >= 0 && Initial(s, base) && Legal(s, run)
    requires c < |After(s, run).committers| && d < |After(s, run).committers|
    ensures Inside(After(s, run).committers[c].pc) && Inside(After(s, run).committers[d].pc) ==> c == d
  {
    InitialInv(base, s);
    RunKeeps(base, s, run);
  }

  /** n steps of one thread; ok is whether the storage accepts. */
  function Alone(who: nat, ok: bool, n: nat): (run: seq<Action>)
    ensures |run| == n
  {
    if n == 0 then [] else [Step(who, ok)] + Alone(who, ok, n - 1)
  }

  /** The answer to a block, from what the storage has. */
  predicate RightAnswer(store: Store, b: Block, ok: bool, answer: CommitResult) {
    var next := b.number == store.current + 1;
    var child := b.parentHash == NumberHash(store, store.current);
    match answer
    case OK => next && child && ok
    case ERROR_NUMBER => !next
    case ERROR_PARENT_HASH => next && !child
    case ERROR_COMMITTING => next && child && !ok
  }

  /** f is s but for the call of thread who, which has been answered; only a block that is accepted is written. */
  ghost predicate Answered(s: State, f: State, who: nat, ok: bool) {
    && who < |s.committers| == |f.committers| && f.owner == None
    && (forall c :: 0 <= c < |s.committers| && c != who ==> f.committers[c] == s.committers[c])
    && f.committers[who].block == s.committers[who].block
    && f.committers[who].pc.Returned?
    && var answer, b := f.committers[who].pc.result, s.committers[who].block;
       && RightAnswer(s.store, b, ok, answer)
       && (answer == OK ==> f.committed == s.committed + [b] && f.number == b.number)
       && (answer != OK ==> f.committed == s.committed && f.store == s.store && f.number == s.store.current)
  }

  lemma StepFirst(s: State, who: nat, ok: bool, n: nat)
    requires n > 0 && Enabled(s, Step(who, ok)) && Legal(Next(s, Step(who, ok)), Alone(who, ok, n - 1))
    ensures Legal(s, Alone(who, ok, n))
    ensures After(s, Alone(who, ok, n)) == After(Next(s, Step(who, ok)), Alone(who, ok, n - 1))
  {
    assert Alone(who, ok, n)[1..] == Alone(who, ok, n - 1);
  }

  /** The answer from the lock on, where only the height is looked at again, and what it writes. */
  ghost predicate LateAnswered(s: State, f: State, who: nat, ok: bool) {
    && who < |s.committers| == |f.committers| && f.owner == None
    && (forall c :: 0 <= c < |s.committers| && c != who ==> f.committers[c] == s.committers[c])
    && var b := s.committers[who].block;
       var answer := if b.number != s.store.current + 1 then ERROR_PARENT_HASH else if ok then OK else ERROR_COMMITTING;
       && f.committers[who] == Committer(b, Returned(answer))
       && (answer == OK ==> f.committed == s.committed + [b] && f.number == b.number)
       && (answer != OK ==> f.committed == s.committed && f.store == s.store && f.number == s.store.current)
  }

  lemma LockedAlone(s: State, who: nat, ok: bool) returns (n: nat)
    requires s.owner == None && who < |s.committers| && s.committers[who].pc.Matched?
    requires s.number == s.store.current >= 0
    ensures Legal(s, Alone(who, ok, n)) && LateAnswered(s, After(s, Alone(who, ok, n)), who, ok)
  {
    var a := Step(who, ok);
    var s1 := Next(s, a);
    var s2 := Next(s1, a);
    if s.committers[who].block.number != s.store.current + 1 {
      n := 2;
    } else {
      var s3 := Next(s2, a);
      n := if ok then 4 else 3;
      if ok {
        StepFirst(s3, who, ok, 1);
      }
      StepFirst(s2, who, ok, n - 2);
    }
    StepFirst(s1, who, ok, n - 1);
    StepFirst(s, who, ok, n);
  }

  /**
    A thread that gets the lock, whatever the others did since it checked its
    block, is turned away if the height has moved on, and otherwise commits.
   */
  lemma AnswerAtTheLock(base: Store, s0: State, before: seq<Action>, who: nat, ok: bool) returns (n: nat)
    requires base.current >= 0 && Initial(s0, base) && Legal(s0, before)
    requires var s := After(s0, before);
             s.owner == None && who < |s.committers| && s.committers[who].pc.Matched?
    ensures var s := After(s0, before);
            Legal(s, Alone(who, ok, n)) && LateAnswered(s, After(s, Alone(who, ok, n)), who, ok)
  {
    InitialInv(base, s0);
    RunKeeps(base, s0, before);
    assert Sane(base, After(s0, before), After(s0, before).committers[who]);
    n := LockedAlone(After(s0, before), who, ok);
  }

  /** From the comparison of the hashes on. */
  lemma CheckedAlone(s: State, who: nat, ok: bool) returns (n: nat)
    requires s.owner == None && who < |s.committers| && s.committers[who].pc.Checked? && s.store.current >= 0
    requires s.number == s.store.current == s.committers[who].block.number - 1
    ensures Legal(s, Alone(who, ok, n)) && Answered(s, After(s, Alone(who, ok, n)), who, ok)
  {
    var a := Step(who, ok);
    var s1 := Next(s, a);
    var s2 := Next(s1, a);
    var m := 0;
    if s.committers[who].block.parentHash == NumberHash(s.store, s.store.current) {
      m := LockedAlone(s2, who, ok);
    }
    n := m + 2;
    StepFirst(s1, who, ok, m + 1);
    StepFirst(s, who, ok, m + 2);
  }

  /** The whole call, from the first check on. */
  lemma CallAlone(base: Store, s: State, who: nat, ok: bool) returns (n: nat)
    requires Inv(base, s) && s.owner == None && who < |s.committers| && s.committers[who].pc.Begin?
    ensures Legal(s, Alone(who, ok, n)) && Answered(s, After(s, Alone(who, ok, n)), who, ok)
  {
    var m := 0;
    if s.committers[who].block.number == s.store.current + 1 {
      m := CheckedAlone(Next(s, Step(who, ok)), who, ok);
    }
    n := m + 1;
    StepFirst(s, who, ok, n);
  }

  /**
    A call that no other thread interrupts is answered with OK, and its block
    appended, if and only if the block has the next height and names the hash at
    the current one and the storage accepts; otherwise the answer says which of
    these failed first, and nothing is written.
   */
  lemma UninterruptedCall(base: Store, s0: State, before: seq<Action>, who: nat, ok: bool) returns (n: nat)
    requires base.current >= 0 && Initial(s0, base) && Legal(s0, before)
    requires var s := After(s0, before);
             s.owner == None && who < |s.committers| && s.committers[who].pc.Begin?
    ensures var s := After(s0, before);
            Legal(s, Alone(who, ok, n)) && Answered(s, After(s, Alone(who, ok, n)), who, ok)
  {
    InitialInv(base, s0);
    RunKeeps(base, s0, before);
    n := CallAlone(base, After(s0, before), who, ok);
  }
}
