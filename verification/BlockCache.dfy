/**
  The cache of recent blocks, and reads of blocks by hash while other threads
  read and commit. A block is anything that has a hash.
 */
module BlockCache {
  import opened Prelude
  import ChainCommit

  type H256 = ChainCommit.H256
  type Block = ChainCommit.Block

  const CACHE_SIZE: nat := 10

  /** The map and the queue of hashes in the order in which they were added. */
  datatype Content = Content(blocks: map<H256, Block>, fifo: seq<H256>)

  /** At most one block more than the size, and every one is in the queue. */
  ghost predicate Fit(c: Content) {
    |c.blocks| <= CACHE_SIZE + 1 && forall h :: h in c.blocks ==> h in c.fifo
  }

  /** The oldest hash is dropped when the map is over its size; the rest of it too, if that did not help. */
  function Trimmed(c: Content): Content
    requires |c.blocks| > CACHE_SIZE ==> c.fifo != []
  {
    if |c.blocks| <= CACHE_SIZE then c
    else
      var blocks := c.blocks - {c.fifo[0]};
      if |blocks| > CACHE_SIZE then Content(map[], []) else Content(blocks, c.fifo[1..])
  }

  /** A block whose hash is there already does not replace the one in the map, but goes into the queue. */
  function Added(c: Content, b: Block): Content
    requires |c.blocks| > CACHE_SIZE ==> c.fifo != []
  {
    var t := Trimmed(c);
    Content(if b.hash in t.blocks then t.blocks else t.blocks[b.hash := b], t.fifo + [b.hash])
  }

  lemma FitNotEmpty(c: Content)
    requires Fit(c) && |c.blocks| > CACHE_SIZE
    ensures c.fifo != []
  {
    assert |c.blocks| == |c.blocks.Keys|;
    var h :| h in c.blocks.Keys;
  }

  lemma TrimmedFits(c: Content)
    requires Fit(c)
    ensures |c.blocks| > CACHE_SIZE ==> c.fifo != []
    ensures var t := Trimmed(c);
            && |t.blocks| <= CACHE_SIZE && (forall h :: h in t.blocks ==> h in t.fifo)
            && forall h :: h in t.blocks ==> h in c.blocks && t.blocks[h] == c.blocks[h]
  {
    if |c.blocks| > CACHE_SIZE {
      FitNotEmpty(c);
      forall h | h in c.blocks && h != c.fifo[0]
        ensures h in c.fifo[1..]
      {
        assert h in c.fifo && c.fifo == [c.fifo[0]] + c.fifo[1..];
      }
    }
  }

  lemma InsertedSize(m: map<H256, Block>, b: Block)
    requires b.hash !in m
    ensures |m[b.hash := b]| == |m| + 1
  {
    assert m[b.hash := b].Keys == m.Keys + {b.hash};
    assert |m[b.hash := b]| == |m[b.hash := b].Keys| && |m| == |m.Keys|;
  }

  /** Adding keeps the cache in shape, also when the same block is added again and again. */
  lemma AddedFits(c: Content, b: Block)
    requires Fit(c)
    ensures |c.blocks| > CACHE_SIZE ==> c.fifo != []
    ensures Fit(Added(c, b)) && b.hash in Added(c, b).blocks
    ensures forall h :: h in Added(c, b).blocks ==>
              (h == b.hash && h !in Trimmed(c).blocks && Added(c, b).blocks[h] == b) ||
              (h in c.blocks && Added(c, b).blocks[h] == c.blocks[h])
  {
    TrimmedFits(c);
    if b.hash !in Trimmed(c).blocks {
      InsertedSize(Trimmed(c).blocks, b);
    }
  }

  /**
    What stays in the cache when a block is added: everything, up to ten blocks;
    with eleven, everything but the oldest hash, or nothing if that one was gone.
   */
  lemma AddedKeeps(c: Content, b: Block, k: H256)
    requires Fit(c) && k in c.blocks
    ensures |c.blocks| > CACHE_SIZE ==> c.fifo != []
    ensures k in Added(c, b).blocks <==>
            || k == b.hash || |c.blocks| <= 10
            || (c.fifo[0] in c.blocks && k != c.fifo[0])
  {
    TrimmedFits(c);
    if |c.blocks| > CACHE_SIZE {
      var rest := c.blocks - {c.fifo[0]};
      assert rest.Keys == c.blocks.Keys - {c.fifo[0]};
      assert |rest| == |rest.Keys| && |c.blocks| == |c.blocks.Keys|;
    }
  }

  class Cache {
    var blockCache: map<H256, Block>
    var blockCacheFIFO: seq<H256>

    ghost function View(): Content
      reads this
    {
      Content(blockCache, blockCacheFIFO)
    }

    constructor ()
      ensures View() == Content(map[], [])
    {
      blockCache, blockCacheFIFO := map[], [];
    }

    /** The lock is held from the beginning to the end. */
    method Add(block: Block) returns (r: Block)
      requires Fit(View())
      modifies this
      ensures |old(blockCache)| > CACHE_SIZE ==> old(blockCacheFIFO) != []
      ensures View() == Added(old(View()), block) && Fit(View()) && r == block
    {
      AddedFits(View(), block);
      if |blockCache| > CACHE_SIZE {
        var firstHash := blockCacheFIFO[0];
        blockCacheFIFO := blockCacheFIFO[1..];
        blockCache := blockCache - {firstHash};
        if |blockCache| > CACHE_SIZE {
          blockCache, blockCacheFIFO := map[], [];
        }
      }
      if block.hash !in blockCache {
        blockCache := blockCache[block.hash := block];
      }
      blockCacheFIFO := blockCacheFIFO + [block.hash];
      return block;
    }

    method Get(hash: H256) returns (r: Option<Block>)
      ensures r == if hash in blockCache then Some(blockCache[hash]) else None
    {
      if hash !in blockCache {
        return None;
      }
      return Some(blockCache[hash]);
    }

    /** getBlock when no other thread comes in between; blocks is the table of the storage. */
    method GetBlock(hash: H256, blocks: map<H256, Block>) returns (r: Option<Block>)
      requires Fit(View()) && Agrees(View(), blocks) && Keyed(blocks)
      modifies this
      ensures r == Stored(blocks, hash) && Fit(View()) && Agrees(View(), blocks)
      ensures hash in old(blockCache) || hash !in blocks ==> View() == old(View())
      ensures hash !in old(blockCache) && hash in blocks ==> hash in blockCache && hash in blockCacheFIFO
    {
      var cached := Get(hash);
      if cached.Some? {
        return cached;
      }
      if hash !in blocks {
        return None;
      }
      AddedFits(View(), blocks[hash]);
      var block := Add(blocks[hash]);
      return Some(block);
    }
  }

  /** What the storage has under a hash. */
  function Stored(blocks: map<H256, Block>, hash: H256): Option<Block> {
    if hash in blocks then Some(blocks[hash]) else None
  }

  ghost predicate Keyed(blocks: map<H256, Block>) {
    forall h :: h in blocks ==> blocks[h].hash == h
  }

  /** Everything in the cache is in the storage. */
  ghost predicate Agrees(c: Content, blocks: map<H256, Block>) {
    forall h :: h in c.blocks ==> h in blocks && blocks[h] == c.blocks[h]
  }

  /** A call of getBlock; known is what the storage had when it began, which the code never looks at. */
  datatype Call = Call(hash: H256, known: Option<Block>)

  /** Where a thread is. */
  datatype Pc =
    | Idle
    | Looking(call: Call)                        // about to look in the cache
    | Reading(call: Call)                        // not in the cache: about to read the storage
    | Adding(call: Call, b: Block)               // about to add what the storage had
    | Answered(call: Call, answer: Option<Block>)
    | Caching(b: Block)                          // a commit has reached the storage: about to add its block

  datatype World = World(blocks: map<H256, Block>, cache: Content, threads: seq<Pc>)

  datatype Event =
    | Begin(t: nat, h: H256)
    | Persist(t: nat, b: Block)
    | Step(t: nat)

  /** A hash in the storage stays that of one block. */
  predicate Possible(w: World, e: Event) {
    && e.t < |w.threads|
    && match e
       case Begin(t, _) => w.threads[t].Idle?
       case Persist(t, b) => w.threads[t].Idle? && (b.hash in w.blocks ==> w.blocks[b.hash] == b)
       case Step(t) => !w.threads[t].Idle?
  }

  /** What a thread holds is in the storage, and an answer is right. */
  ghost predicate Sound(blocks: map<H256, Block>, pc: Pc) {
    match pc
    case Idle => true
    case Looking(call) => StillThere(blocks, call)
    case Reading(call) => StillThere(blocks, call)
    case Adding(call, b) => StillThere(blocks, call) && call.hash == b.hash && Stored(blocks, b.hash) == Some(b)
    case Answered(call, answer) => StillThere(blocks, call) && RightAnswer(blocks, call, answer)
    case Caching(b) => Stored(blocks, b.hash) == Some(b)
  }

  ghost predicate StillThere(blocks: map<H256, Block>, call: Call) {
    call.known.Some? ==> Stored(blocks, call.hash) == call.known
  }

  /** The answer is what the storage has; or it is that there is nothing, and when the call began there was nothing. */
  ghost predicate RightAnswer(blocks: map<H256, Block>, call: Call, answer: Option<Block>) {
    answer == Stored(blocks, call.hash) || (answer.None? && call.known.None?)
  }

  ghost predicate Good(w: World) {
    && Fit(w.cache) && Keyed(w.blocks) && Agrees(w.cache, w.blocks)
    && forall t :: 0 <= t < |w.threads| ==> Sound(w.blocks, w.threads[t])
  }

  function Goto(w: World, t: nat, pc: Pc): World
    requires t < |w.threads|
  {
    w.(threads := w.threads[t := pc])
  }

  ghost function Happens(w: World, e: Event): World
    requires Good(w) && Possible(w, e)
  {
    match e
    case Begin(t, h) => Goto(w, t, Looking(Call(h, Stored(w.blocks, h))))
    case Persist(t, b) => Goto(w, t, Caching(b)).(blocks := w.blocks[b.hash := b])
    case Step(t) =>
      match w.threads[t]
      case Looking(call) =>
        Goto(w, t, if call.hash in w.cache.blocks then Answered(call, Some(w.cache.blocks[call.hash]))
                   else Reading(call))
      case Reading(call) =>
        Goto(w, t, if call.hash in w.blocks then Adding(call, w.blocks[call.hash]) else Answered(call, None))
      case Adding(call, b) =>
        AddedFits(w.cache, b);
        Goto(w, t, Answered(call, Some(b))).(cache := Added(w.cache, b))
      case Answered(_, _) => Goto(w, t, Idle)
      case Caching(b) =>
        AddedFits(w.cache, b);
        Goto(w, t, Idle).(cache := Added(w.cache, b))
  }

  lemma PersistGood(w: World, t: nat, b: Block)
    requires Good(w) && Possible(w, Persist(t, b))
    ensures Good(Happens(w, Persist(t, b)))
  {
    var w' := Happens(w, Persist(t, b));
    forall u | 0 <= u < |w'.threads|
      ensures Sound(w'.blocks, w'.threads[u])
    {
      assert Sound(w.blocks, w.threads[u]);
    }
  }

  lemma AddGood(w: World, t: nat)
    requires Good(w) && Possible(w, Step(t)) && (w.threads[t].Adding? || w.threads[t].Caching?)
    ensures Good(Happens(w, Step(t)))
  {
    assert Sound(w.blocks, w.threads[t]);
    AddedFits(w.cache, w.threads[t].b);
  }

  lemma HappensGood(w: World, e: Event)
    requires Good(w) && Possible(w, e)
    ensures Good(Happens(w, e))
  {
    if e.Persist? {
      PersistGood(w, e.t, e.b);
    } else if e.Step? && (w.threads[e.t].Adding? || w.threads[e.t].Caching?) {
      AddGood(w, e.t);
    } else {
      assert Sound(w.blocks, w.threads[e.t]);
    }
  }

  ghost predicate Legal(w: World, run: seq<Event>)
    requires Good(w)
    decreases |run|
  {
    run == [] || (Possible(w, run[0]) && (HappensGood(w, run[0]); Legal(Happens(w, run[0]), run[1..])))
  }

  ghost function After(w: World, run: seq<Event>): World
    requires Good(w) && Legal(w, run)
    decreases |run|
  {
    if run == [] then w
    else
      HappensGood(w, run[0]);
      After(Happens(w, run[0]), run[1..])
  }

  lemma {:induction false} RunGood(w: World, run: seq<Event>)
    requires Good(w) && Legal(w, run)
    ensures Good(After(w, run))
    decreases |run|
  {
    if run == [] {
    } else {
      HappensGood(w, run[0]);
      RunGood(Happens(w, run[0]), run[1..]);
    }
  }

  lemma Then(w: World, e: Event, rest: seq<Event>) returns (run: seq<Event>)
    requires Good(w) && Possible(w, e) && Good(Happens(w, e)) && Legal(Happens(w, e), rest)
    ensures Legal(w, run) && After(w, run) == After(Happens(w, e), rest)
  {
    run := [e] + rest;
    assert run[1..] == rest;
  }

  /**
    A read that no other thread interrupts: what is in the cache is answered
    without a change of the cache; what is only in the storage is in the cache
    afterwards.
   */
  lemma UninterruptedRead(w: World, t: nat, h: H256) returns (run: seq<Event>)
    requires Good(w) && t < |w.threads| && w.threads[t].Idle?
    ensures Legal(w, run)
    ensures var f := After(w, run);
            && |f.threads| == |w.threads| && f.blocks == w.blocks
            && f.threads[t] == Answered(Call(h, Stored(w.blocks, h)), Stored(w.blocks, h))
            && (h in w.cache.blocks || h !in w.blocks ==> f.cache == w.cache)
            && (h in w.blocks ==> h in f.cache.blocks)
  {
    var w1 := Happens(w, Begin(t, h));
    HappensGood(w, Begin(t, h));
    if h in w.cache.blocks {
      var r1 := Then(w1, Step(t), []);
      run := Then(w, Begin(t, h), r1);
    } else {
      var w2 := Happens(w1, Step(t));
      HappensGood(w1, Step(t));
      var w3 := Happens(w2, Step(t));
      HappensGood(w2, Step(t));
      var r3 := [];
      if h in w.blocks {
        AddedFits(w3.cache, w.blocks[h]);
        r3 := Then(w3, Step(t), []);
      }
      var r2 := Then(w2, Step(t), r3);
      var r1 := Then(w1, Step(t), r2);
      run := Then(w, Begin(t, h), r1);
    }
  }

  /** After a commit that no other thread interrupts its block is in the storage and in the cache. */
  lemma UninterruptedCommit(w: World, t: nat, b: Block) returns (run: seq<Event>)
    requires Good(w) && Possible(w, Persist(t, b))
    ensures Legal(w, run)
    ensures var f := After(w, run);
            Stored(f.blocks, b.hash) == Some(b) && b.hash in f.cache.blocks && f.cache.blocks[b.hash] == b
  {
    var w1 := Happens(w, Persist(t, b));
    HappensGood(w, Persist(t, b));
    AddedFits(w1.cache, b);
    HappensGood(w1, Step(t));
    var r1 := Then(w1, Step(t), []);
    run := Then(w, Persist(t, b), r1);
  }

  /** The cache is empty, and no thread has begun. */
  ghost predicate Start(w: World) {
    Keyed(w.blocks) && w.cache == Content(map[], []) && forall t :: 0 <= t < |w.threads| ==> w.threads[t].Idle?
  }

  /**
    However commits and reads interleave, a read by hash answers, from the cache
    or not, the block that the storage has when it returns; it answers that there
    is none only if there was none when it began. The cache stays in shape.
   */
  lemma CacheInvisible(w: World, run: seq<Event>, t: nat)
    requires Start(w) && Legal(w, run) && t < |After(w, run).threads| && After(w, run).threads[t].Answered?
    ensures var f := After(w, run);
            var call, answer := f.threads[t].call, f.threads[t].answer;
            && |f.cache.blocks| <= 11 && (forall k :: k in f.cache.blocks ==> k in f.cache.fifo)
            && (answer.Some? ==> answer == Stored(f.blocks, call.hash))
            && (call.known.Some? ==> answer == call.known == Stored(f.blocks, call.hash))
  {
    RunGood(w, run);
    assert Sound(After(w, run).blocks, After(w, run).threads[t]);
  }
}
