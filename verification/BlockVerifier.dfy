/**
  serialExecuteBlock and the processing of the receipts after the transactions
  of a block have been executed, serially or in parallel.
 */
module BlockVerifier {
  import opened Prelude
  import opened Conflicts
  import opened Scheduler
  import opened Serializability
  import opened ParallelExecution

  const U256_SIZE: nat := 0x1_0000000000000000_0000000000000000_0000000000000000_0000000000000000
  const V2_2_0: nat := 0x02020000

  /** gasUsed is an unsigned 256-bit number; body stands for the fields that are not touched. */
  datatype Receipt<Hash, Body> = Receipt(gasUsed: nat, stateRoot: Hash, body: Body)

  /** The loop of serialExecuteBlock over the transactions; states are those between them. */
  method SerialExecute<S, R>(cfg: Config<S, R>, s: S) returns (world: World<S, R>, ghost states: seq<S>)
    ensures world == Serial(cfg, s) && BlockInTurn(cfg, s, states, world)
  {
    world := World(s, seq(|cfg.out|, _ => None));
    ghost var start := world;
    assert Ascending(0) == [];
    for i := 0 to |cfg.out|
      invariant world == RunInOrder(cfg, start, Ascending(i))
    {
      world := Apply(cfg, world, i);
      assert Ascending(i + 1)[..i] == Ascending(i);
    }
    states := SerialInTurn(cfg, s);
  }

  /** What updateSequenceReceiptGas makes of receipts when total is used before them. */
  function CumulativeGas<H, B>(rs: seq<Receipt<H, B>>, total: nat): (r: seq<Receipt<H, B>>)
    ensures |r| == |rs|
  {
    if rs == [] then []
    else
      var sum := (total + rs[0].gasUsed) % U256_SIZE;
      [rs[0].(gasUsed := sum)] + CumulativeGas(rs[1..], sum)
  }

  method UpdateSequenceReceiptGas<H, B>(receipts: array<Receipt<H, B>>)
    modifies receipts
    ensures receipts[..] == CumulativeGas(old(receipts[..]), 0)
  {
    var totalGas: nat := 0;
    ghost var all := receipts[..];
    assert all[0..] == all;
    for i := 0 to receipts.Length
      modifies receipts
      invariant receipts[i..] == all[i..]
      invariant CumulativeGas(all, 0) == receipts[..i] + CumulativeGas(all[i..], totalGas)
    {
      assert receipts[i] == receipts[i..][0] == all[i..][0] && all[i..][1..] == all[i + 1..];
      ghost var done := receipts[..i];
      totalGas := (totalGas + receipts[i].gasUsed) % U256_SIZE;
      receipts[i] := receipts[i].(gasUsed := totalGas);
      assert receipts[..i + 1] == done + [receipts[i]];
      assert receipts[i + 1..] == all[i + 1..];
    }
  }

  function GasBefore<H, B>(rs: seq<Receipt<H, B>>): nat {
    if rs == [] then 0 else GasBefore(rs[..|rs| - 1]) + rs[|rs| - 1].gasUsed
  }

  lemma {:induction false} GasCons<H, B>(rs: seq<Receipt<H, B>>)
    requires rs != []
    ensures GasBefore(rs) == rs[0].gasUsed + GasBefore(rs[1..])
  {
    if |rs| > 1 {
      GasCons(rs[..|rs| - 1]);
      assert rs[1..][..|rs| - 2] == rs[..|rs| - 1][1..];
    }
  }

  /** The gas of a receipt is the sum over all receipts up to it, modulo 2^256. */
  lemma {:induction false} CumulativeGasIsPrefixSum<H, B>(rs: seq<Receipt<H, B>>, total: nat, i: nat)
    requires i < |rs|
    ensures CumulativeGas(rs, total)[i]
         == rs[i].(gasUsed := (total + GasBefore(rs[..i + 1])) % U256_SIZE)
  {
    var sum := (total + rs[0].gasUsed) % U256_SIZE;
    if i == 0 {
      assert rs[..1][..0] == [];
    } else {
      CumulativeGasIsPrefixSum(rs[1..], sum, i - 1);
      GasCons(rs[..i + 1]);
      assert rs[..i + 1][1..] == rs[1..][..i];
      ModAdd(total + rs[0].gasUsed, GasBefore(rs[1..][..i]));
    }
  }

  lemma ModAdd(a: nat, b: nat)
    ensures (a % U256_SIZE + b) % U256_SIZE == (a + b) % U256_SIZE
  {
  }

  function WithRoot<H, B>(rs: seq<Receipt<H, B>>, root: H): seq<Receipt<H, B>> {
    seq(|rs|, i requires 0 <= i < |rs| => rs[i].(stateRoot := root))
  }

  /** Receipts as serialExecuteBlock leaves them: before 2.2.0 the state root is not written into them. */
  function SerialReceipts<H, B>(version: nat, rs: seq<Receipt<H, B>>, root: H): seq<Receipt<H, B>> {
    CumulativeGas(if version >= V2_2_0 then WithRoot(rs, root) else rs, 0)
  }

  /** Receipts as parallelExecuteBlock leaves them. */
  function ParallelReceipts<H, B>(rs: seq<Receipt<H, B>>, root: H): seq<Receipt<H, B>> {
    CumulativeGas(WithRoot(rs, root), 0)
  }

  /** The two agree exactly from 2.2.0 on, or when every receipt carries the final root anyway. */
  lemma ReceiptsAgreeExactly<H, B>(version: nat, rs: seq<Receipt<H, B>>, root: H)
    ensures SerialReceipts(version, rs, root) == ParallelReceipts(rs, root)
       <==> version >= V2_2_0 || forall i :: 0 <= i < |rs| ==> rs[i].stateRoot == root
  {
    forall i: nat | i < |rs|
      ensures ParallelReceipts(rs, root)[i].stateRoot == root
      ensures version < V2_2_0 ==> SerialReceipts(version, rs, root)[i].stateRoot == rs[i].stateRoot
    {
      CumulativeGasIsPrefixSum(WithRoot(rs, root), 0, i);
      CumulativeGasIsPrefixSum(rs, 0, i);
    }
    if forall i :: 0 <= i < |rs| ==> rs[i].stateRoot == root {
      assert WithRoot(rs, root) == rs;
    }
  }

  function Values<T>(rs: seq<Option<T>>): seq<T>
    requires forall i :: 0 <= i < |rs| ==> rs[i].Some?
  {
    seq(|rs|, i requires 0 <= i < |rs| => rs[i].value)
  }

  /**
    A receipt as a finished block has it: the gas of all transactions up to it,
    modulo 2^256, the final state root, and otherwise what its execution gave.
   */
  ghost predicate FinalReceipt<H, B>(rs: seq<Receipt<H, B>>, root: H, final: Receipt<H, B>, i: nat)
    requires i < |rs|
  {
    && final.gasUsed == GasBefore(rs[..i + 1]) % U256_SIZE
    && final.stateRoot == root && final.body == rs[i].body
  }

  lemma {:induction false} GasWithRoot<H, B>(rs: seq<Receipt<H, B>>, root: H, i: nat)
    requires i <= |rs|
    ensures GasBefore(WithRoot(rs, root)[..i]) == GasBefore(rs[..i])
  {
    if i == 0 {
    } else {
      GasWithRoot(rs, root, i - 1);
      assert rs[..i][..i - 1] == rs[..i - 1] && WithRoot(rs, root)[..i][..i - 1] == WithRoot(rs, root)[..i - 1];
    }
  }

  lemma ParallelReceiptsFinal<H, B>(rs: seq<Receipt<H, B>>, root: H, i: nat)
    requires i < |rs|
    ensures |ParallelReceipts(rs, root)| == |rs| && FinalReceipt(rs, root, ParallelReceipts(rs, root)[i], i)
  {
    CumulativeGasIsPrefixSum(WithRoot(rs, root), 0, i);
    GasWithRoot(rs, root, i + 1);
  }

  /** setStateRootToAllReceipt. */
  method SetStateRootToAllReceipt<H, B>(receipts: array<Receipt<H, B>>, root: H)
    modifies receipts
    ensures receipts[..] == WithRoot(old(receipts[..]), root)
  {
    for i := 0 to receipts.Length
      modifies receipts
      invariant forall j :: 0 <= j < i ==> receipts[j] == old(receipts[j]).(stateRoot := root)
      invariant receipts[i..] == old(receipts[i..])
    {
      assert receipts[i] == receipts[i..][0] == old(receipts[i]);
      receipts[i] := receipts[i].(stateRoot := root);
      assert receipts[i + 1..] == old(receipts[i + 1..]);
    }
  }

  /** The end of serialExecuteBlock from 2.2.0 on, and of parallelExecuteBlock. */
  method FinishReceipts<H, B>(receipts: array<Receipt<H, B>>, root: H)
    modifies receipts
    ensures receipts[..] == ParallelReceipts(old(receipts[..]), root)
    ensures forall i :: 0 <= i < receipts.Length ==> FinalReceipt(old(receipts[..]), root, receipts[i], i)
  {
    SetStateRootToAllReceipt(receipts, root);
    UpdateSequenceReceiptGas(receipts);
    forall i: nat | i < receipts.Length
      ensures FinalReceipt(old(receipts[..]), root, receipts[i], i)
    {
      ParallelReceiptsFinal(old(receipts[..]), root, i);
      assert receipts[i] == receipts[..][i];
    }
  }

  /**
    From 2.2.0 on a block executed in parallel ends with the state of the
    serial loop and, at every index, with the receipt of the serial loop:
    same cumulative gas, same state root, same body.
   */
  lemma ParallelBlockEqualsSerialBlock<K(!new), S(!new), H, B>(
      cfg: Config<S, Receipt<H, B>>, cs: seq<Criticals<K>>, deg: seq<nat>, threads: nat, s: S, run: seq<Action>,
      rootHash: S -> H, version: nat)
    returns (states: seq<S>)
    requires Run(cfg, cs, deg, threads, s, run) && NonConflictingCommute(cfg, cs)
    requires version >= V2_2_0
    requires var f := End(cfg, cs, deg, threads, s, run);
             forall w :: 0 <= w < |f.workers| ==> f.workers[w].pc.Exited?
    requires threads > 0
    ensures BlockInTurn(cfg, s, states, Serial(cfg, s))
    ensures BlockInTurn(cfg, s, states, End(cfg, cs, deg, threads, s, run).world)
    ensures var parallel, serial := End(cfg, cs, deg, threads, s, run).world, Serial(cfg, s);
            var rs, root := Values(parallel.receipts), rootHash(parallel.state);
            && parallel.state == serial.state
            && ParallelReceipts(rs, root) == SerialReceipts(version, Values(serial.receipts), rootHash(serial.state))
            && |ParallelReceipts(rs, root)| == |rs| == |cs|
            && forall i :: 0 <= i < |cs| ==> FinalReceipt(rs, root, ParallelReceipts(rs, root)[i], i)
  {
    WorkersKept(cfg, Initial(cfg, deg, threads, s), run);
    assert End(cfg, cs, deg, threads, s, run).workers[0].pc.Exited?;
    states := Serializable(cfg, cs, deg, threads, s, run);
    var rs, root := Values(Serial(cfg, s).receipts), rootHash(Serial(cfg, s).state);
    ReceiptsAgreeExactly(version, rs, root);
    forall i: nat | i < |cs|
      ensures FinalReceipt(rs, root, ParallelReceipts(rs, root)[i], i)
    {
      ParallelReceiptsFinal(rs, root, i);
    }
  }
}
