/**
  Class PartiallyBlock: a proposal that carries only the hashes of its
  transactions, and the exchange that fills in those a node does not have. Messages
  are given by their contents.
 */
module PartiallyBlock {
  import opened Prelude

  datatype Proposal<H> = Proposal(number: int, headerHash: H, txsHash: seq<H>, blockHash: H)

  datatype MissedInfo<H> = MissedInfo(number: int, hash: H, missed: seq<(H, nat)>)

  /** txs is None when the transactions in it do not decode. */
  datatype Response<H, Tx> = Response(number: int, hash: H, txs: Option<seq<Tx>>)

  datatype Error = InvalidNumber | ErrorBlockHash | InvalidTransaction

  /** Every slot that is filled has the announced transaction. */
  ghost predicate Announced<H, Tx>(sha3: Tx -> H, txsHash: seq<H>, slots: seq<Option<Tx>>) {
    |slots| == |txsHash| && forall i :: 0 <= i < |slots| && slots[i].Some? ==> sha3(slots[i].value) == txsHash[i]
  }

  /** Every slot is filled, with the announced transaction. */
  ghost predicate Complete<H, Tx>(sha3: Tx -> H, txsHash: seq<H>, slots: seq<Option<Tx>>) {
    Announced(sha3, txsHash, slots) && forall i :: 0 <= i < |slots| ==> slots[i].Some?
  }

  /** Slots are named with their announced hashes. */
  ghost predicate Names<H>(missed: seq<(H, nat)>, txsHash: seq<H>) {
    forall k :: 0 <= k < |missed| ==> missed[k].1 < |txsHash| && missed[k].0 == txsHash[missed[k].1]
  }

  /** Every slot that is empty is named from k on. */
  ghost predicate Covers<H, Tx>(missed: seq<(H, nat)>, slots: seq<Option<Tx>>, k: nat) {
    forall i :: 0 <= i < |slots| && slots[i].None? ==> NamedFrom(missed, k, i)
  }

  ghost predicate NamedFrom<H>(missed: seq<(H, nat)>, k: nat, i: nat) {
    exists j :: k <= j < |missed| && missed[j].1 == i
  }

  /** The first k missed slots are filled. */
  function Filled<H, Tx>(slots: seq<Option<Tx>>, missed: seq<(H, nat)>, txs: seq<Tx>, k: nat): (r: seq<Option<Tx>>)
    requires k <= |missed| && k <= |txs| && forall j :: 0 <= j < |missed| ==> missed[j].1 < |slots|
    ensures |r| == |slots|
  {
    if k == 0 then slots else Filled(slots, missed, txs, k - 1)[missed[k - 1].1 := Some(txs[k - 1])]
  }

  /** The transactions have the hashes that were asked for. */
  ghost predicate Matches<H, Tx>(sha3: Tx -> H, missed: seq<(H, nat)>, txs: seq<Tx>, k: nat) {
    k <= |missed| && k <= |txs| && forall j :: 0 <= j < k ==> sha3(txs[j]) == missed[j].0
  }

  lemma FillOne<H, Tx>(
      sha3: Tx -> H, txsHash: seq<H>, slots: seq<Option<Tx>>, missed: seq<(H, nat)>, k: nat, tx: Tx)
    requires Announced(sha3, txsHash, slots) && Names(missed, txsHash) && Covers(missed, slots, k)
    requires k < |missed| && sha3(tx) == missed[k].0
    ensures var filled := slots[missed[k].1 := Some(tx)];
            Announced(sha3, txsHash, filled) && Covers(missed, filled, k + 1)
  {
    var filled := slots[missed[k].1 := Some(tx)];
    forall i | 0 <= i < |filled| && filled[i].None?
      ensures NamedFrom(missed, k + 1, i)
    {
      assert NamedFrom(missed, k, i);
    }
  }

  /** std::vector::resize. */
  function Resized<T>(s: seq<T>, n: nat, fill: T): (r: seq<T>)
    ensures |r| == n
  {
    if n <= |s| then s[..n] else s + seq(n - |s|, _ => fill)
  }

  class PartiallyBlock<H(==), Tx> {
    const sha3: Tx -> H
    const noHash: H
    var number: int
    var headerHash: H
    var txsHash: seq<H>
    var transactions: seq<Option<Tx>>
    var missedTxs: seq<(H, nat)>
    var missedTransactions: seq<Tx>

    constructor (sha3: Tx -> H, noHash: H, number: int, headerHash: H)
      ensures this.sha3 == sha3 && this.noHash == noHash && this.number == number && this.headerHash == headerHash
      ensures txsHash == [] && transactions == [] && missedTxs == [] && missedTransactions == []
    {
      this.sha3, this.noHash, this.number, this.headerHash := sha3, noHash, number, headerHash;
      txsHash, transactions, missedTxs, missedTransactions := [], [], [], [];
    }

    /** The hashes of the transactions, computed in any order. */
    method CalTxsHashBytes()
      requires forall i :: 0 <= i < |transactions| ==> transactions[i].Some?
      modifies `txsHash
      ensures Complete(sha3, txsHash, transactions)
    {
      txsHash := Resized(txsHash, |transactions|, noHash);
      var todo: set<nat> := Below(|transactions|);
      while todo != {}
        modifies `txsHash
        invariant |txsHash| == |transactions| && forall i :: i in todo ==> i < |transactions|
        invariant forall i: nat :: i < |transactions| && i !in todo ==> sha3(transactions[i].value) == txsHash[i]
        decreases |todo|
      {
        var i :| i in todo;
        txsHash := txsHash[i := sha3(transactions[i].value)];
        todo := todo - {i};
      }
    }

    /** encodeProposal with hashes only. */
    method EncodeProposal() returns (p: Proposal<H>)
      requires forall i :: 0 <= i < |transactions| ==> transactions[i].Some?
      modifies `txsHash
      ensures Complete(sha3, p.txsHash, transactions) && p.txsHash == txsHash
      ensures p.number == number && p.headerHash == p.blockHash == headerHash
    {
      CalTxsHashBytes();
      p := Proposal(number, headerHash, txsHash, headerHash);
    }

    /** decodeProposal with hashes only: as many slots as hashes, all empty in a fresh block. */
    method DecodeProposal(p: Proposal<H>) returns (r: Result<(), Error>)
      modifies this
      ensures number == p.number && headerHash == p.headerHash && txsHash == p.txsHash
      ensures missedTxs == old(missedTxs) && missedTransactions == old(missedTransactions)
      ensures p.blockHash != p.headerHash ==> r == Err(ErrorBlockHash) && transactions == old(transactions)
      ensures p.blockHash == p.headerHash ==> r == Ok(()) && |transactions| == |p.txsHash|
      ensures p.blockHash == p.headerHash ==>
                forall i :: 0 <= i < |transactions| ==>
                              transactions[i] == if i < |old(transactions)| then old(transactions)[i] else None
    {
      number, headerHash, txsHash := p.number, p.headerHash, p.txsHash;
      if p.blockHash != headerHash {
        return Err(ErrorBlockHash);
      }
      transactions := Resized(transactions, |txsHash|, None);
      return Ok(());
    }

    function CheckBasic(number: int, hash: H, expectedHash: H): Option<Error>
      reads `number
    {
      if number != this.number then Some(InvalidNumber)
      else if hash != expectedHash then Some(ErrorBlockHash)
      else None
    }

    /** The first thing that is wrong: the number, the hash, or a transaction. */
    ghost predicate IsError(error: Error, number: int, hash: H, expectedHash: H)
      reads `number
    {
      match error
      case InvalidNumber => number != this.number
      case ErrorBlockHash => number == this.number && hash != expectedHash
      case InvalidTransaction => number == this.number && hash == expectedHash
    }

    method EncodeMissedInfo() returns (info: MissedInfo<H>)
      requires missedTxs != []
      ensures info == MissedInfo(number, headerHash, missedTxs)
    {
      info := MissedInfo(number, headerHash, missedTxs);
    }

    /** The node that has the block answers with the transactions that are asked for, if they have those hashes. */
    method FetchMissedTxs(info: MissedInfo<H>, expectedHash: H) returns (r: Result<Response<H, Tx>, Error>)
      requires forall j :: 0 <= j < |info.missed| ==>
                 info.missed[j].1 < |transactions| && transactions[info.missed[j].1].Some?
      ensures r.Ok? <==> info.number == number && info.hash == expectedHash &&
                         forall j :: 0 <= j < |info.missed| ==>
                           sha3(transactions[info.missed[j].1].value) == info.missed[j].0
      ensures r.Err? ==> IsError(r.error, info.number, info.hash, expectedHash)
      ensures r.Ok? ==> r.value.number == number && r.value.hash == expectedHash && r.value.txs.Some?
      ensures r.Ok? ==> |r.value.txs.value| == |info.missed| &&
                        Matches(sha3, info.missed, r.value.txs.value, |info.missed|)
    {
      var error := CheckBasic(info.number, info.hash, expectedHash);
      if error.Some? {
        return Err(error.value);
      }
      var found := [];
      for j := 0 to |info.missed|
        invariant |found| == j && Matches(sha3, info.missed, found, j)
        invariant forall i :: 0 <= i < j ==> sha3(transactions[info.missed[i].1].value) == info.missed[i].0
      {
        var tx := transactions[info.missed[j].1].value;
        if sha3(tx) != info.missed[j].0 {
          return Err(InvalidTransaction);
        }
        found := found + [tx];
      }
      return Ok(Response(number, expectedHash, Some(found)));
    }

    /**
      The missed list names the empty slots with their announced hashes. A
      response is accepted exactly when it has the transactions that are missing;
      then every slot has the announced transaction. A response that is rejected
      puts no other transaction into any slot.
     */
    method FillBlock(resp: Response<H, Tx>) returns (r: Result<(), Error>)
      requires Announced(sha3, txsHash, transactions) && Names(missedTxs, txsHash) && Covers(missedTxs, transactions, 0)
      modifies `transactions, `missedTransactions
      ensures r.Ok? <==>
              && resp.number == number && resp.hash == headerHash && resp.txs.Some?
              && |resp.txs.value| == |missedTxs| && Matches(sha3, missedTxs, resp.txs.value, |missedTxs|)
      ensures r.Err? ==> IsError(r.error, resp.number, resp.hash, headerHash)
      ensures r.Ok? ==> Complete(sha3, txsHash, transactions)
      ensures r.Ok? ==> transactions == Filled(old(transactions), missedTxs, resp.txs.value, |missedTxs|)
      ensures Announced(sha3, txsHash, transactions)
      ensures forall i :: 0 <= i < |transactions| && !NamedFrom(missedTxs, 0, i) ==>
                transactions[i] == old(transactions)[i]
    {
      missedTransactions := [];
      var error := CheckBasic(resp.number, resp.hash, headerHash);
      if error.Some? {
        return Err(error.value);
      }
      if resp.txs.None? {
        return Err(InvalidTransaction);
      }
      missedTransactions := resp.txs.value;
      if |missedTransactions| != |missedTxs| {
        return Err(InvalidTransaction);
      }
      for index := 0 to |missedTransactions|
        modifies `transactions
        invariant Announced(sha3, txsHash, transactions) && Covers(missedTxs, transactions, index)
        invariant Matches(sha3, missedTxs, missedTransactions, index)
        invariant transactions == Filled(old(transactions), missedTxs, missedTransactions, index)
        invariant forall i :: 0 <= i < |transactions| && !NamedFrom(missedTxs, 0, i) ==>
                    transactions[i] == old(transactions)[i]
      {
        var tx := missedTransactions[index];
        if sha3(tx) != missedTxs[index].0 {
          return Err(InvalidTransaction);
        }
        FillOne(sha3, txsHash, transactions, missedTxs, index, tx);
        assert NamedFrom(missedTxs, 0, missedTxs[index].1);
        transactions := transactions[missedTxs[index].1 := Some(tx)];
      }
      return Ok(());
    }
  }

  /**
    The whole exchange between a leader that has the block and a follower. The
    transaction pool of the follower puts the transactions it has into hits and
    lists the slots that it leaves empty. The exchange succeeds, and the follower
    ends with a transaction of the announced hash in every slot.
   */
  method Exchange<H(==), Tx>(
      leader: PartiallyBlock<H, Tx>, follower: PartiallyBlock<H, Tx>, hits: seq<Option<Tx>>, missed: seq<(H, nat)>)
    returns (r: Result<(), Error>)
    requires leader != follower && leader.sha3 == follower.sha3 && follower.transactions == []
    requires forall i :: 0 <= i < |leader.transactions| ==> leader.transactions[i].Some?
    requires |hits| == |leader.transactions|
    requires forall i :: 0 <= i < |hits| && hits[i].Some? ==>
               leader.sha3(hits[i].value) == leader.sha3(leader.transactions[i].value)
    requires forall k :: 0 <= k < |missed| ==>
               missed[k].1 < |hits| && missed[k].0 == leader.sha3(leader.transactions[missed[k].1].value)
    requires Covers(missed, hits, 0)
    modifies leader`txsHash, follower
    ensures r.Ok? && |follower.transactions| == |leader.transactions|
    ensures forall i :: 0 <= i < |follower.transactions| ==>
              && follower.transactions[i].Some?
              && leader.sha3(follower.transactions[i].value) == leader.sha3(leader.transactions[i].value)
  {
    var proposal := leader.EncodeProposal();
    r := follower.DecodeProposal(proposal);
    follower.transactions, follower.missedTxs := hits, missed;
    if missed != [] {
      var info := follower.EncodeMissedInfo();
      var resp := leader.FetchMissedTxs(info, leader.headerHash);
      r := follower.FillBlock(resp.value);
    }
  }
}
