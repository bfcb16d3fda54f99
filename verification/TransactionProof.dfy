/** The Merkle tree over the transactions of a block, and the proof that a transaction is in the block. */
module TransactionProof {
  import opened Prelude
  import opened BigEndian
  import opened RlpFormat
  import opened RlpReader
  import opened RlpWriter
  import M = MerkleTree
  import P = MerkleProof

  /** The leaf of transaction i: an item that reads as the 32-bit number i, and behind it the hash. */
  ghost predicate IsLeaf(leaf: Bytes, i: nat, hash: Bytes) {
    match SizeAsEncoded(leaf)
    case Ok(k) => ToInt(leaf[..k], 4) == Ok(i) && leaf[k..] == hash
    case Err(_) => false
  }

  ghost predicate AreLeaves(leaves: seq<Bytes>, hashes: seq<Bytes>) {
    |leaves| == |hashes| && forall i :: 0 <= i < |leaves| ==> IsLeaf(leaves[i], i, hashes[i])
  }

  lemma IndexBytes(i: nat)
    requires i < 0x1_0000_0000
    ensures |Compact(i)| <= 4 && i < Pow256(4)
  {
    CompactLength(i, 4);
    assert Pow256(4) == 0x1_0000_0000;
  }

  /** The encoding of an index with a hash behind it is a leaf. */
  lemma EncodedIndexIsLeaf(i: nat, hash: Bytes)
    requires i < 0x1_0000_0000
    ensures |Compact(i)| <= 4 && IsLeaf(EncodeData(Compact(i)) + hash, i, hash)
  {
    IndexBytes(i);
    DataReads(Compact(i), hash);
    TakeAppend(EncodeData(Compact(i)), hash);
    IntRoundTrip(i, Compact(i), 4);
  }

  /** A leaf is nothing else. */
  lemma LeafIsEncodedIndex(leaf: Bytes, i: nat, hash: Bytes)
    requires IsLeaf(leaf, i, hash)
    ensures |Compact(i)| < SIZE && leaf == EncodeData(Compact(i)) + hash
  {
    var k := SizeAsEncoded(leaf).value;
    SizeOfPrefix(leaf);
    IntCanonical(leaf[..k], 4);
    TakeDrop(leaf, k);
  }

  /** A leaf is not empty, and leaves at different places or of different hashes are different. */
  lemma LeavesDiffer(x: Bytes, i: nat, a: Bytes, y: Bytes, j: nat, b: Bytes)
    requires IsLeaf(x, i, a) && IsLeaf(y, j, b)
    ensures x != [] && (x == y <==> i == j && a == b)
  {
    LeafIsEncodedIndex(x, i, a);
    LeafIsEncodedIndex(y, j, b);
  }

  /** The index through an RLP stream, and the hash behind it. */
  method MakeLeaf(i: nat, hash: Bytes) returns (leaf: Bytes)
    requires i < 0x1_0000_0000
    ensures IsLeaf(leaf, i, hash)
  {
    EncodedIndexIsLeaf(i, hash);
    var s := new RlpStream();
    var ok := s.AppendInt(i);
    assert [] + EncodeData(Compact(i)) == EncodeData(Compact(i));
    leaf := s.out + hash;
  }

  /** The leaves are made in any order. */
  method MakeLeaves(hashes: seq<Bytes>) returns (leaves: seq<Bytes>)
    requires |hashes| < 0x1_0000_0000
    ensures AreLeaves(leaves, hashes)
  {
    var list := new Bytes[|hashes|](_ => []);
    var todo: set<nat> := Below(|hashes|);
    while todo != {}
      invariant forall i :: i in todo ==> i < |hashes|
      invariant forall i: nat :: i < |hashes| && i !in todo ==> IsLeaf(list[i], i, hashes[i])
      decreases |todo|
    {
      var i :| i in todo;
      list[i] := MakeLeaf(i, hashes[i]);
      todo := todo - {i};
    }
    return list[..];
  }

  method CalTransactionRoot(h: Hash, hashes: seq<Bytes>) returns (root: Bytes, ghost leaves: seq<Bytes>)
    requires |hashes| < 0x1_0000_0000
    ensures AreLeaves(leaves, hashes) && root == M.Root(h, leaves)
  {
    var list := MakeLeaves(hashes);
    leaves := list;
    root := M.GetHash256(h, list);
  }

  /**
    The proof that a block gives for a transaction hashes, from the leaf of the
    transaction, to the transactions root of the block. No two nodes of the tree
    may be equal; for the leaves that is always so.
   */
  method GetTransactionProof(h: Hash, hashes: seq<Bytes>, k: nat)
    returns (root: Bytes, proof: P.Proof, ghost leaves: seq<Bytes>)
    requires IsHash(h) && k < |hashes| < 0x1_0000_0000
    requires forall leaves :: AreLeaves(leaves, hashes) ==> P.DistinctTree(h, leaves)
    ensures AreLeaves(leaves, hashes) && root == M.Root(h, leaves)
    ensures P.Fold(h, leaves[k], proof) == root
  {
    var list := MakeLeaves(hashes);
    leaves := list;
    root := M.GetHash256(h, list);
    LeavesDiffer(list[k], k, hashes[k], list[k], k, hashes[k]);
    proof := P.ProveTransaction(h, list, k);
  }
}
