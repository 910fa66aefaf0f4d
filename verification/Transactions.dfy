/** The proof of a transaction in a block. */
module Transactions {
  import opened Cells
  import opened BlockUtils
  import opened Paths
  import opened ProofHashes
  import opened Results

  datatype TransactionProof = TransactionProof(boc: Cell, txBoc: Cell)

  /** Where the block keeps its account blocks: the third reference of its extra cell. */
  const ACCOUNT_BLOCKS: Address := [3, 2]

  /** The proof keeps the path to the first cell of the account blocks with this hash, and that cell. */
  ghost predicate IsProofFor(root: Cell, txHash: Digest, a: Address, proof: TransactionProof) {
    && IsAddress(root, ACCOUNT_BLOCKS) && IsFirstWith(At(root, ACCOUNT_BLOCKS), txHash, a)
    && IsAddress(root, ACCOUNT_BLOCKS + a)
    && proof.txBoc == At(root, ACCOUNT_BLOCKS + a)
    && proof.boc == ProofOf(Along(root, ACCOUNT_BLOCKS + a), false)
  }

  /** The account blocks are the third reference of the fourth reference of the block. */
  lemma AccountBlocksAre(root: Cell)
    ensures IsAddress(root, ACCOUNT_BLOCKS) <==> |root.refs| > 3 && |root.refs[3].refs| > 2
    ensures IsAddress(root, ACCOUNT_BLOCKS) ==> At(root, ACCOUNT_BLOCKS) == root.refs[3].refs[2]
  {
    assert ACCOUNT_BLOCKS[1..] == [2] && [2][1..] == [];
    if |root.refs| > 3 && |root.refs[3].refs| > 2 { assert IsAddress(root.refs[3], [2]); }
  }

  /** Finds the transaction by its hash, and keeps the path to it and, separately, the transaction itself. */
  method FromBlock(root: Cell, txHash: Digest) returns (r: Result<TransactionProof>)
    ensures r.Ok? <==> IsAddress(root, ACCOUNT_BLOCKS) && HasHash(At(root, ACCOUNT_BLOCKS), txHash)
    ensures r.Ok? ==> exists a :: IsProofFor(root, txHash, a, r.value)
  {
    if |root.refs| <= 3 || |root.refs[3].refs| <= 2 {
      return Error("no account blocks");
    }
    var accounts := root.refs[3].refs[2];
    assert IsAddress(root, ACCOUNT_BLOCKS) && At(root, ACCOUNT_BLOCKS) == accounts by {
      assert ACCOUNT_BLOCKS[1..] == [2] && [2][1..] == [];
      assert IsAddress(root.refs[3], [2]);
    }
    var p := BuildPath(txHash, accounts);
    ghost var a := PathToFirst(accounts, txHash);
    if p.None? {
      return Error("ups!");
    }
    var path := [root, root.refs[3]] + p.value;
    AlongAccountBlocks(root, a);
    var proof := BuildProof(path, false);
    r := Ok(TransactionProof(proof.value, path[|path| - 1]));
    assert IsProofFor(root, txHash, a, r.value);
  }

  lemma AlongAccountBlocks(root: Cell, a: Address)
    requires |root.refs| > 3 && |root.refs[3].refs| > 2 && IsAddress(root.refs[3].refs[2], a)
    ensures IsAddress(root, ACCOUNT_BLOCKS + a)
    ensures Along(root, ACCOUNT_BLOCKS + a) == [root, root.refs[3]] + Along(root.refs[3].refs[2], a)
  {
    assert (ACCOUNT_BLOCKS + a)[1..] == [2] + a && ([2] + a)[1..] == a;
    assert IsAddress(root.refs[3], [2] + a);
    assert Along(root.refs[3], [2] + a) == [root.refs[3]] + Along(root.refs[3].refs[2], a);
  }

  /**
   * What is returned for a transaction: the stored cell has the hash that was asked for, and if the path is safe the
   * proof has the hash of the block and, at the transaction's place, a cell with that hash and the same contents.
   */
  lemma TransactionIsProven(root: Cell, txHash: Digest, a: Address, proof: TransactionProof)
    requires IsProofFor(root, txHash, a, proof)
    ensures Hash0(proof.txBoc) == txHash
    ensures SafePath(Along(root, ACCOUNT_BLOCKS + a), false) ==>
              && Hash0(proof.boc) == Hash0(root)
              && IsAddress(proof.boc, ACCOUNT_BLOCKS + a)
              && var tx := At(proof.boc, ACCOUNT_BLOCKS + a);
                 Hash0(tx) == txHash && tx.kind == proof.txBoc.kind && tx.bits == proof.txBoc.bits
  {
    var accounts := At(root, ACCOUNT_BLOCKS);
    assert ACCOUNT_BLOCKS[1..] == [2] && [2][1..] == [];
    assert IsAddress(root.refs[3], [2]) && accounts == root.refs[3].refs[2];
    AlongAccountBlocks(root, a);
    var b := ACCOUNT_BLOCKS + a;
    assert Along(root, b)[|b|] == Along(accounts, a)[|a|];
    if SafePath(Along(root, b), false) {
      ProofKeepsHashExactly(Along(root, b), false);
      LastOfProof(root, b);
      LastIsSafe(root, b);
      ProofKeepsHashExactly([At(root, b)], false);
    }
  }

  lemma {:induction false} LastIsSafe(c: Cell, a: Address)
    requires IsAddress(c, a) && SafePath(Along(c, a), false)
    ensures SafePath([At(c, a)], false)
    decreases |a|
  {
    if a != [] {
      var path, r := Along(c, a), c.refs[a[0]];
      assert path[1..] == Along(r, a[1..]) && OnPath(path, r);
      if c.kind.IsMerkle() {
        UntouchedBelow(r, a[1..]);
      } else {
        LastIsSafe(r, a[1..]);
      }
    }
  }

  /** Where a proof cuts nothing, it cuts nothing at the last cell of its path either. */
  lemma {:induction false} UntouchedBelow(c: Cell, a: Address)
    requires IsAddress(c, a) && ProofOf(Along(c, a), false) == c
    ensures SafePath([At(c, a)], false)
    decreases |a|
  {
    if a != [] {
      FollowsPath(c, a, false);
      UntouchedBelow(c.refs[a[0]], a[1..]);
    } else {
      PathUntouchedExactly([c], false);
    }
  }
}
