/** What stands at each position of the trees that cutting and keeping a path produce. */
module ProofContents {
  import opened Cells
  import opened BitStrings
  import opened HashPreservation
  import opened BlockUtils
  import opened ProofHashes
  import opened Paths
  import opened Grafting
  import opened Depths
  import opened SetValidators
  import opened Transactions
  import opened Results

  /** A level-1 pruned branch with the hash of `r` and its own depth, which is that of a tree but zero for a stub. */
  ghost predicate StandsFor(n: Cell, r: Cell) {
    && n.refs == [] && n.bits == [] && n.kind.Pruned? && n.kind.mask == LevelMask(true, false, false)
    && n.kind.hashes == [Hash0(r)] && |n.kind.depths| == 1
    && (r.kind.Pruned? ==> n.kind.depths[0] == 0)
    && (Finalized(r) && PlainStubs(r) && !r.kind.Pruned? ==> IsLongestWay(r, 0, n.kind.depths[0]))
    && (Whole(r) && NoMerkle(r) ==> IsLongestWay(r, 0, n.kind.depths[0]))
  }

  lemma FreshStubStandsFor(r: Cell)
    ensures StandsFor(FreshStub(r), r)
  {
    if Finalized(r) && PlainStubs(r) { DepthIsLongestWay(r); }
    if Whole(r) && NoMerkle(r) { WholeLongestWay(r); }
  }

  // -------------------------------------------------------------- the first byte

  const BYTE_ONE := [false, false, false, false, false, false, false, true]

  lemma ByteOneIsOne()
    ensures BitsToNat(BYTE_ONE) == 1
  {
    assert BYTE_ONE[..7] == [false, false, false, false, false, false, false];
    ZeroBits(BYTE_ONE[..7]);
  }

  /** The first byte is one exactly for these eight bits; fewer bits never read as one. */
  lemma FirstByteIsOne(bits: seq<bool>)
    ensures ReadUint8(bits) == 1 <==> BYTE_ONE <= bits
  {
    var byte := seq(8, i requires 0 <= i < 8 => i < |bits| && bits[i]);
    ByteOneIsOne();
    if ReadUint8(bits) == 1 {
      SameBits(byte, BYTE_ONE);
      assert byte[7] && |bits| >= 8;
      assert forall i | 0 <= i < 8 :: bits[i] == byte[i] == BYTE_ONE[i];
      assert bits[..8] == BYTE_ONE;
    }
    if BYTE_ONE <= bits {
      assert forall i | 0 <= i < 8 :: bits[i] == BYTE_ONE[i];
      assert byte == BYTE_ONE;
    }
  }

  // -------------------------------------------------------------- beside the path

  /** What a proof has for a reference that is not followed: pruned branches and look-alikes stay, all else is cut. */
  ghost predicate KeptOrCut(n: Cell, r: Cell) {
    if r.kind.Pruned? || (r.kind.Ordinary? && BYTE_ONE <= r.bits) then n == r else StandsFor(n, r)
  }

  /** Outside the cloned tail, every reference off the path is cut unless its first byte is that of a pruned branch. */
  lemma OffPathRef(path: seq<Cell>, cloneTail: bool, i: nat)
    requires path != [] && i < |path[0].refs|
    requires if |path| > 1 then Hash0(path[0].refs[i]) != Hash0(path[1]) else !cloneTail
    ensures KeptOrCut(ProofOf(path, cloneTail).refs[i], path[0].refs[i])
  {
    var r := path[0].refs[i];
    assert ProofOf(path, cloneTail).refs[i] == ProofRef(path, cloneTail, r);
    FirstByteIsOne(r.bits);
    FreshStubStandsFor(r);
  }

  /** Whatever has the hash of the next cell of the path, be it another cell, is replaced by the proof of the rest. */
  lemma OnPathRef(path: seq<Cell>, cloneTail: bool, i: nat)
    requires |path| > 1 && i < |path[0].refs| && Hash0(path[0].refs[i]) == Hash0(path[1])
    ensures var n := ProofOf(path, cloneTail).refs[i];
            n == ProofOf(path[1..], cloneTail) && n.kind == path[1].kind && n.bits == path[1].bits
  {
    assert ProofOf(path, cloneTail).refs[i] == ProofRef(path, cloneTail, path[0].refs[i]);
  }

  /** Below each position of the path stands the proof of the rest of the path. */
  lemma {:induction false} RestOfProof(c: Cell, a: Address, cloneTail: bool, k: nat)
    requires IsAddress(c, a) && k <= |a|
    ensures var n := ProofOf(Along(c, a), cloneTail);
            IsAddress(n, a[..k]) && At(n, a[..k]) == ProofOf(Along(c, a)[k..], cloneTail)
    decreases k
  {
    var path := Along(c, a);
    if k == 0 {
      assert path[0..] == path;
    } else {
      FollowsPath(c, a, cloneTail);
      RestOfProof(c.refs[a[0]], a[1..], cloneTail, k - 1);
      assert a[1..][..k - 1] == a[..k][1..] && path[1..] == Along(c.refs[a[0]], a[1..]);
      assert path[1..][k - 1..] == path[k..];
    }
  }

  /** At every position of the path, what branches off is cut, unless it is a pruned branch or looks like one. */
  lemma BesidePath(c: Cell, a: Address, cloneTail: bool, k: nat, i: nat)
    requires IsAddress(c, a) && k <= |a| && i < |Along(c, a)[k].refs|
    requires if k < |a| then Hash0(Along(c, a)[k].refs[i]) != Hash0(Along(c, a)[k + 1]) else !cloneTail
    ensures var n := ProofOf(Along(c, a), cloneTail);
            && IsAddress(n, a[..k]) && |At(n, a[..k]).refs| == |Along(c, a)[k].refs|
            && KeptOrCut(At(n, a[..k]).refs[i], Along(c, a)[k].refs[i])
  {
    RestOfProof(c, a, cloneTail, k);
    OffPathRef(Along(c, a)[k..], cloneTail, i);
  }

  /** The proof of a transaction has its cell with all references cut: what it refers to is stored beside the proof. */
  lemma BesideTransaction(root: Cell, txHash: Digest, a: Address, proof: TransactionProof, i: nat)
    requires IsProofFor(root, txHash, a, proof) && i < |proof.txBoc.refs|
    ensures var b := [3, 2] + a;
            && IsAddress(proof.boc, b) && |At(proof.boc, b).refs| == |proof.txBoc.refs|
            && KeptOrCut(At(proof.boc, b).refs[i], proof.txBoc.refs[i])
  {
    var b := [3, 2] + a;
    assert b == ACCOUNT_BLOCKS + a && b[..|b|] == b;
    BesidePath(root, b, false, |b|, i);
  }

  // ------------------------------------------------------------------ the cut tree

  /** None of the cells below the root on the way to the position has a listed hash. */
  predicate WayUncut(c: Cell, a: Address, listExcept: set<Digest>)
    requires IsAddress(c, a)
  {
    forall k | 0 < k <= |a| :: Hash0(Along(c, a)[k]) !in listExcept
  }

  /** Where no cell on the way is listed the cut tree has a copy; the first listed cell becomes a pruned branch. */
  lemma {:induction false} CutAt(c: Cell, a: Address, listExcept: set<Digest>)
    requires IsAddress(c, a) && WayUncut(c, a, listExcept)
    ensures var n := CutExcept(c, listExcept);
            && IsAddress(n, a) && At(n, a).kind == At(c, a).kind && At(n, a).bits == At(c, a).bits
            && |At(n, a).refs| == |At(c, a).refs|
            && forall i | 0 <= i < |At(c, a).refs| && Hash0(At(c, a).refs[i]) in listExcept ::
                 StandsFor(At(n, a).refs[i], At(c, a).refs[i])
    decreases |a|
  {
    var n := CutExcept(c, listExcept);
    if a == [] {
      forall i | 0 <= i < |c.refs| && Hash0(c.refs[i]) in listExcept
        ensures StandsFor(n.refs[i], c.refs[i])
      {
        assert n.refs[i] == CutRef(c.refs[i], listExcept);
        FreshStubStandsFor(c.refs[i]);
      }
    } else {
      var r := c.refs[a[0]];
      assert Along(c, a)[1] == r && forall k | 0 < k <= |a| - 1 :: Along(r, a[1..])[k] == Along(c, a)[k + 1];
      CutAt(r, a[1..], listExcept);
      assert n.refs[a[0]] == CutRef(r, listExcept);
    }
  }

  // ------------------------------------------------------------- the validators proof

  /**
   * Beside the way to the extra cell the proof has the root of the block info, with its references cut, and the other
   * references of the block cut as a whole.
   */
  lemma BesideExtra(root: Cell, param34: Cell -> Option<Digest>, proof: Cell)
    requires PathToConfig(root, param34).Some?
    requires proof == ValidatorsProof(root, PathToConfig(root, param34).value)
    ensures proof.kind == root.kind && proof.bits == root.bits && |proof.refs| == |root.refs|
    ensures var info := root.refs[0];
            && proof.refs[0].kind == info.kind && proof.refs[0].bits == info.bits
            && |proof.refs[0].refs| == |info.refs|
            && forall j | 0 <= j < |info.refs| :: KeptOrCut(proof.refs[0].refs[j], info.refs[j])
    ensures forall i | 0 < i < |root.refs| ::
              if Hash0(root.refs[i]) == Hash0(root.refs[3]) then proof.refs[i] == proof.refs[3]
              else KeptOrCut(proof.refs[i], root.refs[i])
  {
    var path := PathToConfig(root, param34).value;
    var _ := PathToConfigLeads(root, param34);
    forall j | 0 <= j < |root.refs[0].refs|
      ensures KeptOrCut(proof.refs[0].refs[j], root.refs[0].refs[j])
    {
      OffPathRef([root.refs[0]], false, j);
    }
    OnPathRef(path, true, 3);
    forall i | 0 < i < |root.refs|
      ensures if Hash0(root.refs[i]) == Hash0(root.refs[3]) then proof.refs[i] == proof.refs[3]
              else KeptOrCut(proof.refs[i], root.refs[i])
    {
      if Hash0(root.refs[i]) == Hash0(root.refs[3]) { OnPathRef(path, true, i); } else { OffPathRef(path, true, i); }
    }
  }

  /** With at most four references in the extra cell, the proof can be split exactly if there are four. */
  lemma SplitsExactly(root: Cell, param34: Cell -> Option<Digest>)
    requires PathToConfig(root, param34).Some? && |root.refs[3].refs| <= 4
    ensures HasConfig(ValidatorsProof(root, PathToConfig(root, param34).value)) <==> |root.refs[3].refs| == 4
  {
    var path := PathToConfig(root, param34).value;
    var proof := ValidatorsProof(root, path);
    var _ := PathToConfigExactly(root, param34);
    OnPathRef(path, true, 3);
    if |root.refs[3].refs| == 4 {
      OnPathRef(path[1..], true, 3);
      assert |proof.refs[3].refs[3].refs| == |path[2].refs|;
    }
  }
}
