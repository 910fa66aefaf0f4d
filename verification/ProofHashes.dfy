/** The trees that the relayer cuts, and exactly which of them still have the hash of the tree they come from. */
module ProofHashes {
  import opened Cells
  import opened HashPreservation
  import opened BlockUtils

  // -------------------------------------------------- cutting listed hashes

  /** Cutting the listed hashes changes nothing in `c`. */
  predicate Untouched(c: Cell, listExcept: set<Digest>) {
    forall i | 0 <= i < |c.refs| ::
      if Hash0(c.refs[i]) in listExcept then FreshStub(c.refs[i]) == c.refs[i] else Untouched(c.refs[i], listExcept)
  }

  /** Nothing is cut below a Merkle cell, and no pruned branch is cut again unless its depth is zero. */
  predicate SafeToCut(c: Cell, listExcept: set<Digest>) {
    if c.kind.IsMerkle() then Untouched(c, listExcept)
    else
      forall i | 0 <= i < |c.refs| ::
        if Hash0(c.refs[i]) in listExcept then OwnDepth(c.refs[i]) == Depth0(c.refs[i])
        else SafeToCut(c.refs[i], listExcept)
  }

  lemma {:induction false} CutIsPruning(c: Cell, listExcept: set<Digest>)
    ensures IsPruning(c, CutExcept(c, listExcept))
    decreases c
  {
    forall i | 0 <= i < |c.refs|
      ensures IsPruning(c.refs[i], CutRef(c.refs[i], listExcept))
    {
      CutIsPruning(c.refs[i], listExcept);
    }
  }

  lemma {:induction false} UntouchedExactly(c: Cell, listExcept: set<Digest>)
    ensures Untouched(c, listExcept) <==> CutExcept(c, listExcept) == c
    decreases c
  {
    var n := CutExcept(c, listExcept);
    forall i | 0 <= i < |c.refs|
      ensures n.refs[i] == CutRef(c.refs[i], listExcept)
      ensures Untouched(c.refs[i], listExcept) <==> CutExcept(c.refs[i], listExcept) == c.refs[i]
    {
      UntouchedExactly(c.refs[i], listExcept);
    }
    if Untouched(c, listExcept) { assert n.refs == c.refs; }
  }

  lemma {:induction false} SafeToCutExactly(c: Cell, listExcept: set<Digest>)
    ensures SafeToCut(c, listExcept) <==> KeepsHash(c, CutExcept(c, listExcept))
    decreases c
  {
    UntouchedExactly(c, listExcept);
    var n := CutExcept(c, listExcept);
    if !c.kind.IsMerkle() {
      forall i | 0 <= i < |c.refs|
        ensures n.refs[i] == CutRef(c.refs[i], listExcept)
        ensures (if Hash0(c.refs[i]) in listExcept then OwnDepth(c.refs[i]) == Depth0(c.refs[i])
                 else SafeToCut(c.refs[i], listExcept)) <==> KeepsHash(c.refs[i], n.refs[i])
      {
        SafeToCutExactly(c.refs[i], listExcept);
        StubKeepsHashExactly(c.refs[i]);
      }
    }
  }

  lemma StubKeepsHashExactly(c: Cell)
    ensures KeepsHash(c, FreshStub(c)) <==> OwnDepth(c) == Depth0(c)
  {
    if KeepsHash(c, FreshStub(c)) && FreshStub(c).kind == c.kind {
      assert Depth0(c) == 0;
    }
  }

  lemma HashFixesDepth(c: Cell, n: Cell)
    requires n.kind == c.kind && |n.refs| == |c.refs| && Hash0(n) == Hash0(c)
    ensures Depth0(n) == Depth0(c)
  {
    if !c.kind.Pruned? {
      NodeDigest(c);
      NodeDigest(n);
    }
  }

  /** Cutting keeps the root hash and depth exactly when it is safe to cut. */
  lemma CutKeepsHashExactly(c: Cell, listExcept: set<Digest>)
    ensures SafeToCut(c, listExcept) ==>
              Hash0(CutExcept(c, listExcept)) == Hash0(c) && Depth0(CutExcept(c, listExcept)) == Depth0(c)
    ensures Plain(c) && Hash0(CutExcept(c, listExcept)) == Hash0(c) ==> SafeToCut(c, listExcept)
  {
    var n := CutExcept(c, listExcept);
    SafeToCutExactly(c, listExcept);
    if SafeToCut(c, listExcept) {
      PruningKeepsHash(c, n);
    }
    if Plain(c) && Hash0(n) == Hash0(c) {
      CutIsPruning(c, listExcept);
      HashFixesDepth(c, n);
      KeepsHashExactly(c, n);
    }
  }

  /** A pruned branch of depth three that is cut again is written with depth zero, and the root hash is lost. */
  lemma RecutStubLosesRootHash(h: Digest)
    ensures var c := Cell(Ordinary, [], [Cell(Pruned(LEVEL_ONE, [h], [3]), [], [])]);
            Finalized(c) && Plain(c) && Hash0(CutExcept(c, {h})) != Hash0(c)
  {
    var stub := Cell(Pruned(LEVEL_ONE, [h], [3]), [], []);
    var c := Cell(Ordinary, [], [stub]);
    assert Hash0(c.refs[0]) == h && OwnDepth(stub) == 0 && Depth0(stub) == 3;
    assert Finalized(stub) && Plain(stub);
    assert !SafeToCut(c, {h});
    CutKeepsHashExactly(c, {h});
  }

  // -------------------------------------------------- keeping a path of cells

  /** The reference stays as it is without being followed. */
  predicate StaysWhole(path: seq<Cell>, cloneTail: bool, r: Cell) {
    (cloneTail && |path| == 1) || StartsWithOne(r)
  }

  /** What is not followed stays whole, and what is followed already is the proof of the rest of the path. */
  predicate PathUntouched(path: seq<Cell>, cloneTail: bool)
    requires path != []
  {
    forall i | 0 <= i < |path[0].refs| ::
      if OnPath(path, path[0].refs[i]) then ProofOf(path[1..], cloneTail) == path[0].refs[i]
      else StaysWhole(path, cloneTail, path[0].refs[i])
  }

  /**
   * Nothing is changed at a Merkle cell; elsewhere what is followed has the depth of the next cell of the path, and
   * the rest of the path is safe if anything is followed.
   */
  predicate SafePath(path: seq<Cell>, cloneTail: bool)
    requires path != []
    decreases |path|
  {
    if path[0].kind.IsMerkle() then PathUntouched(path, cloneTail)
    else
      forall i | 0 <= i < |path[0].refs| && OnPath(path, path[0].refs[i]) ::
        Depth0(path[0].refs[i]) == Depth0(path[1]) && SafePath(path[1..], cloneTail)
  }

  lemma RefUntouchedExactly(path: seq<Cell>, cloneTail: bool, r: Cell)
    requires path != []
    ensures ProofRef(path, cloneTail, r) == r <==>
            if OnPath(path, r) then ProofOf(path[1..], cloneTail) == r else StaysWhole(path, cloneTail, r)
  {
  }

  /** Building a proof gives the first cell of the path itself exactly when nothing is cut or replaced. */
  lemma PathUntouchedExactly(path: seq<Cell>, cloneTail: bool)
    requires path != []
    ensures PathUntouched(path, cloneTail) <==> ProofOf(path, cloneTail) == path[0]
  {
    var c, n := path[0], ProofOf(path, cloneTail);
    forall i | 0 <= i < |c.refs|
      ensures n.refs[i] == c.refs[i] <==>
              if OnPath(path, c.refs[i]) then ProofOf(path[1..], cloneTail) == c.refs[i]
              else StaysWhole(path, cloneTail, c.refs[i])
    {
      RefUntouchedExactly(path, cloneTail, c.refs[i]);
    }
    if PathUntouched(path, cloneTail) { assert n.refs == c.refs; }
  }

  lemma {:induction false} SafeProofKeepsHash(path: seq<Cell>, cloneTail: bool)
    requires path != [] && SafePath(path, cloneTail)
    ensures Hash0(ProofOf(path, cloneTail)) == Hash0(path[0]) && Depth0(ProofOf(path, cloneTail)) == Depth0(path[0])
    decreases |path|
  {
    var c, n := path[0], ProofOf(path, cloneTail);
    if c.kind.IsMerkle() {
      PathUntouchedExactly(path, cloneTail);
    } else if !c.kind.Pruned? {
      forall i | 0 <= i < |c.refs|
        ensures Hash0(n.refs[i]) == Hash0(c.refs[i]) && Depth0(n.refs[i]) == Depth0(c.refs[i])
      {
        assert n.refs[i] == ProofRef(path, cloneTail, c.refs[i]);
        if OnPath(path, c.refs[i]) { SafeProofKeepsHash(path[1..], cloneTail); }
      }
      assert RefDepths(n, 0) == RefDepths(c, 0) && RefHashes(n, 0) == RefHashes(c, 0);
    }
  }

  predicate AllPlain(path: seq<Cell>) {
    forall k | 0 <= k < |path| :: Plain(path[k])
  }

  lemma {:induction false} ProofIsPlain(path: seq<Cell>, cloneTail: bool)
    requires path != [] && AllPlain(path)
    ensures Plain(ProofOf(path, cloneTail))
    decreases |path|
  {
    forall i | 0 <= i < |path[0].refs|
      ensures Plain(ProofRef(path, cloneTail, path[0].refs[i]))
    {
      assert Plain(path[0]) && Plain(path[0].refs[i]);
      if OnPath(path, path[0].refs[i]) { ProofIsPlain(path[1..], cloneTail); }
    }
  }

  lemma {:induction false} KeptHashIsSafe(path: seq<Cell>, cloneTail: bool)
    requires path != [] && AllPlain(path) && Hash0(ProofOf(path, cloneTail)) == Hash0(path[0])
    ensures SafePath(path, cloneTail)
    decreases |path|
  {
    var c, n := path[0], ProofOf(path, cloneTail);
    assert Plain(c);
    if !c.kind.Pruned? {
      NodeDigest(c);
      NodeDigest(n);
      var z := c.kind.ChildLevel(0);
      forall i | 0 <= i < |c.refs|
        ensures if z == 1 then n.refs[i] == c.refs[i]
                else OnPath(path, c.refs[i]) ==> Depth0(c.refs[i]) == Depth0(path[1]) && SafePath(path[1..], cloneTail)
      {
        assert RefHashes(n, z)[i] == RefHashes(c, z)[i] && RefDepths(n, z)[i] == RefDepths(c, z)[i];
        if z == 1 {
          ProofIsPlain(path, cloneTail);
          UpperHashDetermines(c.refs[i], n.refs[i], 1);
        } else if OnPath(path, c.refs[i]) {
          KeptHashIsSafe(path[1..], cloneTail);
          SafeProofKeepsHash(path[1..], cloneTail);
        }
      }
      if z == 1 {
        assert n.refs == c.refs;
        PathUntouchedExactly(path, cloneTail);
      }
    }
  }

  /** A proof keeps the hash, and the depth, of the first cell of its path exactly when the path is safe. */
  lemma ProofKeepsHashExactly(path: seq<Cell>, cloneTail: bool)
    requires path != []
    ensures SafePath(path, cloneTail) ==>
              && Hash0(ProofOf(path, cloneTail)) == Hash0(path[0])
              && Depth0(ProofOf(path, cloneTail)) == Depth0(path[0])
    ensures AllPlain(path) && Hash0(ProofOf(path, cloneTail)) == Hash0(path[0]) ==> SafePath(path, cloneTail)
  {
    if SafePath(path, cloneTail) { SafeProofKeepsHash(path, cloneTail); }
    if AllPlain(path) && Hash0(ProofOf(path, cloneTail)) == Hash0(path[0]) { KeptHashIsSafe(path, cloneTail); }
  }

  /** References with the hash of the next cell of the path have its depth, too. */
  predicate DepthsAgree(path: seq<Cell>)
    decreases |path|
  {
    |path| > 1 ==>
      && (forall i | 0 <= i < |path[0].refs| && OnPath(path, path[0].refs[i]) ::
            Depth0(path[0].refs[i]) == Depth0(path[1]))
      && DepthsAgree(path[1..])
  }

  lemma {:induction false} OrdinaryPathIsSafe(path: seq<Cell>, cloneTail: bool)
    requires path != [] && DepthsAgree(path) && forall k | 0 <= k < |path| :: !path[k].kind.IsMerkle()
    ensures SafePath(path, cloneTail)
    decreases |path|
  {
    if |path| > 1 {
      assert forall k | 0 <= k < |path[1..]| :: path[1..][k] == path[k + 1];
      OrdinaryPathIsSafe(path[1..], cloneTail);
    }
  }

  /**
   * The proof of a new state hash keeps the block root and its Merkle update and cuts below the update,
   * so unless both states are kept whole its root hash is not the hash of the block.
   */
  lemma StateHashProofLosesRootHash(root: Cell, update: Cell, i: nat, j: nat)
    requires Finalized(root) && PlainStubs(root) && !root.kind.IsMerkle()
    requires i < |root.refs| && root.refs[i] == update && update.kind.MerkleUpdate?
    requires j < |update.refs| && !StartsWithOne(update.refs[j])
    ensures Hash0(ProofOf([root, update], false)) != Hash0(root)
  {
    var path := [root, update];
    assert path[1..] == [update];
    FinalizedIsPlain(root);
    assert AllPlain(path);
    ProofKeepsHashExactly(path, false);
    assert OnPath(path, root.refs[i]);
    assert !OnPath([update], update.refs[j]) && !StaysWhole([update], false, update.refs[j]);
    assert !PathUntouched([update], false);
  }

  // -------------------------------------------------- a cut tree is accepted again

  lemma {:induction false} PruningIsFinalized(c: Cell, n: Cell)
    requires KeepsHash(c, n) && Finalized(c)
    ensures Finalized(n)
    decreases c
  {
    if n != c && n != FreshStub(c) {
      forall i | 0 <= i < |c.refs|
        ensures Finalized(n.refs[i])
      {
        PruningIsFinalized(c.refs[i], n.refs[i]);
      }
    }
  }

  lemma {:induction false} ProofIsFinalized(path: seq<Cell>, cloneTail: bool)
    requires path != [] && SafePath(path, cloneTail) && forall k | 0 <= k < |path| :: Finalized(path[k])
    ensures Finalized(ProofOf(path, cloneTail))
    decreases |path|
  {
    var c, n := path[0], ProofOf(path, cloneTail);
    if c.kind.IsMerkle() {
      PathUntouchedExactly(path, cloneTail);
    } else {
      forall i | 0 <= i < |c.refs|
        ensures Finalized(n.refs[i])
      {
        assert n.refs[i] == ProofRef(path, cloneTail, c.refs[i]);
        assert Finalized(c.refs[i]) && Finalized(FreshStub(c.refs[i]));
        if OnPath(path, c.refs[i]) { ProofIsFinalized(path[1..], cloneTail); }
      }
    }
  }
}
