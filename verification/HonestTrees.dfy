/** Trees whose pruned branches store the right depths: what cutting them does to their hashes, and grafting undoes. */
module HonestTrees {
  import opened Cells
  import opened HashPreservation
  import opened BlockUtils
  import opened ProofHashes
  import opened Grafting

  // ------------------------------------------------------ depths in pruned branches

  /** The depth that belongs to a level-0 hash. */
  function DigestDepth(d: Digest): nat {
    if d.depths == [] then 0 else 1 + MaxOf(d.depths)
  }

  /** Down to Merkle cells, the depths that were hashed belong to the hashes beside them. */
  predicate RightDepths(d: Digest) {
    || (d.content.Own? && d.content.kind.IsMerkle())
    || (&& |d.depths| == |d.children|
        && forall i | 0 <= i < |d.children| :: d.depths[i] == DigestDepth(d.children[i]) && RightDepths(d.children[i]))
  }

  /** Every pruned branch stores the hash and the depth of a tree that it could stand for. */
  predicate Honest(c: Cell) {
    && (c.kind.Pruned? ==> Depth0(c) == DigestDepth(Hash0(c)) && RightDepths(Hash0(c)))
    && forall i | 0 <= i < |c.refs| :: Honest(c.refs[i])
  }

  lemma DepthOfDigest(c: Cell)
    requires !c.kind.Pruned?
    ensures Depth0(c) == DigestDepth(Hash0(c))
  {
    NodeDigest(c);
    assert |RefDepths(c, c.kind.ChildLevel(0))| == |c.refs|;
  }

  lemma HonestDepth(c: Cell)
    requires Honest(c)
    ensures Depth0(c) == DigestDepth(Hash0(c))
  {
    if !c.kind.Pruned? { DepthOfDigest(c); }
  }

  /** One cell above references that have right depths. */
  lemma RightDepthsAbove(c: Cell)
    requires !c.kind.Pruned?
    requires c.kind.IsMerkle() || forall i | 0 <= i < |c.refs| ::
               Depth0(c.refs[i]) == DigestDepth(Hash0(c.refs[i])) && RightDepths(Hash0(c.refs[i]))
    ensures RightDepths(Hash0(c))
  {
    NodeDigest(c);
    if !c.kind.IsMerkle() {
      forall i | 0 <= i < |c.refs|
        ensures RefDepths(c, 0)[i] == DigestDepth(RefHashes(c, 0)[i]) && RightDepths(RefHashes(c, 0)[i])
      {
        assert RefDepths(c, 0)[i] == Depth0(c.refs[i]) && RefHashes(c, 0)[i] == Hash0(c.refs[i]);
      }
    }
  }

  lemma {:induction false} HonestHasRightDepths(c: Cell)
    requires Honest(c)
    ensures RightDepths(Hash0(c))
    decreases c
  {
    if !c.kind.Pruned? {
      forall i | 0 <= i < |c.refs|
        ensures Depth0(c.refs[i]) == DigestDepth(Hash0(c.refs[i])) && RightDepths(Hash0(c.refs[i]))
      {
        HonestDepth(c.refs[i]);
        HonestHasRightDepths(c.refs[i]);
      }
      RightDepthsAbove(c);
    }
  }

  lemma {:induction false} WholeHasRightDepths(c: Cell)
    requires Whole(c)
    ensures RightDepths(Hash0(c))
    decreases c
  {
    if !c.kind.IsMerkle() {
      forall i | 0 <= i < |c.refs|
        ensures Depth0(c.refs[i]) == DigestDepth(Hash0(c.refs[i])) && RightDepths(Hash0(c.refs[i]))
      {
        DepthOfDigest(c.refs[i]);
        WholeHasRightDepths(c.refs[i]);
      }
    }
    RightDepthsAbove(c);
  }

  lemma {:induction false} WholeIsHonest(c: Cell)
    requires Whole(c) && NoMerkle(c)
    ensures Honest(c)
    decreases c
  {
    forall i | 0 <= i < |c.refs|
      ensures Honest(c.refs[i])
    {
      WholeIsHonest(c.refs[i]);
    }
  }

  lemma FreshStubIsHonest(c: Cell)
    requires !c.kind.Pruned? && RightDepths(Hash0(c))
    ensures Honest(FreshStub(c)) && NoMerkle(FreshStub(c))
  {
    DepthOfDigest(c);
  }

  predicate AllWhole(path: seq<Cell>) {
    forall k | 0 <= k < |path| :: Whole(path[k])
  }

  /** A proof built from whole cells stores the right depths. */
  lemma {:induction false} ProofIsHonest(path: seq<Cell>, cloneTail: bool)
    requires path != [] && AllWhole(path) && NoMerkle(ProofOf(path, cloneTail))
    ensures Honest(ProofOf(path, cloneTail))
    decreases |path|
  {
    var c, n := path[0], ProofOf(path, cloneTail);
    forall i | 0 <= i < |c.refs|
      ensures Honest(n.refs[i])
    {
      assert n.refs[i] == ProofRef(path, cloneTail, c.refs[i]) && NoMerkle(n.refs[i]);
      assert Whole(c) && Whole(c.refs[i]);
      if OnPath(path, c.refs[i]) {
        ProofIsHonest(path[1..], cloneTail);
      } else if StaysWhole(path, cloneTail, c.refs[i]) {
        WholeIsHonest(c.refs[i]);
      } else {
        WholeHasRightDepths(c.refs[i]);
        FreshStubIsHonest(c.refs[i]);
      }
    }
  }

  // ------------------------------------------------------------------- cutting

  /** No pruned branch that is reached is cut again. */
  predicate NoStubCut(c: Cell, listExcept: set<Digest>) {
    forall i | 0 <= i < |c.refs| ::
      if Hash0(c.refs[i]) in listExcept then !c.refs[i].kind.Pruned? else NoStubCut(c.refs[i], listExcept)
  }

  /** A tree that a block's proof, a part of it or a subtree of these can be. */
  predicate IsProofTree(c: Cell) {
    Finalized(c) && Plain(c) && NoMerkle(c) && Honest(c)
  }

  /** The listed hashes belong to trees that have references. */
  ghost predicate AllDeep(listExcept: set<Digest>) {
    forall d | d in listExcept :: DigestDepth(d) > 0
  }

  /** With the right depths, and hashes of trees that have references, this is what makes a tree safe to cut. */
  lemma {:induction false} SafeExactlyWithoutStubs(c: Cell, listExcept: set<Digest>)
    requires Honest(c) && NoMerkle(c) && AllDeep(listExcept)
    ensures SafeToCut(c, listExcept) <==> NoStubCut(c, listExcept)
    decreases c
  {
    forall i | 0 <= i < |c.refs|
      ensures (if Hash0(c.refs[i]) in listExcept then OwnDepth(c.refs[i]) == Depth0(c.refs[i])
               else SafeToCut(c.refs[i], listExcept))
              <==>
              (if Hash0(c.refs[i]) in listExcept then !c.refs[i].kind.Pruned? else NoStubCut(c.refs[i], listExcept))
    {
      HonestDepth(c.refs[i]);
      SafeExactlyWithoutStubs(c.refs[i], listExcept);
    }
  }

  lemma {:induction false} CutKeepsHashWithoutStubs(c: Cell, listExcept: set<Digest>)
    requires Plain(c) && Honest(c) && NoMerkle(c) && AllDeep(listExcept)
    ensures Hash0(CutExcept(c, listExcept)) == Hash0(c) <==> NoStubCut(c, listExcept)
    ensures SafeToCut(c, listExcept) <==> NoStubCut(c, listExcept)
  {
    SafeExactlyWithoutStubs(c, listExcept);
    CutKeepsHashExactly(c, listExcept);
  }

  /** Without Merkle cells every cut tree is accepted, whatever became of its hash. */
  lemma {:induction false} CutIsAccepted(c: Cell, listExcept: set<Digest>)
    requires Finalized(c) && NoMerkle(c)
    ensures Finalized(CutExcept(c, listExcept))
    decreases c
  {
    var n := CutExcept(c, listExcept);
    forall i | 0 <= i < |c.refs|
      ensures Finalized(n.refs[i])
    {
      assert n.refs[i] == CutRef(c.refs[i], listExcept);
      CutIsAccepted(c.refs[i], listExcept);
    }
  }

  /** A wrong depth below is a wrong depth of the whole. */
  lemma WrongDepthsAbove(c: Cell, i: nat)
    requires c.kind.Ordinary? && i < |c.refs|
    requires Depth0(c.refs[i]) != DigestDepth(Hash0(c.refs[i])) || !RightDepths(Hash0(c.refs[i]))
    ensures !RightDepths(Hash0(c))
  {
    NodeDigest(c);
    assert Hash0(c).children[i] == RefHashes(c, 0)[i] == Hash0(c.refs[i]);
    assert Hash0(c).depths[i] == RefDepths(c, 0)[i] == Depth0(c.refs[i]);
  }

  /** A stub that is cut again leaves a wrong depth in the hash of the tree, for good. */
  lemma {:induction false} CutHasRightDepths(c: Cell, listExcept: set<Digest>)
    requires IsProofTree(c) && AllDeep(listExcept)
    ensures RightDepths(Hash0(CutExcept(c, listExcept))) <==> NoStubCut(c, listExcept)
    decreases c
  {
    if NoStubCut(c, listExcept) {
      CutKeepsHashWithoutStubs(c, listExcept);
      HonestHasRightDepths(c);
    } else {
      var i := StubCutAt(c, listExcept);
      var r, n := c.refs[i], CutExcept(c, listExcept);
      assert n.refs[i] == CutRef(r, listExcept);
      if Hash0(r) !in listExcept { CutHasRightDepths(r, listExcept); }
      WrongDepthsAbove(n, i);
    }
  }

  lemma StubCutAt(c: Cell, listExcept: set<Digest>) returns (i: nat)
    requires IsProofTree(c) && !NoStubCut(c, listExcept)
    ensures c.kind.Ordinary? && i < |c.refs| && IsProofTree(c.refs[i])
    ensures if Hash0(c.refs[i]) in listExcept then c.refs[i].kind.Pruned? else !NoStubCut(c.refs[i], listExcept)
  {
    i :| 0 <= i < |c.refs|
         && if Hash0(c.refs[i]) in listExcept then c.refs[i].kind.Pruned? else !NoStubCut(c.refs[i], listExcept);
  }

  lemma {:induction false} CutRefDetermines(r: Cell, s: Cell, listExcept: set<Digest>)
    requires IsProofTree(r) && IsProofTree(s) && AllDeep(listExcept)
    requires Hash0(CutRef(r, listExcept)) == Hash0(CutRef(s, listExcept))
    ensures Hash0(r) == Hash0(s)
    decreases r, 1
  {
    if Hash0(r) !in listExcept && Hash0(s) !in listExcept {
      CutHashDetermines(r, s, listExcept);
    } else if Hash0(r) !in listExcept {
      HonestHasRightDepths(s);
      CutHasRightDepths(r, listExcept);
      CutKeepsHashWithoutStubs(r, listExcept);
    } else if Hash0(s) !in listExcept {
      HonestHasRightDepths(r);
      CutHasRightDepths(s, listExcept);
      CutKeepsHashWithoutStubs(s, listExcept);
    }
  }

  /** The hash of a cut tree tells the hash of the tree it was cut from. */
  lemma {:induction false} CutHashDetermines(c: Cell, d: Cell, listExcept: set<Digest>)
    requires IsProofTree(c) && IsProofTree(d) && AllDeep(listExcept)
    requires Hash0(CutExcept(c, listExcept)) == Hash0(CutExcept(d, listExcept))
    ensures Hash0(c) == Hash0(d)
    decreases c, 0
  {
    CutHasRightDepths(c, listExcept);
    CutHasRightDepths(d, listExcept);
    if NoStubCut(c, listExcept) {
      CutKeepsHashWithoutStubs(c, listExcept);
      CutKeepsHashWithoutStubs(d, listExcept);
    } else {
      var _ := StubCutAt(c, listExcept);
      var _ := StubCutAt(d, listExcept);
      var m, n := CutExcept(c, listExcept), CutExcept(d, listExcept);
      SameNode(m, n);
      forall i | 0 <= i < |c.refs|
        ensures Hash0(c.refs[i]) == Hash0(d.refs[i])
      {
        assert m.refs[i] == CutRef(c.refs[i], listExcept) && n.refs[i] == CutRef(d.refs[i], listExcept);
        CutRefDetermines(c.refs[i], d.refs[i], listExcept);
      }
      RefsDetermine(c, d);
    }
  }

  /** Honest references with the same hashes have the same depths, so the hash of the cell above them is the same. */
  lemma RefsDetermine(c: Cell, d: Cell)
    requires Honest(c) && Honest(d) && c.kind.Ordinary? && d.kind.Ordinary? && c.bits == d.bits
    requires |c.refs| == |d.refs| && forall i | 0 <= i < |c.refs| :: Hash0(c.refs[i]) == Hash0(d.refs[i])
    ensures Hash0(c) == Hash0(d)
  {
    forall i | 0 <= i < |c.refs|
      ensures Depth0(c.refs[i]) == Depth0(d.refs[i])
    {
      HonestDepth(c.refs[i]);
      HonestDepth(d.refs[i]);
    }
    assert RefHashes(c, 0) == RefHashes(d, 0) && RefDepths(c, 0) == RefDepths(d, 0);
  }

  lemma SameNode(m: Cell, n: Cell)
    requires m.kind.Ordinary? && n.kind.Ordinary? && Hash0(m) == Hash0(n)
    ensures m.bits == n.bits && |m.refs| == |n.refs|
    ensures forall i | 0 <= i < |m.refs| :: Hash0(m.refs[i]) == Hash0(n.refs[i])
  {
    NodeDigest(m);
    NodeDigest(n);
    forall i | 0 <= i < |m.refs|
      ensures Hash0(m.refs[i]) == Hash0(n.refs[i])
    {
      assert Hash0(m.refs[i]) == RefHashes(m, 0)[i] == RefHashes(n, 0)[i];
    }
  }

  // ------------------------------------------------------------ finding the parts

  /** A part of a proof: not a pruned branch, and larger than its own cell. */
  predicate IsPart(p: Cell) {
    IsProofTree(p) && !p.kind.Pruned? && DigestDepth(Hash0(p)) > 0
  }

  predicate AllParts(parts: seq<Cell>) {
    forall j | 0 <= j < |parts| :: IsPart(parts[j])
  }

  /** If parts have this hash, one of them has no stub that is cut again, so that its piece has the hash, too. */
  predicate IsKept(parts: seq<Cell>, hash: Digest) {
    hash in Hashes(parts) ==>
      exists l | 0 <= l < |parts| :: Hash0(parts[l]) == hash && NoStubCut(parts[l], Hashes(parts))
  }

  predicate EveryPartKept(parts: seq<Cell>) {
    forall j | 0 <= j < |parts| :: IsKept(parts, Hash0(parts[j]))
  }

  lemma PartHashesAreDeep(parts: seq<Cell>)
    requires AllParts(parts)
    ensures AllDeep(Hashes(parts))
  {
    forall d | d in Hashes(parts)
      ensures DigestDepth(d) > 0
    {
      var j :| 0 <= j < |parts| && Hash0(parts[j]) == d;
      assert IsPart(parts[j]);
    }
  }

  lemma CutPartsAreAccepted(parts: seq<Cell>)
    requires AllParts(parts)
    ensures AllFinalized(CutAll(parts, Hashes(parts)))
  {
    forall j | 0 <= j < |parts|
      ensures Finalized(CutExcept(parts[j], Hashes(parts)))
    {
      assert IsPart(parts[j]);
      CutIsAccepted(parts[j], Hashes(parts));
    }
  }

  /** A reference that is not cut never finds a piece. */
  lemma UncutFindsNothing(r: Cell, parts: seq<Cell>)
    requires IsProofTree(r) && AllParts(parts) && Hash0(r) !in Hashes(parts)
    ensures var pieces := CutAll(parts, Hashes(parts));
            FindPart(pieces, Hash0(CutExcept(r, Hashes(parts)))) == |pieces|
  {
    var k, pieces := Hashes(parts), CutAll(parts, Hashes(parts));
    var m := FindPart(pieces, Hash0(CutExcept(r, k)));
    if m < |pieces| {
      PartHashesAreDeep(parts);
      assert IsPart(parts[m]);
      CutHashDetermines(r, parts[m], k);
      assert false;
    }
  }

  /** A reference that is cut finds the piece of a kept part with its hash, if there is one, and else nothing. */
  lemma CutFindsKept(r: Cell, parts: seq<Cell>)
    requires IsProofTree(r) && AllParts(parts) && Hash0(r) in Hashes(parts)
    ensures var pieces := CutAll(parts, Hashes(parts));
            var m := FindPart(pieces, Hash0(r));
            && (m < |pieces| <==> IsKept(parts, Hash0(r)))
            && (m < |pieces| ==> Hash0(parts[m]) == Hash0(r) && NoStubCut(parts[m], Hashes(parts)))
  {
    var k, pieces := Hashes(parts), CutAll(parts, Hashes(parts));
    var m := FindPart(pieces, Hash0(r));
    PartHashesAreDeep(parts);
    if m < |pieces| {
      assert IsPart(parts[m]);
      HonestHasRightDepths(r);
      CutHasRightDepths(parts[m], k);
      CutKeepsHashWithoutStubs(parts[m], k);
    }
    if IsKept(parts, Hash0(r)) {
      var l :| 0 <= l < |parts| && Hash0(parts[l]) == Hash0(r) && NoStubCut(parts[l], k);
      assert IsPart(parts[l]);
      CutKeepsHashWithoutStubs(parts[l], k);
      assert Hash0(pieces[l]) == Hash0(r);
    }
  }

  // ------------------------------------------------------------ grafting cut trees

  /** What cutting a proof tree and grafting the cut parts into it gives. */
  function Regrafted(c: Cell, parts: seq<Cell>): Cell
    requires IsProofTree(c) && AllParts(parts)
  {
    CutIsAccepted(c, Hashes(parts));
    CutPartsAreAccepted(parts);
    Graft(CutExcept(c, Hashes(parts)), CutAll(parts, Hashes(parts)))
  }

  /** A reference that is not cut, or has a kept part, is what is regrafted of it; otherwise a pruned branch remains. */
  lemma RegraftedRef(c: Cell, i: nat, parts: seq<Cell>) returns (m: nat)
    requires IsProofTree(c) && AllParts(parts) && i < |c.refs|
    ensures var r, g := c.refs[i], Regrafted(c, parts);
            if Hash0(r) !in Hashes(parts) then g.refs[i] == Regrafted(r, parts)
            else if IsKept(parts, Hash0(r)) then
              && m < |parts| && Hash0(parts[m]) == Hash0(r) && NoStubCut(parts[m], Hashes(parts))
              && g.refs[i] == Regrafted(parts[m], parts)
            else g.refs[i] == FreshStub(r)
  {
    var r, k, pieces := c.refs[i], Hashes(parts), CutAll(parts, Hashes(parts));
    var n := CutExcept(c, k);
    CutIsAccepted(c, k);
    CutPartsAreAccepted(parts);
    assert n.refs[i] == CutRef(r, k);
    assert Regrafted(c, parts).refs[i] == GraftRef(n, pieces, i);
    if Hash0(r) in k {
      m := FindPart(pieces, Hash0(r));
      CutFindsKept(r, parts);
      if m == |pieces| { assert Graft(FreshStub(r), pieces).refs == []; }
    } else {
      m := 0;
      UncutFindsNothing(r, parts);
    }
  }

  /** Every pruned branch that is cut again has a kept part. */
  predicate StubsKept(c: Cell, parts: seq<Cell>) {
    forall i | 0 <= i < |c.refs| ::
      if Hash0(c.refs[i]) in Hashes(parts) then c.refs[i].kind.Pruned? ==> IsKept(parts, Hash0(c.refs[i]))
      else StubsKept(c.refs[i], parts)
  }

  lemma {:induction false} NoStubsToKeep(c: Cell, parts: seq<Cell>)
    requires NoStubCut(c, Hashes(parts)) || EveryPartKept(parts)
    ensures StubsKept(c, parts)
    decreases c
  {
    forall i | 0 <= i < |c.refs|
      ensures if Hash0(c.refs[i]) in Hashes(parts) then c.refs[i].kind.Pruned? ==> IsKept(parts, Hash0(c.refs[i]))
              else StubsKept(c.refs[i], parts)
    {
      if Hash0(c.refs[i]) in Hashes(parts) {
        var j :| 0 <= j < |parts| && Hash0(parts[j]) == Hash0(c.refs[i]);
        assert EveryPartKept(parts) ==> IsKept(parts, Hash0(parts[j]));
      } else {
        NoStubsToKeep(c.refs[i], parts);
      }
    }
  }

  /** Grafting gives back the hash of what was cut exactly if every pruned branch that is cut again has a kept part. */
  lemma {:induction false} RegraftedKeepsHashExactly(c: Cell, parts: seq<Cell>)
    requires IsProofTree(c) && AllParts(parts)
    ensures Hash0(Regrafted(c, parts)) == Hash0(c) <==> StubsKept(c, parts)
    ensures StubsKept(c, parts) ==> Depth0(Regrafted(c, parts)) == Depth0(c)
    decreases Hash0(c)
  {
    var g := Regrafted(c, parts);
    if c.kind.Pruned? {
      assert c.refs == [] && g == c;
    } else {
      forall i | 0 <= i < |c.refs|
        ensures (Hash0(g.refs[i]) == Hash0(c.refs[i]) && Depth0(g.refs[i]) == Depth0(c.refs[i]))
                <==>
                (if Hash0(c.refs[i]) in Hashes(parts) then c.refs[i].kind.Pruned? ==> IsKept(parts, Hash0(c.refs[i]))
                 else StubsKept(c.refs[i], parts))
      {
        RegraftedRefKeepsHash(c, i, parts);
      }
      SameHashExactly(c, g);
    }
  }

  lemma {:induction false} RegraftedRefKeepsHash(c: Cell, i: nat, parts: seq<Cell>)
    requires IsProofTree(c) && AllParts(parts) && i < |c.refs|
    ensures var r, n := c.refs[i], Regrafted(c, parts).refs[i];
            (Hash0(n) == Hash0(r) && Depth0(n) == Depth0(r))
            <==>
            (if Hash0(r) in Hashes(parts) then r.kind.Pruned? ==> IsKept(parts, Hash0(r)) else StubsKept(r, parts))
    decreases Hash0(c), 0
  {
    var r := c.refs[i];
    var m := RegraftedRef(c, i, parts);
    RefHashSmaller(c, i);
    HonestDepth(r);
    if Hash0(r) !in Hashes(parts) {
      RegraftedKeepsHashExactly(r, parts);
    } else if IsKept(parts, Hash0(r)) {
      assert IsPart(parts[m]);
      NoStubsToKeep(parts[m], parts);
      RegraftedKeepsHashExactly(parts[m], parts);
      HonestDepth(parts[m]);
    } else {
      PartHashesAreDeep(parts);
    }
  }

  /** Cells that differ in their references only have the same hash exactly if these have the same hashes and depths. */
  lemma SameHashExactly(c: Cell, n: Cell)
    requires !c.kind.Pruned? && !c.kind.IsMerkle() && n.kind == c.kind && n.bits == c.bits && |n.refs| == |c.refs|
    ensures Hash0(n) == Hash0(c) <==>
            forall i | 0 <= i < |c.refs| ::
              Hash0(n.refs[i]) == Hash0(c.refs[i]) && Depth0(n.refs[i]) == Depth0(c.refs[i])
    ensures Hash0(n) == Hash0(c) ==> Depth0(n) == Depth0(c)
  {
    NodeDigest(c);
    NodeDigest(n);
    DepthOfDigest(c);
    DepthOfDigest(n);
    if Hash0(n) == Hash0(c) {
      forall i | 0 <= i < |c.refs|
        ensures Hash0(n.refs[i]) == Hash0(c.refs[i]) && Depth0(n.refs[i]) == Depth0(c.refs[i])
      {
        assert RefHashes(n, 0)[i] == RefHashes(c, 0)[i] && RefDepths(n, 0)[i] == RefDepths(c, 0)[i];
      }
    } else if forall i | 0 <= i < |c.refs| ::
                Hash0(n.refs[i]) == Hash0(c.refs[i]) && Depth0(n.refs[i]) == Depth0(c.refs[i]) {
      assert RefHashes(n, 0) == RefHashes(c, 0) && RefDepths(n, 0) == RefDepths(c, 0);
    }
  }

  lemma {:induction false} WholeHasNoStub(c: Cell, listExcept: set<Digest>)
    requires Whole(c) && NoMerkle(c)
    ensures NoStubCut(c, listExcept)
    decreases c
  {
    forall i | 0 <= i < |c.refs| && Hash0(c.refs[i]) !in listExcept
      ensures NoStubCut(c.refs[i], listExcept)
    {
      WholeHasNoStub(c.refs[i], listExcept);
    }
  }

  lemma WholePartIsKept(parts: seq<Cell>, j: nat)
    requires AllParts(parts) && j < |parts| && Whole(parts[j])
    ensures IsKept(parts, Hash0(parts[j]))
  {
    assert IsPart(parts[j]);
    WholeHasNoStub(parts[j], Hashes(parts));
  }

  /** A whole tree whose references with the hash of a part are that part comes back, kept parts or not. */
  lemma {:induction false} WholeComesBack(c: Cell, parts: seq<Cell>)
    requires IsProofTree(c) && Whole(c) && AllParts(parts) && PartsAgree(c, parts)
    ensures Regrafted(c, parts) == c
    decreases c
  {
    var g := Regrafted(c, parts);
    forall i | 0 <= i < |c.refs|
      ensures g.refs[i] == c.refs[i]
    {
      var r := c.refs[i];
      var m := RegraftedRef(c, i, parts);
      if Hash0(r) in Hashes(parts) {
        var j :| 0 <= j < |parts| && Hash0(parts[j]) == Hash0(r);
        assert parts[j] == r;
        WholePartIsKept(parts, j);
        assert parts[m] == r;
      }
      WholeComesBack(r, parts);
    }
    assert g.refs == c.refs;
  }
}
