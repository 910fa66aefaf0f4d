/** From the pieces of a validators proof back to the block: what grafting them together proves. */
module BlockProofs {
  import opened Cells
  import opened HashPreservation
  import opened BlockUtils
  import opened Volumes
  import opened ProofHashes
  import opened Paths
  import opened Grafting
  import opened HonestTrees
  import opened SetValidators
  import opened Results

  // --------------------------------------------------------------- round trips

  lemma {:induction false} PartIsRefIn(c: Cell, p: SubTree)
    requires p in PartsOf(c)
    ensures IsRefIn(p.root, c) && Volume(p.root) > 32
    decreases c
  {
    OwnPartsWhere(c, |c.refs|, p);
    ChildPartsWhere(c, |c.refs|, p);
    if p !in OwnParts(c, |c.refs|) {
      var i :| 0 <= i < |c.refs| && p in PartsOf(c.refs[i]);
      PartIsRefIn(c.refs[i], p);
    }
  }

  lemma {:induction false} RefInDeeper(r: Cell, c: Cell, t: Cell)
    requires IsRefIn(r, c) && IsRefIn(c, t)
    ensures IsRefIn(r, t)
    decreases t
  {
    var i :| 0 <= i < |t.refs| && (c == t.refs[i] || IsRefIn(c, t.refs[i]));
    if c != t.refs[i] { RefInDeeper(r, c, t.refs[i]); }
  }

  lemma {:induction false} RefInKeeps(r: Cell, t: Cell)
    requires IsRefIn(r, t)
    ensures Finalized(t) ==> Finalized(r)
    ensures NoMerkle(t) ==> NoMerkle(r)
    ensures Plain(t) ==> Plain(r)
    ensures Honest(t) ==> Honest(r)
    decreases t
  {
    var i :| 0 <= i < |t.refs| && (r == t.refs[i] || IsRefIn(r, t.refs[i]));
    if r != t.refs[i] { RefInKeeps(r, t.refs[i]); }
  }

  /** Where hashes of whole parts name only those parts, a tree without Merkle cells is safe to cut. */
  lemma {:induction false} AgreeingPartsAreSafe(c: Cell, parts: seq<Cell>)
    requires NoMerkle(c) && PartsAgree(c, parts)
    requires forall j | 0 <= j < |parts| :: !parts[j].kind.Pruned?
    ensures SafeToCut(c, Hashes(parts))
    decreases c
  {
    forall i | 0 <= i < |c.refs|
      ensures if Hash0(c.refs[i]) in Hashes(parts) then OwnDepth(c.refs[i]) == Depth0(c.refs[i])
              else SafeToCut(c.refs[i], Hashes(parts))
    {
      AgreeingPartsAreSafe(c.refs[i], parts);
    }
  }

  /** Splitting at the parts of a subtree and grafting restores the tree, when part hashes name one subtree each. */
  lemma SplitSubtreeRoundTrip(t: Cell, config: Cell)
    requires Finalized(t) && NoMerkle(t) && IsRefIn(config, t)
    requires HashesNameSubtrees(t, Hashes(Roots(PartsOf(config))))
    ensures var parts := Roots(PartsOf(config));
            && Finalized(CutExcept(t, Hashes(parts))) && AllFinalized(CutAll(parts, Hashes(parts)))
            && Hash0(CutExcept(t, Hashes(parts))) == Hash0(t)
            && Graft(CutExcept(t, Hashes(parts)), CutAll(parts, Hashes(parts))) == t
  {
    var parts := Roots(PartsOf(config));
    forall j | 0 <= j < |parts|
      ensures IsRefIn(parts[j], t) && Finalized(parts[j]) && NoMerkle(parts[j]) && !parts[j].kind.Pruned?
    {
      PartInTree(t, config, j);
    }
    NamedPartsAgree(t, t, parts);
    AgreeingPartsAreSafe(t, parts);
    forall j | 0 <= j < |parts|
      ensures SafeToCut(parts[j], Hashes(parts))
    {
      NamedPartsAgree(t, parts[j], parts);
      AgreeingPartsAreSafe(parts[j], parts);
    }
    SafeRoundTrip(t, parts);
  }

  lemma PartInTree(t: Cell, config: Cell, j: nat)
    requires Finalized(t) && NoMerkle(t) && IsRefIn(config, t) && j < |PartsOf(config)|
    ensures var p := PartsOf(config)[j].root;
            IsRefIn(p, t) && Finalized(p) && NoMerkle(p) && !p.kind.Pruned?
  {
    var part := PartsOf(config)[j];
    assert part in PartsOf(config);
    PartIsRefIn(config, part);
    RefInDeeper(part.root, config, t);
    RefInKeeps(part.root, t);
  }

  /** The round trip for a tree that is safe to cut. */
  lemma SafeRoundTrip(t: Cell, parts: seq<Cell>)
    requires Finalized(t) && SafeToCut(t, Hashes(parts)) && PartsAgree(t, parts)
    requires forall j | 0 <= j < |parts| :: Finalized(parts[j]) && SafeToCut(parts[j], Hashes(parts))
    ensures Finalized(CutExcept(t, Hashes(parts))) && AllFinalized(CutAll(parts, Hashes(parts)))
    ensures Hash0(CutExcept(t, Hashes(parts))) == Hash0(t)
    ensures Graft(CutExcept(t, Hashes(parts)), CutAll(parts, Hashes(parts))) == t
  {
    CutIsFinalized(t, Hashes(parts));
    SafeAcquiresNone(t, Hashes(parts));
    SplitRoundTrip(t, parts);
  }

  /** For whole trees nothing else is needed: splitting at the parts of any subtree and grafting restores the tree. */
  lemma WholeTreeRoundTrip(t: Cell, config: Cell)
    requires Finalized(t) && PlainStubs(t) && Whole(t) && NoMerkle(t) && IsRefIn(config, t)
    ensures var parts := Roots(PartsOf(config));
            && Finalized(CutExcept(t, Hashes(parts))) && AllFinalized(CutAll(parts, Hashes(parts)))
            && Graft(CutExcept(t, Hashes(parts)), CutAll(parts, Hashes(parts))) == t
  {
    FinalizedIsPlain(t);
    WholeNamesSubtrees(t, Hashes(Roots(PartsOf(config))));
    SplitSubtreeRoundTrip(t, config);
  }

  // ---------------------------------------------------------- the unsplit proof

  lemma {:induction false} NoMerkleAlong(c: Cell, a: Address)
    requires NoMerkle(c) && IsAddress(c, a)
    ensures forall k | 0 <= k < |Along(c, a)| :: !Along(c, a)[k].kind.IsMerkle()
    decreases |a|
  {
    if a != [] { NoMerkleAlong(c.refs[a[0]], a[1..]); }
  }

  /** Replacing the first reference leaves every position below the others as it is. */
  lemma OtherRefsStay(base: Cell, first: Cell, a: Address)
    requires IsAddress(base, a) && a != [] && a[0] != 0
    ensures var n := base.(refs := base.refs[0 := first]);
            && IsAddress(n, a) && At(n, a) == At(base, a)
            && Along(n, a) == [n] + Along(base, a)[1..]
  {
    var n := base.(refs := base.refs[0 := first]);
    assert n.refs[a[0]] == base.refs[a[0]];
  }

  lemma ProofPositions(root: Cell, a: Address)
    requires IsAddress(root, a) && a != [] && a[0] != 0
    ensures var proof := ValidatorsProof(root, Along(root, a));
            IsAddress(proof, a) && SameHeads(Along(proof, a), Along(root, a)) && At(proof, a) == At(root, a)
  {
    ProofContainsPath(root, a, true);
    OtherRefsStay(ProofOf(Along(root, a), true), ProofOf([root.refs[0]], false), a);
  }

  lemma {:induction false} FinalizedAlong(c: Cell, a: Address)
    requires Finalized(c) && IsAddress(c, a)
    ensures forall k | 0 <= k < |Along(c, a)| :: Finalized(Along(c, a)[k])
    decreases |a|
  {
    if a != [] { FinalizedAlong(c.refs[a[0]], a[1..]); }
  }

  /** Replacing the first reference by one with the same hash and depth keeps the hash. */
  lemma ReplacedFirstKeepsHash(c: Cell, n: Cell, first: Cell)
    requires c.kind.Ordinary? && n.kind == c.kind && n.bits == c.bits && Hash0(n) == Hash0(c) && c.refs != []
    requires Hash0(first) == Hash0(c.refs[0]) && Depth0(first) == Depth0(c.refs[0])
    ensures |n.refs| == |c.refs| && Hash0(n.(refs := n.refs[0 := first])) == Hash0(c)
  {
    NodeDigest(c);
    NodeDigest(n);
    assert RefHashes(n, 0) == RefHashes(c, 0) && RefDepths(n, 0) == RefDepths(c, 0);
    var m := n.(refs := n.refs[0 := first]);
    forall i | 0 <= i < |m.refs|
      ensures Hash0(m.refs[i]) == Hash0(c.refs[i]) && Depth0(m.refs[i]) == Depth0(c.refs[i])
    {
      assert RefHashes(n, 0)[i] == RefHashes(c, 0)[i] && RefDepths(n, 0)[i] == RefDepths(c, 0)[i];
    }
    assert RefHashes(m, 0) == RefHashes(c, 0) && RefDepths(m, 0) == RefDepths(c, 0);
  }

  /** The proof, before it is split, has the hash of the block and the whole of the wanted subtree. */
  lemma ValidatorsProofIsFaithful(root: Cell, a: Address)
    requires Finalized(root) && IsAddress(root, a) && a != [] && a[0] == 3
    requires SafePath(Along(root, a), true) && SafePath([root.refs[0]], false)
    ensures var proof := ValidatorsProof(root, Along(root, a));
            && Finalized(proof) && Hash0(proof) == Hash0(root)
            && IsAddress(proof, a) && SameHeads(Along(proof, a), Along(root, a))
            && At(proof, a) == At(root, a)
  {
    var path := Along(root, a);
    var base, first := ProofOf(path, true), ProofOf([root.refs[0]], false);
    ProofPositions(root, a);
    SafeProofKeepsHash(path, true);
    SafeProofKeepsHash([root.refs[0]], false);
    ReplacedFirstKeepsHash(root, base, first);
    FinalizedAlong(root, a);
    ProofIsFinalized(path, true);
    ProofIsFinalized([root.refs[0]], false);
  }

  /** In a block without pruned branches outside Merkle cells the path to parameter 34 is never mistaken. */
  lemma BlockPathIsSafe(root: Cell, a: Address)
    requires Finalized(root) && PlainStubs(root) && Whole(root) && IsAddress(root, a) && a != [] && a[0] != 0
    requires NoMerkle(ValidatorsProof(root, Along(root, a)))
    ensures PathAgrees(Along(root, a)) && DepthsAgree(Along(root, a))
    ensures forall k | 0 <= k <= |a| :: !Along(root, a)[k].kind.IsMerkle()
    ensures SafePath(Along(root, a), true) && SafePath([root.refs[0]], false)
  {
    var path, proof := Along(root, a), ValidatorsProof(root, Along(root, a));
    FinalizedIsPlain(root);
    ProofPositions(root, a);
    NoMerkleAlong(proof, a);
    forall k | 0 <= k <= |a|
      ensures !path[k].kind.IsMerkle()
    {
      assert Along(proof, a)[k].kind == path[k].kind;
    }
    WholeTreesAgree(root, a);
    OrdinaryPathIsSafe(path, true);
    assert NoMerkle(proof.refs[0]) && proof.refs[0].kind == root.refs[0].kind;
    OrdinaryPathIsSafe([root.refs[0]], false);
  }

  lemma ConfigIsRefIn(proof: Cell)
    requires HasConfig(proof)
    ensures IsRefIn(ProofConfig(proof), proof.refs[3]) && IsRefIn(ProofConfig(proof), proof)
  {
    var extra, custom := proof.refs[3], proof.refs[3].refs[3];
    assert IsRefIn(ProofConfig(proof), custom);
    assert IsRefIn(ProofConfig(proof), extra);
  }

  /** No part hash of the config occurs in the proof at two different subtrees. */
  ghost predicate PartsNameSubtrees(proof: Cell) {
    HasConfig(proof) ==> HashesNameSubtrees(proof, Hashes(Roots(PartsOf(ProofConfig(proof)))))
  }

  /** Grafting the pieces of a proof together gives the proof. */
  lemma PiecesRestoreProof(proof: Cell)
    requires HasConfig(proof) && Finalized(proof) && NoMerkle(proof) && PartsNameSubtrees(proof)
    ensures AllFinalized(Pieces(proof)) && Hash0(Pieces(proof)[0]) == Hash0(proof)
    ensures Graft(Pieces(proof)[0], Pieces(proof)[1..]) == proof
  {
    ConfigIsRefIn(proof);
    SplitSubtreeRoundTrip(proof, ProofConfig(proof));
    var parts := Roots(PartsOf(ProofConfig(proof)));
    PiecesAre(proof, parts);
    var pieces := Pieces(proof);
    assert pieces == [pieces[0]] + pieces[1..];
  }

  lemma ThirdCellHasRefs(proof: Cell, a: Address)
    requires IsAddress(proof, a) && |a| >= 3 && a[0] == 3 && a[1] == 3
    ensures HasConfig(proof)
  {
    assert IsAddress(proof.refs[3], a[1..]);
    assert IsAddress(proof.refs[3].refs[3], a[1..][1..]);
  }

  /**
   * For a key block whose extra cell has four references, the emitted pieces, once grafted together, are the proof:
   * a tree with the root hash of the block in which the whole of config parameter 34 is the block's own.
   */
  lemma PiecesProveValidators(root: Cell, param34: Cell -> Option<Digest>, proof: Cell) returns (a: Address)
    requires Finalized(root) && PathToConfig(root, param34).Some? && |root.refs[3].refs| == 4
    requires SafePath(PathToConfig(root, param34).value, true) && SafePath([root.refs[0]], false)
    requires proof == ValidatorsProof(root, PathToConfig(root, param34).value)
    requires NoMerkle(proof) && PartsNameSubtrees(proof)
    ensures HasConfig(proof) && AllFinalized(Pieces(proof)) && Hash0(Pieces(proof)[0]) == Hash0(root)
    ensures var whole := Graft(Pieces(proof)[0], Pieces(proof)[1..]);
            && whole == proof && Hash0(whole) == Hash0(root)
            && IsAddress(root, a) && IsAddress(whole, a) && At(whole, a) == At(root, a)
            && Some(Hash0(At(root, a))) == param34(Config(root))
  {
    var b := PathToConfigLeads(root, param34);
    a := ConfigAddress(root) + b;
    ValidatorsProofIsFaithful(root, a);
    ThirdCellHasRefs(proof, a);
    PiecesRestoreProof(proof);
  }

  // -------------------------------------------------------- what the parts are

  lemma PartsAreParts(proof: Cell)
    requires HasConfig(proof) && IsProofTree(proof)
    ensures var parts := Roots(PartsOf(ProofConfig(proof)));
            && AllParts(parts) && AllDeep(Hashes(parts))
            && forall j | 0 <= j < |parts| :: IsRefIn(parts[j], ProofConfig(proof)) && IsRefIn(parts[j], proof)
  {
    var config := ProofConfig(proof);
    var parts := Roots(PartsOf(config));
    ConfigIsRefIn(proof);
    forall j | 0 <= j < |parts|
      ensures IsPart(parts[j]) && IsRefIn(parts[j], config) && IsRefIn(parts[j], proof)
    {
      var p := parts[j];
      assert PartsOf(config)[j] in PartsOf(config);
      PartIsRefIn(config, PartsOf(config)[j]);
      RefInDeeper(p, config, proof);
      RefInKeeps(p, proof);
      HonestDepth(p);
      assert p.refs != [] && Depth0(p) > 0;
    }
    PartHashesAreDeep(parts);
  }

  /** No pruned branch that is reached, in the proof or in a part, has the hash of a part. */
  predicate NoStubNamesPart(proof: Cell) {
    HasConfig(proof) ==>
      var parts := Roots(PartsOf(ProofConfig(proof)));
      NoStubCut(proof, Hashes(parts)) && forall j | 0 <= j < |parts| :: NoStubCut(parts[j], Hashes(parts))
  }

  /** The pieces have the hashes of the trees they are cut from exactly when no pruned branch names a part. */
  lemma PiecesKeepHashesExactly(proof: Cell)
    requires HasConfig(proof) && IsProofTree(proof)
    ensures var parts := Roots(PartsOf(ProofConfig(proof)));
            |Pieces(proof)| == 1 + |parts|
            && (NoStubNamesPart(proof) <==>
                && Hash0(Pieces(proof)[0]) == Hash0(proof)
                && forall j | 0 <= j < |parts| :: Hash0(Pieces(proof)[1..][j]) == Hash0(parts[j]))
  {
    var parts := Roots(PartsOf(ProofConfig(proof)));
    var listed := Hashes(parts);
    PartsAreParts(proof);
    PiecesAre(proof, parts);
    CutKeepsHashWithoutStubs(proof, listed);
    forall j | 0 <= j < |parts|
      ensures Hash0(CutAll(parts, listed)[j]) == Hash0(parts[j]) <==> NoStubCut(parts[j], listed)
    {
      assert IsPart(parts[j]);
      CutKeepsHashWithoutStubs(parts[j], listed);
    }
  }

  // ------------------------------------------------------ following the path again

  /** What the proof keeps of `c` on the way to the position. */
  function Kept(c: Cell, a: Address): Cell
    requires IsAddress(c, a)
  {
    ProofOf(Along(c, a), true)
  }

  /** From `c` on, a part with the hash of a path cell is that cell or what the proof keeps of it. */
  predicate PartsKnown(c: Cell, a: Address, parts: seq<Cell>)
    requires IsAddress(c, a)
    decreases |a|
  {
    && Hash0(Kept(c, a)) == Hash0(c)
    && (forall j | 0 <= j < |parts| && Hash0(parts[j]) == Hash0(c) :: parts[j] == c || parts[j] == Kept(c, a))
    && (a != [] ==> PartsKnown(c.refs[a[0]], a[1..], parts))
  }

  /** From `c` on, every path cell that is cut has a kept part. */
  predicate KeptFrom(c: Cell, a: Address, parts: seq<Cell>)
    requires IsAddress(c, a)
    decreases |a|
  {
    IsKept(parts, Hash0(c)) && (a != [] ==> KeptFrom(c.refs[a[0]], a[1..], parts))
  }

  /** The last cell of the path comes back. */
  predicate TailRestored(tail: Cell, parts: seq<Cell>) {
    AllParts(parts) && IsProofTree(tail) && NoStubCut(tail, Hashes(parts)) && Regrafted(tail, parts) == tail
  }

  /**
   * When the path cell itself or what the proof keeps of it is cut and grafted, the path leads on exactly if every
   * later path cell that is cut has a kept part, and then to its end.
   */
  lemma {:induction false} PathRestoredExactly(c: Cell, a: Address, x: Cell, parts: seq<Cell>)
    requires IsAddress(c, a) && (x == c || x == Kept(c, a)) && IsProofTree(x)
    requires PartsKnown(c, a, parts) && TailRestored(At(c, a), parts)
    ensures var g := Regrafted(x, parts);
            && (IsAddress(g, a) <==> a == [] || KeptFrom(c.refs[a[0]], a[1..], parts))
            && (IsAddress(g, a) ==> At(g, a) == At(c, a))
    decreases |a|, 0
  {
    if a == [] {
      assert Kept(c, a) == c by { ProofContainsPath(c, [], true); }
    } else {
      FollowsPath(c, a, true);
      RefRestoredExactly(c.refs[a[0]], a[1..], x, a[0], parts);
    }
  }

  lemma {:induction false} RefRestoredExactly(c: Cell, a: Address, x: Cell, i: nat, parts: seq<Cell>)
    requires IsAddress(c, a) && i < |x.refs| && (x.refs[i] == c || x.refs[i] == Kept(c, a)) && IsProofTree(x)
    requires PartsKnown(c, a, parts) && TailRestored(At(c, a), parts)
    ensures var r := Regrafted(x, parts).refs[i];
            && (IsAddress(r, a) <==> KeptFrom(c, a, parts))
            && (IsAddress(r, a) ==> At(r, a) == At(c, a))
    decreases |a|, 1
  {
    var m := RegraftedRef(x, i, parts);
    if Hash0(c) !in Hashes(parts) {
      PathRestoredExactly(c, a, x.refs[i], parts);
    } else if IsKept(parts, Hash0(c)) {
      assert IsPart(parts[m]);
      PathRestoredExactly(c, a, parts[m], parts);
    } else if a == [] {
      TailIsKept(c, parts);
    }
  }

  lemma TailIsKept(tail: Cell, parts: seq<Cell>)
    requires TailRestored(tail, parts) && PartsKnown(tail, [], parts)
    ensures IsKept(parts, Hash0(tail))
  {
    assert Kept(tail, []) == tail by { ProofContainsPath(tail, [], true); }
  }

  /** What stands below a proof: pruned branches, subtrees of the block, and what is kept of later path cells. */
  lemma {:induction false} KindsOfRefs(path: seq<Cell>, r: Cell) returns (i: nat)
    requires path != [] && AllWhole(path) && AllPlain(path) && NoMerkle(ProofOf(path, true))
    requires IsRefIn(r, ProofOf(path, true))
    ensures r.kind.Pruned? || (Whole(r) && Plain(r)) || (0 < i < |path| && r == ProofOf(path[i..], true))
    decreases |path|
  {
    i := 0;
    var c, n := path[0], ProofOf(path, true);
    var k :| 0 <= k < |n.refs| && (r == n.refs[k] || IsRefIn(r, n.refs[k]));
    var s := c.refs[k];
    assert n.refs[k] == ProofRef(path, true, s) && NoMerkle(n.refs[k]);
    assert Whole(c) && Plain(c) && Whole(s) && Plain(s);
    if OnPath(path, s) {
      i := 1;
      if r != n.refs[k] {
        var l := KindsOfRefs(path[1..], r);
        i := l + 1;
        assert l < |path[1..]| ==> path[1..][l..] == path[l + 1..];
      }
    } else if StaysWhole(path, true, s) {
      if r != s { WholeBelow(r, s); }
    }
  }

  /** Hashes strictly descend along a path. */
  ghost predicate Descending(path: seq<Cell>) {
    forall i, j | 0 <= i < j < |path| :: Hash0(path[j]) < Hash0(path[i])
  }

  lemma {:induction false} AlongDescends(c: Cell, a: Address)
    requires Finalized(c) && IsAddress(c, a)
    ensures Descending(Along(c, a))
    decreases |a|
  {
    if a != [] {
      var r := c.refs[a[0]];
      AlongDescends(r, a[1..]);
      RefHashSmaller(c, a[0]);
      assert Along(r, a[1..])[0] == r;
    }
  }

  /** The part is a subtree of the block or what is kept of a path cell. */
  ghost predicate IsFromPath(part: Cell, path: seq<Cell>) {
    (Whole(part) && Plain(part)) || exists i | 0 < i < |path| :: part == ProofOf(path[i..], true)
  }

  ghost predicate FromPath(parts: seq<Cell>, path: seq<Cell>) {
    forall j | 0 <= j < |parts| :: IsFromPath(parts[j], path)
  }

  lemma RefIsFromPath(path: seq<Cell>, k: nat, part: Cell)
    requires k < |path| && AllWhole(path) && AllPlain(path) && NoMerkle(ProofOf(path[k..], true))
    requires IsRefIn(part, ProofOf(path[k..], true)) && !part.kind.Pruned?
    ensures IsFromPath(part, path)
  {
    var i := KindsOfRefs(path[k..], part);
    if !(Whole(part) && Plain(part)) { assert path[k..][i..] == path[k + i..]; }
  }

  predicate KeepsHashes(path: seq<Cell>) {
    forall i | 0 <= i < |path| :: Hash0(ProofOf(path[i..], true)) == Hash0(path[i])
  }

  lemma {:induction false} SafeSuffixes(path: seq<Cell>)
    requires DepthsAgree(path) && forall k | 0 <= k < |path| :: !path[k].kind.IsMerkle()
    ensures KeepsHashes(path)
    decreases |path|
  {
    if path != [] {
      OrdinaryPathIsSafe(path, true);
      SafeProofKeepsHash(path, true);
      assert path[0..] == path;
      SafeSuffixes(path[1..]);
      forall i | 0 < i < |path|
        ensures Hash0(ProofOf(path[i..], true)) == Hash0(path[i])
      {
        assert path[1..][i - 1..] == path[i..];
      }
    }
  }

  lemma {:induction false} PartsAreKnown(path: seq<Cell>, k: nat, c: Cell, a: Address, parts: seq<Cell>)
    requires IsAddress(c, a) && k < |path| && path[k..] == Along(c, a)
    requires AllWhole(path) && AllPlain(path) && Descending(path) && KeepsHashes(path) && FromPath(parts, path)
    ensures PartsKnown(c, a, parts)
    decreases |a|
  {
    assert path[k] == path[k..][0] == c;
    forall j | 0 <= j < |parts| && Hash0(parts[j]) == Hash0(c)
      ensures parts[j] == c || parts[j] == Kept(c, a)
    {
      if Whole(parts[j]) && Plain(parts[j]) {
        WholeHashDetermines(parts[j], c);
      } else {
        var i :| 0 < i < |path| && parts[j] == ProofOf(path[i..], true);
        assert Hash0(path[i]) == Hash0(path[k]);
      }
    }
    if a != [] {
      assert path[k + 1..] == path[k..][1..] == Along(c.refs[a[0]], a[1..]);
      PartsAreKnown(path, k + 1, c.refs[a[0]], a[1..], parts);
    }
  }

  /** Below the end of the path every reference with the hash of a part is that part. */
  lemma {:induction false} TailAgrees(path: seq<Cell>, x: Cell, parts: seq<Cell>)
    requires Whole(x) && Plain(x) && NoMerkle(x) && Finalized(x)
    requires KeepsHashes(path) && FromPath(parts, path)
    requires forall i | 0 <= i < |path| :: Hash0(x) == Hash0(path[i]) || Hash0(x) < Hash0(path[i])
    ensures PartsAgree(x, parts)
    decreases x
  {
    forall i | 0 <= i < |x.refs|
      ensures forall j | 0 <= j < |parts| && Hash0(parts[j]) == Hash0(x.refs[i]) :: parts[j] == x.refs[i]
      ensures PartsAgree(x.refs[i], parts)
    {
      var r := x.refs[i];
      RefHashSmaller(x, i);
      assert forall l | 0 <= l < |path| :: Hash0(ProofOf(path[l..], true)) != Hash0(r);
      forall j | 0 <= j < |parts| && Hash0(parts[j]) == Hash0(r)
        ensures parts[j] == r
      {
        if Whole(parts[j]) && Plain(parts[j]) { WholeHashDetermines(parts[j], r); }
      }
      TailAgrees(path, r, parts);
    }
  }

  // ------------------------------------------------------------------ the theorem

  lemma {:induction false} AlongIsWhole(c: Cell, a: Address)
    requires IsAddress(c, a) && Plain(c) && Whole(c)
    requires forall k | 0 <= k <= |a| :: !Along(c, a)[k].kind.IsMerkle()
    ensures AllWhole(Along(c, a)) && AllPlain(Along(c, a))
    decreases |a|
  {
    if a != [] {
      var r := c.refs[a[0]];
      assert forall k | 0 <= k <= |a| - 1 :: Along(r, a[1..])[k] == Along(c, a)[k + 1];
      AlongIsWhole(r, a[1..]);
    }
  }

  lemma {:induction false} AtIsNoMerkle(c: Cell, a: Address)
    requires IsAddress(c, a) && NoMerkle(c)
    ensures NoMerkle(At(c, a))
    decreases |a|
  {
    if a != [] { AtIsNoMerkle(c.refs[a[0]], a[1..]); }
  }

  /** A whole block, and the position of parameter 34 in it, with everything its proof inherits from it. */
  ghost predicate IsBlock(root: Cell, a: Address, proof: Cell) {
    && Finalized(root) && PlainStubs(root) && Whole(root)
    && IsAddress(root, a) && |a| >= 3 && a[0] == 3 && a[1] == 3
    && proof == ValidatorsProof(root, Along(root, a)) && NoMerkle(proof) && HasConfig(proof)
    && ProofConfig(proof) == ProofOf(Along(root, a)[3..], true)
  }

  lemma BlockPath(root: Cell, a: Address, proof: Cell)
    requires IsBlock(root, a, proof)
    ensures var path := Along(root, a);
            && AllWhole(path) && AllPlain(path) && Descending(path) && KeepsHashes(path)
            && SafePath(path, true) && SafePath([root.refs[0]], false)
    ensures Plain(root)
  {
    FinalizedIsPlain(root);
    BlockPathIsSafe(root, a);
    AlongIsWhole(root, a);
    AlongDescends(root, a);
    SafeSuffixes(Along(root, a));
  }

  /** The proof of a whole block is plain, and its pruned branches store the right depths. */
  lemma BlockProofIsHonest(root: Cell, a: Address, proof: Cell)
    requires IsBlock(root, a, proof)
    ensures Plain(proof) && Honest(proof)
  {
    BlockPath(root, a, proof);
    assert NoMerkle(proof.refs[0]) && Plain(root) && Plain(root.refs[0]) && Whole(root.refs[0]);
    ProofIsPlain([root.refs[0]], false);
    ProofIsHonest([root.refs[0]], false);
    forall i | 0 <= i < |proof.refs|
      ensures Honest(proof.refs[i]) && Plain(proof.refs[i])
    {
      assert NoMerkle(proof.refs[i]);
      if i > 0 { BaseRefIsHonest(Along(root, a), i); }
    }
  }

  lemma BaseRefIsHonest(path: seq<Cell>, i: nat)
    requires path != [] && AllWhole(path) && AllPlain(path) && i < |path[0].refs| && !path[0].kind.IsMerkle()
    requires NoMerkle(ProofOf(path, true).refs[i])
    ensures Honest(ProofOf(path, true).refs[i]) && Plain(ProofOf(path, true).refs[i])
  {
    var r := path[0].refs[i];
    ProofIsPlain(path, true);
    assert ProofOf(path, true).refs[i] == ProofRef(path, true, r);
    assert Whole(path[0]) && Whole(r);
    if OnPath(path, r) {
      ProofIsHonest(path[1..], true);
    } else if StaysWhole(path, true, r) {
      WholeIsHonest(r);
    } else {
      FreshStubIsHonest(r);
    }
  }

  /** The parts of a block's proof are subtrees of the block or kept from its path. */
  lemma PartsAreFromPath(root: Cell, a: Address, proof: Cell)
    requires IsBlock(root, a, proof) && Finalized(proof)
    ensures var parts := Roots(PartsOf(ProofConfig(proof)));
            FromPath(parts, Along(root, a)) && forall j | 0 <= j < |parts| :: !parts[j].kind.Pruned?
  {
    var parts := Roots(PartsOf(ProofConfig(proof)));
    BlockPath(root, a, proof);
    BlockProofIsHonest(root, a, proof);
    PartsAreParts(proof);
    ConfigIsRefIn(proof);
    RefInKeeps(ProofConfig(proof), proof);
    forall j | 0 <= j < |parts|
      ensures IsFromPath(parts[j], Along(root, a)) && !parts[j].kind.Pruned?
    {
      assert IsPart(parts[j]);
      RefIsFromPath(Along(root, a), 3, parts[j]);
    }
  }

  lemma ConfigOfProof(c: Cell, i: nat, j: nat, k: nat, b: Address)
    requires i < |c.refs| && j < |c.refs[i].refs| && k < |c.refs[i].refs[j].refs|
    requires IsAddress(c.refs[i].refs[j].refs[k], b)
    ensures IsAddress(c, [i, j, k] + b)
    ensures var path := Along(c, [i, j, k] + b);
            && |path| > 3 && |ProofOf(path, true).refs[i].refs| > j && |ProofOf(path, true).refs[i].refs[j].refs| > k
            && |ProofOf(path, true).refs[i].refs[j].refs| == |c.refs[i].refs[j].refs|
            && ProofOf(path, true).refs[i].refs[j].refs[k] == ProofOf(path[3..], true)
  {
    var d, e := c.refs[i], c.refs[i].refs[j];
    AlongThree(c, i, j, k, b);
    AlongCons(e, k, b);
    AlongCons(d, j, [k] + b);
    FollowsPath(c, [i, j, k] + b, true);
    FollowsPath(d, [j] + ([k] + b), true);
    FollowsPath(e, [k] + b, true);
    assert ([i, j, k] + b)[1..] == [j] + ([k] + b);
    assert ([j] + ([k] + b))[1..] == [k] + b && ([k] + b)[1..] == b;
    assert Along(c, [i, j, k] + b)[3..] == Along(e.refs[k], b);
  }

  /** The position that the path to the config leads to, and where the proof has its config. */
  lemma AddressOfPath(root: Cell, param34: Cell -> Option<Digest>) returns (a: Address)
    requires PathToConfig(root, param34).Some? && |root.refs[3].refs| == 4
    ensures IsAddress(root, a) && |a| >= 3 && a[0] == 3 && a[1] == 3
    ensures PathToConfig(root, param34).value == Along(root, a) && Some(Hash0(At(root, a))) == param34(Config(root))
    ensures var base := ProofOf(Along(root, a), true);
            HasConfig(base) && ProofConfig(base) == ProofOf(Along(root, a)[3..], true)
  {
    var b := PathToConfigLeads(root, param34);
    a := ConfigAddress(root) + b;
    ConfigOfProof(root, 3, 3, |Custom(root).refs| - 1, b);
  }

  /** The block and its proof, which has the hash of the block and the whole of parameter 34. */
  lemma BlockOfPath(root: Cell, param34: Cell -> Option<Digest>, proof: Cell) returns (a: Address)
    requires Finalized(root) && PlainStubs(root) && Whole(root)
    requires PathToConfig(root, param34).Some? && |root.refs[3].refs| == 4
    requires proof == ValidatorsProof(root, PathToConfig(root, param34).value) && NoMerkle(proof)
    ensures IsBlock(root, a, proof) && Some(Hash0(At(root, a))) == param34(Config(root))
    ensures PathToConfig(root, param34).value == Along(root, a)
    ensures IsAddress(proof, a) && At(proof, a) == At(root, a)
    ensures Finalized(proof) && Hash0(proof) == Hash0(root)
  {
    a := AddressOfPath(root, param34);
    BlockPathIsSafe(root, a);
    ValidatorsProofIsFaithful(root, a);
    assert proof.refs[3] == ProofOf(Along(root, a), true).refs[3];
  }

  /** A last cell that has no pruned branches comes back. */
  lemma TailComesBack(path: seq<Cell>, parts: seq<Cell>)
    requires path != [] && Finalized(path[|path| - 1]) && NoMerkle(path[|path| - 1])
    requires AllWhole(path) && AllPlain(path) && Descending(path) && KeepsHashes(path)
    requires AllParts(parts) && FromPath(parts, path)
    ensures TailRestored(path[|path| - 1], parts)
  {
    var tail := path[|path| - 1];
    WholeIsHonest(tail);
    WholeHasNoStub(tail, Hashes(parts));
    TailAgrees(path, tail, parts);
    WholeComesBack(tail, parts);
  }

  lemma {:induction false} KeptAlong(path: seq<Cell>, k: nat, c: Cell, a: Address, parts: seq<Cell>)
    requires IsAddress(c, a) && k < |path| && path[k..] == Along(c, a)
    ensures KeptFrom(c, a, parts) <==> forall i | k <= i < |path| :: IsKept(parts, Hash0(path[i]))
    decreases |a|
  {
    assert path[k] == path[k..][0] == c;
    if a != [] {
      assert path[k + 1..] == path[k..][1..] == Along(c.refs[a[0]], a[1..]);
      KeptAlong(path, k + 1, c.refs[a[0]], a[1..], parts);
    } else {
      assert |path[k..]| == 1;
    }
  }

  /** If every path cell that is cut has a kept part, so has everything else that is cut. */
  lemma PathDecidesParts(path: seq<Cell>, parts: seq<Cell>)
    requires path != [] && AllParts(parts) && FromPath(parts, path) && KeepsHashes(path)
    ensures EveryPartKept(parts) <==> forall i | 1 <= i < |path| :: IsKept(parts, Hash0(path[i]))
  {
    if EveryPartKept(parts) {
      forall i | 1 <= i < |path| && Hash0(path[i]) in Hashes(parts)
        ensures IsKept(parts, Hash0(path[i]))
      {
        var j :| 0 <= j < |parts| && Hash0(parts[j]) == Hash0(path[i]);
        assert IsKept(parts, Hash0(parts[j]));
      }
    }
    if forall i | 1 <= i < |path| :: IsKept(parts, Hash0(path[i])) {
      forall j | 0 <= j < |parts|
        ensures IsKept(parts, Hash0(parts[j]))
      {
        assert IsFromPath(parts[j], path);
        if Whole(parts[j]) {
          WholePartIsKept(parts, j);
        } else {
          var i :| 0 < i < |path| && parts[j] == ProofOf(path[i..], true);
          assert Hash0(parts[j]) == Hash0(path[i]);
        }
      }
    }
  }

  lemma ExtraComesBack(root: Cell, a: Address, proof: Cell, parts: seq<Cell>)
    requires IsBlock(root, a, proof) && IsProofTree(proof) && IsAddress(proof, a) && At(proof, a) == At(root, a)
    requires AllParts(parts) && FromPath(parts, Along(root, a))
    ensures var r := Regrafted(proof, parts).refs[3];
            && (IsAddress(r, a[1..]) <==> EveryPartKept(parts))
            && (IsAddress(r, a[1..]) ==> At(r, a[1..]) == At(root, a))
  {
    var path, extra, b := Along(root, a), root.refs[3], a[1..];
    BlockPath(root, a, proof);
    AtIsNoMerkle(proof, a);
    FinalizedAlong(root, a);
    TailComesBack(path, parts);
    assert path[1..] == Along(extra, b);
    PartsAreKnown(path, 1, extra, b, parts);
    KeptAlong(path, 1, extra, b, parts);
    PathDecidesParts(path, parts);
    FollowsPath(root, a, true);
    RefRestoredExactly(extra, b, proof, 3, parts);
  }

  lemma ProofComesBack(root: Cell, a: Address, proof: Cell, parts: seq<Cell>)
    requires IsBlock(root, a, proof) && Finalized(proof) && IsAddress(proof, a) && At(proof, a) == At(root, a)
    requires parts == Roots(PartsOf(ProofConfig(proof)))
    ensures IsProofTree(proof) && AllParts(parts)
    ensures var whole := Regrafted(proof, parts);
            && (EveryPartKept(parts) <==> IsAddress(whole, a))
            && (Hash0(whole) == Hash0(proof) <==> StubsKept(proof, parts))
            && (EveryPartKept(parts) ==> Hash0(whole) == Hash0(proof) && At(whole, a) == At(root, a))
    ensures Hash0(CutExcept(proof, Hashes(parts))) == Hash0(proof) <==> NoStubCut(proof, Hashes(parts))
  {
    BlockProofIsHonest(root, a, proof);
    PartsAreParts(proof);
    PartsAreFromPath(root, a, proof);
    ExtraComesBack(root, a, proof, parts);
    CutKeepsHashWithoutStubs(proof, Hashes(parts));
    RegraftedKeepsHashExactly(proof, parts);
    if EveryPartKept(parts) { NoStubsToKeep(proof, parts); }
  }

  /**
   * For every whole key block whose extra cell has four references: the emitted pieces, grafted together, lead to the
   * place of parameter 34 exactly when each part, or another one with its hash, has no pruned branch with the hash of a
   * part. Then they have the root hash of the block and at that place its own parameter 34. The root hash alone they
   * have exactly when every pruned branch of the proof that has the hash of a part has such a part. The first piece,
   * before grafting, has the root hash exactly when the proof has no such pruned branch.
   */
  lemma BlockPiecesProveValidators(root: Cell, param34: Cell -> Option<Digest>, proof: Cell) returns (a: Address)
    requires Finalized(root) && PlainStubs(root) && Whole(root)
    requires PathToConfig(root, param34).Some? && |root.refs[3].refs| == 4
    requires proof == ValidatorsProof(root, PathToConfig(root, param34).value) && NoMerkle(proof)
    ensures IsAddress(root, a) && Some(Hash0(At(root, a))) == param34(Config(root))
    ensures HasConfig(proof) && Finalized(Pieces(proof)[0]) && AllFinalized(Pieces(proof)[1..])
    ensures var parts := Roots(PartsOf(ProofConfig(proof)));
            var whole := Graft(Pieces(proof)[0], Pieces(proof)[1..]);
            && (EveryPartKept(parts) <==> IsAddress(whole, a))
            && (Hash0(whole) == Hash0(root) <==> StubsKept(proof, parts))
            && (EveryPartKept(parts) ==> Hash0(whole) == Hash0(root) && At(whole, a) == At(root, a))
            && (Hash0(Pieces(proof)[0]) == Hash0(root) <==> NoStubCut(proof, Hashes(parts)))
  {
    a := BlockOfPath(root, param34, proof);
    var parts := Roots(PartsOf(ProofConfig(proof)));
    ProofComesBack(root, a, proof, parts);
    CutIsAccepted(proof, Hashes(parts));
    CutPartsAreAccepted(parts);
    PiecesAre(proof, parts);
  }

  /** All pieces have the hashes of the trees they are cut from exactly when no pruned branch names a part. */
  lemma BlockPiecesKeepHashesExactly(root: Cell, param34: Cell -> Option<Digest>, proof: Cell)
    requires Finalized(root) && PlainStubs(root) && Whole(root)
    requires PathToConfig(root, param34).Some? && |root.refs[3].refs| == 4
    requires proof == ValidatorsProof(root, PathToConfig(root, param34).value) && NoMerkle(proof)
    ensures HasConfig(proof)
    ensures var parts := Roots(PartsOf(ProofConfig(proof)));
            |Pieces(proof)| == 1 + |parts|
            && (NoStubNamesPart(proof) <==>
                && Hash0(Pieces(proof)[0]) == Hash0(root)
                && forall j | 0 <= j < |parts| :: Hash0(Pieces(proof)[1..][j]) == Hash0(parts[j]))
  {
    var a := BlockOfPath(root, param34, proof);
    BlockProofIsHonest(root, a, proof);
    PiecesKeepHashesExactly(proof);
  }

  /** The condition fails where the block has a part of its config a second time, as another reference of its root. */
  lemma PartElsewhereLosesRootHash(root: Cell, param34: Cell -> Option<Digest>, proof: Cell, i: nat)
    requires Finalized(root) && PlainStubs(root) && Whole(root)
    requires PathToConfig(root, param34).Some? && |root.refs[3].refs| == 4
    requires proof == ValidatorsProof(root, PathToConfig(root, param34).value) && NoMerkle(proof)
    requires i in {1, 2} && Hash0(root.refs[i]) != Hash0(root.refs[3]) && !StartsWithOne(root.refs[i])
    requires HasConfig(proof) && Hash0(root.refs[i]) in Hashes(Roots(PartsOf(ProofConfig(proof))))
    ensures Hash0(Pieces(proof)[0]) != Hash0(root)
  {
    var a := BlockOfPath(root, param34, proof);
    var path, listed := Along(root, a), Hashes(Roots(PartsOf(ProofConfig(proof))));
    assert path[1] == root.refs[3] by { assert path[1..] == Along(root.refs[3], a[1..]); }
    assert proof.refs[i] == ProofRef(path, true, root.refs[i]) == FreshStub(root.refs[i]);
    BlockProofIsHonest(root, a, proof);
    PartsAreParts(proof);
    CutKeepsHashWithoutStubs(proof, listed);
  }
}
