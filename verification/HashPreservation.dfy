/** When replacing subtrees by pruned branches keeps the hash of the root, and exactly when it does not. */
module HashPreservation {
  import opened Cells

  /** `n` is `c` with some subtrees replaced by pruned branches that stand for them. */
  predicate IsPruning(c: Cell, n: Cell)
    decreases c
  {
    || n == c
    || n == FreshStub(c)
    || (&& n.kind == c.kind && n.bits == c.bits && |n.refs| == |c.refs|
        && forall i | 0 <= i < |c.refs| :: IsPruning(c.refs[i], n.refs[i]))
  }

  /** No pruned branch is new below a Merkle cell, and none stands for a pruned branch of another depth. */
  predicate KeepsHash(c: Cell, n: Cell)
    decreases c
  {
    || n == c
    || (n == FreshStub(c) && OwnDepth(c) == Depth0(c))
    || (&& !c.kind.IsMerkle()
        && n.kind == c.kind && n.bits == c.bits && |n.refs| == |c.refs|
        && forall i | 0 <= i < |c.refs| :: KeepsHash(c.refs[i], n.refs[i]))
  }

  lemma {:induction false} PruningKeepsHash(c: Cell, n: Cell)
    requires KeepsHash(c, n)
    ensures Hash0(n) == Hash0(c) && Depth0(n) == Depth0(c)
    decreases c
  {
    if n == c {
    } else if n == FreshStub(c) && OwnDepth(c) == Depth0(c) {
    } else if !c.kind.Pruned? {
      forall i | 0 <= i < |c.refs|
        ensures Hash0(n.refs[i]) == Hash0(c.refs[i]) && Depth0(n.refs[i]) == Depth0(c.refs[i])
      {
        PruningKeepsHash(c.refs[i], n.refs[i]);
      }
      assert RefDepths(n, 0) == RefDepths(c, 0);
      assert RefHashes(n, 0) == RefHashes(c, 0);
    }
  }

  /** The highest significant level of `c` up to `level`. */
  function Top(c: Cell, level: nat): (t: nat)
    ensures t <= level
    ensures t > 0 ==> Mask(c).Has(t)
    ensures forall x | t < x <= level :: !Mask(c).Has(x)
  {
    if level == 0 || Mask(c).Has(level) then level else Top(c, level - 1)
  }

  lemma {:induction false} HashAtTop(c: Cell, level: nat)
    requires !c.kind.Pruned?
    ensures HashAt(c, level) == HashAt(c, Top(c, level))
    decreases level
  {
    if level > 0 && !Mask(c).Has(level) { HashAtTop(c, level - 1); }
  }

  lemma SameTop(c: Cell, n: Cell, level: nat)
    requires !c.kind.Pruned? && !n.kind.Pruned?
    requires HashAt(n, level) == HashAt(c, level)
    ensures Top(n, level) == Top(c, level)
  {
    HashAtTop(c, level);
    HashAtTop(n, level);
    var x, y := Top(n, level), Top(c, level);
    assert (HashAt(n, x).content.Own? <==> x == 0) && (HashAt(c, y).content.Own? <==> y == 0);
    if x > 0 {
      assert Mask(n).Below(x).Has(x) && Mask(c).Below(y).Has(y);
      assert Mask(c).Below(y).Has(x) && Mask(n).Below(x).Has(y);
    }
  }

  lemma {:induction false} SameBase(c: Cell, n: Cell, level: nat)
    requires !c.kind.Pruned? && !n.kind.Pruned? && HashAt(n, level) == HashAt(c, level)
    ensures Hash0(n) == Hash0(c)
    decreases level
  {
    SameTop(c, n, level);
    HashAtTop(c, level);
    HashAtTop(n, level);
    var x := Top(c, level);
    if x > 0 {
      assert HashAt(c, x).content == Lower(HashAt(c, x - 1)) && HashAt(n, x).content == Lower(HashAt(n, x - 1));
      SameBase(c, n, x - 1);
    }
  }

  /** Pruned branches are plain level-1 stubs, and neither they nor library cells have references. */
  predicate Plain(c: Cell) {
    && (c.kind.Pruned? ==> c.kind.mask == LEVEL_ONE && c.refs == [] && c.bits == [])
    && (c.kind.Library? ==> c.refs == [])
    && forall i | 0 <= i < |c.refs| :: Plain(c.refs[i])
  }

  lemma {:induction false} FinalizedIsPlain(c: Cell)
    requires Finalized(c) && PlainStubs(c)
    ensures Plain(c)
    decreases c
  {
    forall i | 0 <= i < |c.refs|
      ensures Plain(c.refs[i])
    {
      FinalizedIsPlain(c.refs[i]);
    }
  }

  lemma {:induction false} PruningIsPlain(c: Cell, n: Cell)
    requires Plain(c) && IsPruning(c, n)
    ensures Plain(n)
    decreases c
  {
    if n != c && n != FreshStub(c) {
      forall i | 0 <= i < |n.refs|
        ensures Plain(n.refs[i])
      {
        PruningIsPlain(c.refs[i], n.refs[i]);
      }
    }
  }

  /** At level 1 and above a hash determines the tree. */
  lemma {:induction false} UpperHashDetermines(c: Cell, n: Cell, level: nat)
    requires Plain(c) && Plain(n) && level >= 1 && HashAt(n, level) == HashAt(c, level)
    ensures n == c
    decreases c
  {
    if c.kind.Pruned? || n.kind.Pruned? {
      if !c.kind.Pruned? { HashAtTop(c, level); }
      if !n.kind.Pruned? { HashAtTop(n, level); }
    } else {
      SameBase(c, n, level);
      NodeDigest(c);
      NodeDigest(n);
      SameTop(c, n, level);
      HashAtTop(c, level);
      HashAtTop(n, level);
      var z := c.kind.ChildLevel(Top(c, level));
      assert RefHashes(n, z) == RefHashes(c, z);
      forall i | 0 <= i < |c.refs|
        ensures n.refs[i] == c.refs[i]
      {
        assert RefHashes(n, z)[i] == RefHashes(c, z)[i];
        if z >= 1 {
          UpperHashDetermines(c.refs[i], n.refs[i], z);
        } else {
          BelowLevelOne(c, i);
          BelowLevelOne(n, i);
          UpperHashDetermines(c.refs[i], n.refs[i], 1);
        }
      }
      assert n.refs == c.refs;
    }
  }

  /** A pruned branch that hides two levels can be told from the tree it stands for at level 2 only. */
  lemma LevelTwoStubLooksAlike(c: Cell)
    requires !c.kind.Pruned?
    ensures var stub := Cell(Pruned(LevelMask(true, true, false), [Hash0(c), HashAt(c, 1)], [Depth0(c), 0]), [], []);
            Finalized(stub) && stub != c && HashAt(stub, 0) == HashAt(c, 0) && HashAt(stub, 1) == HashAt(c, 1)
  {
  }

  /** Where level 1 is not significant, it is so for no reference either. */
  lemma BelowLevelOne(c: Cell, i: nat)
    requires Plain(c) && i < |c.refs| && c.kind.Ordinary? && !Mask(c).Has(1)
    ensures HashAt(c.refs[i], 1) == Hash0(c.refs[i])
  {
    MaskOfRefsHas(c.refs, 1);
    assert Plain(c.refs[i]);
  }

  /** No pruned branch outside Merkle cells, as in every block. */
  predicate Whole(c: Cell) {
    !c.kind.Pruned? && (c.kind.IsMerkle() || forall i | 0 <= i < |c.refs| :: Whole(c.refs[i]))
  }

  /** Of trees without pruned branches outside Merkle cells, the level-0 hash determines the tree. */
  lemma {:induction false} WholeHashDetermines(c: Cell, n: Cell)
    requires Plain(c) && Plain(n) && Whole(c) && Whole(n) && Hash0(n) == Hash0(c)
    ensures n == c
    decreases c
  {
    NodeDigest(c);
    NodeDigest(n);
    var z := c.kind.ChildLevel(0);
    forall i | 0 <= i < |c.refs|
      ensures n.refs[i] == c.refs[i]
    {
      assert RefHashes(n, z)[i] == RefHashes(c, z)[i];
      if z == 0 {
        WholeHashDetermines(c.refs[i], n.refs[i]);
      } else {
        UpperHashDetermines(c.refs[i], n.refs[i], 1);
      }
    }
    assert n.refs == c.refs;
  }

  /** Exactly when a pruning keeps the hash and depth of its root. */
  lemma {:induction false} KeepsHashExactly(c: Cell, n: Cell)
    requires IsPruning(c, n) && Plain(c)
    ensures Hash0(n) == Hash0(c) && Depth0(n) == Depth0(c) <==> KeepsHash(c, n)
    decreases c
  {
    if KeepsHash(c, n) {
      PruningKeepsHash(c, n);
    } else if n != FreshStub(c) && !c.kind.Pruned? && Hash0(n) == Hash0(c) && Depth0(n) == Depth0(c) {
      var z := c.kind.ChildLevel(0);
      assert RefHashes(n, z) == RefHashes(c, z) && RefDepths(n, z) == RefDepths(c, z);
      forall i | 0 <= i < |c.refs|
        ensures if z == 0 then KeepsHash(c.refs[i], n.refs[i]) else n.refs[i] == c.refs[i]
      {
        assert RefHashes(n, z)[i] == RefHashes(c, z)[i] && RefDepths(n, z)[i] == RefDepths(c, z)[i];
        assert IsPruning(c.refs[i], n.refs[i]);
        if z == 0 {
          KeepsHashExactly(c.refs[i], n.refs[i]);
        } else {
          PruningIsPlain(c.refs[i], n.refs[i]);
          UpperHashDetermines(c.refs[i], n.refs[i], 1);
        }
      }
      assert false;
    }
  }

  /**
   * With other pruned branches than level-1 ones the condition is not necessary: one that stores, as its level-1 hash,
   * the hash of the fresh pruned branch for itself can be cut below a Merkle cell without a trace in the hash.
   */
  lemma LevelTwoStubIsMistaken(h: Digest, d: nat)
    ensures var plain := Cell(Pruned(LEVEL_ONE, [h], [0]), [], []);
            var stub := Cell(Pruned(LevelMask(true, true, false), [h, HashAt(plain, 1)], [d, 0]), [], []);
            var c := Cell(MerkleProof(h, d), [], [stub]);
            var n := Cell(MerkleProof(h, d), [], [plain]);
            && Finalized(c) && IsPruning(c, n) && !KeepsHash(c, n)
            && Hash0(n) == Hash0(c) && Depth0(n) == Depth0(c)
  {
    var plain := Cell(Pruned(LEVEL_ONE, [h], [0]), [], []);
    var stub := Cell(Pruned(LevelMask(true, true, false), [h, HashAt(plain, 1)], [d, 0]), [], []);
    var c := Cell(MerkleProof(h, d), [], [stub]);
    var n := Cell(MerkleProof(h, d), [], [plain]);
    assert FreshStub(stub) == plain;
    assert IsPruning(c.refs[0], n.refs[0]);
    assert HashAt(stub, 1) == HashAt(plain, 1) && DepthAt(stub, 1) == 0 && DepthAt(plain, 1) == 0;
    assert RefHashes(n, 1) == RefHashes(c, 1) && RefDepths(n, 1) == RefDepths(c, 1);
    assert n != FreshStub(c) && n != c;
  }
}
