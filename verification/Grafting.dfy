/** Putting parts back in the places of the pruned branches that stand for them. */
module Grafting {
  import opened Cells
  import opened HashPreservation
  import opened BlockUtils
  import opened ProofHashes

  predicate AllFinalized(parts: seq<Cell>) {
    forall j | 0 <= j < |parts| :: Finalized(parts[j])
  }

  /** The index of the first part with this hash, or the number of parts. */
  function FindPart(parts: seq<Cell>, hash: Digest): (i: nat)
    ensures i <= |parts|
    ensures i < |parts| ==> Hash0(parts[i]) == hash
    ensures forall j | 0 <= j < i :: Hash0(parts[j]) != hash
  {
    if parts == [] || Hash0(parts[0]) == hash then 0 else 1 + FindPart(parts[1..], hash)
  }

  /** What takes the place of a reference before its own references are visited. */
  function Chosen(parts: seq<Cell>, r: Cell): (s: Cell)
    ensures Hash0(s) == Hash0(r)
    ensures s == r || s in parts
  {
    var i := FindPart(parts, Hash0(r));
    if i < |parts| then parts[i] else r
  }

  /** `c` with every reference that has the hash of a part replaced by that part, in the parts as well. */
  function Graft(c: Cell, parts: seq<Cell>): (g: Cell)
    requires Finalized(c) && AllFinalized(parts)
    ensures g.kind == c.kind && g.bits == c.bits && |g.refs| == |c.refs|
    decreases Hash0(c), 1
  {
    Cell(c.kind, c.bits, seq(|c.refs|, i requires 0 <= i < |c.refs| => GraftRef(c, parts, i)))
  }

  function GraftRef(c: Cell, parts: seq<Cell>, i: nat): Cell
    requires Finalized(c) && AllFinalized(parts) && i < |c.refs|
    decreases Hash0(c), 0
  {
    RefHashSmaller(c, i);
    Graft(Chosen(parts, c.refs[i]), parts)
  }

  lemma {:induction false} GraftNothing(c: Cell, parts: seq<Cell>)
    requires Finalized(c) && parts == []
    ensures Graft(c, parts) == c
    decreases c
  {
    forall i | 0 <= i < |c.refs|
      ensures Graft(c, parts).refs[i] == c.refs[i]
    {
      GraftNothing(c.refs[i], parts);
    }
    assert Graft(c, parts).refs == c.refs;
  }

  // ------------------------------------------------------------ round trip

  function Hashes(parts: seq<Cell>): set<Digest> {
    set j | 0 <= j < |parts| :: Hash0(parts[j])
  }

  /** The pieces that are emitted: every part, itself cut. */
  function CutAll(parts: seq<Cell>, listExcept: set<Digest>): (r: seq<Cell>)
    ensures |r| == |parts| && forall j | 0 <= j < |r| :: r[j] == CutExcept(parts[j], listExcept)
  {
    seq(|parts|, j requires 0 <= j < |parts| => CutExcept(parts[j], listExcept))
  }

  predicate NoMerkle(c: Cell) {
    !c.kind.IsMerkle() && forall i | 0 <= i < |c.refs| :: NoMerkle(c.refs[i])
  }

  /** `r` is at some reference position of `c`. */
  ghost predicate IsRefIn(r: Cell, c: Cell) {
    exists i | 0 <= i < |c.refs| :: r == c.refs[i] || IsRefIn(r, c.refs[i])
  }

  /** The listed hashes each name one subtree of `c`. */
  ghost predicate HashesNameSubtrees(c: Cell, listed: set<Digest>) {
    forall r, s | IsRefIn(r, c) && IsRefIn(s, c) && Hash0(r) == Hash0(s) && Hash0(r) in listed :: r == s
  }

  /** Every reference of `c` with the hash of a part is that part. */
  predicate PartsAgree(c: Cell, parts: seq<Cell>) {
    forall i | 0 <= i < |c.refs| ::
      && (forall j | 0 <= j < |parts| && Hash0(parts[j]) == Hash0(c.refs[i]) :: parts[j] == c.refs[i])
      && PartsAgree(c.refs[i], parts)
  }

  lemma {:induction false} NamedPartsAgree(t: Cell, c: Cell, parts: seq<Cell>)
    requires HashesNameSubtrees(t, Hashes(parts))
    requires forall j | 0 <= j < |parts| :: IsRefIn(parts[j], t)
    requires c == t || IsRefIn(c, t)
    ensures PartsAgree(c, parts)
    decreases c
  {
    forall i | 0 <= i < |c.refs|
      ensures forall j | 0 <= j < |parts| && Hash0(parts[j]) == Hash0(c.refs[i]) :: parts[j] == c.refs[i]
      ensures PartsAgree(c.refs[i], parts)
    {
      if c != t { RefOfRefIn(c.refs[i], c, t); }
      assert IsRefIn(c.refs[i], t);
      NamedPartsAgree(t, c.refs[i], parts);
    }
  }

  lemma {:induction false} RefOfRefIn(r: Cell, c: Cell, t: Cell)
    requires IsRefIn(c, t) && r in c.refs
    ensures IsRefIn(r, t)
    decreases t
  {
    var i :| 0 <= i < |t.refs| && (c == t.refs[i] || IsRefIn(c, t.refs[i]));
    if c == t.refs[i] {
      var k :| 0 <= k < |c.refs| && c.refs[k] == r;
      assert IsRefIn(r, c);
    } else {
      RefOfRefIn(r, c, t.refs[i]);
    }
  }

  lemma {:induction false} WholeBelow(r: Cell, c: Cell)
    requires IsRefIn(r, c) && Plain(c) && Whole(c) && NoMerkle(c)
    ensures Plain(r) && Whole(r)
    decreases c
  {
    var i :| 0 <= i < |c.refs| && (r == c.refs[i] || IsRefIn(r, c.refs[i]));
    if r != c.refs[i] { WholeBelow(r, c.refs[i]); }
  }

  /** In a tree without pruned branches and Merkle cells every hash names one subtree. */
  lemma WholeNamesSubtrees(c: Cell, listed: set<Digest>)
    requires Plain(c) && Whole(c) && NoMerkle(c)
    ensures HashesNameSubtrees(c, listed)
  {
    forall r, s | IsRefIn(r, c) && IsRefIn(s, c) && Hash0(r) == Hash0(s) && Hash0(r) in listed
      ensures r == s
    {
      WholeBelow(r, c);
      WholeBelow(s, c);
      WholeHashDetermines(r, s);
    }
  }

  lemma CutIsFinalized(c: Cell, listExcept: set<Digest>)
    requires Finalized(c) && SafeToCut(c, listExcept)
    ensures Finalized(CutExcept(c, listExcept))
    ensures Hash0(CutExcept(c, listExcept)) == Hash0(c)
  {
    SafeToCutExactly(c, listExcept);
    PruningIsFinalized(c, CutExcept(c, listExcept));
    CutKeepsHashExactly(c, listExcept);
  }

  lemma PiecesAreFinalized(parts: seq<Cell>, listExcept: set<Digest>)
    requires forall j | 0 <= j < |parts| :: Finalized(parts[j]) && SafeToCut(parts[j], listExcept)
    ensures AllFinalized(CutAll(parts, listExcept))
    ensures forall j | 0 <= j < |parts| :: Hash0(CutAll(parts, listExcept)[j]) == Hash0(parts[j])
  {
    forall j | 0 <= j < |parts|
      ensures Finalized(CutExcept(parts[j], listExcept)) && Hash0(CutExcept(parts[j], listExcept)) == Hash0(parts[j])
    {
      CutIsFinalized(parts[j], listExcept);
    }
  }

  lemma {:induction false} SafeBelow(c: Cell, listExcept: set<Digest>, i: nat)
    requires SafeToCut(c, listExcept) && i < |c.refs| && Hash0(c.refs[i]) !in listExcept
    ensures SafeToCut(c.refs[i], listExcept)
  {
    if c.kind.IsMerkle() {
      UntouchedExactly(c.refs[i], listExcept);
      SafeToCutExactly(c.refs[i], listExcept);
    }
  }

  /** No reference that is not cut gets a listed hash by what is cut below it. */
  predicate NoneAcquired(c: Cell, listExcept: set<Digest>) {
    forall i | 0 <= i < |c.refs| && Hash0(c.refs[i]) !in listExcept ::
      Hash0(CutExcept(c.refs[i], listExcept)) !in listExcept && NoneAcquired(c.refs[i], listExcept)
  }

  lemma {:induction false} SafeAcquiresNone(c: Cell, listExcept: set<Digest>)
    requires SafeToCut(c, listExcept)
    ensures NoneAcquired(c, listExcept)
    decreases c
  {
    forall i | 0 <= i < |c.refs| && Hash0(c.refs[i]) !in listExcept
      ensures Hash0(CutExcept(c.refs[i], listExcept)) !in listExcept && NoneAcquired(c.refs[i], listExcept)
    {
      SafeBelow(c, listExcept, i);
      CutKeepsHashExactly(c.refs[i], listExcept);
      SafeAcquiresNone(c.refs[i], listExcept);
    }
  }

  /** Where the piece of a part is found again. */
  lemma FindPiece(parts: seq<Cell>, r: Cell)
    requires forall j | 0 <= j < |parts| :: Finalized(parts[j]) && SafeToCut(parts[j], Hashes(parts))
    requires forall j | 0 <= j < |parts| && Hash0(parts[j]) == Hash0(r) :: parts[j] == r
    ensures Hash0(r) in Hashes(parts) ==>
              && Chosen(CutAll(parts, Hashes(parts)), FreshStub(r)) == CutExcept(r, Hashes(parts))
              && Finalized(r) && SafeToCut(r, Hashes(parts))
    ensures Hash0(CutExcept(r, Hashes(parts))) !in Hashes(parts) ==>
              Chosen(CutAll(parts, Hashes(parts)), CutExcept(r, Hashes(parts))) == CutExcept(r, Hashes(parts))
  {
    PiecesAreFinalized(parts, Hashes(parts));
  }

  /**
   * Cutting a tree at its parts and grafting the cut parts back gives the tree again. The cut tree has to be accepted,
   * and no uncut reference may take on the hash of a part.
   */
  lemma {:induction false} SplitRoundTrip(t: Cell, parts: seq<Cell>)
    requires Finalized(CutExcept(t, Hashes(parts))) && NoneAcquired(t, Hashes(parts))
    requires forall j | 0 <= j < |parts| :: Finalized(parts[j]) && SafeToCut(parts[j], Hashes(parts))
    requires PartsAgree(t, parts)
    ensures AllFinalized(CutAll(parts, Hashes(parts)))
    ensures Graft(CutExcept(t, Hashes(parts)), CutAll(parts, Hashes(parts))) == t
    decreases t
  {
    var k := Hashes(parts);
    var n, pieces := CutExcept(t, k), CutAll(parts, k);
    PiecesAreFinalized(parts, k);
    forall i | 0 <= i < |t.refs|
      ensures GraftRef(n, pieces, i) == t.refs[i]
    {
      var r := t.refs[i];
      assert n.refs[i] == CutRef(r, k);
      FindPiece(parts, r);
      if Hash0(r) in k {
        CutIsFinalized(r, k);
        SafeAcquiresNone(r, k);
      }
      SplitRoundTrip(r, parts);
    }
    assert Graft(n, pieces).refs == t.refs;
  }

  /** The pruned branches store the depths of the parts that they stand for. */
  predicate DepthsHonest(c: Cell, parts: seq<Cell>) {
    forall i | 0 <= i < |c.refs| ::
      DepthsHonest(c.refs[i], parts) && Depth0(Chosen(parts, c.refs[i])) == Depth0(c.refs[i])
  }

  /** Grafting keeps the hash of every tree without Merkle cells. */
  lemma {:induction false} GraftKeepsHash(c: Cell, parts: seq<Cell>)
    requires Finalized(c) && AllFinalized(parts) && DepthsHonest(c, parts)
    requires NoMerkle(c) && forall j | 0 <= j < |parts| :: NoMerkle(parts[j]) && DepthsHonest(parts[j], parts)
    ensures Hash0(Graft(c, parts)) == Hash0(c) && Depth0(Graft(c, parts)) == Depth0(c)
    decreases Hash0(c)
  {
    var g := Graft(c, parts);
    if !c.kind.Pruned? {
      forall i | 0 <= i < |c.refs|
        ensures Hash0(g.refs[i]) == Hash0(c.refs[i]) && Depth0(g.refs[i]) == Depth0(c.refs[i])
      {
        RefHashSmaller(c, i);
        assert g.refs[i] == GraftRef(c, parts, i);
        GraftKeepsHash(Chosen(parts, c.refs[i]), parts);
      }
      assert RefDepths(g, 0) == RefDepths(c, 0);
      assert RefHashes(g, 0) == RefHashes(c, 0);
    }
  }
}
