/** Grafting in place: the cells of a loaded tree are objects, maybe shared, whose references are overwritten. */
module WalkTrees {
  import opened Cells
  import opened Grafting

  class CellNode {
    const kind: Kind
    const bits: seq<bool>
    /** The level-0 hash, computed once when the cell is loaded. */
    const hash: Digest
    var refs: seq<CellNode>

    constructor (kind: Kind, bits: seq<bool>, hash: Digest, refs: seq<CellNode>)
      ensures this.kind == kind && this.bits == bits && this.hash == hash && this.refs == refs
    {
      this.kind, this.bits, this.hash, this.refs := kind, bits, hash, refs;
    }
  }

  /** The references of every cell object at one moment. */
  type Graph = map<CellNode, seq<CellNode>>

  ghost function Snapshot(nodes: set<CellNode>): (g: Graph)
    reads nodes
    ensures g.Keys == nodes
  {
    map n | n in nodes :: n.refs
  }

  /** References stay inside the graph and lead to cells whose hash is a part of the hash of the parent. */
  ghost predicate Descends(g: Graph) {
    forall n, i | n in g && 0 <= i < |g[n]| :: g[n][i] in g && g[n][i].hash < n.hash
  }

  /** The tree that unfolds from a cell object. */
  ghost function TreeIn(n: CellNode, g: Graph): Cell
    requires Descends(g) && n in g
    decreases n.hash
  {
    Cell(n.kind, n.bits, seq(|g[n]|, i requires 0 <= i < |g[n]| => TreeIn(g[n][i], g)))
  }

  /** Every cell object has been finalised, and caches the hash of the tree below it. */
  ghost predicate Loaded(g: Graph) {
    Descends(g) && forall n | n in g :: Finalized(TreeIn(n, g)) && Hash0(TreeIn(n, g)) == n.hash
  }

  ghost function Trees(parts: seq<CellNode>, g: Graph): (r: seq<Cell>)
    requires Descends(g) && forall j | 0 <= j < |parts| :: parts[j] in g
    ensures |r| == |parts| && forall j | 0 <= j < |r| :: r[j] == TreeIn(parts[j], g)
  {
    seq(|parts|, j requires 0 <= j < |parts| => TreeIn(parts[j], g))
  }

  /** `parts.findIndex`; the number of parts stands for "not found". */
  method FindIndex(parts: seq<CellNode>, hash: Digest) returns (i: nat)
    ensures i == FirstPart(parts, hash)
  {
    i := 0;
    while i < |parts| && parts[i].hash != hash
      invariant i <= |parts| && FirstPart(parts, hash) == i + FirstPart(parts[i..], hash)
    {
      i := i + 1;
    }
  }

  function FirstPart(parts: seq<CellNode>, hash: Digest): (i: nat)
    ensures i <= |parts|
    ensures i < |parts| ==> parts[i].hash == hash
    ensures forall j | 0 <= j < i :: parts[j].hash != hash
  {
    if parts == [] || parts[0].hash == hash then 0 else 1 + FirstPart(parts[1..], hash)
  }

  /** The object that takes the place of a reference. */
  function Pick(parts: seq<CellNode>, r: CellNode): (s: CellNode)
    ensures s.hash == r.hash && (s == r || s in parts)
  {
    var i := FirstPart(parts, r.hash);
    if i < |parts| then parts[i] else r
  }

  function Picked(parts: seq<CellNode>, refs: seq<CellNode>): (r: seq<CellNode>)
    ensures |r| == |refs| && forall i | 0 <= i < |r| :: r[i] == Pick(parts, refs[i])
  {
    seq(|refs|, i requires 0 <= i < |refs| => Pick(parts, refs[i]))
  }

  /** Every cell object has its loaded references, or those with the parts in place. */
  ghost predicate PartlyGrafted(g: Graph, loaded: Graph, parts: seq<CellNode>) {
    g.Keys == loaded.Keys && forall n | n in g :: g[n] == loaded[n] || g[n] == Picked(parts, loaded[n])
  }

  /** From these cell objects on, all parts are in place. */
  ghost predicate Done(done: set<CellNode>, g: Graph, loaded: Graph, parts: seq<CellNode>) {
    && done <= g.Keys && g.Keys == loaded.Keys
    && forall n | n in done :: g[n] == Picked(parts, loaded[n]) && forall i | 0 <= i < |g[n]| :: g[n][i] in done
  }

  lemma NothingToPlace(cell: CellNode, g: Graph, loaded: Graph, parts: seq<CellNode>, done: set<CellNode>)
    returns (done': set<CellNode>)
    requires cell in g && Descends(loaded) && Done(done, g, loaded, parts) && PartlyGrafted(g, loaded, parts)
    requires parts == [] || g[cell] == []
    ensures Done(done', g, loaded, parts) && cell in done' && done <= done'
  {
    if parts == [] {
      done' := g.Keys;
      forall n | n in g
        ensures g[n] == Picked(parts, loaded[n]) && forall i | 0 <= i < |g[n]| :: g[n][i] in g
      {
        assert Picked(parts, loaded[n]) == loaded[n];
      }
    } else {
      done' := done + {cell};
      assert Picked(parts, loaded[cell]) == [];
    }
  }

  lemma ReferencesBelow(cell: CellNode, refs: seq<CellNode>, g: Graph, loaded: Graph, parts: seq<CellNode>)
    requires cell in g && g[cell] == refs && Descends(loaded) && PartlyGrafted(g, loaded, parts)
    requires forall j | 0 <= j < |parts| :: parts[j] in g
    ensures forall k | 0 <= k < |refs| :: refs[k] in g && refs[k].hash < cell.hash
    ensures refs == loaded[cell] || refs == Picked(parts, loaded[cell])
  {
    forall k | 0 <= k < |refs|
      ensures refs[k] in g && refs[k].hash < cell.hash
    {
      assert loaded[cell][k] in loaded && loaded[cell][k].hash < cell.hash;
    }
  }

  lemma PartsPlaced(cell: CellNode, refs: seq<CellNode>, newRefs: seq<CellNode>, g: Graph, loaded: Graph,
                    parts: seq<CellNode>, done: set<CellNode>)
    requires cell in g && Done(done, g, loaded, parts) && PartlyGrafted(g, loaded, parts)
    requires refs == loaded[cell] || refs == Picked(parts, loaded[cell])
    requires newRefs == Picked(parts, refs) && forall i | 0 <= i < |newRefs| :: newRefs[i] in done
    ensures var g' := g[cell := newRefs];
            Done(done + {cell}, g', loaded, parts) && PartlyGrafted(g', loaded, parts)
  {
    PickTwice(parts, loaded[cell]);
  }

  /** What is done for one reference: a part is looked up, and the part or the reference is walked. */
  method WalkRef(ref: CellNode, parts: seq<CellNode>,
                 ghost nodes: set<CellNode>, ghost loaded: Graph, ghost done: set<CellNode>)
    returns (res: CellNode, ghost done': set<CellNode>)
    requires ref in nodes && Descends(loaded)
    requires forall j | 0 <= j < |parts| :: parts[j] in nodes
    requires PartlyGrafted(Snapshot(nodes), loaded, parts) && Done(done, Snapshot(nodes), loaded, parts)
    modifies nodes
    ensures res == Pick(parts, ref)
    ensures PartlyGrafted(Snapshot(nodes), loaded, parts) && Done(done', Snapshot(nodes), loaded, parts)
    ensures res in done' && done <= done'
    decreases ref.hash, 2
  {
    var index := FindIndex(parts, ref.hash);
    if index == |parts| {
      res, done' := WalkTree(ref, parts, nodes, loaded, done);
    } else {
      res, done' := WalkTree(parts[index], parts, nodes, loaded, done);
    }
  }

  method WalkRefs(refs: seq<CellNode>, parts: seq<CellNode>,
                  ghost above: Digest, ghost nodes: set<CellNode>, ghost loaded: Graph, ghost done: set<CellNode>)
    returns (newRefs: seq<CellNode>, ghost done': set<CellNode>)
    requires forall k | 0 <= k < |refs| :: refs[k] in nodes && refs[k].hash < above
    requires Descends(loaded) && forall j | 0 <= j < |parts| :: parts[j] in nodes
    requires PartlyGrafted(Snapshot(nodes), loaded, parts) && Done(done, Snapshot(nodes), loaded, parts)
    modifies nodes
    ensures newRefs == Picked(parts, refs)
    ensures PartlyGrafted(Snapshot(nodes), loaded, parts) && Done(done', Snapshot(nodes), loaded, parts)
    ensures done <= done' && forall i | 0 <= i < |newRefs| :: newRefs[i] in done'
    decreases above, 0
  {
    newRefs, done' := [], done;
    for k := 0 to |refs|
      invariant |newRefs| == k && forall i | 0 <= i < k :: newRefs[i] == Pick(parts, refs[i]) && newRefs[i] in done'
      invariant PartlyGrafted(Snapshot(nodes), loaded, parts) && Done(done', Snapshot(nodes), loaded, parts)
      invariant done <= done'
    {
      var r;
      r, done' := WalkRef(refs[k], parts, nodes, loaded, done');
      newRefs := newRefs + [r];
    }
  }

  method WalkTree(cell: CellNode, parts: seq<CellNode>,
                  ghost nodes: set<CellNode>, ghost loaded: Graph, ghost done: set<CellNode>)
    returns (res: CellNode, ghost done': set<CellNode>)
    requires cell in nodes && Descends(loaded)
    requires forall j | 0 <= j < |parts| :: parts[j] in nodes
    requires PartlyGrafted(Snapshot(nodes), loaded, parts) && Done(done, Snapshot(nodes), loaded, parts)
    modifies nodes
    ensures res == cell
    ensures PartlyGrafted(Snapshot(nodes), loaded, parts) && Done(done', Snapshot(nodes), loaded, parts)
    ensures cell in done' && done <= done'
    decreases cell.hash, 1
  {
    res := cell;
    if |parts| == 0 || |cell.refs| == 0 {
      done' := NothingToPlace(cell, Snapshot(nodes), loaded, parts, done);
      return;
    }
    var refs := cell.refs;
    ReferencesBelow(cell, refs, Snapshot(nodes), loaded, parts);
    var newRefs;
    newRefs, done' := WalkRefs(refs, parts, cell.hash, nodes, loaded, done);
    PartsPlaced(cell, refs, newRefs, Snapshot(nodes), loaded, parts, done');
    ghost var before := Snapshot(nodes);
    cell.refs := newRefs;
    assert Snapshot(nodes) == before[cell := newRefs];
    done' := done' + {cell};
  }

  lemma PickTwice(parts: seq<CellNode>, refs: seq<CellNode>)
    ensures Picked(parts, Picked(parts, refs)) == Picked(parts, refs)
  {
  }

  /** The order of the objects' hashes survives putting parts in place. */
  lemma PartlyGraftedDescends(g: Graph, loaded: Graph, parts: seq<CellNode>)
    requires Descends(loaded) && PartlyGrafted(g, loaded, parts)
    requires forall j | 0 <= j < |parts| :: parts[j] in g
    ensures Descends(g)
  {
    forall n, i | n in g && 0 <= i < |g[n]|
      ensures g[n][i] in g && g[n][i].hash < n.hash
    {
      assert loaded[n][i] in loaded && loaded[n][i].hash < n.hash;
    }
  }

  lemma SamePart(parts: seq<CellNode>, g: Graph, hash: Digest)
    requires Loaded(g) && forall j | 0 <= j < |parts| :: parts[j] in g
    ensures FindPart(Trees(parts, g), hash) == FirstPart(parts, hash)
  {
  }

  /** Where all parts are in place, the tree that unfolds is the grafted tree. */
  lemma {:induction false} DoneIsGrafted(n: CellNode, done: set<CellNode>, g: Graph, loaded: Graph,
                                         parts: seq<CellNode>)
    requires Loaded(loaded) && Descends(g) && Done(done, g, loaded, parts) && n in done
    requires forall j | 0 <= j < |parts| :: parts[j] in loaded
    ensures TreeIn(n, g) == Graft(TreeIn(n, loaded), Trees(parts, loaded))
    decreases n.hash
  {
    var t, trees := TreeIn(n, loaded), Trees(parts, loaded);
    var grafted := Graft(t, trees);
    forall i | 0 <= i < |g[n]|
      ensures TreeIn(g[n][i], g) == grafted.refs[i]
    {
      var r := loaded[n][i];
      assert t.refs[i] == TreeIn(r, loaded);
      SamePart(parts, loaded, r.hash);
      assert Chosen(trees, t.refs[i]) == TreeIn(Pick(parts, r), loaded);
      DoneIsGrafted(g[n][i], done, g, loaded, parts);
      assert grafted.refs[i] == GraftRef(t, trees, i);
    }
    assert TreeIn(n, g).refs == grafted.refs;
  }

  /**
   * The check of a validators step puts the parts it was given in place; `nodes` are all the cell objects loaded.
   * One part object may end up at many positions, and the parts may refer to each other.
   */
  method Reassemble(cells: seq<CellNode>, ghost nodes: set<CellNode>) returns (root: CellNode)
    requires cells != [] && Loaded(Snapshot(nodes))
    requires forall j | 0 <= j < |cells| :: cells[j] in nodes
    modifies nodes
    ensures root == cells[0]
    ensures Descends(Snapshot(nodes))
    ensures TreeIn(root, Snapshot(nodes))
            == Graft(TreeIn(root, old(Snapshot(nodes))), Trees(cells[1..], old(Snapshot(nodes))))
  {
    ghost var loaded := Snapshot(nodes);
    root := cells[0];
    if |cells| > 1 {
      ghost var done;
      root, done := WalkTree(root, cells[1..], nodes, loaded, {});
      PartlyGraftedDescends(Snapshot(nodes), loaded, cells[1..]);
      DoneIsGrafted(root, done, Snapshot(nodes), loaded, cells[1..]);
    } else {
      GraftNothing(TreeIn(root, loaded), Trees(cells[1..], loaded));
    }
  }
}
