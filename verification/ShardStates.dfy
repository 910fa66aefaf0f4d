/** The chains to the leaves of a shard state, one of which becomes its proof. */
module ShardStates {
  import opened Cells
  import opened BlockUtils
  import opened Paths
  import opened ProofHashes

  /** A chain through ordinary cells to an ordinary cell without references. */
  predicate IsLeafChain(chain: seq<Cell>) {
    && chain != [] && chain[|chain| - 1].refs == []
    && forall k | 0 <= k < |chain| :: !chain[k].kind.IsExotic()
  }

  function LeafChains(chains: seq<seq<Cell>>): seq<seq<Cell>> {
    if chains == [] then []
    else (if IsLeafChain(chains[0]) then [chains[0]] else []) + LeafChains(chains[1..])
  }

  lemma {:induction false} LeafChainsAppend(a: seq<seq<Cell>>, b: seq<seq<Cell>>)
    ensures LeafChains(a + b) == LeafChains(a) + LeafChains(b)
  {
    if a == [] {
      assert a + b == b;
    } else {
      var head := if IsLeafChain(a[0]) then [a[0]] else [];
      LeafChainsAppend(a[1..], b);
      calc {
        LeafChains(a + b);
        { assert (a + b)[0] == a[0] && (a + b)[1..] == a[1..] + b; }
        head + LeafChains(a[1..] + b);
        head + (LeafChains(a[1..]) + LeafChains(b));
        head + LeafChains(a[1..]) + LeafChains(b);
      }
    }
  }

  lemma LeafChainUnshift(c: Cell, chain: seq<Cell>)
    requires !c.kind.IsExotic() && chain != []
    ensures IsLeafChain([c] + chain) <==> IsLeafChain(chain)
  {
    var up := [c] + chain;
    assert up[|up| - 1] == chain[|chain| - 1];
    assert forall k | 0 <= k < |chain| :: up[k + 1] == chain[k];
  }

  /** Going one ordinary cell up keeps leaf chains. */
  lemma {:induction false} LeafChainsUnshift(c: Cell, lists: seq<seq<Cell>>)
    requires !c.kind.IsExotic() && forall i | 0 <= i < |lists| :: lists[i] != []
    ensures LeafChains(Unshift(c, lists)) == Unshift(c, LeafChains(lists))
    decreases |lists|
  {
    var u := Unshift(c, lists);
    if lists != [] {
      assert u[1..] == Unshift(c, lists[1..]);
      LeafChainsUnshift(c, lists[1..]);
      LeafChainUnshift(c, lists[0]);
    }
  }

  /** Chains that start at an exotic cell are no leaf chains. */
  lemma {:induction false} ExoticStartsAreNoLeafChains(lists: seq<seq<Cell>>)
    requires forall i | 0 <= i < |lists| :: lists[i] != [] && lists[i][0].kind.IsExotic()
    ensures LeafChains(lists) == []
    decreases |lists|
  {
    if lists != [] {
      ExoticStartsAreNoLeafChains(lists[1..]);
    }
  }

  lemma ChainsStart(c: Cell)
    ensures forall i | 0 <= i < |Chains(c)| :: Chains(c)[i] != [] && Chains(c)[i][0] == c
  {
    ChainsAlong(c);
  }

  /** The leaf chains below one reference: none through an exotic one. */
  lemma LeafChainsBelow(root: Cell, i: nat)
    requires !root.kind.IsExotic() && i < |root.refs|
    ensures var r := root.refs[i];
            LeafChains(Unshift(root, Chains(r)))
            == Unshift(root, if r.kind.IsExotic() then [] else LeafChains(Chains(r)))
  {
    ChainsStart(root.refs[i]);
    LeafChainsUnshift(root, Chains(root.refs[i]));
    if root.refs[i].kind.IsExotic() { ExoticStartsAreNoLeafChains(Chains(root.refs[i])); }
  }

  lemma LeafStep(root: Cell, i: nat, res: seq<seq<Cell>>, more: seq<seq<Cell>>)
    requires !root.kind.IsExotic() && i < |root.refs|
    requires Unshift(root, res) == LeafChains(RefChains(root, i))
    requires more == if root.refs[i].kind.IsExotic() then [] else LeafChains(Chains(root.refs[i]))
    ensures Unshift(root, res + more) == LeafChains(RefChains(root, i + 1))
  {
    var before, here := RefChains(root, i), Unshift(root, Chains(root.refs[i]));
    LeafChainsBelow(root, i);
    LeafChainsAppend(before, here);
    UnshiftAppend(root, res, more);
    assert RefChains(root, i + 1) == before + here;
  }

  lemma UnshiftAppend(c: Cell, a: seq<seq<Cell>>, b: seq<seq<Cell>>)
    ensures Unshift(c, a + b) == Unshift(c, a) + Unshift(c, b)
  {
  }

  // ------------------------------------------------------------- the positions

  /** Here stands a cell without references, and from the root to it there are ordinary cells only. */
  ghost predicate IsLeafAt(root: Cell, a: Address) {
    IsAddress(root, a) && At(root, a).refs == [] && forall k | 0 <= k <= |a| :: Along(root, a)[k].kind.Ordinary?
  }

  /** The chains to all these positions, each once and from left to right. */
  ghost predicate ListsLeafs(root: Cell, leafs: seq<Address>, res: seq<seq<Cell>>) {
    && Ordered(leafs) && |res| == |leafs|
    && (forall i | 0 <= i < |leafs| :: IsAddress(root, leafs[i]) && res[i] == Along(root, leafs[i]))
    && (forall a :: a in leafs <==> IsLeafAt(root, a))
  }

  ghost predicate AllAddresses(root: Cell, list: seq<Address>) {
    forall i | 0 <= i < |list| :: IsAddress(root, list[i])
  }

  ghost function LeafsAmong(root: Cell, list: seq<Address>): seq<Address> {
    if list == [] then [] else (if IsLeafAt(root, list[0]) then [list[0]] else []) + LeafsAmong(root, list[1..])
  }

  lemma {:induction false} AmongThese(root: Cell, list: seq<Address>, a: Address)
    ensures a in LeafsAmong(root, list) <==> a in list && IsLeafAt(root, a)
    decreases |list|
  {
    if list != [] {
      AmongThese(root, list[1..], a);
      assert list == [list[0]] + list[1..];
    }
  }

  lemma {:induction false} LeafsStayOrdered(root: Cell, list: seq<Address>)
    requires Ordered(list)
    ensures Ordered(LeafsAmong(root, list))
    decreases |list|
  {
    if list != [] {
      var later := LeafsAmong(root, list[1..]);
      LeafsStayOrdered(root, list[1..]);
      forall j | 0 <= j < |later|
        ensures Before(list[0], later[j])
      {
        AmongThese(root, list[1..], later[j]);
        var k :| 0 <= k < |list[1..]| && list[1..][k] == later[j];
        assert Before(list[0], list[k + 1]);
      }
    }
  }

  /** The leaf chains among chains to given positions lead to the leaf positions among these. */
  lemma {:induction false} LeafChainsLead(root: Cell, list: seq<Address>, chains: seq<seq<Cell>>)
    requires |chains| == |list| && AllAddresses(root, list)
    requires forall i | 0 <= i < |list| :: chains[i] == Along(root, list[i])
    ensures var leafs := LeafsAmong(root, list);
            && |leafs| == |LeafChains(chains)| && AllAddresses(root, leafs)
            && forall i | 0 <= i < |leafs| :: LeafChains(chains)[i] == Along(root, leafs[i])
    decreases |list|
  {
    if list != [] {
      assert IsLeafChain(chains[0]) <==> IsLeafAt(root, list[0]);
      LeafChainsLead(root, list[1..], chains[1..]);
    }
  }

  /** Of an ordinary root exactly the leaf positions are listed. */
  lemma LeafPositions(root: Cell) returns (leafs: seq<Address>)
    ensures ListsLeafs(root, leafs, LeafChains(Chains(root)))
  {
    ChainsListAll(root);
    leafs := LeafsAmong(root, Addresses(root));
    LeafsStayOrdered(root, Addresses(root));
    LeafChainsLead(root, Addresses(root), Chains(root));
    forall a
      ensures a in leafs <==> IsLeafAt(root, a)
    {
      AmongThese(root, Addresses(root), a);
    }
  }

  /** Lists, from left to right, exactly the chains of an ordinary root to its leaf positions. */
  method CollectLeafs(root: Cell) returns (res: seq<seq<Cell>>)
    ensures root.kind.IsExotic() ==> res == [[root]]
    ensures !root.kind.IsExotic() ==> res == LeafChains(Chains(root))
    ensures root.kind.Ordinary? ==> exists leafs :: ListsLeafs(root, leafs, res)
    decreases root
  {
    ghost var leafs := LeafPositions(root);
    if root.kind.IsExotic() || |root.refs| == 0 {
      return [[root]];
    }
    res := [];
    for i := 0 to |root.refs|
      invariant Unshift(root, res) == LeafChains(RefChains(root, i))
    {
      var more := [];
      if !root.refs[i].kind.IsExotic() {
        more := CollectLeafs(root.refs[i]);
      }
      LeafStep(root, i, res, more);
      res := res + more;
    }
    LeafChainsAppend([[root]], RefChains(root, |root.refs|));
    ghost var found := res;
    for j := 0 to |res|
      invariant |res| == |found|
      invariant forall k | 0 <= k < |res| :: res[k] == if k < j then [root] + found[k] else found[k]
    {
      res := res[j := [root] + res[j]];
    }
    assert res == Unshift(root, found);
  }

  /** A root whose references are all exotic has no leaf chain. */
  lemma OnlyExoticRefs(root: Cell)
    requires !root.kind.IsExotic() && root.refs != []
    requires forall i | 0 <= i < |root.refs| :: root.refs[i].kind.IsExotic()
    ensures LeafChains(Chains(root)) == []
  {
    LeafChainsAppend([[root]], RefChains(root, |root.refs|));
    NoLeafBelow(root, |root.refs|);
  }

  lemma {:induction false} NoLeafBelow(root: Cell, k: nat)
    requires !root.kind.IsExotic() && k <= |root.refs|
    requires forall i | 0 <= i < |root.refs| :: root.refs[i].kind.IsExotic()
    ensures LeafChains(RefChains(root, k)) == []
    decreases k
  {
    if k > 0 {
      NoLeafBelow(root, k - 1);
      ChainsStart(root.refs[k - 1]);
      LeafChainsUnshift(root, Chains(root.refs[k - 1]));
      ExoticStartsAreNoLeafChains(Chains(root.refs[k - 1]));
      LeafChainsAppend(RefChains(root, k - 1), Unshift(root, Chains(root.refs[k - 1])));
    }
  }

  lemma {:induction false} LeafChainsAmong(chains: seq<seq<Cell>>, chain: seq<Cell>)
    ensures chain in LeafChains(chains) <==> chain in chains && IsLeafChain(chain)
  {
    if chains != [] {
      LeafChainsAmong(chains[1..], chain);
      assert chains == [chains[0]] + chains[1..];
    }
  }

  lemma AddressOfChain(root: Cell, chain: seq<Cell>) returns (a: Address)
    requires chain in Chains(root)
    ensures IsAddress(root, a) && chain == Along(root, a)
  {
    ChainsAlong(root);
    var i :| 0 <= i < |Chains(root)| && Chains(root)[i] == chain;
    a := Addresses(root)[i];
  }

  /** Whichever leaf is chosen, the proof of its chain has the hash of the root and the whole of the leaf. */
  lemma LeafIsProven(root: Cell, chain: seq<Cell>) returns (a: Address)
    requires chain in LeafChains(Chains(root)) && DepthsAgree(chain)
    ensures chain != [] && Hash0(ProofOf(chain, false)) == Hash0(root)
    ensures IsAddress(ProofOf(chain, false), a) && At(ProofOf(chain, false), a) == chain[|chain| - 1]
  {
    LeafChainsAmong(Chains(root), chain);
    a := AddressOfChain(root, chain);
    OrdinaryPathIsSafe(chain, false);
    SafeProofKeepsHash(chain, false);
    LastOfProof(root, a);
    assert ProofOf([At(root, a)], false).refs == [];
  }

  lemma {:induction false} SafePathAgrees(c: Cell, a: Address)
    requires IsAddress(c, a) && SafePath(Along(c, a), false)
    requires forall k | 0 <= k < |Along(c, a)| :: !Along(c, a)[k].kind.IsMerkle()
    ensures DepthsAgree(Along(c, a))
    decreases |a|
  {
    if a != [] {
      var path, r := Along(c, a), c.refs[a[0]];
      assert path[1..] == Along(r, a[1..]) && OnPath(path, r);
      assert forall k | 0 <= k < |path[1..]| :: path[1..][k] == path[k + 1];
      SafePathAgrees(r, a[1..]);
    }
  }

  /** Where pruned branches are level-1 ones, it has the hash of the root only if look-alikes have the right depths. */
  lemma LeafHashExactly(root: Cell, chain: seq<Cell>)
    requires chain in LeafChains(Chains(root)) && AllPlain(chain)
    ensures chain != [] && (Hash0(ProofOf(chain, false)) == Hash0(root) <==> DepthsAgree(chain))
  {
    LeafChainsAmong(Chains(root), chain);
    var a := AddressOfChain(root, chain);
    ProofKeepsHashExactly(chain, false);
    if SafePath(chain, false) { SafePathAgrees(root, a); }
    if DepthsAgree(chain) { OrdinaryPathIsSafe(chain, false); }
  }
}
