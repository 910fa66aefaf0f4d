/** Which proofs the walk accepts for a trie whose root hash is known. */
module Tries {
  import opened ByteStrings
  import opened MerklePatricia
  import opened Results

  /** A trie that keeps values in leaves only and refers to every child by hash. */
  datatype Trie =
    | LeafNode(key: seq<Nibble>, value: Bytes)
    | ExtensionNode(key: seq<Nibble>, child: Trie)
    | BranchNode(children: seq<Option<Trie>>)

  /** Branches have sixteen slots, and an extension leads to a branch. */
  predicate WellFormed(t: Trie) {
    match t
    case LeafNode(_, _) => true
    case ExtensionNode(_, child) => child.BranchNode? && WellFormed(child)
    case BranchNode(children) =>
      |children| == 16 && forall i | 0 <= i < 16 && children[i].Some? :: WellFormed(children[i].value)
  }

  /** The value stored under a key. */
  function Lookup(t: Trie, key: seq<Nibble>): Option<Bytes>
    requires WellFormed(t)
  {
    match t
    case LeafNode(k, v) => if k == key then Some(v) else None
    case ExtensionNode(k, child) => if k <= key then Lookup(child, key[|k|..]) else None
    case BranchNode(children) =>
      if key == [] || children[key[0]].None? then None else Lookup(children[key[0]].value, key[1..])
  }

  // ------------------------------------------------------------------ encoding

  function Pack(high: nat, low: nat): (b: Byte)
    requires high < 16 && low < 16
    ensures b / 16 == high && b % 16 == low
  {
    high * 16 + low
  }

  function Pairs(key: seq<Nibble>): Bytes
    requires |key| % 2 == 0
  {
    if key == [] then [] else [Pack(key[0], key[1])] + Pairs(key[2..])
  }

  function HexPrefix(key: seq<Nibble>, leaf: bool): Bytes {
    var flag := if leaf then 2 else 0;
    if |key| % 2 == 1 then [Pack(flag + 1, key[0])] + Pairs(key[1..]) else [Pack(flag, 0)] + Pairs(key)
  }

  lemma {:induction false} PairsToNibbles(key: seq<Nibble>)
    requires |key| % 2 == 0
    ensures StringToNibbles(Pairs(key)) == key
    decreases |key|
  {
    if key != [] {
      PairsToNibbles(key[2..]);
      assert Pairs(key)[1..] == Pairs(key[2..]);
      assert key == [key[0], key[1]] + key[2..];
    }
  }

  lemma PackedNibbles(high: nat, low: nat, key: seq<Nibble>)
    requires high < 16 && low < 16 && |key| % 2 == 0
    ensures StringToNibbles([Pack(high, low)] + Pairs(key)) == [high, low] + key
  {
    PairsToNibbles(key);
    assert ([Pack(high, low)] + Pairs(key))[1..] == Pairs(key);
  }

  /** Decoding a hex-prefix encoded key gives back the key and its flag. */
  lemma HexPrefixRoundTrip(key: seq<Nibble>, leaf: bool)
    ensures HexPrefixKey(HexPrefix(key, leaf)) == key && HexPrefixIsLeaf(HexPrefix(key, leaf)) == leaf
  {
    var flag := if leaf then 2 else 0;
    if |key| % 2 == 1 {
      PackedNibbles(flag + 1, key[0], key[1..]);
      assert ([flag + 1, key[0]] + key[1..])[1..] == key;
    } else {
      PackedNibbles(flag, 0, key);
      assert ([flag, 0] + key)[2..] == key;
    }
  }

  function Items(s: Scheme, t: Trie): seq<Item>
    decreases t, 0, 2
  {
    match t
    case LeafNode(key, value) => [Str(HexPrefix(key, true)), Str(value)]
    case ExtensionNode(key, child) => [Str(HexPrefix(key, false)), Str(NodeHash(s, child))]
    case BranchNode(_) => Slots(s, t) + [Str([])]
  }

  function Slots(s: Scheme, t: Trie): (r: seq<Item>)
    requires t.BranchNode?
    ensures |r| == |t.children|
    ensures forall i | 0 <= i < |r| :: r[i] == Slot(s, t, i)
    decreases t, 0, 1
  {
    seq(|t.children|, i requires 0 <= i < |t.children| => Slot(s, t, i))
  }

  function Slot(s: Scheme, t: Trie, i: nat): Item
    requires t.BranchNode? && i < |t.children|
    decreases t, 0, 0
  {
    match t.children[i]
    case None => Str([])
    case Some(child) => Str(NodeHash(s, child))
  }

  function NodeBytes(s: Scheme, t: Trie): Bytes
    decreases t, 1
  {
    s.encode(Items(s, t))
  }

  function NodeHash(s: Scheme, t: Trie): Bytes
    decreases t, 2
  {
    s.keccak(NodeBytes(s, t))
  }

  /** Decoding inverts encoding, and hashes have 32 bytes. */
  ghost predicate Faithful(s: Scheme) {
    && (forall items :: s.decode(s.encode(items)) == Some(items))
    && (forall b :: |s.keccak(b)| == 32)
  }

  // ------------------------------------------------- exactly what is accepted

  /** The proof the walk accepts for this key and expected value, and the value it then returns. */
  function Accepted(s: Scheme, t: Trie, key: seq<Nibble>, expected: Bytes): Option<(seq<Bytes>, Item)>
    requires WellFormed(t)
  {
    match t
    case LeafNode(k, v) =>
      if LooselyMatches(k, key) && |key| <= |k| && v == expected then Some(([NodeBytes(s, t)], Str(v))) else None
    case ExtensionNode(k, child) =>
      if !LooselyMatches(k, key) then None
      else if |key| <= |k| then
        if NodeHash(s, child) == expected then Some(([NodeBytes(s, t)], Str(expected))) else None
      else Below(s, t, Accepted(s, child, key[|k|..], expected))
    case BranchNode(children) =>
      if key == [] then Some(([NodeBytes(s, t)], Str([])))
      else if children[key[0]].None? then None
      else Below(s, t, Accepted(s, children[key[0]].value, key[1..], expected))
  }

  function Below(s: Scheme, t: Trie, rest: Option<(seq<Bytes>, Item)>): Option<(seq<Bytes>, Item)> {
    match rest
    case None => None
    case Some(r) => Some(([NodeBytes(s, t)] + r.0, r.1))
  }

  /**
   * No node of the proof collides with a trie node on the way of the path; and if a leaf is reached before the path
   * ends, its value is not the hash of a node of the proof, because the walk then follows the value as a hash.
   */
  ghost predicate Unrelated(s: Scheme, t: Trie, key: seq<Nibble>, proof: seq<Bytes>)
    requires WellFormed(t)
  {
    && (forall i | 0 <= i < |proof| && s.keccak(proof[i]) == NodeHash(s, t) :: proof[i] == NodeBytes(s, t))
    && match t
       case LeafNode(k, v) => |key| > |k| ==> forall i | 0 <= i < |proof| :: s.keccak(proof[i]) != v
       case ExtensionNode(k, child) => |key| > |k| ==> Unrelated(s, child, key[|k|..], proof)
       case BranchNode(children) =>
         key != [] && children[key[0]].Some? ==> Unrelated(s, children[key[0]].value, key[1..], proof)
  }

  lemma {:induction false} UnrelatedRest(s: Scheme, t: Trie, key: seq<Nibble>, proof: seq<Bytes>)
    requires WellFormed(t) && Unrelated(s, t, key, proof) && proof != []
    ensures Unrelated(s, t, key, proof[1..])
    decreases t
  {
    match t
    case LeafNode(_, _) =>
    case ExtensionNode(k, child) =>
      if |key| > |k| { UnrelatedRest(s, child, key[|k|..], proof); }
    case BranchNode(children) =>
      if key != [] && children[key[0]].Some? { UnrelatedRest(s, children[key[0]].value, key[1..], proof); }
  }

  function NodeOf(s: Scheme, t: Trie): Node {
    match t
    case LeafNode(k, v) => Leaf(k, Str(v))
    case ExtensionNode(k, child) => Extension(k, Str(NodeHash(s, child)))
    case BranchNode(_) => Branch(Slots(s, t), Str([]))
  }

  lemma ParseOwnNode(s: Scheme, t: Trie)
    requires WellFormed(t) && Faithful(s)
    ensures s.decode(NodeBytes(s, t)) == Some(Items(s, t))
    ensures ParseNode(Items(s, t)) == Ok(NodeOf(s, t))
  {
    match t
    case LeafNode(k, _) => HexPrefixRoundTrip(k, true);
    case ExtensionNode(k, _) => HexPrefixRoundTrip(k, false);
    case BranchNode(_) =>
      assert Items(s, t)[..16] == Slots(s, t);
  }

  lemma NothingHashesTo(s: Scheme, wanted: Bytes, key: seq<Nibble>, proof: seq<Bytes>, expected: Bytes)
    requires forall i | 0 <= i < |proof| :: s.keccak(proof[i]) != wanted
    ensures Walk(s, Str(wanted), key, proof, expected) == None
  {
  }

  lemma {:induction false} RestIsAccepted(s: Scheme, t: Trie, proof: seq<Bytes>, rest: Option<(seq<Bytes>, Item)>,
                                          v: Item)
    requires proof != [] && proof[0] == NodeBytes(s, t)
    ensures rest == Some((proof[1..], v)) <==> Below(s, t, rest) == Some((proof, v))
  {
    assert proof == [proof[0]] + proof[1..];
    if rest.Some? && Below(s, t, rest) == Some((proof, v)) {
      assert ([NodeBytes(s, t)] + rest.value.0)[1..] == rest.value.0;
    }
  }

  /** The walk over a proof that starts with the root of the trie continues as the root says. */
  lemma WalkFromRoot(s: Scheme, t: Trie, key: seq<Nibble>, proof: seq<Bytes>, expected: Bytes)
    requires WellFormed(t) && Faithful(s) && proof != [] && proof[0] == NodeBytes(s, t)
    ensures var step := StepNode(NodeOf(s, t), key, |proof| == 1, expected);
            Walk(s, Str(NodeHash(s, t)), key, proof, expected)
            == if step.Fail? then None else if step.Return? then Some(step.value)
               else Walk(s, step.wanted, step.key, proof[1..], expected)
    ensures |proof| == 1 ==> proof == [NodeBytes(s, t)]
  {
    ParseOwnNode(s, t);
  }

  lemma LeafAcceptsExactly(s: Scheme, t: Trie, key: seq<Nibble>, proof: seq<Bytes>, expected: Bytes, v: Item)
    requires WellFormed(t) && Faithful(s) && Unrelated(s, t, key, proof)
    requires t.LeafNode? && proof != [] && proof[0] == NodeBytes(s, t)
    ensures Walk(s, Str(NodeHash(s, t)), key, proof, expected) == Some(v)
            <==> Accepted(s, t, key, expected) == Some((proof, v))
  {
    WalkFromRoot(s, t, key, proof, expected);
    MatchingIgnoresLast(t.key, key);
    if |key| > |t.key| {
      NothingHashesTo(s, t.value, key[|t.key|..], proof[1..], expected);
    }
  }

  lemma ExtensionAcceptsExactly(s: Scheme, t: Trie, key: seq<Nibble>, proof: seq<Bytes>, expected: Bytes, v: Item)
    requires WellFormed(t) && Faithful(s)
    requires t.ExtensionNode? && proof != [] && proof[0] == NodeBytes(s, t)
    requires |key| > |t.key| ==>
               (Walk(s, Str(NodeHash(s, t.child)), key[|t.key|..], proof[1..], expected) == Some(v)
                <==> Accepted(s, t.child, key[|t.key|..], expected) == Some((proof[1..], v)))
    ensures Walk(s, Str(NodeHash(s, t)), key, proof, expected) == Some(v)
            <==> Accepted(s, t, key, expected) == Some((proof, v))
  {
    WalkFromRoot(s, t, key, proof, expected);
    MatchingIgnoresLast(t.key, key);
    if |key| > |t.key| {
      RestIsAccepted(s, t, proof, Accepted(s, t.child, key[|t.key|..], expected), v);
    }
  }

  lemma BranchAcceptsExactly(s: Scheme, t: Trie, key: seq<Nibble>, proof: seq<Bytes>, expected: Bytes, v: Item)
    requires WellFormed(t) && Faithful(s)
    requires t.BranchNode? && proof != [] && proof[0] == NodeBytes(s, t)
    requires key != [] && t.children[key[0]].Some? ==>
               var child := t.children[key[0]].value;
               (Walk(s, Str(NodeHash(s, child)), key[1..], proof[1..], expected) == Some(v)
                <==> Accepted(s, child, key[1..], expected) == Some((proof[1..], v)))
    ensures Walk(s, Str(NodeHash(s, t)), key, proof, expected) == Some(v)
            <==> Accepted(s, t, key, expected) == Some((proof, v))
  {
    WalkFromRoot(s, t, key, proof, expected);
    if key != [] {
      assert Slots(s, t)[key[0]] == Slot(s, t, key[0]);
      if t.children[key[0]].None? {
        NothingHashesTo(s, [], key[1..], proof[1..], expected);
      } else {
        RestIsAccepted(s, t, proof, Accepted(s, t.children[key[0]].value, key[1..], expected), v);
      }
    }
  }

  /** A proof is accepted with a value exactly when it is the one that the trie determines. */
  lemma {:induction false} WalkAcceptsExactly(s: Scheme, t: Trie, key: seq<Nibble>, proof: seq<Bytes>,
                                              expected: Bytes, v: Item)
    requires WellFormed(t) && Faithful(s) && Unrelated(s, t, key, proof)
    ensures Walk(s, Str(NodeHash(s, t)), key, proof, expected) == Some(v)
            <==> Accepted(s, t, key, expected) == Some((proof, v))
    decreases t
  {
    StartsWithRoot(s, t, key, expected);
    if proof != [] && s.keccak(proof[0]) == NodeHash(s, t) {
      assert proof[0] == NodeBytes(s, t);
      UnrelatedRest(s, t, key, proof);
      match t {
        case LeafNode(_, _) =>
          LeafAcceptsExactly(s, t, key, proof, expected, v);
        case ExtensionNode(k, child) =>
          if |key| > |k| { WalkAcceptsExactly(s, child, key[|k|..], proof[1..], expected, v); }
          ExtensionAcceptsExactly(s, t, key, proof, expected, v);
        case BranchNode(children) =>
          if key != [] && children[key[0]].Some? {
            WalkAcceptsExactly(s, children[key[0]].value, key[1..], proof[1..], expected, v);
          }
          BranchAcceptsExactly(s, t, key, proof, expected, v);
      }
    }
  }

  lemma StartsWithRoot(s: Scheme, t: Trie, key: seq<Nibble>, expected: Bytes)
    requires WellFormed(t)
    ensures match Accepted(s, t, key, expected)
            case None => true
            case Some(r) => r.0 != [] && r.0[0] == NodeBytes(s, t)
  {
  }

  /** The proof that the trie determines is accepted whatever collides with it. */
  lemma {:induction false} AcceptedProofWalks(s: Scheme, t: Trie, key: seq<Nibble>, expected: Bytes)
    requires WellFormed(t) && Faithful(s) && Accepted(s, t, key, expected).Some?
    ensures var r := Accepted(s, t, key, expected).value;
            Walk(s, Str(NodeHash(s, t)), key, r.0, expected) == Some(r.1)
    decreases t
  {
    var proof := Accepted(s, t, key, expected).value.0;
    StartsWithRoot(s, t, key, expected);
    WalkFromRoot(s, t, key, proof, expected);
    match t
    case LeafNode(k, _) =>
      MatchingIgnoresLast(k, key);
    case ExtensionNode(k, child) =>
      MatchingIgnoresLast(k, key);
      if |key| > |k| {
        AcceptedProofWalks(s, child, key[|k|..], expected);
        StartsWithRoot(s, child, key[|k|..], expected);
        assert proof[1..] == Accepted(s, child, key[|k|..], expected).value.0;
      }
    case BranchNode(children) =>
      if key != [] {
        assert Slots(s, t)[key[0]] == Slot(s, t, key[0]);
        AcceptedProofWalks(s, children[key[0]].value, key[1..], expected);
        StartsWithRoot(s, children[key[0]].value, key[1..], expected);
        assert proof[1..] == Accepted(s, children[key[0]].value, key[1..], expected).value.0;
      }
  }

  // ----------------------------------------------------------- stored keys

  /** For a stored key, the value that is accepted is the stored one and no other. */
  lemma {:induction false} StoredKeyIsAccepted(s: Scheme, t: Trie, key: seq<Nibble>, expected: Bytes)
    requires WellFormed(t) && Lookup(t, key).Some?
    ensures Accepted(s, t, key, expected).Some? <==> Lookup(t, key) == Some(expected)
    ensures Accepted(s, t, key, expected).Some? ==> Accepted(s, t, key, expected).value.1 == Str(expected)
    decreases t
  {
    match t
    case LeafNode(_, _) =>
    case ExtensionNode(k, child) =>
      assert key == k + key[|k|..];
      assert LooselyMatches(k, key);
      StoredKeyIsAccepted(s, child, key[|k|..], expected);
    case BranchNode(children) =>
      StoredKeyIsAccepted(s, children[key[0]].value, key[1..], expected);
  }

  /** No node of the proof collides with a node of the trie. */
  ghost predicate NoNodeCollision(s: Scheme, t: Trie, proof: seq<Bytes>) {
    && (forall i | 0 <= i < |proof| && s.keccak(proof[i]) == NodeHash(s, t) :: proof[i] == NodeBytes(s, t))
    && match t
       case LeafNode(_, _) => true
       case ExtensionNode(_, child) => NoNodeCollision(s, child, proof)
       case BranchNode(children) =>
         forall i | 0 <= i < |children| && children[i].Some? :: NoNodeCollision(s, children[i].value, proof)
  }

  /** For a stored key the absence of collisions is enough. */
  lemma {:induction false} StoredKeyIsUnrelated(s: Scheme, t: Trie, key: seq<Nibble>, proof: seq<Bytes>)
    requires WellFormed(t) && Lookup(t, key).Some? && NoNodeCollision(s, t, proof)
    ensures Unrelated(s, t, key, proof)
    decreases t
  {
    match t
    case LeafNode(_, _) =>
    case ExtensionNode(k, child) => StoredKeyIsUnrelated(s, child, key[|k|..], proof);
    case BranchNode(children) => StoredKeyIsUnrelated(s, children[key[0]].value, key[1..], proof);
  }

  /** The nodes along a stored key prove its value, and no other proof makes the walk return anything for that key. */
  lemma StoredValueIsProven(s: Scheme, t: Trie, path: Bytes, value: Bytes) returns (proof: seq<Bytes>)
    requires WellFormed(t) && Faithful(s) && Lookup(t, StringToNibbles(path)) == Some(value)
    ensures Walk(s, Str(NodeHash(s, t)), StringToNibbles(path), proof, value) == Some(Str(value))
    ensures forall q, e, v |
              NoNodeCollision(s, t, q) && Walk(s, Str(NodeHash(s, t)), StringToNibbles(path), q, e) == Some(v) ::
              q == proof && e == value && v == Str(value)
  {
    var key := StringToNibbles(path);
    StoredKeyIsAccepted(s, t, key, value);
    proof := Accepted(s, t, key, value).value.0;
    AcceptedProofWalks(s, t, key, value);
    forall q, e, v | NoNodeCollision(s, t, q) && Walk(s, Str(NodeHash(s, t)), key, q, e) == Some(v)
      ensures q == proof && e == value && v == Str(value)
    {
      StoredKeyIsUnrelated(s, t, key, q);
      WalkAcceptsExactly(s, t, key, q, e, v);
      StoredKeyIsAccepted(s, t, key, e);
    }
  }

  // ------------------------------------------------- when acceptance is right

  /**
   * Read from the proof alone: the key of every leaf or extension is a full prefix of the rest of the path, its last
   * nibble included, and the last node is a leaf whose key is the rest of the path.
   */
  predicate MatchesInFull(s: Scheme, proof: seq<Bytes>, key: seq<Nibble>)
    decreases |proof|
  {
    && proof != [] && s.decode(proof[0]).Some? && ParseNode(s.decode(proof[0]).value).Ok?
    && match ParseNode(s.decode(proof[0]).value).value
       case Empty => false
       case Branch(_, _) => key != [] && MatchesInFull(s, proof[1..], key[1..])
       case Leaf(k, _) => |proof| == 1 && k == key
       case Extension(k, _) => k <= key && MatchesInFull(s, proof[1..], key[|k|..])
  }

  lemma {:induction false} TrieProofMatches(s: Scheme, t: Trie, key: seq<Nibble>, expected: Bytes)
    requires WellFormed(t) && Faithful(s) && Accepted(s, t, key, expected).Some?
    ensures MatchesInFull(s, Accepted(s, t, key, expected).value.0, key) <==> Lookup(t, key) == Some(expected)
    decreases t
  {
    var proof := Accepted(s, t, key, expected).value.0;
    StartsWithRoot(s, t, key, expected);
    ParseOwnNode(s, t);
    match t
    case LeafNode(_, _) =>
    case ExtensionNode(k, child) =>
      if |key| > |k| {
        TrieProofMatches(s, child, key[|k|..], expected);
        assert proof[1..] == Accepted(s, child, key[|k|..], expected).value.0;
      } else if k <= key {
        assert key[|k|..] == [];
        assert !MatchesInFull(s, proof[1..], []);
      }
    case BranchNode(children) =>
      if key != [] {
        TrieProofMatches(s, children[key[0]].value, key[1..], expected);
        assert proof[1..] == Accepted(s, children[key[0]].value, key[1..], expected).value.0;
      }
  }

  /** What is accepted is stored under the path exactly when the nodes of the proof match the path in full. */
  lemma AcceptedIsStoredExactly(s: Scheme, t: Trie, key: seq<Nibble>, proof: seq<Bytes>, expected: Bytes, v: Item)
    requires WellFormed(t) && Faithful(s) && Unrelated(s, t, key, proof)
    requires Walk(s, Str(NodeHash(s, t)), key, proof, expected) == Some(v)
    ensures MatchesInFull(s, proof, key) <==> Lookup(t, key) == Some(expected)
  {
    WalkAcceptsExactly(s, t, key, proof, expected, v);
    TrieProofMatches(s, t, key, expected);
  }

  /** The last nibble of a leaf key is not compared: the path 0x13 is accepted though only 0x12 is stored. */
  lemma WrongKeyIsAccepted(s: Scheme, value: Bytes)
    requires Faithful(s)
    ensures var t := LeafNode([1, 2], value);
            && WellFormed(t)
            && Lookup(t, StringToNibbles([0x12])) == Some(value) && Lookup(t, StringToNibbles([0x13])) == None
            && Walk(s, Str(NodeHash(s, t)), StringToNibbles([0x13]), [NodeBytes(s, t)], value) == Some(Str(value))
            && !MatchesInFull(s, [NodeBytes(s, t)], StringToNibbles([0x13]))
  {
    var t := LeafNode([1, 2], value);
    ParseOwnNode(s, t);
    ByteNibbles(0x12);
    ByteNibbles(0x13);
    assert LooselyMatches([1, 2], [1, 3]);
    MatchingIgnoresLast([1, 2], [1, 3]);
  }

  lemma ByteNibbles(b: Byte)
    ensures StringToNibbles([b]) == [b / 16, b % 16]
  {
    assert [b][1..] == [];
  }
}
