/** Walking a Merkle-Patricia proof from a root hash to a value. */
module MerklePatricia {
  import opened ByteStrings
  import opened Results

  type Nibble = n: nat | n < 16

  /** What RLP decoding yields. */
  datatype Item = Str(bytes: Bytes) | List(items: seq<Item>)

  /** The hash function and the RLP codec the walk relies on. */
  datatype Scheme = Scheme(keccak: Bytes -> Bytes, decode: Bytes -> Option<seq<Item>>, encode: seq<Item> -> Bytes)

  // ------------------------------------------------------------------- nibbles

  function StringToNibbles(b: Bytes): (r: seq<Nibble>)
    ensures |r| == 2 * |b|
  {
    if b == [] then [] else [b[0] / 16, b[0] % 16] + StringToNibbles(b[1..])
  }

  /** One past the first index at which `b` differs from `a`, or the length of `a`. */
  method MatchingNibbleLength(a: seq<Nibble>, b: seq<Nibble>) returns (n: nat)
    ensures n == Matching(a, b)
  {
    var i := 0;
    while i < |a| && i < |b| && a[i] == b[i]
      invariant i <= |a| && i <= |b| && a[..i] == b[..i]
    {
      i := i + 1;
    }
    MatchingFrom(a, b, i);
    n := if i == |a| then |a| else i + 1;
  }

  function Matching(a: seq<Nibble>, b: seq<Nibble>): nat {
    if a == [] then 0 else if b == [] || a[0] != b[0] then 1 else 1 + Matching(a[1..], b[1..])
  }

  lemma MatchingFrom(a: seq<Nibble>, b: seq<Nibble>, i: nat)
    requires i <= |a| && i <= |b| && a[..i] == b[..i]
    ensures Matching(a, b) == i + Matching(a[i..], b[i..])
  {
    if i > 0 {
      assert a[0] == b[0] by { assert a[..i][0] == b[..i][0]; }
      assert a[1..][..i - 1] == a[..i][1..] && b[1..][..i - 1] == b[..i][1..];
      MatchingFrom(a[1..], b[1..], i - 1);
      assert a[1..][i - 1..] == a[i..] && b[1..][i - 1..] == b[i..];
    } else {
      assert a[0..] == a && b[0..] == b;
    }
  }

  /** All nibbles of a node key but the last one agree with the rest of the path. */
  predicate LooselyMatches(nodeKey: seq<Nibble>, key: seq<Nibble>) {
    nodeKey == [] || (|nodeKey| - 1 <= |key| && nodeKey[..|nodeKey| - 1] == key[..|nodeKey| - 1])
  }

  /** The test the walk makes is passed exactly when all nibbles but the last agree. */
  lemma {:induction false} MatchingIgnoresLast(nodeKey: seq<Nibble>, key: seq<Nibble>)
    ensures Matching(nodeKey, key) == |nodeKey| <==> LooselyMatches(nodeKey, key)
    decreases |nodeKey|
  {
    if |nodeKey| > 1 {
      var k := |nodeKey| - 1;
      if key != [] {
        MatchingIgnoresLast(nodeKey[1..], key[1..]);
        assert nodeKey[..k] == [nodeKey[0]] + nodeKey[1..][..k - 1];
        if k <= |key| {
          assert key[..k] == [key[0]] + key[1..][..k - 1];
        }
      }
    }
  }

  // --------------------------------------------------------------------- nodes

  datatype Node =
    | Empty
    | Branch(children: seq<Item>, value: Item)
    | Leaf(key: seq<Nibble>, value: Item)
    | Extension(key: seq<Nibble>, value: Item)

  /** Hex-prefix decoding: whether the key belongs to a leaf, and its nibbles. */
  function HexPrefixIsLeaf(b: Bytes): bool {
    b != [] && b[0] / 16 > 1
  }

  function HexPrefixKey(b: Bytes): seq<Nibble> {
    if b == [] then [] else StringToNibbles(b)[if (b[0] / 16) % 2 == 1 then 1 else 2..]
  }

  /** Every byte gives its high nibble and then its low one. */
  lemma {:induction false} NibbleAt(b: Bytes, i: nat)
    requires i < |b|
    ensures StringToNibbles(b)[2 * i] == b[i] / 16 && StringToNibbles(b)[2 * i + 1] == b[i] % 16
    decreases |b|
  {
    if i > 0 { NibbleAt(b[1..], i - 1); }
  }

  /** A first nibble of two or more marks a leaf; the key follows an odd first nibble, and any other first two. */
  lemma HexPrefixMeans(b: Bytes)
    requires b != []
    ensures var nibbles := StringToNibbles(b);
            && (HexPrefixIsLeaf(b) <==> nibbles[0] >= 2)
            && HexPrefixKey(b) == nibbles[2 - nibbles[0] % 2..]
  {
    NibbleAt(b, 0);
  }

  function Drop(key: seq<Nibble>, n: nat): seq<Nibble> {
    if n <= |key| then key[n..] else []
  }

  function ParseNode(data: seq<Item>): Result<Node> {
    if |data| == 17 then Ok(Branch(data[..16], data[16]))
    else if |data| == 2 then
      match data[0]
      case List(_) => Error("key is a list")
      case Str(b) =>
        Ok(if HexPrefixIsLeaf(b) then Leaf(HexPrefixKey(b), data[1]) else Extension(HexPrefixKey(b), data[1]))
    else if |data| == 0 then Ok(Empty)
    else Error("Unknown type")
  }

  function Length(item: Item): nat {
    match item
    case Str(b) => |b|
    case List(items) => |items|
  }

  // ---------------------------------------------------------------------- walk

  /** What one proof node leads to. */
  datatype Step = Fail | Return(value: Item) | Continue(wanted: Item, key: seq<Nibble>)

  /** Taking the key of an embedded node: it has to be the last node and to use up the path. */
  function StepEmbedded(items: seq<Item>, key: seq<Nibble>, last: bool): Step {
    match ParseNode(items)
    case Error(_) => Fail
    case Ok(node) =>
      if !last || node.Empty? || node.Branch? then Fail
      else if Matching(node.key, key) != |node.key| || Drop(key, |node.key|) != [] then Fail
      else Return(node.value)
  }

  function StepNode(node: Node, key: seq<Nibble>, last: bool, expected: Bytes): Step {
    match node
    case Empty => Fail
    case Branch(children, value) =>
      if key == [] then (if last then Return(value) else Fail)
      else if |children| != 16 then Fail
      else
        var child := children[key[0]];
        if Length(child) == 2 then
          match child
          case Str(_) => Fail
          case List(items) => StepEmbedded(items, key[1..], last)
        else Continue(child, key[1..])
    case _ =>
      if Matching(node.key, key) != |node.key| then Fail
      else if Drop(key, |node.key|) == [] then
        if last && node.value == Str(expected) then Return(node.value) else Fail
      else Continue(node.value, Drop(key, |node.key|))
  }

  /**
   * What a leaf or extension leads to: nothing unless its key loosely matches; its value, if the path ends there, the
   * node is the last one and the value is the expected one; and otherwise its value as the next wanted hash.
   */
  lemma KeyedStepMeans(node: Node, key: seq<Nibble>, last: bool, expected: Bytes)
    requires node.Leaf? || node.Extension?
    ensures var step := StepNode(node, key, last, expected);
            && (step.Return? <==>
                LooselyMatches(node.key, key) && |key| <= |node.key| && last && node.value == Str(expected))
            && (step.Return? ==> step.value == Str(expected))
            && (step.Continue? <==> LooselyMatches(node.key, key) && |key| > |node.key|)
            && (step.Continue? ==> key == key[..|node.key|] + step.key && step.wanted == node.value)
  {
    MatchingIgnoresLast(node.key, key);
  }

  /**
   * What a branch leads to: at the end of the path its own value, if it is the last node; otherwise the child that the
   * next nibble names, as the next wanted hash or, if two items are embedded there, as a last keyed node. Neither value
   * is compared with the expected one.
   */
  lemma BranchStepMeans(node: Node, key: seq<Nibble>, last: bool, expected: Bytes)
    requires node.Branch? && |node.children| == 16
    ensures var step := StepNode(node, key, last, expected);
            && (key == [] ==> !step.Continue? && (step.Return? <==> last) && (last ==> step.value == node.value))
            && (key != [] ==>
                  var child, rest := node.children[key[0]], key[1..];
                  && (step.Continue? <==> if child.Str? then |child.bytes| != 2 else |child.items| != 2)
                  && (step.Continue? ==> step.wanted == child && step.key == rest)
                  && (step.Return? <==>
                      && child.List? && |child.items| == 2 && child.items[0].Str? && last
                      && LooselyMatches(HexPrefixKey(child.items[0].bytes), rest)
                      && |rest| <= |HexPrefixKey(child.items[0].bytes)|)
                  && (step.Return? ==> step.value == child.items[1]))
  {
    if key != [] {
      var child := node.children[key[0]];
      if child.List? && |child.items| == 2 && child.items[0].Str? {
        MatchingIgnoresLast(HexPrefixKey(child.items[0].bytes), key[1..]);
      }
    }
  }

  /** One node of a proof, checked against the hash that is wanted. */
  function StepProof(s: Scheme, wanted: Item, key: seq<Nibble>, p: Bytes, last: bool, expected: Bytes): Step {
    if wanted != Str(s.keccak(p)) then Fail
    else
      match s.decode(p)
      case None => Fail
      case Some(items) =>
        match ParseNode(items)
        case Error(_) => Fail
        case Ok(node) => StepNode(node, key, last, expected)
  }

  /** The outcome of walking the rest of a proof. */
  function Walk(s: Scheme, wanted: Item, key: seq<Nibble>, proof: seq<Bytes>, expected: Bytes): Option<Item>
    decreases |proof|
  {
    if proof == [] then None
    else
      match StepProof(s, wanted, key, proof[0], |proof| == 1, expected)
      case Fail => None
      case Return(value) => Some(value)
      case Continue(next, rest) => Walk(s, next, rest, proof[1..], expected)
  }

  /** An embedded node in a slot of a branch. */
  method VisitEmbedded(items: seq<Item>, key: seq<Nibble>, last: bool) returns (step: Step)
    ensures step == StepEmbedded(items, key, last)
  {
    var parsed := ParseNode(items);
    if parsed.Error? || !last || parsed.value.Empty? || parsed.value.Branch? {
      return Fail;
    }
    var n := MatchingNibbleLength(parsed.value.key, key);
    if n != |parsed.value.key| || |Drop(key, n)| != 0 {
      return Fail;
    }
    step := Return(parsed.value.value);
  }

  /** One node of the proof; a failing step stands for any of the exceptions. */
  method VisitNode(node: Node, path: seq<Nibble>, last: bool, expectedValue: Bytes) returns (step: Step)
    requires node.Branch? ==> |node.children| == 16
    ensures step == StepNode(node, path, last, expectedValue)
  {
    var key := path;
    match node {
      case Empty =>
        step := Fail;
      case Branch(children, value) =>
        if |key| == 0 {
          return if last then Return(value) else Fail;
        }
        var child := children[key[0]];
        key := key[1..];
        if Length(child) == 2 {
          if child.Str? {
            return Fail;
          }
          step := VisitEmbedded(child.items, key, last);
        } else {
          step := Continue(child, key);
        }
      case _ =>
        var n := MatchingNibbleLength(node.key, key);
        if n != |node.key| {
          return Fail;
        }
        key := Drop(key, |node.key|);
        if |key| == 0 {
          return if last && node.value == Str(expectedValue) then Return(node.value) else Fail;
        }
        step := Continue(node.value, key);
    }
  }

  /** Follows the proof from the root hash; the expected value is given, not null. */
  method VerifyMerkleProof(s: Scheme, rootHash: Bytes, path: Bytes, proof: seq<Bytes>, expectedValue: Bytes)
    returns (r: Result<Item>)
    ensures match Walk(s, Str(rootHash), StringToNibbles(path), proof, expectedValue)
            case Some(v) => r == Ok(v)
            case None => r.Error?
  {
    var key := StringToNibbles(path);
    var wantedHash := Str(rootHash);
    for i := 0 to |proof|
      invariant Walk(s, Str(rootHash), StringToNibbles(path), proof, expectedValue)
                == Walk(s, wantedHash, key, proof[i..], expectedValue)
    {
      var p := proof[i];
      assert proof[i..][0] == p && proof[i..][1..] == proof[i + 1..];
      if wantedHash != Str(s.keccak(p)) {
        return Error("Bad proof node: hash mismatch");
      }
      var data := s.decode(p);
      if data.None? {
        return Error("not RLP");
      }
      var parsed := ParseNode(data.value);
      if parsed.Error? {
        return Error(parsed.message);
      }
      var step := VisitNode(parsed.value, key, i == |proof| - 1, expectedValue);
      match step {
        case Fail =>
          return Error("Bad proof node");
        case Return(value) =>
          return Ok(value);
        case Continue(next, rest) =>
          wantedHash, key := next, rest;
      }
    }
    assert proof[|proof|..] == [];
    r := Error("Unexpected end of proof");
  }

  // ------------------------------------------------------------------- binding

  /** No node of one proof collides with a node of the other. */
  ghost predicate NoCollision(s: Scheme, p: seq<Bytes>, q: seq<Bytes>) {
    forall i, j | 0 <= i < |p| && 0 <= j < |q| && s.keccak(p[i]) == s.keccak(q[j]) :: p[i] == q[j]
  }

  /** Which node is the last one matters only to a step that returns. */
  lemma LastOnlyReturns(node: Node, key: seq<Nibble>, e: Bytes, f: Bytes)
    ensures StepNode(node, key, false, e) == StepNode(node, key, true, f)
            || (StepNode(node, key, false, e).Fail? && !StepNode(node, key, true, f).Continue?)
    ensures !StepNode(node, key, false, e).Return?
  {
  }

  /** For one root and one path at most one proof is accepted, and with one value, whatever values are expected. */
  lemma {:induction false} ProofsBind(s: Scheme, wanted: Item, key: seq<Nibble>,
                                      p: seq<Bytes>, q: seq<Bytes>, e: Bytes, f: Bytes)
    requires NoCollision(s, p, q)
    requires Walk(s, wanted, key, p, e).Some? && Walk(s, wanted, key, q, f).Some?
    ensures p == q && Walk(s, wanted, key, p, e) == Walk(s, wanted, key, q, f)
    decreases |p|
  {
    assert p[0] == q[0];
    var node := ParseNode(s.decode(p[0]).value).value;
    LastOnlyReturns(node, key, e, f);
    LastOnlyReturns(node, key, f, e);
    var step := StepNode(node, key, |p| == 1, e);
    if step.Continue? {
      assert NoCollision(s, p[1..], q[1..]);
      assert StepNode(node, key, |q| == 1, f).Continue?;
      ProofsBind(s, step.wanted, step.key, p[1..], q[1..], e, f);
      assert p == [p[0]] + p[1..] && q == [q[0]] + q[1..];
    } else {
      assert |p| == 1 && |q| == 1;
      assert p == [p[0]] && q == [q[0]];
    }
  }

  /** A proof that is accepted is no longer accepted once further nodes are added. */
  lemma {:induction false} NoTrailingNodes(s: Scheme, wanted: Item, key: seq<Nibble>,
                                           p: seq<Bytes>, more: seq<Bytes>, e: Bytes)
    requires Walk(s, wanted, key, p, e).Some? && more != []
    ensures Walk(s, wanted, key, p + more, e) == None
    decreases |p|
  {
    var all := p + more;
    var node := ParseNode(s.decode(p[0]).value).value;
    LastOnlyReturns(node, key, e, e);
    assert all[0] == p[0] && all[1..] == p[1..] + more;
    var step := StepNode(node, key, |p| == 1, e);
    if step.Continue? {
      NoTrailingNodes(s, step.wanted, step.key, p[1..], more, e);
    }
  }
}
