/** Which bits a number is written with. */
module BitStrings {
  import opened Cells

  /** The number of some bits tells these bits. */
  lemma {:induction false} SameBits(a: seq<bool>, b: seq<bool>)
    requires |a| == |b| && BitsToNat(a) == BitsToNat(b)
    ensures a == b
    decreases |a|
  {
    if a != [] {
      var n := |a| - 1;
      assert (BitsToNat(a) % 2 == 1 <==> a[n]) && (BitsToNat(b) % 2 == 1 <==> b[n]);
      SameBits(a[..n], b[..n]);
      assert a == a[..n] + [a[n]] && b == b[..n] + [b[n]];
    }
  }

  lemma {:induction false} ZeroBits(bits: seq<bool>)
    requires forall i | 0 <= i < |bits| :: !bits[i]
    ensures BitsToNat(bits) == 0
    decreases |bits|
  {
    if bits != [] { ZeroBits(bits[..|bits| - 1]); }
  }

  lemma OneBit(bits: seq<bool>, bit: bool)
    ensures BitsToNat(bits + [bit]) == 2 * BitsToNat(bits) + if bit then 1 else 0
  {
    assert (bits + [bit])[..|bits|] == bits;
  }

  lemma TwoBits(bits: seq<bool>, p: bool, q: bool)
    ensures BitsToNat(bits + [p, q]) == 4 * BitsToNat(bits) + (if p then 2 else 0) + if q then 1 else 0
  {
    OneBit(bits, p);
    OneBit(bits + [p], q);
    assert bits + [p, q] == bits + [p] + [q];
  }

  lemma FourBits(bits: seq<bool>, p: bool, q: bool, r: bool, s: bool)
    ensures BitsToNat(bits + [p, q, r, s]) == 16 * BitsToNat(bits)
            + (if p then 8 else 0) + (if q then 4 else 0) + (if r then 2 else 0) + if s then 1 else 0
  {
    TwoBits(bits, p, q);
    TwoBits(bits + [p, q], r, s);
    assert bits + [p, q, r, s] == bits + [p, q] + [r, s];
  }

  const HEX_5 := [false, true, false, true]
  const HEX_A := [true, false, true, false]
  const HEX_C := [true, true, false, false]
}
