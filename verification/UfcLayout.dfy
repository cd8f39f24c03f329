/**
 How UFC-crypt lays bit strings out in words.

 A 48-bit value takes four runs of twelve bits, three bits above each 16-bit boundary,
 so that a run masked out of the word is already the byte offset of an 8-byte table entry.
 */
module UfcLayout {
  import opened Bits
  import opened Des
  import opened UfcTables

  /** Which of 24 bits sits at position `p` of a half word, if any. */
  function At24(p: nat): int {
    if 19 <= p <= 30 then 30 - p else if 3 <= p <= 14 then 26 - p else -1
  }

  function At48(p: nat): int {
    if p < 32 then (if At24(p) < 0 then -1 else 24 + At24(p)) else At24(p - 32)
  }

  lemma At24BitMask(p: nat)
    ensures At24(p) < 24 && (At24(p) >= 0 ==> BitMask(At24(p)) == p)
    ensures forall k :: 0 <= k < 24 ==> (BitMask(k) == p <==> At24(p) == k)
  {
  }

  ghost function Spread24(b: seq<bool>): (w: Word)
    requires |b| == 24
  {
    set p: nat | p < 32 && 0 <= At24(p) && b[At24(p)]
  }

  ghost function Spread48(b: Bits48): (w: Word)
    ensures forall p: nat :: p in w <==> p < 64 && At48(p) >= 0 && b[At48(p)]
  {
    set p: nat | p < 64 && 0 <= At48(p) && b[At48(p)]
  }

  /** Bit `p` of a bit string counted from its least significant end. */
  predicate FromEnd(b: seq<bool>, p: nat) { p < |b| && b[|b| - 1 - p] }

  /** A bit string right-aligned in a word. */
  ghost function Aligned(b: seq<bool>): (w: Word)
    requires |b| <= 64
  {
    set p: nat | p < |b| && FromEnd(b, p)
  }

  lemma JoinHalves(b: Bits48)
    ensures Or(Shl(Spread24(b[..24]), 32), Spread24(b[24..])) == Spread48(b)
  {
    var w := Or(Shl(Spread24(b[..24]), 32), Spread24(b[24..]));
    forall p: nat ensures p in w <==> p in Spread48(b) {
    }
  }

  lemma SplitHalves(b: Bits48)
    ensures Shr(Spread48(b), 32) == Spread24(b[..24])
    ensures Low(Spread48(b), 32) == Spread24(b[24..])
  {
    SplitHigh(b);
    SplitLow(b);
  }

  lemma SplitHigh(b: Bits48)
    ensures Shr(Spread48(b), 32) == Spread24(b[..24])
  {
    forall p: nat ensures p in Shr(Spread48(b), 32) <==> p in Spread24(b[..24]) {
    }
  }

  lemma SplitLow(b: Bits48)
    ensures Low(Spread48(b), 32) == Spread24(b[24..])
  {
    forall p: nat ensures p in Low(Spread48(b), 32) <==> p in Spread24(b[24..]) {
    }
  }

  lemma Spread48Xor(a: Bits48, b: Bits48)
    ensures Xor(Spread48(a), Spread48(b)) == Spread48(XorBits(a, b))
  {
  }
}
