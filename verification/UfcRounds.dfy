/**
 The fused S-box tables, the salt, and one round of _ufc_doit_r, against the cipher
 function of FIPS 46-3.
 */
module UfcRounds {
  import opened Bits
  import opened Fips46
  import opened Des
  import opened UfcTables
  import opened UfcLayout
  import opened CryptSpec

  // ----- The salt -----

  /** Saltbits name positions of a half word that carry data. */
  ghost predicate SaltWord(bits: Word) { forall p :: p in bits ==> At24(p) >= 0 }

  /** The table entries that saltbits exchange. */
  function SaltOf(bits: Word): set<nat> { set k: nat | k < 24 && BitMask(k) in bits }

  /** The expansion table with entries `i` and `i + 24` exchanged where the salt says so. */
  function SaltedE(e: seq<nat>, bits: Word): seq<nat>
    requires |e| == 48
  {
    seq(48, i requires 0 <= i < 48 => if BitMask(Lower(i)) in bits then e[Mate(i)] else e[i])
  }

  lemma SaltedSelects(e: seq<nat>, bits: Word)
    requires Expansion(e)
    ensures Expansion(SaltedE(e, bits))
  {
  }

  /** Exchanging by word positions is exchanging by table entries. */
  lemma SaltedByEntries(e: seq<nat>, bits: Word)
    requires |e| == 48
    ensures SaltedE(e, bits) == Salted(e, SaltOf(bits))
  {
  }

  /** Whether the salt exchanges the pair of expansion entries marked by position `p`. */
  predicate SaltOn(s0: Char, s1: Char, p: nat) { 19 <= p <= 30 && Exchanges(s0, s1, 30 - p) }

  function SaltBits(s0: Char, s1: Char): (w: Word)
    ensures SaltWord(w)
  {
    set p: nat | p < 32 && SaltOn(s0, s1, p)
  }

  /** The saltbits of two characters are the salt laid out in a word. */
  lemma SaltOfBits(s0: Char, s1: Char)
    ensures SaltOf(SaltBits(s0, s1)) == Salt(s0, s1)
  {
    forall k: nat ensures k in SaltOf(SaltBits(s0, s1)) <==> k in Salt(s0, s1) {
    }
  }

  lemma DotsAreUnsalted()
    ensures SaltBits(DOT, DOT) == {}
  {
    forall p: nat ensures !SaltOn(DOT, DOT, p) {
      if 19 <= p <= 30 {
        NatBitOfZero(if p > 24 then 30 - p else 24 - p);
      }
    }
  }

  /** The salt whose two characters are NUL is not the unsalted one. */
  lemma NulSaltIsSalted()
    ensures SaltBits(0, 0) != {}
  {
    assert AsciiToBin(0) % 64 == 18;
    assert NatBit(18, 1);
    assert SaltOn(0, 0, 29);
    assert 29 in SaltBits(0, 0);
  }

  lemma Unsalted(e: seq<nat>)
    requires |e| == 48
    ensures SaltedE(e, {}) == e
  {
  }

  /** One step of shuffle_sb. */
  function Shuffle(k: Word, bits: Word): Word {
    var x := And(Xor(Shr(k, 32), k), bits);
    Xor(k, Or(Shl(x, 32), x))
  }

  /** A 48-bit string with bits `i` and `i + 24` exchanged where `bits` says so. */
  function SwapBits(b: Bits48, bits: Word): Bits48 {
    seq(48, i requires 0 <= i < 48 => if BitMask(Lower(i)) in bits then b[Mate(i)] else b[i])
  }

  /** Each pair of positions `p`, `p + 32` is exchanged where `bits` has `p`. */
  lemma ShuffleAt(k: Word, bits: Word, p: nat)
    requires forall i :: i in bits ==> i < 32
    requires p < 32
    ensures p in Shuffle(k, bits) <==> (if p in bits then p + 32 in k else p in k)
    ensures p + 32 in Shuffle(k, bits) <==> (if p in bits then p in k else p + 32 in k)
  {
    var x := And(Xor(Shr(k, 32), k), bits);
    assert p in x <==> p in bits && (p + 32 in k) != (p in k);
    assert p + 32 !in x;
  }

  lemma Spread48At(b: Bits48, i: nat)
    requires i < 24
    ensures BitMask(i) in Spread48(b) <==> b[i + 24]
    ensures BitMask(i) + 32 in Spread48(b) <==> b[i]
  {
    At24BitMask(BitMask(i));
  }

  lemma ShuffleSwaps(b: Bits48, bits: Word)
    requires SaltWord(bits)
    ensures Shuffle(Spread48(b), bits) == Spread48(SwapBits(b, bits))
  {
    var k, k' := Spread48(b), Spread48(SwapBits(b, bits));
    var s := Shuffle(k, bits);
    forall p: nat | p < 32
      ensures AgreeAt(s, k', p)
    {
      ShuffleAt(k, bits, p);
      At24BitMask(p);
      if At24(p) >= 0 {
        Spread48At(b, At24(p));
        Spread48At(SwapBits(b, bits), At24(p));
      }
    }
    WordsEqual(s, k');
  }

  ghost predicate AgreeAt(a: Word, b: Word, p: nat) {
    (p in a <==> p in b) && (p + 32 in a <==> p + 32 in b)
  }

  lemma WordsEqual(a: Word, b: Word)
    requires forall p: nat :: p < 32 ==> AgreeAt(a, b, p)
    ensures a == b
  {
    forall p: nat | p < 64
      ensures p in a <==> p in b
    {
      assert AgreeAt(a, b, if p < 32 then p else p - 32);
    }
  }

  lemma SwapPermute(x: Bits32, e: seq<nat>, from: Word, into: Word)
    requires Expansion(e)
    requires Expansion(SaltedE(e, from)) && Expansion(SaltedE(e, into))
    ensures SwapBits(Permute(x, SaltedE(e, from)), Xor(from, into)) == Permute(x, SaltedE(e, into))
  {
  }

  /** Shuffling by the difference of two salts turns entries for one into entries for the other. */
  lemma ShuffleResalts(x: Bits32, e: seq<nat>, from: Word, into: Word)
    requires Expansion(e) && SaltWord(from) && SaltWord(into)
    requires Expansion(SaltedE(e, from)) && Expansion(SaltedE(e, into))
    ensures Shuffle(Spread48(Permute(x, SaltedE(e, from))), Xor(from, into)) == Spread48(Permute(x, SaltedE(e, into)))
  {
    ShuffleSwaps(Permute(x, SaltedE(e, from)), Xor(from, into));
    SwapPermute(x, e, from, into);
  }

  // ----- The fused tables -----

  ghost predicate AreSBoxes(s: seq<seq<seq<nat>>>) {
    |s| == 8 && forall b :: 0 <= b < 8 ==> IsSBox(s[b])
  }

  /** s_lookup: S-box `i` indexed by a six-bit number. */
  function SLookup(s: seq<seq<seq<nat>>>, i: nat, j: nat): (v: nat)
    requires AreSBoxes(s) && i < 8 && j < 64
    ensures v < 16
  {
    assert IsSBox(s[i]) && Nibbles(s[i][j / 32 * 2 + j % 2]);
    s[i][j / 32 * 2 + j % 2][j / 2 % 16]
  }

  /** The byte two adjacent S-boxes produce for a 12-bit segment. */
  function SByte(s: seq<seq<seq<nat>>>, sg: nat, inx: nat): (v: nat)
    requires AreSBoxes(s) && sg < 4 && inx < 4096
    ensures v < 256
  {
    SLookup(s, 2 * sg, inx / 64) * 16 + SLookup(s, 2 * sg + 1, inx % 64)
  }

  /** Thirty-two bits that are zero except for byte `sg`. */
  function ByteAt(v: nat, sg: nat): Bits32 {
    seq(32, i requires 0 <= i < 32 => i / 8 == sg && NatBit(v, 7 - i % 8))
  }

  /** What an entry of the sb tables must be: S-boxes, then P, then the salted expansion. */
  ghost function SbEntry(t: Tables, e: seq<nat>, sg: nat, inx: nat): Word
    requires t.WellFormed() && Expansion(e) && sg < 4 && inx < 4096
  {
    Spread48(Permute(Permute(ByteAt(SByte(t.s, sg, inx), sg), t.p), e))
  }

  // ----- One round -----

  function Six(x: Bits48, a: nat): (v: nat)
    requires a + 6 <= 48
    ensures v < 64
  {
    32 * BoolVal(x[a]) + 16 * BoolVal(x[a + 1]) + 8 * BoolVal(x[a + 2]) +
    4 * BoolVal(x[a + 3]) + 2 * BoolVal(x[a + 4]) + BoolVal(x[a + 5])
  }

  /** The table index held in segment `sg` of a 48-bit value. */
  function Segment(x: Bits48, sg: nat): (v: nat)
    requires sg < 4
    ensures v < 4096
  {
    64 * Six(x, 12 * sg) + Six(x, 12 * sg + 6)
  }

  lemma SixLookup(t: Tables, x: Bits48, i: nat)
    requires t.WellFormed() && i < 8
    ensures SLookup(t.s, i, Six(x, 6 * i)) == SBox(t, x, i)
  {
    RowAndColumn(BoolVal(x[6 * i]), BoolVal(x[6 * i + 5]),
      8 * BoolVal(x[6 * i + 1]) + 4 * BoolVal(x[6 * i + 2]) + 2 * BoolVal(x[6 * i + 3]) + BoolVal(x[6 * i + 4]));
  }

  lemma RowAndColumn(first: nat, last: nat, column: nat)
    requires first < 2 && last < 2 && column < 16
    ensures var v := 32 * first + 2 * column + last; v / 32 == first && v % 2 == last && v / 2 % 16 == column
  {
  }

  /** The high nibble of a byte, bit by bit, and the low one. */
  lemma NibbleBits(hi: nat, lo: nat, i: nat)
    requires hi < 16 && lo < 16 && i < 8
    ensures NatBit(hi * 16 + lo, i) == if i < 4 then NatBit(lo, i) else NatBit(hi, i - 4)
  {
    var v := hi * 16 + lo;
    assert v / 2 == hi * 8 + lo / 2;
    assert v / 2 / 2 == hi * 4 + lo / 2 / 2;
    assert v / 2 / 2 / 2 == hi * 2 + lo / 2 / 2 / 2;
    assert v / 2 / 2 / 2 / 2 == hi;
    if i >= 4 {
      assert NatBit(v, i) == NatBit(v / 2, i - 1) == NatBit(v / 2 / 2, i - 2);
      assert NatBit(v / 2 / 2, i - 2) == NatBit(v / 2 / 2 / 2, i - 3) == NatBit(hi, i - 4);
    } else if i == 3 {
      assert NatBit(v, 3) == NatBit(v / 2, 2) == NatBit(v / 2 / 2, 1);
      assert NatBit(lo, 3) == NatBit(lo / 2, 2) == NatBit(lo / 2 / 2, 1);
    }
  }

  lemma SegmentByte(t: Tables, x: Bits48, sg: nat)
    requires t.WellFormed() && sg < 4
    ensures SByte(t.s, sg, Segment(x, sg)) == SBox(t, x, 2 * sg) * 16 + SBox(t, x, 2 * sg + 1)
  {
    SixLookup(t, x, 2 * sg);
    SixLookup(t, x, 2 * sg + 1);
    assert 6 * (2 * sg) == 12 * sg && 6 * (2 * sg + 1) == 12 * sg + 6;
    assert Segment(x, sg) / 64 == Six(x, 12 * sg) && Segment(x, sg) % 64 == Six(x, 12 * sg + 6);
  }

  /** The bytes of the four segments are the four bytes of the selection functions' output. */
  lemma SegmentSelects(t: Tables, x: Bits48, i: nat)
    requires t.WellFormed() && i < 32
    ensures NatBit(SByte(t.s, i / 8, Segment(x, i / 8)), 7 - i % 8) == Select(t, x)[i]
  {
    var sg := i / 8;
    SegmentByte(t, x, sg);
    NibbleBits(SBox(t, x, 2 * sg), SBox(t, x, 2 * sg + 1), 7 - i % 8);
    assert i / 4 == if i % 8 < 4 then 2 * sg else 2 * sg + 1;
    assert 3 - i % 4 == if i % 8 < 4 then 7 - i % 8 - 4 else 7 - i % 8;
  }

  // A key-schedule word is the round key plus the two bits that select the odd tables.

  const TABLE_FLAGS: Word := {15, 47}

  ghost function KeyWord(k: Bits48): Word { Or(Spread48(k), TABLE_FLAGS) }

  lemma KeyedWord(k: Bits48, x: Bits48)
    ensures Xor(KeyWord(k), Spread48(x)) == Or(Spread48(XorBits(x, k)), TABLE_FLAGS)
  {
  }

  /** SBA: the table entry at a byte offset, read through a base at table 0 or table 2. */
  function EntryIndex(base: nat, offset: nat): nat { 4096 * base + offset / 8 }

  /** Six bits of a word from position `lo` are bits `a .. a + 5` of `x`. */
  ghost predicate HoldsSix(w: Word, lo: nat, x: Bits48, a: nat)
    requires a + 6 <= 48
  {
    && (lo in w <==> x[a + 5]) && (lo + 1 in w <==> x[a + 4]) && (lo + 2 in w <==> x[a + 3])
    && (lo + 3 in w <==> x[a + 2]) && (lo + 4 in w <==> x[a + 1]) && (lo + 5 in w <==> x[a])
  }

  lemma FieldSix(w: Word, lo: nat, x: Bits48, a: nat, m: nat)
    requires a + 6 <= 48 && HoldsSix(w, lo, x, a)
    ensures Field(w, lo, 6 + m) == Six(x, a) + 64 * Field(w, lo + 6, m)
  {
    FieldSplit3(w, lo, 3 + m);
    FieldSplit3(w, lo + 3, m);
  }

  lemma SegmentBit(x: Bits48, sg: nat, j: nat, p: nat, i: nat)
    requires sg < 4 && j < 12 && p == 51 - 16 * sg + j && i == 12 * sg + 11 - j
    ensures p in Or(Spread48(x), TABLE_FLAGS) <==> x[i]
  {
    assert At48(p) == i;
  }

  lemma SixBits(x: Bits48, sg: nat, j: nat, lo: nat, a: nat)
    requires sg < 4 && j <= 6 && lo == 51 - 16 * sg + j && a == 12 * sg + 6 - j
    ensures HoldsSix(Or(Spread48(x), TABLE_FLAGS), lo, x, a)
  {
    SegmentBit(x, sg, j, lo, a + 5);
    SegmentBit(x, sg, j + 1, lo + 1, a + 4);
    SegmentBit(x, sg, j + 2, lo + 2, a + 3);
    SegmentBit(x, sg, j + 3, lo + 3, a + 2);
    SegmentBit(x, sg, j + 4, lo + 4, a + 1);
    SegmentBit(x, sg, j + 5, lo + 5, a);
  }

  /** The word holds segment `a / 12` of `x` from position `lo`, between clear low bits and a flag. */
  ghost predicate HoldsSegment(w: Word, lo: nat, x: Bits48, a: nat, flag: bool)
    requires a + 12 <= 48
  {
    && HoldsSix(w, lo + 3, x, a + 6) && HoldsSix(w, lo + 9, x, a)
    && lo !in w && lo + 1 !in w && lo + 2 !in w && (lo + 15 in w <==> flag)
  }

  lemma SegmentHolds(x: Bits48, sg: nat)
    requires sg < 4
    ensures HoldsSegment(Or(Spread48(x), TABLE_FLAGS), 48 - 16 * sg, x, 12 * sg, sg % 2 == 1)
  {
    SixBits(x, sg, 0, 48 - 16 * sg + 3, 12 * sg + 6);
    SixBits(x, sg, 6, 48 - 16 * sg + 9, 12 * sg);
    SegmentMargins(x, sg);
  }

  /** Around the twelve data bits of a segment: three zeroes below, the table flag above. */
  lemma SegmentMargins(x: Bits48, sg: nat)
    requires sg < 4
    ensures var w, lo := Or(Spread48(x), TABLE_FLAGS), 48 - 16 * sg;
      lo !in w && lo + 1 !in w && lo + 2 !in w && (lo + 15 in w <==> sg % 2 == 1)
  {
    var lo := 48 - 16 * sg;
    assert At48(lo) == -1 && At48(lo + 1) == -1 && At48(lo + 2) == -1 && At48(lo + 15) == -1;
  }

  lemma FieldSegment(w: Word, lo: nat, x: Bits48, a: nat, flag: bool, m: nat)
    requires a + 12 <= 48 && HoldsSegment(w, lo, x, a, flag) && m == 1
    ensures Field(w, lo, 15 + m) == 8 * (64 * Six(x, a) + Six(x, a + 6) + 4096 * BoolVal(flag))
  {
    FieldSplit3(w, lo, 12 + m);
    FieldSix(w, lo + 3, x, a + 6, 6 + m);
    FieldSix(w, lo + 9, x, a, m);
    assert Field(w, lo + 15, m) == BoolVal(lo + 15 in w) by {
      assert Field(w, lo + 16, m - 1) == 0;
    }
  }

  /** Every 16-bit slice of keyed data is the byte offset of the entry of its own table. */
  lemma SegmentOffset(x: Bits48, sg: nat, w: Word, lo: nat, m: nat)
    requires sg < 4 && w == Or(Spread48(x), TABLE_FLAGS) && lo == 48 - 16 * sg && m == 1
    ensures EntryIndex(sg / 2 * 2, Field(w, lo, 15 + m)) == 4096 * sg + Segment(x, sg) && Field(w, lo, 15 + m) % 8 == 0
  {
    SegmentHolds(x, sg);
    FieldSegment(w, lo, x, 12 * sg, sg % 2 == 1, m);
  }

  // ----- Four lookups make one application of the cipher function -----

  lemma XorAssociative(a: Word, b: Word, c: Word)
    ensures Xor(Xor(a, b), c) == Xor(a, Xor(b, c))
  {
  }

  /** The part of the cipher function's output, before the next expansion, due to segment `sg`. */
  ghost function Part(t: Tables, e: seq<nat>, x: Bits48, sg: nat): Bits48
    requires t.WellFormed() && Expansion(e) && sg < 4
  {
    Permute(Permute(ByteAt(SByte(t.s, sg, Segment(x, sg)), sg), t.p), e)
  }

  lemma PartsMakeWhole(t: Tables, e: seq<nat>, x: Bits48)
    requires t.WellFormed() && Expansion(e)
    ensures XorBits(XorBits(XorBits(Part(t, e, x, 3), Part(t, e, x, 2)), Part(t, e, x, 1)), Part(t, e, x, 0)) ==
      Permute(Permute(Select(t, x), t.p), e)
  {
    var p3, p2, p1, p0 := Part(t, e, x, 3), Part(t, e, x, 2), Part(t, e, x, 1), Part(t, e, x, 0);
    var whole := Permute(Permute(Select(t, x), t.p), e);
    forall b | 0 <= b < 48
      ensures XorBits(XorBits(XorBits(p3, p2), p1), p0)[b] == whole[b]
    {
      PartBit(t, e, x, 3, b);
      PartBit(t, e, x, 2, b);
      PartBit(t, e, x, 1, b);
      PartBit(t, e, x, 0, b);
    }
  }

  /** The S-box output bit that ends up at bit `b` after P and the expansion. */
  ghost function Origin(t: Tables, e: seq<nat>, b: nat): (i: nat)
    requires t.WellFormed() && Expansion(e) && b < 48
    ensures i < 32
  {
    t.p[e[b] - 1] - 1
  }

  lemma PartBit(t: Tables, e: seq<nat>, x: Bits48, sg: nat, b: nat)
    requires t.WellFormed() && Expansion(e) && sg < 4 && b < 48
    ensures Part(t, e, x, sg)[b] == (Origin(t, e, b) / 8 == sg && Permute(Permute(Select(t, x), t.p), e)[b])
  {
    var i := Origin(t, e, b);
    var byte := ByteAt(SByte(t.s, sg, Segment(x, sg)), sg);
    assert Permute(Permute(byte, t.p), e)[b] == byte[i];
    assert Permute(Permute(Select(t, x), t.p), e)[b] == Select(t, x)[i];
    SegmentSelects(t, x, i);
  }

  /** `l` after the four lookups of one round: XOR-ed with E(f(R, K)). */
  lemma FourLookups(t: Tables, e: seq<nat>, l: Word, x: Bits48)
    requires t.WellFormed() && Expansion(e)
    ensures
      Xor(Xor(Xor(Xor(l,
        SbEntry(t, e, 3, Segment(x, 3))), SbEntry(t, e, 2, Segment(x, 2))),
        SbEntry(t, e, 1, Segment(x, 1))), SbEntry(t, e, 0, Segment(x, 0))) ==
      Xor(l, Spread48(Permute(Permute(Select(t, x), t.p), e)))
  {
    var p3, p2, p1, p0 := Part(t, e, x, 3), Part(t, e, x, 2), Part(t, e, x, 1), Part(t, e, x, 0);
    Spread48Xor(p3, p2);
    Spread48Xor(XorBits(p3, p2), p1);
    Spread48Xor(XorBits(XorBits(p3, p2), p1), p0);
    XorAssociative(l, Spread48(p3), Spread48(p2));
    XorAssociative(l, Spread48(XorBits(p3, p2)), Spread48(p1));
    XorAssociative(l, Spread48(XorBits(XorBits(p3, p2), p1)), Spread48(p0));
    PartsMakeWhole(t, e, x);
  }

  lemma PermuteXor(a: Bits32, b: Bits32, e: seq<nat>)
    requires Expansion(e)
    ensures Permute(XorBits(a, b), e) == XorBits(Permute(a, e), Permute(b, e))
  {
  }

  /** Both halves stay expanded: the four lookups turn E(L) into E(L xor f(R, K)). */
  lemma RoundKeepsExpanded(t: Tables, e: seq<nat>, h: Halves, k: Bits48)
    requires t.WellFormed() && Expansion(e)
    ensures var x := XorBits(Permute(h.r, e), k);
      Xor(Spread48(Permute(h.l, e)), Spread48(Permute(Permute(Select(t, x), t.p), e))) ==
      Spread48(Permute(Round(t, e, h, k).r, e))
  {
    var f := Cipher(t, e, h.r, k);
    PermuteXor(h.l, f, e);
    Spread48Xor(Permute(h.l, e), Permute(f, e));
  }
}
