/**
 The algorithms of UFC-crypt on its tables, in the 64-bit form: the table-filling loops of
 __init_des_r, shuffle_sb, _ufc_mk_keytab_r, _ufc_doit_r and _ufc_dofinalperm_r.

 `sb` is the four S-box tables one after the other, as they lie in the structure, because
 _ufc_doit_r reaches the odd ones through the address of the even one before them.
 */
module UfcEngine {
  import opened Bits
  import opened Fips46
  import opened Des
  import opened UfcTables
  import opened UfcLayout
  import opened UfcKeys
  import opened UfcPerms
  import opened UfcRounds
  import opened CryptSpec

  ghost predicate TableIs(a: array2<Word>, w: Wiring, cells: nat, entries: nat)
    reads a
  {
    && w.Fits(cells) && a.Length0 == cells && a.Length1 == entries
    && forall c, j :: 0 <= c < cells && 0 <= j < entries ==> a[c, j] == Image(w, cells, |w.cell|, c, j)
  }

  /** The tables shared by all callers, filled once. */
  class SmallTables {
    const t: Tables
    const inv: seq<nat>
    const pc1: array2<Word>
    const pc2: array2<Word>
    const eperm: array2<Word>
    const efp: array2<Word>

    ghost predicate Valid()
      reads pc1, pc2, eperm, efp
    {
      && t.WellFormed() && Unexpands(t.e, inv)
      && TableIs(pc1, Pc1Wiring(t.pc1), 16, 128)
      && TableIs(pc2, Pc2Wiring(t.pc2), 8, 128)
      && TableIs(eperm, ExpandWiring(t.p, t.e), 8, 256)
      && TableIs(efp, FinalWiring(t.fp, inv), 32, 64)
    }

    constructor (t: Tables)
      requires t.WellFormed()
      ensures Valid() && this.t == t
      ensures fresh(pc1) && fresh(pc2) && fresh(eperm) && fresh(efp)
    {
      var e_inverse := InvertExpansion(t.e);
      var a := Build(Pc1Wiring(t.pc1), 16, 128);
      var b := Build(Pc2Wiring(t.pc2), 8, 128);
      var c := Build(ExpandWiring(t.p, t.e), 8, 256);
      var d := Build(FinalWiring(t.fp, e_inverse), 32, 64);
      this.t, inv := t, e_inverse;
      pc1, pc2, eperm, efp := a, b, c, d;
    }
  }

  /** The four half words that hold two expanded halves. */
  ghost function Expanded(e: seq<nat>, h: Halves): (w: seq<Word>)
    requires Expansion(e)
    ensures |w| == 4
  {
    var l, r := Permute(h.l, e), Permute(h.r, e);
    [Spread24(l[..24]), Spread24(l[24..]), Spread24(r[..24]), Spread24(r[24..])]
  }

  // ----- The sb tables -----

  /** The first `n` entries are those for the expansion table perturbed by `bits`. */
  ghost predicate Entries(sb: array<Word>, t: Tables, bits: Word, n: nat)
    reads sb
  {
    && t.WellFormed() && Expansion(SaltedE(t.e, bits)) && n <= sb.Length == 16384
    && forall i :: 0 <= i < n ==> sb[i] == SbEntry(t, SaltedE(t.e, bits), i / 4096, i % 4096)
  }

  /** The loops of __init_des_r that fill sb0 .. sb3. */
  method FillSb(t: Tables, eperm: array2<Word>, sb: array<Word>)
    requires t.WellFormed() && TableIs(eperm, ExpandWiring(t.p, t.e), 8, 256) && sb.Length == 16384
    modifies sb
    ensures Entries(sb, t, {}, 16384)
  {
    Unsalted(t.e);
    for sg := 0 to 4
      invariant Entries(sb, t, {}, 4096 * sg)
    {
      for j1 := 0 to 64
        invariant Entries(sb, t, {}, 4096 * sg + 64 * j1)
      {
        for j2 := 0 to 64
          invariant Entries(sb, t, {}, 4096 * sg + 64 * j1 + j2)
        {
          var w := SbInit(t, eperm, sg, j1, j2);
          AddEntry(sb, t, sg, 64 * j1 + j2, w);
        }
      }
    }
  }

  method AddEntry(sb: array<Word>, t: Tables, sg: nat, inx: nat, w: Word)
    requires sg < 4 && inx < 4096 && Entries(sb, t, {}, 4096 * sg + inx)
    requires w == SbEntry(t, SaltedE(t.e, {}), sg, inx)
    modifies sb
    ensures Entries(sb, t, {}, 4096 * sg + inx + 1)
  {
    var i := 4096 * sg + inx;
    assert i / 4096 == sg && i % 4096 == inx;
    sb[i] := w;
  }

  /** shuffle_sb on the table that starts at entry `base`. */
  method ShuffleSb(sb: array<Word>, base: nat, bits: Word)
    requires base + 4096 <= sb.Length
    modifies sb
    ensures forall i :: 0 <= i < sb.Length ==>
      sb[i] == if base <= i < base + 4096 then Shuffle(old(sb[i]), bits) else old(sb[i])
  {
    for j := 0 to 4096
      invariant forall i :: 0 <= i < sb.Length ==>
        sb[i] == if base <= i < base + j then Shuffle(old(sb[i]), bits) else old(sb[i])
    {
      sb[base + j] := Shuffle(sb[base + j], bits);
    }
  }

  /** All four tables shuffled: entries for one salt become entries for another. */
  method Resalt(t: Tables, sb: array<Word>, from: Word, into: Word)
    requires SaltWord(from) && SaltWord(into) && Entries(sb, t, from, 16384)
    modifies sb
    ensures Entries(sb, t, into, 16384)
  {
    var diff := Xor(from, into);
    ShuffleSb(sb, 0, diff);
    ShuffleSb(sb, 4096, diff);
    ShuffleSb(sb, 8192, diff);
    ShuffleSb(sb, 12288, diff);
    SaltedSelects(t.e, into);
    forall i | 0 <= i < 16384
      ensures sb[i] == SbEntry(t, SaltedE(t.e, into), i / 4096, i % 4096)
    {
      EntryResalts(t, from, into, i / 4096, i % 4096);
    }
  }

  /** The saltbits loop of _ufc_setup_salt_r. */
  method ComputeSaltBits(s0: Char, s1: Char) returns (bits: Word)
    ensures bits == SaltBits(s0, s1)
  {
    bits := {};
    for i := 0 to 2
      invariant bits == set p: nat | p < 32 && 30 - p < 6 * i && SaltOn(s0, s1, p)
    {
      var c := if i == 0 then s0 else s1;
      for j := 0 to 6
        invariant bits == set p: nat | p < 32 && 30 - p < 6 * i + j && SaltOn(s0, s1, p)
      {
        assert SaltBit(c, j) == SaltOn(s0, s1, 30 - (6 * i + j));
        if SaltBit(c, j) {
          bits := Or(bits, {BitMask(6 * i + j)});
        }
      }
    }
  }

  lemma EntryResalts(t: Tables, from: Word, into: Word, sg: nat, inx: nat)
    requires t.WellFormed() && SaltWord(from) && SaltWord(into) && sg < 4 && inx < 4096
    requires Expansion(SaltedE(t.e, from)) && Expansion(SaltedE(t.e, into))
    ensures Shuffle(SbEntry(t, SaltedE(t.e, from), sg, inx), Xor(from, into)) ==
      SbEntry(t, SaltedE(t.e, into), sg, inx)
  {
    ShuffleResalts(Permute(ByteAt(SByte(t.s, sg, inx), sg), t.p), t.e, from, into);
  }

  /** The four byte images, both halves of each, OR-ed as __init_des_r does it. */
  ghost function FourImages(w: Wiring, bytes: seq<nat>): Word
    requires w.Fits(8) && |bytes| == 4
  {
    var n := |w.cell|;
    var w0 := Or(Shl(Image(w, 8, n, 0, bytes[0]), 32), Image(w, 8, n, 1, bytes[0]));
    var w1 := Or(w0, Or(Shl(Image(w, 8, n, 2, bytes[1]), 32), Image(w, 8, n, 3, bytes[1])));
    var w2 := Or(w1, Or(Shl(Image(w, 8, n, 4, bytes[2]), 32), Image(w, 8, n, 5, bytes[2])));
    Or(w2, Or(Shl(Image(w, 8, n, 6, bytes[3]), 32), Image(w, 8, n, 7, bytes[3])))
  }

  lemma FourImagesSplit(w: Wiring, bytes: seq<nat>)
    requires w.Fits(8) && |bytes| == 4
    ensures FourImages(w, bytes) ==
      Or(Shl(OrOf(w, 8, ExpandCells(0), bytes), 32), OrOf(w, 8, ExpandCells(1), bytes))
  {
    OrOfFour(w, 8, ExpandCells(0), bytes);
    OrOfFour(w, 8, ExpandCells(1), bytes);
  }

  lemma FourImagesExpand(p: seq<nat>, e: seq<nat>, bytes: seq<nat>)
    requires |p| == 32 && Selects(p, 32) && Expansion(e) && |bytes| == 4
    ensures FourImages(ExpandWiring(p, e), bytes) == Spread48(Permute(Permute(FourBytes(bytes), p), e))
  {
    var b := Permute(Permute(FourBytes(bytes), p), e);
    FourImagesSplit(ExpandWiring(p, e), bytes);
    ExpandLookup(p, e, bytes, 0);
    ExpandLookup(p, e, bytes, 1);
    assert b[24..48] == b[24..] && b[0..24] == b[..24];
    JoinHalves(b);
  }

  lemma OneByte(bytes: seq<nat>, v: nat, sg: nat)
    requires |bytes| == 4 && sg < 4
    requires forall c :: 0 <= c < 4 ==> bytes[c] == if c == sg then v else 0
    ensures FourBytes(bytes) == ByteAt(v, sg)
  {
    forall i | 0 <= i < 32
      ensures FourBytes(bytes)[i] == ByteAt(v, sg)[i]
    {
      NatBitOfZero(7 - i % 8);
    }
  }

  method OrImages(eperm: array2<Word>, bytes: seq<nat>, ghost wiring: Wiring) returns (w: Word)
    requires TableIs(eperm, wiring, 8, 256) && |bytes| == 4 && forall c :: 0 <= c < 4 ==> bytes[c] < 256
    ensures w == FourImages(wiring, bytes)
  {
    w := Or(Shl(eperm[0, bytes[0]], 32), eperm[1, bytes[0]]);
    w := Or(w, Or(Shl(eperm[2, bytes[1]], 32), eperm[3, bytes[1]]));
    w := Or(w, Or(Shl(eperm[4, bytes[2]], 32), eperm[5, bytes[2]]));
    w := Or(w, Or(Shl(eperm[6, bytes[3]], 32), eperm[7, bytes[3]]));
  }

  lemma SByteSplit(s: seq<seq<seq<nat>>>, sg: nat, j1: nat, j2: nat)
    requires AreSBoxes(s) && sg < 4 && j1 < 64 && j2 < 64
    ensures SByte(s, sg, 64 * j1 + j2) == SLookup(s, 2 * sg, j1) * 16 + SLookup(s, 2 * sg + 1, j2)
  {
    assert (64 * j1 + j2) / 64 == j1 && (64 * j1 + j2) % 64 == j2;
  }

  lemma SbEntryByImages(t: Tables, sg: nat, inx: nat, bytes: seq<nat>)
    requires t.WellFormed() && sg < 4 && inx < 4096 && |bytes| == 4
    requires forall c :: 0 <= c < 4 ==> bytes[c] == if c == sg then SByte(t.s, sg, inx) else 0
    ensures FourImages(ExpandWiring(t.p, t.e), bytes) == SbEntry(t, t.e, sg, inx)
  {
    FourImagesExpand(t.p, t.e, bytes);
    OneByte(bytes, SByte(t.s, sg, inx), sg);
  }

  /** One entry of the sb tables, as the innermost loop of __init_des_r computes it. */
  method SbInit(t: Tables, eperm: array2<Word>, sg: nat, j1: nat, j2: nat) returns (w: Word)
    requires t.WellFormed() && TableIs(eperm, ExpandWiring(t.p, t.e), 8, 256)
    requires sg < 4 && j1 < 64 && j2 < 64
    ensures w == SbEntry(t, t.e, sg, 64 * j1 + j2)
  {
    var v := SLookup(t.s, 2 * sg, j1) * 16 + SLookup(t.s, 2 * sg + 1, j2);
    // The byte is shifted to its place, so three of the four bytes looked up are zero.
    var bytes := seq(4, c => if c == sg then v else 0);
    w := OrImages(eperm, bytes, ExpandWiring(t.p, t.e));
    SByteSplit(t.s, sg, j1, j2);
    SbEntryByImages(t, sg, 64 * j1 + j2, bytes);
  }

  // ----- The key schedule -----

  /** The eight do_pc1 lookups for both halves. */
  method PermutedChoice1(pc1: array2<Word>, tab: seq<nat>, key: seq<Char>) returns (v1: Word, v2: Word)
    requires SkipsParity(tab) && TableIs(pc1, Pc1Wiring(tab), 16, 128) && |key| == 8
    ensures v1 == OrOf(Pc1Wiring(tab), 16, Pc1Cells(0), KeyBytes(key))
    ensures v2 == OrOf(Pc1Wiring(tab), 16, Pc1Cells(1), KeyBytes(key))
  {
    ghost var w, bytes, rows1, rows2 := Pc1Wiring(tab), KeyBytes(key), Pc1Cells(0), Pc1Cells(1);
    v1, v2 := {}, {};
    for i := 0 to 8
      invariant v1 == OrFirst(w, 16, rows1, bytes, i) && v2 == OrFirst(w, 16, rows2, bytes, i)
    {
      v1 := Or(v1, pc1[2 * i, key[i] % 128]);
      v2 := Or(v2, pc1[2 * i + 1, key[i] % 128]);
    }
  }

  /** The four do_pc2 lookups for one half. */
  method PermutedChoice2(pc2: array2<Word>, tab: seq<nat>, v: Word, h: nat) returns (k: Word)
    requires SeparatesHalves(tab) && TableIs(pc2, Pc2Wiring(tab), 8, 128) && h < 2
    ensures k == OrOf(Pc2Wiring(tab), 8, Pc2Cells(h), Septets(v))
  {
    var s := Septets(v);
    k := pc2[4 * h, s[0]];
    k := Or(k, pc2[4 * h + 1, s[1]]);
    k := Or(k, pc2[4 * h + 2, s[2]]);
    k := Or(k, pc2[4 * h + 3, s[3]]);
    OrOfFour(Pc2Wiring(tab), 8, Pc2Cells(h), s);
  }

  lemma StartHolds(half: seq<bool>)
    requires |half| == 28
    ensures Holds(Aligned(half), half)
  {
  }

  lemma RoundKeyWord(pc2: seq<nat>, v1: Word, v2: Word, c: seq<bool>, d: seq<bool>, k: Word)
    requires SeparatesHalves(pc2) && |c| == |d| == 28 && Holds(v1, c) && Holds(v2, d)
    requires k == Or(Shl(OrOf(Pc2Wiring(pc2), 8, Pc2Cells(0), Septets(v1)), 32),
                     OrOf(Pc2Wiring(pc2), 8, Pc2Cells(1), Septets(v2)))
    ensures k == Spread48(Permute(c + d, pc2))
  {
    Pc2Lookup(pc2, v1, c, d, 0);
    Pc2Lookup(pc2, v2, c, d, 1);
    var b := Permute(c + d, pc2);
    assert b[0..24] == b[..24] && b[24..48] == b[24..];
    JoinHalves(b);
  }

  method StartKey(pc1: array2<Word>, tab: seq<nat>, key: seq<Char>) returns (v1: Word, v2: Word)
    requires SkipsParity(tab) && TableIs(pc1, Pc1Wiring(tab), 16, 128) && |key| == 8
    ensures Holds(v1, Permute(KeyBits(KeyBytes(key)), tab)[..28])
    ensures Holds(v2, Permute(KeyBits(KeyBytes(key)), tab)[28..])
  {
    v1, v2 := PermutedChoice1(pc1, tab, key);
    Pc1Lookup(tab, KeyBytes(key), 0);
    Pc1Lookup(tab, KeyBytes(key), 1);
    ghost var cd := Permute(KeyBits(KeyBytes(key)), tab);
    assert cd[0..28] == cd[..28] && cd[28..56] == cd[28..];
    StartHolds(cd[..28]);
    StartHolds(cd[28..]);
  }

  /** One turn of the loop of _ufc_mk_keytab_r. */
  method NextKey(pc2: array2<Word>, tab: seq<nat>, v1: Word, v2: Word, n: nat, ghost c: seq<bool>, ghost d: seq<bool>)
    returns (w1: Word, w2: Word, k: Word)
    requires SeparatesHalves(tab) && TableIs(pc2, Pc2Wiring(tab), 8, 128) && 1 <= n <= 2
    requires |c| == |d| == 28 && Holds(v1, c) && Holds(v2, d)
    ensures Holds(w1, RotateLeft(c, n)) && Holds(w2, RotateLeft(d, n))
    ensures k == KeyWord(Permute(RotateLeft(c, n) + RotateLeft(d, n), tab))
  {
    RotateHolds(v1, c, n);
    RotateHolds(v2, d, n);
    w1 := RotateWord(v1, n);
    k := PermutedChoice2(pc2, tab, w1, 0);
    k := Shl(k, 32);
    w2 := RotateWord(v2, n);
    var u := PermutedChoice2(pc2, tab, w2, 1);
    k := Or(k, u);
    RoundKeyWord(tab, w1, w2, RotateLeft(c, n), RotateLeft(d, n), k);
    k := Or(k, TABLE_FLAGS);
  }

  /** _ufc_mk_keytab_r: every round key is the one of the standard. */
  method MakeKeytab(small: SmallTables, key: seq<Char>, keysched: array<Word>)
    requires small.Valid() && |key| == 8 && keysched.Length == 16
    modifies keysched
    ensures forall i :: 0 <= i < 16 ==> keysched[i] == KeyWord(RoundKey(small.t, KeyBits(KeyBytes(key)), i))
  {
    var t := small.t;
    ghost var k64 := KeyBits(KeyBytes(key));
    var v1, v2 := StartKey(small.pc1, t.pc1, key);
    for i := 0 to 16
      invariant var cd := KeyHalves(t, k64, i); Holds(v1, cd.0) && Holds(v2, cd.1)
      invariant forall j :: 0 <= j < i ==> keysched[j] == KeyWord(RoundKey(t, k64, j))
    {
      ghost var cd := KeyHalves(t, k64, i);
      var k;
      v1, v2, k := NextKey(small.pc2, t.pc2, v1, v2, t.rotations[i], cd.0, cd.1);
      keysched[i] := k;
    }
  }

  // ----- The inner loops -----

  /** What the lookup for segment `sg` of keyed data `x` reads. */
  lemma LookupAt(sb: array<Word>, t: Tables, bits: Word, x: Bits48, s: Word, sg: nat, base: nat, lo: nat)
    requires Entries(sb, t, bits, 16384) && s == Or(Spread48(x), TABLE_FLAGS)
    requires sg < 4 && base == sg / 2 * 2 && lo == 48 - 16 * sg
    ensures var i := EntryIndex(base, Field(s, lo, 16));
      i < 16384 && Field(s, lo, 16) % 8 == 0 && sb[i] == SbEntry(t, SaltedE(t.e, bits), sg, Segment(x, sg))
  {
    SegmentOffset(x, sg, s, lo, 1);
    EntryAt(sb, t, bits, sg, Segment(x, sg), EntryIndex(base, Field(s, lo, 16)));
  }

  lemma EntryAt(sb: array<Word>, t: Tables, bits: Word, sg: nat, seg: nat, i: nat)
    requires Entries(sb, t, bits, 16384) && sg < 4 && seg < 4096 && i == 4096 * sg + seg
    ensures i < 16384 && sb[i] == SbEntry(t, SaltedE(t.e, bits), sg, seg)
  {
    assert i / 4096 == sg && i % 4096 == seg;
    assert sb[i] == SbEntry(t, SaltedE(t.e, bits), i / 4096, i % 4096);
  }

  lemma Field16(w: Word, lo: nat)
    ensures Field(w, lo, 16) < 65536
  {
    assert Pow2(8) == 256;
  }

  /**
   SBA: the eight bytes at an offset from table 0 or table 2.  Words of a key schedule lead to whole
   entries; those of a key table that holds no schedule may straddle two, with bytes not modelled here.
   */
  method Sba(sb: array<Word>, base: nat, offset: nat) returns (w: Word)
    requires sb.Length == 16384 && base <= 2 && offset < 65536
    ensures offset % 8 == 0 ==> w == sb[EntryIndex(base, offset)]
  {
    if offset % 8 == 0 {
      w := sb[EntryIndex(base, offset)];
    } else {
      w := *;
    }
  }

  /** The four lookups of a round XOR-ed into `l`. */
  method Lookups(sb: array<Word>, l: Word, s: Word) returns (l': Word)
    requires sb.Length == 16384
    ensures Aligned8(s) ==>
      l' == Xor(Xor(Xor(Xor(l, sb[Index16(2, s, 0)]), sb[Index16(2, s, 16)]), sb[Index16(0, s, 32)]), sb[Index16(0, s, 48)])
  {
    Field16(s, 0);
    Field16(s, 16);
    Field16(s, 32);
    Field16(s, 48);
    var w := Sba(sb, 2, Field(s, 0, 16));
    l' := Xor(l, w);
    w := Sba(sb, 2, Field(s, 16, 16));
    l' := Xor(l', w);
    w := Sba(sb, 0, Field(s, 32, 16));
    l' := Xor(l', w);
    w := Sba(sb, 0, Field(s, 48, 16));
    l' := Xor(l', w);
  }

  /** All four offsets of a keyed word lead to whole entries. */
  ghost predicate Aligned8(s: Word) {
    Field(s, 0, 16) % 8 == 0 && Field(s, 16, 16) % 8 == 0 && Field(s, 32, 16) % 8 == 0 && Field(s, 48, 16) % 8 == 0
  }

  ghost function Index16(base: nat, s: Word, lo: nat): (i: nat)
    requires base <= 2
    ensures i < 16384
  {
    Field16(s, lo);
    EntryIndex(base, Field(s, lo, 16))
  }

  /**
   One round: `s = k ^ r` and the four lookups XOR-ed into `l`.  With a word of a key schedule and
   expanded halves (`keyed`) it is a round of the standard.
   */
  method HalfRound(t: Tables, sb: array<Word>, l: Word, r: Word, k: Word,
                   ghost bits: Word, ghost h: Halves, ghost key: Bits48, ghost keyed: bool) returns (l': Word)
    requires Entries(sb, t, bits, 16384)
    requires keyed ==> k == KeyWord(key)
    requires keyed ==> l == Spread48(Permute(h.l, SaltedE(t.e, bits))) && r == Spread48(Permute(h.r, SaltedE(t.e, bits)))
    ensures keyed ==> l' == Spread48(Permute(Round(t, SaltedE(t.e, bits), h, key).r, SaltedE(t.e, bits)))
  {
    var s := Xor(k, r);
    l' := Lookups(sb, l, s);
    if keyed {
      KeyedLookups(t, sb, l, s, bits, h, key);
    }
  }

  lemma KeyedLookups(t: Tables, sb: array<Word>, l: Word, s: Word, bits: Word, h: Halves, key: Bits48)
    requires Entries(sb, t, bits, 16384) && s == Xor(KeyWord(key), Spread48(Permute(h.r, SaltedE(t.e, bits))))
    requires l == Spread48(Permute(h.l, SaltedE(t.e, bits)))
    ensures Aligned8(s)
    ensures Xor(Xor(Xor(Xor(l, sb[Index16(2, s, 0)]), sb[Index16(2, s, 16)]), sb[Index16(0, s, 32)]), sb[Index16(0, s, 48)])
         == Spread48(Permute(Round(t, SaltedE(t.e, bits), h, key).r, SaltedE(t.e, bits)))
  {
    var e := SaltedE(t.e, bits);
    var x := XorBits(Permute(h.r, e), key);
    KeyedWord(key, Permute(h.r, e));
    LookupAt(sb, t, bits, x, s, 3, 2, 0);
    LookupAt(sb, t, bits, x, s, 2, 2, 16);
    LookupAt(sb, t, bits, x, s, 1, 0, 32);
    LookupAt(sb, t, bits, x, s, 0, 0, 48);
    FourLookups(t, e, l, x);
    RoundKeepsExpanded(t, e, h, key);
  }

  /** Two rounds leave the halves in place. */
  lemma TwoRounds(t: Tables, e: seq<nat>, h: Halves, ks: seq<Bits48>)
    requires t.WellFormed() && Expansion(e) && |ks| >= 2
    ensures Rounds(t, e, h, ks) == Rounds(t, e, Round(t, e, Round(t, e, h, ks[0]), ks[1]), ks[2..])
  {
    assert ks[1..][0] == ks[1] && ks[1..][1..] == ks[2..];
  }

  /** The key table holds the schedule, with the table flags. */
  ghost predicate IsSchedule(keysched: array<Word>, ks: seq<Bits48>)
    reads keysched
  {
    keysched.Length == 16 == |ks| && forall i :: 0 <= i < 16 ==> keysched[i] == KeyWord(ks[i])
  }

  /** The body of the outer loop of _ufc_doit_r: sixteen rounds and the interchange. */
  method Sixteen(t: Tables, sb: array<Word>, keysched: array<Word>, l: Word, r: Word,
                 ghost bits: Word, ghost h: Halves, ghost ks: seq<Bits48>, ghost keyed: bool) returns (l': Word, r': Word)
    requires Entries(sb, t, bits, 16384) && keysched.Length == 16
    requires |ks| == 16 && (keyed ==> IsSchedule(keysched, ks))
    requires keyed ==> l == Spread48(Permute(h.l, SaltedE(t.e, bits))) && r == Spread48(Permute(h.r, SaltedE(t.e, bits)))
    ensures var c := Core(t, SaltedE(t.e, bits), h, ks);
      keyed ==> l' == Spread48(Permute(c.l, SaltedE(t.e, bits))) && r' == Spread48(Permute(c.r, SaltedE(t.e, bits)))
  {
    ghost var e := SaltedE(t.e, bits);
    l', r' := l, r;
    ghost var g := h;
    for i := 0 to 8
      invariant keyed ==> l' == Spread48(Permute(g.l, e)) && r' == Spread48(Permute(g.r, e))
      invariant Rounds(t, e, g, ks[2 * i..]) == Rounds(t, e, h, ks)
    {
      TwoRounds(t, e, g, ks[2 * i..]);
      assert ks[2 * i..][2..] == ks[2 * (i + 1)..];
      l' := HalfRound(t, sb, l', r', keysched[2 * i], bits, g, ks[2 * i], keyed);
      ghost var g1 := Round(t, e, g, ks[2 * i]);
      r' := HalfRound(t, sb, r', l', keysched[2 * i + 1], bits, g1, ks[2 * i + 1], keyed);
      g := Round(t, e, g1, ks[2 * i + 1]);
    }
    l', r' := r', l';
  }

  lemma ExpandedWords(e: seq<nat>, h: Halves)
    requires Expansion(e)
    ensures var w := Expanded(e, h);
      && Or(Shl(w[0], 32), w[1]) == Spread48(Permute(h.l, e)) && Or(Shl(w[2], 32), w[3]) == Spread48(Permute(h.r, e))
      && w[0] == Shr(Spread48(Permute(h.l, e)), 32) && w[1] == Low(Spread48(Permute(h.l, e)), 32)
      && w[2] == Shr(Spread48(Permute(h.r, e)), 32) && w[3] == Low(Spread48(Permute(h.r, e)), 32)
  {
    JoinHalves(Permute(h.l, e));
    JoinHalves(Permute(h.r, e));
    SplitHalves(Permute(h.l, e));
    SplitHalves(Permute(h.r, e));
  }

  /** _ufc_doit_r: `itr` applications of the rounds to expanded halves. */
  method DoIt(itr: nat, t: Tables, sb: array<Word>, keysched: array<Word>, res: array<Word>,
              ghost bits: Word, ghost h: Halves, ghost ks: seq<Bits48>, ghost keyed: bool)
    requires Entries(sb, t, bits, 16384) && keysched.Length == 16 && res.Length == 4
    requires res != sb && res != keysched
    requires |ks| == 16 && (keyed ==> IsSchedule(keysched, ks))
    requires res[..] == Expanded(SaltedE(t.e, bits), h)
    modifies res
    ensures keyed ==> res[..] == Expanded(SaltedE(t.e, bits), CoreTimes(t, SaltedE(t.e, bits), h, ks, itr))
  {
    ghost var e := SaltedE(t.e, bits);
    ExpandedWords(e, h);
    var l := Or(Shl(res[0], 32), res[1]);
    var r := Or(Shl(res[2], 32), res[3]);
    for n := 0 to itr
      invariant var g := CoreTimes(t, e, h, ks, n);
        keyed ==> l == Spread48(Permute(g.l, e)) && r == Spread48(Permute(g.r, e))
    {
      l, r := Sixteen(t, sb, keysched, l, r, bits, CoreTimes(t, e, h, ks, n), ks, keyed);
    }
    ExpandedWords(e, CoreTimes(t, e, h, ks, itr));
    res[0], res[1] := Shr(l, 32), Low(l, 32);
    res[2], res[3] := Shr(r, 32), Low(r, 32);
  }

  // ----- The final permutation -----

  lemma HalvesUnsalted(x: Bits32, e: seq<nat>, bits: Word)
    requires Expansion(e) && Expansion(SaltedE(e, bits)) && SaltWord(bits)
    ensures var b, c := Permute(x, SaltedE(e, bits)), Permute(x, e);
      var w1, w2 := Spread24(b[..24]), Spread24(b[24..]);
      var d := And(Xor(w1, w2), bits);
      Xor(w1, d) == Spread24(c[..24]) && Xor(w2, d) == Spread24(c[24..])
  {
    var b := Permute(x, SaltedE(e, bits));
    Unsalted(e);
    assert Xor(bits, {}) == bits;
    SwapPermute(x, e, bits, {});
    HalvesSwapped(b, bits);
  }

  lemma HalvesSwapped(b: Bits48, bits: Word)
    requires SaltWord(bits)
    ensures var w1, w2, c := Spread24(b[..24]), Spread24(b[24..]), SwapBits(b, bits);
      var d := And(Xor(w1, w2), bits);
      Xor(w1, d) == Spread24(c[..24]) && Xor(w2, d) == Spread24(c[24..])
  {
    var w1, w2, c := Spread24(b[..24]), Spread24(b[24..]), SwapBits(b, bits);
    var d := And(Xor(w1, w2), bits);
    forall p: nat
      ensures p in Xor(w1, d) <==> p in Spread24(c[..24])
      ensures p in Xor(w2, d) <==> p in Spread24(c[24..])
    {
      At24BitMask(p);
    }
  }

  /** The four six-bit chunks of a half word, last one first. */
  function ChunkFour(half: Word): (c: seq<nat>)
    ensures |c| == 4 && forall i :: 0 <= i < 4 ==> c[i] < 64
  {
    assert Pow2(6) == 64;
    [Field(half, 3, 6), Field(half, 9, 6), Field(half, 19, 6), Field(half, 25, 6)]
  }

  lemma ChunkOfSpread(b: seq<bool>, c: nat, m: nat)
    requires |b| == 24 && c < 4 && m < 6
    ensures NatBit(ChunkFour(Spread24(b))[3 - c], 5 - m) == b[6 * c + m]
  {
    var lo := if c == 0 then 25 else if c == 1 then 19 else if c == 2 then 9 else 3;
    FieldBit(Spread24(b), lo, 6, 5 - m);
    assert At24(lo + 5 - m) == 6 * c + m;
  }

  /** The sixteen chunks of four half words, last one first. */
  ghost function ChunkValues(w: seq<Word>): (c: seq<nat>)
    requires |w| == 4
    ensures |c| == 16
  {
    ChunkFour(w[3]) + ChunkFour(w[2]) + ChunkFour(w[1]) + ChunkFour(w[0])
  }

  lemma ChunkValueAt(w: seq<Word>, c: nat)
    requires |w| == 4 && c < 16
    ensures ChunkValues(w)[15 - c] == ChunkFour(w[c / 4])[3 - c % 4]
  {
  }

  lemma ChunksOfSpread(x: seq<bool>, w: seq<Word>)
    requires |x| == 96 && |w| == 4
    requires forall k :: 0 <= k < 4 ==> w[k] == Spread24(x[24 * k..24 * k + 24])
    ensures Chunks(x, ChunkValues(w))
  {
    forall c, m | 0 <= c < 16 && 0 <= m < 6
      ensures ChunkBit(x, ChunkValues(w), c, m)
    {
      var k := c / 4;
      ChunkOfSpread(x[24 * k..24 * k + 24], c % 4, m);
      ChunkValueAt(w, c);
    }
  }

  lemma ChunksOfExpanded(e: seq<nat>, h: Halves)
    requires Expansion(e)
    ensures Chunks(Permute(h.l, e) + Permute(h.r, e), ChunkValues(Expanded(e, h)))
  {
    var x := Permute(h.l, e) + Permute(h.r, e);
    assert x[0..24] == Permute(h.l, e)[..24] && x[24..48] == Permute(h.l, e)[24..];
    assert x[48..72] == Permute(h.r, e)[..24] && x[72..96] == Permute(h.r, e)[24..];
    ChunksOfSpread(x, Expanded(e, h));
  }

  lemma {:induction false} FieldOfShr(w: Word, n: nat, lo: nat, m: nat)
    ensures Field(Shr(w, n), lo, m) == Field(w, lo + n, m)
    decreases m
  {
    if m > 0 {
      FieldOfShr(w, n, lo + 1, m - 1);
    }
  }

  lemma ShrShr(w: Word, a: nat, b: nat)
    ensures Shr(Shr(w, a), b) == Shr(w, a + b)
  {
  }

  /** Lookup number `n`, of chunk `15 - n`, OR-ed into both result words. */
  method FinalStep(efp: array2<Word>, v1: Word, v2: Word, n: nat, value: nat,
                   ghost w: Wiring, ghost idx: seq<nat>) returns (u1: Word, u2: Word)
    requires TableIs(efp, w, 32, 64) && n < 16 && |idx| == 16 && value < 64
    ensures value == idx[n] && OredUpTo(w, idx, n, v1, v2) ==> OredUpTo(w, idx, n + 1, u1, u2)
  {
    var chunk := 15 - n;
    u1 := Or(v1, efp[2 * chunk, value]);
    u2 := Or(v2, efp[2 * chunk + 1, value]);
  }

  /** The two words hold the lookups of the first `n` chunks. */
  ghost predicate OredUpTo(w: Wiring, idx: seq<nat>, n: nat, v1: Word, v2: Word)
    requires w.Fits(32) && n <= |idx| == 16
  {
    v1 == OrFirst(w, 32, FinalCells(0), idx, n) && v2 == OrFirst(w, 32, FinalCells(1), idx, n)
  }

  /** The four lookups for one half word, lowest chunk first. */
  method FinalWord(efp: array2<Word>, v1: Word, v2: Word, n: nat, half: Word,
                   ghost w: Wiring, ghost idx: seq<nat>) returns (u1: Word, u2: Word)
    requires TableIs(efp, w, 32, 64) && n <= 12 && |idx| == 16
    ensures ChunksAt(idx, n, half) && OredUpTo(w, idx, n, v1, v2) ==> OredUpTo(w, idx, n + 4, u1, u2)
  {
    ShiftedFields(half);
    var x := Shr(half, 3);
    u1, u2 := FinalStep(efp, v1, v2, n, Field(x, 0, 6), w, idx);
    x := Shr(x, 6);
    u1, u2 := FinalStep(efp, u1, u2, n + 1, Field(x, 0, 6), w, idx);
    x := Shr(x, 10);
    u1, u2 := FinalStep(efp, u1, u2, n + 2, Field(x, 0, 6), w, idx);
    x := Shr(x, 6);
    u1, u2 := FinalStep(efp, u1, u2, n + 3, Field(x, 0, 6), w, idx);
  }

  /** The four chunks of a half word stand at `i` in a sequence of chunks. */
  ghost predicate ChunksAt(idx: seq<nat>, i: nat, half: Word)
    requires i + 4 <= |idx|
  {
    var c := ChunkFour(half);
    idx[i] == c[0] && idx[i + 1] == c[1] && idx[i + 2] == c[2] && idx[i + 3] == c[3]
  }

  /** The successive shifts of a half word bring its chunks to the bottom one after the other. */
  lemma ShiftedFields(half: Word)
    ensures var c := ChunkFour(half);
      var x0 := Shr(half, 3);
      var x1 := Shr(x0, 6);
      var x2 := Shr(x1, 10);
      c == [Field(x0, 0, 6), Field(x1, 0, 6), Field(x2, 0, 6), Field(Shr(x2, 6), 0, 6)]
  {
    ShrShr(half, 3, 6);
    ShrShr(half, 9, 10);
    ShrShr(half, 19, 6);
    FieldOfShr(half, 3, 0, 6);
    FieldOfShr(half, 9, 0, 6);
    FieldOfShr(half, 19, 0, 6);
    FieldOfShr(half, 25, 0, 6);
  }

  method UndoSalt(w1: Word, w2: Word, bits: Word) returns (u1: Word, u2: Word)
    ensures u1 == Xor(w1, And(Xor(w1, w2), bits)) && u2 == Xor(w2, And(Xor(w1, w2), bits))
  {
    var x := And(Xor(w1, w2), bits);
    u1, u2 := Xor(w1, x), Xor(w2, x);
  }

  lemma ChunkValuesAt(l1: Word, l2: Word, r1: Word, r2: Word)
    ensures var idx := ChunkValues([l1, l2, r1, r2]);
      ChunksAt(idx, 0, r2) && ChunksAt(idx, 4, r1) && ChunksAt(idx, 8, l2) && ChunksAt(idx, 12, l1)
  {
  }

  /** All sixteen efp lookups. */
  method FinalLookups(efp: array2<Word>, l1: Word, l2: Word, r1: Word, r2: Word, ghost w: Wiring, ghost idx: seq<nat>)
    returns (v1: Word, v2: Word)
    requires TableIs(efp, w, 32, 64) && |idx| == 16
    requires ChunksAt(idx, 0, r2) && ChunksAt(idx, 4, r1) && ChunksAt(idx, 8, l2) && ChunksAt(idx, 12, l1)
    ensures v1 == OrOf(w, 32, FinalCells(0), idx) && v2 == OrOf(w, 32, FinalCells(1), idx)
  {
    v1, v2 := {}, {};
    v1, v2 := FinalWord(efp, v1, v2, 0, r2, w, idx);
    v1, v2 := FinalWord(efp, v1, v2, 4, r1, w, idx);
    v1, v2 := FinalWord(efp, v1, v2, 8, l2, w, idx);
    v1, v2 := FinalWord(efp, v1, v2, 12, l1, w, idx);
  }

  lemma FinalWordsPermute(fp: seq<nat>, e: seq<nat>, inv: seq<nat>, h: Halves)
    requires |fp| == 64 && Selects(fp, 64) && Expansion(e) && Unexpands(e, inv)
    ensures var w, idx, out := FinalWiring(fp, inv), ChunkValues(Expanded(e, h)), Permute(h.Joined(), fp);
      OrOf(w, 32, FinalCells(0), idx) == Aligned(out[..32]) && OrOf(w, 32, FinalCells(1), idx) == Aligned(out[32..])
  {
    ChunksOfExpanded(e, h);
    FinalBothWords(fp, e, inv, h, ChunkValues(Expanded(e, h)), Permute(h.Joined(), fp));
  }

  lemma FinalBothWords(fp: seq<nat>, e: seq<nat>, inv: seq<nat>, h: Halves, idx: seq<nat>, out: seq<bool>)
    requires |fp| == 64 && Selects(fp, 64) && Expansion(e) && Unexpands(e, inv)
    requires Chunks(Permute(h.l, e) + Permute(h.r, e), idx) && out == Permute(h.Joined(), fp)
    ensures OrOf(FinalWiring(fp, inv), 32, FinalCells(0), idx) == Aligned(out[..32])
    ensures OrOf(FinalWiring(fp, inv), 32, FinalCells(1), idx) == Aligned(out[32..])
  {
    FinalLookup(fp, e, inv, h, idx, 0);
    FinalLookup(fp, e, inv, h, idx, 1);
    assert out[0..32] == out[..32] && out[32..64] == out[32..];
  }

  method Unsalt(res: array<Word>, bits: Word, ghost e: seq<nat>, ghost h: Halves)
    returns (l1: Word, l2: Word, r1: Word, r2: Word)
    requires SaltWord(bits) && res.Length == 4 && Expansion(e) && Expansion(SaltedE(e, bits))
    ensures res[..] == Expanded(SaltedE(e, bits), h) ==> [l1, l2, r1, r2] == Expanded(e, h)
  {
    HalvesUnsalted(h.l, e, bits);
    HalvesUnsalted(h.r, e, bits);
    l1, l2 := UndoSalt(res[0], res[1], bits);
    r1, r2 := UndoSalt(res[2], res[3], bits);
  }

  /** _ufc_dofinalperm_r: undo the salt and the expansion and permute. */
  method DoFinalPerm(small: SmallTables, res: array<Word>, bits: Word, ghost h: Halves)
    requires small.Valid() && SaltWord(bits) && res.Length == 4 && Expansion(SaltedE(small.t.e, bits))
    modifies res
    ensures old(res[..]) == Expanded(SaltedE(small.t.e, bits), h) ==>
      var out := Permute(h.Joined(), small.t.fp); res[0] == Aligned(out[..32]) && res[1] == Aligned(out[32..])
  {
    var l1, l2, r1, r2 := Unsalt(res, bits, small.t.e, h);
    var v1, v2 := Unexpanded(small, l1, l2, r1, r2, h);
    res[0], res[1] := v1, v2;
  }

  method Unexpanded(small: SmallTables, l1: Word, l2: Word, r1: Word, r2: Word, ghost h: Halves) returns (v1: Word, v2: Word)
    requires small.Valid()
    ensures [l1, l2, r1, r2] == Expanded(small.t.e, h) ==>
      var out := Permute(h.Joined(), small.t.fp); v1 == Aligned(out[..32]) && v2 == Aligned(out[32..])
  {
    ChunkValuesAt(l1, l2, r1, r2);
    v1, v2 := FinalLookups(small.efp, l1, l2, r1, r2, FinalWiring(small.t.fp, small.inv), ChunkValues([l1, l2, r1, r2]));
    FinalWordsPermute(small.t.fp, small.t.e, small.inv, h);
  }

  // ----- Blocks in and out -----

  /** One of the four initial-permutation loops of __encrypt_r. */
  method InitialWord(block: seq<bool>, ip: seq<nat>, e: seq<nat>, off: nat, half: nat) returns (w: Word)
    requires |block| == 64 && |ip| == 64 && Selects(ip, 64) && Expansion(e)
    requires (off == 0 || off == 32) && half < 2
    ensures w == Spread24(Permute(Permute(block, ip)[off..off + 32], e)[24 * half..24 * half + 24])
  {
    ghost var x := Permute(block, ip)[off..off + 32];
    ghost var b := Permute(x, e)[24 * half..24 * half + 24];
    w := {};
    for i := 0 to 24
      invariant w == set p: nat | p < 32 && 0 <= At24(p) < i && b[At24(p)]
    {
      var k := 24 * half + i;
      assert b[i] == Permute(x, e)[k] == x[e[k] - 1] == Permute(block, ip)[off + (e[k] - 1)];
      ghost var before := w;
      if block[ip[e[k] - 1 + off] - 1] {
        w := Or(w, {BitMask(i)});
      }
      forall p: nat ensures p in w <==> p < 32 && 0 <= At24(p) < i + 1 && b[At24(p)] {
        At24BitMask(p);
        assert p in before <==> p < 32 && 0 <= At24(p) < i && b[At24(p)];
      }
    }
  }

  /** One of the two loops of __encrypt_r that unpack a result word. */
  method UnpackWord(v: Word, ghost b: seq<bool>) returns (out: seq<bool>)
    requires |b| == 32
    ensures |out| == 32 && (v == Aligned(b) ==> out == b)
  {
    out := [];
    for i := 0 to 32
      invariant |out| == i && (v == Aligned(b) ==> out == b[..i])
    {
      assert v == Aligned(b) ==> (LongMask(i) in v <==> FromEnd(b, 31 - i));
      out := out + [LongMask(i) in v];
    }
  }

  /** The ktab loop of __setkey_r: eight bits to a byte, the parity bit shifted out. */
  method PackKey(key: seq<bool>) returns (ktab: seq<Char>)
    requires |key| == 64
    ensures |ktab| == 8 && forall i :: 0 <= i < 8 ==> ktab[i] == Value(key[8 * i..8 * i + 7])
  {
    ktab := [];
    for i := 0 to 8
      invariant |ktab| == i && forall k :: 0 <= k < i ==> ktab[k] == Value(key[8 * k..8 * k + 7])
    {
      var c := PackByte(key[8 * i..8 * i + 8], key[8 * i..8 * i + 7]);
      ktab := ktab + [c];
    }
  }

  /** One byte: eight bits shifted in, the last of them out again. */
  method PackByte(bits: seq<bool>, ghost seven: seq<bool>) returns (c: Char)
    requires |bits| == 8 && |seven| == 7 && seven == bits[..7]
    ensures c == Value(seven)
  {
    assert Pow2(7) == 2 * 2 * 2 * Pow2(4);
    var v := 0;
    for j := 0 to 8
      invariant v == Value(bits[..j])
    {
      assert bits[..j + 1][..j] == bits[..j];
      v := 2 * v + BoolVal(bits[j]);
    }
    assert bits[..8][..7] == seven;
    c := v / 2;
  }

  lemma PackedKeyBits(key: Bits64, ktab: seq<Char>, i: nat)
    requires |ktab| == 8 && forall k :: 0 <= k < 8 ==> ktab[k] == Value(key[8 * k..8 * k + 7])
    requires i < 64 && i % 8 < 7
    ensures KeyBits(KeyBytes(ktab))[i] == key[i]
  {
    var k, m := i / 8, i % 8;
    var s := key[8 * k..8 * k + 7];
    SeptetValue(s, m);
    assert KeyBytes(ktab)[k] == Value(s);
    assert s[m] == key[i];
  }

  lemma SeptetValue(s: seq<bool>, m: nat)
    requires |s| == 7 && m < 7
    ensures Value(s) < 128 && (NatBit(Value(s), 6 - m) <==> s[m])
  {
    assert Pow2(7) == 2 * 2 * 2 * Pow2(4);
    ValueBit(s, 6 - m);
  }

  /** Keys that differ only in parity bits have the same schedule. */
  lemma ParityIgnored(t: Tables, a: Bits64, b: Bits64)
    requires t.WellFormed() && forall i :: 0 <= i < 64 && i % 8 < 7 ==> a[i] == b[i]
    ensures Schedule(t, a) == Schedule(t, b)
  {
    assert Permute(a, t.pc1) == Permute(b, t.pc1);
    forall i | 0 <= i < 16
      ensures RoundKey(t, a, i) == RoundKey(t, b, i)
    {
      SameHalves(t, a, b, i + 1);
    }
  }

  lemma {:induction false} SameHalves(t: Tables, a: Bits64, b: Bits64, i: nat)
    requires t.WellFormed() && Permute(a, t.pc1) == Permute(b, t.pc1) && i <= 16
    ensures KeyHalves(t, a, i) == KeyHalves(t, b, i)
  {
    if i > 0 {
      SameHalves(t, a, b, i - 1);
    }
  }

  // ----- _ufc_output_conversion_r -----

  /** A field of a right-aligned bit string is the number its bits spell. */
  lemma {:induction false} FieldOfAligned(b: seq<bool>, lo: nat, n: nat)
    requires |b| <= 64 && lo + n <= |b|
    ensures Field(Aligned(b), lo, n) == Value(b[|b| - lo - n..|b| - lo])
    decreases n
  {
    if n > 0 {
      FieldOfAligned(b, lo + 1, n - 1);
      var s := b[|b| - lo - n..|b| - lo];
      assert s[..n - 1] == b[|b| - (lo + 1) - (n - 1)..|b| - (lo + 1)];
      assert lo in Aligned(b) <==> FromEnd(b, lo);
    }
  }

  /** `(v2 >> 2) | ((v1 & 3) << 30)` is bits 30 .. 61 of the block. */
  lemma MiddleWord(b: Bits64)
    ensures Or(Shr(Aligned(b[32..]), 2), Shl(Low(Aligned(b[..32]), 2), 30)) == Aligned(b[30..62])
  {
    var v1, v2, m := Aligned(b[..32]), Aligned(b[32..]), b[30..62];
    var w := Or(Shr(v2, 2), Shl(Low(v1, 2), 30));
    forall p: nat
      ensures p in w <==> p in Aligned(m)
    {
      if p < 30 {
        assert p + 2 in v2 <==> FromEnd(b[32..], p + 2);
        assert FromEnd(m, p) == FromEnd(b[32..], p + 2);
      } else if p < 32 {
        assert p - 30 in v1 <==> FromEnd(b[..32], p - 30);
        assert FromEnd(m, p) == FromEnd(b[..32], p - 30);
      }
    }
  }

  method OutputConversion(v1: Word, v2: Word, s0: Char, s1: Char, ghost b: Bits64) returns (buf: seq<Char>)
    requires v1 == Aligned(b[..32]) && v2 == Aligned(b[32..])
    ensures buf == Printed(b, s0, s1)
  {
    assert Pow2(6) == 64 && Pow2(4) == 16;
    ghost var whole := Printed(b, s0, s1);
    buf := [s0, if s1 != 0 then s1 else s0];
    for i := 0 to 5
      invariant buf == whole[..i + 2]
    {
      FirstSextets(b, i);
      PrintedNext(b, s0, s1, i);
      buf := buf + [BinToAscii(Field(v1, 26 - 6 * i, 6))];
    }
    var last := Field(v2, 0, 4) * 4;
    var m := Or(Shr(v2, 2), Shl(Low(v1, 2), 30));
    MiddleWord(b);
    for i := 5 to 10
      invariant buf == whole[..i + 2]
    {
      MiddleSextets(b, i);
      PrintedNext(b, s0, s1, i);
      buf := buf + [BinToAscii(Field(m, 56 - 6 * i, 6))];
    }
    LastSextet(b);
    PrintedNext(b, s0, s1, 10);
    buf := buf + [BinToAscii(last)];
    buf := buf + [0];
  }

  lemma PrintedNext(b: Bits64, s0: Char, s1: Char, i: nat)
    requires i < 11
    ensures var p := Printed(b, s0, s1);
      p[..2] == [s0, if s1 != 0 then s1 else s0] && p[13] == 0 && p[..i + 3] == p[..i + 2] + [BinToAscii(Sextet(b, i))]
  {
  }

  lemma SliceOfSlice(b: Bits64, lo: int, hi: int, x: int, y: int, from: int, to: int)
    requires 0 <= lo && from == lo + x && to == lo + y && 0 <= x <= y && to <= hi <= 64
    ensures b[lo..hi][x..y] == b[from..to]
  {
    forall i | 0 <= i < y - x ensures b[lo..hi][x..y][i] == b[from..to][i] {
    }
  }

  lemma FirstSextets(b: Bits64, i: nat)
    requires i < 5
    ensures Field(Aligned(b[..32]), 26 - 6 * i, 6) == Sextet(b, i)
  {
    FieldOfAligned(b[..32], 26 - 6 * i, 6);
    SliceOfSlice(b, 0, 32, 6 * i, 6 * i + 6, 6 * i, 6 * i + 6);
  }

  lemma MiddleSextets(b: Bits64, i: nat)
    requires 5 <= i < 10
    ensures Field(Aligned(b[30..62]), 56 - 6 * i, 6) == Sextet(b, i)
  {
    FieldOfAligned(b[30..62], 56 - 6 * i, 6);
    SliceOfSlice(b, 30, 62, 6 * i - 30, 6 * i - 24, 6 * i, 6 * i + 6);
  }

  lemma LastSextet(b: Bits64)
    ensures Field(Aligned(b[32..]), 0, 4) * 4 == Sextet(b, 10)
  {
    FieldOfAligned(b[32..], 0, 4);
    assert b[32..][28..32] == b[60..];
    var s := b[60..] + [false, false];
    assert Value(s) == 2 * Value(s[..5]) && Value(s[..5]) == 2 * Value(s[..5][..4]);
    assert s[..5][..4] == b[60..];
  }

  // ----- Whole encryptions -----

  /** The key reversal of __encrypt_r. */
  method ReverseKeys(kt: array<Word>)
    requires kt.Length == 16
    modifies kt
    ensures forall i :: 0 <= i < 16 ==> kt[i] == old(kt[15 - i])
  {
    for i := 0 to 8
      invariant forall j :: 0 <= j < 16 ==> kt[j] == if j < i || j > 15 - i then old(kt[15 - j]) else old(kt[j])
    {
      var x := kt[15 - i];
      kt[15 - i] := kt[i];
      kt[i] := x;
    }
  }

  /** The initial permutation and expansion of __encrypt_r. */
  method LoadBlock(t: Tables, block: seq<bool>) returns (res: array<Word>)
    requires t.WellFormed() && |block| == 64
    ensures fresh(res) && res.Length == 4 && res[..] == Expanded(t.e, Split(Permute(block, t.ip)))
  {
    res := new Word[4](i => {});
    res[0] := InitialWord(block, t.ip, t.e, 0, 0);
    res[1] := InitialWord(block, t.ip, t.e, 0, 1);
    res[2] := InitialWord(block, t.ip, t.e, 32, 0);
    res[3] := InitialWord(block, t.ip, t.e, 32, 1);
    InitialExpanded(t, block);
  }

  /** The conversion of __encrypt_r back to an array of bits. */
  method StoreBlock(v1: Word, v2: Word, block: array<bool>, ghost out: Bits64)
    requires block.Length == 64
    modifies block
    ensures v1 == Aligned(out[..32]) && v2 == Aligned(out[32..]) ==> block[..] == out
  {
    var left := UnpackWord(v1, out[..32]);
    var right := UnpackWord(v2, out[32..]);
    for i := 0 to 32
      invariant block[..i] == left[..i]
    {
      block[i] := left[i];
    }
    for i := 0 to 32
      invariant block[..32] == left && block[32..32 + i] == right[..i]
    {
      block[32 + i] := right[i];
    }
    assert block[..] == left + right && out == out[..32] + out[32..];
  }

  /** __encrypt_r once the tables are in place: with a schedule in the key table, the algorithm of the standard. */
  method EncryptBlock(small: SmallTables, sb: array<Word>, keysched: array<Word>, block: array<bool>, ghost ks: seq<Bits48>)
    requires small.Valid() && Entries(sb, small.t, {}, 16384) && keysched.Length == 16 && block.Length == 64 && |ks| == 16
    modifies block
    ensures IsSchedule(keysched, ks) ==> block[..] == Apply(small.t, small.t.e, old(block[..]), ks)
  {
    var t := small.t;
    ghost var h := Split(Permute(block[..], t.ip));
    Unsalted(t.e);
    var res := LoadBlock(t, block[..]);
    DoIt(1, t, sb, keysched, res, {}, h, ks, IsSchedule(keysched, ks));
    CoreOnce(t, t.e, h, ks);
    DoFinalPerm(small, res, {}, Core(t, t.e, h, ks));
    StoreBlock(res[0], res[1], block, Permute(Core(t, t.e, h, ks).Joined(), t.fp));
  }

  lemma CoreOnce(t: Tables, e: seq<nat>, h: Halves, ks: seq<Bits48>)
    requires t.WellFormed() && Expansion(e)
    ensures CoreTimes(t, e, h, ks, 1) == Core(t, e, h, ks)
  {
    assert CoreTimes(t, e, h, ks, 0) == h;
  }

  lemma InitialExpanded(t: Tables, b: Bits64)
    requires t.WellFormed()
    ensures var ip := Permute(b, t.ip);
      Expanded(t.e, Split(ip)) ==
      [Spread24(Permute(ip[0..32], t.e)[0..24]), Spread24(Permute(ip[0..32], t.e)[24..48]),
       Spread24(Permute(ip[32..64], t.e)[0..24]), Spread24(Permute(ip[32..64], t.e)[24..48])]
  {
    var ip := Permute(b, t.ip);
    assert ip[0..32] == ip[..32] && ip[32..64] == ip[32..];
    var l, r := Permute(ip[..32], t.e), Permute(ip[32..], t.e);
    assert l[0..24] == l[..24] && l[24..48] == l[24..] && r[0..24] == r[..24] && r[24..48] == r[24..];
  }

  lemma ZeroExpanded(t: Tables, e: seq<nat>)
    requires t.WellFormed() && Expansion(e)
    ensures Expanded(e, Split(Permute(ZeroBlock(), t.ip))) == [{}, {}, {}, {}]
  {
    var h := Split(Permute(ZeroBlock(), t.ip));
    var l, r := Permute(h.l, e), Permute(h.r, e);
    assert forall i :: 0 <= i < 48 ==> !l[i] && !r[i];
    assert Spread24(l[..24]) == {} && Spread24(l[24..]) == {} && Spread24(r[..24]) == {} && Spread24(r[24..]) == {};
  }

  /** The part of __crypt_r after the salt and the key: the encryptions and the output. */
  method CryptZero(small: SmallTables, sb: array<Word>, keysched: array<Word>, bits: Word, s0: Char, s1: Char,
                   ghost ks: seq<Bits48>) returns (buf: seq<Char>)
    requires small.Valid() && SaltWord(bits) && Entries(sb, small.t, bits, 16384) && keysched.Length == 16
    requires IsSchedule(keysched, ks)
    ensures buf == Printed(ApplyTimes(small.t, SaltedE(small.t.e, bits), ZeroBlock(), ks, ITERATIONS), s0, s1)
  {
    var t := small.t;
    ghost var e := SaltedE(t.e, bits);
    ghost var h := Split(Permute(ZeroBlock(), t.ip));
    var res := new Word[4](i => {});
    ZeroExpanded(t, e);
    assert res[..] == [{}, {}, {}, {}];
    DoIt(ITERATIONS, t, sb, keysched, res, bits, h, ks, true);
    ghost var c := CoreTimes(t, e, h, ks, ITERATIONS);
    DoFinalPerm(small, res, bits, c);
    ApplyTimesByCore(t, e, ZeroBlock(), ks, ITERATIONS);
    buf := OutputConversion(res[0], res[1], s0, s1, Permute(c.Joined(), t.fp));
  }
}
