/**
 The key schedule of _ufc_mk_keytab_r, against the key schedule of FIPS 46-3.
 */
module UfcKeys {
  import opened Bits
  import opened Fips46
  import opened Des
  import opened UfcTables
  import opened UfcLayout

  /** do_pc1: rows are (key byte, half), indexes the seven bits used of a byte. */
  function Pc1Wiring(pc1: seq<nat>): (w: Wiring)
    requires SkipsParity(pc1)
    ensures w.Fits(16)
  {
    Wiring(
      seq(56, b requires 0 <= b < 56 => (pc1[b] - 1) / 8 * 2 + b / 28),
      seq(56, b requires 0 <= b < 56 => ByteMask((pc1[b] - 1) % 8 + 1)),
      seq(56, b requires 0 <= b < 56 => LongMask(b % 28 + 4)))
  }

  /** do_pc2: rows are septets of the rotated key, indexes their values. */
  function Pc2Wiring(pc2: seq<nat>): (w: Wiring)
    requires SeparatesHalves(pc2)
    ensures w.Fits(8)
  {
    Wiring(
      seq(48, b requires 0 <= b < 48 => (pc2[b] - 1) / 7),
      seq(48, b requires 0 <= b < 48 => ByteMask((pc2[b] - 1) % 7 + 1)),
      seq(48, b requires 0 <= b < 48 => BitMask(b % 24)))
  }

  ghost function Pc1Cells(h: nat): seq<nat> { seq(8, i => 2 * i + h) }

  lemma Pc1Driver(pc1: seq<nat>, h: nat, p: nat)
    requires SkipsParity(pc1) && h < 2 && p < 28
    ensures Drives(Pc1Wiring(pc1), 16, Pc1Cells(h), p, 28 * h + 27 - p)
  {
    var w, rows := Pc1Wiring(pc1), Pc1Cells(h);
    forall a | 0 <= a < 56 && w.pos[a] == p && w.cell[a] in rows
      ensures a == 28 * h + 27 - p
    {
      var i :| 0 <= i < 8 && w.cell[a] == rows[i];
      assert w.cell[a] == 2 * ((pc1[a] - 1) / 8) + a / 28 && rows[i] == 2 * i + h;
      assert a / 28 == h;
    }
  }

  lemma Pc1LookupBit(pc1: seq<nat>, bytes: seq<nat>, h: nat, p: nat)
    requires SkipsParity(pc1) && |bytes| == 8 && h < 2 && p < 28
    ensures p in OrOf(Pc1Wiring(pc1), 16, Pc1Cells(h), bytes) <==> KeyBits(bytes)[pc1[28 * h + 27 - p] - 1]
  {
    var w, rows := Pc1Wiring(pc1), Pc1Cells(h);
    var b := 28 * h + 27 - p;
    var from := pc1[b] - 1;
    Pc1Driver(pc1, h, p);
    assert w.cell[b] == rows[from / 8] && w.sel[b] == 6 - from % 8;
    OrOfBit(w, 16, rows, bytes, p, b, from / 8);
  }

  /** OR-ing the eight do_pc1 lookups gives one half of permuted choice 1. */
  lemma Pc1Lookup(pc1: seq<nat>, bytes: seq<nat>, h: nat)
    requires SkipsParity(pc1) && |bytes| == 8 && h < 2
    ensures OrOf(Pc1Wiring(pc1), 16, Pc1Cells(h), bytes) ==
      Aligned(Permute(KeyBits(bytes), pc1)[28 * h..28 * h + 28])
  {
    var w, rows := Pc1Wiring(pc1), Pc1Cells(h);
    var all := Permute(KeyBits(bytes), pc1);
    var half := all[28 * h..28 * h + 28];
    forall p: nat
      ensures p in OrOf(w, 16, rows, bytes) <==> p in Aligned(half)
    {
      if p < 28 {
        Pc1LookupBit(pc1, bytes, h, p);
      } else {
        OrOfNothing(w, 16, rows, bytes, p);
      }
    }
  }

  /** A bit of `v` above the 28 that carry the key half. */
  ghost predicate Overflow(v: Word, p: nat) { p >= 28 && p in v }

  /** The low 28 bits of `v` are `half`, and any bit above them repeats the bit 28 below. */
  ghost predicate Holds(v: Word, half: seq<bool>)
    requires |half| == 28
  {
    && (forall p: nat :: p < 28 ==> (p in v <==> FromEnd(half, p)))
    && (forall p: nat :: Overflow(v, p) ==> p - 28 in v)
  }

  function RotateWord(v: Word, n: nat): Word
    requires n <= 28
  {
    Or(Shl(v, n), Shr(v, 28 - n))
  }

  lemma RotateLow(v: Word, half: seq<bool>, n: nat, p: nat)
    requires |half| == 28 && 1 <= n <= 2 && Holds(v, half) && p < 28
    ensures p in RotateWord(v, n) <==> FromEnd(RotateLeft(half, n), p)
  {
    if p >= n {
      assert Overflow(v, p + 28 - n) ==> p - n in v;
      assert FromEnd(RotateLeft(half, n), p) == FromEnd(half, p - n);
    } else {
      assert FromEnd(RotateLeft(half, n), p) == FromEnd(half, p + 28 - n);
    }
  }

  /** The rotation never masks, yet its low 28 bits are the true rotation. */
  lemma RotateHolds(v: Word, half: seq<bool>, n: nat)
    requires |half| == 28 && 1 <= n <= 2 && Holds(v, half)
    ensures Holds(RotateWord(v, n), RotateLeft(half, n))
  {
    var v' := RotateWord(v, n);
    forall p: nat | p < 28
      ensures p in v' <==> FromEnd(RotateLeft(half, n), p)
    {
      RotateLow(v, half, n, p);
    }
    forall p: nat | Overflow(v', p)
      ensures p - 28 in v'
    {
      assert Overflow(v, p + 28 - n) ==> p - n in v;
      assert Overflow(v, p - n) ==> p - n - 28 in v;
    }
  }

  /** The four septets of a rotated half, most significant first. */
  function Septets(v: Word): (s: seq<nat>)
    ensures |s| == 4 && forall i :: 0 <= i < 4 ==> s[i] < 128
  {
    assert Pow2(7) == 128 by { assert Pow2(4) == 16; }
    seq(4, k requires 0 <= k < 4 => Field(v, 21 - 7 * k, 7))
  }

  ghost function Pc2Cells(h: nat): seq<nat> { seq(4, i => 4 * h + i) }

  lemma Pc2Driver(pc2: seq<nat>, h: nat, p: nat)
    requires SeparatesHalves(pc2) && h < 2 && At24(p) >= 0
    ensures At24(p) < 24 && Drives(Pc2Wiring(pc2), 8, Pc2Cells(h), p, 24 * h + At24(p))
  {
    At24BitMask(p);
    var w, rows := Pc2Wiring(pc2), Pc2Cells(h);
    forall a | 0 <= a < 48 && w.pos[a] == p && w.cell[a] in rows
      ensures a == 24 * h + At24(p)
    {
      var i :| 0 <= i < 4 && w.cell[a] == rows[i];
      assert a % 24 == At24(p);
    }
  }

  lemma Pc2LookupBit(pc2: seq<nat>, v: Word, c: seq<bool>, d: seq<bool>, h: nat, p: nat)
    requires SeparatesHalves(pc2) && |c| == 28 && |d| == 28 && h < 2 && 0 <= At24(p) < 24
    requires Holds(v, if h == 0 then c else d)
    ensures p in OrOf(Pc2Wiring(pc2), 8, Pc2Cells(h), Septets(v)) <==> (c + d)[pc2[24 * h + At24(p)] - 1]
  {
    var w, rows, s := Pc2Wiring(pc2), Pc2Cells(h), Septets(v);
    var half := if h == 0 then c else d;
    var b := 24 * h + At24(p);
    var from := pc2[b] - 1;
    var k, m := from / 7 - 4 * h, from % 7;
    Pc2Driver(pc2, h, p);
    assert w.cell[b] == rows[k] && w.sel[b] == 6 - m;
    OrOfBit(w, 8, rows, s, p, b, k);
    SeptetBit(v, half, k, m);
    assert from == 28 * h + 7 * k + m;
  }

  /** OR-ing the four do_pc2 lookups of one half gives one half of the round key. */
  lemma Pc2Lookup(pc2: seq<nat>, v: Word, c: seq<bool>, d: seq<bool>, h: nat)
    requires SeparatesHalves(pc2) && |c| == 28 && |d| == 28 && h < 2
    requires Holds(v, if h == 0 then c else d)
    ensures OrOf(Pc2Wiring(pc2), 8, Pc2Cells(h), Septets(v)) == Spread24(Permute(c + d, pc2)[24 * h..24 * h + 24])
  {
    var w, rows, s := Pc2Wiring(pc2), Pc2Cells(h), Septets(v);
    var key := Permute(c + d, pc2)[24 * h..24 * h + 24];
    forall p: nat
      ensures p in OrOf(w, 8, rows, s) <==> p in Spread24(key)
    {
      At24BitMask(p);
      if At24(p) >= 0 {
        Pc2LookupBit(pc2, v, c, d, h, p);
        assert key[At24(p)] == (c + d)[pc2[24 * h + At24(p)] - 1];
      } else {
        OrOfNothing(w, 8, rows, s, p);
      }
    }
  }

  lemma SeptetBit(v: Word, half: seq<bool>, k: nat, m: nat)
    requires |half| == 28 && Holds(v, half) && k < 4 && m < 7
    ensures NatBit(Septets(v)[k], 6 - m) <==> half[7 * k + m]
  {
    FieldBit(v, 21 - 7 * k, 7, 6 - m);
    assert FromEnd(half, 27 - 7 * k - m) == half[7 * k + m];
  }
}
