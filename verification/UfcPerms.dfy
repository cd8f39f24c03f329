/**
 The other two precomputed permutations of UFC-crypt: eperm32tab, which fuses P with the
 expansion, and efp, which undoes an expansion and applies the final permutation.
 */
module UfcPerms {
  import opened Bits
  import opened Fips46
  import opened Des
  import opened UfcTables
  import opened UfcLayout

  // ----- eperm32tab -----

  /** The source bit of expanded bit `b`. */
  function ExpandFrom(p: seq<nat>, e: seq<nat>, b: nat): (i: nat)
    requires |p| == 32 && Selects(p, 32) && Expansion(e) && b < 48
    ensures i < 32
  {
    p[e[b] - 1] - 1
  }

  function ExpandWiring(p: seq<nat>, e: seq<nat>): (w: Wiring)
    requires |p| == 32 && Selects(p, 32) && Expansion(e)
    ensures w.Fits(8)
  {
    Wiring(
      seq(48, b requires 0 <= b < 48 => ExpandFrom(p, e, b) / 8 * 2 + b / 24),
      seq(48, b requires 0 <= b < 48 => ByteMask(ExpandFrom(p, e, b) % 8)),
      seq(48, b requires 0 <= b < 48 => BitMask(b % 24)))
  }

  /** Four bytes as 32 bits, most significant byte first. */
  function FourBytes(v: seq<nat>): Bits32
    requires |v| == 4
  {
    seq(32, i requires 0 <= i < 32 => NatBit(v[i / 8], 7 - i % 8))
  }

  ghost function ExpandCells(h: nat): seq<nat> { seq(4, i => 2 * i + h) }

  lemma ExpandDriver(p: seq<nat>, e: seq<nat>, h: nat, q: nat)
    requires |p| == 32 && Selects(p, 32) && Expansion(e) && h < 2 && At24(q) >= 0
    ensures At24(q) < 24 && Drives(ExpandWiring(p, e), 8, ExpandCells(h), q, 24 * h + At24(q))
  {
    At24BitMask(q);
    var w, rows := ExpandWiring(p, e), ExpandCells(h);
    forall a | 0 <= a < 48 && w.pos[a] == q && w.cell[a] in rows
      ensures a == 24 * h + At24(q)
    {
      var i :| 0 <= i < 4 && w.cell[a] == rows[i];
      assert w.cell[a] == 2 * (ExpandFrom(p, e, a) / 8) + a / 24 && rows[i] == 2 * i + h;
      assert a / 24 == h && a % 24 == At24(q);
    }
  }

  lemma ExpandLookupBit(p: seq<nat>, e: seq<nat>, v: seq<nat>, h: nat, q: nat)
    requires |p| == 32 && Selects(p, 32) && Expansion(e) && |v| == 4 && h < 2 && 0 <= At24(q) < 24
    ensures q in OrOf(ExpandWiring(p, e), 8, ExpandCells(h), v) <==>
      FourBytes(v)[ExpandFrom(p, e, 24 * h + At24(q))]
  {
    var w, rows := ExpandWiring(p, e), ExpandCells(h);
    var b := 24 * h + At24(q);
    var from := ExpandFrom(p, e, b);
    ExpandDriver(p, e, h, q);
    assert w.cell[b] == rows[from / 8] && w.sel[b] == 7 - from % 8;
    OrOfBit(w, 8, rows, v, q, b, from / 8);
  }

  /** OR-ing the four byte images permutes by P and expands by E, one half at a time. */
  lemma ExpandLookup(p: seq<nat>, e: seq<nat>, v: seq<nat>, h: nat)
    requires |p| == 32 && Selects(p, 32) && Expansion(e) && |v| == 4 && h < 2
    ensures OrOf(ExpandWiring(p, e), 8, ExpandCells(h), v) ==
      Spread24(Permute(Permute(FourBytes(v), p), e)[24 * h..24 * h + 24])
  {
    var w, rows := ExpandWiring(p, e), ExpandCells(h);
    var half := Permute(Permute(FourBytes(v), p), e)[24 * h..24 * h + 24];
    forall q: nat
      ensures q in OrOf(w, 8, rows, v) <==> q in Spread24(half)
    {
      At24BitMask(q);
      if At24(q) >= 0 {
        ExpandLookupBit(p, e, v, h, q);
        assert half[At24(q)] == FourBytes(v)[ExpandFrom(p, e, 24 * h + At24(q))];
      } else {
        OrOfNothing(w, 8, rows, v, q);
      }
    }
  }

  // ----- efp -----

  /** For each of the 64 unexpanded bits, a place among the 96 expanded ones that holds it. */
  ghost predicate Unexpands(e: seq<nat>, inv: seq<nat>)
    requires |e| == 48
  {
    |inv| == 64 && forall j :: 0 <= j < 64 ==>
      inv[j] < 96 && (inv[j] < 48 <==> j < 32) && e[inv[j] % 48] == j % 32 + 1
  }

  /** The e_inverse loop of __init_des_r: the last write to a cell is the lowest bit. */
  method InvertExpansion(e: seq<nat>) returns (inv: seq<nat>)
    requires ExpandsAll(e)
    ensures Unexpands(e, inv)
  {
    var a := new nat[64](i => 0);
    var bit := 48;
    while bit > 0
      invariant bit <= 48
      invariant forall x :: 0 <= x < 32 && bit <= FirstUse(x) ==> Places(e, x, a[x], a[x + 32])
    {
      bit := bit - 1;
      a[e[bit] - 1] := bit;
      a[e[bit] - 1 + 32] := bit + 48;
    }
    inv := a[..];
    forall j | 0 <= j < 64
      ensures inv[j] < 96 && (inv[j] < 48 <==> j < 32) && e[inv[j] % 48] == j % 32 + 1
    {
      var x := if j < 32 then j else j - 32;
      assert Places(e, x, inv[x], inv[x + 32]);
    }
  }

  ghost predicate Places(e: seq<nat>, x: nat, left: nat, right: nat)
    requires |e| == 48
  {
    left < 48 && e[left] == x + 1 && right == left + 48
  }

  function FinalFrom(fp: seq<nat>, inv: seq<nat>, o: nat): (i: nat)
    requires |fp| == 64 && Selects(fp, 64) && |inv| == 64 && o < 64
  {
    inv[fp[o] - 1]
  }

  function FinalWiring(fp: seq<nat>, inv: seq<nat>): (w: Wiring)
    requires |fp| == 64 && Selects(fp, 64) && |inv| == 64 && forall j :: 0 <= j < 64 ==> inv[j] < 96
    ensures w.Fits(32)
  {
    Wiring(
      seq(64, o requires 0 <= o < 64 => FinalFrom(fp, inv, o) / 6 * 2 + o / 32),
      seq(64, o requires 0 <= o < 64 => LongMask(FinalFrom(fp, inv, o) % 6 + 26)),
      seq(64, o requires 0 <= o < 64 => LongMask(o % 32)))
  }

  /** Rows in the order the code visits them: chunk 15 first. */
  ghost function FinalCells(h: nat): seq<nat> { seq(16, i => 2 * (15 - i) + h) }

  /** The chunk values, in the same order, of a 96-bit string. */
  ghost predicate Chunks(x: seq<bool>, idx: seq<nat>)
    requires |x| == 96
  {
    |idx| == 16 && forall c, m :: 0 <= c < 16 && 0 <= m < 6 ==> ChunkBit(x, idx, c, m)
  }

  ghost predicate ChunkBit(x: seq<bool>, idx: seq<nat>, c: nat, m: nat)
    requires |x| == 96 && |idx| == 16 && c < 16 && m < 6
  {
    NatBit(idx[15 - c], 5 - m) == x[6 * c + m]
  }

  lemma FinalDriver(fp: seq<nat>, inv: seq<nat>, h: nat, q: nat)
    requires |fp| == 64 && Selects(fp, 64) && |inv| == 64 && forall j :: 0 <= j < 64 ==> inv[j] < 96
    requires h < 2 && q < 32
    ensures Drives(FinalWiring(fp, inv), 32, FinalCells(h), q, 32 * h + 31 - q)
  {
    var w, rows := FinalWiring(fp, inv), FinalCells(h);
    forall a | 0 <= a < 64 && w.pos[a] == q && w.cell[a] in rows
      ensures a == 32 * h + 31 - q
    {
      var i :| 0 <= i < 16 && w.cell[a] == rows[i];
      assert w.cell[a] == 2 * (FinalFrom(fp, inv, a) / 6) + a / 32 && rows[i] == 2 * (15 - i) + h;
      assert a / 32 == h;
    }
  }

  lemma FinalLookupBit(fp: seq<nat>, inv: seq<nat>, x: seq<bool>, idx: seq<nat>, h: nat, q: nat)
    requires |fp| == 64 && Selects(fp, 64) && |inv| == 64 && forall j :: 0 <= j < 64 ==> inv[j] < 96
    requires |x| == 96 && Chunks(x, idx) && h < 2 && q < 32
    ensures q in OrOf(FinalWiring(fp, inv), 32, FinalCells(h), idx) <==> x[FinalFrom(fp, inv, 32 * h + 31 - q)]
  {
    var w, rows := FinalWiring(fp, inv), FinalCells(h);
    var o := 32 * h + 31 - q;
    var from := FinalFrom(fp, inv, o);
    FinalDriver(fp, inv, h, q);
    assert w.cell[o] == rows[15 - from / 6] && w.sel[o] == 5 - from % 6;
    OrOfBit(w, 32, rows, idx, q, o, 15 - from / 6);
    assert ChunkBit(x, idx, from / 6, from % 6);
  }

  /** The efp lookups turn two expanded halves into the final permutation of the halves. */
  lemma FinalLookup(fp: seq<nat>, e: seq<nat>, inv: seq<nat>, b: Halves, idx: seq<nat>, h: nat)
    requires |fp| == 64 && Selects(fp, 64) && Expansion(e) && Unexpands(e, inv) && h < 2
    requires Chunks(Permute(b.l, e) + Permute(b.r, e), idx)
    ensures OrOf(FinalWiring(fp, inv), 32, FinalCells(h), idx) ==
      Aligned(Permute(b.Joined(), fp)[32 * h..32 * h + 32])
  {
    var w, rows := FinalWiring(fp, inv), FinalCells(h);
    var x := Permute(b.l, e) + Permute(b.r, e);
    var out := Permute(b.Joined(), fp)[32 * h..32 * h + 32];
    forall q: nat
      ensures q in OrOf(w, 32, rows, idx) <==> q in Aligned(out)
    {
      if q < 32 {
        FinalLookupBit(fp, inv, x, idx, h, q);
        assert FromEnd(out, q) == Permute(b.Joined(), fp)[32 * h + 31 - q];
      } else {
        OrOfNothing(w, 32, rows, idx, q);
      }
    }
  }

}
