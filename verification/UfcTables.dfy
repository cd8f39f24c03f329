/**
 The precomputed permutation tables of UFC-crypt.

 Each of do_pc1, do_pc2, eperm32tab and efp is filled by the same kind of loop: output
 bit `b` is OR-ed into one row of the table, at one position of the word, for every
 index that has one given bit set.  A `Wiring` says which row, which index bit and which
 position.  The generic fact about them, `OrOfBit`, is that OR-ing one looked-up word per
 chunk of the source permutes the whole source.
 */
module UfcTables {
  import opened Bits

  // Positions of the one bit in bytemask[k], longmask[k] and BITMASK[k].

  function ByteMask(k: nat): nat requires k < 8 { 7 - k }

  function LongMask(k: nat): nat requires k < 32 { 31 - k }

  function BitMask(k: nat): nat requires k < 24 { if k < 12 then 30 - k else 26 - k }

  datatype Wiring = Wiring(cell: seq<nat>, sel: seq<nat>, pos: seq<nat>)
  {
    ghost predicate Fits(cells: nat) {
      && |cell| == |sel| == |pos|
      && (forall b :: 0 <= b < |cell| ==> cell[b] < cells)
      && (forall b :: 0 <= b < |pos| ==> pos[b] < 64)
    }
  }

  /** The entry for row `c` and index `j` once `n` output bits have been wired. */
  ghost function Image(w: Wiring, cells: nat, n: nat, c: nat, j: nat): Word
    requires w.Fits(cells) && n <= |w.cell|
    decreases n, w
  {
    if n == 0 then {}
    else if w.cell[n - 1] == c && NatBit(j, w.sel[n - 1]) then
      Or(Image(w, cells, n - 1, c, j), {w.pos[n - 1]})
    else
      Image(w, cells, n - 1, c, j)
  }

  /** One of the table-filling loops of __init_des_r. */
  method Build(w: Wiring, cells: nat, entries: nat) returns (t: array2<Word>)
    requires w.Fits(cells)
    ensures fresh(t) && t.Length0 == cells && t.Length1 == entries
    ensures forall c, j :: 0 <= c < cells && 0 <= j < entries ==> t[c, j] == Image(w, cells, |w.cell|, c, j)
  {
    t := new Word[cells, entries]((c, j) => {});
    for b := 0 to |w.cell|
      invariant forall c, j :: 0 <= c < cells && 0 <= j < entries ==> t[c, j] == Image(w, cells, b, c, j)
    {
      for j := 0 to entries
        invariant forall c, k :: 0 <= c < cells && 0 <= k < entries ==>
          t[c, k] == Image(w, cells, if k < j then b + 1 else b, c, k)
      {
        if NatBit(j, w.sel[b]) {
          t[w.cell[b], j] := Or(t[w.cell[b], j], {w.pos[b]});
        }
      }
    }
  }

  lemma {:induction false} ImageBit(w: Wiring, cells: nat, n: nat, c: nat, j: nat, p: nat)
    requires w.Fits(cells) && n <= |w.cell|
    ensures p in Image(w, cells, n, c, j) <==>
      exists b :: 0 <= b < n && w.cell[b] == c && w.pos[b] == p && NatBit(j, w.sel[b])
  {
    if n > 0 {
      ImageBit(w, cells, n - 1, c, j, p);
    }
  }

  /** The words looked up at the first `n` of the given rows and indexes, OR-ed together. */
  ghost function OrFirst(w: Wiring, cells: nat, rows: seq<nat>, idx: seq<nat>, n: nat): Word
    requires w.Fits(cells) && |rows| == |idx| && n <= |rows|
    decreases n, rows
  {
    if n == 0 then {}
    else Or(OrFirst(w, cells, rows, idx, n - 1), Image(w, cells, |w.cell|, rows[n - 1], idx[n - 1]))
  }

  ghost function OrOf(w: Wiring, cells: nat, rows: seq<nat>, idx: seq<nat>): Word
    requires w.Fits(cells) && |rows| == |idx|
  {
    OrFirst(w, cells, rows, idx, |rows|)
  }

  /** Output bit `b` is the only one wired to position `p` in any of the rows. */
  ghost predicate Drives(w: Wiring, cells: nat, rows: seq<nat>, p: nat, b: nat)
    requires w.Fits(cells)
  {
    && b < |w.cell| && w.pos[b] == p
    && forall a :: 0 <= a < |w.cell| && w.pos[a] == p && w.cell[a] in rows ==> a == b
  }

  lemma {:induction false} OrFirstBit(w: Wiring, cells: nat, rows: seq<nat>, idx: seq<nat>, n: nat, p: nat, b: nat, k: nat)
    requires w.Fits(cells) && |rows| == |idx| && k < |rows| && n <= |rows|
    requires forall i, j :: 0 <= i < j < |rows| ==> rows[i] != rows[j]
    requires Drives(w, cells, rows, p, b) && w.cell[b] == rows[k]
    ensures p in OrFirst(w, cells, rows, idx, n) <==> k < n && NatBit(idx[k], w.sel[b])
    decreases n
  {
    if n > 0 {
      OrFirstBit(w, cells, rows, idx, n - 1, p, b, k);
      ImageBit(w, cells, |w.cell|, rows[n - 1], idx[n - 1], p);
    }
  }

  /**
   OR-ing the images of all chunks sets position `p` exactly when the source bit that the
   wiring sends there is set, in whichever chunk it lies.
   */
  lemma OrOfBit(w: Wiring, cells: nat, rows: seq<nat>, idx: seq<nat>, p: nat, b: nat, k: nat)
    requires w.Fits(cells) && |rows| == |idx| && k < |rows|
    requires forall i, j :: 0 <= i < j < |rows| ==> rows[i] != rows[j]
    requires Drives(w, cells, rows, p, b) && w.cell[b] == rows[k]
    ensures p in OrOf(w, cells, rows, idx) <==> NatBit(idx[k], w.sel[b])
  {
    OrFirstBit(w, cells, rows, idx, |rows|, p, b, k);
  }

  lemma {:induction false} OrFirstNothing(w: Wiring, cells: nat, rows: seq<nat>, idx: seq<nat>, n: nat, p: nat)
    requires w.Fits(cells) && |rows| == |idx| && n <= |rows|
    requires forall a :: 0 <= a < |w.cell| ==> w.pos[a] != p
    ensures p !in OrFirst(w, cells, rows, idx, n)
    decreases n
  {
    if n > 0 {
      ImageBit(w, cells, |w.cell|, rows[n - 1], idx[n - 1], p);
      OrFirstNothing(w, cells, rows, idx, n - 1, p);
    }
  }

  /** Positions the wiring does not mention stay clear. */
  lemma OrOfNothing(w: Wiring, cells: nat, rows: seq<nat>, idx: seq<nat>, p: nat)
    requires w.Fits(cells) && |rows| == |idx|
    requires forall a :: 0 <= a < |w.cell| ==> w.pos[a] != p
    ensures p !in OrOf(w, cells, rows, idx)
  {
    OrFirstNothing(w, cells, rows, idx, |rows|, p);
  }

  lemma OrOfFour(w: Wiring, cells: nat, rows: seq<nat>, idx: seq<nat>)
    requires w.Fits(cells) && |rows| == |idx| == 4
    ensures var n := |w.cell|;
      OrOf(w, cells, rows, idx) ==
      Or(Or(Or(Image(w, cells, n, rows[0], idx[0]), Image(w, cells, n, rows[1], idx[1])),
            Image(w, cells, n, rows[2], idx[2])), Image(w, cells, n, rows[3], idx[3]))
  {
    var n := |w.cell|;
    assert OrFirst(w, cells, rows, idx, 1) == Image(w, cells, n, rows[0], idx[0]);
    assert OrFirst(w, cells, rows, idx, 2) == Or(OrFirst(w, cells, rows, idx, 1), Image(w, cells, n, rows[1], idx[1]));
    assert OrFirst(w, cells, rows, idx, 3) == Or(OrFirst(w, cells, rows, idx, 2), Image(w, cells, n, rows[2], idx[2]));
  }
}
