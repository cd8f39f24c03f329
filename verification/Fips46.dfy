/**
 The Data Encryption Standard, FIPS 46-3, stated on bit strings.

 Selection tables number bits from 1, as the standard does.  The expansion table is a
 parameter because crypt(3) changes nothing else: a salt swaps entries of it.
 */
module Fips46 {

  const IP_ROWS: seq<seq<nat>> := [
    [58, 50, 42, 34, 26, 18, 10, 2], [60, 52, 44, 36, 28, 20, 12, 4],
    [62, 54, 46, 38, 30, 22, 14, 6], [64, 56, 48, 40, 32, 24, 16, 8],
    [57, 49, 41, 33, 25, 17, 9, 1], [59, 51, 43, 35, 27, 19, 11, 3],
    [61, 53, 45, 37, 29, 21, 13, 5], [63, 55, 47, 39, 31, 23, 15, 7]]

  const FP_ROWS: seq<seq<nat>> := [
    [40, 8, 48, 16, 56, 24, 64, 32], [39, 7, 47, 15, 55, 23, 63, 31],
    [38, 6, 46, 14, 54, 22, 62, 30], [37, 5, 45, 13, 53, 21, 61, 29],
    [36, 4, 44, 12, 52, 20, 60, 28], [35, 3, 43, 11, 51, 19, 59, 27],
    [34, 2, 42, 10, 50, 18, 58, 26], [33, 1, 41, 9, 49, 17, 57, 25]]

  const PC1_ROWS: seq<seq<nat>> := [
    [57, 49, 41, 33, 25, 17, 9], [1, 58, 50, 42, 34, 26, 18],
    [10, 2, 59, 51, 43, 35, 27], [19, 11, 3, 60, 52, 44, 36],
    [63, 55, 47, 39, 31, 23, 15], [7, 62, 54, 46, 38, 30, 22],
    [14, 6, 61, 53, 45, 37, 29], [21, 13, 5, 28, 20, 12, 4]]

  const PC2_ROWS: seq<seq<nat>> := [
    [14, 17, 11, 24, 1, 5], [3, 28, 15, 6, 21, 10],
    [23, 19, 12, 4, 26, 8], [16, 7, 27, 20, 13, 2],
    [41, 52, 31, 37, 47, 55], [30, 40, 51, 45, 33, 48],
    [44, 49, 39, 56, 34, 53], [46, 42, 50, 36, 29, 32]]

  const E_ROWS: seq<seq<nat>> := [
    [32, 1, 2, 3, 4, 5], [4, 5, 6, 7, 8, 9],
    [8, 9, 10, 11, 12, 13], [12, 13, 14, 15, 16, 17],
    [16, 17, 18, 19, 20, 21], [20, 21, 22, 23, 24, 25],
    [24, 25, 26, 27, 28, 29], [28, 29, 30, 31, 32, 1]]

  const P_ROWS: seq<seq<nat>> := [
    [16, 7, 20, 21], [29, 12, 28, 17], [1, 15, 23, 26], [5, 18, 31, 10],
    [2, 8, 24, 14], [32, 27, 3, 9], [19, 13, 30, 6], [22, 11, 4, 25]]

  const S1: seq<seq<nat>> := [
    [14, 4, 13, 1, 2, 15, 11, 8, 3, 10, 6, 12, 5, 9, 0, 7],
    [0, 15, 7, 4, 14, 2, 13, 1, 10, 6, 12, 11, 9, 5, 3, 8],
    [4, 1, 14, 8, 13, 6, 2, 11, 15, 12, 9, 7, 3, 10, 5, 0],
    [15, 12, 8, 2, 4, 9, 1, 7, 5, 11, 3, 14, 10, 0, 6, 13]]

  const S2: seq<seq<nat>> := [
    [15, 1, 8, 14, 6, 11, 3, 4, 9, 7, 2, 13, 12, 0, 5, 10],
    [3, 13, 4, 7, 15, 2, 8, 14, 12, 0, 1, 10, 6, 9, 11, 5],
    [0, 14, 7, 11, 10, 4, 13, 1, 5, 8, 12, 6, 9, 3, 2, 15],
    [13, 8, 10, 1, 3, 15, 4, 2, 11, 6, 7, 12, 0, 5, 14, 9]]

  const S3: seq<seq<nat>> := [
    [10, 0, 9, 14, 6, 3, 15, 5, 1, 13, 12, 7, 11, 4, 2, 8],
    [13, 7, 0, 9, 3, 4, 6, 10, 2, 8, 5, 14, 12, 11, 15, 1],
    [13, 6, 4, 9, 8, 15, 3, 0, 11, 1, 2, 12, 5, 10, 14, 7],
    [1, 10, 13, 0, 6, 9, 8, 7, 4, 15, 14, 3, 11, 5, 2, 12]]

  const S4: seq<seq<nat>> := [
    [7, 13, 14, 3, 0, 6, 9, 10, 1, 2, 8, 5, 11, 12, 4, 15],
    [13, 8, 11, 5, 6, 15, 0, 3, 4, 7, 2, 12, 1, 10, 14, 9],
    [10, 6, 9, 0, 12, 11, 7, 13, 15, 1, 3, 14, 5, 2, 8, 4],
    [3, 15, 0, 6, 10, 1, 13, 8, 9, 4, 5, 11, 12, 7, 2, 14]]

  const S5: seq<seq<nat>> := [
    [2, 12, 4, 1, 7, 10, 11, 6, 8, 5, 3, 15, 13, 0, 14, 9],
    [14, 11, 2, 12, 4, 7, 13, 1, 5, 0, 15, 10, 3, 9, 8, 6],
    [4, 2, 1, 11, 10, 13, 7, 8, 15, 9, 12, 5, 6, 3, 0, 14],
    [11, 8, 12, 7, 1, 14, 2, 13, 6, 15, 0, 9, 10, 4, 5, 3]]

  const S6: seq<seq<nat>> := [
    [12, 1, 10, 15, 9, 2, 6, 8, 0, 13, 3, 4, 14, 7, 5, 11],
    [10, 15, 4, 2, 7, 12, 9, 5, 6, 1, 13, 14, 0, 11, 3, 8],
    [9, 14, 15, 5, 2, 8, 12, 3, 7, 0, 4, 10, 1, 13, 11, 6],
    [4, 3, 2, 12, 9, 5, 15, 10, 11, 14, 1, 7, 6, 0, 8, 13]]

  const S7: seq<seq<nat>> := [
    [4, 11, 2, 14, 15, 0, 8, 13, 3, 12, 9, 7, 5, 10, 6, 1],
    [13, 0, 11, 7, 4, 9, 1, 10, 14, 3, 5, 12, 2, 15, 8, 6],
    [1, 4, 11, 13, 12, 3, 7, 14, 10, 15, 6, 8, 0, 5, 9, 2],
    [6, 11, 13, 8, 1, 4, 10, 7, 9, 5, 0, 15, 14, 2, 3, 12]]

  const S8: seq<seq<nat>> := [
    [13, 2, 8, 4, 6, 15, 11, 1, 10, 9, 3, 14, 5, 0, 12, 7],
    [1, 15, 13, 8, 10, 3, 7, 4, 12, 5, 6, 11, 0, 14, 9, 2],
    [7, 11, 4, 1, 9, 12, 14, 2, 0, 6, 10, 13, 15, 3, 5, 8],
    [2, 1, 14, 7, 4, 10, 8, 13, 15, 12, 9, 0, 3, 5, 6, 11]]

  // The standard prints its tables in rows; these lay the rows end to end.

  ghost predicate Rows(rows: seq<seq<nat>>, w: nat) {
    |rows| == 8 && forall r :: 0 <= r < 8 ==> |rows[r]| == w
  }

  function Flat4(rows: seq<seq<nat>>): seq<nat>
    requires Rows(rows, 4)
  {
    seq(32, i requires 0 <= i < 32 => rows[i / 4][i % 4])
  }

  function Flat6(rows: seq<seq<nat>>): seq<nat>
    requires Rows(rows, 6)
  {
    seq(48, i requires 0 <= i < 48 => rows[i / 6][i % 6])
  }

  function Flat7(rows: seq<seq<nat>>): seq<nat>
    requires Rows(rows, 7)
  {
    seq(56, i requires 0 <= i < 56 => rows[i / 7][i % 7])
  }

  function Flat8(rows: seq<seq<nat>>): seq<nat>
    requires Rows(rows, 8)
  {
    seq(64, i requires 0 <= i < 64 => rows[i / 8][i % 8])
  }

  /** Every entry selects one of `n` source bits. */
  ghost predicate Selects(tab: seq<nat>, n: nat) {
    forall i :: 0 <= i < |tab| ==> 1 <= tab[i] <= n
  }

  ghost predicate Inverse(a: seq<nat>, b: seq<nat>) {
    |a| == |b| && Selects(a, |b|) && forall i :: 0 <= i < |a| ==> b[a[i] - 1] == i + 1
  }

  /** Where the expansion first selects source bit `x`. */
  function FirstUse(x: nat): nat { 6 * (x / 4) + x % 4 + 1 }

  ghost predicate ExpandsAll(e: seq<nat>) {
    |e| == 48 && Selects(e, 32) && forall x :: 0 <= x < 32 ==> e[FirstUse(x)] == x + 1
  }

  /** The eight parity bits of the key are never selected. */
  ghost predicate SkipsParity(pc1: seq<nat>) {
    |pc1| == 56 && Selects(pc1, 64) && forall i :: 0 <= i < 56 ==> (pc1[i] - 1) % 8 < 7
  }

  /** The two halves of a round key come from the two halves of the rotated key. */
  ghost predicate SeparatesHalves(pc2: seq<nat>) {
    |pc2| == 48 && Selects(pc2, 56) && forall i :: 0 <= i < 48 ==> (pc2[i] <= 28 <==> i < 24)
  }

  ghost predicate Nibbles(row: seq<nat>) {
    |row| == 16 && forall i :: 0 <= i < 16 ==> row[i] < 16
  }

  ghost predicate IsSBox(s: seq<seq<nat>>) {
    |s| == 4 && forall r :: 0 <= r < 4 ==> Nibbles(s[r])
  }

  /** The tables of the standard. */
  datatype Tables = Tables(
    ip: seq<nat>, fp: seq<nat>, pc1: seq<nat>, pc2: seq<nat>, e: seq<nat>, p: seq<nat>,
    s: seq<seq<seq<nat>>>, rotations: seq<nat>)
  {
    /** The facts about the tables that the implementation rests on. */
    ghost predicate WellFormed() {
      && |ip| == 64 && Inverse(ip, fp) && Inverse(fp, ip)
      && SkipsParity(pc1)
      && SeparatesHalves(pc2)
      && ExpandsAll(e)
      && |p| == 32 && Selects(p, 32)
      && |s| == 8 && (forall b :: 0 <= b < 8 ==> IsSBox(s[b]))
      && |rotations| == 16 && (forall i :: 0 <= i < 16 ==> 1 <= rotations[i] <= 2)
    }
  }

  const ROTATIONS: seq<nat> := [1, 1, 2, 2, 2, 2, 2, 2, 1, 2, 2, 2, 2, 2, 2, 1]

  const STANDARD: Tables := Tables(
    Flat8(IP_ROWS), Flat8(FP_ROWS), Flat7(PC1_ROWS), Flat6(PC2_ROWS), Flat6(E_ROWS), Flat4(P_ROWS),
    [S1, S2, S3, S4, S5, S6, S7, S8], ROTATIONS)

  ghost predicate IpForm(rows: seq<seq<nat>>) {
    Rows(rows, 8) && forall r, c :: 0 <= r < 8 && 0 <= c < 8 ==>
      rows[r][c] == (if r < 4 then 58 else 49) + 2 * r - 8 * c
  }

  ghost predicate FpForm(rows: seq<seq<nat>>) {
    Rows(rows, 8) && forall r :: 0 <= r < 8 ==> FpRow(rows[r], r)
  }

  ghost predicate FpRow(row: seq<nat>, r: int) {
    |row| == 8 && forall c :: 0 <= c < 8 ==> row[c] == (if c % 2 == 0 then 40 else 8) + 8 * (c / 2) - r
  }

  ghost predicate EForm(rows: seq<seq<nat>>) {
    Rows(rows, 6) && forall r, c :: 0 <= r < 8 && 0 <= c < 6 ==> rows[r][c] == (4 * r + c + 31) % 32 + 1
  }

  ghost predicate Pc1Form(rows: seq<seq<nat>>) {
    Rows(rows, 7) && forall r, c :: 0 <= r < 8 && 0 <= c < 7 ==>
      1 <= rows[r][c] <= 64 && (rows[r][c] - 1) % 8 < 7
  }

  ghost predicate Pc2Form(rows: seq<seq<nat>>) {
    Rows(rows, 6) && forall r, c :: 0 <= r < 8 && 0 <= c < 6 ==>
      if r < 4 then 1 <= rows[r][c] <= 28 else 29 <= rows[r][c] <= 56
  }

  ghost predicate PForm(rows: seq<seq<nat>>) {
    Rows(rows, 4) && forall r, c :: 0 <= r < 8 && 0 <= c < 4 ==> 1 <= rows[r][c] <= 32
  }

  lemma IpRows() ensures IpForm(IP_ROWS) {}
  lemma FpRows()
    ensures FpForm(FP_ROWS)
  {
    FpRowIs(FP_ROWS[0], 0); FpRowIs(FP_ROWS[1], 1); FpRowIs(FP_ROWS[2], 2); FpRowIs(FP_ROWS[3], 3);
    FpRowIs(FP_ROWS[4], 4); FpRowIs(FP_ROWS[5], 5); FpRowIs(FP_ROWS[6], 6); FpRowIs(FP_ROWS[7], 7);
  }

  lemma FpRowIs(row: seq<nat>, r: nat)
    requires r < 8 && row == [40 - r, 8 - r, 48 - r, 16 - r, 56 - r, 24 - r, 64 - r, 32 - r]
    ensures FpRow(row, r)
  {
  }
  lemma ERows() ensures EForm(E_ROWS) {}
  lemma Pc1Rows() ensures Pc1Form(PC1_ROWS) {}
  lemma Pc2Rows() ensures Pc2Form(PC2_ROWS) {}
  lemma PRows() ensures PForm(P_ROWS) {}
  /** Every row of an S-box is a permutation of the sixteen outputs. */
  ghost predicate Onto(row: seq<nat>) { |row| == 16 && forall v: nat :: v < 16 ==> v in row }

  ghost predicate AllOnto(s: seq<seq<nat>>) { |s| == 4 && Onto(s[0]) && Onto(s[1]) && Onto(s[2]) && Onto(s[3]) }

  lemma S1Onto() ensures AllOnto(S1) {}
  lemma S2Onto() ensures AllOnto(S2) {}
  lemma S3Onto() ensures AllOnto(S3) {}
  lemma S4Onto() ensures AllOnto(S4) {}
  lemma S5Onto() ensures AllOnto(S5) {}
  lemma S6Onto() ensures AllOnto(S6) {}
  lemma S7Onto() ensures AllOnto(S7) {}
  lemma S8Onto() ensures AllOnto(S8) {}

  lemma SBoxesOnto()
    ensures forall i :: 0 <= i < 8 ==> AllOnto(STANDARD.s[i])
  {
    S1Onto(); S2Onto(); S3Onto(); S4Onto(); S5Onto(); S6Onto(); S7Onto(); S8Onto();
    var s := [S1, S2, S3, S4, S5, S6, S7, S8];
    forall i | 0 <= i < 8 ensures AllOnto(s[i]) {
    }
  }

  lemma FourRows(s: seq<seq<nat>>)
    requires |s| == 4 && Nibbles(s[0]) && Nibbles(s[1]) && Nibbles(s[2]) && Nibbles(s[3])
    ensures IsSBox(s)
  {
  }

  lemma S1Nibbles() ensures IsSBox(S1) { FourRows(S1); }
  lemma S2Nibbles() ensures IsSBox(S2) { FourRows(S2); }
  lemma S3Nibbles() ensures IsSBox(S3) { FourRows(S3); }
  lemma S4Nibbles() ensures IsSBox(S4) { FourRows(S4); }
  lemma S5Nibbles() ensures IsSBox(S5) { FourRows(S5); }
  lemma S6Nibbles() ensures IsSBox(S6) { FourRows(S6); }
  lemma S7Nibbles() ensures IsSBox(S7) { FourRows(S7); }
  lemma S8Nibbles() ensures IsSBox(S8) { FourRows(S8); }

  lemma FpUndoesIp(ip: seq<seq<nat>>, fp: seq<seq<nat>>)
    requires IpForm(ip) && FpForm(fp)
    ensures Inverse(Flat8(ip), Flat8(fp))
  {
    forall i | 0 <= i < 64
      ensures 1 <= Flat8(ip)[i] <= 64 && Flat8(fp)[Flat8(ip)[i] - 1] == i + 1
    {
      IpThenFp(ip, fp, i / 8, i % 8);
    }
  }

  /** Entry `8 * r + c` of IP names an entry of FP that leads back. */
  lemma IpThenFp(ip: seq<seq<nat>>, fp: seq<seq<nat>>, r: int, c: int)
    requires IpForm(ip) && FpForm(fp) && 0 <= r < 8 && 0 <= c < 8
    ensures 1 <= ip[r][c] <= 64 && fp[(ip[r][c] - 1) / 8][(ip[r][c] - 1) % 8] == 8 * r + c + 1
  {
    assert ip[r][c] - 1 == 8 * (7 - c) + (if r < 4 then 2 * r + 1 else 2 * r - 8);
  }

  lemma IpUndoesFp(ip: seq<seq<nat>>, fp: seq<seq<nat>>)
    requires IpForm(ip) && FpForm(fp)
    ensures Inverse(Flat8(fp), Flat8(ip))
  {
    forall i | 0 <= i < 64
      ensures 1 <= Flat8(fp)[i] <= 64 && Flat8(ip)[Flat8(fp)[i] - 1] == i + 1
    {
      FpThenIp(ip, fp, i / 8, i % 8);
    }
  }

  lemma FpThenIp(ip: seq<seq<nat>>, fp: seq<seq<nat>>, r: int, c: int)
    requires IpForm(ip) && FpForm(fp) && 0 <= r < 8 && 0 <= c < 8
    ensures 1 <= fp[r][c] <= 64 && ip[(fp[r][c] - 1) / 8][(fp[r][c] - 1) % 8] == 8 * r + c + 1
  {
    assert fp[r][c] - 1 == 8 * ((if c % 2 == 0 then 4 else 0) + c / 2) + (7 - r);
  }

  lemma ESelects(e: seq<seq<nat>>)
    requires EForm(e)
    ensures ExpandsAll(Flat6(e))
  {
    forall x | 0 <= x < 32 ensures Flat6(e)[FirstUse(x)] == x + 1 {
      assert FirstUse(x) / 6 == x / 4 && FirstUse(x) % 6 == x % 4 + 1;
    }
  }

  lemma Pc2Selects(pc2: seq<seq<nat>>)
    requires Pc2Form(pc2)
    ensures SeparatesHalves(Flat6(pc2))
  {
  }

  lemma PSelects(p: seq<seq<nat>>)
    requires PForm(p)
    ensures Selects(Flat4(p), 32)
  {
  }

  lemma {:induction false} StandardWellFormed()
    ensures STANDARD.WellFormed()
  {
    IpRows(); FpRows(); ERows(); Pc1Rows(); Pc2Rows(); PRows();
    FpUndoesIp(IP_ROWS, FP_ROWS);
    IpUndoesFp(IP_ROWS, FP_ROWS);
    ESelects(E_ROWS); Pc2Selects(PC2_ROWS); PSelects(P_ROWS);
    S1Nibbles(); S2Nibbles(); S3Nibbles(); S4Nibbles(); S5Nibbles(); S6Nibbles(); S7Nibbles(); S8Nibbles();
  }
}
