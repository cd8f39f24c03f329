/**
 Enciphering and deciphering as FIPS 46-3 defines them, for any expansion table, and the
 theorem that deciphering with the reversed schedule undoes enciphering.
 */
module Des {
  import opened Bits
  import opened Fips46

  type Bits32 = b: seq<bool> | |b| == 32 witness seq(32, i => false)
  type Bits48 = b: seq<bool> | |b| == 48 witness seq(48, i => false)
  type Bits64 = b: seq<bool> | |b| == 64 witness seq(64, i => false)

  function Permute(s: seq<bool>, tab: seq<nat>): (r: seq<bool>)
    requires Selects(tab, |s|)
    ensures |r| == |tab|
  {
    seq(|tab|, i requires 0 <= i < |tab| => s[tab[i] - 1])
  }

  ghost predicate Expansion(e: seq<nat>) { |e| == 48 && Selects(e, 32) }

  /** S-box `i` applied to the six bits of `x` that belong to it. */
  function SBox(t: Tables, x: Bits48, i: nat): (v: nat)
    requires t.WellFormed() && i < 8
    ensures v < 16
  {
    var row := 2 * BoolVal(x[6 * i]) + BoolVal(x[6 * i + 5]);
    var column := 8 * BoolVal(x[6 * i + 1]) + 4 * BoolVal(x[6 * i + 2]) + 2 * BoolVal(x[6 * i + 3]) + BoolVal(x[6 * i + 4]);
    assert IsSBox(t.s[i]) && Nibbles(t.s[i][row]);
    t.s[i][row][column]
  }

  /** The selection functions: eight 4-bit outputs side by side. */
  function Select(t: Tables, x: Bits48): Bits32
    requires t.WellFormed()
  {
    seq(32, i requires 0 <= i < 32 => NatBit(SBox(t, x, i / 4), 3 - i % 4))
  }

  /** The cipher function f(R, K), with expansion table `e`. */
  function Cipher(t: Tables, e: seq<nat>, r: Bits32, k: Bits48): Bits32
    requires t.WellFormed() && Expansion(e)
  {
    Permute(Select(t, XorBits(Permute(r, e), k)), t.p)
  }

  datatype Halves = Halves(l: Bits32, r: Bits32)
  {
    function Swap(): Halves { Halves(r, l) }
    function Joined(): Bits64 { l + r }
  }

  function Split(b: Bits64): Halves { Halves(b[..32], b[32..]) }

  function Round(t: Tables, e: seq<nat>, h: Halves, k: Bits48): Halves
    requires t.WellFormed() && Expansion(e)
  {
    Halves(h.r, XorBits(h.l, Cipher(t, e, h.r, k)))
  }

  function Rounds(t: Tables, e: seq<nat>, h: Halves, ks: seq<Bits48>): Halves
    requires t.WellFormed() && Expansion(e)
    decreases |ks|
  {
    if ks == [] then h else Rounds(t, e, Round(t, e, h, ks[0]), ks[1..])
  }

  /** All rounds followed by the interchange that forms the preoutput block. */
  function Core(t: Tables, e: seq<nat>, h: Halves, ks: seq<Bits48>): Halves
    requires t.WellFormed() && Expansion(e)
  {
    Rounds(t, e, h, ks).Swap()
  }

  /** The whole algorithm: initial permutation, rounds, inverse initial permutation. */
  function Apply(t: Tables, e: seq<nat>, block: Bits64, ks: seq<Bits48>): Bits64
    requires t.WellFormed() && Expansion(e)
  {
    Permute(Core(t, e, Split(Permute(block, t.ip)), ks).Joined(), t.fp)
  }

  /** The 64-bit key whose byte `i` has the seven bits `bytes[i]` and a zero parity bit. */
  function KeyBits(bytes: seq<nat>): Bits64
    requires |bytes| == 8
  {
    seq(64, i requires 0 <= i < 64 => i % 8 < 7 && NatBit(bytes[i / 8], 6 - i % 8))
  }

  function RotateLeft(h: seq<bool>, n: nat): seq<bool>
    requires n <= |h|
  {
    h[n..] + h[..n]
  }

  /** The key halves C and D after `i` rotations. */
  function KeyHalves(t: Tables, key: Bits64, i: nat): (cd: (seq<bool>, seq<bool>))
    requires t.WellFormed() && i <= 16
    ensures |cd.0| == 28 && |cd.1| == 28
  {
    if i == 0 then
      var cd := Permute(key, t.pc1);
      (cd[..28], cd[28..])
    else
      var cd := KeyHalves(t, key, i - 1);
      (RotateLeft(cd.0, t.rotations[i - 1]), RotateLeft(cd.1, t.rotations[i - 1]))
  }

  /** The bits the key halves have been turned by after `i` rotations. */
  function Turned(rotations: seq<nat>, i: nat): nat
    requires i <= |rotations|
  {
    if i == 0 then 0 else Turned(rotations, i - 1) + rotations[i - 1]
  }

  lemma {:induction false} HalvesTurned(t: Tables, key: Bits64, i: nat)
    requires t.WellFormed() && i <= 16 && forall j :: 0 <= j <= i ==> Turned(t.rotations, j) <= 28
    ensures KeyHalves(t, key, i) ==
      (RotateLeft(KeyHalves(t, key, 0).0, Turned(t.rotations, i)), RotateLeft(KeyHalves(t, key, 0).1, Turned(t.rotations, i)))
  {
    var c, d := KeyHalves(t, key, 0).0, KeyHalves(t, key, 0).1;
    RotateRound(c);
    RotateRound(d);
    if i > 0 {
      assert Turned(t.rotations, i) <= 28 && Turned(t.rotations, i) == Turned(t.rotations, i - 1) + t.rotations[i - 1];
      HalvesTurned(t, key, i - 1);
      RotateTwice(c, Turned(t.rotations, i - 1), t.rotations[i - 1]);
      RotateTwice(d, Turned(t.rotations, i - 1), t.rotations[i - 1]);
    }
  }

  lemma RotateRound(h: seq<bool>)
    ensures RotateLeft(h, 0) == h && RotateLeft(h, |h|) == h
  {
  }

  lemma RotateTwice(h: seq<bool>, m: nat, n: nat)
    requires m + n <= |h|
    ensures RotateLeft(RotateLeft(h, m), n) == RotateLeft(h, m + n)
  {
  }

  lemma {:induction false} TurnedOnce()
    ensures Turned(ROTATIONS, 16) == 28 && forall j :: 0 <= j <= 16 ==> Turned(ROTATIONS, j) <= 28
  {
    assert Turned(ROTATIONS, 4) == 6;
    assert Turned(ROTATIONS, 8) == 14;
    assert Turned(ROTATIONS, 12) == 21;
    assert Turned(ROTATIONS, 16) == 28;
    forall j | 0 <= j <= 16 ensures Turned(ROTATIONS, j) <= 28 {
      TurnedMonotone(ROTATIONS, j, 16);
    }
  }

  lemma {:induction false} TurnedMonotone(rotations: seq<nat>, i: nat, j: nat)
    requires i <= j <= |rotations|
    ensures Turned(rotations, i) <= Turned(rotations, j)
    decreases j
  {
    if i < j {
      TurnedMonotone(rotations, i, j - 1);
    }
  }

  /** With the standard's rotations the key halves have come round after sixteen keys, as deciphering needs them. */
  lemma HalvesComeRound(t: Tables, key: Bits64)
    requires t.WellFormed() && t.rotations == ROTATIONS
    ensures KeyHalves(t, key, 16) == KeyHalves(t, key, 0)
  {
    TurnedOnce();
    HalvesTurned(t, key, 16);
    RotateRound(KeyHalves(t, key, 0).0);
    RotateRound(KeyHalves(t, key, 0).1);
  }

  /** The example of FIPS 46-3: S1 gives 0101 for 011011. */
  lemma SelectExample(t: Tables, x: Bits48)
    requires t.WellFormed() && t.s[0] == S1 && x[..6] == [false, true, true, false, true, true]
    ensures SBox(t, x, 0) == 5 && Select(t, x)[..4] == [false, true, false, true]
  {
    var six := x[..6];
    assert x[0] == six[0] && x[1] == six[1] && x[2] == six[2] && x[3] == six[3] && x[4] == six[4] && x[5] == six[5];
    assert SBox(t, x, 0) == 5;
    assert !NatBit(5, 3) && NatBit(5, 2) && !NatBit(5, 1) && NatBit(5, 0);
  }

  function RoundKey(t: Tables, key: Bits64, i: nat): Bits48
    requires t.WellFormed() && i < 16
  {
    var cd := KeyHalves(t, key, i + 1);
    Permute(cd.0 + cd.1, t.pc2)
  }

  function Schedule(t: Tables, key: Bits64): seq<Bits48>
    requires t.WellFormed()
  {
    seq(16, i requires 0 <= i < 16 => RoundKey(t, key, i))
  }

  function Reversed<T>(s: seq<T>): (r: seq<T>)
    ensures |r| == |s|
  {
    seq(|s|, i requires 0 <= i < |s| => s[|s| - 1 - i])
  }

  function Encrypt(t: Tables, key: Bits64, block: Bits64): Bits64
    requires t.WellFormed()
  {
    Apply(t, t.e, block, Schedule(t, key))
  }

  function Decrypt(t: Tables, key: Bits64, block: Bits64): Bits64
    requires t.WellFormed()
  {
    Apply(t, t.e, block, Reversed(Schedule(t, key)))
  }

  /** Peeling rounds off the end of a schedule instead of its start. */
  lemma {:induction false} RoundsSnoc(t: Tables, e: seq<nat>, h: Halves, ks: seq<Bits48>, k: Bits48)
    requires t.WellFormed() && Expansion(e)
    ensures Rounds(t, e, h, ks + [k]) == Round(t, e, Rounds(t, e, h, ks), k)
    decreases |ks|
  {
    if ks == [] {
      assert ([] + [k])[1..] == [];
    } else {
      RoundsSnoc(t, e, Round(t, e, h, ks[0]), ks[1..], k);
      assert (ks + [k])[1..] == ks[1..] + [k];
    }
  }

  /** Running the reversed schedule on the interchanged halves undoes the rounds. */
  lemma {:induction false} RoundsUndone(t: Tables, e: seq<nat>, h: Halves, ks: seq<Bits48>)
    requires t.WellFormed() && Expansion(e)
    ensures Rounds(t, e, Rounds(t, e, h, ks).Swap(), Reversed(ks)) == h.Swap()
    decreases |ks|
  {
    if ks != [] {
      var h1, rest := Round(t, e, h, ks[0]), ks[1..];
      assert Reversed(ks) == Reversed(rest) + [ks[0]];
      RoundsSnoc(t, e, Rounds(t, e, h1, rest).Swap(), Reversed(rest), ks[0]);
      RoundsUndone(t, e, h1, rest);
    }
  }

  lemma PermuteInverse(s: seq<bool>, a: seq<nat>, b: seq<nat>)
    requires |s| == |a| && Inverse(a, b) && Inverse(b, a)
    ensures Permute(Permute(s, a), b) == s
  {
  }

  /** Applying the algorithm with a schedule and then with its reversal returns the block. */
  lemma ApplyUndone(t: Tables, e: seq<nat>, block: Bits64, ks: seq<Bits48>)
    requires t.WellFormed() && Expansion(e)
    ensures Apply(t, e, Apply(t, e, block, ks), Reversed(ks)) == block
  {
    var ip := Permute(block, t.ip);
    var mid := Core(t, e, Split(ip), ks);
    PermuteInverse(mid.Joined(), t.fp, t.ip);
    assert Split(mid.Joined()) == mid;
    RoundsUndone(t, e, Split(ip), ks);
    assert Split(ip).Joined() == ip;
    PermuteInverse(block, t.ip, t.fp);
  }

  lemma DecryptUndoesEncrypt(t: Tables, key: Bits64, block: Bits64)
    requires t.WellFormed()
    ensures Decrypt(t, key, Encrypt(t, key, block)) == block
    ensures Encrypt(t, key, Decrypt(t, key, block)) == block
  {
    var ks := Schedule(t, key);
    ApplyUndone(t, t.e, block, ks);
    ApplyUndone(t, t.e, block, Reversed(ks));
    assert Reversed(Reversed(ks)) == ks;
  }
}
