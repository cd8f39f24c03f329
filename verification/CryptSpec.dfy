/**
 What crypt(3) computes: DES with the expansion table perturbed by a two-character salt,
 applied twenty-five times to a block of zeroes, printed six bits to a character.
 */
module CryptSpec {
  import opened Bits
  import opened Fips46
  import opened Des

  type Char = c: int | -128 <= c < 128

  const ITERATIONS: nat := 25

  const DOT: Char := 46
  const UPPER_A: Char := 65
  const LOWER_A: Char := 97

  function AsciiToBin(c: Char): int {
    if c >= LOWER_A then c - 59 else if c >= UPPER_A then c - 53 else c - DOT
  }

  function BinToAscii(v: nat): Char
    requires v < 64
  {
    if v >= 38 then v - 38 + LOWER_A else if v >= 12 then v - 12 + UPPER_A else v + DOT
  }

  const CAPITALS: string := "ABCDEFGHIJKLMNOPQRSTUVWXYZ"
  const SMALL: string := "abcdefghijklmnopqrstuvwxyz"

  /** The printing alphabet: dot and slash, digits, capitals and small letters. */
  lemma BinToAsciiIs(v: nat)
    requires v < 64
    ensures if v < 12 then BinToAscii(v) == "./0123456789"[v] as int
            else if v < 38 then BinToAscii(v) == CAPITALS[v - 12] as int
            else BinToAscii(v) == SMALL[v - 38] as int
  {
  }

  /** The printing alphabet is decoded by the salt decoder. */
  lemma BinAsciiRoundTrip(v: nat)
    requires v < 64
    ensures AsciiToBin(BinToAscii(v)) == v
  {
  }

  /** Bit `j` of a salt character's value, as an arithmetic shift of it gives. */
  predicate SaltBit(c: Char, j: nat) { NatBit(AsciiToBin(c) % 64, j) }

  /** Whether the salt exchanges entries `k` and `k + 24` of the expansion table. */
  predicate Exchanges(s0: Char, s1: Char, k: nat) {
    k < 12 && if k < 6 then SaltBit(s0, k) else SaltBit(s1, k - 6)
  }

  /** The salt: the twelve bits of its two characters, the first one's low. */
  function Salt(s0: Char, s1: Char): set<nat> { set k: nat | k < 12 && Exchanges(s0, s1, k) }

  /** Bits of a number below a power of two, with another number above them. */
  lemma {:induction false} BitsAbove(a: nat, b: nat, n: nat, k: nat)
    requires a < Pow2(n)
    ensures NatBit(a + Pow2(n) * b, k) <==> if k < n then NatBit(a, k) else NatBit(b, k - n)
    decreases n
  {
    if n > 0 {
      var v := a + Pow2(n) * b;
      assert v == 2 * (a / 2 + Pow2(n - 1) * b) + a % 2;
      if k > 0 {
        BitsAbove(a / 2, b, n - 1, k - 1);
      }
    }
  }

  /** The salt is the twelve-bit number of its two characters. */
  lemma SaltNumber(s0: Char, s1: Char, k: nat)
    requires k < 12
    ensures k in Salt(s0, s1) <==> NatBit(AsciiToBin(s0) % 64 + 64 * (AsciiToBin(s1) % 64), k)
  {
    assert Pow2(6) == 64;
    BitsAbove(AsciiToBin(s0) % 64, AsciiToBin(s1) % 64, 6, k);
  }

  // Entries k and k + 24 of a 48-entry table form a pair: the lower of them, and the other one.

  function Lower(i: nat): nat { if i < 24 then i else i - 24 }

  function Mate(i: nat): nat { if i < 24 then i + 24 else i - 24 }

  /** The expansion table with entries `k` and `k + 24` exchanged for every `k` of the salt. */
  function Salted(e: seq<nat>, salt: set<nat>): seq<nat>
    requires |e| == 48
  {
    seq(48, i requires 0 <= i < 48 => if Lower(i) in salt then e[Mate(i)] else e[i])
  }

  lemma SaltedExpands(e: seq<nat>, salt: set<nat>)
    requires Expansion(e)
    ensures Expansion(Salted(e, salt))
  {
  }

  function ZeroBlock(): Bits64 { seq(64, i => false) }

  function ApplyTimes(t: Tables, e: seq<nat>, block: Bits64, ks: seq<Bits48>, n: nat): Bits64
    requires t.WellFormed() && Expansion(e)
    decreases n
  {
    if n == 0 then block else Apply(t, e, ApplyTimes(t, e, block, ks, n - 1), ks)
  }

  function CoreTimes(t: Tables, e: seq<nat>, h: Halves, ks: seq<Bits48>, n: nat): Halves
    requires t.WellFormed() && Expansion(e)
    decreases n
  {
    if n == 0 then h else Core(t, e, CoreTimes(t, e, h, ks, n - 1), ks)
  }

  /** The permutations between two applications cancel, so they can be left out. */
  lemma {:induction false} ApplyTimesByCore(t: Tables, e: seq<nat>, block: Bits64, ks: seq<Bits48>, n: nat)
    requires t.WellFormed() && Expansion(e)
    ensures ApplyTimes(t, e, block, ks, n) ==
      Permute(CoreTimes(t, e, Split(Permute(block, t.ip)), ks, n).Joined(), t.fp)
    decreases n
  {
    if n == 0 {
      var ip := Permute(block, t.ip);
      assert Split(ip).Joined() == ip;
      PermuteInverse(block, t.ip, t.fp);
    } else {
      ApplyTimesByCore(t, e, block, ks, n - 1);
      var h := CoreTimes(t, e, Split(Permute(block, t.ip)), ks, n - 1);
      PermuteInverse(h.Joined(), t.fp, t.ip);
      assert Split(h.Joined()) == h;
    }
  }

  /** Six bits of `b` from bit `6 * i`, padded on the right with zeroes. */
  function Sextet(b: Bits64, i: nat): (v: nat)
    requires i < 11
    ensures v < 64
  {
    assert Pow2(6) == 64;
    Value(if i < 10 then b[6 * i..6 * i + 6] else b[60..] + [false, false])
  }

  /** The printed form: the salt and eleven characters, NUL terminated. */
  function Printed(b: Bits64, s0: Char, s1: Char): (s: seq<Char>)
    ensures |s| == 14
  {
    [s0, if s1 != 0 then s1 else s0] +
    seq(11, i requires 0 <= i < 11 => BinToAscii(Sextet(b, i))) + [0]
  }

  /** The first eight characters of a password, padded with NUL. */
  function KeyTable(key: seq<Char>): (k: seq<Char>)
    ensures |k| == 8
  {
    seq(8, i requires 0 <= i < 8 => if i < |key| then key[i] else 0)
  }

  /** The low seven bits of each key character. */
  function KeyBytes(k: seq<Char>): (b: seq<nat>)
    ensures |b| == |k| && forall i :: 0 <= i < |b| ==> b[i] < 128
  {
    seq(|k|, i requires 0 <= i < |k| => k[i] % 128)
  }

  lemma {:induction false} ValueOfBits(v: nat, s: seq<bool>)
    requires v < Pow2(|s|) && forall i :: 0 <= i < |s| ==> s[i] == NatBit(v, |s| - 1 - i)
    ensures Value(s) == v
    decreases |s|
  {
    if s != [] {
      ValueOfBits(v / 2, s[..|s| - 1]);
    }
  }

  /** Byte `i` of the key is twice the seven bits it is made from. */
  lemma KeyByteIs(bytes: seq<nat>, i: nat)
    requires |bytes| == 8 && i < 8 && bytes[i] < 128
    ensures Value(KeyBits(bytes)[8 * i..8 * i + 8]) == 2 * bytes[i]
  {
    var s := KeyBits(bytes)[8 * i..8 * i + 8];
    assert Pow2(7) == 128;
    forall j | 0 <= j < 7 ensures s[..7][j] == NatBit(bytes[i], 6 - j) {
      var p := 8 * i + j;
      assert p / 8 == i && p % 8 == j;
      assert s[..7][j] == KeyBits(bytes)[p];
    }
    ValueOfBits(bytes[i], s[..7]);
  }

  function Head(s: seq<Char>): seq<Char> { if |s| < 8 then s else s[..8] }

  /** The key is made from the first eight characters, and determines them. */
  lemma KeyDetermines(a: seq<Char>, b: seq<Char>)
    requires forall i :: 0 <= i < |a| ==> 0 < a[i]
    requires forall i :: 0 <= i < |b| ==> 0 < b[i]
    ensures KeyBits(KeyBytes(KeyTable(a))) == KeyBits(KeyBytes(KeyTable(b))) <==> Head(a) == Head(b)
  {
    var x, y := KeyBytes(KeyTable(a)), KeyBytes(KeyTable(b));
    if KeyBits(x) == KeyBits(y) {
      forall i: nat | i < 8 ensures KeyTable(a)[i] == KeyTable(b)[i] {
        KeyByteIs(x, i);
        KeyByteIs(y, i);
        assert x[i] == y[i];
      }
      TableDetermines(a, b);
    }
    if Head(a) == Head(b) {
      assert KeyTable(a) == KeyTable(Head(a)) && KeyTable(b) == KeyTable(Head(b));
    }
  }

  lemma TableDetermines(a: seq<Char>, b: seq<Char>)
    requires forall i :: 0 <= i < |a| ==> 0 < a[i]
    requires forall i :: 0 <= i < |b| ==> 0 < b[i]
    requires forall i: nat :: i < 8 ==> KeyTable(a)[i] == KeyTable(b)[i]
    ensures Head(a) == Head(b)
  {
    var n := if |Head(a)| < |Head(b)| then |Head(a)| else |Head(b)|;
    assert n < 8 ==> KeyTable(a)[n] == KeyTable(b)[n];
    forall i | 0 <= i < n ensures Head(a)[i] == Head(b)[i] {
      assert KeyTable(a)[i] == KeyTable(b)[i];
    }
  }

  /** The block that crypt prints for a password and a salt. */
  function CryptBlock(t: Tables, key: seq<Char>, salt: set<nat>): Bits64
    requires t.WellFormed()
  {
    SaltedExpands(t.e, salt);
    ApplyTimes(t, Salted(t.e, salt), ZeroBlock(), Schedule(t, KeyBits(KeyBytes(KeyTable(key)))), ITERATIONS)
  }

  function Crypt(t: Tables, key: seq<Char>, s0: Char, s1: Char): seq<Char>
    requires t.WellFormed()
  {
    Printed(CryptBlock(t, key, Salt(s0, s1)), s0, s1)
  }

  /** What crypt computes, in the numbers of its documentation: two salt characters, then twenty-five encryptions of zero. */
  lemma CryptIs(t: Tables, key: seq<Char>, s0: Char, s1: Char)
    requires t.WellFormed()
    ensures var e := Salted(t.e, Salt(s0, s1));
      && Expansion(e) && |Crypt(t, key, s0, s1)| == 14 && Crypt(t, key, s0, s1)[0] == s0 && (s1 != 0 ==> Crypt(t, key, s0, s1)[1] == s1)
      && Crypt(t, key, s0, s1) == Printed(ApplyTimes(t, e, seq(64, i => false), Schedule(t, KeyBits(KeyBytes(KeyTable(key)))), 25), s0, s1)
  {
    SaltedExpands(t.e, Salt(s0, s1));
  }

  /** Character `c + 2` has bits `6 * c` to `6 * c + 5` of the block, most significant first; the last has two zeroes at its end. */
  lemma PrintedBit(b: Bits64, s0: Char, s1: Char, c: nat, m: nat)
    requires c < 11 && m < 6
    ensures var v := AsciiToBin(Printed(b, s0, s1)[c + 2]);
      0 <= v < 64 && (NatBit(v, 5 - m) <==> 6 * c + m < 64 && b[6 * c + m])
  {
    assert Printed(b, s0, s1)[c + 2] == BinToAscii(Sextet(b, c));
    BinAsciiRoundTrip(Sextet(b, c));
    SextetBit(b, c, m);
  }

  /** The printed form determines the block: eleven characters carry all 64 bits. */
  lemma PrintedInjective(a: Bits64, b: Bits64, s0: Char, s1: Char)
    requires Printed(a, s0, s1) == Printed(b, s0, s1)
    ensures a == b
  {
    forall i | 0 <= i < 64
      ensures a[i] == b[i]
    {
      PrintedBit(a, s0, s1, i / 6, i % 6);
      PrintedBit(b, s0, s1, i / 6, i % 6);
    }
  }

  lemma SextetBit(b: Bits64, c: nat, m: nat)
    requires c < 11 && m < 6
    ensures NatBit(Sextet(b, c), 5 - m) <==> 6 * c + m < 64 && b[6 * c + m]
  {
    ValueBit(if c < 10 then b[6 * c..6 * c + 6] else b[60..] + [false, false], 5 - m);
  }
}
