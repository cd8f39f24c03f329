/**
 Machine words, their bits, and bit strings.

 A 64-bit word is modelled by the set of the positions of its one bits, position 0
 being the least significant.  Values that index tables are natural numbers; `Field`
 reads one out of a word the way `(w >> lo) & mask` does.  Bit strings are sequences
 of booleans, most significant bit first, as FIPS 46-3 numbers them.
 */
module Bits {

  type Word = w: set<nat> | forall i :: i in w ==> i < 64

  function Or(a: Word, b: Word): Word { a + b }

  function And(a: Word, b: Word): Word { a * b }

  function Xor(a: Word, b: Word): Word { (a - b) + (b - a) }

  predicate ShlBit(a: Word, n: nat, i: nat) { i >= n && i - n in a }

  function Shl(a: Word, n: nat): (r: Word)
    ensures forall i: nat :: i in r <==> i < 64 && ShlBit(a, n, i)
  {
    set i: nat | i < 64 && ShlBit(a, n, i)
  }

  predicate ShrBit(a: Word, n: nat, i: nat) { i + n in a }

  function Shr(a: Word, n: nat): (r: Word)
    ensures forall i: nat :: i in r <==> ShrBit(a, n, i)
  {
    set i: nat | i < 64 && ShrBit(a, n, i)
  }

  /** The low `n` bits of `a`, as `a & ((1 << n) - 1)`. */
  function Low(a: Word, n: nat): Word { set i | i in a && i < n }

  /** Whether bit `i` of the number `j` is set. */
  predicate NatBit(j: nat, i: nat)
    decreases i
  {
    if i == 0 then j % 2 == 1 else NatBit(j / 2, i - 1)
  }

  function Pow2(n: nat): (p: nat)
    ensures p >= 1
  {
    if n == 0 then 1 else 2 * Pow2(n - 1)
  }

  /** The number held in bits `lo .. lo + n - 1` of `w`. */
  function Field(w: Word, lo: nat, n: nat): (j: nat)
    ensures j < Pow2(n)
    decreases n, w
  {
    if n == 0 then 0 else 2 * Field(w, lo + 1, n - 1) + (if lo in w then 1 else 0)
  }

  lemma {:induction false} FieldBit(w: Word, lo: nat, n: nat, i: nat)
    requires i < n
    ensures NatBit(Field(w, lo, n), i) <==> lo + i in w
    decreases n
  {
    if i > 0 {
      FieldBit(w, lo + 1, n - 1, i - 1);
    }
  }

  function BoolVal(b: bool): nat { if b then 1 else 0 }

  /** The low three bits of a field, and the rest of it. */
  lemma FieldSplit3(w: Word, lo: nat, m: nat)
    ensures Field(w, lo, 3 + m) ==
      BoolVal(lo in w) + 2 * BoolVal(lo + 1 in w) + 4 * BoolVal(lo + 2 in w) + 8 * Field(w, lo + 3, m)
  {
    var a, b := Field(w, lo + 1, 2 + m), Field(w, lo + 2, 1 + m);
    assert Field(w, lo, 3 + m) == 2 * a + BoolVal(lo in w);
    assert a == 2 * b + BoolVal(lo + 1 in w);
    assert b == 2 * Field(w, lo + 3, m) + BoolVal(lo + 2 in w);
  }

  lemma {:induction false} NatBitOfZero(i: nat)
    ensures !NatBit(0, i)
  {
    if i > 0 { NatBitOfZero(i - 1); }
  }

  /** The number whose bits, most significant first, are `s`. */
  function Value(s: seq<bool>): (n: nat)
    ensures n < Pow2(|s|)
  {
    if s == [] then 0 else 2 * Value(s[..|s| - 1]) + (if s[|s| - 1] then 1 else 0)
  }

  lemma {:induction false} ValueBit(s: seq<bool>, i: nat)
    requires i < |s|
    ensures NatBit(Value(s), i) <==> s[|s| - 1 - i]
  {
    if i > 0 {
      ValueBit(s[..|s| - 1], i - 1);
    }
  }

  function XorBits(a: seq<bool>, b: seq<bool>): (c: seq<bool>)
    requires |a| == |b|
    ensures |c| == |a|
  {
    seq(|a|, i requires 0 <= i < |a| => a[i] != b[i])
  }
}
