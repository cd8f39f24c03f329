/** Bytes, and numbers as sequences of bytes in either order. */
module ByteOrder {
  import opened Arith

  type Byte = b: int | 0 <= b < 256

  function Pow256(n: nat): (p: nat)
    ensures p >= 1
  {
    if n == 0 then 1 else 256 * Pow256(n - 1)
  }

  /** The `n` bytes of `v`, least significant first. */
  function LittleEndian(v: nat, n: nat): (s: seq<Byte>)
    ensures |s| == n
    decreases n
  {
    if n == 0 then [] else [v % 256] + LittleEndian(v / 256, n - 1)
  }

  /** The `n` bytes of `v`, most significant first. */
  function BigEndian(v: nat, n: nat): (s: seq<Byte>)
    ensures |s| == n
    decreases n
  {
    if n == 0 then [] else BigEndian(v / 256, n - 1) + [v % 256]
  }

  function Bytes(bigEndian: bool, v: nat, n: nat): (s: seq<Byte>)
    ensures |s| == n
  {
    if bigEndian then BigEndian(v, n) else LittleEndian(v, n)
  }

  /** The byte of weight `256 ^ i`, in either order. */
  lemma {:induction false} ByteOfWeight(v: nat, n: nat, i: nat)
    requires i < n
    ensures LittleEndian(v, n)[i] == v / Pow256(i) % 256 && BigEndian(v, n)[n - 1 - i] == v / Pow256(i) % 256
    decreases n
  {
    if i > 0 {
      ByteOfWeight(v / 256, n - 1, i - 1);
      DivTwice(v, 256, Pow256(i - 1));
    }
  }

  lemma DivTwice(v: nat, a: nat, b: nat)
    requires a > 0 && b > 0 && a * b > 0
    ensures v / a / b == v / (a * b)
  {
    var q, r, s := v / a / b, v / a % b, v % a;
    assert v == a * (b * q + r) + s;
    assert v == a * b * q + (a * r + s);
    MulAtLeast(a, b - 1 - r);
    assert a * (b - 1 - r) == a * b - a - a * r;
    DivUnique(v, a * b, q, a * r + s);
  }

  lemma {:induction false} LittleEndianSplit(lo: nat, hi: nat, n: nat, m: nat)
    requires lo < Pow256(n)
    ensures LittleEndian(lo + Pow256(n) * hi, n + m) == LittleEndian(lo, n) + LittleEndian(hi, m)
    decreases n
  {
    if n == 0 {
      assert LittleEndian(lo, 0) == [];
    } else {
      var v := lo + Pow256(n) * hi;
      assert v == 256 * (lo / 256 + Pow256(n - 1) * hi) + lo % 256;
      DivUnique(v, 256, lo / 256 + Pow256(n - 1) * hi, lo % 256);
      LittleEndianSplit(lo / 256, hi, n - 1, m);
    }
  }

  lemma {:induction false} BigEndianSplit(lo: nat, hi: nat, n: nat, m: nat)
    requires lo < Pow256(n)
    ensures BigEndian(lo + Pow256(n) * hi, n + m) == BigEndian(hi, m) + BigEndian(lo, n)
    decreases n
  {
    if n == 0 {
      assert BigEndian(lo, 0) == [];
      assert BigEndian(hi, m) + [] == BigEndian(hi, m);
    } else {
      var v := lo + Pow256(n) * hi;
      assert v == 256 * (lo / 256 + Pow256(n - 1) * hi) + lo % 256;
      DivUnique(v, 256, lo / 256 + Pow256(n - 1) * hi, lo % 256);
      BigEndianSplit(lo / 256, hi, n - 1, m);
    }
  }

  lemma {:induction false} Pow256Sum(n: nat, m: nat)
    ensures Pow256(n + m) == Pow256(n) * Pow256(m)
    decreases n
  {
    if n > 0 {
      Pow256Sum(n - 1, m);
    }
  }

  lemma {:induction false} Pow256Octets(n: nat)
    requires n >= 1
    ensures Pow256(n) >= 256 && Pow256(n) % 8 == 0
  {
    assert Pow256(n) == 8 * (32 * Pow256(n - 1));
  }
}
