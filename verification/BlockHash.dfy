/**
 The incremental hash contexts of md5.c, sha256.c and sha512.c.

 The three files share everything but the compression function, the block size, the width
 and byte order of the length, so one context is parameterised by those.  The compression
 function is arbitrary: no property here depends on what it computes.
 */
module BlockHash {
  import opened Arith
  import opened ByteOrder

  /** `block` bytes to a block, `word` bytes to a counter word. */
  datatype Params<!S> = Params(block: nat, word: nat, bigEndian: bool, init: S, compress: (S, seq<Byte>) -> S)
  {
    ghost predicate WellFormed() { word >= 1 && 2 * word < block && 2 * block < Pow256(word) }

    /** The modulus of one counter word. */
    function Wrap(): nat { Pow256(word) }
  }

  // ----- What a digest is -----

  /** The compression function folded over whole blocks. */
  function Fold<S>(p: Params<S>, s: S, data: seq<Byte>): S
    requires p.WellFormed() && |data| % p.block == 0
    decreases |data|
  {
    if data == [] then s
    else
      WholeBlocks(|data|, p.block);
      Fold(p, p.compress(s, data[..p.block]), data[p.block..])
  }

  lemma WholeBlocks(n: nat, b: nat)
    requires b > 0 && n % b == 0
    ensures n > 0 ==> n >= b && (n - b) % b == 0
  {
    if 0 < n < b { ModSmall(n, b); }
    ModPeriod(n, b);
  }

  lemma WholePart(n: nat, b: nat)
    requires b > 0
    ensures 0 <= n - n % b <= n && n % b < b && (n - n % b) % b == 0
  {
    assert n == b * (n / b) + n % b;
    DivUnique(n - n % b, b, n / b, 0);
    MulAtLeast(b, n / b);
  }

  /** The bytes of the whole blocks among `n`. */
  function Whole(n: nat, b: nat): (r: nat)
    requires b > 0
    ensures r <= n < r + b && r % b == 0
  {
    WholePart(n, b);
    n - n % b
  }

  lemma {:induction false} FoldAppend<S>(p: Params<S>, s: S, a: seq<Byte>, b: seq<Byte>)
    requires p.WellFormed() && |a| % p.block == 0 && |b| % p.block == 0
    ensures |a + b| % p.block == 0 && Fold(p, s, a + b) == Fold(p, Fold(p, s, a), b)
    decreases |a|
  {
    ModOfSum(|a|, |b|, p.block);
    if a == [] {
      assert a + b == b;
    } else {
      WholeBlocks(|a|, p.block);
      FoldAppend(p, p.compress(s, a[..p.block]), a[p.block..], b);
      assert (a + b)[..p.block] == a[..p.block];
      assert (a + b)[p.block..] == a[p.block..] + b;
    }
  }

  /** One block is one compression. */
  lemma FoldOne<S>(p: Params<S>, s: S, b: seq<Byte>)
    requires p.WellFormed() && |b| == p.block
    ensures |b| % p.block == 0 && Fold(p, s, b) == p.compress(s, b)
  {
    DivUnique(|b|, p.block, 1, 0);
    assert b[..p.block] == b && b[p.block..] == [];
  }

  function Zeros(n: nat): (z: seq<Byte>)
    ensures |z| == n
  {
    seq(n, i => 0)
  }

  /**
   Padding of a message of `n` bytes: a one bit, the least number of zero bits that leaves room
   for the length at the end of a block, and the length in bits (sections 3.1 and 3.2 of
   RFC 1321, section 5.1 of FIPS 180-2).
   */
  function Padding<S>(p: Params<S>, n: nat): seq<Byte>
    requires p.WellFormed()
  {
    [0x80] + Zeros(ZeroCount(p, n)) + Bytes(p.bigEndian, 8 * n % Pow256(2 * p.word), 2 * p.word)
  }

  function ZeroCount<S>(p: Params<S>, n: nat): nat
    requires p.WellFormed()
  {
    (p.block - 2 * p.word - 1 - n) % p.block
  }

  /** `ZeroCount` is the least count that makes the padded message whole blocks. */
  lemma ZeroCountLeast<S>(p: Params<S>, n: nat, k: nat)
    requires p.WellFormed()
    ensures (n + 1 + ZeroCount(p, n) + 2 * p.word) % p.block == 0
    ensures (n + 1 + k + 2 * p.word) % p.block == 0 ==> ZeroCount(p, n) <= k
  {
    var b := p.block;
    var x := b - 2 * p.word - 1 - n;
    var z := x % b;
    assert n + 1 + z + 2 * p.word == b - x + z;
    assert b - x + z == b * (1 - x / b) by { assert x == b * (x / b) + z; }
    DivUnique(b - x + z, b, 1 - x / b, 0);
    if (n + 1 + k + 2 * p.word) % b == 0 && k < z {
      var d := z - k;
      ModOfSum(n + 1 + k + 2 * p.word, d, b);
      ModSmall(d, b);
      assert false;
    }
  }

  function Digest<S>(p: Params<S>, msg: seq<Byte>): S
    requires p.WellFormed()
  {
    ZeroCountLeast(p, |msg|, 0);
    Fold(p, p.init, msg + Padding(p, |msg|))
  }

  // ----- The two-word byte counter -----

  /** The double-word increment of the process_block functions. */
  function AddLength(w: nat, t0: nat, t1: nat, len: nat): (nat, nat)
    requires w > 0
  {
    var u := (t0 + len) % w;
    (u, if u < len then (t1 + 1) % w else t1)
  }

  /** The counter words of a byte count. */
  ghost predicate Counts(w: nat, t0: nat, t1: nat, n: nat)
    requires w > 0
  {
    t0 < w && t1 < w && t0 + w * t1 == n % (w * w)
  }

  /** After `n` bytes, one call with `len` more fits a word of the counter or carries one into the other word. */
  predicate OneCarry(w: nat, n: nat, len: nat)
    requires w > 0
  {
    len < w || (n % w + len) / w % w == 1
  }

  lemma LowWord(w: nat, t0: nat, t1: nat, n: nat)
    requires w >= 2 && Counts(w, t0, t1, n)
    ensures t0 == n % w
  {
    var q := n / (w * w);
    assert n == t0 + w * (t1 + w * q) by {
      assert n == w * w * q + (t0 + w * t1);
      assert w * (t1 + w * q) == w * t1 + w * w * q;
    }
    DivUnique(n, w, t1 + w * q, t0);
  }

  /**
   The increment keeps the count exactly when the length fits one word, or happens to carry one.
   A single block call of 2^33 bytes on a 32-bit counter therefore loses a carry.
   */
  lemma AddLengthExact(w: nat, t0: nat, t1: nat, n: nat, len: nat)
    requires w >= 2 && Counts(w, t0, t1, n)
    ensures var u := AddLength(w, t0, t1, len);
      Counts(w, u.0, u.1, n + len) <==> OneCarry(w, n, len)
  {
    LowWord(w, t0, t1, n);
    var q, r := (t0 + len) / w, (t0 + len) % w;
    CountsSum(w, t0, t1, n, len, if r < len then (t1 + 1) % w else t1);
    ModSmall(t1, w);
    if len < w {
      if t0 + len < w {
        ModSmall(t0 + len, w);
      } else {
        DivUnique(t0 + len, w, 1, t0 + len - w);
      }
    } else {
      SameResidue(t1, 1, q, w);
    }
  }

  /** A length that fits one word is always counted right. */
  lemma AddLengthCounts(w: nat, t0: nat, t1: nat, n: nat, len: nat)
    requires w >= 2 && len < w && Counts(w, t0, t1, n)
    ensures var u := AddLength(w, t0, t1, len); Counts(w, u.0, u.1, n + len)
  {
    AddLengthExact(w, t0, t1, n, len);
  }

  lemma SumValue(w: nat, t0: nat, t1: nat, n: nat, len: nat)
    requires w >= 2 && w * w > 0 && Counts(w, t0, t1, n)
    ensures (n + len) % (w * w) == (t0 + len) % w + w * ((t1 + (t0 + len) / w) % w)
  {
    var q, r := (t0 + len) / w, (t0 + len) % w;
    ModOfSum(n, len, w * w);
    calc {
      t0 + w * t1 + len;
      r + w * q + w * t1;
      r + w * (t1 + q);
    }
    ModSquare(r, t1 + q, w);
  }

  lemma MulCancel(w: nat, a: nat, b: nat)
    requires w >= 1 && w * a == w * b
    ensures a == b
  {
    MulAtLeast(w, a - b);
    assert w * (a - b) == w * a - w * b;
  }

  lemma CountsSum(w: nat, t0: nat, t1: nat, n: nat, len: nat, hi: nat)
    requires w >= 2 && Counts(w, t0, t1, n)
    ensures Counts(w, (t0 + len) % w, hi, n + len) <==> hi == (t1 + (t0 + len) / w) % w
  {
    var h := (t1 + (t0 + len) / w) % w;
    assert w * w > 0;
    SumValue(w, t0, t1, n, len);
    if Counts(w, (t0 + len) % w, hi, n + len) {
      MulCancel(w, hi, h);
    }
  }

  lemma SameResidue(t: nat, a: nat, b: nat, w: nat)
    requires w >= 2 && a < w
    ensures (t + a) % w == (t + b) % w <==> a == b % w
  {
    ModOfSum(b, t, w);
    var c := b % w;
    if a == c {
    } else if a < c {
      DifferentResidue(t + a, c - a, w);
    } else {
      DifferentResidue(t + c, a - c, w);
    }
  }

  lemma DifferentResidue(x: nat, d: nat, w: nat)
    requires 0 < d < w
    ensures (x + d) % w != x % w
  {
    var k := (x + d) / w - x / w;
    assert d == w * k + ((x + d) % w - x % w);
    MulAtLeast(w, k);
  }

  /** Eight gibibytes in one call: the counter records four. */
  lemma LostCarry()
    ensures Counts(0x1_0000_0000, 0, 0, 0)
    ensures var u := AddLength(0x1_0000_0000, 0, 0, 0x2_0000_0000);
      u == (0, 1) && !Counts(0x1_0000_0000, u.0, u.1, 0x2_0000_0000)
  {
  }

  // ----- What process_bytes does with a length -----

  /** The bytes it copies to a buffer that is not empty. */
  function ToppedUp(b: nat, buflen: nat, len: nat): nat
    requires buflen <= b
  {
    if buflen == 0 then 0 else if 2 * b - buflen > len then len else 2 * b - buflen
  }

  /** The bytes pending afterwards. */
  function Pending(b: nat, buflen: nat, len: nat): nat
    requires b > 0
  {
    if 0 < buflen && buflen + len <= b then buflen + len else (buflen + len) % b
  }

  /** The counter is right after the one block call that takes the whole blocks of aligned data. */
  predicate BlockCallCounts(b: nat, w: nat, msg: nat, buflen: nat, len: nat)
    requires 0 < b && 0 < w && buflen <= b
  {
    var add := ToppedUp(b, buflen, len);
    OneCarry(w, msg + add, Whole(len - add, b))
  }

  lemma PendingTopUp(b: nat, buflen: nat, len: nat)
    requires 0 < buflen <= b
    ensures var t, add := buflen + len, ToppedUp(b, buflen, len);
      Pending(b, if t <= b then t else if t < 2 * b then t - b else 0, len - add) == Pending(b, buflen, len)
  {
    var t := buflen + len;
    if t >= 2 * b {
      ModAdd(t - 2 * b, b, 2);
    } else if t > b {
      DivUnique(t, b, 1, t - b);
    }
  }

  // ----- The length field -----

  /** The low and high word of the bit count, as the finish functions shift them together. */
  function BitWords(w: nat, t0: nat, t1: nat): (nat, nat)
    requires w > 0
  {
    (8 * t0 % w, 8 * t1 % w + 8 * t0 / w)
  }

  lemma BitWordsValue(w: nat, t0: nat, t1: nat, n: nat)
    requires w >= 8 && w % 8 == 0 && Counts(w, t0, t1, n)
    ensures var u := BitWords(w, t0, t1); u.0 < w && u.1 < w && 8 * n % (w * w) == u.0 + w * u.1
  {
    BitWordsOf(w, t0, t1, n, w * w, n % (w * w));
  }

  lemma BitWordsOf(w: nat, t0: nat, t1: nat, n: nat, ww: nat, v: nat)
    requires w >= 8 && w % 8 == 0 && t0 < w && ww == w * w > 0 && v == n % ww && v == t0 + w * t1
    ensures var u := BitWords(w, t0, t1); u.0 < w && u.1 < w && 8 * n % ww == u.0 + w * u.1
  {
    var u := BitWords(w, t0, t1);
    assert 8 * v % ww == u.0 + w * u.1 && u.1 < w by {
      ShiftedValue(w, ww, t0, t1, u.0, 8 * t0 / w, u.1, v);
    }
    assert 8 * v % ww == 8 * n % ww by {
      TimesEight(n, ww, v);
    }
  }

  lemma ShiftedValue(w: nat, ww: nat, t0: nat, t1: nat, lo: int, c: int, hi: int, v: nat)
    requires w >= 8 && w % 8 == 0 && ww == w * w > 0 && t0 < w && v == t0 + w * t1
    requires lo == 8 * t0 % w && c == 8 * t0 / w && hi == 8 * t1 % w + c
    ensures hi < w && 8 * v % ww == lo + w * hi
  {
    EightTimes(w, t0, t1, lo, c);
    OctetWraps(t1, c, w);
    ModSquare(lo, 8 * t1 + c, w);
  }

  lemma EightTimes(w: nat, t0: nat, t1: nat, lo: int, c: int)
    requires w > 0 && t0 < w && lo == 8 * t0 % w && c == 8 * t0 / w
    ensures 0 <= c < 8 && 8 * (t0 + w * t1) == lo + w * (8 * t1 + c)
  {
    DivBound(8 * t0, w, 8);
    calc {
      lo + w * (8 * t1 + c);
      lo + w * (8 * t1) + w * c;
      { assert w * (8 * t1) == 8 * (w * t1) && 8 * t0 == w * c + lo; }
      8 * t0 + 8 * (w * t1);
    }
  }

  lemma TimesEight(n: nat, d: nat, v: nat)
    requires d > 0 && v == n % d
    ensures 8 * v % d == 8 * n % d
  {
    assert 8 * n == 8 * v + d * (8 * (n / d));
    ModAdd(8 * v, d, 8 * (n / d));
  }

  /** Multiples of eight leave room for three more bits below the modulus. */
  lemma OctetWraps(t: nat, c: nat, w: nat)
    requires w >= 8 && w % 8 == 0 && c < 8
    ensures 8 * t % w + c < w && (8 * t + c) % w == 8 * t % w + c
  {
    var r, q := 8 * t % w, 8 * t / w;
    assert r % 8 == 0 by {
      assert r == 8 * t - w * q;
      assert w * q == 8 * (w / 8 * q) by { assert w == 8 * (w / 8); }
      assert r == 8 * (t - w / 8 * q);
    }
    DivUnique(8 * t + c, w, q, r + c);
  }

  /** The two counter words, shifted and stored in the order of the byte sex, are the length field. */
  lemma LengthField<S>(p: Params<S>, t0: nat, t1: nat, n: nat)
    requires p.WellFormed() && Counts(p.Wrap(), t0, t1, n)
    ensures var u := BitWords(p.Wrap(), t0, t1);
      Bytes(p.bigEndian, 8 * n % Pow256(2 * p.word), 2 * p.word) == StoredField(p, u.0, u.1)
  {
    var u := BitWords(p.Wrap(), t0, t1);
    Pow256Sum(p.word, p.word);
    Pow256Octets(p.word);
    BitWordsValue(p.Wrap(), t0, t1, n);
    LittleEndianSplit(u.0, u.1, p.word, p.word);
    BigEndianSplit(u.0, u.1, p.word, p.word);
  }

  // ----- The context -----

  /** Processing the first `k` pending bytes moves the chaining value on by as many. */
  lemma FoldOn<S>(p: Params<S>, msg: seq<Byte>, done: nat, k: nat, pending: seq<Byte>)
    requires p.WellFormed() && done % p.block == 0 && k % p.block == 0 && done + k <= |msg| && pending == msg[done..]
    ensures (done + k) % p.block == 0 && pending[k..] == msg[done + k..]
    ensures Fold(p, p.init, msg[..done + k]) == Fold(p, Fold(p, p.init, msg[..done]), pending[..k])
  {
    FoldAppend(p, p.init, msg[..done], pending[..k]);
    assert msg[..done + k] == msg[..done] + pending[..k];
    ModOfSum(done, k, p.block);
  }

  /** memcpy into a buffer. */
  method Copy(dst: array<Byte>, at: nat, src: seq<Byte>)
    requires at + |src| <= dst.Length
    modifies dst
    ensures dst[..] == old(dst[..at]) + src + old(dst[at + |src|..])
  {
    for i := 0 to |src|
      invariant dst[..] == old(dst[..at]) + src[..i] + old(dst[at + i..])
    {
      dst[at + i] := src[i];
    }
  }

  /** The bytes from `k` up to `n` moved to the front. */
  method MoveDown(dst: array<Byte>, k: nat, n: nat)
    requires k <= n <= dst.Length
    modifies dst
    ensures dst[..n - k] == old(dst[k..n])
  {
    var src := dst[k..n];
    Copy(dst, 0, src);
    assert dst[..n - k] == src;
  }

  class Context<S> {
    const p: Params<S>
    var h: S
    var total0: nat
    var total1: nat
    var buflen: nat
    const buffer: array<Byte>
    /** Everything fed in so far. */
    ghost var msg: seq<Byte>

    /** Bytes already run through the compression function. */
    ghost function Done(): int reads this { |msg| - buflen }

    ghost predicate Shape()
      reads this
    {
      p.WellFormed() && buffer.Length == 2 * p.block && buflen <= 2 * p.block && buflen <= |msg|
    }

    /** The chaining value covers the whole blocks of the message, the buffer the rest. */
    ghost predicate Tracks()
      reads this, buffer
    {
      && Shape() && Done() % p.block == 0
      && h == Fold(p, p.init, msg[..Done()]) && buffer[..buflen] == msg[Done()..]
    }

    /** Between calls at most one block is pending. */
    ghost predicate Valid()
      reads this, buffer
    {
      Tracks() && buflen <= p.block
    }

    ghost predicate Counted()
      requires Shape()
      reads this
    {
      Counts(p.Wrap(), total0, total1, Done())
    }

    constructor (p: Params<S>)
      requires p.WellFormed()
      ensures Valid() && Counted() && msg == [] && this.p == p && fresh(buffer)
    {
      this.p := p;
      h := p.init;
      total0, total1, buflen := 0, 0, 0;
      buffer := new Byte[2 * p.block](i => 0);
      msg := [];
      new;
      assert p.Wrap() * p.Wrap() > 0;
      ModSmall(0, p.Wrap() * p.Wrap());
      ModSmall(0, p.block);
    }

    /** The process_block functions: count the bytes, then compress block after block. */
    method ProcessBlock(data: seq<Byte>)
      requires p.WellFormed() && |data| % p.block == 0
      modifies this`h, this`total0, this`total1
      ensures h == Fold(p, old(h), data)
      ensures (total0, total1) == AddLength(p.Wrap(), old(total0), old(total1), |data|)
    {
      total0 := (total0 + |data|) % p.Wrap();
      if total0 < |data| {
        total1 := (total1 + 1) % p.Wrap();
      }
      h := Compress(p, h, data);
    }

    /** Bytes put in the buffer behind those already pending. */
    method Append(data: seq<Byte>)
      requires Tracks() && buflen + |data| <= 2 * p.block
      modifies this`buflen, this`msg, buffer
      ensures Tracks() && msg == old(msg) + data && buflen == old(buflen) + |data| && Done() == old(Done())
    {
      Copy(buffer, buflen, data);
      buflen := buflen + |data|;
      msg := msg + data;
      assert msg[..Done()] == old(msg[..Done()]);
      assert buffer[..buflen] == old(buffer[..buflen]) + data;
    }

    /** The first `k` pending bytes processed, and the rest moved to the front of the buffer. */
    method Flush(k: nat)
      requires Tracks() && k % p.block == 0 && k <= buflen && buflen - k <= k
      modifies this, buffer
      ensures Tracks() && msg == old(msg) && buflen == old(buflen) - k
      ensures (total0, total1) == AddLength(p.Wrap(), old(total0), old(total1), k)
    {
      ghost var done, pending := Done(), buffer[..buflen];
      assert buffer[..k] == pending[..k] && buffer[k..buflen] == pending[k..];
      ProcessBlock(buffer[..k]);
      FoldOn(p, msg, done, k, pending);
      MoveDown(buffer, k, buflen);
      buflen := buflen - k;
    }

    /** Whole blocks processed without passing through the buffer. */
    method Feed(data: seq<Byte>)
      requires Tracks() && buflen == 0 && |data| % p.block == 0
      modifies this`h, this`total0, this`total1, this`msg
      ensures Tracks() && msg == old(msg) + data
      ensures (total0, total1) == AddLength(p.Wrap(), old(total0), old(total1), |data|)
    {
      assert msg[..Done()] == msg;
      ProcessBlock(data);
      FoldAppend(p, p.init, msg, data);
      msg := msg + data;
      assert msg[..Done()] == msg;
    }

    /** The first part of process_bytes: fill up a buffer that is not empty. */
    method TopUp(data: seq<Byte>) returns (rest: seq<Byte>)
      requires Valid()
      modifies this, buffer
      ensures Valid() && msg + rest == old(msg) + data && (rest != [] ==> buflen == 0)
      ensures var add := ToppedUp(p.block, old(buflen), |data|); |rest| == |data| - add && |msg| == |old(msg)| + add
      ensures Pending(p.block, buflen, |rest|) == Pending(p.block, old(buflen), |data|)
      ensures old(Counted()) ==> Counted()
    {
      rest := data;
      if buflen != 0 {
        PendingTopUp(p.block, buflen, |data|);
        var room := 2 * p.block - buflen;
        var add := if room > |data| then |data| else room;
        Append(data[..add]);
        if buflen > p.block {
          FlushWhole();
        }
        rest := data[add..];
        assert data[..add] + rest == data;
      }
    }

    /** `buflen & ~63` bytes processed: one block, or two that fill the buffer. */
    method FlushWhole()
      requires Tracks() && p.block < buflen <= 2 * p.block
      modifies this, buffer
      ensures Valid() && msg == old(msg) && buflen == if old(buflen) == 2 * p.block then 0 else old(buflen) - p.block
      ensures old(Counted()) ==> Counted()
    {
      var b := p.block;
      var k := buflen - buflen % b;
      if buflen == 2 * b {
        DivUnique(buflen, b, 2, 0);
        DivUnique(k, b, 2, 0);
      } else {
        DivUnique(buflen, b, 1, buflen - b);
        DivUnique(k, b, 1, 0);
      }
      if Counted() {
        AddLengthCounts(p.Wrap(), total0, total1, Done(), k);
      }
      Flush(k);
    }

    /** The second part of process_bytes: all complete blocks, copied one by one if unaligned. */
    method Bulk(data: seq<Byte>, aligned: bool) returns (rest: seq<Byte>)
      requires Valid() && (data != [] ==> buflen == 0)
      modifies this, buffer
      ensures Valid() && msg + rest == old(msg) + data
      ensures |rest| <= p.block && (aligned ==> |rest| < p.block) && (rest != [] ==> buflen == 0)
      ensures Pending(p.block, buflen, |rest|) == Pending(p.block, old(buflen), |data|)
      ensures old(Counted()) ==> (Counted() <==> aligned ==> OneCarry(p.Wrap(), |old(msg)|, Whole(|data|, p.block)))
    {
      rest := data;
      if |data| >= p.block {
        if !aligned {
          rest := OneByOne(data);
        } else {
          rest := AllAtOnce(data);
        }
      }
    }

    method AllAtOnce(data: seq<Byte>) returns (rest: seq<Byte>)
      requires Valid() && buflen == 0
      modifies this`h, this`total0, this`total1, this`msg
      ensures Valid() && buflen == 0 && msg + rest == old(msg) + data && |rest| == |data| % p.block == |rest| % p.block
      ensures old(Counted()) ==> (Counted() <==> OneCarry(p.Wrap(), |old(msg)|, Whole(|data|, p.block)))
    {
      var n := Whole(|data|, p.block);
      ModSmall(|data| - n, p.block);
      if Counted() {
        AddLengthExact(p.Wrap(), total0, total1, Done(), n);
      }
      Feed(data[..n]);
      rest := data[n..];
      assert data[..n] + rest == data;
    }

    method OneByOne(data: seq<Byte>) returns (rest: seq<Byte>)
      requires Valid() && buflen == 0
      modifies this, buffer
      ensures Valid() && buflen == 0 && msg + rest == old(msg) + data && |rest| <= p.block && |rest| % p.block == |data| % p.block
      ensures old(Counted()) ==> Counted()
    {
      rest := data;
      while |rest| > p.block
        invariant Valid() && buflen == 0 && msg + rest == old(msg) + data && |rest| % p.block == |data| % p.block
        invariant old(Counted()) ==> Counted()
      {
        var b := p.block;
        Copy(buffer, 0, rest[..b]);
        assert buffer[..b] == rest[..b];
        DivUnique(b, b, 1, 0);
        if Counted() {
          AddLengthCounts(p.Wrap(), total0, total1, Done(), b);
        }
        assert Tracks();
        Feed(buffer[..b]);
        ModPeriod(|rest|, b);
        assert rest == rest[..b] + rest[b..];
        rest := rest[b..];
      }
    }

    /** The last part of process_bytes: what is left goes to the buffer. */
    method Keep(data: seq<Byte>)
      requires Valid() && |data| <= p.block && (data != [] ==> buflen == 0)
      modifies this, buffer
      ensures Valid() && msg == old(msg) + data && buflen == Pending(p.block, old(buflen), |data|)
      ensures (old(Counted()) ==> Counted()) && (|data| < p.block ==> Counted() == old(Counted()))
    {
      if |data| < p.block {
        ModSmall(|data|, p.block);
      }
      if |data| > 0 {
        var b := p.block;
        Append(data);
        if buflen >= b {
          DivUnique(b, b, 1, 0);
          if Counted() {
            AddLengthCounts(p.Wrap(), total0, total1, Done(), b);
          }
          Flush(b);
        }
      }
    }

    /** process_bytes, for data at an aligned or an unaligned address; only the former goes into one long block call. */
    method ProcessBytes(data: seq<Byte>, aligned: bool)
      requires Valid()
      modifies this, buffer
      ensures Valid() && msg == old(msg) + data && buflen == Pending(p.block, old(buflen), |data|)
      ensures old(Counted()) ==>
        (Counted() <==> aligned ==> BlockCallCounts(p.block, p.Wrap(), |old(msg)|, old(buflen), |data|))
    {
      var rest := TopUp(data);
      Remaining(rest, aligned);
    }

    /** What follows the topping up. */
    method Remaining(data: seq<Byte>, aligned: bool)
      requires Valid() && (data != [] ==> buflen == 0)
      modifies this, buffer
      ensures Valid() && msg == old(msg) + data && buflen == Pending(p.block, old(buflen), |data|)
      ensures old(Counted()) ==> (Counted() <==> aligned ==> OneCarry(p.Wrap(), |old(msg)|, Whole(|data|, p.block)))
    {
      var rest := Bulk(data, aligned);
      Keep(rest);
    }

    /** The start of finish_ctx: the bytes still in the buffer are counted. */
    method CountPending()
      requires Valid()
      modifies this`total0, this`total1
      ensures old(Counted()) ==> Counts(p.Wrap(), total0, total1, |msg|)
    {
      var w := p.Wrap();
      if Counted() {
        AddLengthCounts(w, total0, total1, Done(), buflen);
      }
      total0 := (total0 + buflen) % w;
      if total0 < buflen {
        total1 := (total1 + 1) % w;
      }
    }

    /** finish_ctx: pad what is pending, append the length, process the last block or two. */
    method Finish() returns (r: S)
      requires Valid()
      modifies this, buffer
      ensures old(Counted()) ==> r == Digest(p, old(msg))
    {
      ghost var m, done, counted := msg, Done(), Counted();
      CountPending();
      var u := BitWords(p.Wrap(), total0, total1);
      var n := PadBuffer(p, buffer, buflen, u.0, u.1);
      if counted {
        LengthField(p, total0, total1, |m|);
        PaddedBlocks(p, m, done, buflen, buffer[..n]);
      }
      ProcessBlock(buffer[..n]);
      r := h;
    }
  }

  /** The field the finish functions store: two words in the order of the byte sex. */
  function StoredField<S>(p: Params<S>, lo: nat, hi: nat): seq<Byte> {
    if p.bigEndian then BigEndian(hi, p.word) + BigEndian(lo, p.word)
    else LittleEndian(lo, p.word) + LittleEndian(hi, p.word)
  }

  function PadLength<S>(p: Params<S>, bytes: nat): (pad: int)
    requires p.WellFormed() && bytes <= p.block
    ensures pad >= 1
  {
    var room := p.block - 2 * p.word;
    if bytes >= room then p.block + room - bytes else room - bytes
  }

  method StoreField<S>(p: Params<S>, buffer: array<Byte>, at: nat, lo: nat, hi: nat)
    requires at + 2 * p.word <= buffer.Length
    modifies buffer
    ensures buffer[..at + 2 * p.word] == old(buffer[..at]) + StoredField(p, lo, hi)
  {
    if p.bigEndian {
      StoreTwo(buffer, at, BigEndian(hi, p.word), BigEndian(lo, p.word));
    } else {
      StoreTwo(buffer, at, LittleEndian(lo, p.word), LittleEndian(hi, p.word));
    }
  }

  method StoreTwo(buffer: array<Byte>, at: nat, x: seq<Byte>, y: seq<Byte>)
    requires at + |x| + |y| <= buffer.Length
    modifies buffer
    ensures buffer[..at + |x| + |y|] == old(buffer[..at]) + (x + y)
  {
    Copy(buffer, at, x);
    ghost var first := old(buffer[..at]) + x;
    assert buffer[..at + |x|] == first;
    Copy(buffer, at + |x|, y);
    assert buffer[..at + |x| + |y|] == first + y;
  }

  /** The buffer filled up by finish_ctx; the result is the number of bytes to process. */
  method PadBuffer<S>(p: Params<S>, buffer: array<Byte>, bytes: nat, lo: nat, hi: nat) returns (n: nat)
    requires p.WellFormed() && buffer.Length == 2 * p.block && bytes <= p.block
    modifies buffer
    ensures n <= 2 * p.block && n % p.block == 0
    ensures buffer[..n] == old(buffer[..bytes]) + ([0x80] + Zeros(PadLength(p, bytes) - 1)) + StoredField(p, lo, hi)
  {
    var pad := PadLength(p, bytes);
    Copy(buffer, bytes, [0x80] + Zeros(pad - 1));
    assert buffer[..bytes + pad] == old(buffer[..bytes]) + ([0x80] + Zeros(pad - 1));
    StoreField(p, buffer, bytes + pad, lo, hi);
    n := bytes + pad + 2 * p.word;
    DivUnique(n, p.block, if bytes >= p.block - 2 * p.word then 2 else 1, 0);
  }

  /** The bytes of the last blocks are the pending bytes and the padding of the standard. */
  lemma PaddedBlocks<S>(p: Params<S>, m: seq<Byte>, done: nat, bytes: nat, last: seq<Byte>)
    requires p.WellFormed() && done % p.block == 0 && |m| == done + bytes && bytes <= p.block
    requires last == m[done..] + ([0x80] + Zeros(PadLength(p, bytes) - 1)) +
      Bytes(p.bigEndian, 8 * |m| % Pow256(2 * p.word), 2 * p.word)
    requires |last| % p.block == 0
    ensures Fold(p, Fold(p, p.init, m[..done]), last) == Digest(p, m)
  {
    PadLengthStandard(p, done, bytes);
    LastBlocks(p, m, done, last);
    FoldAppend(p, p.init, m[..done], last);
    DigestOf(p, m, m[..done] + last);
  }

  lemma LastBlocks<S>(p: Params<S>, m: seq<Byte>, done: nat, last: seq<Byte>)
    requires p.WellFormed() && done <= |m|
    requires last == m[done..] + ([0x80] + Zeros(ZeroCount(p, |m|))) + Bytes(p.bigEndian, 8 * |m| % Pow256(2 * p.word), 2 * p.word)
    ensures m[..done] + last == m + Padding(p, |m|)
  {
    assert last == m[done..] + Padding(p, |m|);
    assert m[..done] + m[done..] == m;
  }

  lemma DigestOf<S>(p: Params<S>, m: seq<Byte>, padded: seq<Byte>)
    requires p.WellFormed() && padded == m + Padding(p, |m|)
    ensures |padded| % p.block == 0 && Fold(p, p.init, padded) == Digest(p, m)
  {
    ZeroCountLeast(p, |m|, 0);
  }

  lemma PadLengthStandard<S>(p: Params<S>, done: nat, bytes: nat)
    requires p.WellFormed() && done % p.block == 0 && bytes <= p.block
    ensures PadLength(p, bytes) - 1 == ZeroCount(p, done + bytes)
  {
    var x := p.block - 2 * p.word - 1 - bytes;
    WholeDrop(x, p.block, done);
    if x >= 0 {
      ModSmall(x, p.block);
    } else {
      ModPeriod(x, p.block);
      ModSmall(x + p.block, p.block);
    }
  }

  lemma WholeDrop(x: int, b: nat, done: nat)
    requires b > 0 && done % b == 0
    ensures (x - done) % b == x % b
  {
    assert done == b * (done / b);
    ModAdd(x, b, -(done / b));
  }

  /** The block loop of the process_block functions. */
  method Compress<S>(p: Params<S>, s: S, data: seq<Byte>) returns (r: S)
    requires p.WellFormed() && |data| % p.block == 0
    ensures r == Fold(p, s, data)
  {
    r := s;
    var rest := data;
    while rest != []
      invariant |rest| % p.block == 0 && Fold(p, r, rest) == Fold(p, s, data)
      decreases |rest|
    {
      WholeBlocks(|rest|, p.block);
      r := p.compress(r, rest[..p.block]);
      rest := rest[p.block..];
    }
  }

  // ----- The three hash functions -----

  function Md5<S>(init: S, compress: (S, seq<Byte>) -> S): Params<S> { Params(64, 4, false, init, compress) }

  function Sha256<S>(init: S, compress: (S, seq<Byte>) -> S): Params<S> { Params(64, 4, true, init, compress) }

  function Sha512<S>(init: S, compress: (S, seq<Byte>) -> S): Params<S> { Params(128, 8, true, init, compress) }

  lemma {:induction false} HashesWellFormed<S>(init: S, compress: (S, seq<Byte>) -> S)
    ensures Md5(init, compress).WellFormed() && Md5(init, compress).Wrap() == 0x1_0000_0000
    ensures Sha256(init, compress).WellFormed() && Sha256(init, compress).Wrap() == 0x1_0000_0000
    ensures Sha512(init, compress).WellFormed() && Sha512(init, compress).Wrap() == 0x1_0000_0000_0000_0000
  {
    assert Pow256(4) == 0x1_0000_0000;
    Pow256Sum(4, 4);
  }

  /** The standard's padding of a message of `n` bytes: whole blocks, a one bit, fewer zero bytes than a block, and the length. */
  ghost predicate Pads(pad: seq<Byte>, n: nat, block: nat, field: nat, bigEndian: bool)
    requires block > 0
  {
    && (n + |pad|) % block == 0 && 1 + field <= |pad| <= block + field && pad[0] == 0x80
    && (forall i :: 1 <= i < |pad| - field ==> pad[i] == 0)
    && forall i: nat :: i < field ==> pad[if bigEndian then |pad| - 1 - i else |pad| - field + i] == FieldByte(n, field, i)
  }

  /** The byte of weight `256 ^ i` of the length in bits. */
  function FieldByte(n: nat, field: nat, i: nat): int { 8 * n % Pow256(field) / Pow256(i) % 256 }

  lemma PaddingPads<S>(p: Params<S>, n: nat)
    requires p.WellFormed()
    ensures Pads(Padding(p, n), n, p.block, 2 * p.word, p.bigEndian)
  {
    var pad, field := Padding(p, n), 2 * p.word;
    ZeroCountLeast(p, n, 0);
    forall i: nat | i < field ensures pad[if p.bigEndian then |pad| - 1 - i else |pad| - field + i] == FieldByte(n, field, i) {
      ByteOfWeight(8 * n % Pow256(field), field, i);
    }
  }

  /** Sections 3.1 and 3.2 of RFC 1321, and 5.1.1 and 5.1.2 of FIPS 180-2. */
  lemma StandardPadding<S>(init: S, compress: (S, seq<Byte>) -> S, n: nat)
    ensures Md5(init, compress).WellFormed() && Pads(Padding(Md5(init, compress), n), n, 64, 8, false)
    ensures Sha256(init, compress).WellFormed() && Pads(Padding(Sha256(init, compress), n), n, 64, 8, true)
    ensures Sha512(init, compress).WellFormed() && Pads(Padding(Sha512(init, compress), n), n, 128, 16, true)
  {
    HashesWellFormed(init, compress);
    PaddingPads(Md5(init, compress), n);
    PaddingPads(Sha256(init, compress), n);
    PaddingPads(Sha512(init, compress), n);
  }

  /** A piece of input and whether its address is aligned. */
  datatype Piece = Piece(data: seq<Byte>, aligned: bool)

  function Joined(pieces: seq<Piece>): seq<Byte> {
    if pieces == [] then [] else Joined(pieces[..|pieces| - 1]) + pieces[|pieces| - 1].data
  }

  /** The bytes pending after the pieces. */
  function PendingAfter(b: nat, pieces: seq<Piece>): (n: nat)
    requires b > 0
    ensures n <= b
  {
    if pieces == [] then 0 else Pending(b, PendingAfter(b, pieces[..|pieces| - 1]), |pieces[|pieces| - 1].data|)
  }

  /** No aligned piece is miscounted after those before it. */
  ghost predicate Countable<S>(p: Params<S>, pieces: seq<Piece>)
    requires p.WellFormed()
  {
    pieces != [] ==>
      var before, last := pieces[..|pieces| - 1], pieces[|pieces| - 1];
      && Countable(p, before)
      && (last.aligned ==> BlockCallCounts(p.block, p.Wrap(), |Joined(before)|, PendingAfter(p.block, before), |last.data|))
  }

  /** Pieces that fit a word of the counter are counted right. */
  lemma {:induction false} ShortPiecesCountable<S>(p: Params<S>, pieces: seq<Piece>)
    requires p.WellFormed() && forall i :: 0 <= i < |pieces| && pieces[i].aligned ==> |pieces[i].data| < p.Wrap()
    ensures Countable(p, pieces)
  {
    if pieces != [] {
      ShortPiecesCountable(p, pieces[..|pieces| - 1]);
    }
  }

  /** The context has been given the pieces. */
  ghost predicate Given<S>(ctx: Context<S>, pieces: seq<Piece>)
    reads ctx, ctx.buffer
  {
    && ctx.Valid() && ctx.msg == Joined(pieces) && ctx.buflen == PendingAfter(ctx.p.block, pieces)
    && (Countable(ctx.p, pieces) ==> ctx.Counted())
  }

  method Give<S>(ctx: Context<S>, pieces: seq<Piece>, i: nat)
    requires i < |pieces| && Given(ctx, pieces[..i])
    modifies ctx, ctx.buffer
    ensures Given(ctx, pieces[..i + 1])
  {
    assert pieces[..i + 1][..i] == pieces[..i];
    ctx.ProcessBytes(pieces[i].data, pieces[i].aligned);
  }

  method Begin<S>(p: Params<S>) returns (ctx: Context<S>)
    requires p.WellFormed()
    ensures ctx.p == p && fresh(ctx) && fresh(ctx.buffer) && Given(ctx, [])
  {
    ctx := new Context(p);
  }

  method Conclude<S>(ctx: Context<S>, ghost pieces: seq<Piece>) returns (r: S)
    requires Given(ctx, pieces)
    modifies ctx, ctx.buffer
    ensures Countable(ctx.p, pieces) ==> r == Digest(ctx.p, Joined(pieces))
  {
    r := ctx.Finish();
  }

  /** However the input is cut and aligned, the result is the digest of the whole. */
  method HashPieces<S>(p: Params<S>, pieces: seq<Piece>) returns (r: S)
    requires p.WellFormed()
    ensures Countable(p, pieces) ==> r == Digest(p, Joined(pieces))
  {
    var ctx := Begin(p);
    for i := 0 to |pieces|
      invariant Given(ctx, pieces[..i]) && ctx.p == p && fresh(ctx) && fresh(ctx.buffer)
    {
      Give(ctx, pieces, i);
    }
    assert pieces[..|pieces|] == pieces;
    r := Conclude(ctx, pieces);
  }
}
