/**
 How the MD5, SHA-256 and SHA-512 variants of crypt print their result into the caller's buffer:
 a prefix, the rounds if they were asked for, the salt, and the digest, three bytes to four
 characters of a 64-letter alphabet in an order of their own.
 */
module CryptEncode {
  import opened Options
  import opened ByteOrder
  import opened CryptSpec

  datatype Kind = Md5 | Sha256 | Sha512

  const DOLLAR := 36

  function Prefix(kind: Kind): seq<int> {
    match kind case Md5 => [DOLLAR, 49, DOLLAR] case Sha256 => [DOLLAR, 53, DOLLAR] case Sha512 => [DOLLAR, 54, DOLLAR]
  }

  function DigestSize(kind: Kind): nat { match kind case Md5 => 16 case Sha256 => 32 case Sha512 => 64 }

  // ----- The order of the bytes -----

  /** The indexes of the three bytes of a call of b64_from_24bit, most significant first; -1 stands for a zero. */
  datatype Triple = Triple(b2: int, b1: int, b0: int)

  /** How many calls there are. */
  function Calls(kind: Kind): nat { match kind case Md5 => 6 case Sha256 => 11 case Sha512 => 22 }

  function Md5Call(g: nat): Triple {
    match g
    case 0 => Triple(0, 6, 12) case 1 => Triple(1, 7, 13) case 2 => Triple(2, 8, 14) case 3 => Triple(3, 9, 15)
    case 4 => Triple(4, 10, 5)
    case _ => Triple(-1, -1, 11)
  }

  function Sha256Call(g: nat): Triple {
    match g
    case 0 => Triple(0, 10, 20) case 1 => Triple(21, 1, 11) case 2 => Triple(12, 22, 2)
    case 3 => Triple(3, 13, 23) case 4 => Triple(24, 4, 14) case 5 => Triple(15, 25, 5)
    case 6 => Triple(6, 16, 26) case 7 => Triple(27, 7, 17) case 8 => Triple(18, 28, 8)
    case 9 => Triple(9, 19, 29)
    case _ => Triple(-1, 31, 30)
  }

  function Sha512Call(g: nat): Triple {
    match g
    case 0 => Triple(0, 21, 42) case 1 => Triple(22, 43, 1) case 2 => Triple(44, 2, 23)
    case 3 => Triple(3, 24, 45) case 4 => Triple(25, 46, 4) case 5 => Triple(47, 5, 26)
    case 6 => Triple(6, 27, 48) case 7 => Triple(28, 49, 7) case 8 => Triple(50, 8, 29)
    case 9 => Triple(9, 30, 51) case 10 => Triple(31, 52, 10) case 11 => Triple(53, 11, 32)
    case 12 => Triple(12, 33, 54) case 13 => Triple(34, 55, 13) case 14 => Triple(56, 14, 35)
    case 15 => Triple(15, 36, 57) case 16 => Triple(37, 58, 16) case 17 => Triple(59, 17, 38)
    case 18 => Triple(18, 39, 60) case 19 => Triple(40, 61, 19) case 20 => Triple(62, 20, 41)
    case _ => Triple(-1, -1, 63)
  }

  function Call(kind: Kind, g: nat): Triple {
    match kind case Md5 => Md5Call(g) case Sha256 => Sha256Call(g) case Sha512 => Sha512Call(g)
  }

  /** How many characters call `g` prints. */
  function Width(kind: Kind, g: nat): (n: nat)
    ensures 2 <= n <= 4
  {
    if g + 1 < Calls(kind) then 4 else if kind.Sha256? then 3 else 2
  }

  function IndexIn(t: Triple, p: nat): int { if p == 0 then t.b0 else if p == 1 then t.b1 else t.b2 }

  /** The call that prints a byte. */
  function CallOf(kind: Kind, j: int): int {
    match kind
    case Md5 => if j == 5 then 4 else if j == 11 then 5 else j % 6
    case Sha256 => if j >= 30 then 10 else j % 10
    case Sha512 => if j == 63 then 21 else j % 21
  }

  /** The byte's place in that call, 0 for the least significant one. */
  function PlaceOf(kind: Kind, j: int): int {
    match kind
    case Md5 => if j == 5 || j == 11 then 0 else 2 - j / 6
    case Sha256 => if j >= 30 then j - 30 else (2 - j / 10 - j % 10) % 3
    case Sha512 => if j == 63 then 0 else (2 - j / 21 + j % 21) % 3
  }

  lemma Sha256Rows(g: nat)
    requires g < 10
    ensures Sha256Call(g) == if g % 3 == 0 then Triple(g, g + 10, g + 20)
                             else if g % 3 == 1 then Triple(g + 20, g, g + 10)
                             else Triple(g + 10, g + 20, g)
  {
  }

  lemma Sha512Rows(g: nat)
    requires g < 21
    ensures Sha512Call(g) == if g % 3 == 0 then Triple(g, g + 21, g + 42)
                             else if g % 3 == 1 then Triple(g + 21, g + 42, g)
                             else Triple(g + 42, g, g + 21)
  {
  }

  lemma Sha256Cell(g: nat, k: nat, p: nat)
    requires g < 10 && k < 3 && p == (2 - k - g) % 3
    ensures IndexIn(Sha256Call(g), p) == g + 10 * k < 30
    ensures CallOf(Sha256, g + 10 * k) == g && PlaceOf(Sha256, g + 10 * k) == p
  {
    Sha256Rows(g);
    assert (g + 10 * k) % 10 == g && (g + 10 * k) / 10 == k;
  }

  lemma Sha512Cell(g: nat, k: nat, p: nat)
    requires g < 21 && k < 3 && p == (2 - k + g) % 3
    ensures IndexIn(Sha512Call(g), p) == g + 21 * k < 63
    ensures CallOf(Sha512, g + 21 * k) == g && PlaceOf(Sha512, g + 21 * k) == p
  {
    Sha512Rows(g);
    assert (g + 21 * k) % 21 == g && (g + 21 * k) / 21 == k;
  }

  /** Every byte of the digest is printed. */
  lemma EachBytePrinted(kind: Kind, j: nat)
    requires j < DigestSize(kind)
    ensures 0 <= CallOf(kind, j) < Calls(kind) && 0 <= PlaceOf(kind, j) < 3
    ensures IndexIn(Call(kind, CallOf(kind, j)), PlaceOf(kind, j)) == j
  {
    match kind {
      case Md5 =>
        Md5Printed(j);
      case Sha256 =>
        if j < 30 {
          Sha256Cell(j % 10, j / 10, PlaceOf(kind, j));
        }
      case Sha512 =>
        if j < 63 {
          Sha512Cell(j % 21, j / 21, PlaceOf(kind, j));
        }
    }
  }

  lemma Md5Printed(j: nat)
    requires j < 16
    ensures 0 <= CallOf(Md5, j) < 6 && 0 <= PlaceOf(Md5, j) < 3
    ensures IndexIn(Md5Call(CallOf(Md5, j)), PlaceOf(Md5, j)) == j
  {
  }

  lemma Md5Once(g: nat, p: nat)
    requires g < 6 && p < 3 && IndexIn(Md5Call(g), p) >= 0
    ensures var j := IndexIn(Md5Call(g), p); j < 16 && CallOf(Md5, j) == g && PlaceOf(Md5, j) == p
  {
  }

  lemma Sha256Once(g: nat, p: nat)
    requires g < 11 && p < 3 && IndexIn(Sha256Call(g), p) >= 0
    ensures var j := IndexIn(Sha256Call(g), p); j < 32 && CallOf(Sha256, j) == g && PlaceOf(Sha256, j) == p
  {
    if g < 10 {
      Sha256Cell(g, (2 - g - p) % 3, p);
    }
  }

  lemma Sha512Once(g: nat, p: nat)
    requires g < 22 && p < 3 && IndexIn(Sha512Call(g), p) >= 0
    ensures var j := IndexIn(Sha512Call(g), p); j < 64 && CallOf(Sha512, j) == g && PlaceOf(Sha512, j) == p
  {
    if g < 21 {
      Sha512Cell(g, (2 + g - p) % 3, p);
    }
  }

  /** No byte is printed twice. */
  lemma EachByteOnce(kind: Kind, g: nat, p: nat)
    requires g < Calls(kind) && p < 3 && IndexIn(Call(kind, g), p) >= 0
    ensures var j := IndexIn(Call(kind, g), p); j < DigestSize(kind) && CallOf(kind, j) == g && PlaceOf(kind, j) == p
  {
    match kind {
      case Md5 => Md5Once(g, p);
      case Sha256 => Sha256Once(g, p);
      case Sha512 => Sha512Once(g, p);
    }
  }

  // ----- The digest as text -----

  function ByteAt(digest: seq<Byte>, i: int): int { if 0 <= i < |digest| then digest[i] else 0 }

  /** The 24 bits of a call. */
  function Bits24(digest: seq<Byte>, t: Triple): (w: nat)
    ensures w < 0x100_0000
  {
    ByteAt(digest, t.b2) * 0x1_0000 + ByteAt(digest, t.b1) * 0x100 + ByteAt(digest, t.b0)
  }

  /** The lowest `n` letters of a number, least significant first. */
  function Letters(w: nat, n: nat): (s: seq<int>)
    ensures |s| == n
  {
    if n == 0 then [] else [BinToAscii(w % 64)] + Letters(w / 64, n - 1)
  }

  function Number(s: seq<int>): int {
    if s == [] then 0 else (if -128 <= s[0] < 128 then AsciiToBin(s[0]) else 0) + 64 * Number(s[1..])
  }

  function Pow64(n: nat): nat { if n == 0 then 1 else 64 * Pow64(n - 1) }

  lemma {:induction false} LettersRoundTrip(w: nat, n: nat)
    requires w < Pow64(n)
    ensures Number(Letters(w, n)) == w
    decreases n
  {
    if n > 0 {
      LettersRoundTrip(w / 64, n - 1);
      BinAsciiRoundTrip(w % 64);
      assert Letters(w, n)[1..] == Letters(w / 64, n - 1);
    }
  }

  /** What the first `n` calls print. */
  function DigestText(kind: Kind, digest: seq<Byte>, n: nat): (s: seq<int>)
    requires n <= Calls(kind)
    ensures |s| == if n < Calls(kind) then 4 * n else 4 * n - 4 + Width(kind, n - 1)
  {
    if n == 0 then [] else DigestText(kind, digest, n - 1) + Letters(Bits24(digest, Call(kind, n - 1)), Width(kind, n - 1))
  }

  lemma NextCall(kind: Kind, digest: seq<Byte>, g: nat, w: nat, n: nat, text: seq<int>)
    requires g < Calls(kind) && w == Bits24(digest, Call(kind, g)) && n == Width(kind, g)
    ensures text + DigestText(kind, digest, g + 1) == text + DigestText(kind, digest, g) + Letters(w, n)
  {
  }

  lemma SliceFirst(x: seq<int>, y: seq<int>, a: int, b: int)
    requires 0 <= a <= b <= |x|
    ensures (x + y)[a..b] == x[a..b]
  {
  }

  lemma SliceSecond(x: seq<int>, y: seq<int>, a: int, b: int)
    requires a == |x| && b == |x| + |y|
    ensures (x + y)[a..b] == y
  {
  }

  /** Where call `g` prints. */
  lemma {:induction false} CallText(kind: Kind, digest: seq<Byte>, n: nat, g: nat, a: nat, b: nat)
    requires g < n <= Calls(kind) && a == 4 * g && b == a + Width(kind, g)
    ensures b <= |DigestText(kind, digest, n)| && DigestText(kind, digest, n)[a..b] == Letters(Bits24(digest, Call(kind, g)), Width(kind, g))
  {
    var x, y := DigestText(kind, digest, n - 1), Letters(Bits24(digest, Call(kind, n - 1)), Width(kind, n - 1));
    if g < n - 1 {
      CallText(kind, digest, n - 1, g, a, b);
      SliceFirst(x, y, a, b);
    } else {
      SliceSecond(x, y, a, b);
    }
  }

  /** The letters of a call have room for its bits. */
  lemma WideEnough(kind: Kind, digest: seq<Byte>, g: nat)
    requires g < Calls(kind)
    ensures Bits24(digest, Call(kind, g)) < Pow64(Width(kind, g))
  {
    assert Pow64(2) == 0x1000 && Pow64(3) == 0x4_0000 && Pow64(4) == 0x100_0000;
  }

  /** Reading byte `j` of the digest back. */
  function ReadByte(kind: Kind, s: seq<int>, j: int): int
    requires 0 <= j < DigestSize(kind) && |s| == 4 * Calls(kind) - 4 + Width(kind, Calls(kind) - 1)
  {
    EachBytePrinted(kind, j);
    var g, p := CallOf(kind, j), PlaceOf(kind, j);
    var w := Number(s[4 * g..4 * g + Width(kind, g)]);
    ByteOf(w, p)
  }

  function ByteOf(w: int, p: int): int {
    if p == 0 then w % 0x100 else if p == 1 then w / 0x100 % 0x100 else w / 0x1_0000 % 0x100
  }

  lemma BytesOf(b2: int, b1: int, b0: int)
    requires 0 <= b2 < 0x100 && 0 <= b1 < 0x100 && 0 <= b0 < 0x100
    ensures var w := b2 * 0x1_0000 + b1 * 0x100 + b0; w % 0x100 == b0 && w / 0x100 % 0x100 == b1 && w / 0x1_0000 % 0x100 == b2
  {
    var w := b2 * 0x1_0000 + b1 * 0x100 + b0;
    assert w / 0x100 == b2 * 0x100 + b1;
  }

  lemma CallNumber(kind: Kind, digest: seq<Byte>, g: nat, a: nat, b: nat)
    requires g < Calls(kind) && a == 4 * g && b == a + Width(kind, g)
    ensures b <= |DigestText(kind, digest, Calls(kind))|
    ensures Number(DigestText(kind, digest, Calls(kind))[a..b]) == Bits24(digest, Call(kind, g))
  {
    CallText(kind, digest, Calls(kind), g, a, b);
    WideEnough(kind, digest, g);
    LettersRoundTrip(Bits24(digest, Call(kind, g)), Width(kind, g));
  }

  lemma ByteOfBits(digest: seq<Byte>, t: Triple, p: int, j: int)
    requires 0 <= p < 3 && IndexIn(t, p) == j && 0 <= j < |digest|
    ensures ByteOf(Bits24(digest, t), p) == digest[j]
  {
    BytesOf(ByteAt(digest, t.b2), ByteAt(digest, t.b1), ByteAt(digest, t.b0));
  }

  /** The last 22, 43 or 86 characters are the digest in another form. */
  lemma DigestRoundTrip(kind: Kind, digest: seq<Byte>, j: int)
    requires |digest| == DigestSize(kind) && 0 <= j < |digest|
    ensures ReadByte(kind, DigestText(kind, digest, Calls(kind)), j) == digest[j]
  {
    EachBytePrinted(kind, j);
    var g := CallOf(kind, j);
    CallNumber(kind, digest, g, 4 * g, 4 * g + Width(kind, g));
    ByteOfBits(digest, Call(kind, g), PlaceOf(kind, j), j);
  }

  lemma TextLengths()
    ensures forall d :: |DigestText(Md5, d, Calls(Md5))| == 22 && |DigestText(Sha256, d, Calls(Sha256))| == 43
                        && |DigestText(Sha512, d, Calls(Sha512))| == 86
  {
  }

  // ----- The whole string -----

  function Decimal(n: nat): seq<int> { if n < 10 then [48 + n] else Decimal(n / 10) + [48 + n % 10] }

  function DecimalValue(s: seq<int>): int { if s == [] then 0 else 10 * DecimalValue(s[..|s| - 1]) + s[|s| - 1] - 48 }

  /** The digits spell the number, without leading zeroes. */
  lemma {:induction false} DecimalSpells(n: nat)
    ensures DecimalValue(Decimal(n)) == n && (forall i :: 0 <= i < |Decimal(n)| ==> 48 <= Decimal(n)[i] <= 57)
    ensures Decimal(n) != [] && (n > 0 ==> Decimal(n)[0] != 48)
  {
    var s := Decimal(n);
    if n < 10 {
      assert s[..0] == [] && DecimalValue([]) == 0;
    } else {
      DecimalSpells(n / 10);
      assert s[..|s| - 1] == Decimal(n / 10);
    }
  }

  /** "rounds=" with the number and a dollar sign. */
  function RoundsText(rounds: Option<nat>): seq<int> {
    if rounds.None? then [] else [114, 111, 117, 110, 100, 115, 61] + Decimal(rounds.value) + [DOLLAR]
  }

  function ResultText(kind: Kind, rounds: Option<nat>, salt: seq<int>, digest: seq<Byte>): seq<int> {
    Prefix(kind) + RoundsText(rounds) + salt + [DOLLAR] + DigestText(kind, digest, Calls(kind))
  }

  /** The salt up to a dollar sign or its end. */
  function UpToDollar(salt: seq<int>): (r: seq<int>)
    ensures 0 !in r
  {
    if salt == [] || salt[0] == DOLLAR || salt[0] == 0 then [] else [salt[0]] + UpToDollar(salt[1..])
  }

  /** The part of a salt that is used: at most eight characters for MD5 and sixteen for SHA. */
  function SaltText(kind: Kind, salt: seq<int>): (r: seq<int>)
    ensures |r| <= 16 && 0 !in r
  {
    var s, n := UpToDollar(salt), if kind.Md5? then 8 else 16;
    if |s| < n then s else s[..n]
  }

  predicate EndsSalt(c: int) { c == DOLLAR || c == 0 }

  lemma {:induction false} UpToDollarIs(salt: seq<int>)
    ensures var r := UpToDollar(salt);
      r <= salt && (forall i :: 0 <= i < |r| ==> !EndsSalt(r[i])) && (|r| == |salt| || EndsSalt(salt[|r|]))
  {
    if salt != [] && !EndsSalt(salt[0]) {
      UpToDollarIs(salt[1..]);
    }
  }

  /** It is the longest such prefix without a dollar sign. */
  lemma SaltTextLongest(kind: Kind, salt: seq<int>)
    ensures var r, n := SaltText(kind, salt), if kind.Md5? then 8 else 16;
      && r <= salt && |r| <= n && (forall i :: 0 <= i < |r| ==> !EndsSalt(r[i]))
      && (|r| == n || |r| == |salt| || EndsSalt(salt[|r|]))
  {
    UpToDollarIs(salt);
  }

  /** A result given as a salt again has the same salt in it. */
  lemma SaltReadBack(kind: Kind, salt: seq<int>, digest: seq<int>)
    ensures SaltText(kind, SaltText(kind, salt) + [DOLLAR] + digest) == SaltText(kind, salt)
  {
    var r := SaltText(kind, salt);
    var again := r + [DOLLAR] + digest;
    SaltTextLongest(kind, salt);
    SaltTextLongest(kind, again);
    var r' := SaltText(kind, again);
    assert again[|r|] == DOLLAR;
    if |r'| > |r| {
      assert EndsSalt(r'[|r|]);
    }
    assert again[..|r|] == r;
  }

  /** The rounds that are used and printed if the salt asks for them. */
  function RoundsUsed(kind: Kind, asked: Option<nat>): (r: Option<nat>)
    ensures r.Some? ==> 1000 <= r.value <= 999_999_999
  {
    if kind.Md5? || asked.None? then None
    else Some(if asked.value > 999_999_999 then 999_999_999 else if asked.value < 1000 then 1000 else asked.value)
  }

  function Distance(a: int, b: int): nat { if a < b then b - a else a - b }

  /** They are those asked for, or else the nearest number that is allowed. */
  lemma RoundsNearest(kind: Kind, asked: nat, m: nat)
    requires !kind.Md5? && 1000 <= m <= 999_999_999
    ensures var r := RoundsUsed(kind, Some(asked)); r.Some? && Distance(asked, r.value) <= Distance(asked, m)
  {
  }

  function Pow10(d: nat): nat { if d == 0 then 1 else 10 * Pow10(d - 1) }

  lemma {:induction false} DecimalLength(n: nat, d: nat)
    requires 1 <= d && n < Pow10(d)
    ensures 1 <= |Decimal(n)| <= d && 0 !in Decimal(n)
    decreases d
  {
    if n >= 10 {
      DecimalLength(n / 10, d - 1);
    }
  }

  lemma {:induction false} LettersNotNul(w: nat, n: nat)
    ensures 0 !in Letters(w, n)
    decreases n
  {
    if n > 0 {
      LettersNotNul(w / 64, n - 1);
    }
  }

  lemma {:induction false} DigestTextNotNul(kind: Kind, digest: seq<Byte>, n: nat)
    requires n <= Calls(kind)
    ensures 0 !in DigestText(kind, digest, n)
  {
    if n > 0 {
      DigestTextNotNul(kind, digest, n - 1);
      LettersNotNul(Bits24(digest, Call(kind, n - 1)), Width(kind, n - 1));
    }
  }

  lemma RoundsShort(kind: Kind, asked: Option<nat>)
    ensures var text := RoundsText(RoundsUsed(kind, asked)); |text| <= 17 && 0 !in text
  {
    var rounds := RoundsUsed(kind, asked);
    if rounds.Some? {
      assert Pow10(3) == 1000;
      assert Pow10(6) == 1000 * Pow10(3);
      assert Pow10(9) == 1000 * Pow10(6);
      DecimalLength(rounds.value, 9);
    }
  }

  /** Every result is a C string that fits the 128 bytes at the start of a crypt_data. */
  lemma ResultShort(kind: Kind, asked: Option<nat>, salt: seq<int>, digest: seq<Byte>)
    ensures var text := ResultText(kind, RoundsUsed(kind, asked), SaltText(kind, salt), digest);
      |text| < 128 && 0 !in text
  {
    RoundsShort(kind, asked);
    DigestTextNotNul(kind, digest, Calls(kind));
    TextLengths();
  }

  function Codes(s: string): (r: seq<int>)
    ensures |r| == |s|
  {
    seq(|s|, i requires 0 <= i < |s| => s[i] as int)
  }

  /** The result in characters. */
  lemma ResultReads(rounds: Option<nat>, salt: seq<int>, digest: seq<Byte>)
    requires |digest| == 64
    ensures ResultText(Md5, None, salt, digest[..16]) == Codes("$1$") + salt + Codes("$") + DigestText(Md5, digest[..16], 6)
    ensures ResultText(Sha256, None, salt, digest[..32]) == Codes("$5$") + salt + Codes("$") + DigestText(Sha256, digest[..32], 11)
    ensures ResultText(Sha512, None, salt, digest) == Codes("$6$") + salt + Codes("$") + DigestText(Sha512, digest, 22)
    ensures rounds.Some? ==> RoundsText(rounds) == Codes("rounds=") + Decimal(rounds.value) + Codes("$")
  {
    assert Codes("$") == [DOLLAR];
    assert Codes("$1$") == Prefix(Md5) && Codes("$5$") == Prefix(Sha256) && Codes("$6$") == Prefix(Sha512);
    assert Codes("rounds=") == [114, 111, 117, 110, 100, 115, 61];
  }

  function Max0(x: int): nat { if x > 0 then x else 0 }

  /** The state of the result construction: the next place in the buffer and the room left. */
  class Writer {
    const buffer: array<int>
    const size: int
    var cp: int
    var left: int

    /** `text` has been printed, or there was no room for it; a buffer that had room is zero behind it. */
    ghost predicate Printed(text: seq<int>)
      reads this, buffer
    {
      && size <= buffer.Length
      && (|text| < size ==>
          cp == |text| && left == size - |text| && buffer[..|text|] == text && forall i :: |text| <= i < size ==> buffer[i] == 0)
      && (|text| >= size ==> left <= 0)
    }

    /** Nothing behind the caller's length changes. */
    ghost predicate Kept(was: seq<int>)
      reads this, buffer
    {
      buffer.Length == |was| && forall i :: Max0(size) <= i < |was| ==> buffer[i] == was[i]
    }

    /** stpncpy of the prefix over the whole buffer. */
    constructor (buffer: array<int>, buflen: int, prefix: seq<int>)
      requires buflen <= buffer.Length
      modifies buffer
      ensures this.buffer == buffer && size == buflen && Printed(prefix) && Kept(old(buffer[..]))
    {
      this.buffer, size := buffer, buflen;
      new;
      var n := Max0(buflen);
      var m := if |prefix| < n then |prefix| else n;
      for i := 0 to m
        invariant buffer[..i] == prefix[..i] && forall j :: i <= j < buffer.Length ==> buffer[j] == old(buffer[j])
      {
        buffer[i] := prefix[i];
      }
      for i := m to n
        invariant buffer[..m] == prefix[..m] && forall j :: m <= j < i ==> buffer[j] == 0
        invariant forall j :: i <= j < buffer.Length ==> buffer[j] == old(buffer[j])
      {
        buffer[i] := 0;
      }
      cp, left := m, buflen - |prefix|;
    }

    /** `*cp++ = ch` when there is room. */
    method Put(ch: int, ghost text: seq<int>, ghost was: seq<int>)
      requires Printed(text) && Kept(was)
      modifies this, buffer
      ensures Printed(text + [ch]) && Kept(was) && left == if old(left) > 0 then old(left) - 1 else old(left)
    {
      if left > 0 {
        buffer[cp] := ch;
        cp, left := cp + 1, left - 1;
      }
    }

    /** stpncpy of at most the room left. */
    method Copy(s: seq<int>, ghost text: seq<int>, ghost was: seq<int>)
      requires Printed(text) && Kept(was)
      modifies this, buffer
      ensures Printed(text + s) && Kept(was)
    {
      var n := if |s| < Max0(left) then |s| else Max0(left);
      assert s[..0] == [] && text + [] == text;
      for i := 0 to n
        invariant Printed(text + s[..i]) && Kept(was) && left == old(left) - i
      {
        assert text + s[..i] + [s[i]] == text + s[..i + 1];
        Put(s[i], text + s[..i], was);
      }
      assert n == |s| ==> s[..n] == s;
    }

    /** snprintf: all of the text if there is room for it and a terminator, else what there is room for. */
    method Format(s: seq<int>, ghost text: seq<int>, ghost was: seq<int>)
      requires Printed(text) && Kept(was) && s != []
      modifies this, buffer
      ensures Printed(text + s) && Kept(was)
    {
      if left > 0 {
        var n := if |s| < left then |s| else left - 1;
        for i := 0 to n
          invariant Kept(was) && cp == old(cp) && left == old(left) && buffer[..cp] == text
          invariant buffer[cp..cp + i] == s[..i] && forall j :: cp + i <= j < size ==> buffer[j] == 0
        {
          buffer[cp + i] := s[i];
        }
        buffer[cp + n] := 0;
        assert n == |s| ==> buffer[..cp + n] == text + s;
      }
      cp, left := cp + |s|, left - |s|;
    }

    /** b64_from_24bit. */
    method From24Bit(w0: nat, n: nat, ghost text: seq<int>, ghost was: seq<int>)
      requires Printed(text) && Kept(was)
      modifies this, buffer
      ensures Printed(text + Letters(w0, n)) && Kept(was)
    {
      var w, k := w0, n;
      ghost var now := text;
      while k > 0 && left > 0
        invariant 0 <= k <= n && Printed(now) && Kept(was) && now + Letters(w, k) == text + Letters(w0, n)
      {
        ghost var next := now + [BinToAscii(w % 64) as int];
        assert next + Letters(w / 64, k - 1) == now + Letters(w, k);
        Put(BinToAscii(w % 64), now, was);
        w, k, now := w / 64, k - 1, next;
      }
    }

    /** The calls that print the digest. */
    method PrintDigest(kind: Kind, digest: seq<Byte>, ghost text: seq<int>, ghost was: seq<int>)
      requires Printed(text) && Kept(was)
      modifies this, buffer
      ensures Printed(text + DigestText(kind, digest, Calls(kind))) && Kept(was)
    {
      ghost var now := text;
      for g := 0 to Calls(kind)
        invariant now == text + DigestText(kind, digest, g) && Printed(now) && Kept(was)
      {
        var w, n := Bits24(digest, Call(kind, g)), Width(kind, g);
        From24Bit(w, n, now, was);
        NextCall(kind, digest, g, w, n, text);
        now := now + Letters(w, n);
      }
    }
  }

  /**
   The result construction of the three crypt functions: the buffer's first `buflen` bytes get
   the string and zeroes behind it, and the call succeeds just if string and terminator fit.
   */
  method WriteResult(kind: Kind, rounds: Option<nat>, salt: seq<int>, digest: seq<Byte>, buffer: array<int>, buflen: int)
    returns (ok: bool)
    requires buflen <= buffer.Length
    modifies buffer
    ensures var text := ResultText(kind, rounds, salt, digest);
      && (ok <==> |text| < buflen)
      && (ok ==> buffer[..|text|] == text && forall i :: |text| <= i < buflen ==> buffer[i] == 0)
    ensures forall i :: Max0(buflen) <= i < buffer.Length ==> buffer[i] == old(buffer[i])
  {
    ghost var was := buffer[..];
    ghost var text := Prefix(kind);
    var out := new Writer(buffer, buflen, Prefix(kind));
    if rounds.Some? {
      out.Format(RoundsText(rounds), text, was);
    } else {
      assert text + RoundsText(rounds) == text;
    }
    text := text + RoundsText(rounds);
    out.Copy(salt, text, was);
    text := text + salt;
    out.Put(DOLLAR, text, was);
    text := text + [DOLLAR];
    out.PrintDigest(kind, digest, text, was);
    text := text + DigestText(kind, digest, Calls(kind));
    ok := out.left > 0;
    if ok {
      buffer[out.cp] := 0;
    }
  }
}
