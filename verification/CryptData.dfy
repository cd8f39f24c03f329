/**
 crypt_data and the operations on it: __init_des_r, _ufc_setup_salt_r, __setkey_r,
 __encrypt_r and __crypt_r.
 */
module CryptData {
  import opened Options
  import opened Bits
  import opened Fips46
  import opened Des
  import opened ByteOrder
  import opened UfcRounds
  import opened CryptSpec
  import opened UfcEngine
  import CryptEncode

  /** The saltbits left by _ufc_setup_salt_r, which skips the work for the salt it last saw. */
  ghost function NextSaltBits(initialized: bool, cur0: Char, cur1: Char, bits: Word, s0: Char, s1: Char): Word {
    if !initialized then (if s0 == 0 && s1 == 0 then {} else SaltBits(s0, s1))
    else if s0 == cur0 && s1 == cur1 then bits
    else SaltBits(s0, s1)
  }

  /** The cached salt and saltbits a reachable structure can hold. */
  ghost predicate SaltCached(cur0: Char, cur1: Char, bits: Word) {
    bits == SaltBits(cur0, cur1) || (cur0 == 0 && cur1 == 0 && bits == {})
  }

  /**
   The salt in force after _ufc_setup_salt_r is the same for every reachable structure exactly
   when the salt is not two NULs: those match the cleared cache of a fresh structure.
   */
  lemma SaltHistoryIndependentIff(s0: Char, s1: Char)
    ensures (s0 != 0 || s1 != 0) <==>
      forall i: bool, c0: Char, c1: Char, bits: Word :: SaltCached(c0, c1, bits) ==>
        NextSaltBits(i, c0, c1, bits, s0, s1) == NextSaltBits(false, 0, 0, {}, s0, s1)
  {
    if s0 == 0 && s1 == 0 {
      NulSaltIsSalted();
      assert SaltCached(1, 1, SaltBits(1, 1));
      assert NextSaltBits(true, 1, 1, SaltBits(1, 1), 0, 0) == SaltBits(0, 0);
    }
  }

  /** A salt other than two NULs is in force after _ufc_setup_salt_r, whatever came before. */
  lemma SaltInForce(initialized: bool, cur0: Char, cur1: Char, bits: Word, s0: Char, s1: Char)
    requires SaltCached(cur0, cur1, bits) && (s0 != 0 || s1 != 0)
    ensures NextSaltBits(initialized, cur0, cur1, bits, s0, s1) == SaltBits(s0, s1)
  {
  }

  class Data {
    const t: Tables
    const small: SmallTables
    const keysched: array<Word>
    const sb: array<Word>
    var crypt3buf: seq<Char>
    var salt0: Char
    var salt1: Char
    var saltbits: Word
    var direction: int
    var initialized: nat

    ghost predicate Shape()
      reads this, small, small.pc1, small.pc2, small.eperm, small.efp
    {
      && small.Valid() && small.t == t
      && keysched.Length == 16 && sb.Length == 16384 && keysched != sb
    }

    ghost predicate Valid()
      reads this, keysched, sb, small, small.pc1, small.pc2, small.eperm, small.efp
    {
      && Shape() && SaltWord(saltbits) && SaltCached(salt0, salt1, saltbits)
      && (initialized > 0 ==> Entries(sb, t, saltbits, 16384))
    }

    /** The key table is the forward schedule of `key` or its reversal, as `direction` says. */
    ghost predicate Loaded(key: Bits64)
      requires Shape()
      reads this, keysched, small, small.pc1, small.pc2, small.eperm, small.efp
    {
      IsSchedule(keysched, if direction == 0 then Schedule(t, key) else Reversed(Schedule(t, key)))
    }

    /** A structure whose bytes are all zero. */
    constructor (small: SmallTables)
      requires small.Valid()
      ensures Valid() && this.small == small && t == small.t && initialized == 0
      ensures fresh(keysched) && fresh(sb)
    {
      this.small, this.t := small, small.t;
      keysched := new Word[16](i => {});
      sb := new Word[16384](i => {});
      crypt3buf := seq(14, i => 0);
      salt0, salt1 := 0, 0;
      saltbits := {};
      direction := 0;
      initialized := 0;
    }

    method InitDes()
      requires Shape()
      modifies this, sb
      ensures Valid() && saltbits == {} && salt0 == 0 && salt1 == 0 && initialized == old(initialized) + 1
      ensures direction == old(direction) && crypt3buf == old(crypt3buf)
    {
      FillSb(t, small.eperm, sb);
      saltbits := {};
      salt0, salt1 := 0, 0;
      initialized := initialized + 1;
    }

    method SetupSalt(s0: Char, s1: Char)
      requires Valid()
      modifies this, sb
      ensures Valid() && initialized > 0
      ensures saltbits == old(NextSaltBits(initialized > 0, salt0, salt1, saltbits, s0, s1))
      ensures direction == old(direction) && crypt3buf == old(crypt3buf)
    {
      if initialized == 0 {
        InitDes();
      }
      if s0 == salt0 && s1 == salt1 {
        return;
      }
      salt0, salt1 := s0, s1;
      var bits := ComputeSaltBits(s0, s1);
      Resalt(t, sb, saltbits, bits);
      saltbits := bits;
    }

    /** The call `_ufc_setup_salt_r ("..")`, which leaves the standard expansion in force. */
    method DropSalt()
      requires Valid()
      modifies this, sb
      ensures Valid() && Entries(sb, t, {}, 16384) && direction == old(direction) && crypt3buf == old(crypt3buf)
    {
      SaltInForce(initialized > 0, salt0, salt1, saltbits, DOT, DOT);
      DotsAreUnsalted();
      SetupSalt(DOT, DOT);
    }

    /** __setkey_r. */
    method SetKey(key: Bits64)
      requires Valid()
      modifies this, sb, keysched
      ensures Valid() && direction == 0 && Loaded(key) && crypt3buf == old(crypt3buf)
    {
      DropSalt();
      var ktab := PackKey(key);
      MakeKeytab(small, ktab, keysched);
      direction := 0;
      forall i | 0 <= i < 64 && i % 8 < 7
        ensures KeyBits(KeyBytes(ktab))[i] == key[i]
      {
        PackedKeyBits(key, ktab, i);
      }
      ParityIgnored(t, KeyBits(KeyBytes(ktab)), key);
    }

    /** The direction change at the start of __encrypt_r. */
    method Turn(edflag: int, ghost key: Bits64)
      requires Valid()
      modifies this`direction, keysched
      ensures Valid() && (direction == 0 <==> edflag == 0) && (old(Loaded(key)) ==> Loaded(key))
      ensures old(Entries(sb, t, {}, 16384)) ==> Entries(sb, t, {}, 16384)
    {
      if (edflag == 0) != (direction == 0) {
        ReverseKeys(keysched);
        ghost var ks := Schedule(t, key);
        assert Reversed(Reversed(ks)) == ks;
        direction := edflag;
      }
    }

    /**
     __encrypt_r: `block` is enciphered in place, or deciphered if `edflag` is not zero.  The call needs no key;
     what it computes from a key table that holds no schedule is not specified.
     */
    method Encrypt(block: array<bool>, edflag: int, ghost key: Bits64)
      requires Valid() && block.Length == 64
      modifies this, sb, keysched, block
      ensures Valid() && crypt3buf == old(crypt3buf)
      ensures old(Loaded(key)) ==> Loaded(key)
      ensures old(Loaded(key)) ==>
        block[..] == if edflag == 0 then Des.Encrypt(t, key, old(block[..])) else Des.Decrypt(t, key, old(block[..]))
    {
      Prepare(edflag, key);
      Encipher(block, key);
    }

    /** The salt dropped and the key table turned. */
    method Prepare(edflag: int, ghost key: Bits64)
      requires Valid()
      modifies this, sb, keysched
      ensures Valid() && (direction == 0 <==> edflag == 0) && (old(Loaded(key)) ==> Loaded(key))
      ensures Entries(sb, t, {}, 16384) && crypt3buf == old(crypt3buf)
    {
      DropSalt();
      assert old(Loaded(key)) ==> Loaded(key);
      Turn(edflag, key);
    }

    /** The rest of __encrypt_r, with the standard expansion and the key table turned as needed. */
    method Encipher(block: array<bool>, ghost key: Bits64)
      requires Valid() && block.Length == 64 && Entries(sb, t, {}, 16384)
      modifies block
      ensures Valid() && Loaded(key) == old(Loaded(key))
      ensures Loaded(key) ==>
        block[..] == if direction == 0 then Des.Encrypt(t, key, old(block[..])) else Des.Decrypt(t, key, old(block[..]))
    {
      ghost var ks := if direction == 0 then Schedule(t, key) else Reversed(Schedule(t, key));
      EncryptBlock(small, sb, keysched, block, ks);
    }

    /** The key part of __crypt_r. */
    method UsePassword(key: seq<Char>)
      requires Valid()
      modifies this`direction, keysched
      ensures Valid() && direction == 0 && IsSchedule(keysched, Schedule(t, KeyBits(KeyBytes(KeyTable(key)))))
    {
      MakeKeytab(small, KeyTable(key), keysched);
      direction := 0;
    }

    /** __crypt_r for a salt that does not ask for MD5 or SHA. */
    method Crypt(key: seq<Char>, s0: Char, s1: Char) returns (r: seq<Char>)
      requires Valid()
      modifies this, sb, keysched
      ensures Valid() && direction == 0 && Loaded(KeyBits(KeyBytes(KeyTable(key)))) && r == crypt3buf
      ensures r == Printed(CryptBlock(t, key, SaltOf(old(NextSaltBits(initialized > 0, salt0, salt1, saltbits, s0, s1)))), s0, s1)
      ensures s0 != 0 || s1 != 0 ==> r == CryptSpec.Crypt(t, key, s0, s1)
    {
      if s0 != 0 || s1 != 0 {
        SaltInForce(initialized > 0, salt0, salt1, saltbits, s0, s1);
        SaltOfBits(s0, s1);
      }
      SetupSalt(s0, s1);
      r := CryptSalted(key, s0, s1);
    }

    /** The rest of __crypt_r, under the salt now in force. */
    method CryptSalted(key: seq<Char>, s0: Char, s1: Char) returns (r: seq<Char>)
      requires Valid() && initialized > 0
      modifies this, keysched
      ensures Valid() && direction == 0 && Loaded(KeyBits(KeyBytes(KeyTable(key)))) && r == crypt3buf
      ensures r == Printed(CryptBlock(t, key, SaltOf(old(saltbits))), s0, s1)
    {
      SaltedByEntries(t.e, saltbits);
      UsePassword(key);
      r := CryptZero(small, sb, keysched, saltbits, s0, s1, Schedule(t, KeyBits(KeyBytes(KeyTable(key)))));
      crypt3buf := r;
    }

    /**
     __crypt_r for a `$1$`, `$5$` or `$6$` salt: the structure is only a buffer.  The string goes
     over the key table, and the copy of the prefix into it fills all the rest with zero bytes.
     */
    method Overwrite(kind: CryptEncode.Kind, rounds: Option<nat>, salt: seq<Char>, digest: seq<Byte>) returns (r: seq<int>)
      requires Valid()
      modifies this, sb, keysched
      ensures r == HashText(kind, rounds, salt, digest)
      ensures Valid() && initialized == 0 && direction == 0 && salt0 == 0 && salt1 == 0 && saltbits == {}
      ensures crypt3buf == seq(14, i => 0)
      ensures forall i :: 0 <= i < 16 ==> keysched[i] == TextWord(r, 8 * i)
      ensures forall i :: 0 <= i < 16384 ==> sb[i] == {}
    {
      var bytes := new int[STRUCT_SIZE];
      CryptEncode.ResultShort(kind, rounds, salt, digest);
      var ok := CryptEncode.WriteResult(kind, CryptEncode.RoundsUsed(kind, rounds), CryptEncode.SaltText(kind, salt), digest,
                                        bytes, STRUCT_SIZE);
      var b := bytes[..];
      ghost var text := HashText(kind, rounds, salt, digest);
      assert ok && b[..|text|] == text;
      r := ReadString(b, text);
      LoadArrays(b, r);
      LoadFields(b);
    }

    /** The arrays of a structure with the given bytes. */
    method LoadArrays(b: seq<int>, ghost text: seq<int>)
      requires Shape() && StructOf(b, text)
      modifies sb, keysched
      ensures forall i :: 0 <= i < 16 ==> keysched[i] == TextWord(text, 8 * i)
      ensures forall i :: 0 <= i < 16384 ==> sb[i] == {}
    {
      for i := 0 to 16
        invariant forall j :: 0 <= j < i ==> keysched[j] == TextWord(text, 8 * j)
      {
        WordOfText(b, text, 8 * i);
        keysched[i] := TextWord(b, 8 * i);
      }
      for i := 0 to 16384
        invariant forall j :: 0 <= j < 16 ==> keysched[j] == TextWord(text, 8 * j)
        invariant forall j :: 0 <= j < i ==> sb[j] == {}
      {
        NoText(b, KEYSCHED_SIZE + 8 * i);
        sb[i] := TextWord(b, KEYSCHED_SIZE + 8 * i);
      }
    }

    /** Its other fields. */
    method LoadFields(b: seq<int>)
      requires |b| == STRUCT_SIZE && forall i :: KEYSCHED_SIZE <= i < STRUCT_SIZE ==> b[i] == 0
      modifies this
      ensures initialized == 0 && direction == 0 && salt0 == 0 && salt1 == 0 && saltbits == {}
      ensures crypt3buf == seq(14, i => 0)
    {
      crypt3buf := seq(14, i requires 0 <= i < 14 => b[BUF_AT + i]);
      salt0, salt1 := b[SALT_AT], b[SALT_AT + 1];
      NoText(b, SALTBITS_AT);
      saltbits := TextWord(b, SALTBITS_AT);
      direction := IntAt(b, DIRECTION_AT);
      initialized := IntAt(b, INITIALIZED_AT);
    }
  }

  // ----- struct crypt_data as bytes -----

  const KEYSCHED_SIZE: nat := 128
  const BUF_AT: nat := 131200
  const SALT_AT: nat := 131214
  const SALTBITS_AT: nat := 131216
  const DIRECTION_AT: nat := 131224
  const INITIALIZED_AT: nat := 131228
  const STRUCT_SIZE: nat := 131232

  /** The string of an MD5 or SHA call; the digest of password and salt is given. */
  function HashText(kind: CryptEncode.Kind, rounds: Option<nat>, salt: seq<Char>, digest: seq<Byte>): seq<int> {
    CryptEncode.ResultText(kind, CryptEncode.RoundsUsed(kind, rounds), CryptEncode.SaltText(kind, salt), digest)
  }

  /** The bytes hold a short string and zeroes behind it. */
  ghost predicate StructOf(b: seq<int>, text: seq<int>) {
    |b| == STRUCT_SIZE && |text| < KEYSCHED_SIZE && b[..|text|] == text && forall i :: |text| <= i < STRUCT_SIZE ==> b[i] == 0
  }

  /** The string the caller sees. */
  method ReadString(b: seq<int>, ghost text: seq<int>) returns (r: seq<int>)
    requires |text| < |b| && b[..|text|] == text && b[|text|] == 0 && 0 !in text
    ensures r == text
  {
    assert forall i :: 0 <= i < |text| ==> b[i] == b[..|text|][i] != 0;
    var n := 0;
    while b[n] != 0
      invariant n <= |text|
      decreases |text| - n
    {
      n := n + 1;
    }
    r := b[..n];
  }

  /** Bit `p` of the eight bytes at `i`, the first byte least significant. */
  predicate TextBit(text: seq<int>, i: nat, p: nat) {
    i + p / 8 < |text| && NatBit(text[i + p / 8] % 256, p % 8)
  }

  function TextWord(text: seq<int>, i: nat): Word { set p: nat | p < 64 && TextBit(text, i, p) }

  function IntAt(b: seq<int>, i: nat): nat
    requires i + 4 <= |b|
  {
    b[i] % 256 + 256 * (b[i + 1] % 256) + 65536 * (b[i + 2] % 256) + 16777216 * (b[i + 3] % 256)
  }

  lemma TextBitOf(b: seq<int>, text: seq<int>, i: nat, p: nat)
    requires StructOf(b, text)
    ensures TextBit(b, i, p) == TextBit(text, i, p)
  {
    var k := i + p / 8;
    if k < |text| {
      assert b[k] == text[k];
    } else if k < |b| {
      NatBitOfZero(p % 8);
    }
  }

  lemma WordOfText(b: seq<int>, text: seq<int>, i: nat)
    requires StructOf(b, text)
    ensures TextWord(b, i) == TextWord(text, i)
  {
    forall p: nat ensures TextBit(b, i, p) == TextBit(text, i, p) {
      TextBitOf(b, text, i, p);
    }
  }

  lemma NoText(b: seq<int>, i: nat)
    requires forall k :: i <= k < |b| ==> b[k] == 0
    ensures TextWord(b, i) == {}
  {
    forall p: nat ensures !TextBit(b, i, p) {
      NatBitOfZero(p % 8);
    }
  }

  // ----- Whole histories -----

  datatype Op =
    | OpSetKey(key: Bits64)
    | OpEncrypt(block: Bits64, edflag: int)
    | OpCrypt(password: seq<Char>, s0: Char, s1: Char)
    | OpHash(kind: CryptEncode.Kind, rounds: Option<nat>, salt: seq<Char>, digest: seq<Byte>)

  datatype Outcome = Nothing | Block(block: Bits64) | Text(text: seq<int>)

  /** The key that `encrypt` would use after an operation. */
  function KeyAfter(key: Option<Bits64>, op: Op): Option<Bits64> {
    match op
    case OpSetKey(k) => Some(k)
    case OpEncrypt(_, _) => key
    case OpCrypt(p, _, _) => Some(KeyBits(KeyBytes(KeyTable(p))))
    case OpHash(_, _, _, _) => None
  }

  /** The key after the first `n` operations of a history. */
  function KeyBefore(key: Option<Bits64>, ops: seq<Op>, n: nat): Option<Bits64>
    requires n <= |ops|
  {
    if n == 0 then key else KeyAfter(KeyBefore(key, ops, n - 1), ops[n - 1])
  }

  /** The calls whose result is specified: encryption with a key, and any salt but two NULs. */
  predicate Specified(key: Option<Bits64>, op: Op) {
    match op
    case OpEncrypt(_, _) => key.Some?
    case OpCrypt(_, s0, s1) => s0 != 0 || s1 != 0
    case _ => true
  }

  /** What an operation must return: a function of its arguments and the current key only. */
  function OutcomeOf(t: Tables, key: Option<Bits64>, op: Op): Outcome
    requires t.WellFormed() && Specified(key, op)
  {
    match op
    case OpSetKey(_) => Nothing
    case OpEncrypt(b, edflag) => Block(if edflag == 0 then Des.Encrypt(t, key.value, b) else Des.Decrypt(t, key.value, b))
    case OpCrypt(p, s0, s1) => Text(CryptSpec.Crypt(t, p, s0, s1))
    case OpHash(kind, rounds, salt, digest) => Text(HashText(kind, rounds, salt, digest))
  }

  ghost predicate AsSpecified(t: Tables, key: Option<Bits64>, op: Op, o: Outcome)
    requires t.WellFormed()
  {
    Specified(key, op) ==> o == OutcomeOf(t, key, op)
  }

  ghost predicate KeyIs(d: Data, key: Option<Bits64>)
    requires d.Shape()
    reads d, d.keysched, d.small, d.small.pc1, d.small.pc2, d.small.eperm, d.small.efp
  {
    key.Some? ==> d.Loaded(key.value)
  }

  /** After a key is set, enciphering and deciphering a block in either order returns it. */
  method ThereAndBack(d: Data, block: array<bool>, first: int, second: int, ghost key: Bits64)
    requires d.Valid() && d.Loaded(key) && block.Length == 64 && (first == 0) != (second == 0)
    modifies d, d.sb, d.keysched, block
    ensures d.Valid() && d.Loaded(key) && block[..] == old(block[..])
  {
    DecryptUndoesEncrypt(d.t, key, block[..]);
    d.Encrypt(block, first, key);
    d.Encrypt(block, second, key);
  }

  /** Any operation on any structure: the structure stays valid, and a specified result is the specified one. */
  method Perform(d: Data, op: Op, ghost key: Option<Bits64>) returns (o: Outcome)
    requires d.Valid() && KeyIs(d, key)
    modifies d, d.sb, d.keysched
    ensures d.Valid() && KeyIs(d, KeyAfter(key, op)) && AsSpecified(d.t, key, op, o)
  {
    match op {
      case OpSetKey(k) =>
        d.SetKey(k);
        o := Nothing;
      case OpEncrypt(b, edflag) =>
        var block := new bool[64](i requires 0 <= i < 64 => b[i]);
        assert block[..] == b;
        d.Encrypt(block, edflag, if key.Some? then key.value else b);
        o := Block(block[..]);
      case OpCrypt(p, s0, s1) =>
        var r := d.Crypt(p, s0, s1);
        o := Text(r);
      case OpHash(kind, rounds, salt, digest) =>
        var r := d.Overwrite(kind, rounds, salt, digest);
        o := Text(r);
    }
  }

  /**
   Any interleaving of operations on one structure: each specified result is what the specification
   gives for that operation, so nothing but the current key survives from one operation to the next.
   */
  method Run(d: Data, ops: seq<Op>, ghost key: Option<Bits64>) returns (outs: seq<Outcome>)
    requires d.Valid() && KeyIs(d, key)
    modifies d, d.sb, d.keysched
    ensures d.Valid() && |outs| == |ops|
    ensures forall i :: 0 <= i < |ops| ==> AsSpecified(d.t, KeyBefore(key, ops, i), ops[i], outs[i])
  {
    outs := [];
    for n := 0 to |ops|
      invariant d.Valid() && KeyIs(d, KeyBefore(key, ops, n)) && |outs| == n
      invariant forall i :: 0 <= i < n ==> AsSpecified(d.t, KeyBefore(key, ops, i), ops[i], outs[i])
    {
      var o := Perform(d, ops[n], KeyBefore(key, ops, n));
      outs := outs + [o];
    }
  }

  /** A zeroed structure computes crypt(3) as specified; two NULs leave it unsalted. */
  method CryptZeroed(t: Tables, key: seq<Char>, s0: Char, s1: Char) returns (r: seq<Char>)
    requires t.WellFormed()
    ensures s0 != 0 || s1 != 0 ==> r == CryptSpec.Crypt(t, key, s0, s1)
    ensures s0 == 0 && s1 == 0 ==> r == Printed(CryptBlock(t, key, {}), s0, s1)
  {
    var small := new SmallTables(t);
    var d := new Data(small);
    assert SaltOf({}) == {};
    r := d.Crypt(key, s0, s1);
  }

  /** So does one with the tables of the standard. */
  method CryptFresh(key: seq<Char>, s0: Char, s1: Char) returns (r: seq<Char>)
    ensures STANDARD.WellFormed()
    ensures s0 != 0 || s1 != 0 ==> r == CryptSpec.Crypt(STANDARD, key, s0, s1)
    ensures s0 == 0 && s1 == 0 ==> r == Printed(CryptBlock(STANDARD, key, {}), s0, s1)
  {
    StandardWellFormed();
    r := CryptZeroed(STANDARD, key, s0, s1);
  }
}
