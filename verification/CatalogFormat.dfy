/** The catalog file in bytes: where a message lies in it, without reference to how it got there. */
module CatalogFormat {
  import opened Arith
  import opened ByteOrder
  import opened CatalogTable
  import opened CatalogFile
  import opened CatalogLookup

  function Four(b0: int, b1: int, b2: int, b3: int): int { b0 + 0x100 * b1 + 0x1_0000 * b2 + 0x100_0000 * b3 }

  function LittleAt(f: seq<Byte>, p: nat): int
    requires p + 4 <= |f|
  {
    Four(f[p], f[p + 1], f[p + 2], f[p + 3])
  }

  function BigAt(f: seq<Byte>, p: nat): int
    requires p + 4 <= |f|
  {
    Four(f[p + 3], f[p + 2], f[p + 1], f[p])
  }

  lemma WordAtIs(f: seq<Byte>, p: nat)
    requires p + 4 <= |f|
    ensures WordAt(Little, f, p) == LittleAt(f, p) && WordAt(Big, f, p) == BigAt(f, p)
  {
    var s := f[p..p + 4];
    assert s[0] == f[p] && s[1] == f[p + 1] && s[2] == f[p + 2] && s[3] == f[p + 3];
  }

  /** Three words from byte `p` on. */
  ghost predicate Triple(f: seq<Byte>, e: Endian, p: nat, x: int, y: int, z: int) {
    && p + 12 <= |f|
    && if e.Little? then LittleAt(f, p) == x && LittleAt(f, p + 4) == y && LittleAt(f, p + 8) == z
       else BigAt(f, p) == x && BigAt(f, p + 4) == y && BigAt(f, p + 8) == z
  }

  lemma TripleOfWords(f: seq<Byte>, e: Endian, p: nat, x: int, y: int, z: int)
    requires p + 12 <= |f| && WordAt(e, f, p) == x && WordAt(e, f, p + 4) == y && WordAt(e, f, p + 8) == z
    ensures Triple(f, e, p, x, y, z)
  {
    WordAtIs(f, p);
    WordAtIs(f, p + 4);
    WordAtIs(f, p + 8);
  }

  /** The header: magic number, size and depth, in the byte order of the writer. */
  lemma HeaderBytes(f: seq<Byte>, writer: Endian, size: Word32, depth: Word32, a: seq<Slot>, pool: seq<Byte>)
    requires Written(f, writer, size, depth, a, pool)
    ensures |f| == 12 + 24 * (size * depth) + |pool| && Triple(f, writer, 0, 0x960408de, size, depth)
  {
    var rest := StoreAll(Little, TableWords(a)) + StoreAll(Big, TableWords(a)) + pool;
    assert f == StoreAll(writer, [MAGIC, size, depth]) + rest;
    HeaderRead(writer, writer, size, depth, rest);
    TripleOfWords(f, writer, 0, MAGIC, size, depth);
  }

  /** The words of the index for a byte order, and the strings behind both. */
  ghost predicate Indexed(f: seq<Byte>, e: Endian, ws: seq<Word32>, n: nat, pool: seq<Byte>) {
    && |ws| == n && |f| == 12 + 8 * n + |pool| && f[12 + 8 * n..] == pool
    && WordsAt(e, f, if e.Little? then 12 else 12 + 4 * n, n) == ws
  }

  lemma WrittenIsIndexed(f: seq<Byte>, h: seq<Byte>, e: Endian, ws: seq<Word32>, n: nat, pool: seq<Byte>)
    requires |h| == 12 && |ws| == n && f == h + StoreAll(Little, ws) + StoreAll(Big, ws) + pool
    ensures Indexed(f, e, ws, n, pool)
  {
    TablesRead(e, h, ws, pool, f, n);
  }

  /** A slot: set number, message number and string offset in one index for each byte order. */
  lemma SlotBytes(f: seq<Byte>, a: seq<Slot>, pool: seq<Byte>, i: nat, n: nat)
    requires Fits(a) && |a| == n && Indexed(f, Little, TableWords(a), 3 * n, pool) && Indexed(f, Big, TableWords(a), 3 * n, pool) && i < n
    ensures Triple(f, Little, 12 + 12 * i, a[i].setNumber, a[i].number, a[i].offset)
    ensures Triple(f, Big, 12 + 12 * n + 12 * i, a[i].setNumber, a[i].number, a[i].offset)
  {
    SlotWords(a, i);
    IndexTriple(f, Little, 12, 3 * n, i);
    IndexTriple(f, Big, 12 + 12 * n, 3 * n, i);
  }

  lemma IndexTriple(f: seq<Byte>, e: Endian, at: nat, n: nat, i: nat)
    requires at + 4 * n <= |f| && 3 * i + 3 <= n
    ensures var ws := WordsAt(e, f, at, n); Triple(f, e, at + 12 * i, ws[3 * i], ws[3 * i + 1], ws[3 * i + 2])
  {
    var ws := WordsAt(e, f, at, n);
    TripleOfWords(f, e, at + 12 * i, ws[3 * i], ws[3 * i + 1], ws[3 * i + 2]);
  }

  lemma SlotWords(a: seq<Slot>, i: nat)
    requires Fits(a) && i < |a|
    ensures var ws := TableWords(a); ws[3 * i] == a[i].setNumber && ws[3 * i + 1] == a[i].number && ws[3 * i + 2] == a[i].offset
  {
    var p := 3 * i;
    assert p / 3 == i && p % 3 == 0 && (p + 1) / 3 == i && (p + 1) % 3 == 1 && (p + 2) / 3 == i && (p + 2) % 3 == 2;
  }

  /** Slot `i` of the `n` in both indexes has the numbers of a message and offset `o`, and the strings have its text and a NUL there. */
  ghost predicate InFile(f: seq<Byte>, n: nat, i: nat, o: nat, m: Entry) {
    && Triple(f, Little, 12 + 12 * i, m.setNumber, m.number, o) && Triple(f, Big, 12 + 12 * n + 12 * i, m.setNumber, m.number, o)
    && 12 + 24 * n + o + |m.text| + 1 <= |f| && f[12 + 24 * n + o..12 + 24 * n + o + |m.text| + 1] == m.text + [0]
  }

  /** A message in the file: it is in some plane of the table, at the product of its numbers modulo the size. */
  lemma {:induction false} MessageBytes(f: seq<Byte>, writer: Endian, size: Word32, depth: Word32, a: seq<Slot>, es: seq<Entry>, j: nat)
    returns (n: nat, i: nat, k: nat, o: nat)
    requires size > 0 && Written(f, writer, size, depth, a, Pool(es)) && Placed(a, es, |es|, size, depth) && Representable(es)
    requires j < |es| && es[j].setNumber * es[j].number < 0x8000_0000
    ensures n == size * depth && k < depth && i == es[j].setNumber * es[j].number % size + size * k
    ensures InFile(f, n, i, o, es[j])
  {
    n, i, k, o := |a|, SlotOf(es, size, j), Plane(es, size, j), Offset(es, j);
    HashIsProduct(es[j].setNumber, es[j].number);
    assert SlotFilled(a, es, size, j);
    PlaneBelowDepth(es, size, depth, a, j);
    PoolAt(es, j);
    WrittenIsIndexed(f, StoreAll(writer, [MAGIC, size, depth]), Little, TableWords(a), 3 * n, Pool(es));
    WrittenIsIndexed(f, StoreAll(writer, [MAGIC, size, depth]), Big, TableWords(a), 3 * n, Pool(es));
    PlacedBytes(f, a, Pool(es), es[j], i, o, n);
  }

  lemma {:induction false} PlacedBytes(f: seq<Byte>, a: seq<Slot>, pool: seq<Byte>, m: Entry, i: nat, o: nat, n: nat)
    requires Fits(a) && |a| == n && Indexed(f, Little, TableWords(a), 3 * n, pool) && Indexed(f, Big, TableWords(a), 3 * n, pool) && i < n
    requires a[i] == Slot(m.setNumber, m.number, o) && StringAt(pool, o, m.text)
    ensures InFile(f, n, i, o, m)
  {
    SlotBytes(f, a, pool, i, n);
    StringBytes(f, 12 + 24 * n, pool, o, m.text);
  }

  lemma HashIsProduct(s: int, n: int)
    requires 0 <= s * n < 0x8000_0000
    ensures Hash(s, n) == s * n
  {
  }

  lemma PlaneBelowDepth(es: seq<Entry>, size: nat, depth: nat, a: seq<Slot>, j: nat)
    requires size > 0 && Placed(a, es, |es|, size, depth) && j < |es|
    ensures Plane(es, size, j) < depth
  {
    var b, k := Bucket(es, size, j), Plane(es, size, j);
    assert SlotFilled(a, es, size, j);
    if k >= depth {
      MulMonotone(depth, k, size);
      assert false;
    }
  }

  lemma StringBytes(f: seq<Byte>, at: nat, pool: seq<Byte>, o: nat, text: seq<Byte>)
    requires at <= |f| && f[at..] == pool && StringAt(pool, o, text)
    ensures at + o + |text| + 1 <= |f| && f[at + o..at + o + |text| + 1] == text + [0]
  {
    forall i | 0 <= i <= |text| ensures f[at + o + i] == (text + [0])[i] {
      assert f[at + o + i] == pool[o + i];
      assert i < |text| ==> pool[o..o + |text|][i] == text[i];
    }
  }
}
