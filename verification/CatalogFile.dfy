/**
 The catalog file: what write_out emits on a machine of either byte order, and what
 __open_catalog makes of it on a machine of either byte order.
 */
module CatalogFile {
  import opened Options
  import opened ByteOrder
  import opened CatalogTable

  const MAGIC: nat := 0x960408de

  datatype Endian = Little | Big

  type Word32 = w: int | 0 <= w < 0x1_0000_0000

  // ----- Words in memory -----

  /** The four bytes of a word as a machine of the given byte order stores them. */
  function Store(e: Endian, w: Word32): (s: seq<Byte>)
    ensures |s| == 4
  {
    Bytes(e.Big?, w, 4)
  }

  /** The word with the given bytes, least significant first. */
  function Word(b0: int, b1: int, b2: int, b3: int): Word32
    requires 0 <= b0 < 0x100 && 0 <= b1 < 0x100 && 0 <= b2 < 0x100 && 0 <= b3 < 0x100
  {
    b0 + 0x100 * b1 + 0x1_0000 * b2 + 0x100_0000 * b3
  }

  function Fetch(e: Endian, s: seq<Byte>): Word32
    requires |s| == 4
  {
    if e.Little? then Word(s[0], s[1], s[2], s[3]) else Word(s[3], s[2], s[1], s[0])
  }

  /** SWAPU32. */
  function Swap(w: Word32): Word32 {
    w % 0x100 * 0x100_0000 + w / 0x100 % 0x100 * 0x1_0000 + w / 0x1_0000 % 0x100 * 0x100 + w / 0x100_0000
  }

  lemma StoreBytes(w: Word32)
    ensures var b0, b1, b2, b3 := w % 0x100, w / 0x100 % 0x100, w / 0x1_0000 % 0x100, w / 0x100_0000;
      0 <= b3 < 0x100 && w == Word(b0, b1, b2, b3)
      && Store(Little, w) == [b0, b1, b2, b3] && Store(Big, w) == [b3, b2, b1, b0]
  {
    var w1, w2, w3 := w / 0x100, w / 0x1_0000, w / 0x100_0000;
    assert w1 / 0x100 == w2 && w2 / 0x100 == w3 && w3 % 0x100 == w3;
    assert LittleEndian(w, 4) == [w % 0x100] + LittleEndian(w1, 3);
    assert LittleEndian(w1, 3) == [w1 % 0x100] + LittleEndian(w2, 2);
    assert LittleEndian(w2, 2) == [w2 % 0x100] + LittleEndian(w3, 1);
    assert LittleEndian(w3, 1) == [w3 % 0x100] + LittleEndian(w3 / 0x100, 0);
    assert BigEndian(w, 4) == BigEndian(w1, 3) + [w % 0x100];
    assert BigEndian(w1, 3) == BigEndian(w2, 2) + [w1 % 0x100];
    assert BigEndian(w2, 2) == BigEndian(w3, 1) + [w2 % 0x100];
    assert BigEndian(w3, 1) == BigEndian(w3 / 0x100, 0) + [w3 % 0x100];
  }

  /** A word read with the byte order it was written in, or with the other one. */
  lemma FetchStore(reader: Endian, writer: Endian, w: Word32)
    ensures Fetch(reader, Store(writer, w)) == if reader == writer then w else Swap(w)
  {
    StoreBytes(w);
  }

  lemma FromBytes(b0: int, b1: int, b2: int, b3: int)
    requires 0 <= b0 < 0x100 && 0 <= b1 < 0x100 && 0 <= b2 < 0x100 && 0 <= b3 < 0x100
    ensures var w := Word(b0, b1, b2, b3);
      w % 0x100 == b0 && w / 0x100 % 0x100 == b1 && w / 0x1_0000 % 0x100 == b2 && w / 0x100_0000 == b3
  {
    var w := Word(b0, b1, b2, b3);
    assert w / 0x100 == b1 + 0x100 * b2 + 0x1_0000 * b3;
    assert w / 0x1_0000 == b2 + 0x100 * b3;
  }

  lemma SwapWord(b0: int, b1: int, b2: int, b3: int)
    requires 0 <= b0 < 0x100 && 0 <= b1 < 0x100 && 0 <= b2 < 0x100 && 0 <= b3 < 0x100
    ensures Swap(Word(b0, b1, b2, b3)) == Word(b3, b2, b1, b0)
  {
    FromBytes(b0, b1, b2, b3);
  }

  lemma SwapTwice(w: Word32)
    ensures Swap(Swap(w)) == w
  {
    var b0, b1, b2, b3 := w % 0x100, w / 0x100 % 0x100, w / 0x1_0000 % 0x100, w / 0x100_0000;
    StoreBytes(w);
    SwapWord(b0, b1, b2, b3);
    SwapWord(b3, b2, b1, b0);
  }

  /** Storing a swapped word is storing the word for the other byte order. */
  lemma StoreSwapped(e: Endian, w: Word32)
    ensures Store(e, Swap(w)) == Store(if e.Little? then Big else Little, w)
  {
    StoreBytes(w);
    StoreBytes(Swap(w));
    FromBytes(w / 0x100_0000, w / 0x1_0000 % 0x100, w / 0x100 % 0x100, w % 0x100);
  }

  function StoreAll(e: Endian, ws: seq<Word32>): (s: seq<Byte>)
    ensures |s| == 4 * |ws|
  {
    if ws == [] then [] else StoreAll(e, ws[..|ws| - 1]) + Store(e, ws[|ws| - 1])
  }

  lemma {:induction false} StoreAllAt(e: Endian, ws: seq<Word32>, i: nat)
    requires i < |ws|
    ensures StoreAll(e, ws)[4 * i..4 * i + 4] == Store(e, ws[i])
  {
    var n := |ws| - 1;
    if i == n {
      assert StoreAll(e, ws)[4 * n..4 * n + 4] == Store(e, ws[n]);
    } else {
      StoreAllAt(e, ws[..n], i);
      assert StoreAll(e, ws)[4 * i..4 * i + 4] == StoreAll(e, ws[..n])[4 * i..4 * i + 4];
    }
  }

  function SwapAll(ws: seq<Word32>): (r: seq<Word32>)
    ensures |r| == |ws|
  {
    seq(|ws|, i requires 0 <= i < |ws| => Swap(ws[i]))
  }

  lemma {:induction false} StoreAllSwapped(e: Endian, ws: seq<Word32>)
    ensures StoreAll(e, SwapAll(ws)) == StoreAll(if e.Little? then Big else Little, ws)
  {
    if ws != [] {
      var n := |ws| - 1;
      StoreAllSwapped(e, ws[..n]);
      assert SwapAll(ws)[..n] == SwapAll(ws[..n]);
      StoreSwapped(e, ws[n]);
    }
  }

  // ----- The file -----

  ghost predicate Fits(a: seq<Slot>) {
    forall i :: 0 <= i < |a| ==>
      0 <= a[i].setNumber < 0x8000_0000 && 0 <= a[i].number < 0x8000_0000 && a[i].offset < 0x1_0000_0000
  }

  function SlotWord(s: Slot, k: int): int { if k == 0 then s.setNumber else if k == 1 then s.number else s.offset }

  /** The index array: three words to a slot. */
  function TableWords(a: seq<Slot>): (ws: seq<Word32>)
    requires Fits(a)
    ensures |ws| == 3 * |a|
  {
    seq(3 * |a|, i requires 0 <= i < 3 * |a| => SlotWord(a[i / 3], i % 3))
  }

  function SlotAt(ws: seq<Word32>, i: int, p: int): Slot
    requires p == 3 * i && 0 <= p && p + 3 <= |ws|
  {
    Slot(ws[p], ws[p + 1], ws[p + 2])
  }

  function SlotsOf(ws: seq<Word32>): (a: seq<Slot>)
    requires |ws| % 3 == 0
    ensures |a| == |ws| / 3
  {
    seq(|ws| / 3, i requires 0 <= i < |ws| / 3 => SlotAt(ws, i, 3 * i))
  }

  lemma SlotsOfWords(a: seq<Slot>)
    requires Fits(a)
    ensures SlotsOf(TableWords(a)) == a
  {
    forall i | 0 <= i < |a| ensures SlotsOf(TableWords(a))[i] == a[i] {
    }
  }

  /** The file as a function of its contents and the byte order of its header. */
  function FileOf(e: Endian, size: Word32, depth: Word32, a: seq<Slot>, pool: seq<Byte>): seq<Byte>
    requires Fits(a)
  {
    StoreAll(e, [MAGIC, size, depth]) + StoreAll(Little, TableWords(a)) + StoreAll(Big, TableWords(a)) + pool
  }

  /** The loop that fills the second array. */
  method SwapTable(ws: seq<Word32>) returns (r: seq<Word32>)
    ensures r == SwapAll(ws)
  {
    r := [];
    for i := 0 to |ws|
      invariant r == SwapAll(ws)[..i]
    {
      r := r + [Swap(ws[i])];
    }
  }

  /** The output part of write_out on a machine of byte order `e`. */
  method WriteFile(e: Endian, size: Word32, depth: Word32, a: seq<Slot>, pool: seq<Byte>) returns (f: seq<Byte>)
    requires Fits(a)
    ensures f == FileOf(e, size, depth, a, pool)
  {
    var native := TableWords(a);
    var swapped := SwapTable(native);
    StoreAllSwapped(e, native);
    var header := StoreAll(e, [MAGIC, size, depth]);
    if e.Little? {
      f := header + StoreAll(e, native) + StoreAll(e, swapped) + pool;
    } else {
      f := header + StoreAll(e, swapped) + StoreAll(e, native) + pool;
    }
  }

  // ----- Opening -----

  function WordAt(e: Endian, f: seq<Byte>, p: nat): Word32
    requires p + 4 <= |f|
  {
    Fetch(e, f[p..p + 4])
  }

  /** `n` words of the file from byte `p` on, as a machine of byte order `e` sees them. */
  function WordsAt(e: Endian, f: seq<Byte>, p: nat, n: nat): (ws: seq<Word32>)
    requires p + 4 * n <= |f|
    ensures |ws| == n
  {
    seq(n, i requires 0 <= i < n => WordAt(e, f, p + 4 * i))
  }

  lemma WordRead(reader: Endian, writer: Endian, before: seq<Byte>, ws: seq<Word32>, after: seq<Byte>, i: nat, p: nat)
    requires i < |ws| && p == |before| + 4 * i
    ensures WordAt(reader, before + StoreAll(writer, ws) + after, p) == if reader == writer then ws[i] else Swap(ws[i])
  {
    StoreAllAt(writer, ws, i);
    SliceInside(before, StoreAll(writer, ws), after, 4 * i, p);
    FetchStore(reader, writer, ws[i]);
  }

  lemma SliceInside(before: seq<Byte>, s: seq<Byte>, after: seq<Byte>, q: nat, p: nat)
    requires q + 4 <= |s| && p == |before| + q
    ensures (before + s + after)[p..p + 4] == s[q..q + 4]
  {
  }

  /** Words read from where they were written. */
  lemma WordsRead(e: Endian, before: seq<Byte>, ws: seq<Word32>, after: seq<Byte>, f: seq<Byte>)
    requires f == before + StoreAll(e, ws) + after
    ensures WordsAt(e, f, |before|, |ws|) == ws
  {
    var b := |before|;
    forall i | 0 <= i < |ws| ensures WordAt(e, f, b + 4 * i) == ws[i] {
      WordRead(e, e, before, ws, after, i, b + 4 * i);
    }
  }

  /** struct catalog_info: the dimensions, the index table picked and the string space. */
  datatype Catalog = Catalog(size: nat, depth: nat, names: seq<Word32>, strings: seq<Byte>)

  /** The header as a machine of byte order `reader` sees it. */
  lemma HeaderRead(reader: Endian, writer: Endian, size: Word32, depth: Word32, rest: seq<Byte>)
    ensures var f := StoreAll(writer, [MAGIC, size, depth]) + rest;
      var same := reader == writer;
      && WordAt(reader, f, 0) == (if same then MAGIC else Swap(MAGIC))
      && WordAt(reader, f, 4) == (if same then size else Swap(size))
      && WordAt(reader, f, 8) == (if same then depth else Swap(depth))
  {
    var ws := [MAGIC, size, depth];
    var f := StoreAll(writer, ws) + rest;
    assert f == [] + StoreAll(writer, ws) + rest;
    WordRead(reader, writer, [], ws, rest, 0, 0);
    WordRead(reader, writer, [], ws, rest, 1, 4);
    WordRead(reader, writer, [], ws, rest, 2, 8);
  }

  /** The largest offset among the first `n` slots. */
  function MaxOffset(a: seq<Slot>, n: nat): nat
    requires n <= |a|
  {
    if n == 0 then 0
    else var m := MaxOffset(a, n - 1); if a[n - 1].offset > m then a[n - 1].offset else m
  }

  /** Both index tables and the strings lie where the dimensions say. */
  lemma TablesRead(reader: Endian, h: seq<Byte>, ws: seq<Word32>, pool: seq<Byte>, f: seq<Byte>, n: nat)
    requires |h| == 12 && n == |ws| && f == h + StoreAll(Little, ws) + StoreAll(Big, ws) + pool
    ensures |f| == 12 + 8 * n + |pool| && f[12 + 8 * n..] == pool
    ensures WordsAt(reader, f, if reader.Little? then 12 else 12 + 4 * n, n) == ws
  {
    var x, y := StoreAll(Little, ws), StoreAll(Big, ws);
    if reader.Little? {
      WordsRead(Little, h, ws, y + pool, f);
    } else {
      WordsRead(Big, h + x, ws, pool, f);
    }
  }

  datatype Scan = Ends | Exhausted | Faults

  /** A terminator among `budget` bytes of memory from `from` on. */
  ghost predicate EndsWithin(mem: seq<Byte>, from: nat, budget: nat) {
    exists p :: from <= p < from + budget && p < |mem| && mem[p] == 0
  }

  /** The scan for a terminator through the bytes that can be read. */
  ghost function Scanned(mem: seq<Byte>, from: nat, budget: nat): Scan {
    if EndsWithin(mem, from, budget) then Ends else if from + budget <= |mem| then Exhausted else Faults
  }

  /** The scan for the end of the last string. */
  method ScanLast(mem: seq<Byte>, from: nat, budget: nat) returns (r: Scan)
    requires budget > 0
    ensures r == Scanned(mem, from, budget)
  {
    var p, left := from, budget;
    while p < |mem| && mem[p] != 0
      invariant from <= p && left == budget - (p - from) > 0
      invariant forall q :: from <= q < p && q < |mem| ==> mem[q] != 0
      decreases |mem| - p
    {
      left := left - 1;
      if left == 0 {
        return Exhausted;
      }
      p := p + 1;
    }
    return if p < |mem| then Ends else Faults;
  }

  /** A file laid out as write_out does it. */
  ghost predicate Written(f: seq<Byte>, writer: Endian, size: Word32, depth: Word32, a: seq<Slot>, pool: seq<Byte>) {
    Fits(a) && |a| == size * depth > 0 && f == FileOf(writer, size, depth, a, pool)
  }

  /** The ways __open_catalog can go; the last is a read of memory that is not there. */
  datatype Opened = Accepted(catalog: Catalog) | Invalid | Faulted

  /**
   What comes of opening a file with the given contents.  `behind` are the bytes that can be read behind
   the end of the file: of a mapped file the zeroes up to the end of its last page.
   */
  ghost function Opening(size: nat, depth: nat, a: seq<Slot>, pool: seq<Byte>, behind: seq<Byte>): Opened
    requires Fits(a)
  {
    var m := MaxOffset(a, |a|);
    if 18 * |a| + |pool| <= m then Invalid
    else
      match Scanned(pool + behind, m, 30 * |a| + |pool| + m)
      case Ends => Accepted(Catalog(size, depth, TableWords(a), pool))
      case Exhausted => Invalid
      case Faults => Faulted
  }

  /** The loop over the table that finds the largest offset. */
  method LargestOffset(names: seq<Word32>, ghost a: seq<Slot>) returns (m: nat)
    requires Fits(a) && names == TableWords(a)
    ensures m == MaxOffset(a, |a|)
  {
    m := 0;
    var cnt := 2;
    ghost var k := 0;
    while cnt < |names|
      invariant cnt == 3 * k + 2 && k <= |a| && m == MaxOffset(a, k)
    {
      if names[cnt] > m {
        m := names[cnt];
      }
      cnt, k := cnt + 3, k + 1;
    }
  }

  /** What each machine sees of the header. */
  lemma FileHeader(reader: Endian, f: seq<Byte>, writer: Endian, size: Word32, depth: Word32, a: seq<Slot>, pool: seq<Byte>)
    requires Fits(a) && f == FileOf(writer, size, depth, a, pool)
    ensures |f| >= 12
    ensures WordAt(reader, f, 0) == if reader == writer then MAGIC else Swap(MAGIC)
    ensures size == if reader == writer then WordAt(reader, f, 4) else Swap(WordAt(reader, f, 4))
    ensures depth == if reader == writer then WordAt(reader, f, 8) else Swap(WordAt(reader, f, 8))
  {
    var ws := TableWords(a);
    var x, y := StoreAll(Little, ws), StoreAll(Big, ws);
    HeaderRead(reader, writer, size, depth, x + y + pool);
    SwapTwice(size);
    SwapTwice(depth);
  }

  /** The magic number tells whether the header needs swapping. */
  method Dimensions(reader: Endian, f: seq<Byte>, ghost writer: Endian, ghost size: Word32, ghost depth: Word32,
                    ghost a: seq<Slot>, ghost pool: seq<Byte>) returns (r: Option<(Word32, Word32)>)
    requires Fits(a) && f == FileOf(writer, size, depth, a, pool)
    ensures r == Some((size, depth))
  {
    FileHeader(reader, f, writer, size, depth, a, pool);
    if |f| < 12 {
      return None;
    }
    var swapping;
    if WordAt(reader, f, 0) == MAGIC {
      swapping := false;
    } else if WordAt(reader, f, 0) == Swap(MAGIC) {
      swapping := true;
    } else {
      return None;
    }
    return Some((if swapping then Swap(WordAt(reader, f, 4)) else WordAt(reader, f, 4),
                 if swapping then Swap(WordAt(reader, f, 8)) else WordAt(reader, f, 8)));
  }

  /** __open_catalog on a file laid out as write_out does it, for each pair of byte orders. */
  method Open(reader: Endian, f: seq<Byte>, behind: seq<Byte>, ghost writer: Endian, ghost size: Word32, ghost depth: Word32,
              ghost a: seq<Slot>, ghost pool: seq<Byte>) returns (r: Opened)
    requires Written(f, writer, size, depth, a, pool)
    ensures r == Opening(size, depth, a, pool, behind)
  {
    var dims := Dimensions(reader, f, writer, size, depth, a, pool);
    if dims.None? {
      return Invalid;
    }
    var words := dims.value.0 * dims.value.1 * 3;
    assert words == 3 * |a|;
    TablesRead(reader, StoreAll(writer, [MAGIC, size, depth]), TableWords(a), pool, f, words);
    var names := WordsAt(reader, f, if reader.Little? then 12 else 12 + 4 * words, words);
    var strings := f[12 + 8 * words..];
    var maxOffset := LargestOffset(names, a);
    if |f| <= 12 + 2 * words + maxOffset {
      return Invalid;
    }
    var scan := ScanLast(strings + behind, maxOffset, |f| - 12 + 2 * words + maxOffset);
    match scan {
      case Ends => return Accepted(Catalog(dims.value.0, dims.value.1, names, strings));
      case Exhausted => return Invalid;
      case Faults => return Faulted;
    }
  }
}
