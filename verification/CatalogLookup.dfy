/**
 The whole way of a message: compiled by gencat's write_out on one machine, opened by
 __open_catalog and looked up by catgets on another.
 */
module CatalogLookup {
  import opened Options
  import opened Arith
  import opened ByteOrder
  import opened CatalogTable
  import opened CatalogFile

  // ----- Strings -----

  /** The C string that starts at `p`. */
  function CString(s: seq<Byte>, p: nat): seq<Byte>
    decreases |s| - p
  {
    if p >= |s| || s[p] == 0 then [] else [s[p]] + CString(s, p + 1)
  }

  lemma {:induction false} CStringIs(s: seq<Byte>, p: nat, t: seq<Byte>)
    requires StringAt(s, p, t) && 0 !in t
    ensures CString(s, p) == t
    decreases |t|
  {
    if t != [] {
      assert s[p] == t[0];
      assert s[p + 1..p + 1 + |t[1..]|] == t[1..];
      CStringIs(s, p + 1, t[1..]);
    }
  }

  /** The string `t` with its terminator stands at `p`. */
  ghost predicate StringAt(s: seq<Byte>, p: nat, t: seq<Byte>) {
    p + |t| < |s| && s[p..p + |t|] == t && s[p + |t|] == 0
  }

  lemma {:induction false} PoolAt(es: seq<Entry>, j: nat)
    requires j < |es|
    ensures StringAt(Pool(es), Offset(es, j), es[j].text)
  {
    var n, last := |es| - 1, es[|es| - 1].text;
    assert es[..n][..j] == es[..j];
    if j < n {
      PoolAt(es[..n], j);
      assert Pool(es) == Pool(es[..n]) + (last + [0]);
    }
  }

  /** What the source's strings can be: numbers that fit an int, sets stored from 1 on, texts without NUL. */
  predicate Representable(es: seq<Entry>) {
    && |Pool(es)| < 0x1_0000_0000
    && forall j :: 0 <= j < |es| ==>
      0 < es[j].setNumber < 0x8000_0000 && 0 <= es[j].number < 0x8000_0000 && 0 !in es[j].text
  }

  lemma PoolString(es: seq<Entry>, j: nat)
    requires j < |es| && Representable(es)
    ensures CString(Pool(es), Offset(es, j)) == es[j].text
  {
    PoolAt(es, j);
    CStringIs(Pool(es), Offset(es, j), es[j].text);
  }

  // ----- Writing -----

  /** Every occupied slot of the finished table is some entry's. */
  lemma SlotHolder(a: seq<Slot>, es: seq<Entry>, size: nat, depth: nat, i: nat) returns (j: nat)
    requires size > 0 && Placed(a, es, |es|, size, depth) && i < |a| && a[i] != EMPTY
    ensures j < |es| && i == SlotOf(es, size, j) && a[i] == Slot(es[j].setNumber, es[j].number, Offset(es, j))
  {
    var b, k := i % size, i / size;
    DivBound(i, size, depth);
    assert i == At(size, b, k);
    assert SlotFree(a, es, |es|, size, b, k);
    j := HolderOf(es, size, |es|, b, k);
    assert SlotFilled(a, es, size, j);
  }

  lemma {:induction false} MaxOffsetBelow(a: seq<Slot>, n: nat, bound: nat)
    requires n <= |a| && bound > 0 && forall i :: 0 <= i < |a| ==> a[i].offset < bound
    ensures MaxOffset(a, n) < bound
  {
    if n > 0 {
      MaxOffsetBelow(a, n - 1, bound);
    }
  }

  /** The table's words fit, and the last string begins inside the file exactly when there is a message. */
  lemma TableFits(a: seq<Slot>, es: seq<Entry>, size: nat, depth: nat)
    requires size > 0 && Placed(a, es, |es|, size, depth) && Representable(es)
    ensures Fits(a) && (MaxOffset(a, |a|) < |Pool(es)| <==> es != []) && (es == [] ==> MaxOffset(a, |a|) == 0)
  {
    var bound := if es == [] then 1 else |Pool(es)|;
    forall i | 0 <= i < |a|
      ensures 0 <= a[i].setNumber < 0x8000_0000 && 0 <= a[i].number < 0x8000_0000 && a[i].offset < bound
    {
      if a[i] != EMPTY {
        var j := SlotHolder(a, es, size, depth, i);
        PoolAt(es, j);
      }
    }
    MaxOffsetBelow(a, |a|, bound);
  }

  /**
   A file of write_out is accepted exactly when it has a message or the scan meets a zero behind the
   end of the file; without a message the first byte it reads is one behind the end.
   */
  lemma AcceptedIff(a: seq<Slot>, es: seq<Entry>, size: nat, depth: nat, behind: seq<Byte>)
    requires size > 0 && depth > 0 && Placed(a, es, |es|, size, depth) && Representable(es)
    ensures Fits(a)
    ensures var r := Opening(size, depth, a, Pool(es), behind);
      && (r.Accepted? <==> es != [] || EndsWithin(behind, 0, 30 * |a|))
      && (r.Accepted? ==> r.catalog == Catalog(size, depth, TableWords(a), Pool(es)))
  {
    TableFits(a, es, size, depth);
    MulMonotone(1, size, depth);
    if es != [] {
      OpeningInside(size, depth, a, Pool(es), behind);
    } else {
      OpeningEmpty(size, depth, a, behind);
    }
  }

  lemma OpeningEmpty(size: nat, depth: nat, a: seq<Slot>, behind: seq<Byte>)
    requires Fits(a) && a != [] && MaxOffset(a, |a|) == 0
    ensures var r := Opening(size, depth, a, [], behind);
      && (r.Accepted? <==> EndsWithin(behind, 0, 30 * |a|))
      && (r.Accepted? ==> r.catalog == Catalog(size, depth, TableWords(a), []))
  {
    assert [] + behind == behind;
  }

  lemma OpeningInside(size: nat, depth: nat, a: seq<Slot>, pool: seq<Byte>, behind: seq<Byte>)
    requires Fits(a) && a != [] && MaxOffset(a, |a|) < |pool| && pool[|pool| - 1] == 0
    ensures Opening(size, depth, a, pool, behind) == Accepted(Catalog(size, depth, TableWords(a), pool))
  {
    assert (pool + behind)[|pool| - 1] == 0;
    assert EndsWithin(pool + behind, MaxOffset(a, |a|), 30 * |a| + |pool| + MaxOffset(a, |a|));
  }

  /** The rest of the last page of a mapped file: some zeroes, unless the file fills it. */
  ghost predicate Mapped(f: seq<Byte>, behind: seq<Byte>, page: nat)
    requires page > 0
  {
    |behind| == (if |f| % page == 0 then 0 else page - |f| % page) && forall i :: 0 <= i < |behind| ==> behind[i] == 0
  }

  /** Every file of write_out is accepted when it is mapped: one without messages never fills its last page. */
  lemma MappedIsAccepted(f: seq<Byte>, writer: Endian, a: seq<Slot>, es: seq<Entry>, size: Word32, depth: Word32,
                         behind: seq<Byte>, page: nat)
    requires size > 0 && depth > 0 && Placed(a, es, |es|, size, depth) && Representable(es)
    requires Written(f, writer, size, depth, a, Pool(es)) && page > 0 && page % 8 == 0 && Mapped(f, behind, page)
    ensures Opening(size, depth, a, Pool(es), behind).Accepted?
  {
    AcceptedIff(a, es, size, depth, behind);
    if es == [] {
      TablesRead(Little, StoreAll(writer, [MAGIC, size, depth]), TableWords(a), [], f, 3 * |a|);
      NotWholePages(|f|, page, |a|);
      assert behind[0] == 0;
    }
  }

  lemma NotWholePages(n: nat, page: nat, k: nat)
    requires n == 12 + 24 * k && page > 0 && page % 8 == 0
    ensures n % page != 0
  {
    var q, r := n / page, page / 8;
    assert page * q == 8 * (r * q);
    assert n == 8 * (r * q) + n % page;
  }

  /** The smallest such file: no message, one empty slot, no string bytes.  What follows it decides. */
  lemma EmptyCatalogReadsBehind()
    ensures Placed([EMPTY], [], 0, 1, 1) && Fits([EMPTY])
    ensures Opening(1, 1, [EMPTY], [], []) == Faulted && Opening(1, 1, [EMPTY], [], [0]).Accepted?
  {
    EmptyPlaced();
    OpeningEmpty(1, 1, [EMPTY], []);
    OpeningEmpty(1, 1, [EMPTY], [0]);
    assert [0 as Byte][0] == 0;
  }

  lemma EmptyPlaced()
    ensures Placed([EMPTY], [], 0, 1, 1) && Fits([EMPTY]) && MaxOffset([EMPTY], 1) == 0
  {
    forall b: nat, k: nat | b < 1 && k < 1 ensures SlotFree([EMPTY], [], 0, 1, b, k) {
      assert At(1, b, k) == 0;
    }
    TableFits([EMPTY], [], 1, 1);
  }

  function SetHashes(sets: seq<seq<Entry>>): (r: seq<seq<nat>>)
    ensures |r| == |sets|
  {
    seq(|sets|, i requires 0 <= i < |sets| => Hashes(sets[i]))
  }

  lemma {:induction false} HashesFlatten(sets: seq<seq<Entry>>)
    ensures Flatten(SetHashes(sets)) == Hashes(Flatten(sets))
  {
    if sets != [] {
      var n := |sets| - 1;
      HashesFlatten(sets[..n]);
      assert SetHashes(sets)[..n] == SetHashes(sets[..n]);
    }
  }

  /** The size search finds a table for the messages. */
  ghost predicate Searchable(es: seq<Entry>, total: nat) {
    var start := 1 + total / 5;
    (exists s: nat :: Affordable(Hashes(es), start, s)) && !Optimal(Hashes(es), start, UINT_MAX, 1)
  }

  lemma {:induction false} MaxLoadAtMost(hashes: seq<nat>, size: nat, n: nat)
    requires size > 0 && n <= size
    ensures MaxLoad(hashes, size, n) <= |hashes| + 1
  {
    if n > 0 {
      MaxLoadAtMost(hashes, size, n - 1);
    }
  }

  /** Any catalog whose first candidate table, were all messages in one bucket, stays below UINT_MAX slots. */
  lemma SearchableWhenSmall(es: seq<Entry>, total: nat)
    requires (|es| + 1) * (1 + total / 5) < UINT_MAX
    ensures Searchable(es, total)
  {
    var start := 1 + total / 5;
    MaxLoadAtMost(Hashes(es), start, start);
    MulMonotone(Depth(Hashes(es), start), |es| + 1, start);
    assert Affordable(Hashes(es), start, start);
    AreaAtLeast(Hashes(es), UINT_MAX);
  }

  /** write_out, but for read_old and the header file. */
  method WriteOut(writer: Endian, sets: seq<seq<Entry>>, total: nat)
    returns (f: seq<Byte>, ghost size: Word32, ghost depth: Word32, ghost a: seq<Slot>)
    requires Representable(Flatten(sets)) && Searchable(Flatten(sets), total)
    ensures var es := Flatten(sets);
      && Optimal(Hashes(es), 1 + total / 5, size, depth) && Placed(a, es, |es|, size, depth)
      && Written(f, writer, size, depth, a, Pool(es))
  {
    ghost var es := Flatten(sets);
    HashesFlatten(sets);
    var n, d := FindSize(SetHashes(sets), total);
    MulMonotone(1, n, d);
    MulMonotone(1, d, n);
    var table, pool := PlaceAll(Flatten(sets), n, d);
    TableFits(table[..], es, n, d);
    size, depth, a := n, d, table[..];
    f := WriteFile(writer, n, d, table[..], pool);
  }

  // ----- Lookup -----

  /** The catalog as a plain map from set and message numbers to texts. */
  function Meaning(es: seq<Entry>): map<(int, int), seq<Byte>> {
    if es == [] then map[]
    else var e := es[|es| - 1]; Meaning(es[..|es| - 1])[(e.setNumber, e.number) := e.text]
  }

  lemma {:induction false} MeaningOf(es: seq<Entry>, s: int, m: int)
    requires Unique(es)
    ensures (s, m) in Meaning(es) <==> exists j: nat :: Holds(es, s, m, j)
    ensures forall j: nat :: Holds(es, s, m, j) ==> (s, m) in Meaning(es) && Meaning(es)[(s, m)] == es[j].text
  {
    if es != [] {
      var n: nat := |es| - 1;
      MeaningOf(es[..n], s, m);
      forall j: nat | j < n ensures Holds(es[..n], s, m, j) <==> Holds(es, s, m, j) {
      }
      if (s, m) in Meaning(es) {
        if (s, m) in Meaning(es[..n]) {
          var j: nat :| Holds(es[..n], s, m, j);
          assert Holds(es, s, m, j);
        } else {
          assert Holds(es, s, m, n);
        }
      }
      forall j: nat | Holds(es, s, m, j)
        ensures (s, m) in Meaning(es) && Meaning(es)[(s, m)] == es[j].text
      {
        if j < n {
          assert Holds(es[..n], s, m, j);
        }
      }
    }
  }

  /** A lookup in the plain map. */
  function LookUp(meaning: map<(int, int), seq<Byte>>, setId: int, message: int, fallback: seq<Byte>): seq<Byte> {
    if (setId + 1, message) in meaning then meaning[(setId + 1, message)] else fallback
  }

  ghost predicate IsInt(x: int) { -0x8000_0000 <= x < 0x8000_0000 }

  /** catgets on a catalog that write_out built. */
  method Catgets(c: Catalog, setId: int, message: int, fallback: seq<Byte>, ghost es: seq<Entry>, ghost a: seq<Slot>)
    returns (r: seq<Byte>)
    requires IsInt(setId) && IsInt(message) && Unique(es) && Representable(es)
    requires c.size > 0 && c.depth == Depth(Hashes(es), c.size) && Placed(a, es, |es|, c.size, c.depth)
    requires Fits(a) && c.names == TableWords(a) && c.strings == Pool(es)
    ensures r == LookUp(Meaning(es), setId, message, fallback)
  {
    ghost var key := setId + 1;
    MeaningOf(es, key, message);
    var setNumber := WrapInt(setId + 1);
    if setNumber <= 0 || message < 0 {
      return fallback;
    }
    SlotsOfWords(a);
    DepthIs(Hashes(es), c.size);
    var hit := Probe(SlotsOf(c.names), c.size, c.depth, setNumber, message, es);
    if hit.None? {
      return fallback;
    }
    ghost var j: nat :| Holds(es, key, message, j);
    PoolString(es, j);
    return CString(c.strings, hit.value);
  }

  /**
   Whatever machine compiled the catalog and whatever machine reads it, a message that is in it
   is found with its text, and one that is not gives the caller's own string.  Only a catalog without
   messages may fail to open, and that not when a zero follows its file.
   */
  method CompileAndLookUp(writer: Endian, reader: Endian, sets: seq<seq<Entry>>, total: nat, behind: seq<Byte>,
                          setId: int, message: int, fallback: seq<Byte>) returns (r: Option<seq<Byte>>)
    requires var es := Flatten(sets); Unique(es) && Representable(es) && Searchable(es, total)
    requires IsInt(setId) && IsInt(message)
    ensures r.Some? ==> r.value == LookUp(Meaning(Flatten(sets)), setId, message, fallback)
    ensures Flatten(sets) != [] || ZeroFollows(behind) ==> r.Some?
  {
    ghost var es := Flatten(sets);
    var f, size, depth, a := WriteOut(writer, sets, total);
    AcceptedIff(a, es, size, depth, behind);
    var attempt := Open(reader, f, behind, writer, size, depth, a, Pool(es));
    if !attempt.Accepted? {
      return None;
    }
    var text := Catgets(attempt.catalog, setId, message, fallback, es, a);
    return Some(text);
  }

  predicate ZeroFollows(behind: seq<Byte>) { behind != [] && behind[0] == 0 }
}
