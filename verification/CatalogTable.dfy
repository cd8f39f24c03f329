/**
 The hash table of a message catalog: the size search and the placement in gencat's
 write_out, and the lookup in catgets.

 An entry is hashed by the product of its set and message numbers.  Buckets that overflow
 continue in further planes of the table, each `size` slots long.
 */
module CatalogTable {
  import opened Options
  import opened Arith
  import opened ByteOrder

  const UINT_MAX: nat := 0xFFFF_FFFF

  /** The product converted to size_t, as both gencat and catgets reduce it modulo the size. */
  function Hash(setNumber: int, number: int): nat {
    var r := WrapInt(setNumber * number);
    if r < 0 then r + 0x1_0000_0000_0000_0000 else r
  }

  // ----- Bucket loads -----

  /** How many of the hashes fall in bucket `b`. */
  function Load(hashes: seq<nat>, size: nat, b: nat): (n: nat)
    requires size > 0
    ensures n <= |hashes|
  {
    if hashes == [] then 0
    else Load(hashes[..|hashes| - 1], size, b) + if hashes[|hashes| - 1] % size == b then 1 else 0
  }

  /** `d` is the largest bucket load, or one if no bucket holds anything. */
  ghost predicate IsDepth(hashes: seq<nat>, size: nat, d: nat)
    requires size > 0
  {
    && d >= 1 && (forall b: nat :: b < size ==> Load(hashes, size, b) <= d)
    && (d == 1 || exists b: nat :: b < size && Load(hashes, size, b) == d)
  }

  /** The largest load among the first `n` buckets, at least one. */
  function MaxLoad(hashes: seq<nat>, size: nat, n: nat): (d: nat)
    requires size > 0 && n <= size
    ensures d >= 1
  {
    if n == 0 then 1
    else var d := MaxLoad(hashes, size, n - 1); var l := Load(hashes, size, n - 1); if l > d then l else d
  }

  function Depth(hashes: seq<nat>, size: nat): nat
    requires size > 0
  {
    MaxLoad(hashes, size, size)
  }

  /** The space a table of the given size needs. */
  function Area(hashes: seq<nat>, size: nat): nat
    requires size > 0
  {
    Depth(hashes, size) * size
  }

  lemma {:induction false} MaxLoadBounds(hashes: seq<nat>, size: nat, n: nat)
    requires size > 0 && n <= size
    ensures forall b: nat :: b < n ==> Load(hashes, size, b) <= MaxLoad(hashes, size, n)
    ensures MaxLoad(hashes, size, n) == 1 || exists b: nat :: b < n && Load(hashes, size, b) == MaxLoad(hashes, size, n)
  {
    if n > 0 {
      MaxLoadBounds(hashes, size, n - 1);
      var k: nat := n - 1;
      assert Load(hashes, size, k) <= MaxLoad(hashes, size, n);
    }
  }

  lemma DepthIs(hashes: seq<nat>, size: nat)
    requires size > 0
    ensures IsDepth(hashes, size, Depth(hashes, size))
  {
    MaxLoadBounds(hashes, size, size);
  }

  lemma {:induction false} LoadMonotone(hashes: seq<nat>, size: nat, b: nat, k: nat)
    requires size > 0 && k <= |hashes|
    ensures Load(hashes[..k], size, b) <= Load(hashes, size, b)
    decreases |hashes| - k
  {
    if k < |hashes| {
      assert hashes[..k + 1] == hashes[..k] + [hashes[k]];
      LoadMonotone(hashes, size, b, k + 1);
    } else {
      assert hashes[..k] == hashes;
    }
  }

  // ----- The size search -----

  /** The messages of all sets in the order the nested loops visit them. */
  function Flatten<T>(sets: seq<seq<T>>): seq<T> {
    if sets == [] then [] else Flatten(sets[..|sets| - 1]) + sets[|sets| - 1]
  }

  /** Counters that never exceed the loads of the hashes seen, and a depth that one of them reaches. */
  ghost predicate Counting(deep: seq<nat>, seen: seq<nat>, size: nat, depth: nat, complete: bool)
    requires size > 0
  {
    && |deep| == size && depth >= 1
    && (forall b :: 0 <= b < size ==> deep[b] <= depth && deep[b] <= Load(seen, size, b))
    && (complete ==> forall b :: 0 <= b < size ==> deep[b] == Load(seen, size, b))
    && (depth == 1 || exists b :: 0 <= b < size && deep[b] == depth)
  }

  /** Counting goes on soundly over hashes that a `break` skipped. */
  lemma {:induction false} SkipHashes(deep: seq<nat>, seen: seq<nat>, more: seq<nat>, size: nat, depth: nat)
    requires size > 0 && Counting(deep, seen, size, depth, false)
    ensures Counting(deep, seen + more, size, depth, false)
  {
    forall b | 0 <= b < size
      ensures deep[b] <= Load(seen + more, size, b)
    {
      LoadMonotone(seen + more, size, b, |seen|);
      assert (seen + more)[..|seen|] == seen;
    }
  }

  lemma CountOne(deep: seq<nat>, seen: seq<nat>, h: nat, size: nat, depth: nat, complete: bool)
    requires size > 0 && Counting(deep, seen, size, depth, complete)
    ensures var n := deep[h % size] + 1;
      Counting(deep[h % size := n], seen + [h], size, if n > depth then n else depth, complete)
  {
    var b := h % size;
    forall c | 0 <= c < size
      ensures Load(seen + [h], size, c) == Load(seen, size, c) + if c == b then 1 else 0
    {
    }
    var n := deep[b] + 1;
    var deep' := deep[b := n];
    if n > depth {
      assert deep'[b] == n;
    } else if depth != 1 {
      var a :| 0 <= a < size && deep[a] == depth;
      assert deep'[a] == depth;
    }
  }

  lemma MulMonotone(a: nat, b: nat, c: nat)
    requires a <= b
    ensures a * c <= b * c
  {
  }

  /** One message counted. */
  method Count(h: nat, size: nat, deep: array<nat>, depth0: nat, ghost seen: seq<nat>, ghost complete: bool)
    returns (depth: nat)
    requires size > 0 && Counting(deep[..], seen, size, depth0, complete)
    modifies deep
    ensures Counting(deep[..], seen + [h], size, depth, complete) && depth >= depth0
  {
    CountOne(deep[..], seen, h, size, depth0, complete);
    var b := h % size;
    ghost var before := deep[..];
    deep[b] := deep[b] + 1;
    assert deep[..] == before[b := before[b] + 1];
    depth := if deep[b] > depth0 then deep[b] else depth0;
  }

  /** The inner loop over one set's messages, left early once the size cannot win. */
  method MeasureSet(hashes: seq<nat>, size: nat, deep: array<nat>, depth0: nat, bestTotal: nat,
                    ghost seen: seq<nat>, ghost complete0: bool) returns (depth: nat, ghost complete: bool)
    requires size > 0 && Counting(deep[..], seen, size, depth0, complete0)
    requires complete0 || depth0 * size > bestTotal
    modifies deep
    ensures Counting(deep[..], seen + hashes, size, depth, complete)
    ensures complete || depth * size > bestTotal
  {
    depth, complete := depth0, complete0;
    assert seen + hashes[..0] == seen;
    for i := 0 to |hashes|
      invariant Counting(deep[..], seen + hashes[..i], size, depth, complete)
      invariant complete || depth * size > bestTotal
    {
      var d := Count(hashes[i], size, deep, depth, seen + hashes[..i], complete);
      assert seen + hashes[..i] + [hashes[i]] == seen + hashes[..i + 1];
      MulMonotone(depth, d, size);
      var deeper := d > depth;
      depth := d;
      if deeper && depth * size > bestTotal {
        complete := false;
        SkipHashes(deep[..], seen + hashes[..i + 1], hashes[i + 1..], size, depth);
        assert seen + hashes[..i + 1] + hashes[i + 1..] == seen + hashes;
        return;
      }
    }
    assert hashes[..|hashes|] == hashes;
  }

  /** One candidate size: its depth, or proof enough that it cannot win. */
  method Measure(sets: seq<seq<nat>>, size: nat, bestTotal: nat) returns (depth: nat)
    requires size > 0
    ensures depth == Depth(Flatten(sets), size) || bestTotal < depth * size <= Area(Flatten(sets), size)
  {
    var deep := new nat[size](i => 0);
    depth := 1;
    ghost var complete := true;
    for s := 0 to |sets|
      invariant Counting(deep[..], Flatten(sets[..s]), size, depth, complete)
      invariant complete || depth * size > bestTotal
    {
      assert sets[..s + 1][..s] == sets[..s];
      depth, complete := MeasureSet(sets[s], size, deep, depth, bestTotal, Flatten(sets[..s]), complete);
    }
    assert sets[..|sets|] == sets;
    CountedDepth(deep[..], Flatten(sets), size, depth, complete);
  }

  lemma CountedDepth(deep: seq<nat>, hashes: seq<nat>, size: nat, depth: nat, complete: bool)
    requires size > 0 && Counting(deep, hashes, size, depth, complete)
    ensures depth <= Depth(hashes, size) && (complete ==> depth == Depth(hashes, size))
    ensures depth * size <= Area(hashes, size)
  {
    var d := Depth(hashes, size);
    DepthIs(hashes, size);
    if depth > 1 {
      var b :| 0 <= b < size && deep[b] == depth;
      assert Load(hashes, size, b) <= d;
    }
    MulMonotone(depth, d, size);
  }

  lemma AreaAtLeast(hashes: seq<nat>, size: nat)
    requires size > 0
    ensures Area(hashes, size) >= size
  {
    MulMonotone(1, Depth(hashes, size), size);
  }

  /** The size needs no more space than any other from `start` up, and less than any larger one. */
  ghost predicate Optimal(hashes: seq<nat>, start: nat, size: nat, depth: nat)
    requires start > 0
  {
    && size >= start && depth == Depth(hashes, size)
    && forall s: nat :: s >= start ==>
      Area(hashes, s) >= Area(hashes, size) && (s > size ==> Area(hashes, s) > Area(hashes, size))
  }

  ghost predicate Affordable(hashes: seq<nat>, start: nat, s: nat)
    requires start > 0
  {
    s >= start && Area(hashes, s) <= UINT_MAX
  }

  /** The best size below `act`, if any was affordable. */
  ghost predicate Best(hashes: seq<nat>, start: nat, act: nat, found: bool, total: nat, size: nat, depth: nat)
    requires start > 0
  {
    && act >= start && total <= UINT_MAX && size > 0 && depth > 0
    && (!found ==> total == UINT_MAX && size == UINT_MAX)
    && (!found ==> forall s: nat :: start <= s < act ==> Area(hashes, s) > UINT_MAX)
    && (found ==> start <= size < act && depth == Depth(hashes, size) && total == Area(hashes, size))
    && (found ==> forall s: nat :: start <= s < act ==> Area(hashes, s) >= total && (s > size ==> Area(hashes, s) > total))
  }

  /** Once the sizes exceed the best area, the best so far is the best of all. */
  lemma BestOfAll(hashes: seq<nat>, start: nat, act: nat, found: bool, total: nat, size: nat, depth: nat)
    requires start > 0 && Best(hashes, start, act, found, total, size, depth) && act > total
    ensures found ==> Affordable(hashes, start, size) && Optimal(hashes, start, size, depth)
    ensures !found ==> forall s: nat :: !Affordable(hashes, start, s)
    ensures found && size == UINT_MAX ==> depth == 1
    ensures found && size != UINT_MAX ==> !Optimal(hashes, start, UINT_MAX, 1)
  {
    forall s: nat | s >= act ensures Area(hashes, s) > total {
      AreaAtLeast(hashes, s);
    }
    if found && size == UINT_MAX && depth > 1 {
      MulMonotone(2, depth, size);
    }
    if found {
      AreaAtLeast(hashes, size);
    }
  }

  /**
   The `while` loop of write_out that looks for the optimal size.  Any catalog with an affordable
   size gets the optimal one, unless that is UINT_MAX itself, which doubles as "none found".
   */
  method FindSize(sets: seq<seq<nat>>, total: nat) returns (size: nat, depth: nat)
    ensures 0 < size <= UINT_MAX && depth > 0
    ensures var hashes, start := Flatten(sets), 1 + total / 5;
      if (exists s: nat :: Affordable(hashes, start, s)) && !Optimal(hashes, start, UINT_MAX, 1)
      then Optimal(hashes, start, size, depth) && size * depth <= UINT_MAX
      else size == 1 && depth == 1
  {
    ghost var hashes, start := Flatten(sets), 1 + total / 5;
    var bestTotal: nat, bestSize: nat, bestDepth: nat := UINT_MAX, UINT_MAX, UINT_MAX;
    var act := 1 + total / 5;
    ghost var found := false;
    while act <= bestTotal
      invariant Best(hashes, start, act, found, bestTotal, bestSize, bestDepth)
      decreases UINT_MAX - act
    {
      var d := Measure(sets, act, bestTotal);
      if d * act <= bestTotal {
        bestTotal, bestSize, bestDepth := d * act, act, d;
        found := true;
      }
      act := act + 1;
    }
    BestOfAll(hashes, start, act, found, bestTotal, bestSize, bestDepth);
    if bestSize == UINT_MAX {
      size, depth := 1, 1;
    } else {
      AreaAtLeast(hashes, bestSize);
      size, depth := bestSize, bestDepth;
    }
  }

  lemma {:induction false} NoLoad(size: nat, n: nat)
    requires size > 0 && n <= size
    ensures MaxLoad([], size, n) == 1
  {
    if n > 0 {
      NoLoad(size, n - 1);
    }
  }

  /** A catalog whose optimal size is the sentinel: every line was refused, and there were 5 * (UINT_MAX - 1) of them. */
  lemma SentinelIsOptimal(total: nat)
    requires total == 5 * (UINT_MAX - 1)
    ensures Affordable([], 1 + total / 5, UINT_MAX) && Optimal([], 1 + total / 5, UINT_MAX, 1)
  {
    forall s: nat | s >= UINT_MAX ensures Area([], s) == s {
      NoLoad(s, s);
    }
    assert Area([], UINT_MAX) == UINT_MAX;
    NoLoad(UINT_MAX, UINT_MAX);
  }

  // ----- Placement -----

  /** A message with the numbers stored for it; texts are C strings. */
  datatype Entry = Entry(setNumber: int, number: int, text: seq<Byte>)

  /** Three words of the table. */
  datatype Slot = Slot(setNumber: int, number: int, offset: nat)

  const EMPTY: Slot := Slot(0, 0, 0)

  function Hashes(es: seq<Entry>): (h: seq<nat>)
    ensures |h| == |es|
  {
    seq(|es|, i requires 0 <= i < |es| => Hash(es[i].setNumber, es[i].number))
  }

  /** The string space: every text with its terminator. */
  function Pool(es: seq<Entry>): seq<Byte> {
    if es == [] then [] else Pool(es[..|es| - 1]) + es[|es| - 1].text + [0]
  }

  function Offset(es: seq<Entry>, j: nat): nat
    requires j <= |es|
  {
    |Pool(es[..j])|
  }

  /** Slot `b` of plane `k`. */
  function At(size: nat, b: nat, k: nat): nat { b + size * k }

  lemma AtInjective(size: nat, b: nat, k: nat, c: nat, l: nat)
    requires b < size && c < size && At(size, b, k) == At(size, c, l)
    ensures b == c && k == l
  {
    DivUnique(At(size, b, k), size, k, b);
    DivUnique(At(size, c, l), size, l, c);
  }

  lemma AtBound(size: nat, depth: nat, b: nat, k: nat)
    requires b < size && k < depth
    ensures At(size, b, k) < size * depth
  {
    MulMonotone(k + 1, depth, size);
  }

  function Bucket(es: seq<Entry>, size: nat, j: nat): (b: nat)
    requires size > 0 && j < |es|
    ensures b < size
  {
    Hash(es[j].setNumber, es[j].number) % size
  }

  /** The plane entry `j` is put in: the number of entries of its bucket before it. */
  function Plane(es: seq<Entry>, size: nat, j: nat): nat
    requires size > 0 && j < |es|
  {
    Load(Hashes(es)[..j], size, Bucket(es, size, j))
  }

  function SlotOf(es: seq<Entry>, size: nat, j: nat): nat
    requires size > 0 && j < |es|
  {
    At(size, Bucket(es, size, j), Plane(es, size, j))
  }

  lemma LoadNext(es: seq<Entry>, size: nat, j: nat, b: nat)
    requires size > 0 && j < |es|
    ensures Load(Hashes(es)[..j + 1], size, b) == Load(Hashes(es)[..j], size, b) + if Bucket(es, size, j) == b then 1 else 0
  {
    var h := Hashes(es);
    assert h[..j + 1] == h[..j] + [h[j]];
  }

  /** Entries placed before `n` lie below the first free plane of their bucket. */
  lemma PlaneBelow(es: seq<Entry>, size: nat, j: nat, n: nat)
    requires size > 0 && j < n <= |es|
    ensures Plane(es, size, j) < Load(Hashes(es)[..n], size, Bucket(es, size, j))
  {
    var h, b := Hashes(es), Bucket(es, size, j);
    LoadNext(es, size, j, b);
    LoadMonotone(h[..n], size, b, j + 1);
    assert h[..n][..j + 1] == h[..j + 1];
  }

  /** Every occupied plane of a bucket holds some entry. */
  lemma {:induction false} HolderOf(es: seq<Entry>, size: nat, n: nat, b: nat, k: nat) returns (j: nat)
    requires size > 0 && n <= |es| && b < size && k < Load(Hashes(es)[..n], size, b)
    ensures j < n && Bucket(es, size, j) == b && Plane(es, size, j) == k
  {
    LoadNext(es, size, n - 1, b);
    if k < Load(Hashes(es)[..n - 1], size, b) {
      j := HolderOf(es, size, n - 1, b, k);
    } else {
      j := n - 1;
    }
  }

  /** The first `n` entries are in place and every other slot is free. */
  ghost predicate Placed(a: seq<Slot>, es: seq<Entry>, n: nat, size: nat, depth: nat)
    requires size > 0 && n <= |es|
  {
    && |a| == size * depth
    && (forall b: nat, k: nat :: b < size && k < depth ==> SlotFree(a, es, n, size, b, k))
    && (forall j: nat :: j < n ==> SlotFilled(a, es, size, j))
  }

  ghost predicate SlotFilled(a: seq<Slot>, es: seq<Entry>, size: nat, j: nat)
    requires size > 0 && j < |es|
  {
    SlotOf(es, size, j) < |a| && a[SlotOf(es, size, j)] == Slot(es[j].setNumber, es[j].number, Offset(es, j))
  }

  ghost predicate SlotFree(a: seq<Slot>, es: seq<Entry>, n: nat, size: nat, b: nat, k: nat)
    requires size > 0 && n <= |es|
  {
    && At(size, b, k) < |a|
    && (a[At(size, b, k)].setNumber == 0 <==> k >= Load(Hashes(es)[..n], size, b))
    && (k >= Load(Hashes(es)[..n], size, b) ==> a[At(size, b, k)] == EMPTY)
  }

  /** Writing entry `n` at the first free plane of its bucket keeps everything else. */
  lemma PlaceOne(a: seq<Slot>, es: seq<Entry>, n: nat, size: nat, depth: nat)
    requires size > 0 && n < |es| && Placed(a, es, n, size, depth) && es[n].setNumber != 0
    requires Plane(es, size, n) < depth
    ensures SlotOf(es, size, n) < |a|
    ensures Placed(a[SlotOf(es, size, n) := Slot(es[n].setNumber, es[n].number, Offset(es, n))], es, n + 1, size, depth)
  {
    var i := SlotOf(es, size, n);
    AtBound(size, depth, Bucket(es, size, n), Plane(es, size, n));
    var a' := a[i := Slot(es[n].setNumber, es[n].number, Offset(es, n))];
    var next := n + 1;
    forall b: nat, k: nat | b < size && k < depth
      ensures SlotFree(a', es, next, size, b, k)
    {
      assert SlotFree(a, es, n, size, b, k);
      LoadNext(es, size, n, b);
      if At(size, b, k) == i {
        AtInjective(size, b, k, Bucket(es, size, n), Plane(es, size, n));
      }
    }
    forall j: nat | j < n + 1
      ensures SlotFilled(a', es, size, j)
    {
      if j < n {
        assert SlotFilled(a, es, size, j);
        PlaneBelow(es, size, j, n);
        if SlotOf(es, size, j) == i {
          AtInjective(size, Bucket(es, size, j), Plane(es, size, j), Bucket(es, size, n), Plane(es, size, n));
        }
      }
    }
  }

  /** The probe of write_out: the first free plane, which lies inside the table. */
  method FreeSlot(a: array<Slot>, e: Entry, size: nat, ghost es: seq<Entry>, ghost n: nat, ghost depth: nat) returns (idx: nat)
    requires size > 0 && n < |es| && es[n] == e && Placed(a[..], es, n, size, depth) && Plane(es, size, n) < depth
    ensures idx == SlotOf(es, size, n) < a.Length
  {
    ghost var b, k := Bucket(es, size, n), 0;
    idx := Hash(e.setNumber, e.number) % size;
    assert SlotFree(a[..], es, n, size, b, 0);
    while a[idx].setNumber != 0
      invariant k <= Plane(es, size, n) && idx == At(size, b, k) < a.Length && SlotFree(a[..], es, n, size, b, k)
      decreases Plane(es, size, n) - k
    {
      idx := idx + size;
      k := k + 1;
      assert SlotFree(a[..], es, n, size, b, k);
    }
  }

  ghost predicate Storable(es: seq<Entry>) { forall j :: 0 <= j < |es| ==> es[j].setNumber != 0 }

  /** Depth is enough for every entry, so probing never leaves the table. */
  lemma PlaneInDepth(es: seq<Entry>, size: nat, j: nat)
    requires size > 0 && j < |es|
    ensures Plane(es, size, j) < Depth(Hashes(es), size)
  {
    PlaneBelow(es, size, j, |es|);
    assert Hashes(es)[..|es|] == Hashes(es);
    DepthIs(Hashes(es), size);
    assert Load(Hashes(es), size, Bucket(es, size, j)) <= Depth(Hashes(es), size);
  }

  /** The placement loops of write_out. */
  method PlaceAll(es: seq<Entry>, size: nat, depth: nat) returns (a: array<Slot>, pool: seq<Byte>)
    requires size > 0 && depth == Depth(Hashes(es), size) && Storable(es)
    ensures fresh(a) && Placed(a[..], es, |es|, size, depth) && pool == Pool(es)
  {
    a := new Slot[size * depth](i => EMPTY);
    pool := [];
    forall b: nat, k: nat | b < size && k < depth
      ensures SlotFree(a[..], es, 0, size, b, k)
    {
      AtBound(size, depth, b, k);
    }
    for n := 0 to |es|
      invariant Placed(a[..], es, n, size, depth) && pool == Pool(es[..n])
    {
      PlaneInDepth(es, size, n);
      PlaceOne(a[..], es, n, size, depth);
      var idx := FreeSlot(a, es[n], size, es, n, depth);
      ghost var before := a[..];
      a[idx] := Slot(es[n].setNumber, es[n].number, |pool|);
      assert a[..] == before[idx := Slot(es[n].setNumber, es[n].number, |pool|)];
      assert es[..n + 1][..n] == es[..n];
      pool := pool + es[n].text + [0];
    }
    assert es[..|es|] == es;
  }

  // ----- Lookup -----

  ghost predicate Unique(es: seq<Entry>) {
    forall i, j :: 0 <= i < j < |es| ==> es[i].setNumber != es[j].setNumber || es[i].number != es[j].number
  }

  ghost predicate Holds(es: seq<Entry>, setNumber: int, number: int, j: nat) {
    j < |es| && es[j].setNumber == setNumber && es[j].number == number
  }

  /** What plane `k` of the bucket says about a key: the entry found there, if it is the key's. */
  lemma ProbeSlot(a: seq<Slot>, es: seq<Entry>, size: nat, depth: nat, setNumber: int, number: int, k: nat)
    requires size > 0 && Placed(a, es, |es|, size, depth) && setNumber != 0 && k < depth
    ensures var i := At(size, Hash(setNumber, number) % size, k);
      i < |a| && (a[i].setNumber == setNumber && a[i].number == number <==>
        exists j: nat :: Holds(es, setNumber, number, j) && Plane(es, size, j) == k)
      && forall j: nat :: Holds(es, setNumber, number, j) && Plane(es, size, j) == k ==> a[i].offset == Offset(es, j)
  {
    var b: nat := Hash(setNumber, number) % size;
    var i := At(size, b, k);
    assert SlotFree(a, es, |es|, size, b, k);
    forall j: nat | Holds(es, setNumber, number, j) && Plane(es, size, j) == k
      ensures a[i] == Slot(setNumber, number, Offset(es, j))
    {
      assert SlotFilled(a, es, size, j);
    }
    if a[i].setNumber == setNumber && a[i].number == number {
      var j := HolderOf(es, size, |es|, b, k);
      assert SlotFilled(a, es, size, j);
      assert Holds(es, setNumber, number, j);
    }
  }

  /** The loop of catgets: the offset of the string, or nothing. */
  method Probe(a: seq<Slot>, size: nat, depth: nat, setNumber: int, number: int, ghost es: seq<Entry>)
    returns (r: Option<nat>)
    requires size > 0 && depth > 0 && setNumber != 0 && Unique(es)
    requires Placed(a, es, |es|, size, depth) && depth == Depth(Hashes(es), size)
    ensures r.None? <==> forall j: nat :: !Holds(es, setNumber, number, j)
    ensures forall j: nat :: Holds(es, setNumber, number, j) ==> r == Some(Offset(es, j))
  {
    var idx := Hash(setNumber, number) % size;
    ghost var b := idx;
    var cnt := 0;
    while cnt < depth
      invariant cnt <= depth && idx == At(size, b, cnt)
      invariant forall j: nat :: Holds(es, setNumber, number, j) ==> Plane(es, size, j) >= cnt
    {
      ProbeSlot(a, es, size, depth, setNumber, number, cnt);
      if a[idx].setNumber == setNumber && a[idx].number == number {
        ghost var j: nat :| Holds(es, setNumber, number, j) && Plane(es, size, j) == cnt;
        assert Holds(es, setNumber, number, j);
        return Some(a[idx].offset);
      }
      idx := idx + size;
      cnt := cnt + 1;
    }
    forall j: nat | Holds(es, setNumber, number, j) ensures false {
      PlaneInDepth(es, size, j);
    }
    return None;
  }
}
