/**
 gencat as a whole: message files read, an old catalog merged in, and the result compiled, opened and
 looked up in.
 */
module CatalogUpdate {
  import opened Options
  import opened ByteOrder
  import opened CatalogTable
  import opened CatalogFile
  import opened CatalogLookup
  import opened CatalogInput
  import opened CatalogMerge

  type Texts = map<(int, int), seq<Byte>>

  // ----- The string space of a plain map -----

  ghost function Pick(m: Texts): (int, int)
    requires m != map[]
    ensures Pick(m) in m
  {
    var k :| k in m;
    k
  }

  /** All texts with their terminators. */
  ghost function Bytes(m: Texts): nat
    decreases |m|
  {
    if m == map[] then 0 else |m[Pick(m)]| + 1 + Bytes(m - {Pick(m)})
  }

  lemma {:induction false} BytesWithout(m: Texts, k: (int, int))
    requires k in m
    ensures Bytes(m) == |m[k]| + 1 + Bytes(m - {k})
    decreases |m|
  {
    var c := Pick(m);
    if c != k {
      BytesWithout(m - {c}, k);
      BytesWithout(m - {k}, c);
      assert m - {c} - {k} == m - {k} - {c};
    }
  }

  lemma {:induction false} PoolBytes(es: seq<Entry>)
    requires Unique(es)
    ensures |Pool(es)| == Bytes(Meaning(es))
  {
    if es != [] {
      var init, e := es[..|es| - 1], es[|es| - 1];
      var key := (e.setNumber, e.number);
      PoolBytes(init);
      MeaningOf(init, e.setNumber, e.number);
      assert Meaning(es) - {key} == Meaning(init);
      BytesWithout(Meaning(es), key);
    }
  }

  /** Every text of the first map is one of the others', under the same key. */
  ghost predicate From(m: Texts, newer: Texts, older: Texts) {
    forall k :: k in m ==> (k in newer && m[k] == newer[k]) || (k in older && m[k] == older[k])
  }

  lemma {:induction false} BytesFrom(m: Texts, newer: Texts, older: Texts)
    requires From(m, newer, older)
    ensures Bytes(m) <= Bytes(newer) + Bytes(older)
    decreases |m|
  {
    if m != map[] {
      var k := Pick(m);
      if k in newer && m[k] == newer[k] {
        BytesWithout(newer, k);
        BytesFrom(m - {k}, newer - {k}, older);
      } else {
        BytesWithout(older, k);
        BytesFrom(m - {k}, newer, older - {k});
      }
    }
  }

  // ----- Numbers of messages -----

  lemma {:induction false} CountOf(es: seq<Entry>)
    requires Unique(es)
    ensures |Meaning(es)| == |es|
  {
    if es != [] {
      var init, e := es[..|es| - 1], es[|es| - 1];
      CountOf(init);
      MeaningOf(init, e.setNumber, e.number);
      assert Meaning(es).Keys == Meaning(init).Keys + {(e.setNumber, e.number)};
    }
  }

  lemma Within<T>(a: set<T>, b: set<T>)
    requires a <= b
    ensures |a| <= |b|
  {
    assert b == a + (b - a);
  }

  /** A merge has no more messages than the two catalogs. */
  lemma MergedCount(newer: seq<Entry>, older: seq<Entry>, merged: seq<Entry>)
    requires Unique(newer) && Unique(older) && Unique(merged)
    requires Meaning(merged) == MergedMeaning(Meaning(newer), Meaning(older))
    ensures |merged| <= |newer| + |older|
  {
    CountOf(newer);
    CountOf(older);
    CountOf(merged);
    KeysMerged(Meaning(newer), Meaning(older));
  }

  lemma KeysMerged(newer: Texts, older: Texts)
    ensures |MergedMeaning(newer, older)| <= |newer| + |older|
  {
    var k, l := newer.Keys, older.Keys;
    Within(MergedMeaning(newer, older).Keys, k + l);
    Within(l - k, l);
    assert k + l == k + (l - k);
  }

  /** The entries placed in the first `k` slots. */
  ghost function Holders(es: seq<Entry>, size: nat, k: nat): set<nat>
    requires size > 0
  {
    set j: nat | j < |es| && SlotOf(es, size, j) < k
  }

  lemma {:induction false} AddedAtMost(before: seq<MessageSet>, a: seq<Slot>, es: seq<Entry>, size: nat, depth: nat, k: nat)
    requires size > 0 && Placed(a, es, |es|, size, depth) && k <= |a|
    ensures Added(before, a, k) <= |Holders(es, size, k)|
  {
    if k > 0 {
      AddedAtMost(before, a, es, size, depth, k - 1);
      var fewer, more := Holders(es, size, k - 1), Holders(es, size, k);
      if a[k - 1] != EMPTY {
        var j := SlotHolder(a, es, size, depth, k - 1);
        Within(fewer + {j}, more);
      } else {
        Within(fewer, more);
      }
    }
  }

  /** The numbers below `n`. */
  ghost function Below(n: nat): (r: set<nat>)
    ensures |r| == n && forall j: nat :: j in r <==> j < n
  {
    if n == 0 then {} else Below(n - 1) + {n - 1}
  }

  /** read_old adds no more messages than the old catalog has. */
  lemma AddedBound(before: seq<MessageSet>, a: seq<Slot>, es: seq<Entry>, size: nat, depth: nat)
    requires size > 0 && Placed(a, es, |es|, size, depth)
    ensures Added(before, a, |a|) <= |es|
  {
    AddedAtMost(before, a, es, size, depth, |a|);
    Within(Holders(es, size, |a|), Below(|es|));
  }

  // ----- Maps that a catalog can hold -----

  ghost predicate Storing(m: Texts) {
    forall s, n :: (s, n) in m ==> 0 < s < 0x8000_0000 && 0 <= n < 0x8000_0000 && 0 !in m[(s, n)]
  }

  lemma StoringIff(es: seq<Entry>)
    requires Unique(es) && |Pool(es)| < 0x1_0000_0000
    ensures Representable(es) <==> Storing(Meaning(es))
  {
    var m := Meaning(es);
    forall j: nat | j < |es|
      ensures (es[j].setNumber, es[j].number) in m && m[(es[j].setNumber, es[j].number)] == es[j].text
    {
      MeaningOf(es, es[j].setNumber, es[j].number);
      assert Holds(es, es[j].setNumber, es[j].number, j);
    }
    forall s, n | (s, n) in m
      ensures exists j: nat :: Holds(es, s, n, j) && m[(s, n)] == es[j].text
    {
      MeaningOf(es, s, n);
      var j: nat :| Holds(es, s, n, j);
      assert Holds(es, s, n, j) && m[(s, n)] == es[j].text;
    }
  }

  lemma {:induction false} NothingMeant(es: seq<Entry>)
    ensures Meaning(es) == map[] <==> es == []
  {
    if es != [] {
      assert (es[|es| - 1].setNumber, es[|es| - 1].number) in Meaning(es);
    }
  }

  /** The merged catalog can be compiled if a table has room for the messages of both, and the file for their strings. */
  lemma MergedFits(newer: seq<Entry>, older: seq<Entry>, merged: seq<Entry>, total: nat, most: nat)
    requires Unique(newer) && Unique(older) && Unique(merged) && Representable(newer) && Representable(older)
    requires Meaning(merged) == MergedMeaning(Meaning(newer), Meaning(older)) && total <= most
    requires |Pool(newer)| + |Pool(older)| < 0x1_0000_0000 && Room(|newer| + |older|, most)
    ensures Representable(merged) && Room(|merged|, total) && Searchable(merged, total)
  {
    MergedSize(newer, older, merged);
    MergedCount(newer, older, merged);
    MergedStoring(newer, older, merged);
    RoomSearched(merged, total, |newer| + |older|, most);
  }

  lemma MergedStoring(newer: seq<Entry>, older: seq<Entry>, merged: seq<Entry>)
    requires Unique(newer) && Unique(older) && Unique(merged) && Representable(newer) && Representable(older)
    requires Meaning(merged) == MergedMeaning(Meaning(newer), Meaning(older)) && |Pool(merged)| < 0x1_0000_0000
    ensures Representable(merged)
  {
    StoringIff(newer);
    StoringIff(older);
    StoringIff(merged);
    StoringMerge(Meaning(newer), Meaning(older));
  }

  lemma StoringMerge(newer: Texts, older: Texts)
    requires Storing(newer) && Storing(older)
    ensures Storing(MergedMeaning(newer, older))
  {
    var m := MergedMeaning(newer, older);
    forall k | k in m ensures (k in newer && m[k] == newer[k]) || (k in older && m[k] == older[k]) {
    }
  }

  lemma MergedSize(newer: seq<Entry>, older: seq<Entry>, merged: seq<Entry>)
    requires Unique(newer) && Unique(older) && Unique(merged)
    requires Meaning(merged) == MergedMeaning(Meaning(newer), Meaning(older))
    ensures |Pool(merged)| <= |Pool(newer)| + |Pool(older)|
  {
    PoolBytes(newer);
    PoolBytes(older);
    PoolBytes(merged);
    BytesFrom(Meaning(merged), Meaning(newer), Meaning(older));
  }

  /** Enough room for a table of the messages, were they all in one bucket. */
  predicate Room(messages: nat, total: nat) { (messages + 1) * (1 + total / 5) < UINT_MAX }

  lemma RoomSearched(es: seq<Entry>, total: nat, messages: nat, most: nat)
    requires Room(messages, most) && |es| <= messages && total <= most
    ensures Room(|es|, total) && Searchable(es, total)
  {
    MulMonotone(|es| + 1, messages + 1, 1 + total / 5);
    MulMonotone(1 + total / 5, 1 + most / 5, messages + 1);
    SearchableWhenSmall(es, total);
  }

  // ----- Update -----

  /** A file with the bytes that can be read behind its end. */
  datatype File = File(bytes: seq<Byte>, behind: seq<Byte>)

  /** What is known of a catalog file: who wrote it, its dimensions and table, and the messages in it. */
  datatype Compiled = Compiled(writer: Endian, size: Word32, depth: Word32, slots: seq<Slot>, es: seq<Entry>) {
    ghost predicate Describes(f: seq<Byte>) {
      && size > 0 && depth > 0 && Unique(es) && Representable(es) && Placed(slots, es, |es|, size, depth)
      && Written(f, writer, size, depth, slots, Pool(es))
    }
  }

  /** The messages of the output file there was, if gencat is to keep them. */
  ghost function Older(was: Option<File>, known: Compiled): seq<Entry> { if was.None? then [] else known.es }

  ghost predicate Known(was: Option<File>, known: Compiled) { was.Some? ==> known.Describes(was.value.bytes) }

  /** The entries that write_out would compile from the sets. */
  function New(sets: seq<MessageSet>): seq<Entry> { Flatten(Entries(sets)) }

  lemma OlderSound(was: Option<File>, known: Compiled)
    requires Known(was, known)
    ensures Unique(Older(was, known)) && Representable(Older(was, known))
  {
  }

  lemma NewUnique(sets: seq<MessageSet>)
    requires OrderedSets(sets)
    ensures Unique(New(sets))
  {
    EntriesFound(sets);
  }

  /** New and old messages together are within what the tables can hold. */
  ghost predicate Limits(newer: seq<Entry>, total: nat, older: seq<Entry>) {
    && Representable(newer) && |Pool(newer)| + |Pool(older)| < 0x1_0000_0000
    && Room(|newer| + |older|, total + |older|)
  }

  /** A catalog that is sure to open: one with messages, or one whose file is followed by a zero. */
  predicate Opens(meaning: Texts, behind: seq<Byte>) { meaning != map[] || ZeroFollows(behind) }

  /** read_old from the file itself. */
  method MergeFile(machine: Endian, sets: seq<MessageSet>, total: nat, f: File, ghost known: Compiled)
    returns (read: bool, entries: seq<seq<Entry>>, total': nat)
    requires OrderedSets(sets) && known.Describes(f.bytes)
    ensures Opens(Meaning(known.es), f.behind) ==> read
    ensures read ==> Unique(Flatten(entries)) && Meaning(Flatten(entries)) == MergedMeaning(Meaning(New(sets)), Meaning(known.es))
    ensures read ==> total' <= total + |known.es|
  {
    AcceptedIff(known.slots, known.es, known.size, known.depth, f.behind);
    NothingMeant(known.es);
    var attempt := Open(machine, f.bytes, f.behind, known.writer, known.size, known.depth, known.slots, Pool(known.es));
    if !attempt.Accepted? {
      return false, [], total;
    }
    AddedBound(sets, known.slots, known.es, known.size, known.depth);
    var sets';
    sets', total' := ReadOld(sets, total, attempt.catalog, known.slots, known.es);
    read, entries := true, Entries(sets');
  }

  /** The start of write_out: an old catalog merged in, if there is one to keep. */
  method MergeOld(machine: Endian, sets: seq<MessageSet>, total: nat, was: Option<File>, ghost known: Compiled)
    returns (read: bool, entries: seq<seq<Entry>>, total': nat)
    requires OrderedSets(sets) && Known(was, known)
    ensures was.None? || Opens(Meaning(known.es), was.value.behind) ==> read
    ensures read ==> Unique(Flatten(entries)) && total' <= total + |Older(was, known)|
    ensures read ==> Meaning(Flatten(entries)) == MergedMeaning(Meaning(New(sets)), Meaning(Older(was, known)))
  {
    if was.None? {
      EntriesFound(sets);
      assert MergedMeaning(Meaning(New(sets)), map[]) == Meaning(New(sets));
      return true, Entries(sets), total;
    }
    read, entries, total' := MergeFile(machine, sets, total, was.value, known);
  }

  /**
   The merged messages compiled on one machine and looked up in on another.  The program does not check
   its limits; no result stands for leaving them.
   */
  method Recompile(machine: Endian, reader: Endian, entries: seq<seq<Entry>>, total: nat, behind: seq<Byte>, setId: int,
                   message: int, fallback: seq<Byte>, ghost newer: seq<Entry>, ghost older: seq<Entry>, ghost was: nat)
    returns (r: Option<seq<Byte>>)
    requires Unique(newer) && Unique(older) && Unique(Flatten(entries)) && Representable(older) && total <= was + |older|
    requires Meaning(Flatten(entries)) == MergedMeaning(Meaning(newer), Meaning(older)) && IsInt(setId) && IsInt(message)
    ensures var merged := MergedMeaning(Meaning(newer), Meaning(older));
      && (r.Some? ==> r.value == LookUp(merged, setId, message, fallback))
      && (Limits(newer, was, older) && Opens(merged, behind) ==> r.Some?)
  {
    var es := Flatten(entries);
    if Limits(newer, was, older) {
      MergedFits(newer, older, es, total, was + |older|);
    }
    if !Representable(es) || !Room(|es|, total) {
      return None;
    }
    SearchableWhenSmall(es, total);
    NothingMeant(es);
    r := CompileAndLookUp(machine, reader, entries, total, behind, setId, message, fallback);
  }

  /** write_out: an old catalog opened and merged in, and the result written for another machine to look up in. */
  method Update(machine: Endian, reader: Endian, sets: seq<MessageSet>, total: nat, was: Option<File>, ghost known: Compiled,
                behind: seq<Byte>, setId: int, message: int, fallback: seq<Byte>) returns (r: Option<seq<Byte>>)
    requires OrderedSets(sets) && Known(was, known) && IsInt(setId) && IsInt(message)
    ensures Answers(New(sets), total, was, known, behind, setId, message, fallback, r)
  {
    OlderSound(was, known);
    NewUnique(sets);
    var read, entries, total' := MergeOld(machine, sets, total, was, known);
    if !read {
      return None;
    }
    r := Recompile(machine, reader, entries, total', behind, setId, message, fallback, New(sets), Older(was, known), total);
  }

  /** An answer is the lookup in the merge, and there is one within the limits whenever both files are sure to open. */
  ghost predicate Answers(newer: seq<Entry>, total: nat, was: Option<File>, known: Compiled, behind: seq<Byte>,
                          setId: int, message: int, fallback: seq<Byte>, r: Option<seq<Byte>>) {
    var older := Older(was, known);
    var merged := MergedMeaning(Meaning(newer), Meaning(older));
    && (r.Some? ==> r.value == LookUp(merged, setId, message, fallback))
    && (Limits(newer, total, older) && (was.None? || Opens(Meaning(older), was.value.behind)) && Opens(merged, behind) ==> r.Some?)
  }

  /**
   gencat, over an old output file or a new one: the input read, the old catalog merged in, the result
   compiled, opened and looked up in.  The input determines the state it is read to.
   */
  method Gencat(machine: Endian, reader: Endian, input: seq<Directive>, was: Option<File>, ghost known: Compiled,
                behind: seq<Byte>, setId: int, message: int, fallback: seq<Byte>) returns (r: Option<seq<Byte>>, ghost s: State)
    requires Known(was, known) && IsInt(setId) && IsInt(message)
    ensures Reads(input, s) && Answers(New(s.sets), s.total, was, known, behind, setId, message, fallback, r)
  {
    var source := new Source();
    ghost var states := source.ReadAll(input);
    s := source.View();
    r := Update(machine, reader, source.sets, source.total, was, known, behind, setId, message, fallback);
  }
}
