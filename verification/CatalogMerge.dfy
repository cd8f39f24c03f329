/**
 gencat without --new: read_old merges the catalog already in the output file into the
 sets read from the input, and write_out compiles the result.
 */
module CatalogMerge {
  import opened Options
  import opened ByteOrder
  import opened CatalogTable
  import opened CatalogFile
  import opened CatalogLookup
  import opened CatalogInput

  // ----- One slot of the old catalog -----

  /** An old text facing what the new input has under number `n`. */
  function Merged(n: int, newer: Option<Message>, older: Option<seq<Byte>>): Option<Message> {
    if older.None? then newer
    else if newer.None? then Some(Message(n, older.value, None))
    else if newer.value.text == [] then None
    else newer
  }

  method MergeMessage(ms: seq<Message>, n: int, text: seq<Byte>) returns (ms': seq<Message>, added: bool)
    requires Ordered(ms)
    ensures Ordered(ms') && (added <==> Get(ms, n).None?)
    ensures forall k :: Get(ms', k) == if k == n then Merged(n, Get(ms, n), Some(text)) else Get(ms, k)
  {
    var p := 0;
    while p < |ms|
      invariant p <= |ms| && forall i :: 0 <= i < p ==> ms[i].number < n
    {
      if ms[p].number >= n {
        break;
      }
      p := p + 1;
    }
    ms', added := ms, false;
    if p == |ms| || ms[p].number > n {
      var m := Message(n, text, None);
      assert Place(ms, n, p);
      ms', added := InsertAt(ms, p, m), true;
      InsertOrdered(ms, p, m);
      forall k ensures Get(ms', k) == if k == n then Some(m) else Get(ms, k) {
        GetInserted(ms, p, m, k);
      }
    } else {
      GetAt(ms, p);
      if ms[p].text == [] {
        ms' := RemoveAt(ms, p);
        RemoveOrdered(ms, p);
        forall k ensures Get(ms', k) == if k == n then None else Get(ms, k) {
          GetRemoved(ms, p, k);
        }
      }
    }
  }

  // ----- The whole old catalog -----

  /** The old text for a key among the first `k` slots. */
  function OldText(a: seq<Slot>, strings: seq<Byte>, k: nat, s: int, n: int): Option<seq<Byte>>
    requires k <= |a|
  {
    if k == 0 then None
    else if a[k - 1].setNumber != 0 && a[k - 1].setNumber == s && a[k - 1].number == n then Some(CString(strings, a[k - 1].offset))
    else OldText(a, strings, k - 1, s, n)
  }

  ghost predicate DistinctSlots(a: seq<Slot>) {
    forall i, j :: 0 <= i < j < |a| ==> a[i].setNumber == 0 || a[i].setNumber != a[j].setNumber || a[i].number != a[j].number
  }

  lemma {:induction false} NotBefore(a: seq<Slot>, strings: seq<Byte>, k: nat, j: nat)
    requires DistinctSlots(a) && k <= j < |a| && a[j].setNumber != 0
    ensures OldText(a, strings, k, a[j].setNumber, a[j].number).None?
    decreases k
  {
    if k > 0 {
      NotBefore(a, strings, k - 1, j);
    }
  }

  /** The sets after `k` slots. */
  ghost predicate MergedUpTo(before: seq<MessageSet>, after: seq<MessageSet>, a: seq<Slot>, strings: seq<Byte>, k: nat)
    requires k <= |a|
  {
    forall s, n :: Find(after, s, n) == Merged(n, Find(before, s, n), OldText(a, strings, k, s, n))
  }

  /** How many of the first `k` slots hold a message that the input does not have. */
  ghost function Added(before: seq<MessageSet>, a: seq<Slot>, k: nat): nat
    requires k <= |a|
  {
    if k == 0 then 0
    else Added(before, a, k - 1) +
         if a[k - 1].setNumber != 0 && Find(before, a[k - 1].setNumber, a[k - 1].number).None? then 1 else 0
  }

  /** What merging one message into set `i` does to the rest. */
  lemma MergeStep(before: seq<MessageSet>, sets: seq<MessageSet>, i: nat, ms': seq<Message>,
                  a: seq<Slot>, strings: seq<Byte>, k: nat, n0: int, text: seq<Byte>)
    requires OrderedSets(sets) && i < |sets| && Ordered(ms') && k < |a| && DistinctSlots(a)
    requires a[k].setNumber == sets[i].number != 0 && a[k].number == n0 && text == CString(strings, a[k].offset)
    requires MergedUpTo(before, sets, a, strings, k)
    requires forall n :: Get(ms', n) == if n == n0 then Merged(n0, Get(sets[i].messages, n0), Some(text)) else Get(sets[i].messages, n)
    ensures MergedUpTo(before, sets[i := sets[i].(messages := ms')], a, strings, k + 1)
    ensures OrderedSets(sets[i := sets[i].(messages := ms')])
  {
    var s' := sets[i].(messages := ms');
    var after := sets[i := s'];
    NotBefore(a, strings, k, k);
    forall s, n ensures Find(after, s, n) == Merged(n, Find(before, s, n), OldText(a, strings, k + 1, s, n)) {
      FindReplaced(sets, i, s', s, n);
      assert Find(sets, s, n) == Merged(n, Find(before, s, n), OldText(a, strings, k, s, n));
    }
  }

  /** An occupied slot: its set, looked up unless it is the one of the slot before, and its message. */
  method MergeSlot(sets: seq<MessageSet>, slot: Slot, strings: seq<Byte>, lastSet: int, at: nat,
                   ghost before: seq<MessageSet>, ghost a: seq<Slot>, ghost k: nat)
    returns (sets': seq<MessageSet>, at': nat, added: bool)
    requires OrderedSets(sets) && k < |a| && DistinctSlots(a) && slot == a[k] && slot.setNumber > 0
    requires MergedUpTo(before, sets, a, strings, k)
    requires lastSet == -1 || (at < |sets| && sets[at].number == lastSet + 1)
    ensures OrderedSets(sets') && MergedUpTo(before, sets', a, strings, k + 1)
    ensures at' < |sets'| && sets'[at'].number == slot.setNumber
    ensures added <==> Find(before, slot.setNumber, slot.number).None?
  {
    sets', at' := sets, at;
    if slot.setNumber - 1 != lastSet {
      sets', at' := FindSet(sets, slot.setNumber - 1);
    }
    NotBefore(a, strings, k, k);
    assert Find(sets', slot.setNumber, slot.number) == Find(before, slot.setNumber, slot.number);
    var text := CString(strings, slot.offset);
    var ms;
    ms, added := MergeMessage(sets'[at'].messages, slot.number, text);
    MergeStep(before, sets', at', ms, a, strings, k, slot.number, text);
    sets' := sets'[at' := sets'[at'].(messages := ms)];
  }

  /** The loop of read_old. */
  method MergeSlots(sets: seq<MessageSet>, total: nat, slots: seq<Slot>, strings: seq<Byte>)
    returns (sets': seq<MessageSet>, total': nat)
    requires OrderedSets(sets) && DistinctSlots(slots) && forall i :: 0 <= i < |slots| ==> slots[i].setNumber >= 0
    ensures OrderedSets(sets') && MergedUpTo(sets, sets', slots, strings, |slots|)
    ensures total' == total + Added(sets, slots, |slots|)
  {
    sets', total' := sets, total;
    var lastSet := -1;
    var at: nat := 0;
    for cnt := 0 to |slots|
      invariant OrderedSets(sets') && MergedUpTo(sets, sets', slots, strings, cnt)
      invariant total' == total + Added(sets, slots, cnt)
      invariant lastSet == -1 || (at < |sets'| && sets'[at].number == lastSet + 1)
    {
      if slots[cnt].setNumber == 0 {
        continue;
      }
      var added;
      sets', at, added := MergeSlot(sets', slots[cnt], strings, lastSet, at, sets, slots, cnt);
      lastSet := slots[cnt].setNumber - 1;
      if added {
        total' := total' + 1;
      }
    }
  }

  // ----- The merge as an operation on plain maps -----

  lemma PlacedDistinct(a: seq<Slot>, es: seq<Entry>, size: nat, depth: nat)
    requires size > 0 && Placed(a, es, |es|, size, depth) && Unique(es)
    ensures DistinctSlots(a)
  {
    forall i, j | 0 <= i < j < |a| && a[i].setNumber != 0 && a[i].setNumber == a[j].setNumber && a[i].number == a[j].number
      ensures false
    {
      var k := SlotHolder(a, es, size, depth, i);
      var l := SlotHolder(a, es, size, depth, j);
    }
  }

  lemma {:induction false} OldTextAt(a: seq<Slot>, strings: seq<Byte>, k: nat, i: nat)
    requires DistinctSlots(a) && i < k <= |a| && a[i].setNumber != 0
    ensures OldText(a, strings, k, a[i].setNumber, a[i].number) == Some(CString(strings, a[i].offset))
  {
    if i < k - 1 {
      OldTextAt(a, strings, k - 1, i);
    }
  }

  lemma {:induction false} OldTextFound(a: seq<Slot>, strings: seq<Byte>, k: nat, s: int, n: int) returns (i: nat)
    requires k <= |a| && OldText(a, strings, k, s, n).Some?
    ensures i < k && a[i].setNumber == s != 0 && a[i].number == n
  {
    if a[k - 1].setNumber != 0 && a[k - 1].setNumber == s && a[k - 1].number == n {
      i := k - 1;
    } else {
      i := OldTextFound(a, strings, k - 1, s, n);
    }
  }

  /** The slots of a table hold the old catalog's messages and nothing else. */
  lemma OldTextIs(a: seq<Slot>, es: seq<Entry>, size: nat, depth: nat, s: int, n: int)
    requires size > 0 && Placed(a, es, |es|, size, depth) && Unique(es) && Representable(es)
    ensures OldText(a, Pool(es), |a|, s, n) == if (s, n) in Meaning(es) then Some(Meaning(es)[(s, n)]) else None
  {
    MeaningOf(es, s, n);
    if (s, n) in Meaning(es) {
      var j: nat :| Holds(es, s, n, j);
      assert SlotFilled(a, es, size, j);
      PlacedDistinct(a, es, size, depth);
      OldTextAt(a, Pool(es), |a|, SlotOf(es, size, j));
      PoolString(es, j);
    } else if OldText(a, Pool(es), |a|, s, n).Some? {
      var i := OldTextFound(a, Pool(es), |a|, s, n);
      var _ := SlotHolder(a, es, size, depth, i);
    }
  }

  function SetEntries(s: MessageSet): (r: seq<Entry>)
    ensures |r| == |s.messages|
  {
    seq(|s.messages|, i requires 0 <= i < |s.messages| => Entry(s.number, s.messages[i].number, s.messages[i].text))
  }

  /** The messages in the order write_out visits them. */
  function Entries(sets: seq<MessageSet>): (r: seq<seq<Entry>>)
    ensures |r| == |sets|
  {
    seq(|sets|, i requires 0 <= i < |sets| => SetEntries(sets[i]))
  }

  /** Every entry comes from a message found under its numbers, and no two have the same. */
  lemma {:induction false} EntriesFound(sets: seq<MessageSet>)
    requires OrderedSets(sets)
    ensures Unique(Flatten(Entries(sets)))
    ensures forall j :: 0 <= j < |Flatten(Entries(sets))| ==> EntryFound(sets, Flatten(Entries(sets))[j])
  {
    if sets != [] {
      var l := |sets| - 1;
      var init, es := sets[..l], Flatten(Entries(sets[..l]));
      EntriesFound(init);
      assert Entries(sets)[..l] == Entries(init);
      forall j | 0 <= j < |es| ensures EntryFound(sets, es[j]) && es[j].setNumber != sets[l].number {
        assert EntryFound(init, es[j]);
      }
      var more := SetEntries(sets[l]);
      forall j | 0 <= j < |more| ensures EntryFound(sets, more[j]) {
        GetAt(sets[l].messages, j);
      }
    }
  }

  ghost predicate EntryFound(sets: seq<MessageSet>, e: Entry) {
    Find(sets, e.setNumber, e.number).Some? && Find(sets, e.setNumber, e.number).value.text == e.text
  }

  lemma {:induction false} FoundEntry(sets: seq<MessageSet>, s: int, n: int) returns (j: nat)
    requires OrderedSets(sets) && Find(sets, s, n).Some?
    ensures Holds(Flatten(Entries(sets)), s, n, j)
    decreases |sets|
  {
    var l := |sets| - 1;
    assert Entries(sets)[..l] == Entries(sets[..l]);
    if s == sets[l].number {
      var i :| 0 <= i < |sets[l].messages| && sets[l].messages[i].number == n;
      j := |Flatten(Entries(sets[..l]))| + i;
    } else {
      j := FoundEntry(sets[..l], s, n);
    }
  }

  /** The compiled entries mean what the sets hold. */
  lemma EntriesMeaning(sets: seq<MessageSet>, s: int, n: int)
    requires OrderedSets(sets)
    ensures var meaning := Meaning(Flatten(Entries(sets)));
      ((s, n) in meaning <==> Find(sets, s, n).Some?) && ((s, n) in meaning ==> meaning[(s, n)] == Find(sets, s, n).value.text)
  {
    var es := Flatten(Entries(sets));
    EntriesFound(sets);
    MeaningOf(es, s, n);
    if Find(sets, s, n).Some? {
      var j := FoundEntry(sets, s, n);
      assert EntryFound(sets, es[j]);
    }
    if (s, n) in Meaning(es) {
      var j: nat :| Holds(es, s, n, j);
      assert EntryFound(sets, es[j]);
    }
  }

  /** New entries win, old ones fill the gaps, and a new empty text deletes an old entry. */
  function MergedMeaning(newer: map<(int, int), seq<Byte>>, older: map<(int, int), seq<Byte>>): map<(int, int), seq<Byte>> {
    map key | key in newer.Keys + older.Keys && !(key in newer && key in older && newer[key] == [])
      :: if key in newer then newer[key] else older[key]
  }

  /** read_old on a catalog that write_out compiled from `es`. */
  method ReadOld(sets: seq<MessageSet>, total: nat, c: Catalog, ghost a: seq<Slot>, ghost es: seq<Entry>)
    returns (sets': seq<MessageSet>, total': nat)
    requires OrderedSets(sets) && Unique(es) && Representable(es)
    requires c.size > 0 && Placed(a, es, |es|, c.size, c.depth) && Fits(a) && c.names == TableWords(a) && c.strings == Pool(es)
    ensures OrderedSets(sets') && Unique(Flatten(Entries(sets')))
    ensures Meaning(Flatten(Entries(sets'))) == MergedMeaning(Meaning(Flatten(Entries(sets))), Meaning(es))
    ensures total' == total + Added(sets, a, |a|)
  {
    SlotsOfWords(a);
    PlacedDistinct(a, es, c.size, c.depth);
    sets', total' := MergeSlots(sets, total, SlotsOf(c.names), c.strings);
    EntriesFound(sets');
    MergedMaps(sets, sets', a, es, c.size, c.depth);
  }

  lemma MergedKey(sets: seq<MessageSet>, sets': seq<MessageSet>, a: seq<Slot>, es: seq<Entry>, size: nat, depth: nat,
                  s: int, n: int, newer: map<(int, int), seq<Byte>>, both: map<(int, int), seq<Byte>>)
    requires OrderedSets(sets) && OrderedSets(sets') && Unique(es) && Representable(es)
    requires size > 0 && Placed(a, es, |es|, size, depth) && MergedUpTo(sets, sets', a, Pool(es), |a|)
    requires newer == Meaning(Flatten(Entries(sets))) && both == Meaning(Flatten(Entries(sets')))
    ensures (s, n) in both <==> (s, n) in MergedMeaning(newer, Meaning(es))
    ensures (s, n) in both ==> both[(s, n)] == MergedMeaning(newer, Meaning(es))[(s, n)]
  {
    EntriesMeaning(sets, s, n);
    EntriesMeaning(sets', s, n);
    OldTextIs(a, es, size, depth, s, n);
    assert Find(sets', s, n) == Merged(n, Find(sets, s, n), OldText(a, Pool(es), |a|, s, n));
  }

  lemma MergedMaps(sets: seq<MessageSet>, sets': seq<MessageSet>, a: seq<Slot>, es: seq<Entry>, size: nat, depth: nat)
    requires OrderedSets(sets) && OrderedSets(sets') && Unique(es) && Representable(es)
    requires size > 0 && Placed(a, es, |es|, size, depth) && MergedUpTo(sets, sets', a, Pool(es), |a|)
    ensures Meaning(Flatten(Entries(sets'))) == MergedMeaning(Meaning(Flatten(Entries(sets))), Meaning(es))
  {
    var newer, both := Meaning(Flatten(Entries(sets))), Meaning(Flatten(Entries(sets')));
    var merged := MergedMeaning(newer, Meaning(es));
    forall key: (int, int)
      ensures key in both <==> key in merged
      ensures key in both ==> both[key] == merged[key]
    {
      MergedKey(sets, sets', a, es, size, depth, key.0, key.1, newer, both);
    }
  }
}
