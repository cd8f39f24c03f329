/**
 The help option list (hol) of argp-help.c.  Each entry is a run of options, one real option and
 its aliases; the short options that an entry may show are those that no earlier entry has, kept
 in one string that the entries point into.
 */
module ArgpHelp {
  import opened Options
  import opened ArgpTree

  // ----- Strings of short options without repetitions -----

  function Add(d: seq<int>, opt: ArgpOption): seq<int> {
    if opt.IsShort() && opt.key !in d then d + [opt.key] else d
  }

  function AddAll(d: seq<int>, opts: seq<ArgpOption>, n: nat): seq<int>
    requires n <= |opts|
  {
    if n == 0 then d else Add(AddAll(d, opts, n - 1), opts[n - 1])
  }

  ghost predicate Distinct(d: seq<int>) { forall i, j :: 0 <= i < j < |d| ==> d[i] != d[j] }

  ghost predicate HasShort(opts: seq<ArgpOption>, k: int) {
    exists j :: 0 <= j < |opts| && opts[j].IsShort() && opts[j].key == k
  }

  lemma {:induction false} AddAllPrefix(d: seq<int>, opts: seq<ArgpOption>, m: nat, n: nat)
    requires m <= n <= |opts|
    ensures AddAll(d, opts, m) <= AddAll(d, opts, n)
    decreases n
  {
    if m < n {
      AddAllPrefix(d, opts, m, n - 1);
    }
  }

  lemma {:induction false} AddAllDistinct(d: seq<int>, opts: seq<ArgpOption>, n: nat)
    requires n <= |opts| && Distinct(d)
    ensures Distinct(AddAll(d, opts, n))
  {
    if n > 0 {
      AddAllDistinct(d, opts, n - 1);
    }
  }

  lemma {:induction false} AddAllHas(d: seq<int>, opts: seq<ArgpOption>, n: nat, k: int)
    requires n <= |opts|
    ensures k in AddAll(d, opts, n) <==> k in d || exists j :: 0 <= j < n && opts[j].IsShort() && opts[j].key == k
  {
    if n > 0 {
      AddAllHas(d, opts, n - 1, k);
    }
  }

  lemma {:induction false} AddAllSlice(opts: seq<ArgpOption>, a: nat, m: nat, b: nat)
    requires a + m <= b <= |opts|
    ensures AddAll([], opts, a + m) == AddAll(AddAll([], opts, a), opts[a..b], m)
    decreases m
  {
    if m > 0 {
      AddAllSlice(opts, a, m - 1, b);
    }
  }

  // ----- Entries -----

  /** struct hol_entry: its options, and where its short options start in the common string. */
  datatype Entry = Entry(argp: nat, opts: seq<ArgpOption>, so: nat)

  datatype Hol = Hol(entries: seq<Entry>, short: seq<int>)

  function AddEntries(d: seq<int>, es: seq<Entry>, n: nat): seq<int>
    requires n <= |es|
  {
    if n == 0 then d else AddAll(AddEntries(d, es, n - 1), es[n - 1].opts, |es[n - 1].opts|)
  }

  /** Each entry points behind the keys of the entries before it. */
  ghost predicate Pointers(es: seq<Entry>) { forall i :: 0 <= i < |es| ==> PointerAt(es, i) }

  ghost predicate PointerAt(es: seq<Entry>, i: int)
    requires 0 <= i < |es|
  {
    es[i].so == |AddEntries([], es, i)|
  }

  /** The string holds each key once, and the entries point to theirs. */
  ghost predicate Canonical(h: Hol) { h.short == AddEntries([], h.entries, |h.entries|) && Pointers(h.entries) }

  /** Only the options count. */
  lemma {:induction false} AddEntriesSame(d: seq<int>, es: seq<Entry>, fs: seq<Entry>, n: nat)
    requires n <= |es| && n <= |fs| && forall i :: 0 <= i < n ==> es[i].opts == fs[i].opts
    ensures AddEntries(d, es, n) == AddEntries(d, fs, n)
  {
    if n > 0 {
      AddEntriesSame(d, es, fs, n - 1);
    }
  }

  lemma {:induction false} AddEntriesPrefix(d: seq<int>, es: seq<Entry>, m: nat, n: nat)
    requires m <= n <= |es|
    ensures AddEntries(d, es, m) <= AddEntries(d, es, n)
    decreases n
  {
    if m < n {
      AddEntriesPrefix(d, es, m, n - 1);
      AddAllPrefix(AddEntries(d, es, n - 1), es[n - 1].opts, 0, |es[n - 1].opts|);
    }
  }

  lemma {:induction false} AddEntriesDistinct(es: seq<Entry>, n: nat)
    requires n <= |es|
    ensures Distinct(AddEntries([], es, n))
  {
    if n > 0 {
      AddEntriesDistinct(es, n - 1);
      AddAllDistinct(AddEntries([], es, n - 1), es[n - 1].opts, |es[n - 1].opts|);
    }
  }

  lemma {:induction false} AddEntriesConcat(es: seq<Entry>, fs: seq<Entry>, m: nat)
    requires m <= |fs|
    ensures AddEntries([], es + fs, |es| + m) == AddEntries(AddEntries([], es, |es|), fs, m)
  {
    if m == 0 {
      AddEntriesSame([], es + fs, es, |es|);
    } else {
      AddEntriesConcat(es, fs, m - 1);
    }
  }

  /** The string up to option `j` of entry `m`, with that option, begins the whole string. */
  lemma StringBefore(es: seq<Entry>, m: nat, j: nat)
    requires m < |es| && j <= |es[m].opts|
    ensures AddAll(AddEntries([], es, m), es[m].opts, j) <= AddEntries([], es, |es|)
  {
    AddAllPrefix(AddEntries([], es, m), es[m].opts, j, |es[m].opts|);
    AddEntriesPrefix([], es, m + 1, |es|);
  }

  // ----- Owners -----

  /** The argp of the first of the entries that has the short key. */
  ghost function EntryOwner(es: seq<Entry>, n: nat, k: int): Option<nat>
    requires n <= |es|
  {
    if n == 0 then None
    else OrElse(EntryOwner(es, n - 1, k), if HasShort(es[n - 1].opts, k) then Some(es[n - 1].argp) else None)
  }

  /** The first argp in preorder that has the short key. */
  ghost function Owner(argp: Argp, k: int): Option<nat> {
    OrElse(OwnOwner(argp, k), ChildOwner(argp.children, k))
  }

  ghost function OwnOwner(argp: Argp, k: int): Option<nat> {
    if argp.options.Some? && HasShort(argp.options.value, k) then Some(argp.id) else None
  }

  ghost function ChildOwner(cs: Children, k: int): Option<nat> {
    match cs case End => None case Child(c, rest) => OrElse(Owner(c, k), ChildOwner(rest, k))
  }

  lemma {:induction false} EntryOwnerSame(es: seq<Entry>, fs: seq<Entry>, n: nat, k: int)
    requires n <= |es| && n <= |fs| && forall i :: 0 <= i < n ==> es[i].opts == fs[i].opts && es[i].argp == fs[i].argp
    ensures EntryOwner(es, n, k) == EntryOwner(fs, n, k)
  {
    if n > 0 {
      EntryOwnerSame(es, fs, n - 1, k);
    }
  }

  lemma {:induction false} EntryOwnerConcat(es: seq<Entry>, fs: seq<Entry>, m: nat, k: int)
    requires m <= |fs|
    ensures EntryOwner(es + fs, |es| + m, k) == OrElse(EntryOwner(es, |es|, k), EntryOwner(fs, m, k))
  {
    if m == 0 {
      EntryOwnerSame(es + fs, es, |es|, k);
    } else {
      EntryOwnerConcat(es, fs, m - 1, k);
      assert (es + fs)[|es| + m - 1] == fs[m - 1];
    }
  }

  // ----- The options in the list -----

  function Tagged(id: nat, opts: seq<ArgpOption>): (r: seq<(nat, ArgpOption)>)
    ensures |r| == |opts|
  {
    seq(|opts|, i requires 0 <= i < |opts| => (id, opts[i]))
  }

  /** The options of the first `n` entries, each with its argp. */
  function Listed(es: seq<Entry>, n: nat): seq<(nat, ArgpOption)>
    requires n <= |es|
  {
    if n == 0 then [] else Listed(es, n - 1) + Tagged(es[n - 1].argp, es[n - 1].opts)
  }

  /** All options of a tree in preorder. */
  function Preorder(argp: Argp): seq<(nat, ArgpOption)> { Tagged(argp.id, OwnOptions(argp)) + ChildPreorder(argp.children) }

  function ChildPreorder(cs: Children): seq<(nat, ArgpOption)> {
    match cs case End => [] case Child(c, rest) => Preorder(c) + ChildPreorder(rest)
  }

  /** One option with its aliases. */
  ghost predicate IsRun(opts: seq<ArgpOption>) { opts != [] && forall j :: 1 <= j < |opts| ==> opts[j].alias }

  ghost predicate Runs(es: seq<Entry>) { forall i :: 0 <= i < |es| ==> IsRun(es[i].opts) }

  lemma {:induction false} ListedSame(es: seq<Entry>, fs: seq<Entry>, n: nat)
    requires n <= |es| && n <= |fs| && forall i :: 0 <= i < n ==> es[i].opts == fs[i].opts && es[i].argp == fs[i].argp
    ensures Listed(es, n) == Listed(fs, n)
  {
    if n > 0 {
      ListedSame(es, fs, n - 1);
    }
  }

  lemma {:induction false} ListedConcat(es: seq<Entry>, fs: seq<Entry>, m: nat)
    requires m <= |fs|
    ensures Listed(es + fs, |es| + m) == Listed(es, |es|) + Listed(fs, m)
  {
    if m == 0 {
      ListedSame(es + fs, es, |es|);
    } else {
      ListedConcat(es, fs, m - 1);
      assert (es + fs)[|es| + m - 1] == fs[m - 1];
    }
  }

  // ----- make_hol -----

  /** find_char over the whole string. */
  method FindChar(ch: int, s: seq<int>) returns (found: bool)
    ensures found <==> ch in s
  {
    for i := 0 to |s|
      invariant ch !in s[..i]
    {
      if s[i] == ch {
        return true;
      }
    }
    assert s[..|s|] == s;
    return false;
  }

  method AddShort(short: seq<int>, opt: ArgpOption) returns (short': seq<int>)
    ensures short' == Add(short, opt)
  {
    short' := short;
    if opt.IsShort() {
      var used := FindChar(opt.key, short);
      if !used {
        short' := short + [opt.key];
      }
    }
  }

  /** The entry that starts at option `o`: the do loop over the option and its aliases. */
  method FillEntry(opts: seq<ArgpOption>, o: nat, short: seq<int>) returns (o': nat, short': seq<int>)
    requires o < |opts| && short == AddAll([], opts, o)
    ensures o < o' <= |opts| && short' == AddAll([], opts, o')
    ensures (forall i :: o < i < o' ==> opts[i].alias) && (o' < |opts| ==> !opts[o'].alias)
  {
    short' := AddShort(short, opts[o]);
    o' := o + 1;
    while o' < |opts| && opts[o'].alias
      invariant o < o' <= |opts| && short' == AddAll([], opts, o') && forall i :: o < i < o' ==> opts[i].alias
    {
      short' := AddShort(short', opts[o']);
      o' := o' + 1;
    }
  }

  /** The entries cover the first `o` options. */
  ghost predicate Filled(es: seq<Entry>, short: seq<int>, id: nat, opts: seq<ArgpOption>, o: nat)
    requires o <= |opts|
  {
    && Pointers(es) && short == AddAll([], opts, o) == AddEntries([], es, |es|)
    && (forall i :: 0 <= i < |es| ==> es[i].argp == id)
    && Runs(es) && Listed(es, |es|) == Tagged(id, opts[..o]) && (o == 0 ==> es == [])
    && (forall i :: 1 <= i < |es| ==> !es[i].opts[0].alias)
  }

  lemma FilledOn(es: seq<Entry>, short: seq<int>, id: nat, opts: seq<ArgpOption>, o: nat, next: nat, short': seq<int>, e: Entry)
    requires o < next <= |opts| && Filled(es, short, id, opts, o) && short' == AddAll([], opts, next)
    requires e == Entry(id, opts[o..next], |short|) && (forall i :: o < i < next ==> opts[i].alias) && (o > 0 ==> !opts[o].alias)
    ensures Filled(es + [e], short', id, opts, next)
  {
    ListedSame(es + [e], es, |es|);
    assert Tagged(id, opts[..next]) == Tagged(id, opts[..o]) + Tagged(id, opts[o..next]);
    AddAllSlice(opts, o, next - o, next);
    AddEntriesSame([], es + [e], es, |es|);
    forall i | 0 <= i < |es| ensures PointerAt(es + [e], i) {
      assert PointerAt(es, i);
      AddEntriesSame([], es + [e], es, i);
    }
  }

  lemma {:induction false} SingleOwner(es: seq<Entry>, n: nat, id: nat, k: int)
    requires n <= |es| && forall i :: 0 <= i < n ==> es[i].argp == id
    ensures EntryOwner(es, n, k) == if k in AddEntries([], es, n) then Some(id) else None
  {
    if n > 0 {
      SingleOwner(es, n - 1, id, k);
      AddAllHas(AddEntries([], es, n - 1), es[n - 1].opts, |es[n - 1].opts|, k);
    }
  }

  /** make_hol: the entries are the options in order, each a real option with its aliases. */
  method MakeHol(argp: Argp) returns (h: Hol)
    ensures Canonical(h) && forall k :: EntryOwner(h.entries, |h.entries|, k) == OwnOwner(argp, k)
    ensures Listed(h.entries, |h.entries|) == Tagged(argp.id, OwnOptions(argp)) && Runs(h.entries)
    ensures forall i :: 1 <= i < |h.entries| ==> !h.entries[i].opts[0].alias
  {
    if argp.options.None? {
      return Hol([], []);
    }
    var opts := argp.options.value;
    var entries, short, o := [], [], 0;
    while o < |opts|
      invariant o <= |opts| && Filled(entries, short, argp.id, opts, o) && (0 < o < |opts| ==> !opts[o].alias)
    {
      var next, short' := FillEntry(opts, o, short);
      var e := Entry(argp.id, opts[o..next], |short|);
      FilledOn(entries, short, argp.id, opts, o, next, short', e);
      entries := entries + [e];
      o, short := next, short';
    }
    assert opts[..|opts|] == opts;
    forall k ensures EntryOwner(entries, |entries|, k) == OwnOwner(argp, k) {
      SingleOwner(entries, |entries|, argp.id, k);
      AddAllHas([], opts, |opts|, k);
    }
    h := Hol(entries, short);
  }

  // ----- hol_append -----

  /** Keys gathered from HOL and MORE together and from MORE alone. */
  ghost predicate InStep(hol: seq<int>, both: seq<int>, d: seq<int>) {
    forall k :: k in both <==> k in hol || k in d
  }

  /** One option of MORE, after `d`: its key is dropped if it is a repetition in MORE or shadowed by HOL. */
  method AppendOption(hol: seq<int>, more: seq<int>, opt: ArgpOption, so: nat, short: seq<int>, ghost d: seq<int>)
    returns (so': nat, short': seq<int>)
    requires Distinct(more) && Add(d, opt) <= more && so == |d| && InStep(hol, short, d)
    ensures so' == |Add(d, opt)| && short' == Add(short, opt) && InStep(hol, short', Add(d, opt))
  {
    so', short' := so, short;
    if opt.IsShort() {
      if so < |more| && more[so] == opt.key {
        var shadowed := FindChar(opt.key, hol);
        if !shadowed {
          short' := short + [opt.key];
        }
        so' := so + 1;
      }
    }
  }

  method AppendEntry(hol: seq<int>, more: seq<int>, opts: seq<ArgpOption>, so: nat, short: seq<int>, ghost d: seq<int>)
    returns (so': nat, short': seq<int>)
    requires Distinct(more) && AddAll(d, opts, |opts|) <= more && so == |d| && InStep(hol, short, d)
    ensures so' == |AddAll(d, opts, |opts|)| && short' == AddAll(short, opts, |opts|)
    ensures InStep(hol, short', AddAll(d, opts, |opts|))
  {
    so', short' := so, short;
    for j := 0 to |opts|
      invariant so' == |AddAll(d, opts, j)| && short' == AddAll(short, opts, j) && InStep(hol, short', AddAll(d, opts, j))
    {
      AddAllPrefix(d, opts, j + 1, |opts|);
      so', short' := AppendOption(hol, more, opts[j], so', short', AddAll(d, opts, j));
    }
  }

  /** MORE's entries with their pointers moved into the joint string. */
  ghost predicate Moved(moved: seq<Entry>, hol: seq<int>, more: seq<Entry>, m: nat) {
    |moved| == m <= |more| && forall i :: 0 <= i < m ==> MovedAt(moved[i], hol, more, i)
  }

  ghost predicate MovedAt(e: Entry, hol: seq<int>, more: seq<Entry>, i: int)
    requires 0 <= i < |more|
  {
    e.opts == more[i].opts && e.argp == more[i].argp && e.so == |AddEntries(hol, more, i)|
  }

  lemma AppendedPointer(hol: Hol, more: seq<Entry>, moved: seq<Entry>, i: int)
    requires Canonical(hol) && Moved(moved, hol.short, more, |more|) && 0 <= i < |hol.entries| + |moved|
    ensures PointerAt(hol.entries + moved, i)
  {
    var n, es := |hol.entries|, hol.entries + moved;
    if i < n {
      assert PointerAt(hol.entries, i);
      AddEntriesSame([], es, hol.entries, i);
    } else {
      assert MovedAt(moved[i - n], hol.short, more, i - n);
      AddEntriesConcat(hol.entries, moved, i - n);
      AddEntriesSame(hol.short, moved, more, i - n);
    }
  }

  lemma AppendedCanonical(hol: Hol, more: seq<Entry>, moved: seq<Entry>, short: seq<int>)
    requires Canonical(hol) && Moved(moved, hol.short, more, |more|) && short == AddEntries(hol.short, more, |more|)
    ensures Canonical(Hol(hol.entries + moved, short))
  {
    forall i | 0 <= i < |hol.entries| + |moved| ensures PointerAt(hol.entries + moved, i) {
      AppendedPointer(hol, more, moved, i);
    }
    AddEntriesConcat(hol.entries, moved, |moved|);
    AddEntriesSame(hol.short, moved, more, |moved|);
  }

  lemma AppendedOwner(es: seq<Entry>, hol: seq<int>, more: seq<Entry>, moved: seq<Entry>, k: int)
    requires Moved(moved, hol, more, |more|)
    ensures EntryOwner(es + moved, |es + moved|, k) == OrElse(EntryOwner(es, |es|, k), EntryOwner(more, |more|, k))
  {
    EntryOwnerConcat(es, moved, |moved|, k);
    EntryOwnerSame(moved, more, |moved|, k);
  }

  /** The loop over MORE's entries. */
  method AppendEntries(hol: seq<int>, more: Hol) returns (moved: seq<Entry>, short: seq<int>)
    requires Canonical(more)
    ensures Moved(moved, hol, more.entries, |more.entries|) && short == AddEntries(hol, more.entries, |more.entries|)
  {
    var so := 0;
    moved, short := [], hol;
    AddEntriesDistinct(more.entries, |more.entries|);
    for m := 0 to |more.entries|
      invariant Moved(moved, hol, more.entries, m)
      invariant so == |AddEntries([], more.entries, m)| && short == AddEntries(hol, more.entries, m)
      invariant InStep(hol, short, AddEntries([], more.entries, m))
    {
      var e := more.entries[m];
      moved := moved + [e.(so := |short|)];
      StringBefore(more.entries, m, |e.opts|);
      so, short := AppendEntry(hol, more.short, e.opts, so, short, AddEntries([], more.entries, m));
    }
  }

  method HolAppend(hol: Hol, more: Hol) returns (h: Hol)
    requires Canonical(hol) && Canonical(more)
    ensures Canonical(h) && Listed(h.entries, |h.entries|) == Listed(hol.entries, |hol.entries|) + Listed(more.entries, |more.entries|)
    ensures Runs(hol.entries) && Runs(more.entries) ==> Runs(h.entries)
    ensures forall k :: EntryOwner(h.entries, |h.entries|, k) ==
                        OrElse(EntryOwner(hol.entries, |hol.entries|, k), EntryOwner(more.entries, |more.entries|, k))
  {
    if |more.entries| == 0 {
      return hol;
    }
    if |hol.entries| == 0 {
      return more;
    }
    var moved, short := AppendEntries(hol.short, more);
    h := Hol(hol.entries + moved, short);
    AppendedCanonical(hol, more.entries, moved, short);
    ListedConcat(hol.entries, moved, |moved|);
    ListedSame(moved, more.entries, |moved|);
    forall k ensures EntryOwner(h.entries, |h.entries|, k) ==
                     OrElse(EntryOwner(hol.entries, |hol.entries|, k), EntryOwner(more.entries, |more.entries|, k))
    {
      AppendedOwner(hol.entries, hol.short, more.entries, moved, k);
    }
  }

  /** argp_hol: the entries of an argp and its descendants. */
  method ArgpHol(argp: Argp) returns (h: Hol)
    ensures Canonical(h) && forall k :: EntryOwner(h.entries, |h.entries|, k) == Owner(argp, k)
    ensures Runs(h.entries) && Listed(h.entries, |h.entries|) == Preorder(argp)
    decreases argp
  {
    h := MakeHol(argp);
    var cs := argp.children;
    while cs.Child?
      invariant Canonical(h) && (cs == argp.children || cs < argp.children)
      invariant Runs(h.entries) && Listed(h.entries, |h.entries|) + ChildPreorder(cs) == Preorder(argp)
      invariant forall k :: OrElse(EntryOwner(h.entries, |h.entries|, k), ChildOwner(cs, k)) == Owner(argp, k)
      decreases cs
    {
      var more := ArgpHol(cs.argp);
      Regroup(Listed(h.entries, |h.entries|), Preorder(cs.argp), ChildPreorder(cs.rest));
      h := HolAppend(h, more);
      cs := cs.rest;
    }
  }

  /** Option `j`, read after `d`, is the first with the short key. */
  ghost predicate FirstAt(d: seq<int>, opts: seq<ArgpOption>, j: int, k: int)
    requires 0 <= j < |opts|
  {
    opts[j].IsShort() && opts[j].key == k && k !in AddAll(d, opts, j)
  }

  /** The loop of hol_entry_short_iterate over an entry that points behind `d` in the string. */
  method Iterate(opts: seq<ArgpOption>, short: seq<int>, from: nat, ghost d: seq<int>) returns (shown: seq<int>, visible: seq<int>)
    requires Distinct(short) && AddAll(d, opts, |opts|) <= short && from == |d|
    ensures AddAll(d, opts, |opts|) == d + shown
    ensures forall k :: k in visible <==> exists j :: 0 <= j < |opts| && FirstAt(d, opts, j, k) && !opts[j].hidden
  {
    var so := from;
    shown, visible := [], [];
    for j := 0 to |opts|
      invariant so == |AddAll(d, opts, j)| && AddAll(d, opts, j) == d + shown
      invariant forall k :: k in visible <==> exists i :: 0 <= i < j && FirstAt(d, opts, i, k) && !opts[i].hidden
    {
      AddAllPrefix(d, opts, j + 1, |opts|);
      if opts[j].IsShort() {
        if so < |short| && short[so] == opts[j].key {
          shown := shown + [opts[j].key];
          if !opts[j].hidden {
            visible := visible + [opts[j].key];
          }
          so := so + 1;
        }
      }
    }
  }

  lemma ShownKeys(d: seq<int>, opts: seq<ArgpOption>, shown: seq<int>)
    requires Distinct(d) && AddAll(d, opts, |opts|) == d + shown
    ensures Distinct(shown) && forall k :: k in shown <==> HasShort(opts, k) && k !in d
  {
    AddAllDistinct(d, opts, |opts|);
    forall i, j | 0 <= i < j < |shown| ensures shown[i] != shown[j] {
      assert (d + shown)[|d| + i] == shown[i] && (d + shown)[|d| + j] == shown[j];
    }
    forall i, j | 0 <= i < |d| && 0 <= j < |shown| ensures d[i] != shown[j] {
      assert (d + shown)[i] == d[i] && (d + shown)[|d| + j] == shown[j];
    }
    forall k ensures k in shown <==> HasShort(opts, k) && k !in d {
      AddAllHas(d, opts, |opts|, k);
    }
  }

  /** Entry `i` has the short key and no entry before it does. */
  ghost predicate Shows(h: Hol, i: nat, k: int)
    requires i < |h.entries|
  {
    HasShort(h.entries[i].opts, k) && k !in AddEntries([], h.entries, i)
  }

  lemma {:induction false} OwnedKeys(es: seq<Entry>, n: nat, k: int)
    requires n <= |es|
    ensures k in AddEntries([], es, n) <==> EntryOwner(es, n, k).Some?
  {
    if n > 0 {
      OwnedKeys(es, n - 1, k);
      AddAllHas(AddEntries([], es, n - 1), es[n - 1].opts, |es[n - 1].opts|, k);
    }
  }

  lemma {:induction false} OwnerStays(es: seq<Entry>, m: nat, n: nat, k: int)
    requires m <= n <= |es| && EntryOwner(es, m, k).Some?
    ensures EntryOwner(es, n, k) == EntryOwner(es, m, k)
    decreases n
  {
    if m < n {
      OwnerStays(es, m, n - 1, k);
    }
  }

  /** The entry that shows a key is its owner's. */
  lemma ShownByOwner(h: Hol, i: nat, k: int)
    requires i < |h.entries| && Shows(h, i, k)
    ensures EntryOwner(h.entries, |h.entries|, k) == Some(h.entries[i].argp)
  {
    OwnedKeys(h.entries, i, k);
    OwnerStays(h.entries, i + 1, |h.entries|, k);
  }

  /** A key with an owner is shown by exactly one entry. */
  lemma {:induction false} OwnedIsShown(h: Hol, n: nat, k: int) returns (i: nat)
    requires n <= |h.entries| && EntryOwner(h.entries, n, k).Some?
    ensures i < n && Shows(h, i, k) && forall j: nat :: j < n && Shows(h, j, k) ==> j == i
  {
    OwnedKeys(h.entries, n - 1, k);
    if EntryOwner(h.entries, n - 1, k).Some? {
      i := OwnedIsShown(h, n - 1, k);
    } else {
      i := n - 1;
      forall j: nat | j < n - 1 && Shows(h, j, k) ensures false {
        OwnedKeys(h.entries, j, k);
        OwnerStays(h.entries, j + 1, n - 1, k);
      }
    }
  }

  /** hol_entry_short_iterate: the short keys of entry `i` that no earlier one has, and those of them that are not hidden. */
  method ShortIterate(h: Hol, i: nat) returns (shown: seq<int>, visible: seq<int>)
    requires Canonical(h) && i < |h.entries|
    ensures Distinct(shown) && forall k :: k in shown <==> Shows(h, i, k)
    ensures forall k :: k in visible <==> Visible(h, i, k)
  {
    var e := h.entries[i];
    ghost var d := AddEntries([], h.entries, i);
    assert PointerAt(h.entries, i);
    AddEntriesDistinct(h.entries, |h.entries|);
    AddEntriesDistinct(h.entries, i);
    StringBefore(h.entries, i, |e.opts|);
    shown, visible := Iterate(e.opts, h.short, e.so, d);
    ShownKeys(d, e.opts, shown);
  }

  /** The first option of entry `i` with the key is not hidden, and no earlier entry has the key. */
  ghost predicate Visible(h: Hol, i: nat, k: int)
    requires i < |h.entries|
  {
    var opts := h.entries[i].opts;
    exists j :: 0 <= j < |opts| && FirstAt(AddEntries([], h.entries, i), opts, j, k) && !opts[j].hidden
  }
}
