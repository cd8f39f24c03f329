/**
 The getopt tables of argp-parse.c: convert_options flattens a tree of argps into one string of
 short options, one vector of long options and a vector of groups; parser_parse_opt finds the
 group of an option again from what getopt returns.
 */
module ArgpConvert {
  import opened Options
  import opened Arith
  import opened ArgpTree
  import opened ArgpHelp

  const COLON := 58

  /** struct option; `args` is no_argument, required_argument or optional_argument. */
  datatype LongOption = LongOption(name: string, args: nat, val: int)

  /** struct group, but for what the parsers keep in it. */
  datatype Group = Group(argp: nat, hasParser: bool, shortEnd: nat, parent: Option<nat>, parentIndex: nat, inputs: Option<nat>)

  datatype Tables = Tables(short: seq<int>, long: seq<LongOption>, groups: seq<Group>, inputs: nat)

  // ----- One vector of options -----

  /** The most recent non-alias option. */
  function Real(opts: seq<ArgpOption>, n: nat): ArgpOption
    requires n < |opts|
  {
    if n == 0 || !opts[n].alias then opts[n] else Real(opts, n - 1)
  }

  /** The option an alias stands for: nothing but aliases lies between them. */
  lemma {:induction false} RealIs(opts: seq<ArgpOption>, n: nat) returns (m: nat)
    requires n < |opts|
    ensures m <= n && Real(opts, n) == opts[m] && (m == 0 || !opts[m].alias) && forall i :: m < i <= n ==> opts[i].alias
  {
    m := n;
    if n > 0 && opts[n].alias {
      m := RealIs(opts, n - 1);
    }
  }

  function ShortText(opt: ArgpOption, main: ArgpOption): seq<int> {
    if main.doc || !opt.IsShort() then []
    else [opt.key] + if !main.hasArg then [] else if main.optionalArg then [COLON, COLON] else [COLON]
  }

  function WithShorts(short: seq<int>, opts: seq<ArgpOption>, n: nat): seq<int>
    requires n <= |opts|
  {
    if n == 0 then short else WithShorts(short, opts, n - 1) + ShortText(opts[n - 1], Real(opts, n - 1))
  }

  ghost predicate HasLong(long: seq<LongOption>, name: string) { exists i :: 0 <= i < |long| && long[i].name == name }

  /** The value for a long option: the user's low 24 bits below the group's number. */
  function Encode(key: int, group: nat): int { WrapInt(key % 0x100_0000 + (group + 1) * 0x100_0000) }

  function UserKey(opt: ArgpOption, main: ArgpOption): int { if opt.key != 0 then opt.key else main.key }

  function LongEntry(opt: ArgpOption, main: ArgpOption, group: nat): LongOption
    requires opt.name.Some?
  {
    LongOption(opt.name.value, if !main.hasArg then 0 else if main.optionalArg then 2 else 1, Encode(UserKey(opt, main), group))
  }

  ghost function WithLong(long: seq<LongOption>, opt: ArgpOption, main: ArgpOption, group: nat): seq<LongOption> {
    if main.doc || opt.name.None? || HasLong(long, opt.name.value) then long else long + [LongEntry(opt, main, group)]
  }

  ghost function WithLongs(long: seq<LongOption>, opts: seq<ArgpOption>, n: nat, group: nat): seq<LongOption>
    requires n <= |opts|
  {
    if n == 0 then long else WithLong(WithLongs(long, opts, n - 1, group), opts[n - 1], Real(opts, n - 1), group)
  }

  // ----- The whole tree -----

  predicate HasGroup(argp: Argp) { argp.options.Some? || argp.hasParser }

  function NumChildren(cs: Children): nat { match cs case End => 0 case Child(_, rest) => 1 + NumChildren(rest) }

  /** The tables once an argp's own options and group are in. */
  ghost function WithGroup(argp: Argp, t: Tables, parent: Option<nat>, index: nat): Tables {
    if !HasGroup(argp) then t
    else
      var opts := OwnOptions(argp);
      var short := WithShorts(t.short, opts, |opts|);
      var kids := NumChildren(argp.children);
      Tables(short, WithLongs(t.long, opts, |opts|, |t.groups|),
             t.groups + [Group(argp.id, argp.hasParser, |short|, parent, index, if argp.children.Child? then Some(t.inputs) else None)],
             t.inputs + kids)
  }

  ghost function Converted(argp: Argp, t: Tables, parent: Option<nat>, index: nat): Tables {
    ChildrenConverted(argp.children, WithGroup(argp, t, parent, index), if HasGroup(argp) then Some(|t.groups|) else None, 0)
  }

  ghost function ChildrenConverted(cs: Children, t: Tables, parent: Option<nat>, index: nat): Tables {
    match cs case End => t
    case Child(c, rest) => ChildrenConverted(rest, Converted(c, t, parent, index), parent, index + 1)
  }

  /** find_long_option. */
  method FindLong(long: seq<LongOption>, name: string) returns (i: int)
    ensures i >= 0 <==> HasLong(long, name)
    ensures i >= 0 ==> i < |long| && long[i].name == name
  {
    var l := 0;
    while l < |long|
      invariant l <= |long| && forall j :: 0 <= j < l ==> long[j].name != name
    {
      if long[l].name == name {
        return l;
      }
      l := l + 1;
    }
    return -1;
  }

  /** struct parser_convert_state with the tables it fills. */
  class Converter {
    var short: seq<int>
    var long: seq<LongOption>
    var groups: seq<Group>
    var inputs: nat

    ghost function View(): Tables
      reads this
    {
      Tables(short, long, groups, inputs)
    }

    /** parser_convert before the tree: '-' or '+' may lead the string. */
    constructor (lead: seq<int>)
      ensures View() == Tables(lead, [], [], 0)
    {
      short, long, groups, inputs := lead, [], [], 0;
    }

    /** One option of the loop in convert_options. */
    method AddOption(opt: ArgpOption, main: ArgpOption)
      modifies this
      ensures short == old(short) + ShortText(opt, main) && long == WithLong(old(long), opt, main, |old(groups)|)
      ensures groups == old(groups) && inputs == old(inputs)
    {
      if !main.doc {
        if opt.IsShort() {
          short := short + [opt.key];
          if main.hasArg {
            short := short + [COLON];
            if main.optionalArg {
              short := short + [COLON];
            }
          }
        }
        if opt.name.Some? {
          var i := FindLong(long, opt.name.value);
          if i < 0 {
            long := long + [LongEntry(opt, main, |groups|)];
          }
        }
      }
    }

    method AddGroup(argp: Argp, parent: Option<nat>, index: nat)
      requires HasGroup(argp)
      modifies this
      ensures View() == WithGroup(argp, old(View()), parent, index)
    {
      var opts := OwnOptions(argp);
      if |opts| > 0 {
        var main := opts[0];
        for n := 0 to |opts|
          invariant main == Real(opts, if n == 0 then 0 else n - 1)
          invariant short == WithShorts(old(short), opts, n) && long == WithLongs(old(long), opts, n, |groups|)
          invariant groups == old(groups) && inputs == old(inputs)
        {
          if !opts[n].alias {
            main := opts[n];
          }
          AddOption(opts[n], main);
        }
      }
      var slots := None;
      if argp.children.Child? {
        slots := Some(inputs);
        inputs := inputs + NumChildren(argp.children);
      }
      groups := groups + [Group(argp.id, argp.hasParser, |short|, parent, index, slots)];
    }

    method ConvertOptions(argp: Argp, parent: Option<nat>, index: nat)
      modifies this
      ensures View() == Converted(argp, old(View()), parent, index)
      decreases argp
    {
      var up := None;
      if HasGroup(argp) {
        up := Some(|groups|);
        AddGroup(argp, parent, index);
      }
      var cs, i := argp.children, 0;
      while cs.Child?
        invariant cs == argp.children || cs < argp.children
        invariant ChildrenConverted(cs, View(), up, i) == Converted(argp, old(View()), parent, index)
        decreases cs
      {
        ConvertOptions(cs.argp, up, i);
        cs, i := cs.rest, i + 1;
      }
    }
  }

  // ----- Short options find their argp -----

  ghost function FirstIndex(s: seq<int>, n: nat, k: int): Option<nat>
    requires n <= |s|
  {
    if n == 0 then None else OrElse(FirstIndex(s, n - 1, k), if s[n - 1] == k then Some(n - 1) else None)
  }

  /** The first group whose short options end behind position `i`. */
  ghost function GroupAt(groups: seq<Group>, n: nat, i: nat): Option<nat>
    requires n <= |groups|
  {
    if n == 0 then None else OrElse(GroupAt(groups, n - 1, i), if groups[n - 1].shortEnd > i then Some(groups[n - 1].argp) else None)
  }

  ghost function Dispatch(t: Tables, k: int): Option<nat> {
    var i := FirstIndex(t.short, |t.short|, k);
    if i.None? then None else GroupAt(t.groups, |t.groups|, i.value)
  }

  lemma {:induction false} FirstIndexIs(s: seq<int>, n: nat, k: int)
    requires n <= |s|
    ensures FirstIndex(s, n, k).None? <==> k !in s[..n]
    ensures FirstIndex(s, n, k).Some? ==> FirstIndex(s, n, k).value < n && s[FirstIndex(s, n, k).value] == k
  {
    if n > 0 {
      FirstIndexIs(s, n - 1, k);
      assert s[..n] == s[..n - 1] + [s[n - 1]];
    }
  }

  lemma {:induction false} FirstIndexConcat(s: seq<int>, u: seq<int>, m: nat, k: int)
    requires m <= |u|
    ensures var a, b := FirstIndex(s, |s|, k), FirstIndex(u, m, k);
      FirstIndex(s + u, |s| + m, k) == if a.Some? then a else if b.Some? then Some(|s| + b.value) else None
  {
    if m == 0 {
      FirstIndexPrefix(s, u, |s|, k);
    } else {
      FirstIndexConcat(s, u, m - 1, k);
    }
  }

  lemma {:induction false} FirstIndexPrefix(s: seq<int>, u: seq<int>, n: nat, k: int)
    requires n <= |s|
    ensures FirstIndex(s + u, n, k) == FirstIndex(s, n, k)
  {
    if n > 0 {
      FirstIndexPrefix(s, u, n - 1, k);
    }
  }

  /** Every group's options end inside the string. */
  ghost predicate Ends(groups: seq<Group>, limit: nat) { forall g :: 0 <= g < |groups| ==> groups[g].shortEnd <= limit }

  lemma {:induction false} GroupAtNone(groups: seq<Group>, n: nat, i: nat)
    requires n <= |groups| && Ends(groups, i)
    ensures GroupAt(groups, n, i).None?
  {
    if n > 0 {
      GroupAtNone(groups, n - 1, i);
    }
  }

  lemma {:induction false} GroupAtSnoc(groups: seq<Group>, g: Group, n: nat, i: nat)
    requires n <= |groups|
    ensures GroupAt(groups + [g], n, i) == GroupAt(groups, n, i)
  {
    if n > 0 {
      GroupAtSnoc(groups, g, n - 1, i);
    }
  }

  /** The tables dispatch key `k` to argp `o`, or do not have it. */
  ghost predicate Sends(t: Tables, k: int, o: Option<nat>) {
    Ends(t.groups, |t.short|) && Dispatch(t, k) == o && (o.None? ==> FirstIndex(t.short, |t.short|, k).None?)
  }

  /** A group appended with its own stretch `u` of the string. */
  lemma SendsGroup(t: Tables, k: int, o: Option<nat>, u: seq<int>, g: Group, t': Tables)
    requires Sends(t, k, o) && t'.short == t.short + u && t'.groups == t.groups + [g] && g.shortEnd == |t'.short|
    ensures Sends(t', k, OrElse(o, if k in u then Some(g.argp) else None))
  {
    FirstIndexConcat(t.short, u, |u|, k);
    FirstIndexIs(t.short, |t.short|, k);
    FirstIndexIs(u, |u|, k);
    assert u[..|u|] == u;
    var i := FirstIndex(t'.short, |t'.short|, k);
    if i.Some? {
      GroupAtSnoc(t.groups, g, |t.groups|, i.value);
      if o.None? {
        GroupAtNone(t.groups, |t.groups|, i.value);
      }
    }
  }

  /** A short key that the parser takes from the options: not one of a documentation entry's aliases. */
  ghost predicate HasRealShort(opts: seq<ArgpOption>, k: int) {
    exists j :: 0 <= j < |opts| && RealShortAt(opts, j, k)
  }

  ghost predicate RealShortAt(opts: seq<ArgpOption>, j: int, k: int)
    requires 0 <= j < |opts|
  {
    opts[j].IsShort() && opts[j].key == k && !Real(opts, j).doc
  }

  /** The first argp in preorder from which the parser takes the short key. */
  ghost function RealOwner(argp: Argp, k: int): Option<nat> {
    OrElse(OwnRealOwner(argp, k), ChildRealOwner(argp.children, k))
  }

  ghost function OwnRealOwner(argp: Argp, k: int): Option<nat> {
    if HasRealShort(OwnOptions(argp), k) then Some(argp.id) else None
  }

  ghost function ChildRealOwner(cs: Children, k: int): Option<nat> {
    match cs case End => None case Child(c, rest) => OrElse(RealOwner(c, k), ChildRealOwner(rest, k))
  }

  function OwnText(opts: seq<ArgpOption>, n: nat): seq<int>
    requires n <= |opts|
  {
    if n == 0 then [] else OwnText(opts, n - 1) + ShortText(opts[n - 1], Real(opts, n - 1))
  }

  lemma {:induction false} WithShortsAppends(short: seq<int>, opts: seq<ArgpOption>, n: nat)
    requires n <= |opts|
    ensures WithShorts(short, opts, n) == short + OwnText(opts, n)
  {
    if n > 0 {
      WithShortsAppends(short, opts, n - 1);
    }
  }

  lemma {:induction false} OwnTextHas(opts: seq<ArgpOption>, n: nat, k: int)
    requires n <= |opts| && k != COLON
    ensures k in OwnText(opts, n) <==> exists j :: 0 <= j < n && RealShortAt(opts, j, k)
  {
    if n > 0 {
      OwnTextHas(opts, n - 1, k);
      ShortTextHas(opts, n - 1, k);
      InEither(OwnText(opts, n - 1), ShortText(opts[n - 1], Real(opts, n - 1)), k);
      assert RealShortAt(opts, n - 1, k) ==> exists j :: 0 <= j < n && RealShortAt(opts, j, k);
    } else {
      assert OwnText(opts, 0) == [];
    }
  }

  lemma ShortTextHas(opts: seq<ArgpOption>, j: nat, k: int)
    requires j < |opts| && k != COLON
    ensures k in ShortText(opts[j], Real(opts, j)) <==> RealShortAt(opts, j, k)
  {
  }

  lemma InEither(a: seq<int>, b: seq<int>, k: int)
    ensures k in a + b <==> k in a || k in b
  {
  }

  lemma SendsOwn(argp: Argp, t: Tables, parent: Option<nat>, index: nat, k: int, o: Option<nat>)
    requires Sends(t, k, o) && k != COLON
    ensures Sends(WithGroup(argp, t, parent, index), k, OrElse(o, OwnRealOwner(argp, k)))
  {
    if HasGroup(argp) {
      var opts := OwnOptions(argp);
      var t' := WithGroup(argp, t, parent, index);
      WithShortsAppends(t.short, opts, |opts|);
      OwnTextHas(opts, |opts|, k);
      SendsGroup(t, k, o, OwnText(opts, |opts|), t'.groups[|t.groups|], t');
    }
  }

  /** Converting an argp adds its first owner in preorder for every key that had none. */
  lemma {:induction false} ConvertedSends(argp: Argp, t: Tables, parent: Option<nat>, index: nat, k: int, o: Option<nat>)
    requires Sends(t, k, o) && k != COLON
    ensures Sends(Converted(argp, t, parent, index), k, OrElse(o, RealOwner(argp, k)))
  {
    SendsOwn(argp, t, parent, index, k, o);
    ChildrenConvertedSends(argp.children, WithGroup(argp, t, parent, index), if HasGroup(argp) then Some(|t.groups|) else None, 0, k,
                           OrElse(o, OwnRealOwner(argp, k)));
  }

  lemma {:induction false} ChildrenConvertedSends(cs: Children, t: Tables, parent: Option<nat>, index: nat, k: int, o: Option<nat>)
    requires Sends(t, k, o) && k != COLON
    ensures Sends(ChildrenConverted(cs, t, parent, index), k, OrElse(o, ChildRealOwner(cs, k)))
  {
    if cs.Child? {
      ConvertedSends(cs.argp, t, parent, index, k, o);
      ChildrenConvertedSends(cs.rest, Converted(cs.argp, t, parent, index), parent, index + 1, k, OrElse(o, RealOwner(cs.argp, k)));
    }
  }

  /** A parser's tables for a tree; `lead` is what ARGP_IN_ORDER or ARGP_NO_ARGS puts in front of the string. */
  ghost function ParserTables(argp: Argp, lead: seq<int>): Tables { Converted(argp, Tables(lead, [], [], 0), None, 0) }

  /** In every tree the short key goes to the first argp in preorder that has it under a real option. */
  lemma DispatchToRealOwner(argp: Argp, lead: seq<int>, k: int)
    requires k != COLON && k !in lead
    ensures Dispatch(ParserTables(argp, lead), k) == RealOwner(argp, k)
  {
    FirstIndexIs(lead, |lead|, k);
    ConvertedSends(argp, Tables(lead, [], [], 0), None, 0, k, None);
  }

  // ----- Help and parser -----

  /** No argp has the key, or the first in preorder that has it has it under a real option. */
  ghost predicate FirstIsReal(argp: Argp, k: int) {
    if OwnOwner(argp, k).Some? then HasRealShort(OwnOptions(argp), k) else ChildFirstIsReal(argp.children, k)
  }

  ghost predicate ChildFirstIsReal(cs: Children, k: int) {
    match cs case End => true
    case Child(c, rest) => if Owner(c, k).Some? then FirstIsReal(c, k) else ChildFirstIsReal(rest, k)
  }

  ghost function Nodes(argp: Argp): set<Argp> { {argp} + ChildNodes(argp.children) }

  ghost function ChildNodes(cs: Children): set<Argp> {
    match cs case End => {} case Child(c, rest) => Nodes(c) + ChildNodes(rest)
  }

  /** An `id` stands for one address: argps that share it have the same options. */
  ghost predicate Addressed(argp: Argp) {
    forall m, n :: m in Nodes(argp) && n in Nodes(argp) && m.id == n.id ==> m.options == n.options
  }

  lemma RealIsShort(argp: Argp, k: int)
    ensures HasRealShort(OwnOptions(argp), k) ==> OwnOwner(argp, k) == Some(argp.id)
  {
    if j :| 0 <= j < |OwnOptions(argp)| && RealShortAt(OwnOptions(argp), j, k) {
      assert argp.options.value[j].IsShort();
    }
  }

  lemma {:induction false} NoOwnerNoRealOwner(argp: Argp, k: int)
    ensures RealOwner(argp, k).Some? ==> Owner(argp, k).Some?
  {
    RealIsShort(argp, k);
    ChildNoOwner(argp.children, k);
  }

  lemma {:induction false} ChildNoOwner(cs: Children, k: int)
    ensures ChildRealOwner(cs, k).Some? ==> ChildOwner(cs, k).Some?
  {
    if cs.Child? {
      NoOwnerNoRealOwner(cs.argp, k);
      ChildNoOwner(cs.rest, k);
    }
  }

  lemma {:induction false} FirstIsRealOwner(argp: Argp, k: int)
    requires FirstIsReal(argp, k)
    ensures RealOwner(argp, k) == Owner(argp, k)
  {
    RealIsShort(argp, k);
    if OwnOwner(argp, k).None? {
      ChildFirstIsRealOwner(argp.children, k);
    }
  }

  lemma {:induction false} ChildFirstIsRealOwner(cs: Children, k: int)
    requires ChildFirstIsReal(cs, k)
    ensures ChildRealOwner(cs, k) == ChildOwner(cs, k)
  {
    if cs.Child? {
      NoOwnerNoRealOwner(cs.argp, k);
      if Owner(cs.argp, k).Some? {
        FirstIsRealOwner(cs.argp, k);
      } else {
        ChildFirstIsRealOwner(cs.rest, k);
      }
    }
  }

  /** The argp that the parser takes a key from. */
  lemma {:induction false} RealOwnerNode(argp: Argp, k: int) returns (n: Argp)
    requires RealOwner(argp, k).Some?
    ensures n in Nodes(argp) && RealOwner(argp, k) == Some(n.id) && HasRealShort(OwnOptions(n), k)
  {
    n := argp;
    if OwnRealOwner(argp, k).None? {
      n := ChildRealOwnerNode(argp.children, k);
    }
  }

  lemma {:induction false} ChildRealOwnerNode(cs: Children, k: int) returns (n: Argp)
    requires ChildRealOwner(cs, k).Some?
    ensures n in ChildNodes(cs) && ChildRealOwner(cs, k) == Some(n.id) && HasRealShort(OwnOptions(n), k)
  {
    if RealOwner(cs.argp, k).Some? {
      n := RealOwnerNode(cs.argp, k);
    } else {
      n := ChildRealOwnerNode(cs.rest, k);
    }
  }

  /** The argp that owns a key only as an alias of documentation. */
  lemma {:induction false} AliasOwnerNode(argp: Argp, k: int) returns (n: Argp)
    requires !FirstIsReal(argp, k)
    ensures n in Nodes(argp) && Owner(argp, k) == Some(n.id) && !HasRealShort(OwnOptions(n), k)
  {
    n := argp;
    if OwnOwner(argp, k).None? {
      n := ChildAliasOwnerNode(argp.children, k);
    }
  }

  lemma {:induction false} ChildAliasOwnerNode(cs: Children, k: int) returns (n: Argp)
    requires !ChildFirstIsReal(cs, k)
    ensures n in ChildNodes(cs) && ChildOwner(cs, k) == Some(n.id) && !HasRealShort(OwnOptions(n), k)
  {
    if Owner(cs.argp, k).Some? {
      n := AliasOwnerNode(cs.argp, k);
    } else {
      n := ChildAliasOwnerNode(cs.rest, k);
    }
  }

  /** The parser dispatches a key to its owner exactly when the first argp that has it has it under a real option. */
  lemma OwnersAgreeIff(argp: Argp, k: int)
    requires Addressed(argp)
    ensures RealOwner(argp, k) == Owner(argp, k) <==> FirstIsReal(argp, k)
  {
    if FirstIsReal(argp, k) {
      FirstIsRealOwner(argp, k);
    } else {
      var n := AliasOwnerNode(argp, k);
      if RealOwner(argp, k).Some? {
        var m := RealOwnerNode(argp, k);
        assert m.id == n.id ==> m.options == n.options;
      }
    }
  }

  /** An entry that shows the key belongs to the argp it is dispatched to, and it is shown just if it is dispatched. */
  ghost predicate Agree(h: Hol, t: Tables, k: int) {
    && (forall i: nat :: i < |h.entries| && Shows(h, i, k) ==> Dispatch(t, k) == Some(h.entries[i].argp))
    && (Dispatch(t, k).Some? <==> exists i: nat :: i < |h.entries| && Shows(h, i, k))
  }

  lemma AgreeMeansOwner(h: Hol, t: Tables, k: int)
    requires Canonical(h)
    ensures Agree(h, t, k) <==> Dispatch(t, k) == EntryOwner(h.entries, |h.entries|, k)
  {
    forall i: nat | i < |h.entries| && Shows(h, i, k)
      ensures EntryOwner(h.entries, |h.entries|, k) == Some(h.entries[i].argp)
    {
      ShownByOwner(h, i, k);
    }
    if EntryOwner(h.entries, |h.entries|, k).Some? {
      var i := OwnedIsShown(h, |h.entries|, k);
    }
  }

  /**
   Help and parser agree on a short key of any tree exactly when no argp has it, or the first in
   preorder that has it has it under a real option.
   */
  lemma HelpAgreesWithParser(argp: Argp, h: Hol, lead: seq<int>, k: int)
    requires Canonical(h) && forall j :: EntryOwner(h.entries, |h.entries|, j) == Owner(argp, j)
    requires Addressed(argp) && k != COLON && k !in lead
    ensures Agree(h, ParserTables(argp, lead), k) <==> FirstIsReal(argp, k)
  {
    DispatchToRealOwner(argp, lead, k);
    AgreeMeansOwner(h, ParserTables(argp, lead), k);
    OwnersAgreeIff(argp, k);
  }

  /** An alias with a short key under a documentation entry: help shows the key, the parser does not know it. */
  lemma DocAliasUnknown()
    ensures var text := ArgpOption(Some("text"), 0, false, false, false, true, false);
      var alias := ArgpOption(None, 97, false, false, true, false, false);
      var argp := Argp(1, Some([text, alias]), true, None, End);
      Owner(argp, 97) == Some(1) && Dispatch(ParserTables(argp, []), 97).None?
  {
    var text := ArgpOption(Some("text"), 0, false, false, false, true, false);
    var alias := ArgpOption(None, 97, false, false, true, false, false);
    var opts := [text, alias];
    var argp := Argp(1, Some(opts), true, None, End);
    assert opts[1].IsShort() && opts[1].key == 97;
    assert HasShort(opts, 97);
    assert Real(opts, 1) == Real(opts, 0) == text;
    assert WithShorts([], opts, 0) == [];
    assert WithShorts([], opts, 1) == [];
    assert WithShorts([], opts, 2) == [];
    var t := Tables([], [], [], 0);
    assert OwnOptions(argp) == opts;
    assert WithGroup(argp, t, None, 0).short == [];
    assert ChildrenConverted(End, WithGroup(argp, t, None, 0), Some(0), 0) == WithGroup(argp, t, None, 0);
    assert ParserTables(argp, []) == Converted(argp, t, None, 0) == WithGroup(argp, t, None, 0);
  }

  // ----- parser_parse_opt -----

  /** opt >> USER_BITS. */
  function GroupKey(opt: int): int { opt / 0x100_0000 }

  /** (opt << GROUP_BITS) >> GROUP_BITS. */
  function SignedKey(opt: int): int { WrapInt(opt * 0x100) / 0x100 }

  /** Group and key survive the encoding just if the group is among the first 127 and the key has 24 bits. */
  lemma EncodingFaithful(key: int, group: nat)
    ensures (GroupKey(Encode(key, group)) == group + 1 && SignedKey(Encode(key, group)) == key)
       <==> (group + 1 <= 127 && -0x80_0000 <= key < 0x80_0000)
  {
  }

  /** The group an option value belongs to, with the key its parser gets. */
  method FindGroup(t: Tables, opt: int) returns (r: Option<(nat, int)>)
    requires GroupKey(opt) != 0 ==> 1 <= GroupKey(opt) <= |t.groups|
    ensures r.Some? ==> r.value.0 < |t.groups|
    ensures GroupKey(opt) == 0 ==>
      (if r.None? then Dispatch(t, opt).None? else Dispatch(t, opt) == Some(t.groups[r.value.0].argp) && r.value.1 == opt)
    ensures GroupKey(opt) != 0 ==> r == Some((GroupKey(opt) - 1, SignedKey(opt)))
  {
    var groupKey := GroupKey(opt);
    if groupKey != 0 {
      return Some((groupKey - 1, SignedKey(opt)));
    }
    var i := 0;
    while i < |t.short| && t.short[i] != opt
      invariant i <= |t.short| && FirstIndex(t.short, i, opt).None?
    {
      i := i + 1;
    }
    if i == |t.short| {
      return None;
    }
    FoundStays(t.short, i + 1, |t.short|, opt);
    var g := 0;
    while g < |t.groups|
      invariant g <= |t.groups| && GroupAt(t.groups, g, i).None?
    {
      if t.groups[g].shortEnd > i {
        GroupStays(t.groups, g + 1, |t.groups|, i);
        return Some((g, opt));
      }
      g := g + 1;
    }
    return None;
  }

  lemma {:induction false} FoundStays(s: seq<int>, m: nat, n: nat, k: int)
    requires m <= n <= |s| && FirstIndex(s, m, k).Some?
    ensures FirstIndex(s, n, k) == FirstIndex(s, m, k)
    decreases n
  {
    if m < n {
      FoundStays(s, m, n - 1, k);
    }
  }

  lemma {:induction false} GroupStays(groups: seq<Group>, m: nat, n: nat, i: nat)
    requires m <= n <= |groups| && GroupAt(groups, m, i).Some?
    ensures GroupAt(groups, n, i) == GroupAt(groups, m, i)
    decreases n
  {
    if m < n {
      GroupStays(groups, m, n - 1, i);
    }
  }

  // ----- Sizes -----

  function NumGroups(argp: Argp): nat { (if HasGroup(argp) then 1 else 0) + ChildGroups(argp.children) }

  function ChildGroups(cs: Children): nat { match cs case End => 0 case Child(c, rest) => NumGroups(c) + ChildGroups(rest) }

  function NumOptions(argp: Argp): nat { |OwnOptions(argp)| + ChildOptions(argp.children) }

  function ChildOptions(cs: Children): nat { match cs case End => 0 case Child(c, rest) => NumOptions(c) + ChildOptions(rest) }

  function NumInputs(cs: Children): nat {
    match cs case End => 0 case Child(c, rest) => 1 + NumInputs(c.children) + NumInputs(rest)
  }

  /** struct parser_sizes. */
  datatype Sizes = Sizes(shortLen: nat, longLen: nat, numGroups: nat, numInputs: nat)

  function PlusSizes(s: Sizes, options: nat, groups: nat, inputs: nat): Sizes {
    Sizes(s.shortLen + 3 * options, s.longLen + options, s.numGroups + groups, s.numInputs + inputs)
  }

  /** calc_sizes. */
  method CalcSizes(argp: Argp, szs: Sizes) returns (szs': Sizes)
    ensures szs' == PlusSizes(szs, NumOptions(argp), NumGroups(argp), NumInputs(argp.children))
    decreases argp
  {
    szs' := szs;
    if argp.options.Some? || argp.hasParser {
      szs' := szs'.(numGroups := szs'.numGroups + 1);
      if argp.options.Some? {
        var n := |argp.options.value|;
        szs' := szs'.(shortLen := szs'.shortLen + n * 3, longLen := szs'.longLen + n);
      }
    }
    var cs := argp.children;
    while cs.Child?
      invariant cs == argp.children || cs < argp.children
      invariant PlusSizes(szs', ChildOptions(cs), ChildGroups(cs), NumInputs(cs)) ==
                PlusSizes(szs, NumOptions(argp), NumGroups(argp), NumInputs(argp.children))
      decreases cs
    {
      szs' := CalcSizes(cs.argp, szs');
      szs' := szs'.(numInputs := szs'.numInputs + 1);
      cs := cs.rest;
    }
  }

  /** What conversion uses of the space calc_sizes found. */
  ghost predicate Within(t: Tables, t': Tables, options: nat, groups: nat, inputs: nat) {
    && |t'.groups| == |t.groups| + groups && |t'.short| <= |t.short| + 3 * options && |t'.long| <= |t.long| + options
    && t'.inputs <= t.inputs + inputs
  }

  lemma {:induction false} OwnSizes(t: Tables, opts: seq<ArgpOption>, n: nat, g: nat)
    requires n <= |opts|
    ensures |WithShorts(t.short, opts, n)| <= |t.short| + 3 * n && |WithLongs(t.long, opts, n, g)| <= |t.long| + n
  {
    if n > 0 {
      OwnSizes(t, opts, n - 1, g);
    }
  }

  /** An inner argp's slots for its children are counted apart from those of its descendants. */
  function InnerInputs(cs: Children): nat {
    match cs case End => 0 case Child(c, rest) => NumInputs(c.children) + InnerInputs(rest)
  }

  lemma {:induction false} InputsSplit(cs: Children)
    ensures NumInputs(cs) == NumChildren(cs) + InnerInputs(cs)
  {
    if cs.Child? {
      InputsSplit(cs.rest);
    }
  }

  lemma {:induction false} ConvertedSizes(argp: Argp, t: Tables, parent: Option<nat>, index: nat)
    ensures Within(t, Converted(argp, t, parent, index), NumOptions(argp), NumGroups(argp), NumInputs(argp.children))
  {
    if HasGroup(argp) {
      OwnSizes(t, OwnOptions(argp), |OwnOptions(argp)|, |t.groups|);
    }
    InputsSplit(argp.children);
    ChildrenConvertedSizes(argp.children, WithGroup(argp, t, parent, index), if HasGroup(argp) then Some(|t.groups|) else None, 0);
  }

  lemma {:induction false} ChildrenConvertedSizes(cs: Children, t: Tables, parent: Option<nat>, index: nat)
    ensures Within(t, ChildrenConverted(cs, t, parent, index), ChildOptions(cs), ChildGroups(cs), InnerInputs(cs))
  {
    if cs.Child? {
      ConvertedSizes(cs.argp, t, parent, index);
      ChildrenConvertedSizes(cs.rest, Converted(cs.argp, t, parent, index), parent, index + 1);
    }
  }

  /**
   parser_init without ARGP_NO_ARGS: one byte is allowed for the leading '-', and the tables stay
   within what calc_sizes counted, with every group used.
   */
  lemma TablesFit(argp: Argp, lead: seq<int>, szs: Sizes)
    requires |lead| <= 1 && szs == PlusSizes(Sizes(1, 0, 0, 0), NumOptions(argp), NumGroups(argp), NumInputs(argp.children))
    ensures var t := ParserTables(argp, lead);
      |t.groups| == szs.numGroups && |t.short| <= szs.shortLen && |t.long| <= szs.longLen && t.inputs <= szs.numInputs
  {
    ConvertedSizes(argp, Tables(lead, [], [], 0), None, 0);
  }

  // ----- Long options find their argp -----

  /** A long option as first defined in preorder: by which argp, in which group, and the real option it is or is an alias of. */
  datatype Definition = Definition(argp: nat, group: nat, opt: ArgpOption, main: ArgpOption)

  ghost function OwnLong(argp: Argp, n: nat, name: string, g: nat): Option<Definition>
    requires n <= |OwnOptions(argp)|
  {
    if n == 0 then None
    else
      var opt, main := OwnOptions(argp)[n - 1], Real(OwnOptions(argp), n - 1);
      OrElse(OwnLong(argp, n - 1, name, g),
             if !main.doc && opt.name == Some(name) then Some(Definition(argp.id, g, opt, main)) else None)
  }

  /** The first definition in preorder when the tree's groups are numbered from `g`. */
  ghost function LongOwner(argp: Argp, name: string, g: nat): Option<Definition> {
    OrElse(OwnLong(argp, |OwnOptions(argp)|, name, g), ChildLong(argp.children, name, g + if HasGroup(argp) then 1 else 0))
  }

  ghost function ChildLong(cs: Children, name: string, g: nat): Option<Definition> {
    match cs case End => None case Child(c, rest) => OrElse(LongOwner(c, name, g), ChildLong(rest, name, g + NumGroups(c)))
  }

  /** The name stands for the definition, and for nothing else. */
  ghost predicate Known(long: seq<LongOption>, name: string, o: Option<Definition>) {
    && (HasLong(long, name) <==> o.Some?)
    && (o.Some? ==> o.value.opt.name == Some(name))
    && (o.Some? ==> forall i :: 0 <= i < |long| && long[i].name == name ==> long[i] == LongEntry(o.value.opt, o.value.main, o.value.group))
  }

  ghost predicate KnownIn(t: Tables, name: string, o: Option<Definition>) {
    Known(t.long, name, o) && (o.Some? ==> o.value.group < |t.groups| && t.groups[o.value.group].argp == o.value.argp)
  }

  lemma {:induction false} KnownOwn(argp: Argp, n: nat, long: seq<LongOption>, name: string, o: Option<Definition>, g: nat)
    requires n <= |OwnOptions(argp)| && Known(long, name, o)
    ensures Known(WithLongs(long, OwnOptions(argp), n, g), name, OrElse(o, OwnLong(argp, n, name, g)))
  {
    if n > 0 {
      KnownOwn(argp, n - 1, long, name, o, g);
      var before := WithLongs(long, OwnOptions(argp), n - 1, g);
      var after := WithLongs(long, OwnOptions(argp), n, g);
      if after != before {
        assert after[..|before|] == before;
        assert HasLong(before, name) ==> HasLong(after, name);
        assert after[|before|].name == name ==> HasLong(after, name);
      }
    }
  }

  lemma {:induction false} OwnLongIn(argp: Argp, n: nat, name: string, g: nat)
    requires n <= |OwnOptions(argp)|
    ensures OwnLong(argp, n, name, g).Some? ==>
      HasGroup(argp) && OwnLong(argp, n, name, g).value.argp == argp.id && OwnLong(argp, n, name, g).value.group == g
  {
    if n > 0 {
      OwnLongIn(argp, n - 1, name, g);
    }
  }

  lemma {:induction false} ConvertedLong(argp: Argp, t: Tables, parent: Option<nat>, index: nat, name: string, o: Option<Definition>)
    requires KnownIn(t, name, o)
    ensures KnownIn(Converted(argp, t, parent, index), name, OrElse(o, LongOwner(argp, name, |t.groups|)))
  {
    var n := |OwnOptions(argp)|;
    var own := OrElse(o, OwnLong(argp, n, name, |t.groups|));
    KnownOwn(argp, n, t.long, name, o, |t.groups|);
    OwnLongIn(argp, n, name, |t.groups|);
    assert KnownIn(WithGroup(argp, t, parent, index), name, own);
    ChildrenConvertedLong(argp.children, WithGroup(argp, t, parent, index), if HasGroup(argp) then Some(|t.groups|) else None, 0, name, own);
  }

  lemma {:induction false} ChildrenConvertedLong(cs: Children, t: Tables, parent: Option<nat>, index: nat, name: string, o: Option<Definition>)
    requires KnownIn(t, name, o)
    ensures KnownIn(ChildrenConverted(cs, t, parent, index), name, OrElse(o, ChildLong(cs, name, |t.groups|)))
  {
    if cs.Child? {
      ConvertedLong(cs.argp, t, parent, index, name, o);
      ConvertedSizes(cs.argp, t, parent, index);
      ChildrenConvertedLong(cs.rest, Converted(cs.argp, t, parent, index), parent, index + 1, name,
                            OrElse(o, LongOwner(cs.argp, name, |t.groups|)));
    }
  }

  /**
   With at most 127 groups, the value getopt returns for a long option leads to the argp that
   defines the name first in preorder, and to that definition's key if it has 24 bits; an alias without
   a key has that of its real option, and always its kind of argument.
   */
  lemma LongOptionFound(argp: Argp, lead: seq<int>, name: string, i: nat)
    requires NumGroups(argp) <= 127
    requires i < |ParserTables(argp, lead).long| && ParserTables(argp, lead).long[i].name == name
    ensures var t, o := ParserTables(argp, lead), LongOwner(argp, name, 0);
      && o.Some? && GroupKey(t.long[i].val) == o.value.group + 1 && o.value.group < |t.groups|
      && t.groups[o.value.group].argp == o.value.argp
      && (var key := if o.value.opt.key != 0 then o.value.opt.key else o.value.main.key;
          SignedKey(t.long[i].val) == key <==> -0x80_0000 <= key < 0x80_0000)
      && 0 <= t.long[i].args <= 2 && (t.long[i].args == 0 <==> !o.value.main.hasArg)
      && (t.long[i].args == 2 <==> o.value.main.hasArg && o.value.main.optionalArg)
  {
    var t, o := ParserTables(argp, lead), LongOwner(argp, name, 0);
    ConvertedLong(argp, Tables(lead, [], [], 0), None, 0, name, None);
    ConvertedSizes(argp, Tables(lead, [], [], 0), None, 0);
    assert HasLong(t.long, name);
    var d := o.value;
    EncodingFaithful(UserKey(d.opt, d.main), d.group);
    EncodingFaithful(0, d.group);
  }

  /** Every name defined in the tree is in the vector. */
  lemma LongOptionKept(argp: Argp, lead: seq<int>, name: string)
    ensures HasLong(ParserTables(argp, lead).long, name) <==> LongOwner(argp, name, 0).Some?
  {
    ConvertedLong(argp, Tables(lead, [], [], 0), None, 0, name, None);
  }
}
