/**
 Whether getopt takes an argument for a short option, as the colons behind its key say, and whether
 that is what the option's description says.
 */
module ArgpKinds {
  import opened Options
  import opened ArgpTree
  import opened ArgpConvert

  /** A short option that the parser knows, with the argp it is of and the real option it is or is an alias of. */
  datatype Item = Item(argp: nat, opt: ArgpOption, main: ArgpOption)

  function OwnItems(argp: Argp, n: nat): seq<Item>
    requires n <= |OwnOptions(argp)|
  {
    if n == 0 then []
    else
      var opt, main := OwnOptions(argp)[n - 1], Real(OwnOptions(argp), n - 1);
      OwnItems(argp, n - 1) + if opt.IsShort() && !main.doc then [Item(argp.id, opt, main)] else []
  }

  /** All of a tree, in preorder. */
  function Items(argp: Argp): seq<Item> { OwnItems(argp, |OwnOptions(argp)|) + ChildItems(argp.children) }

  function ChildItems(cs: Children): seq<Item> { match cs case End => [] case Child(c, rest) => Items(c) + ChildItems(rest) }

  function Text(items: seq<Item>): seq<int> {
    if items == [] then [] else ShortText(items[0].opt, items[0].main) + Text(items[1..])
  }

  lemma {:induction false} TextConcat(a: seq<Item>, b: seq<Item>)
    ensures Text(a + b) == Text(a) + Text(b)
  {
    if a == [] {
      assert a + b == b;
    } else {
      TextConcat(a[1..], b);
      assert (a + b)[1..] == a[1..] + b;
      Regroup(ShortText(a[0].opt, a[0].main), Text(a[1..]), Text(b));
    }
  }

  lemma TextOfOne(it: Item)
    ensures Text([it]) == ShortText(it.opt, it.main)
  {
    assert [it][1..] == [] && Text([]) == [];
  }

  lemma {:induction false} OwnTextIs(argp: Argp, n: nat)
    requires n <= |OwnOptions(argp)|
    ensures OwnText(OwnOptions(argp), n) == Text(OwnItems(argp, n))
  {
    if n > 0 {
      var opt, main := OwnOptions(argp)[n - 1], Real(OwnOptions(argp), n - 1);
      OwnTextIs(argp, n - 1);
      TextOfOne(Item(argp.id, opt, main));
      TextConcat(OwnItems(argp, n - 1), if opt.IsShort() && !main.doc then [Item(argp.id, opt, main)] else []);
    }
  }

  /** The string of short options is the text of the tree's items. */
  lemma {:induction false} ConvertedText(argp: Argp, t: Tables, parent: Option<nat>, index: nat)
    ensures Converted(argp, t, parent, index).short == t.short + Text(Items(argp))
  {
    var opts := OwnOptions(argp);
    var own := WithGroup(argp, t, parent, index);
    WithShortsAppends(t.short, opts, |opts|);
    OwnTextIs(argp, |opts|);
    assert own.short == t.short + Text(OwnItems(argp, |opts|));
    ChildrenConvertedText(argp.children, own, if HasGroup(argp) then Some(|t.groups|) else None, 0);
    TextConcat(OwnItems(argp, |opts|), ChildItems(argp.children));
    Regroup(t.short, Text(OwnItems(argp, |opts|)), Text(ChildItems(argp.children)));
  }

  lemma {:induction false} ChildrenConvertedText(cs: Children, t: Tables, parent: Option<nat>, index: nat)
    ensures ChildrenConverted(cs, t, parent, index).short == t.short + Text(ChildItems(cs))
  {
    if cs.Child? {
      ConvertedText(cs.argp, t, parent, index);
      ChildrenConvertedText(cs.rest, Converted(cs.argp, t, parent, index), parent, index + 1);
      TextConcat(Items(cs.argp), ChildItems(cs.rest));
      Regroup(t.short, Text(Items(cs.argp)), Text(ChildItems(cs.rest)));
    }
  }

  // ----- What getopt makes of the string -----

  /** The colons behind position `i`: none, one for an argument, two for an optional one. */
  function ColonsAt(s: seq<int>, i: nat): nat {
    if i + 1 < |s| && s[i + 1] == COLON then if i + 2 < |s| && s[i + 2] == COLON then 2 else 1 else 0
  }

  /** What getopt takes an option to be; none if it does not know it. */
  ghost function GetoptKind(s: seq<int>, k: int): Option<nat> {
    var i := FirstIndex(s, |s|, k);
    if i.None? then None else Some(ColonsAt(s, i.value))
  }

  /** What its description says. */
  function Kind(main: ArgpOption): nat { if !main.hasArg then 0 else if main.optionalArg then 2 else 1 }

  /** The first item with the key, or their number. */
  function FirstItem(items: seq<Item>, k: int): (i: nat)
    ensures i <= |items| && (i < |items| ==> items[i].opt.key == k) && forall j :: 0 <= j < i ==> items[j].opt.key != k
  {
    if items == [] || items[0].opt.key == k then 0 else 1 + FirstItem(items[1..], k)
  }

  ghost predicate Known(items: seq<Item>) { forall i :: 0 <= i < |items| ==> items[i].opt.IsShort() && !items[i].main.doc }

  /** No option with the key of a colon follows an item, which getopt would take for a mark. */
  predicate NoMarkFollows(items: seq<Item>, i: nat)
    requires i < |items|
  {
    Kind(items[i].main) == 2 || i + 1 == |items| || items[i + 1].opt.key != COLON
  }

  lemma TextStarts(items: seq<Item>)
    requires Known(items) && items != []
    ensures Text(items) != [] && Text(items)[0] == items[0].opt.key
  {
  }

  lemma {:induction false} TextKind(items: seq<Item>, k: int)
    requires Known(items) && k != COLON
    ensures var m, kind := FirstItem(items, k), GetoptKind(Text(items), k);
      && (kind.None? <==> m == |items|)
      && (m < |items| ==> (kind == Some(Kind(items[m].main)) <==> NoMarkFollows(items, m)))
  {
    if items != [] {
      if items[0].opt.key == k {
        KindOfFirst(items, k);
      } else {
        TextKind(items[1..], k);
        KindLater(ShortText(items[0].opt, items[0].main), Text(items[1..]), k);
      }
    }
  }

  lemma KindOfFirst(items: seq<Item>, k: int)
    requires Known(items) && k != COLON && items != [] && items[0].opt.key == k
    ensures var kind := GetoptKind(Text(items), k); kind.Some? && (kind.value == Kind(items[0].main) <==> NoMarkFollows(items, 0))
  {
    var v := Text(items[1..]);
    if |items| > 1 {
      TextStarts(items[1..]);
    }
    FirstAtStart(Text(items), k);
  }

  lemma KindLater(u: seq<int>, v: seq<int>, k: int)
    requires k !in u
    ensures GetoptKind(u + v, k) == GetoptKind(v, k)
  {
    FirstIndexConcat(u, v, |v|, k);
    FirstIndexIs(u, |u|, k);
    FirstIndexIs(v, |v|, k);
  }

  lemma FirstAtStart(u: seq<int>, k: int)
    requires u != [] && u[0] == k
    ensures FirstIndex(u, |u|, k) == Some(0)
  {
    assert FirstIndex(u, 0, k).None?;
    assert FirstIndex(u, 1, k) == Some(0);
    FoundStays(u, 1, |u|, k);
  }

  lemma {:induction false} OwnItemsKnown(argp: Argp, n: nat)
    requires n <= |OwnOptions(argp)|
    ensures Known(OwnItems(argp, n))
  {
    if n > 0 {
      OwnItemsKnown(argp, n - 1);
    }
  }

  lemma {:induction false} ItemsKnown(argp: Argp)
    ensures Known(Items(argp))
  {
    OwnItemsKnown(argp, |OwnOptions(argp)|);
    ChildItemsKnown(argp.children);
  }

  lemma {:induction false} ChildItemsKnown(cs: Children)
    ensures Known(ChildItems(cs))
  {
    if cs.Child? {
      ItemsKnown(cs.argp);
      ChildItemsKnown(cs.rest);
    }
  }

  // ----- The owner of the first item -----

  ghost function ItemOwner(items: seq<Item>, k: int): Option<nat> {
    var m := FirstItem(items, k);
    if m == |items| then None else Some(items[m].argp)
  }

  lemma ItemOwnerConcat(a: seq<Item>, b: seq<Item>, k: int)
    ensures ItemOwner(a + b, k) == OrElse(ItemOwner(a, k), ItemOwner(b, k))
  {
    var m, i, j := FirstItem(a + b, k), FirstItem(a, k), FirstItem(b, k);
    assert i < |a| ==> (a + b)[i] == a[i];
    assert j < |b| ==> (a + b)[|a| + j] == b[j];
    assert m < |a| ==> (a + b)[m] == a[m];
    assert |a| <= m < |a + b| ==> (a + b)[m] == b[m - |a|];
  }

  lemma {:induction false} OwnItemOwner(argp: Argp, n: nat, k: int)
    requires n <= |OwnOptions(argp)|
    ensures ItemOwner(OwnItems(argp, n), k) ==
      if exists j :: 0 <= j < n && RealShortAt(OwnOptions(argp), j, k) then Some(argp.id) else None
  {
    if n > 0 {
      var opt, main := OwnOptions(argp)[n - 1], Real(OwnOptions(argp), n - 1);
      OwnItemOwner(argp, n - 1, k);
      ItemOwnerConcat(OwnItems(argp, n - 1), if opt.IsShort() && !main.doc then [Item(argp.id, opt, main)] else [], k);
      assert RealShortAt(OwnOptions(argp), n - 1, k) <==> opt.IsShort() && opt.key == k && !main.doc;
    }
  }

  lemma {:induction false} FirstItemOwner(argp: Argp, k: int)
    ensures ItemOwner(Items(argp), k) == RealOwner(argp, k)
  {
    OwnItemOwner(argp, |OwnOptions(argp)|, k);
    ItemOwnerConcat(OwnItems(argp, |OwnOptions(argp)|), ChildItems(argp.children), k);
    ChildFirstItemOwner(argp.children, k);
  }

  lemma {:induction false} ChildFirstItemOwner(cs: Children, k: int)
    ensures ItemOwner(ChildItems(cs), k) == ChildRealOwner(cs, k)
  {
    if cs.Child? {
      FirstItemOwner(cs.argp, k);
      ChildFirstItemOwner(cs.rest, k);
      ItemOwnerConcat(Items(cs.argp), ChildItems(cs.rest), k);
    }
  }

  /**
   In every tree getopt takes an argument for a short key just as the option that owns it says, if and only if
   no option with the key of a colon follows that option where it would be taken for a mark.
   */
  lemma ArgumentsAsDescribed(argp: Argp, lead: seq<int>, k: int)
    requires k != COLON && k !in lead
    ensures var items := Items(argp);
      var m, kind := FirstItem(items, k), GetoptKind(ParserTables(argp, lead).short, k);
      && (RealOwner(argp, k) == if m == |items| then None else Some(items[m].argp))
      && (kind.None? <==> RealOwner(argp, k).None?)
      && (m < |items| ==> (kind == Some(Kind(items[m].main)) <==> NoMarkFollows(items, m)))
  {
    ConvertedText(argp, Tables(lead, [], [], 0), None, 0);
    ItemsKnown(argp);
    TextKind(Items(argp), k);
    KindLater(lead, Text(Items(argp)), k);
    FirstItemOwner(argp, k);
  }

  /** An option with the key of a colon behind one without argument: getopt takes an argument for the latter. */
  lemma ColonMisread()
    ensures var a, c := ArgpOption(None, 97, false, false, false, false, false), ArgpOption(None, COLON, false, false, false, false, false);
      var argp := Argp(1, Some([a, c]), true, None, End);
      RealOwner(argp, 97) == Some(1) && GetoptKind(ParserTables(argp, []).short, 97) != Some(0)
  {
    var a, c := ArgpOption(None, 97, false, false, false, false, false), ArgpOption(None, COLON, false, false, false, false, false);
    var argp := Argp(1, Some([a, c]), true, None, End);
    assert OwnItems(argp, 0) == [];
    assert OwnItems(argp, 1) == [Item(1, a, a)];
    assert OwnItems(argp, 2) == [Item(1, a, a), Item(1, c, c)];
    assert Items(argp) == OwnItems(argp, 2) + [];
    ArgumentsAsDescribed(argp, [], 97);
  }
}
