/**
 The usage patterns of argp-help.c.  Every argp may offer several alternative lines for its
 arguments; a vector of level bytes, one for each argp with a choice, says which line is next.
 argp_args_usage prints one combination and steps the vector like an odometer.
 */
module ArgpUsage {
  import opened Arith
  import opened ArgpTree

  // ----- Lines of an args_doc -----

  /** strchrnul for newlines: the end of the line that starts at `p`. */
  function LineEnd(doc: string, p: nat): (e: nat)
    requires p <= |doc|
    ensures p <= e <= |doc| && (e < |doc| ==> doc[e] == '\n')
    decreases |doc| - p
  {
    if p == |doc| || doc[p] == '\n' then p else LineEnd(doc, p + 1)
  }

  function LinesFrom(doc: string, p: nat): (ls: seq<string>)
    requires p <= |doc|
    ensures |ls| >= 1 && ls[0] == doc[p..LineEnd(doc, p)] && (|ls| == 1 <==> LineEnd(doc, p) == |doc|)
    decreases |doc| - p
  {
    var e := LineEnd(doc, p);
    if e == |doc| then [doc[p..]] else [doc[p..e]] + LinesFrom(doc, e + 1)
  }

  /** The lines with newlines between them. */
  function Unlines(ls: seq<string>): string
    requires ls != []
  {
    if |ls| == 1 then ls[0] else ls[0] + "\n" + Unlines(ls[1..])
  }

  /** A line ends at the first newline. */
  lemma {:induction false} LineEndFirst(doc: string, p: nat, i: nat)
    requires p <= |doc| && p <= i < LineEnd(doc, p)
    ensures doc[i] != '\n'
    decreases |doc| - p
  {
    if p < i {
      LineEndFirst(doc, p + 1, i);
    }
  }

  lemma {:induction false} LinesClean(doc: string, p: nat, k: nat)
    requires p <= |doc| && k < |LinesFrom(doc, p)|
    ensures '\n' !in LinesFrom(doc, p)[k]
    decreases |doc| - p
  {
    var e := LineEnd(doc, p);
    if k > 0 {
      LinesClean(doc, e + 1, k - 1);
    } else {
      forall i: nat | p <= i < e ensures doc[i] != '\n' {
        LineEndFirst(doc, p, i);
      }
    }
  }

  lemma {:induction false} LinesJoined(doc: string, p: nat)
    requires p <= |doc|
    ensures Unlines(LinesFrom(doc, p)) == doc[p..]
    decreases |doc| - p
  {
    var e := LineEnd(doc, p);
    if e < |doc| {
      LinesJoined(doc, e + 1);
      calc {
        Unlines(LinesFrom(doc, p));
        { UnlinesOf(doc[p..e], LinesFrom(doc, e + 1)); }
        doc[p..e] + "\n" + doc[e + 1..];
        { Rejoin(doc, p, e); }
        doc[p..];
      }
    }
  }

  lemma UnlinesOf(l: string, ls: seq<string>)
    requires ls != []
    ensures Unlines([l] + ls) == l + "\n" + Unlines(ls)
  {
    assert ([l] + ls)[1..] == ls;
  }

  /** The lines are the document cut at every newline. */
  lemma LinesCut(doc: string)
    ensures Unlines(LinesFrom(doc, 0)) == doc && forall k: nat :: k < |LinesFrom(doc, 0)| ==> '\n' !in LinesFrom(doc, 0)[k]
  {
    LinesJoined(doc, 0);
    forall k: nat | k < |LinesFrom(doc, 0)| ensures '\n' !in LinesFrom(doc, 0)[k] {
      LinesClean(doc, 0, k);
    }
  }

  lemma Rejoin(doc: string, p: nat, e: nat)
    requires p <= e < |doc| && doc[e] == '\n'
    ensures doc[p..e] + "\n" + doc[e + 1..] == doc[p..]
  {
  }

  /** The alternatives an argp offers; none if it has no args_doc. */
  function Lines(argp: Argp): seq<string> {
    if argp.argsDoc.None? then [] else LinesFrom(argp.argsDoc.value, 0)
  }

  predicate Multiple(argp: Argp) { |Lines(argp)| > 1 }

  lemma LinesOn(doc: string, p: nat, all: seq<string>, i: nat)
    requires p <= |doc| && i + 1 < |all| && LinesFrom(doc, p) == all[i..]
    ensures LineEnd(doc, p) < |doc| && LinesFrom(doc, LineEnd(doc, p) + 1) == all[i + 1..]
  {
    assert LinesFrom(doc, p)[1..] == all[i + 1..];
  }

  /** The loop that finds line `level`. */
  method FindLine(doc: string, level: int) returns (cp: nat, nl: nat)
    requires level < |LinesFrom(doc, 0)|
    ensures cp <= nl <= |doc| && var l := if level < 0 then 0 else level;
      doc[cp..nl] == LinesFrom(doc, 0)[l] && (nl < |doc| <==> l + 1 < |LinesFrom(doc, 0)|)
  {
    cp, nl := 0, LineEnd(doc, 0);
    var i := 0;
    while i < level
      invariant 0 <= i && (i <= level || i == 0) && cp <= |doc| && nl == LineEnd(doc, cp)
      invariant LinesFrom(doc, cp) == LinesFrom(doc, 0)[i..]
    {
      LinesOn(doc, cp, LinesFrom(doc, 0), i);
      cp := nl + 1;
      nl := LineEnd(doc, cp);
      i := i + 1;
    }
  }

  // ----- The level vector -----

  function Own(argp: Argp): nat { if Multiple(argp) then 1 else 0 }

  /** How many level bytes an argp and its descendants use. */
  function Levels(argp: Argp): nat { Own(argp) + ChildLevels(argp.children) }

  function ChildLevels(cs: Children): nat {
    match cs case End => 0 case Child(c, rest) => Levels(c) + ChildLevels(rest)
  }

  /** argp_args_levels. */
  method ArgsLevels(argp: Argp) returns (levels: nat)
    ensures levels == Levels(argp)
    decreases argp
  {
    levels := 0;
    if argp.argsDoc.Some? && LineEnd(argp.argsDoc.value, 0) < |argp.argsDoc.value| {
      levels := levels + 1;
    }
    var cs := argp.children;
    while cs.Child?
      invariant levels + ChildLevels(cs) == Levels(argp) && (cs == argp.children || cs < argp.children)
      decreases cs
    {
      var l := ArgsLevels(cs.argp);
      levels, cs := levels + l, cs.rest;
    }
  }

  function Radix(argp: Argp): (r: nat)
    ensures r >= 1
  {
    if Multiple(argp) then |Lines(argp)| else 1
  }

  function Times(a: nat, b: nat): (c: nat)
    requires a >= 1 && b >= 1
    ensures c >= 1
  {
    a * b
  }

  /** How many combinations of lines an argp and its descendants offer. */
  function Combinations(argp: Argp): (c: nat)
    ensures c >= 1
  {
    Times(ChildCombinations(argp.children), Radix(argp))
  }

  function ChildCombinations(cs: Children): (c: nat)
    ensures c >= 1
  {
    match cs case End => 1 case Child(c, rest) => Times(Combinations(c), ChildCombinations(rest))
  }

  /** Level `i` of a vector. */
  function At(s: seq<int>, i: int): int { if 0 <= i < |s| then s[i] else 0 }

  /** The argp's own level when its bytes start at `p`; argps without a choice use none. */
  function Digit(argp: Argp, s: seq<int>, p: nat): int { if Multiple(argp) then At(s, p) else 0 }

  /** Every level names a line. */
  ghost predicate InRange(argp: Argp, s: seq<int>, p: nat) {
    0 <= Digit(argp, s, p) < Radix(argp) && ChildrenInRange(argp.children, s, p + Own(argp))
  }

  ghost predicate ChildrenInRange(cs: Children, s: seq<int>, p: nat) {
    match cs case End => true case Child(c, rest) => InRange(c, s, p) && ChildrenInRange(rest, s, p + Levels(c))
  }

  /** Levels that may occur in a signed char without leading behind the last line. */
  ghost predicate Safe(argp: Argp, s: seq<int>, p: nat) {
    SafeLevel(argp, Digit(argp, s, p)) && ChildrenSafe(argp.children, s, p + Own(argp))
  }

  ghost predicate SafeLevel(argp: Argp, d: int) { -128 <= d <= 127 && d < Radix(argp) }

  ghost predicate ChildrenSafe(cs: Children, s: seq<int>, p: nat) {
    match cs case End => true case Child(c, rest) => Safe(c, s, p) && ChildrenSafe(rest, s, p + Levels(c))
  }

  function Join(low: int, base: int, high: int): int { low + base * high }

  /** The vector read as a number: the first child counts fastest and the argp's own level slowest. */
  ghost function Value(argp: Argp, s: seq<int>, p: nat): int {
    Join(ChildValue(argp.children, s, p + Own(argp)), ChildCombinations(argp.children), Digit(argp, s, p))
  }

  ghost function ChildValue(cs: Children, s: seq<int>, p: nat): int {
    match cs case End => 0
    case Child(c, rest) => Join(Value(c, s, p), Combinations(c), ChildValue(rest, s, p + Levels(c)))
  }

  /** The line of each argp that has any, in the order they are printed. */
  ghost function Pattern(argp: Argp, s: seq<int>, p: nat): seq<string> {
    OwnPattern(argp, s, p) + ChildPatterns(argp.children, s, p + Own(argp))
  }

  ghost function OwnPattern(argp: Argp, s: seq<int>, p: nat): seq<string> {
    if 0 <= Digit(argp, s, p) < |Lines(argp)| then [Lines(argp)[Digit(argp, s, p)]] else []
  }

  ghost function ChildPatterns(cs: Children, s: seq<int>, p: nat): seq<string> {
    match cs case End => [] case Child(c, rest) => Pattern(c, s, p) + ChildPatterns(rest, s, p + Levels(c))
  }

  // ----- The patterns without a level vector -----

  /** One pattern per line of the argp's own, or one without any. */
  function OwnChoices(argp: Argp): (r: seq<seq<string>>)
    ensures |r| == Radix(argp)
  {
    if Lines(argp) == [] then [[]] else seq(|Lines(argp)|, i requires 0 <= i < |Lines(argp)| => [Lines(argp)[i]])
  }

  /** The patterns of an argp: its lines in turn, each before all patterns of its children. */
  ghost function Patterns(argp: Argp): (r: seq<seq<string>>)
    ensures |r| == Combinations(argp)
  {
    var kids, own := ChildrenPatterns(argp.children), OwnChoices(argp);
    seq(Times(|kids|, |own|), n requires 0 <= n < Times(|kids|, |own|) => Quotient(n, |kids|, |own|); own[n / |kids|] + kids[n % |kids|])
  }

  /** Those of the children side by side, the first child's changing fastest. */
  ghost function ChildrenPatterns(cs: Children): (r: seq<seq<string>>)
    ensures |r| == ChildCombinations(cs)
  {
    match cs case End => [[]]
    case Child(c, rest) =>
      var first, more := Patterns(c), ChildrenPatterns(rest);
      seq(Times(|first|, |more|), n requires 0 <= n < Times(|first|, |more|) => Quotient(n, |first|, |more|); first[n % |first|] + more[n / |first|])
  }

  lemma Quotient(n: nat, a: nat, b: nat)
    requires a >= 1 && b >= 1 && n < Times(a, b)
    ensures 0 <= n / a < b && 0 <= n % a < a
  {
    DivBound(n, a, b);
  }

  /** The pattern a vector selects is the one its value counts to. */
  lemma {:induction false} PatternAt(argp: Argp, s: seq<int>, p: nat)
    requires InRange(argp, s, p)
    ensures 0 <= Value(argp, s, p) < Combinations(argp) && Patterns(argp)[Value(argp, s, p)] == Pattern(argp, s, p)
  {
    var kids, d, v := ChildrenPatterns(argp.children), Digit(argp, s, p), ChildValue(argp.children, s, p + Own(argp));
    ValueBound(argp, s, p);
    ChildValueBound(argp.children, s, p + Own(argp));
    ChildPatternAt(argp.children, s, p + Own(argp));
    DivUnique(Join(v, |kids|, d), |kids|, d, v);
    assert OwnChoices(argp)[d] == OwnPattern(argp, s, p);
  }

  lemma {:induction false} ChildPatternAt(cs: Children, s: seq<int>, p: nat)
    requires ChildrenInRange(cs, s, p)
    ensures 0 <= ChildValue(cs, s, p) < ChildCombinations(cs) && ChildrenPatterns(cs)[ChildValue(cs, s, p)] == ChildPatterns(cs, s, p)
  {
    ChildValueBound(cs, s, p);
    if cs.Child? {
      var c, rest := cs.argp, cs.rest;
      var x, y := Value(c, s, p), ChildValue(rest, s, p + Levels(c));
      PatternAt(c, s, p);
      ChildPatternAt(rest, s, p + Levels(c));
      DivUnique(Join(x, Combinations(c), y), Combinations(c), y, x);
    }
  }

  // ----- Only the argp's own bytes matter -----

  ghost predicate Agree(s: seq<int>, t: seq<int>, p: int, q: int) {
    forall i :: p <= i < q ==> At(s, i) == At(t, i)
  }

  lemma {:induction false} Frame(argp: Argp, s: seq<int>, t: seq<int>, p: nat)
    requires Agree(s, t, p, p + Levels(argp))
    ensures Value(argp, s, p) == Value(argp, t, p) && Pattern(argp, s, p) == Pattern(argp, t, p)
    ensures (InRange(argp, s, p) <==> InRange(argp, t, p)) && (Safe(argp, s, p) <==> Safe(argp, t, p))
  {
    ChildFrame(argp.children, s, t, p + Own(argp));
  }

  lemma {:induction false} ChildFrame(cs: Children, s: seq<int>, t: seq<int>, p: nat)
    requires Agree(s, t, p, p + ChildLevels(cs))
    ensures ChildValue(cs, s, p) == ChildValue(cs, t, p) && ChildPatterns(cs, s, p) == ChildPatterns(cs, t, p)
    ensures (ChildrenInRange(cs, s, p) <==> ChildrenInRange(cs, t, p)) && (ChildrenSafe(cs, s, p) <==> ChildrenSafe(cs, t, p))
  {
    if cs.Child? {
      Frame(cs.argp, s, t, p);
      ChildFrame(cs.rest, s, t, p + Levels(cs.argp));
    }
  }

  // ----- Two digits -----

  /** A low part below `a` and a high digit below `b` make a number below their product, and no two the same. */
  lemma TwoDigits(a: nat, b: nat, x: int, y: int)
    requires 0 <= x < a && 0 <= y < b
    ensures 0 <= Join(x, a, y) < Times(a, b)
    ensures x + 1 == a && y + 1 == b <==> Join(x, a, y) + 1 == Times(a, b)
  {
    var d := b - (y + 1);
    assert a * b == a * y + a + a * d;
    MulAtLeast(a, d);
    MulAtLeast(a, y);
  }

  lemma TwoDigitsEqual(a: int, x: int, y: int, x': int, y': int)
    requires 0 <= x < a && 0 <= x' < a && Join(x, a, y) == Join(x', a, y')
    ensures x == x' && y == y'
  {
    DivUnique(x + a * y, a, y, x);
    DivUnique(x + a * y, a, y', x');
  }

  /** A carry out of the low part steps the high digit. */
  lemma SuccDigits(a: nat, b: nat, x: int, y: int)
    requires 0 <= x < a && 0 <= y < b
    ensures Succ(Join(x, a, y), Times(a, b)) == if x + 1 == a then Join(0, a, Succ(y, b)) else Join(x + 1, a, y)
  {
    TwoDigits(a, b, x, y);
    assert a * (y + 1) == a * y + a;
  }

  function Succ(x: int, limit: int): int { if x + 1 == limit then 0 else x + 1 }

  lemma {:induction false} ValueBound(argp: Argp, s: seq<int>, p: nat)
    requires InRange(argp, s, p)
    ensures 0 <= Value(argp, s, p) < Combinations(argp)
  {
    ChildValueBound(argp.children, s, p + Own(argp));
    TwoDigits(ChildCombinations(argp.children), Radix(argp), ChildValue(argp.children, s, p + Own(argp)), Digit(argp, s, p));
  }

  lemma {:induction false} ChildValueBound(cs: Children, s: seq<int>, p: nat)
    requires ChildrenInRange(cs, s, p)
    ensures 0 <= ChildValue(cs, s, p) < ChildCombinations(cs)
  {
    match cs {
      case End =>
      case Child(c, rest) =>
        ValueBound(c, s, p);
        ChildValueBound(rest, s, p + Levels(c));
        TwoDigits(Combinations(c), ChildCombinations(rest), Value(c, s, p), ChildValue(rest, s, p + Levels(c)));
    }
  }

  /** Different vectors are different numbers. */
  lemma {:induction false} ValueInjective(argp: Argp, s: seq<int>, t: seq<int>, p: nat)
    requires InRange(argp, s, p) && InRange(argp, t, p) && Value(argp, s, p) == Value(argp, t, p)
    ensures Agree(s, t, p, p + Levels(argp))
  {
    var cs, q := argp.children, p + Own(argp);
    ChildValueBound(cs, s, q);
    ChildValueBound(cs, t, q);
    TwoDigitsEqual(ChildCombinations(cs), ChildValue(cs, s, q), Digit(argp, s, p), ChildValue(cs, t, q), Digit(argp, t, p));
    ChildValueInjective(cs, s, t, q);
    AgreeOwn(argp, s, t, p);
  }

  lemma AgreeOwn(argp: Argp, s: seq<int>, t: seq<int>, p: nat)
    requires Digit(argp, s, p) == Digit(argp, t, p) && Agree(s, t, p + Own(argp), p + Levels(argp))
    ensures Agree(s, t, p, p + Levels(argp))
  {
  }

  lemma {:induction false} ChildValueInjective(cs: Children, s: seq<int>, t: seq<int>, p: nat)
    requires ChildrenInRange(cs, s, p) && ChildrenInRange(cs, t, p) && ChildValue(cs, s, p) == ChildValue(cs, t, p)
    ensures Agree(s, t, p, p + ChildLevels(cs))
  {
    match cs {
      case End =>
      case Child(c, rest) =>
        var q := p + Levels(c);
        ValueBound(c, s, p);
        ValueBound(c, t, p);
        TwoDigitsEqual(Combinations(c), Value(c, s, p), ChildValue(rest, s, q), Value(c, t, p), ChildValue(rest, t, q));
        ValueInjective(c, s, t, p);
        ChildValueInjective(rest, s, t, q);
    }
  }

  // ----- One step of the odometer -----

  /** From vector `s` to `t`, one step on if asked; `carry` says that the count came round to zero. */
  ghost predicate Stepped(argp: Argp, s: seq<int>, t: seq<int>, p: nat, advance: bool, carry: bool) {
    && InRange(argp, t, p)
    && Value(argp, t, p) == (if advance then Succ(Value(argp, s, p), Combinations(argp)) else Value(argp, s, p))
    && carry == (advance && Value(argp, s, p) + 1 == Combinations(argp))
  }

  ghost predicate ChildrenStepped(cs: Children, s: seq<int>, t: seq<int>, p: nat, advance: bool, carry: bool) {
    && ChildrenInRange(cs, t, p)
    && ChildValue(cs, t, p) == (if advance then Succ(ChildValue(cs, s, p), ChildCombinations(cs)) else ChildValue(cs, s, p))
    && carry == (advance && ChildValue(cs, s, p) + 1 == ChildCombinations(cs))
  }

  /** The children that follow take the carry of the first one. */
  lemma StepChild(c: Argp, rest: Children, s: seq<int>, t: seq<int>, u: seq<int>, p: nat, advance: bool, carry: bool, carry': bool)
    requires InRange(c, s, p) && ChildrenInRange(rest, s, p + Levels(c)) && Stepped(c, s, t, p, advance, carry)
    requires Agree(s, t, p + Levels(c), p + Levels(c) + ChildLevels(rest)) && Agree(t, u, p, p + Levels(c))
    requires ChildrenStepped(rest, t, u, p + Levels(c), carry, carry')
    ensures ChildrenStepped(Child(c, rest), s, u, p, advance, carry')
    ensures ChildPatterns(Child(c, rest), s, p) == Pattern(c, s, p) + ChildPatterns(rest, t, p + Levels(c))
  {
    var q := p + Levels(c);
    Frame(c, t, u, p);
    ChildFrame(rest, s, t, q);
    ValueBound(c, s, p);
    ChildValueBound(rest, s, q);
    TwoDigits(Combinations(c), ChildCombinations(rest), Value(c, s, p), ChildValue(rest, s, q));
    SuccDigits(Combinations(c), ChildCombinations(rest), Value(c, s, p), ChildValue(rest, s, q));
  }

  /** The argp's own level takes the carry of its children. */
  lemma StepOwn(argp: Argp, s: seq<int>, t: seq<int>, p: nat, advance: bool, carry: bool, carry': bool)
    requires InRange(argp, s, p) && ChildrenStepped(argp.children, s, t, p + Own(argp), advance, carry)
    requires Digit(argp, t, p) == if carry then Succ(Digit(argp, s, p), Radix(argp)) else Digit(argp, s, p)
    requires carry' == (carry && Digit(argp, s, p) + 1 == Radix(argp))
    ensures Stepped(argp, s, t, p, advance, carry')
  {
    var cs, q := argp.children, p + Own(argp);
    ChildValueBound(cs, s, q);
    TwoDigits(ChildCombinations(cs), Radix(argp), ChildValue(cs, s, q), Digit(argp, s, p));
    SuccDigits(ChildCombinations(cs), Radix(argp), ChildValue(cs, s, q), Digit(argp, s, p));
  }

  /** A signed char after ++. */
  function IncChar(c: int): int { if c == 127 then -128 else c + 1 }

  /** No args_doc has more lines than a level byte can count. */
  ghost predicate Countable(argp: Argp) { Radix(argp) <= 128 && ChildrenCountable(argp.children) }

  ghost predicate ChildrenCountable(cs: Children) {
    match cs case End => true case Child(c, rest) => Countable(c) && ChildrenCountable(rest)
  }

  /**
   What one call comes to.  With countable documents and levels in range it is a step of the odometer
   and the pattern printed is the vector's; in any case only a countable argp comes round.
   */
  ghost predicate Done(argp: Argp, s: seq<int>, t: seq<int>, p: nat, advance: bool, carry: bool, out: seq<string>) {
    && Safe(argp, t, p) && (carry ==> advance && Countable(argp))
    && (Countable(argp) && InRange(argp, s, p) ==> Stepped(argp, s, t, p, advance, carry) && out == Pattern(argp, s, p))
  }

  ghost predicate ChildrenDone(cs: Children, s: seq<int>, t: seq<int>, p: nat, advance: bool, carry: bool, out: seq<string>) {
    && ChildrenSafe(cs, t, p) && (carry ==> advance && ChildrenCountable(cs))
    && (ChildrenCountable(cs) && ChildrenInRange(cs, s, p) ==>
        ChildrenStepped(cs, s, t, p, advance, carry) && out == ChildPatterns(cs, s, p))
  }

  lemma DoneChild(c: Argp, rest: Children, s: seq<int>, t: seq<int>, u: seq<int>, p: nat,
                  advance: bool, carry: bool, carry': bool, out: seq<string>, tail: seq<string>)
    requires Done(c, s, t, p, advance, carry, out) && ChildrenDone(rest, t, u, p + Levels(c), carry, carry', tail)
    requires Agree(s, t, p + Levels(c), p + Levels(c) + ChildLevels(rest)) && Agree(t, u, p, p + Levels(c))
    ensures ChildrenDone(Child(c, rest), s, u, p, advance, carry', out + tail)
  {
    var cs := Child(c, rest);
    SafeChild(c, rest, t, u, p);
    assert carry' ==> advance && ChildrenCountable(cs);
    if ChildrenCountable(cs) && ChildrenInRange(cs, s, p) {
      DoneInRange(c, rest, s, t, u, p, advance, carry, carry', out, tail);
    }
  }

  lemma DoneInRange(c: Argp, rest: Children, s: seq<int>, t: seq<int>, u: seq<int>, p: nat,
                    advance: bool, carry: bool, carry': bool, out: seq<string>, tail: seq<string>)
    requires Done(c, s, t, p, advance, carry, out) && ChildrenDone(rest, t, u, p + Levels(c), carry, carry', tail)
    requires Agree(s, t, p + Levels(c), p + Levels(c) + ChildLevels(rest)) && Agree(t, u, p, p + Levels(c))
    requires ChildrenCountable(Child(c, rest)) && ChildrenInRange(Child(c, rest), s, p)
    ensures ChildrenStepped(Child(c, rest), s, u, p, advance, carry') && out + tail == ChildPatterns(Child(c, rest), s, p)
  {
    RangeStays(rest, s, t, p + Levels(c));
    StepChild(c, rest, s, t, u, p, advance, carry, carry');
  }

  lemma SafeChild(c: Argp, rest: Children, t: seq<int>, u: seq<int>, p: nat)
    requires Safe(c, t, p) && ChildrenSafe(rest, u, p + Levels(c)) && Agree(t, u, p, p + Levels(c))
    ensures ChildrenSafe(Child(c, rest), u, p)
  {
    Frame(c, t, u, p);
  }

  lemma RangeStays(cs: Children, s: seq<int>, t: seq<int>, p: nat)
    requires ChildrenInRange(cs, s, p) && Agree(s, t, p, p + ChildLevels(cs))
    ensures ChildrenInRange(cs, t, p)
  {
    ChildFrame(cs, s, t, p);
  }

  /** The own level from `d` to `d'`. */
  ghost predicate LevelStep(argp: Argp, d: int, d': int, carry: bool, carry': bool) {
    if carry && Multiple(argp) then
      if Follows(argp, d) then d' == IncChar(d) && !carry' else d' == (if d > 0 then 0 else d) && carry'
    else d' == d && carry' == carry
  }

  /** Whether lines follow the one a level leads to. */
  predicate Follows(argp: Argp, d: int) { (if d < 0 then 0 else d) + 1 < Radix(argp) }

  lemma DoneOwn(argp: Argp, s: seq<int>, t: seq<int>, u: seq<int>, p: nat,
                advance: bool, carry: bool, carry': bool, own: seq<string>, kids: seq<string>)
    requires Safe(argp, s, p) && ChildrenDone(argp.children, s, t, p + Own(argp), advance, carry, kids)
    requires Agree(t, u, p + Own(argp), p + Levels(argp))
    requires LevelStep(argp, Digit(argp, s, p), Digit(argp, u, p), carry, carry')
    requires InRange(argp, s, p) ==> own == OwnPattern(argp, s, p)
    ensures Done(argp, s, u, p, advance, carry', own + kids)
  {
    SafeOwn(argp, s, t, u, p, carry, carry');
    if Countable(argp) && InRange(argp, s, p) {
      ChildFrame(argp.children, t, u, p + Own(argp));
      StepOwn(argp, s, u, p, advance, carry, carry');
    }
  }

  lemma SafeOwn(argp: Argp, s: seq<int>, t: seq<int>, u: seq<int>, p: nat, carry: bool, carry': bool)
    requires Safe(argp, s, p) && ChildrenSafe(argp.children, t, p + Own(argp)) && Agree(t, u, p + Own(argp), p + Levels(argp))
    requires LevelStep(argp, Digit(argp, s, p), Digit(argp, u, p), carry, carry')
    ensures Safe(argp, u, p)
  {
    ChildFrame(argp.children, t, u, p + Own(argp));
  }

  /** The children's part of argp_args_usage. */
  method ChildrenUsage(cs: Children, levels: array<int>, pos: nat, advance: bool) returns (next: nat, carry: bool, out: seq<string>)
    requires pos + ChildLevels(cs) <= levels.Length && ChildrenSafe(cs, levels[..], pos)
    modifies levels
    ensures next == pos + ChildLevels(cs)
    ensures forall i :: 0 <= i < levels.Length && !(pos <= i < next) ==> levels[i] == old(levels[i])
    ensures ChildrenDone(cs, old(levels[..]), levels[..], pos, advance, carry, out)
    decreases cs
  {
    match cs {
      case End => next, carry, out := pos, advance, [];
      case Child(c, rest) =>
        ghost var s := levels[..];
        var more, tail;
        next, more, out := ArgsUsage(c, levels, pos, advance);
        ghost var t, mine := levels[..], out;
        ChildFrame(rest, s, t, next);
        next, carry, tail := ChildrenUsage(rest, levels, next, !more);
        out := out + tail;
        DoneChild(c, rest, s, t, levels[..], pos, advance, !more, carry, mine, tail);
    }
  }

  /** The argp's own line: its text, whether there is a choice, and whether lines follow it. */
  method OwnLine(argp: Argp, levels: array<int>, pos: nat) returns (out: seq<string>, multiple: bool, follows: bool)
    requires pos + Own(argp) <= levels.Length && SafeLevel(argp, Digit(argp, levels[..], pos))
    ensures 0 <= Digit(argp, levels[..], pos) ==> out == OwnPattern(argp, levels[..], pos)
    ensures multiple == Multiple(argp) && follows == Follows(argp, Digit(argp, levels[..], pos))
  {
    out, multiple, follows := [], false, false;
    if argp.argsDoc.Some? {
      var doc := argp.argsDoc.value;
      var cp, nl := 0, LineEnd(doc, 0);
      if nl < |doc| {
        multiple := true;
        cp, nl := FindLine(doc, levels[pos]);
      }
      out, follows := [doc[cp..nl]], nl < |doc|;
    }
  }

  /** The step of the argp's own level. */
  method StepLevel(argp: Argp, levels: array<int>, pos: nat, carry: bool, follows: bool) returns (carry': bool)
    requires pos + Own(argp) <= levels.Length && follows == Follows(argp, Digit(argp, levels[..], pos))
    modifies levels
    ensures forall i :: 0 <= i < levels.Length && !(pos <= i < pos + Own(argp)) ==> levels[i] == old(levels[i])
    ensures LevelStep(argp, old(Digit(argp, levels[..], pos)), Digit(argp, levels[..], pos), carry, carry')
  {
    carry' := carry;
    if carry && Multiple(argp) {
      if follows {
        levels[pos] := IncChar(levels[pos]);
        carry' := false;
      } else if levels[pos] > 0 {
        levels[pos] := 0;
      }
    }
  }

  /** argp_args_usage: prints one pattern, steps the levels, and tells whether there are more. */
  method ArgsUsage(argp: Argp, levels: array<int>, pos: nat, advance: bool) returns (next: nat, more: bool, out: seq<string>)
    requires pos + Levels(argp) <= levels.Length && Safe(argp, levels[..], pos)
    modifies levels
    ensures next == pos + Levels(argp)
    ensures forall i :: 0 <= i < levels.Length && !(pos <= i < next) ==> levels[i] == old(levels[i])
    ensures Done(argp, old(levels[..]), levels[..], pos, advance, !more, out)
    decreases argp
  {
    ghost var s := levels[..];
    var own, multiple, follows := OwnLine(argp, levels, pos);
    next := if multiple then pos + 1 else pos;
    var carry, kids;
    next, carry, kids := ChildrenUsage(argp.children, levels, next, advance);
    ghost var t := levels[..];
    assert Digit(argp, t, pos) == Digit(argp, s, pos);
    var carry' := StepLevel(argp, levels, pos, carry, follows);
    more, out := !carry', own + kids;
    DoneOwn(argp, s, t, levels[..], pos, advance, carry, carry', own, kids);
  }

  // ----- The usage message -----

  lemma {:induction false} ZeroValue(argp: Argp, s: seq<int>, p: nat)
    requires forall i :: 0 <= i < |s| ==> s[i] == 0
    ensures InRange(argp, s, p) && Value(argp, s, p) == 0 && Safe(argp, s, p)
  {
    ChildZeroValue(argp.children, s, p + Own(argp));
    ZeroDigit(argp, s, p);
    JoinZero(ChildCombinations(argp.children));
  }

  lemma ZeroDigit(argp: Argp, s: seq<int>, p: nat)
    requires forall i :: 0 <= i < |s| ==> s[i] == 0
    ensures Digit(argp, s, p) == 0
  {
  }

  lemma JoinZero(base: int)
    ensures Join(0, base, 0) == 0
  {
  }

  lemma {:induction false} ChildZeroValue(cs: Children, s: seq<int>, p: nat)
    requires forall i :: 0 <= i < |s| ==> s[i] == 0
    ensures ChildrenInRange(cs, s, p) && ChildValue(cs, s, p) == 0 && ChildrenSafe(cs, s, p)
  {
    if cs.Child? {
      ZeroValue(cs.argp, s, p);
      ChildZeroValue(cs.rest, s, p + Levels(cs.argp));
    }
  }

  /** A choice of one line for every argp that offers several. */
  ghost predicate Choice(argp: Argp, v: seq<int>) { |v| == Levels(argp) && InRange(argp, v, 0) }

  /** The choices in counting order from zero, and the pattern of each. */
  ghost predicate Printed(argp: Argp, choices: seq<seq<int>>, patterns: seq<seq<string>>) {
    |choices| == |patterns| && forall i :: 0 <= i < |choices| ==>
      Choice(argp, choices[i]) && Value(argp, choices[i], 0) == i && patterns[i] == Pattern(argp, choices[i], 0)
  }

  /**
   The loop of _help over the usage patterns: it ends, having printed the pattern of every choice
   once, with the level vector back at zero.
   */
  method UsagePatterns(argp: Argp) returns (patterns: seq<seq<string>>, levels: array<int>, ghost choices: seq<seq<int>>)
    requires Countable(argp)
    ensures patterns == Patterns(argp) && Printed(argp, choices, patterns)
    ensures forall v :: Choice(argp, v) ==> 0 <= Value(argp, v, 0) < |choices| && choices[Value(argp, v, 0)] == v
    ensures forall i, j :: 0 <= i < j < |choices| ==> choices[i] != choices[j]
    ensures levels.Length == Levels(argp) && forall i :: 0 <= i < levels.Length ==> levels[i] == 0
  {
    var n := ArgsLevels(argp);
    levels := new int[n](i => 0);
    patterns, choices := [], [];
    ZeroValue(argp, levels[..], 0);
    var more := true;
    while more
      invariant Printed(argp, choices, patterns) && Choice(argp, levels[..]) && Safe(argp, levels[..], 0)
      invariant more ==> Value(argp, levels[..], 0) == |choices| < Combinations(argp)
      invariant !more ==> |choices| == Combinations(argp) && Value(argp, levels[..], 0) == 0
      decreases Combinations(argp) - |choices|, more
    {
      ghost var v := levels[..];
      var next, out;
      next, more, out := ArgsUsage(argp, levels, 0, true);
      patterns, choices := patterns + [out], choices + [v];
      ValueBound(argp, levels[..], 0);
    }
    forall v | Choice(argp, v) ensures 0 <= Value(argp, v, 0) < |choices| && choices[Value(argp, v, 0)] == v {
      ValueBound(argp, v, 0);
      SameChoice(argp, choices[Value(argp, v, 0)], v);
    }
    forall i | 0 <= i < |patterns| ensures patterns[i] == Patterns(argp)[i] {
      PatternAt(argp, choices[i], 0);
    }
    ghost var zeros := seq(n, i => 0);
    ZeroValue(argp, zeros, 0);
    SameChoice(argp, levels[..], zeros);
  }

  /** With a document of more than 128 lines anywhere, the loop asks for another pattern however often it has run. */
  method UsageNeverEnds(argp: Argp, rounds: nat) returns (more: bool)
    requires !Countable(argp)
    ensures more
  {
    var n := ArgsLevels(argp);
    var levels := new int[n](i => 0);
    ZeroValue(argp, levels[..], 0);
    more := true;
    for i := 0 to rounds
      invariant more && Safe(argp, levels[..], 0)
    {
      var next, out;
      next, more, out := ArgsUsage(argp, levels, 0, true);
    }
  }

  lemma SameChoice(argp: Argp, v: seq<int>, w: seq<int>)
    requires Choice(argp, v) && Choice(argp, w) && Value(argp, v, 0) == Value(argp, w, 0)
    ensures v == w
  {
    ValueInjective(argp, v, w, 0);
    forall i | 0 <= i < |v| ensures v[i] == w[i] {
      assert At(v, i) == At(w, i);
    }
  }
}
