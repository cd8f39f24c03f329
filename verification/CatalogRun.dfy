/**
 From the lines of a message file to what catgets answers: which line's text is found under which
 numbers, and that nothing else is.
 */
module CatalogRun {
  import opened Options
  import opened ByteOrder
  import opened CatalogTable
  import opened CatalogFile
  import opened CatalogLookup
  import opened CatalogInput
  import opened CatalogMerge
  import opened CatalogUpdate

  /** The states gencat goes through from the start. */
  ghost predicate Reading(states: seq<State>, input: seq<Directive>) {
    IsReading(states, input, |input|) && states[0] == INITIAL
  }

  lemma {:induction false} ReadingValid(states: seq<State>, input: seq<Directive>, i: nat)
    requires Reading(states, input) && i <= |input|
    ensures ValidSource(states[i].sets, states[i].current, states[i].lastSet)
  {
    if i > 0 {
      ReadingValid(states, input, i - 1);
      assert ReadAt(states, input, i - 1);
      ReadKeeps(states[i - 1], input[i - 1], states[i]);
    }
  }

  lemma {:induction false} ReadingKeeps(states: seq<State>, input: seq<Directive>, i: nat, n: nat)
    requires Reading(states, input) && i <= n <= |input|
    ensures Keeps(states[i].sets, states[n].sets, AskedFor(input, states, i, n))
    decreases n
  {
    if i == n {
      KeepsSame(states[i].sets, states[i].sets);
    } else {
      ReadingKeeps(states, input, i, n - 1);
      ReadingValid(states, input, n - 1);
      assert ReadAt(states, input, n - 1);
      ReadKeeps(states[n - 1], input[n - 1], states[n]);
      KeepsTransitive(states[i].sets, states[n - 1].sets, states[n].sets,
                      AskedFor(input, states, i, n - 1), AsksFor(input[n - 1], states[n - 1].current));
    }
  }

  // ----- Where messages come from -----

  /** The line is the one that a message numbered by the user, or a symbolic one, stands in. */
  ghost predicate Of(line: Line, m: Message) {
    && line.text == Some(m.text)
    && if m.symbol.None? then line.Numbered? && line.number == m.number > 0 else line.Symbolic? && line.name == m.symbol.value
  }

  /** What a set has after a line it had before, perhaps under another number if symbolic, or has from the line. */
  lemma GotAfter(was: MessageSet, line: Line, now: MessageSet, k: int) returns (k': int)
    requires ValidSet(was) && Next(was, line, now) && Get(now.messages, k).Some?
    ensures var m := Get(now.messages, k).value;
      Of(line, m) || (Get(was.messages, k') == Some(m.(number := k')) && (m.symbol.None? ==> k' == k))
  {
    k' := k;
    var m := Get(now.messages, k).value;
    assert Get(now.messages, k) == GetAfter(was, line, k) && m == m.(number := k);
    if !Refused(was, line) && k != NumberFor(was, line) && Clashes(was, line) && k == was.lastMessage + 1 {
      k' := line.number;
    }
  }

  lemma FoundAfter(a: State, d: Directive, b: State, s: int, k: int) returns (k': int)
    requires ValidSource(a.sets, a.current, a.lastSet) && Read(a, d, b) && Find(b.sets, s, k).Some?
    ensures var m := Find(b.sets, s, k).value;
      || (s == a.current && d.MessageLine? && Of(d.line, m))
      || (Find(a.sets, s, k') == Some(m.(number := k')) && (m.symbol.None? ==> k' == k))
  {
    k' := k;
    if d.MessageLine? && s == a.current {
      var i := SetIndex(a.sets, a.current);
      FindReplaced(a.sets, i, b.sets[i], s, k);
      k' := GotAfter(a.sets[i], d.line, b.sets[i], k);
    } else {
      FoundElsewhere(a, d, b, s, k);
    }
  }

  lemma FoundElsewhere(a: State, d: Directive, b: State, s: int, k: int)
    requires OrderedSets(a.sets) && Read(a, d, b) && !(d.MessageLine? && s == a.current)
    ensures Find(b.sets, s, k) == Find(a.sets, s, k) && (Find(b.sets, s, k).Some? ==> Find(b.sets, s, k).value.number == k)
  {
    if d.MessageLine? {
      var i := SetIndex(a.sets, a.current);
      FindReplaced(a.sets, i, b.sets[i], s, k);
    } else {
      FoundInSets(a, d, b, s, k);
    }
  }

  lemma FoundInSets(a: State, d: Directive, b: State, s: int, k: int)
    requires OrderedSets(a.sets) && Read(a, d, b) && !d.MessageLine?
    ensures Find(b.sets, s, k) == Find(a.sets, s, k)
  {
    var n, symbol := if d.SetNumber? then d.n else a.lastSet + 1, if d.SetNumber? then None else Some(d.name);
    assert b.sets == a.sets || b.sets == Entered(a.sets, n, symbol);
    FoundEntered(a.sets, n, symbol, s, k);
  }

  lemma FoundEntered(sets: seq<MessageSet>, n: int, symbol: Option<string>, s: int, k: int)
    requires OrderedSets(sets)
    ensures Find(Entered(sets, n, symbol), s, k) == Find(sets, s, k)
  {
    EnteredKeeps(sets, n, symbol);
  }

  /** Line `j` gives a message to a set. */
  ghost predicate Gives(input: seq<Directive>, states: seq<State>, j: nat, s: int, m: Message) {
    j < |input| && j < |states| && states[j].current == s && input[j].MessageLine? && Of(input[j].line, m)
  }

  /** Every message that is found has its symbol, or its number, and its text from a line read into its set. */
  lemma {:induction false} FoundHasLine(states: seq<State>, input: seq<Directive>, n: nat, s: int, k: int) returns (j: nat)
    requires Reading(states, input) && n <= |input| && Find(states[n].sets, s, k).Some?
    ensures j < n && Gives(input, states, j, s, Find(states[n].sets, s, k).value)
    decreases n
  {
    NothingInitially(s, k);
    ReadingValid(states, input, n - 1);
    assert ReadAt(states, input, n - 1);
    var k' := FoundAfter(states[n - 1], input[n - 1], states[n], s, k);
    var m := Find(states[n].sets, s, k).value;
    if s == states[n - 1].current && input[n - 1].MessageLine? && Of(input[n - 1].line, m) {
      return n - 1;
    }
    j := FoundHasLine(states, input, n - 1, s, k');
  }

  lemma NothingInitially(s: int, k: int)
    ensures Find(INITIAL.sets, s, k).None?
  {
  }

  // ----- What becomes of a line -----

  /** An earlier line read into the same set has the same number or symbol, and a text. */
  ghost predicate Repeats(input: seq<Directive>, states: seq<State>, j: nat, i: nat)
    requires i < j < |input| && j < |states| && input[j].MessageLine?
  {
    && states[i].current == states[j].current && input[i].MessageLine? && input[i].line.text.Some?
    && input[i].line.(text := None) == input[j].line.(text := None)
  }

  /** The first line of its set with its number or symbol. */
  ghost predicate First(input: seq<Directive>, states: seq<State>, j: nat) {
    && j < |input| && j < |states| && input[j].MessageLine? && (input[j].line.Numbered? ==> input[j].line.number > 0)
    && forall i: nat :: i < j ==> !Repeats(input, states, j, i)
  }

  ghost function CurrentSet(s: State): MessageSet
    requires ValidSource(s.sets, s.current, s.lastSet)
  {
    s.sets[SetIndex(s.sets, s.current)]
  }

  /** A line is refused exactly when it is not the first with its number or symbol. */
  lemma FirstIsNotRefused(states: seq<State>, input: seq<Directive>, j: nat)
    requires Reading(states, input) && First(input, states, j)
    ensures ValidSource(states[j].sets, states[j].current, states[j].lastSet) && !Refused(CurrentSet(states[j]), input[j].line)
  {
    ReadingValid(states, input, j);
    var s := CurrentSet(states[j]);
    if Refused(s, input[j].line) {
      var k: int;
      match input[j].line {
        case Numbered(n, _) => k := n;
        case Symbolic(name, _) =>
          var i :| 0 <= i < |s.messages| && s.messages[i].symbol == Some(name);
          GetAt(s.messages, i);
          k := s.messages[i].number;
      }
      var i := FoundHasLine(states, input, j, states[j].current, k);
      assert Repeats(input, states, j, i);
    }
  }

  /** The message that a line makes in its set. */
  ghost function Made(s: MessageSet, line: Line): Message
    requires line.text.Some?
  {
    Message(NumberFor(s, line), line.text.value, if line.Numbered? then None else Some(line.name))
  }

  /** It is found as soon as the line is read. */
  lemma LineFound(states: seq<State>, input: seq<Directive>, j: nat)
    requires Reading(states, input) && First(input, states, j) && input[j].line.text.Some?
    ensures ValidSource(states[j].sets, states[j].current, states[j].lastSet)
    ensures var m := Made(CurrentSet(states[j]), input[j].line); Find(states[j + 1].sets, states[j].current, m.number) == Some(m)
  {
    FirstIsNotRefused(states, input, j);
    var a, b, line := states[j], states[j + 1], input[j].line;
    assert ReadAt(states, input, j);
    var i := SetIndex(a.sets, a.current);
    var k := NumberFor(a.sets[i], line);
    FindReplaced(a.sets, i, b.sets[i], a.current, k);
    assert Get(b.sets[i].messages, k) == GetAfter(a.sets[i], line, k);
  }

  /** A numbered one is still found with its text when any number of lines have followed. */
  lemma NumberedFound(states: seq<State>, input: seq<Directive>, j: nat, n: nat)
    requires Reading(states, input) && First(input, states, j) && j < n <= |input|
    requires input[j].line.Numbered? && input[j].line.text.Some?
    ensures Find(states[n].sets, states[j].current, input[j].line.number) ==
      Some(Message(input[j].line.number, input[j].line.text.value, None))
  {
    LineFound(states, input, j);
    ReadingKeeps(states, input, j + 1, n);
  }

  /** A symbolic one is as well, under the number it was given unless a later line of its set asked for that. */
  lemma SymbolicFound(states: seq<State>, input: seq<Directive>, j: nat, n: nat) returns (given: int, k: int)
    requires Reading(states, input) && First(input, states, j) && j < n <= |input|
    requires input[j].line.Symbolic? && input[j].line.text.Some?
    ensures Find(states[n].sets, states[j].current, k) == Some(Message(k, input[j].line.text.value, Some(input[j].line.name)))
    ensures k == given || (states[j].current, given) in AskedFor(input, states, j + 1, n)
    ensures forall k' :: Find(states[j].sets, states[j].current, k').Some? ==> k' < given
  {
    LineFound(states, input, j);
    ReadingKeeps(states, input, j + 1, n);
    var c, m := states[j].current, Made(CurrentSet(states[j]), input[j].line);
    given := m.number;
    assert Find(states[j + 1].sets, c, given) == Some(m);
    assert Moved(states[n].sets, c, m, AskedFor(input, states, j + 1, n));
    k :| Find(states[n].sets, c, k) == Some(m.(number := k)) && (k == m.number || (c, m.number) in AskedFor(input, states, j + 1, n));
  }

  /** The first of the lines of its set with the number or symbol of line `j`. */
  lemma {:induction false} LeastLine(states: seq<State>, input: seq<Directive>, j: nat) returns (i: nat)
    requires Reading(states, input) && j < |input| && input[j].MessageLine? && input[j].line.text.Some?
    requires input[j].line.Numbered? ==> input[j].line.number > 0
    ensures i <= j && First(input, states, i) && input[i].line.text.Some? && (i == j || Repeats(input, states, j, i))
  {
    if First(input, states, j) {
      i := j;
    } else {
      i :| 0 <= i < j && Repeats(input, states, j, i);
      i := LeastLine(states, input, i);
    }
  }

  /** A line is refused exactly if it is numbered zero or an earlier one of its set has the same number or symbol. */
  lemma RefusedIff(states: seq<State>, input: seq<Directive>, j: nat)
    requires Reading(states, input) && j < |input| && input[j].MessageLine?
    ensures ValidSource(states[j].sets, states[j].current, states[j].lastSet)
    ensures Refused(CurrentSet(states[j]), input[j].line) <==> !First(input, states, j)
  {
    ReadingValid(states, input, j);
    if First(input, states, j) {
      FirstIsNotRefused(states, input, j);
    } else if !(input[j].line.Numbered? && input[j].line.number == 0) {
      var i: nat :| i < j && Repeats(input, states, j, i);
      i := LeastLine(states, input, i);
      if input[j].line.Numbered? {
        NumberedFound(states, input, i, j);
      } else {
        var given, k := SymbolicFound(states, input, i, j);
      }
    }
  }

  // ----- What catgets answers -----

  /**
   The text of the first line with the number, read into set `n`, is the answer for the two numbers.  The set of a line is
   one less than the stored number of the current set.
   */
  lemma NumberedAnswered(states: seq<State>, input: seq<Directive>, j: nat, fallback: seq<Byte>)
    requires Reading(states, input) && First(input, states, j) && input[j].line.Numbered? && input[j].line.text.Some?
    ensures LookUp(Meaning(New(states[|input|].sets)), states[j].current - 1, input[j].line.number, fallback) == input[j].line.text.value
  {
    NumberedFound(states, input, j, |input|);
    ReadingValid(states, input, |input|);
    EntriesMeaning(states[|input|].sets, states[j].current, input[j].line.number);
  }

  lemma SymbolicAnswered(states: seq<State>, input: seq<Directive>, j: nat, fallback: seq<Byte>) returns (given: int, k: int)
    requires Reading(states, input) && First(input, states, j) && input[j].line.Symbolic? && input[j].line.text.Some?
    ensures LookUp(Meaning(New(states[|input|].sets)), states[j].current - 1, k, fallback) == input[j].line.text.value
    ensures k == given || (states[j].current, given) in AskedFor(input, states, j + 1, |input|)
    ensures forall k' :: Find(states[j].sets, states[j].current, k').Some? ==> k' < given
  {
    given, k := SymbolicFound(states, input, j, |input|);
    ReadingValid(states, input, |input|);
    EntriesMeaning(states[|input|].sets, states[j].current, k);
  }

  /** Any other answer than the caller's own string is the text of a line read into that set. */
  lemma AnswerHasLine(states: seq<State>, input: seq<Directive>, setId: int, message: int) returns (j: nat)
    requires Reading(states, input) && (setId + 1, message) in Meaning(New(states[|input|].sets))
    ensures j < |input| && states[j].current == setId + 1 && input[j].MessageLine?
    ensures forall fallback :: input[j].line.text == Some(LookUp(Meaning(New(states[|input|].sets)), setId, message, fallback))
    ensures input[j].line.Numbered? ==> input[j].line.number == message
  {
    ReadingValid(states, input, |input|);
    EntriesMeaning(states[|input|].sets, setId + 1, message);
    j := FoundHasLine(states, input, |input|, setId + 1, message);
  }

  // ----- Which set a line belongs to -----

  /** Behind `$set n` and message lines alone, the set is `n`. */
  lemma {:induction false} SetInForce(states: seq<State>, input: seq<Directive>, h: nat, j: nat)
    requires Reading(states, input) && h < j <= |input| && input[h].SetNumber? && input[h].n > 0
    requires forall i :: h < i < j ==> input[i].MessageLine?
    ensures states[j].current - 1 == input[h].n
  {
    assert ReadAt(states, input, j - 1);
    if h < j - 1 {
      SetInForce(states, input, h, j - 1);
    }
  }

  /** Before any directive it is set 1. */
  lemma {:induction false} DefaultSet(states: seq<State>, input: seq<Directive>, j: nat)
    requires Reading(states, input) && j <= |input| && forall i :: 0 <= i < j ==> input[i].MessageLine?
    ensures states[j].current - 1 == 1
  {
    if j > 0 {
      assert ReadAt(states, input, j - 1);
      DefaultSet(states, input, j - 1);
    }
  }

  /** A set given to a name has a number above all that directives asked for. */
  lemma {:induction false} NamedAbove(states: seq<State>, input: seq<Directive>, i: nat, j: nat)
    requires Reading(states, input) && i < j < |input| && input[i].SetNumber? && input[j].SetName? && !SetNamed(states[j].sets, input[j].name)
    ensures states[j + 1].current - 1 > input[i].n
  {
    assert ReadAt(states, input, j);
    LastSetCovers(states, input, i, j);
  }

  lemma {:induction false} LastSetCovers(states: seq<State>, input: seq<Directive>, i: nat, j: nat)
    requires Reading(states, input) && i < j <= |input| && input[i].SetNumber?
    ensures states[j].lastSet >= input[i].n
    decreases j
  {
    ReadingValid(states, input, j - 1);
    assert ReadAt(states, input, j - 1);
    if i < j - 1 {
      LastSetCovers(states, input, i, j - 1);
    }
  }

  // ----- The whole program -----

  /** What an update answers: a new text, else an old one, else the caller's string; a new empty text deletes an old one. */
  lemma UpdateAnswers(newer: seq<Entry>, total: nat, was: Option<File>, known: Compiled, behind: seq<Byte>,
                      setId: int, message: int, fallback: seq<Byte>, r: Option<seq<Byte>>)
    requires Answers(newer, total, was, known, behind, setId, message, fallback, r) && r.Some?
    ensures var key, new', old' := (setId + 1, message), Meaning(newer), Meaning(Older(was, known));
      && (key in new' && new'[key] != [] ==> r.value == new'[key])
      && (key in new' && new'[key] == [] ==> r.value == if key in old' then fallback else [])
      && (key !in new' ==> r.value == if key in old' then old'[key] else fallback)
  {
  }

  /** A message that was read, if it deletes nothing, is in the merge, so that the new catalog is not empty. */
  lemma NewIsAnswered(newer: seq<Entry>, total: nat, was: Option<File>, known: Compiled, behind: seq<Byte>,
                      setId: int, message: int, fallback: seq<Byte>, r: Option<seq<Byte>>)
    requires Answers(newer, total, was, known, behind, setId, message, fallback, r) && Limits(newer, total, Older(was, known))
    requires (setId + 1, message) in Meaning(newer) && (was.Some? ==> Opens(Meaning(known.es), was.value.behind))
    requires was.None? || Meaning(newer)[(setId + 1, message)] != []
    ensures r == Some(LookUp(Meaning(newer), setId, message, fallback))
  {
    assert (setId + 1, message) in MergedMeaning(Meaning(newer), Meaning(Older(was, known)));
  }

  /**
   gencat and catgets together: the first line that gives number `m` in set `n`, with a text, is what catgets answers for
   `n` and `m`, whatever else the input has, and over an old catalog as well unless the text is empty.
   */
  method LineAnswered(machine: Endian, reader: Endian, input: seq<Directive>, was: Option<File>, ghost known: Compiled,
                      behind: seq<Byte>, n: int, m: int, fallback: seq<Byte>, ghost states: seq<State>, ghost j: nat)
    returns (r: Option<seq<Byte>>)
    requires Known(was, known) && IsInt(n) && IsInt(m)
    requires Reading(states, input) && First(input, states, j) && input[j].line.Numbered? && input[j].line.text.Some?
    requires n == states[j].current - 1 && m == input[j].line.number
    requires Limits(New(states[|input|].sets), states[|input|].total, Older(was, known))
    requires was.Some? ==> Opens(Meaning(known.es), was.value.behind) && input[j].line.text.value != []
    ensures r == input[j].line.text
  {
    ghost var s;
    r, s := Gencat(machine, reader, input, was, known, behind, n, m, fallback);
    InputDetermines(input, s, states[|input|]);
    NumberedFound(states, input, j, |input|);
    ReadingValid(states, input, |input|);
    EntriesMeaning(s.sets, n + 1, m);
    NewIsAnswered(New(s.sets), s.total, was, known, behind, n, m, fallback, r);
  }

  /** A message with the given symbol is found under the numbers. */
  ghost predicate HasSymbol(sets: seq<MessageSet>, s: int, k: int, name: string) {
    Find(sets, s, k).Some? && Find(sets, s, k).value.symbol == Some(name)
  }

  lemma SymbolOnce(state: State, s: int, k: int, k': int, name: string)
    requires ValidSource(state.sets, state.current, state.lastSet) && HasSymbol(state.sets, s, k, name) && HasSymbol(state.sets, s, k', name)
    ensures k == k'
  {
    var ms := state.sets[SetIndex(state.sets, s)].messages;
    var i :| 0 <= i < |ms| && ms[i].number == k && ms[i].symbol == Some(name);
    var i' :| 0 <= i' < |ms| && ms[i'].number == k' && ms[i'].symbol == Some(name);
    assert i == i';
  }

  /** The same of the first line with a symbol, for the number that the message with the symbol has in the end. */
  method SymbolAnswered(machine: Endian, reader: Endian, input: seq<Directive>, was: Option<File>, ghost known: Compiled,
                        behind: seq<Byte>, n: int, k: int, fallback: seq<Byte>, ghost states: seq<State>, ghost j: nat)
    returns (r: Option<seq<Byte>>)
    requires Known(was, known) && IsInt(n) && IsInt(k)
    requires Reading(states, input) && First(input, states, j) && input[j].line.Symbolic? && input[j].line.text.Some?
    requires n == states[j].current - 1 && HasSymbol(states[|input|].sets, n + 1, k, input[j].line.name)
    requires Limits(New(states[|input|].sets), states[|input|].total, Older(was, known))
    requires was.Some? ==> Opens(Meaning(known.es), was.value.behind) && input[j].line.text.value != []
    ensures r == input[j].line.text
  {
    ghost var s;
    r, s := Gencat(machine, reader, input, was, known, behind, n, k, fallback);
    InputDetermines(input, s, states[|input|]);
    ghost var given, k' := SymbolicFound(states, input, j, |input|);
    ReadingValid(states, input, |input|);
    SymbolOnce(s, n + 1, k, k', input[j].line.name);
    EntriesMeaning(s.sets, n + 1, k);
    NewIsAnswered(New(s.sets), s.total, was, known, behind, n, k, fallback, r);
  }

  /** The smallest case: two lines, one message. */
  lemma TwoLines(n: nat, m: nat, t: seq<Byte>, s: State, fallback: seq<Byte>)
    requires n > 0 && m > 0 && Reads([SetNumber(n), MessageLine(Numbered(m, Some(t)))], s)
    ensures LookUp(Meaning(New(s.sets)), n, m, fallback) == t
  {
    var input := [SetNumber(n), MessageLine(Numbered(m, Some(t)))];
    var states :| IsReading(states, input, |input|) && states[0] == INITIAL && states[|input|] == s;
    assert First(input, states, 1);
    SetInForce(states, input, 0, 1);
    NumberedAnswered(states, input, 1, fallback);
  }

  /** Lines without a set directive change the default set alone. */
  lemma {:induction false} InDefaultSet(states: seq<State>, input: seq<Directive>, j: nat)
    requires Reading(states, input) && j <= |input| && forall i :: 0 <= i < j ==> input[i].MessageLine?
    ensures |states[j].sets| == 1 && states[j].sets[0].number == 2 && states[j].current == 2 && SetIndex(states[j].sets, 2) == 0
    ensures j > 0 ==> |states[j - 1].sets| == 1 && Next(states[j - 1].sets[0], input[j - 1].line, states[j].sets[0])
  {
    if j > 0 {
      InDefaultSet(states, input, j - 1);
      assert ReadAt(states, input, j - 1);
    }
  }

  /** How numbers are given: the next one to a symbol, and the next one again to a symbol whose number is asked for. */
  lemma Numbering(states: seq<State>, a: string, b: string, w: seq<Byte>, x: seq<Byte>, y: seq<Byte>, z: seq<Byte>)
    requires a != b
    requires Reading(states, [MessageLine(Symbolic(a, Some(w))), MessageLine(Numbered(5, Some(x))),
                              MessageLine(Symbolic(b, Some(y))), MessageLine(Numbered(1, Some(z)))])
    ensures var sets := states[4].sets;
      && Find(sets, 2, 1) == Some(Message(1, z, None)) && Find(sets, 2, 5) == Some(Message(5, x, None))
      && Find(sets, 2, 6) == Some(Message(6, y, Some(b))) && Find(sets, 2, 7) == Some(Message(7, w, Some(a)))
      && forall k :: Find(sets, 2, k).Some? ==> k in {1, 5, 6, 7}
  {
    var input := [MessageLine(Symbolic(a, Some(w))), MessageLine(Numbered(5, Some(x))),
                  MessageLine(Symbolic(b, Some(y))), MessageLine(Numbered(1, Some(z)))];
    InDefaultSet(states, input, 1);
    InDefaultSet(states, input, 2);
    InDefaultSet(states, input, 3);
    InDefaultSet(states, input, 4);
    var s0, s1, s2, s3 := states[0].sets[0], states[1].sets[0], states[2].sets[0], states[3].sets[0];
    assert s1.lastMessage == 1 && forall k :: Get(s1.messages, k) == if k == 1 then Some(Message(1, w, Some(a))) else None;
    assert s2.lastMessage == 5 && Get(s2.messages, 1) == Some(Message(1, w, Some(a))) && Get(s2.messages, 5) == Some(Message(5, x, None));
    NotNamed(s2, a, 1, 5, b);
    assert s3.lastMessage == 6 && Get(s3.messages, 6) == Some(Message(6, y, Some(b)));
  }

  lemma NotNamed(s: MessageSet, a: string, k: int, l: int, b: string)
    requires a != b && Ordered(s.messages) && Get(s.messages, k).Some? && Get(s.messages, k).value.symbol == Some(a)
    requires Get(s.messages, l).Some? && Get(s.messages, l).value.symbol.None?
    requires forall j :: Get(s.messages, j).Some? ==> j == k || j == l
    ensures !Named(s.messages, b)
  {
    forall i | 0 <= i < |s.messages| ensures s.messages[i].symbol != Some(b) {
      GetAt(s.messages, i);
    }
  }
}
