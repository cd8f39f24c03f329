/**
 Reading message source files (gencat's read_input_file): how message lines enter the sorted
 list of a set, how clashing symbolic messages are renumbered, and how sets are found.
 */
module CatalogInput {
  import opened Options
  import opened ByteOrder

  /** A message of a set; the symbol is there when the number was assigned by gencat. */
  datatype Message = Message(number: int, text: seq<Byte>, symbol: Option<string>)

  /** struct set_list: the stored number is one above the one in the input. */
  datatype MessageSet = MessageSet(number: int, messages: seq<Message>, lastMessage: int, symbol: Option<string>)

  // ----- Sorted message lists -----

  ghost predicate Ordered(ms: seq<Message>) {
    forall i, j :: 0 <= i < j < |ms| ==> ms[i].number < ms[j].number
  }

  /** The message with the given number. */
  ghost function Get(ms: seq<Message>, n: int): Option<Message> {
    if i :| 0 <= i < |ms| && ms[i].number == n then Some(ms[i]) else None
  }

  lemma GetAt(ms: seq<Message>, i: int)
    requires Ordered(ms) && 0 <= i < |ms|
    ensures Get(ms, ms[i].number) == Some(ms[i])
  {
  }

  /** An ordered list is determined by what can be got from it. */
  lemma {:induction false} OrderedDetermined(xs: seq<Message>, ys: seq<Message>)
    requires Ordered(xs) && Ordered(ys) && forall n :: Get(xs, n) == Get(ys, n)
    ensures xs == ys
    decreases |xs|
  {
    EmptyTogether(xs, ys);
    if xs != [] {
      LastSame(xs, ys);
      var xs', ys' := xs[..|xs| - 1], ys[..|ys| - 1];
      InitSame(xs, ys, xs', ys');
      OrderedDetermined(xs', ys');
      assert xs == xs' + [xs[|xs| - 1]] && ys == ys' + [ys[|ys| - 1]];
    }
  }

  lemma EmptyTogether(xs: seq<Message>, ys: seq<Message>)
    requires forall n :: Get(xs, n) == Get(ys, n)
    ensures xs == [] <==> ys == []
  {
    assert xs != [] ==> Get(xs, xs[0].number) == Get(ys, xs[0].number);
    assert ys != [] ==> Get(xs, ys[0].number) == Get(ys, ys[0].number);
  }

  lemma LastSame(xs: seq<Message>, ys: seq<Message>)
    requires Ordered(xs) && Ordered(ys) && xs != [] && ys != [] && forall n :: Get(xs, n) == Get(ys, n)
    ensures xs[|xs| - 1] == ys[|ys| - 1]
  {
    var x, y := xs[|xs| - 1], ys[|ys| - 1];
    GetAt(xs, |xs| - 1);
    GetAt(ys, |ys| - 1);
    assert Get(xs, x.number) == Get(ys, x.number) && Get(xs, y.number) == Get(ys, y.number);
  }

  lemma InitSame(xs: seq<Message>, ys: seq<Message>, xs': seq<Message>, ys': seq<Message>)
    requires Ordered(xs) && Ordered(ys) && xs != [] && ys != [] && xs[|xs| - 1].number == ys[|ys| - 1].number
    requires xs' == xs[..|xs| - 1] && ys' == ys[..|ys| - 1] && forall n :: Get(xs, n) == Get(ys, n)
    ensures forall n :: Get(xs', n) == Get(ys', n)
  {
    forall n ensures Get(xs', n) == Get(ys', n) {
      GetInit(xs, n);
      GetInit(ys, n);
    }
  }

  lemma GetInit(ms: seq<Message>, n: int)
    requires Ordered(ms) && ms != []
    ensures var last := ms[|ms| - 1];
      Get(ms[..|ms| - 1], n) == if n == last.number then None else Get(ms, n)
  {
    var init := ms[..|ms| - 1];
    if Get(init, n).Some? {
      var i :| 0 <= i < |init| && init[i].number == n;
      GetAt(ms, i);
      GetAt(init, i);
    } else if Get(ms, n).Some? && n != ms[|ms| - 1].number {
      var i :| 0 <= i < |ms| && ms[i].number == n;
      GetAt(init, i);
    }
  }

  /** `p` is where a message numbered `n` belongs. */
  ghost predicate Place(ms: seq<Message>, n: int, p: int) {
    0 <= p <= |ms| && (p > 0 ==> ms[p - 1].number < n) && (p < |ms| ==> ms[p].number > n)
  }

  function InsertAt(ms: seq<Message>, p: int, m: Message): seq<Message>
    requires 0 <= p <= |ms|
  {
    ms[..p] + [m] + ms[p..]
  }

  function RemoveAt(ms: seq<Message>, p: int): seq<Message>
    requires 0 <= p < |ms|
  {
    ms[..p] + ms[p + 1..]
  }

  lemma InsertOrdered(ms: seq<Message>, p: int, m: Message)
    requires Ordered(ms) && Place(ms, m.number, p)
    ensures Ordered(InsertAt(ms, p, m))
  {
  }

  lemma GetInserted(ms: seq<Message>, p: int, m: Message, k: int)
    requires Ordered(ms) && Place(ms, m.number, p)
    ensures Get(InsertAt(ms, p, m), k) == if k == m.number then Some(m) else Get(ms, k)
  {
    InsertOrdered(ms, p, m);
    var ms' := InsertAt(ms, p, m);
    assert ms'[p] == m;
    if Get(ms, k).Some? {
      var i :| 0 <= i < |ms| && ms[i].number == k;
      assert ms'[if i < p then i else i + 1] == ms[i];
      GetAt(ms, i);
      GetAt(ms', if i < p then i else i + 1);
    }
    if Get(ms', k).Some? && k != m.number {
      var i :| 0 <= i < |ms'| && ms'[i].number == k;
      assert ms'[i] == ms[if i < p then i else i - 1];
    }
  }

  lemma RemoveOrdered(ms: seq<Message>, p: int)
    requires Ordered(ms) && 0 <= p < |ms|
    ensures Ordered(RemoveAt(ms, p))
  {
  }

  lemma GetRemoved(ms: seq<Message>, p: int, k: int)
    requires Ordered(ms) && 0 <= p < |ms|
    ensures Get(RemoveAt(ms, p), k) == if k == ms[p].number then None else Get(ms, k)
  {
    RemoveOrdered(ms, p);
    var ms' := RemoveAt(ms, p);
    if Get(ms', k).Some? {
      var i :| 0 <= i < |ms'| && ms'[i].number == k;
      assert ms'[i] == ms[if i < p then i else i + 1];
      GetAt(ms, if i < p then i else i + 1);
      GetAt(ms', i);
    }
    if Get(ms, k).Some? && k != ms[p].number {
      var i :| 0 <= i < |ms| && ms[i].number == k;
      assert ms'[if i < p then i else i - 1] == ms[i];
    }
  }

  // ----- Message lines -----

  /** A message line: its number or symbol, and its text unless the conversion failed. */
  datatype Line =
    | Numbered(number: nat, text: Option<seq<Byte>>)
    | Symbolic(name: string, text: Option<seq<Byte>>)

  ghost predicate ValidSet(s: MessageSet) {
    && Ordered(s.messages) && s.lastMessage >= 0
    && (forall i :: 0 <= i < |s.messages| ==> 1 <= s.messages[i].number <= s.lastMessage)
    && (forall i, j :: 0 <= i < j < |s.messages| ==> s.messages[i].symbol.Some? ==> s.messages[i].symbol != s.messages[j].symbol)
  }

  ghost predicate Named(ms: seq<Message>, name: string) {
    exists i :: 0 <= i < |ms| && ms[i].symbol == Some(name)
  }

  /** A line that is reported as a duplicate, or numbered zero, and changes nothing. */
  ghost predicate Refused(s: MessageSet, line: Line) {
    match line
    case Numbered(n, _) => n == 0 || (Get(s.messages, n).Some? && Get(s.messages, n).value.symbol.None?)
    case Symbolic(name, _) => Named(s.messages, name)
  }

  /** The number the line asks for or is given. */
  ghost function NumberFor(s: MessageSet, line: Line): int {
    if line.Numbered? then line.number else s.lastMessage + 1
  }

  /** The line takes over the number of a symbolic message. */
  ghost predicate Clashes(s: MessageSet, line: Line) {
    line.Numbered? && !Refused(s, line) && Get(s.messages, line.number).Some?
  }

  ghost function LastAfter(s: MessageSet, line: Line): int {
    if Refused(s, line) then s.lastMessage
    else if line.Symbolic? || Clashes(s, line) then s.lastMessage + 1
    else if line.number > s.lastMessage then line.number else s.lastMessage
  }

  /** What is numbered `k` once the line is read. */
  ghost function GetAfter(s: MessageSet, line: Line, k: int): Option<Message> {
    if Refused(s, line) then Get(s.messages, k)
    else if k == NumberFor(s, line) then
      if line.text.None? then None
      else Some(Message(k, line.text.value, if line.Numbered? then None else Some(line.name)))
    else if Clashes(s, line) && k == s.lastMessage + 1 then
      Some(Get(s.messages, line.number).value.(number := k))
    else Get(s.messages, k)
  }

  ghost predicate Next(s: MessageSet, line: Line, s': MessageSet) {
    && s'.number == s.number && s'.symbol == s.symbol && s'.lastMessage == LastAfter(s, line)
    && Ordered(s'.messages) && forall k :: Get(s'.messages, k) == GetAfter(s, line, k)
  }

  /** The search for a message with the number, which remembers nothing but the place. */
  method FindNumber(ms: seq<Message>, n: int) returns (i: nat)
    requires Ordered(ms)
    ensures i <= |ms| && (i < |ms| ==> ms[i].number == n)
    ensures Get(ms, n) == if i < |ms| then Some(ms[i]) else None
  {
    i := 0;
    while i < |ms| && ms[i].number != n
      invariant i <= |ms| && forall j :: 0 <= j < i ==> ms[j].number != n
    {
      i := i + 1;
    }
  }

  method FindSymbol(ms: seq<Message>, name: string) returns (found: bool)
    ensures found <==> Named(ms, name)
  {
    found := false;
    var i := 0;
    while i < |ms|
      invariant i <= |ms| && forall j :: 0 <= j < i ==> ms[j].symbol != Some(name)
    {
      if ms[i].symbol == Some(name) {
        return true;
      }
      i := i + 1;
    }
  }

  /** The insertion into the sorted list. */
  method Insert(ms: seq<Message>, m: Message) returns (ms': seq<Message>)
    requires Ordered(ms) && Get(ms, m.number).None?
    ensures Ordered(ms') && forall k :: Get(ms', k) == if k == m.number then Some(m) else Get(ms, k)
  {
    var p;
    if ms == [] || ms[0].number > m.number {
      p := 0;
    } else {
      p := 1;
      while p < |ms| && ms[p].number <= m.number
        invariant 1 <= p <= |ms| && ms[p - 1].number <= m.number
      {
        p := p + 1;
      }
    }
    assert Place(ms, m.number, p);
    ms' := InsertAt(ms, p, m);
    InsertOrdered(ms, p, m);
    forall k ensures Get(ms', k) == if k == m.number then Some(m) else Get(ms, k) {
      GetInserted(ms, p, m, k);
    }
  }

  /** The symbolic message at `i` gets the next number and moves to the end of the list. */
  method Renumber(s: MessageSet, i: nat) returns (ms': seq<Message>)
    requires ValidSet(s) && i < |s.messages|
    ensures var n, next := s.messages[i].number, s.lastMessage + 1;
      && Ordered(ms')
      && forall k :: Get(ms', k) == if k == next then Some(s.messages[i].(number := next))
                                    else if k == n then None else Get(s.messages, k)
  {
    var ms, next := s.messages, s.lastMessage + 1;
    var m := ms[i].(number := next);
    if i + 1 < |ms| {
      ms' := ms[..i] + ms[i + 1..] + [m];
    } else {
      ms' := ms[i := m];
    }
    var rest := RemoveAt(ms, i);
    RemoveOrdered(ms, i);
    assert ms' == InsertAt(rest, |rest|, m);
    InsertOrdered(rest, |rest|, m);
    forall k
      ensures Get(ms', k) == if k == next then Some(m) else if k == ms[i].number then None else Get(ms, k)
    {
      GetRemoved(ms, i, k);
      GetInserted(rest, |rest|, m, k);
    }
  }

  method AddNumbered(s: MessageSet, n: nat, text: Option<seq<Byte>>) returns (s': MessageSet, counted: bool)
    requires ValidSet(s)
    ensures Next(s, Numbered(n, text), s')
    ensures counted <==> Refused(s, Numbered(n, text)) || text.Some?
  {
    var messageNumber, ms, last := n, s.messages, s.lastMessage;
    var i := FindNumber(ms, n);
    if i < |ms| {
      if ms[i].symbol.None? {
        messageNumber := 0;
      } else {
        last := last + 1;
        ms := Renumber(s, i);
      }
    }
    if messageNumber != 0 && messageNumber > last {
      last := messageNumber;
    }
    if messageNumber != 0 && text.Some? {
      ms := Insert(ms, Message(messageNumber, text.value, None));
    }
    counted := messageNumber == 0 || text.Some?;
    s' := s.(messages := ms, lastMessage := last);
  }

  method AddSymbolic(s: MessageSet, name: string, text: Option<seq<Byte>>) returns (s': MessageSet, counted: bool)
    requires ValidSet(s)
    ensures Next(s, Symbolic(name, text), s')
    ensures counted <==> Refused(s, Symbolic(name, text)) || text.Some?
  {
    var messageNumber, ms, last := 0, s.messages, s.lastMessage;
    var found := FindSymbol(ms, name);
    if !found {
      last := last + 1;
      messageNumber := last;
    }
    if messageNumber != 0 && text.Some? {
      ms := Insert(ms, Message(messageNumber, text.value, Some(name)));
    }
    counted := messageNumber == 0 || text.Some?;
    s' := s.(messages := ms, lastMessage := last);
  }

  // ----- What every run of lines keeps -----

  lemma NextValid(s: MessageSet, line: Line, s': MessageSet)
    requires ValidSet(s) && Next(s, line, s')
    ensures ValidSet(s')
  {
    var ms := s'.messages;
    forall i | 0 <= i < |ms| ensures 1 <= ms[i].number <= s'.lastMessage {
      GetAt(ms, i);
    }
    forall i, j | 0 <= i < j < |ms| && ms[i].symbol.Some? ensures ms[i].symbol != ms[j].symbol {
      GetAt(ms, i);
      GetAt(ms, j);
    }
  }

  /** A run: the states of a set as lines are read into it. */
  ghost predicate IsRun(states: seq<MessageSet>, lines: seq<Line>) {
    |states| == |lines| + 1 && ValidSet(states[0]) && forall i :: 0 <= i < |lines| ==> Next(states[i], lines[i], states[i + 1])
  }

  lemma {:induction false} RunValid(states: seq<MessageSet>, lines: seq<Line>, n: nat)
    requires IsRun(states, lines) && n <= |lines|
    ensures ValidSet(states[n])
  {
    if n > 0 {
      RunValid(states, lines, n - 1);
      NextValid(states[n - 1], lines[n - 1], states[n]);
    }
  }

  /** A message whose number the user gave keeps number and text through every run. */
  lemma {:induction false} RunKeepsNumbered(states: seq<MessageSet>, lines: seq<Line>, n: nat, k: int)
    requires IsRun(states, lines) && n <= |lines|
    requires Get(states[0].messages, k).Some? && Get(states[0].messages, k).value.symbol.None?
    ensures Get(states[n].messages, k) == Get(states[0].messages, k)
  {
    if n > 0 {
      RunKeepsNumbered(states, lines, n - 1, k);
      RunValid(states, lines, n - 1);
      assert Get(states[n].messages, k) == GetAfter(states[n - 1], lines[n - 1], k);
    }
  }

  /**
   A symbolic message keeps symbol and text through every run, and its number as well unless
   some line of the run asked for that number.
   */
  lemma {:induction false} RunKeepsSymbolic(states: seq<MessageSet>, lines: seq<Line>, n: nat, k: int) returns (k': int)
    requires IsRun(states, lines) && n <= |lines|
    requires Get(states[0].messages, k).Some? && Get(states[0].messages, k).value.symbol.Some?
    ensures Get(states[n].messages, k') == Some(Get(states[0].messages, k).value.(number := k'))
    ensures k' == k || exists i :: 0 <= i < n && lines[i].Numbered? && lines[i].number == k
  {
    k' := k;
    if n > 0 {
      k' := RunKeepsSymbolic(states, lines, n - 1, k);
      RunValid(states, lines, n - 1);
      var s, line, s' := states[n - 1], lines[n - 1], states[n];
      var at := k';
      if Clashes(s, line) && line.number == k' {
        k' := s.lastMessage + 1;
      }
      assert Get(s'.messages, k') == GetAfter(s, line, k');
      assert k' != at ==> lines[n - 1].Numbered? && lines[n - 1].number == at;
    }
  }

  // ----- Sets -----

  const NL_SETD := 1

  /** The first set with the given stored number, or the number of sets. */
  function SetIndex(sets: seq<MessageSet>, number: int): (i: nat)
    ensures i <= |sets| && (i < |sets| ==> sets[i].number == number)
    ensures forall j :: 0 <= j < i ==> sets[j].number != number
  {
    SetIndexFrom(sets, number, 0)
  }

  function SetIndexFrom(sets: seq<MessageSet>, number: int, from: nat): (i: nat)
    requires from <= |sets|
    ensures from <= i <= |sets| && (i < |sets| ==> sets[i].number == number)
    ensures forall j :: from <= j < i ==> sets[j].number != number
    decreases |sets| - from
  {
    if from == |sets| || sets[from].number == number then from else SetIndexFrom(sets, number, from + 1)
  }

  /** What the catalog holds for a stored set number and a message number. */
  ghost function Find(sets: seq<MessageSet>, setNumber: int, n: int): Option<Message> {
    var i := SetIndex(sets, setNumber);
    if i < |sets| then Get(sets[i].messages, n) else None
  }

  /** Set numbers are distinct and every list is in order. */
  ghost predicate OrderedSets(sets: seq<MessageSet>) {
    && (forall i :: 0 <= i < |sets| ==> Ordered(sets[i].messages))
    && forall i, j :: 0 <= i < j < |sets| ==> sets[i].number != sets[j].number
  }

  /** The sets with set `n` present, which find_set puts first when it makes it. */
  function WithSet(sets: seq<MessageSet>, n: int): (r: seq<MessageSet>)
    ensures SetIndex(r, n + 1) < |r|
  {
    if SetIndex(sets, n + 1) < |sets| then sets else [MessageSet(n + 1, [], 0, None)] + sets
  }

  /** The sets once a directive has entered set `n`. */
  function Entered(sets: seq<MessageSet>, n: int, symbol: Option<string>): seq<MessageSet> {
    var found := WithSet(sets, n);
    var i := SetIndex(found, n + 1);
    found[i := found[i].(symbol := symbol)]
  }

  lemma WithSetFinds(sets: seq<MessageSet>, number: int)
    requires OrderedSets(sets)
    ensures OrderedSets(WithSet(sets, number)) && forall s, n :: Find(WithSet(sets, number), s, n) == Find(sets, s, n)
  {
    var sets' := WithSet(sets, number);
    if sets' != sets {
      assert sets'[1..] == sets;
      forall s, n ensures Find(sets', s, n) == Find(sets, s, n) {
        assert s != number + 1 ==> SetIndex(sets', s) == 1 + SetIndex(sets, s);
      }
    }
  }

  /** The set with the given number as the input writes it, made if need be. */
  method FindSet(sets: seq<MessageSet>, number: int) returns (sets': seq<MessageSet>, i: nat)
    requires OrderedSets(sets)
    ensures sets' == WithSet(sets, number) && i == SetIndex(sets', number + 1) && OrderedSets(sets')
    ensures forall s, n :: Find(sets', s, n) == Find(sets, s, n)
  {
    WithSetFinds(sets, number);
    i := 0;
    while i < |sets|
      invariant i <= |sets| && forall j :: 0 <= j < i ==> sets[j].number != number + 1
    {
      if sets[i].number == number + 1 {
        return sets, i;
      }
      i := i + 1;
    }
    sets' := [MessageSet(number + 1, [], 0, None)] + sets;
    i := 0;
  }

  /** Replacing the contents of one set. */
  lemma FindReplaced(sets: seq<MessageSet>, i: nat, s': MessageSet, s: int, n: int)
    requires OrderedSets(sets) && i < |sets| && s'.number == sets[i].number
    ensures Find(sets[i := s'], s, n) == if s == s'.number then Get(s'.messages, n) else Find(sets, s, n)
  {
    ReplacedIndex(sets, i, s', s);
  }

  // ----- A catalog being read -----

  datatype Directive = SetNumber(n: nat) | SetName(name: string) | MessageLine(line: Line)

  /** The number that a line asks for in the set it is read into. */
  function Asks(line: Line, current: int): set<(int, int)> { if line.Numbered? then {(current, line.number)} else {} }

  /**
   User-numbered messages stand as they were; symbolic ones are still there with their text, and with
   their number unless it was asked for.
   */
  ghost predicate Keeps(before: seq<MessageSet>, after: seq<MessageSet>, asked: set<(int, int)>) {
    && (forall s, k :: Find(before, s, k).Some? && Find(before, s, k).value.symbol.None? ==> Find(after, s, k) == Find(before, s, k))
    && (forall s, k :: Find(before, s, k).Some? && Find(before, s, k).value.symbol.Some? ==> Moved(after, s, Find(before, s, k).value, asked))
  }

  ghost predicate Moved(sets: seq<MessageSet>, s: int, m: Message, asked: set<(int, int)>) {
    exists k :: Find(sets, s, k) == Some(m.(number := k)) && (k == m.number || (s, m.number) in asked)
  }

  lemma KeepsTransitive(a: seq<MessageSet>, b: seq<MessageSet>, c: seq<MessageSet>, sooner: set<(int, int)>, later: set<(int, int)>)
    requires Keeps(a, b, sooner) && Keeps(b, c, later)
    ensures Keeps(a, c, sooner + later)
  {
    forall s, k | Find(a, s, k).Some? && Find(a, s, k).value.symbol.Some?
      ensures Moved(c, s, Find(a, s, k).value, sooner + later)
    {
      var m := Find(a, s, k).value;
      var j :| Find(b, s, j) == Some(m.(number := j)) && (j == m.number || (s, m.number) in sooner);
      assert Moved(c, s, Find(b, s, j).value, later);
      var l :| Find(c, s, l) == Some(m.(number := j).(number := l)) && (l == j || (s, j) in later);
      assert Find(c, s, l) == Some(m.(number := l));
    }
  }

  lemma NextKeeps(sets: seq<MessageSet>, i: nat, line: Line, s': MessageSet)
    requires OrderedSets(sets) && i < |sets| && ValidSet(sets[i]) && Next(sets[i], line, s')
    ensures Keeps(sets, sets[i := s'], Asks(line, sets[i].number))
  {
    var sets', asked := sets[i := s'], Asks(line, sets[i].number);
    forall s, k | Find(sets, s, k).Some?
      ensures Find(sets, s, k).value.symbol.None? ==> Find(sets', s, k) == Find(sets, s, k)
      ensures Find(sets, s, k).value.symbol.Some? ==> Moved(sets', s, Find(sets, s, k).value, asked)
    {
      FindReplaced(sets, i, s', s, k);
      var m := Find(sets, s, k).value;
      if s == s'.number && m.symbol.None? {
        RunKeepsNumbered([sets[i], s'], [line], 1, k);
      } else if s == s'.number {
        var k' := RunKeepsSymbolic([sets[i], s'], [line], 1, k);
        FindReplaced(sets, i, s', s, k');
      } else {
        assert Find(sets', s, k) == Some(m.(number := m.number));
      }
    }
  }

  /** Valid sets with numbers that named sets will not be given, but for the default set. */
  ghost predicate ValidSource(sets: seq<MessageSet>, current: int, lastSet: int) {
    && OrderedSets(sets) && (forall i :: 0 <= i < |sets| ==> ValidSet(sets[i]))
    && SetIndex(sets, current) < |sets| && SetIndex(sets, NL_SETD + 1) < |sets| && lastSet >= 0
    && forall i :: 0 <= i < |sets| ==> FitsNumber(sets[i], lastSet)
  }

  ghost predicate FitsNumber(s: MessageSet, lastSet: int) {
    2 <= s.number && (s.number <= lastSet + 1 || s.number == NL_SETD + 1)
  }

  lemma RaiseLast(sets: seq<MessageSet>, current: int, lastSet: int, n: int)
    requires ValidSource(sets, current, lastSet) && lastSet <= n
    ensures ValidSource(sets, current, n)
  {
  }

  lemma ReplaceValid(sets: seq<MessageSet>, current: int, lastSet: int, i: nat, s': MessageSet)
    requires ValidSource(sets, current, lastSet) && i < |sets| && ValidSet(s') && s'.number == sets[i].number
    ensures ValidSource(sets[i := s'], current, lastSet)
  {
    ReplacedIndex(sets, i, s', current);
    ReplacedIndex(sets, i, s', NL_SETD + 1);
  }

  /** The fields of struct catalog that reading changes. */
  datatype State = State(sets: seq<MessageSet>, current: int, total: nat, lastSet: int)

  /** Before anything is read: the default set, without messages. */
  const INITIAL: State := State([MessageSet(NL_SETD + 1, [], 0, None)], NL_SETD + 1, 0, 0)

  /** What one line of the input does. */
  ghost predicate Read(a: State, d: Directive, b: State) {
    match d
    case MessageLine(line) =>
      var i := SetIndex(a.sets, a.current);
      && i < |a.sets| == |b.sets| && Next(a.sets[i], line, b.sets[i])
      && b == State(a.sets[i := b.sets[i]], a.current, a.total + Counts(a.sets[i], line), a.lastSet)
    case SetNumber(n) =>
      b == if n == 0 then a else State(Entered(a.sets, n, None), n + 1, a.total, if n > a.lastSet then n else a.lastSet)
    case SetName(name) =>
      b == if SetNamed(a.sets, name) then a else State(Entered(a.sets, a.lastSet + 1, Some(name)), a.lastSet + 2, a.total, a.lastSet + 1)
  }

  /** A line is counted unless its conversion fails, which ends it early. */
  ghost function Counts(s: MessageSet, line: Line): nat { if !Refused(s, line) && line.text.None? then 0 else 1 }

  /** The states as the first `n` lines are read. */
  ghost predicate IsReading(states: seq<State>, input: seq<Directive>, n: nat) {
    |states| == n + 1 && n <= |input| && forall i :: 0 <= i < n ==> ReadAt(states, input, i)
  }

  ghost predicate ReadAt(states: seq<State>, input: seq<Directive>, i: int)
    requires 0 <= i < |input| && i + 1 < |states|
  {
    Read(states[i], input[i], states[i + 1])
  }

  /** The input read from the start leaves the state. */
  ghost predicate Reads(input: seq<Directive>, s: State) {
    exists states :: IsReading(states, input, |input|) && states[0] == INITIAL && states[|input|] == s
  }

  /** A new name enters a set not used before, except that the first one joins the default set. */
  lemma NamedSetIsNew(a: State, name: string, b: State)
    requires ValidSource(a.sets, a.current, a.lastSet) && Read(a, SetName(name), b) && !SetNamed(a.sets, name)
    ensures SetIndex(a.sets, b.current) == |a.sets| <==> a.lastSet > 0
    ensures a.lastSet == 0 ==> b.current == NL_SETD + 1
  {
  }

  /** A line leaves no choice. */
  lemma ReadOnce(a: State, d: Directive, b: State, c: State)
    requires Read(a, d, b) && Read(a, d, c)
    ensures b == c
  {
    if d.MessageLine? {
      var i := SetIndex(a.sets, a.current);
      OrderedDetermined(b.sets[i].messages, c.sets[i].messages);
    }
  }

  lemma {:induction false} ReadingOnce(xs: seq<State>, ys: seq<State>, input: seq<Directive>, n: nat, i: nat)
    requires IsReading(xs, input, n) && IsReading(ys, input, n) && xs[0] == ys[0] && i <= n
    ensures xs[i] == ys[i]
  {
    if i > 0 {
      ReadingOnce(xs, ys, input, n, i - 1);
      assert ReadAt(xs, input, i - 1) && ReadAt(ys, input, i - 1);
      ReadOnce(xs[i - 1], input[i - 1], xs[i], ys[i]);
    }
  }

  /** So the input determines the catalog. */
  lemma InputDetermines(input: seq<Directive>, s: State, s': State)
    requires Reads(input, s) && Reads(input, s')
    ensures s == s'
  {
    var xs :| IsReading(xs, input, |input|) && xs[0] == INITIAL && xs[|input|] == s;
    var ys :| IsReading(ys, input, |input|) && ys[0] == INITIAL && ys[|input|] == s';
    ReadingOnce(xs, ys, input, |input|, |input|);
  }

  lemma EnteredValid(sets: seq<MessageSet>, current: int, lastSet: int, n: nat, symbol: Option<string>)
    requires ValidSource(sets, current, lastSet) && 0 < n <= lastSet
    ensures ValidSource(Entered(sets, n, symbol), n + 1, lastSet)
  {
    var found := WithSet(sets, n);
    var i := SetIndex(found, n + 1);
    WithSetFinds(sets, n);
    FoundSetValid(sets, current, lastSet, n, found);
    ReplaceValid(found, n + 1, lastSet, i, found[i].(symbol := symbol));
  }

  /** Every line keeps the catalog valid, and the messages that are in it. */
  lemma ReadKeeps(a: State, d: Directive, b: State)
    requires ValidSource(a.sets, a.current, a.lastSet) && Read(a, d, b)
    ensures ValidSource(b.sets, b.current, b.lastSet) && Keeps(a.sets, b.sets, AsksFor(d, a.current))
  {
    match d {
      case MessageLine(line) =>
        var i := SetIndex(a.sets, a.current);
        NextKeeps(a.sets, i, line, b.sets[i]);
        NextValid(a.sets[i], line, b.sets[i]);
        ReplaceValid(a.sets, a.current, a.lastSet, i, b.sets[i]);
      case SetNumber(n) =>
        EnterKeeps(a, n, None, b);
      case SetName(name) =>
        EnterKeeps(a, a.lastSet + 1, Some(name), b);
    }
  }

  lemma EnterKeeps(a: State, n: nat, symbol: Option<string>, b: State)
    requires ValidSource(a.sets, a.current, a.lastSet)
    requires b == a || (n > 0 && b == State(Entered(a.sets, n, symbol), n + 1, a.total, if n > a.lastSet then n else a.lastSet))
    ensures ValidSource(b.sets, b.current, b.lastSet) && Keeps(a.sets, b.sets, {})
  {
    if b == a {
      KeepsSame(a.sets, b.sets);
    } else {
      RaiseLast(a.sets, a.current, a.lastSet, b.lastSet);
      EnteredValid(a.sets, a.current, b.lastSet, n, symbol);
      EnteredKeeps(a.sets, n, symbol);
    }
  }

  /** struct catalog while the input is read. */
  class Source {
    var sets: seq<MessageSet>
    var current: int
    var total: nat
    var lastSet: int

    ghost predicate Valid()
      reads this
    {
      ValidSource(sets, current, lastSet)
    }

    ghost function View(): State
      reads this
    {
      State(sets, current, total, lastSet)
    }

    constructor ()
      ensures Valid() && View() == INITIAL
    {
      sets := [MessageSet(NL_SETD + 1, [], 0, None)];
      current := NL_SETD + 1;
      total, lastSet := 0, 0;
    }

    /** A message line changes the current set alone. */
    method ReadMessage(line: Line)
      requires Valid()
      modifies this
      ensures Valid() && Read(old(View()), MessageLine(line), View()) && Keeps(old(sets), sets, Asks(line, old(current)))
    {
      ghost var before := View();
      var i := SetIndex(sets, current);
      var s', counted;
      match line {
        case Numbered(n, text) => s', counted := AddNumbered(sets[i], n, text);
        case Symbolic(name, text) => s', counted := AddSymbolic(sets[i], name, text);
      }
      sets := sets[i := s'];
      total := total + if counted then 1 else 0;
      ReadKeeps(before, MessageLine(line), View());
    }

    /** A $set directive with a number; zero is no set. */
    method BeginNumbered(n: nat)
      requires Valid()
      modifies this
      ensures Valid() && Read(old(View()), SetNumber(n), View())
      ensures Keeps(old(sets), sets, {})
    {
      KeepsSame(sets, sets);
      if n > lastSet {
        RaiseLast(sets, current, lastSet, n);
        lastSet := n;
      }
      if n != 0 {
        Enter(n, None);
      }
    }

    /** A $set directive with a name. */
    method BeginNamed(name: string)
      requires Valid()
      modifies this
      ensures Valid() && Read(old(View()), SetName(name), View())
      ensures Keeps(old(sets), sets, {})
    {
      KeepsSame(sets, sets);
      var used := FindSetNamed(sets, name);
      if used {
        return;
      }
      EnterNext(name);
    }

    /** The next set number given to a name. */
    method EnterNext(name: string)
      requires Valid()
      modifies this
      ensures Valid() && Keeps(old(sets), sets, {})
      ensures View() == State(Entered(old(sets), old(lastSet) + 1, Some(name)), old(lastSet) + 2, old(total), old(lastSet) + 1)
    {
      RaiseLast(sets, current, lastSet, lastSet + 1);
      lastSet := lastSet + 1;
      Enter(lastSet, Some(name));
    }

    /** find_set, and the symbol of the set found replaced. */
    method Enter(n: nat, symbol: Option<string>)
      requires Valid() && 0 < n <= lastSet
      modifies this
      ensures Valid() && total == old(total) && lastSet == old(lastSet) && current == n + 1
      ensures sets == Entered(old(sets), n, symbol) && Keeps(old(sets), sets, {})
    {
      EnteredKeeps(sets, n, symbol);
      EnteredValid(sets, current, lastSet, n, symbol);
      var found, i := FindSet(sets, n);
      sets := found[i := found[i].(symbol := symbol)];
      current := n + 1;
    }

    /** One line of the input. */
    method ReadDirective(d: Directive)
      requires Valid()
      modifies this
      ensures Valid() && Read(old(View()), d, View()) && Keeps(old(sets), sets, AsksFor(d, old(current)))
    {
      match d {
        case SetNumber(n) => BeginNumbered(n);
        case SetName(name) => BeginNamed(name);
        case MessageLine(line) => ReadMessage(line);
      }
    }

    /**
     Any input, with the states it goes through: the catalog stays valid, no message is lost, and
     a symbolic one keeps its number unless a line read into its own set asked for it.
     */
    method ReadAll(input: seq<Directive>) returns (ghost states: seq<State>)
      requires Valid()
      modifies this
      ensures Valid() && IsReading(states, input, |input|) && states[0] == old(View()) && states[|input|] == View()
      ensures Keeps(old(sets), sets, AskedFor(input, states, 0, |input|))
    {
      KeepsSame(sets, sets);
      states := [View()];
      for i := 0 to |input|
        invariant Valid() && IsReading(states, input, i) && states[0] == old(View()) && states[i] == View()
        invariant Keeps(old(sets), sets, AskedFor(input, states, 0, i))
      {
        ghost var before := sets;
        ReadDirective(input[i]);
        KeepsTransitive(old(sets), before, sets, AskedFor(input, states, 0, i), AsksFor(input[i], states[i].current));
        ReadingOn(input, states, i, View());
        states := states + [View()];
      }
    }
  }

  function AsksFor(d: Directive, current: int): set<(int, int)> { if d.MessageLine? then Asks(d.line, current) else {} }

  /** The set and message numbers asked for by the lines from `from` up to `n`. */
  ghost function AskedFor(input: seq<Directive>, states: seq<State>, from: nat, n: nat): set<(int, int)>
    requires from <= n <= |input| && n <= |states|
  {
    if n == from then {} else AskedFor(input, states, from, n - 1) + AsksFor(input[n - 1], states[n - 1].current)
  }

  lemma {:induction false} AskedSame(input: seq<Directive>, states: seq<State>, states': seq<State>, n: nat)
    requires n <= |input| && n <= |states| && states <= states'
    ensures AskedFor(input, states, 0, n) == AskedFor(input, states', 0, n)
  {
    if n > 0 {
      AskedSame(input, states, states', n - 1);
    }
  }

  lemma ReadingOn(input: seq<Directive>, states: seq<State>, n: nat, next: State)
    requires n < |input| && IsReading(states, input, n) && Read(states[n], input[n], next)
    ensures IsReading(states + [next], input, n + 1)
    ensures AskedFor(input, states + [next], 0, n + 1) == AskedFor(input, states, 0, n) + AsksFor(input[n], states[n].current)
  {
    var states' := states + [next];
    forall i | 0 <= i <= n ensures ReadAt(states', input, i) {
      if i < n {
        assert ReadAt(states, input, i);
      }
    }
    AskedSame(input, states, states', n);
  }

  lemma FoundSetValid(sets: seq<MessageSet>, current: int, lastSet: int, n: nat, found: seq<MessageSet>)
    requires ValidSource(sets, current, lastSet) && 0 < n <= lastSet && OrderedSets(found)
    requires found == WithSet(sets, n)
    ensures ValidSource(found, n + 1, lastSet)
  {
    if found != sets {
      var i := SetIndex(sets, NL_SETD + 1);
      assert found[i + 1] == sets[i] && found[0].number == n + 1;
      forall j | 0 <= j < |found| ensures ValidSet(found[j]) && FitsNumber(found[j], lastSet) {
        if j > 0 {
          assert found[j] == sets[j - 1];
        }
      }
    }
  }

  /** Whether the name of a $set directive is taken. */
  method FindSetNamed(sets: seq<MessageSet>, name: string) returns (found: bool)
    ensures found <==> SetNamed(sets, name)
  {
    var i := 0;
    while i < |sets|
      invariant i <= |sets| && forall j :: 0 <= j < i ==> sets[j].symbol != Some(name)
    {
      if sets[i].symbol == Some(name) {
        return true;
      }
      i := i + 1;
    }
    return false;
  }

  ghost predicate SetNamed(sets: seq<MessageSet>, name: string) {
    exists i :: 0 <= i < |sets| && sets[i].symbol == Some(name)
  }

  lemma ReplacedIndex(sets: seq<MessageSet>, i: nat, s': MessageSet, t: int)
    requires OrderedSets(sets) && i < |sets| && s'.number == sets[i].number
    ensures SetIndex(sets[i := s'], t) == SetIndex(sets, t)
  {
    var sets' := sets[i := s'];
    assert forall j :: 0 <= j < |sets| ==> sets[j].number == sets'[j].number;
  }

  /** Entering a set changes no message. */
  lemma EnteredKeeps(sets: seq<MessageSet>, n: int, symbol: Option<string>)
    requires OrderedSets(sets)
    ensures forall s, k :: Find(Entered(sets, n, symbol), s, k) == Find(sets, s, k)
    ensures Keeps(sets, Entered(sets, n, symbol), {})
  {
    var found := WithSet(sets, n);
    var i := SetIndex(found, n + 1);
    var s' := found[i].(symbol := symbol);
    WithSetFinds(sets, n);
    forall s, k ensures Find(found[i := s'], s, k) == Find(sets, s, k) {
      FindReplaced(found, i, s', s, k);
    }
    KeepsSame(sets, found[i := s']);
  }

  lemma KeepsSame(a: seq<MessageSet>, b: seq<MessageSet>)
    requires forall s, k :: Find(a, s, k) == Find(b, s, k)
    ensures Keeps(a, b, {})
  {
    forall s, k | Find(a, s, k).Some? ensures Moved(b, s, Find(a, s, k).value, {}) {
      var m := Find(a, s, k).value;
      assert m == m.(number := k);
    }
  }
}
