/**
 The order in which argp_parse calls the user's parsers (argp-parse.c).  What a parser answers
 and what getopt finds are arbitrary: both are functions of how often they were asked.
 */
module ArgpCallbacks {
  import opened Options

  /** The keys a parser is called with. */
  datatype Key = Init | Opt(value: int) | Arg | Args | NoArgs | End | Success | Error | Fini

  /** A call to the parser of a group, and how many arguments it took. */
  datatype Event = Event(group: nat, key: Key, taken: nat)

  /** The part of struct argp_state that steers parsing; parsers may change all of it. */
  datatype State = State(next: int, argc: int, quoted: int, noArgs: bool)

  datatype Reply = Reply(err: int, state: State)

  /** What getopt returns: its key, with optind; an option comes with the group it belongs to. */
  datatype Getopt =
    | AtEnd(optind: int, quote: bool)
    | Bad(optind: int)
    | Argument(optind: int)
    | Found(optind: int, group: Option<nat>, value: int)

  const EBADKEY := 7
  const EINVAL := 22

  // ----- The grammar -----

  function Rank(key: Key): nat {
    match key
    case Init => 0
    case Opt(_) => 1 case Arg => 1 case Args => 1
    case NoArgs => 2
    case End => 3
    case Success => 4 case Error => 4
    case Fini => 5
  }

  /** END, SUCCESS and FINI go to the groups from the last to the first, the others from the first on. */
  predicate Downwards(key: Key) { key == End || key == Success || key == Fini }

  predicate InTurn(key: Key, g: nat, h: nat) { if Downwards(key) then g > h else g < h }

  /** Calls come in ranks, and but for options and arguments each group has its turn once in a rank. */
  ghost predicate InOrder(trace: seq<Event>) {
    forall i, j :: 0 <= i < j < |trace| ==> Follows(trace[i], trace[j])
  }

  ghost predicate Follows(e: Event, f: Event) {
    && Rank(e.key) <= Rank(f.key)
    && (Rank(e.key) == Rank(f.key) != 1 ==> e.key == f.key && InTurn(e.key, e.group, f.group))
  }

  ghost predicate Called(trace: seq<Event>, g: nat, key: Key) {
    exists i :: 0 <= i < |trace| && trace[i].group == g && trace[i].key == key
  }

  /** How many arguments the first `n` calls took for a group. */
  function Taken(trace: seq<Event>, n: nat, g: nat): nat
    requires n <= |trace|
  {
    if n == 0 then 0 else Taken(trace, n - 1, g) + if trace[n - 1].group == g then trace[n - 1].taken else 0
  }

  /** Every event is of a group that has a parser. */
  ghost predicate WellTraced(trace: seq<Event>, parsers: seq<bool>) {
    forall i :: 0 <= i < |trace| ==> trace[i].group < |parsers| && parsers[trace[i].group]
  }

  ghost predicate AllCalled(trace: seq<Event>, parsers: seq<bool>, key: Key) {
    forall g: nat :: g < |parsers| && parsers[g] ==> Called(trace, g, key)
  }

  ghost predicate IdleOnly(trace: seq<Event>) {
    forall i :: 0 <= i < |trace| && trace[i].key == NoArgs ==> Taken(trace, |trace|, trace[i].group) == 0
  }

  ghost predicate RanksUpTo(trace: seq<Event>, r: nat) { forall i :: 0 <= i < |trace| ==> Rank(trace[i].key) <= r }

  lemma {:induction false} TakenPrefix(trace: seq<Event>, more: seq<Event>, n: nat, g: nat)
    requires n <= |trace|
    ensures Taken(trace + more, n, g) == Taken(trace, n, g)
  {
    if n > 0 {
      TakenPrefix(trace, more, n - 1, g);
    }
  }

  lemma {:induction false} TakenNothing(trace: seq<Event>, more: seq<Event>, m: nat, g: nat)
    requires m <= |more| && forall i :: 0 <= i < |more| ==> more[i].taken == 0
    ensures Taken(trace + more, |trace| + m, g) == Taken(trace, |trace|, g)
  {
    if m == 0 {
      TakenPrefix(trace, more, |trace|, g);
    } else {
      TakenNothing(trace, more, m - 1, g);
      assert (trace + more)[|trace| + m - 1] == more[m - 1];
    }
  }

  // ----- Rounds of calls -----

  /** One call each of the same key to groups in turn. */
  ghost predicate Round(ev: seq<Event>, key: Key, parsers: seq<bool>) {
    && WellTraced(ev, parsers)
    && (forall i :: 0 <= i < |ev| ==> ev[i].key == key && ev[i].taken == 0)
    && forall i, j :: 0 <= i < j < |ev| ==> InTurn(key, ev[i].group, ev[j].group)
  }

  /** A round over the groups from `lo` to `hi` that left out none of those wanted. */
  ghost predicate Swept(ev: seq<Event>, key: Key, parsers: seq<bool>, want: seq<bool>, lo: nat, hi: nat) {
    && Round(ev, key, parsers) && hi <= |parsers| == |want|
    && (forall i :: 0 <= i < |ev| ==> lo <= ev[i].group < hi && want[ev[i].group])
    && (forall g: nat :: lo <= g < hi && want[g] ==> Called(ev, g, key))
  }

  /** The groups that have a parser and took no argument. */
  function IdleGroups(parsers: seq<bool>, processed: seq<nat>): (w: seq<bool>)
    requires |processed| == |parsers|
    ensures |w| == |parsers|
  {
    seq(|parsers|, g requires 0 <= g < |parsers| => parsers[g] && processed[g] == 0)
  }

  ghost function CallTo(parsers: seq<bool>, g: nat, key: Key): seq<Event>
    requires g < |parsers|
  {
    if parsers[g] then [Event(g, key, 0)] else []
  }

  /** The group next to the range joins it. */
  lemma SweptOn(ev: seq<Event>, key: Key, parsers: seq<bool>, want: seq<bool>, lo: nat, hi: nat, g: nat)
    requires lo <= hi && Swept(ev, key, parsers, want, lo, hi) && g < |parsers| && if Downwards(key) then g + 1 == lo else g == hi
    requires want[g] == parsers[g]
    ensures Swept(ev + CallTo(parsers, g, key), key, parsers, want, if Downwards(key) then g else lo, if Downwards(key) then hi else hi + 1)
  {
    var ev' := ev + CallTo(parsers, g, key);
    RoundOn(ev, key, parsers, g);
    forall h: nat | Called(ev, h, key) ensures Called(ev', h, key) {
      var i :| 0 <= i < |ev| && ev[i].group == h && ev[i].key == key;
      assert ev'[i] == ev[i];
    }
    assert parsers[g] ==> ev'[|ev|] == Event(g, key, 0);
  }

  lemma RoundOn(ev: seq<Event>, key: Key, parsers: seq<bool>, g: nat)
    requires Round(ev, key, parsers) && g < |parsers| && forall i :: 0 <= i < |ev| ==> InTurn(key, ev[i].group, g)
    ensures Round(ev + CallTo(parsers, g, key), key, parsers)
  {
  }

  lemma SweptPast(ev: seq<Event>, key: Key, parsers: seq<bool>, want: seq<bool>, lo: nat, hi: nat)
    requires Swept(ev, key, parsers, want, lo, hi) && hi < |parsers| && !want[hi]
    ensures Swept(ev, key, parsers, want, lo, hi + 1)
  {
  }

  ghost predicate Idle(ev: seq<Event>, processed: seq<nat>) {
    forall i :: 0 <= i < |ev| ==> ev[i].group < |processed| && processed[ev[i].group] == 0
  }

  lemma SweptIdle(ev: seq<Event>, key: Key, parsers: seq<bool>, processed: seq<nat>, hi: nat)
    requires |processed| == |parsers| && Swept(ev, key, parsers, IdleGroups(parsers, processed), 0, hi)
    ensures Idle(ev, processed)
  {
  }

  lemma SweptAll(ev: seq<Event>, key: Key, parsers: seq<bool>, want: seq<bool>)
    requires Swept(ev, key, parsers, want, 0, |parsers|)
    ensures AllCalled(ev, want, key)
  {
  }

  lemma CalledStays(trace: seq<Event>, ev: seq<Event>, parsers: seq<bool>, key: Key)
    ensures AllCalled(trace, parsers, key) ==> AllCalled(trace + ev, parsers, key)
    ensures AllCalled(ev, parsers, key) ==> AllCalled(trace + ev, parsers, key)
  {
    forall g: nat | Called(trace, g, key) ensures Called(trace + ev, g, key) {
      var i :| 0 <= i < |trace| && trace[i].group == g && trace[i].key == key;
      assert (trace + ev)[i] == trace[i];
    }
    forall g: nat | Called(ev, g, key) ensures Called(trace + ev, g, key) {
      var i :| 0 <= i < |ev| && ev[i].group == g && ev[i].key == key;
      assert (trace + ev)[|trace| + i] == ev[i];
    }
  }

  lemma CalledPrefix(trace: seq<Event>, trace': seq<Event>, want: seq<bool>, key: Key)
    ensures trace <= trace' && AllCalled(trace, want, key) ==> AllCalled(trace', want, key)
  {
    if trace <= trace' {
      assert trace' == trace + trace'[|trace|..];
      CalledStays(trace, trace'[|trace|..], want, key);
    }
  }

  /** A parse that has reached rank `r`. */
  ghost predicate Staged(trace: seq<Event>, parsers: seq<bool>, r: nat) {
    && WellTraced(trace, parsers) && InOrder(trace) && RanksUpTo(trace, r) && AllCalled(trace, parsers, Init) && IdleOnly(trace)
  }

  /** The groups of the round have taken no argument. */
  ghost predicate IdleSoFar(trace: seq<Event>, ev: seq<Event>) {
    forall i :: 0 <= i < |ev| ==> Taken(trace, |trace|, ev[i].group) == 0
  }

  lemma IdleStays(trace: seq<Event>, ev: seq<Event>, key: Key, parsers: seq<bool>)
    requires Round(ev, key, parsers) && IdleOnly(trace) && (key == NoArgs ==> IdleSoFar(trace, ev))
    ensures IdleOnly(trace + ev)
  {
    var t := trace + ev;
    forall i | 0 <= i < |t| && t[i].key == NoArgs ensures Taken(t, |t|, t[i].group) == 0 {
      TakenNothing(trace, ev, |ev|, t[i].group);
      if i < |trace| {
        assert t[i] == trace[i];
      } else {
        assert t[i] == ev[i - |trace|];
      }
    }
  }

  lemma StageOn(trace: seq<Event>, ev: seq<Event>, key: Key, parsers: seq<bool>, r: nat)
    requires Staged(trace, parsers, r) && Round(ev, key, parsers) && r < Rank(key) && Rank(key) != 1
    requires key == NoArgs ==> IdleSoFar(trace, ev)
    ensures Staged(trace + ev, parsers, Rank(key))
  {
    CalledStays(trace, ev, parsers, Init);
    IdleStays(trace, ev, key, parsers);
  }

  /** Calls with an option or an argument. */
  ghost predicate Parsing(ev: seq<Event>, parsers: seq<bool>) {
    forall i :: 0 <= i < |ev| ==> Rank(ev[i].key) == 1 && ev[i].group < |parsers| && parsers[ev[i].group]
  }

  lemma StageCalls(trace: seq<Event>, ev: seq<Event>, parsers: seq<bool>)
    requires Staged(trace, parsers, 1) && Parsing(ev, parsers)
    ensures Staged(trace + ev, parsers, 1)
  {
    CalledStays(trace, ev, parsers, Init);
    var t := trace + ev;
    assert RanksUpTo(t, 1);
    forall i, j | 0 <= i < j < |t| ensures Follows(t[i], t[j]) {
      if j < |trace| {
        assert Follows(trace[i], trace[j]);
      } else {
        assert t[j] == ev[j - |trace|];
      }
    }
  }

  function Marked(trace: seq<Event>, t: nat): seq<Event>
    requires trace != []
  {
    trace[|trace| - 1 := trace[|trace| - 1].(taken := t)]
  }

  lemma MarkedNone(trace: seq<Event>)
    requires trace != [] && trace[|trace| - 1].taken == 0
    ensures Marked(trace, 0) == trace
  {
  }

  /** The last call is credited with the arguments it took. */
  lemma StageMark(trace: seq<Event>, parsers: seq<bool>, t: nat)
    requires trace != [] && Staged(trace, parsers, 1)
    ensures Staged(Marked(trace, t), parsers, 1)
  {
    var trace' := Marked(trace, t);
    forall g: nat | Called(trace, g, Init) ensures Called(trace', g, Init) {
      var i :| 0 <= i < |trace| && trace[i].group == g && trace[i].key == Init;
      assert trace'[i].group == g && trace'[i].key == Init;
    }
    forall i, j | 0 <= i < j < |trace| ensures Follows(trace'[i], trace'[j]) {
      assert Follows(trace[i], trace[j]);
    }
  }

  lemma {:induction false} TakenSame(trace: seq<Event>, trace': seq<Event>, n: nat, g: nat)
    requires n <= |trace| && n <= |trace'| && forall i :: 0 <= i < n ==> trace[i] == trace'[i]
    ensures Taken(trace, n, g) == Taken(trace', n, g)
  {
    if n > 0 {
      TakenSame(trace, trace', n - 1, g);
    }
  }

  lemma TakenMarked(trace: seq<Event>, t: nat, g: nat)
    requires trace != [] && trace[|trace| - 1].taken == 0
    ensures Taken(Marked(trace, t), |trace|, g) == Taken(trace, |trace|, g) + if trace[|trace| - 1].group == g then t else 0
  {
    TakenSame(trace, Marked(trace, t), |trace| - 1, g);
  }

  ghost predicate Consistent(trace: seq<Event>, processed: seq<nat>, parsers: seq<bool>) {
    && WellTraced(trace, parsers) && |processed| == |parsers|
    && forall g: nat :: g < |parsers| ==> processed[g] == Taken(trace, |trace|, g)
  }

  /** The calls parser_parse_arg makes from group `g` on, `n` calls after the start: ARG, then ARGS, until a group does not refuse. */
  function Offered(parsers: seq<bool>, user: nat -> Reply, n: nat, g: nat): seq<Event>
    requires g <= |parsers|
    decreases |parsers| - g
  {
    if g == |parsers| then []
    else if !parsers[g] then Offered(parsers, user, n, g + 1)
    else if user(n).err != EBADKEY then [Event(g, Arg, 0)]
    else if user(n + 1).err != EBADKEY then [Event(g, Arg, 0), Event(g, Args, 0)]
    else [Event(g, Arg, 0), Event(g, Args, 0)] + Offered(parsers, user, n + 2, g + 1)
  }

  /** The first calls have been made, and there are others only if the last was refused. */
  ghost predicate Offering(parsers: seq<bool>, user: nat -> Reply, all: seq<Event>, trace: seq<Event>, g: nat, err: int) {
    g <= |parsers| && all == if err == EBADKEY then trace + Offered(parsers, user, |trace|, g) else trace
  }

  lemma OfferingOn(parsers: seq<bool>, user: nat -> Reply, all: seq<Event>, trace: seq<Event>, g: nat, trace': seq<Event>, err: int)
    requires Offering(parsers, user, all, trace, g, EBADKEY) && g < |parsers|
    requires var n := |trace|;
      if !parsers[g] then trace' == trace && err == EBADKEY
      else if user(n).err != EBADKEY then trace' == trace + [Event(g, Arg, 0)] && err == user(n).err
      else trace' == trace + [Event(g, Arg, 0)] + [Event(g, Args, 0)] && err == user(n + 1).err
    ensures Offering(parsers, user, all, trace', g + 1, err)
    ensures |trace'| >= |trace| && err == if |trace'| == |trace| then EBADKEY else user(|trace'| - 1).err
  {
    if parsers[g] && err == EBADKEY {
      var one, more := [Event(g, Arg, 0), Event(g, Args, 0)], Offered(parsers, user, |trace'|, g + 1);
      assert trace' == trace + one;
      assert trace + (one + more) == trace + one + more;
    }
  }

  function Positive(x: int): nat { if x > 0 then x else 0 }

  // ----- What a step of the parse does -----

  /** The fields of struct parser that a step changes, with the calls so far. */
  datatype Snapshot = Snapshot(trace: seq<Event>, processed: seq<nat>, state: State, tryGetopt: bool, asked: nat)

  /** What surrounds a run: which groups have a parser, what the parsers answer, and what getopt finds. */
  datatype World = World(parsers: seq<bool>, user: nat -> Reply, getopt: nat -> Getopt)

  /** Arguments behind a quoting `--` are no longer quoted once the next one is before it. */
  function Unquoted(s: State): State { if s.quoted != 0 && s.next < s.quoted then s.(quoted := 0) else s }

  predicate AsksGetopt(a: Snapshot) { a.tryGetopt && Unquoted(a.state).quoted == 0 }

  /** The call took the arguments from `index` up to where it left the next one, or asked to parse again. */
  ghost predicate Accepted(b: Snapshot, e: Event, before: seq<nat>, index: int) {
    && e.group < |before| && b.processed == before[e.group := before[e.group] + e.taken]
    && e.taken == Positive(b.state.next - index) && (e.key == Args ==> b.state.next == b.state.argc) && (e.taken == 0 ==> b.tryGetopt)
  }

  /** The argument at `index` was offered to the groups. */
  ghost predicate OfferedAt(w: World, a: Snapshot, b: Snapshot, index: int, err: int) {
    var ev := Offered(w.parsers, w.user, |a.trace|, 0);
    && err == (if ev == [] then EBADKEY else w.user(|a.trace| + |ev| - 1).err)
    && if err != 0 then b.trace == a.trace + ev && b.processed == a.processed
       else |b.trace| == |a.trace| + |ev| && b.trace == Marked(a.trace + ev, b.trace[|b.trace| - 1].taken)
            && Accepted(b, b.trace[|b.trace| - 1], a.processed, index)
  }

  /** No call was made, and the state and the wish to ask getopt again are as given. */
  ghost predicate NoCall(a: Snapshot, b: Snapshot, s: State, again: bool) {
    b.trace == a.trace && b.processed == a.processed && b.state == s && b.tryGetopt == again
  }

  /** Getopt has no more: the next argument is offered, if there is one and arguments are to be parsed. */
  ghost predicate Simulated(w: World, a: Snapshot, b: Snapshot, s: State, again: bool, err: int, argEbadkey: bool) {
    if s.next >= s.argc || s.noArgs then NoCall(a, b, s, again) && err == EBADKEY && argEbadkey
    else OfferedAt(w, a, b, s.next, err) && argEbadkey == (err == EBADKEY)
  }

  /** One step: what getopt found goes to the group it belongs to, and arguments are offered to the groups. */
  ghost predicate Step(w: World, a: Snapshot, b: Snapshot, err: int, argEbadkey: bool) {
    var s := Unquoted(a.state);
    if !AsksGetopt(a) then b.asked == a.asked && Simulated(w, a, b, s, a.tryGetopt, err, argEbadkey)
    else b.asked == a.asked + 1 && match w.getopt(a.asked)
      case AtEnd(optind, quote) =>
        Simulated(w, a, b, s.(next := optind, quoted := if optind > 1 && quote then optind else 0), false, err, argEbadkey)
      case Bad(optind) => NoCall(a, b, s.(next := optind), true) && err == EBADKEY && !argEbadkey
      case Argument(optind) => OfferedAt(w, a, b, optind - 1, err) && argEbadkey == (err == EBADKEY)
      case Found(optind, group, value) =>
        && !argEbadkey && b.processed == a.processed && b.tryGetopt
        && if group.Some? && group.value < |w.parsers| && w.parsers[group.value]
           then b.trace == a.trace + [Event(group.value, Opt(value), 0)] && Reply(err, b.state) == w.user(|a.trace|)
           else NoCall(a, b, s.(next := optind), true) && err == EBADKEY
  }

  /** A run of the parsing loop: steps without error, but for the last one, which had error `err` if that is not zero. */
  ghost predicate IsParse(w: World, run: seq<Snapshot>, err: int, argEbadkey: bool) {
    |run| >= 1 && (|run| == 1 ==> err == 0) && forall i :: 0 <= i < |run| - 1 ==> StepAt(w, run, i, err, argEbadkey)
  }

  ghost predicate StepAt(w: World, run: seq<Snapshot>, i: int, err: int, argEbadkey: bool)
    requires 0 <= i < |run| - 1
  {
    if i == |run| - 2 then Step(w, run[i], run[i + 1], err, argEbadkey) else Step(w, run[i], run[i + 1], 0, false)
  }

  lemma ParseOn(w: World, run: seq<Snapshot>, b: Snapshot, argEbadkey: bool, err: int, argEbadkey': bool)
    requires IsParse(w, run, 0, argEbadkey) && Step(w, run[|run| - 1], b, err, argEbadkey')
    ensures IsParse(w, run + [b], err, argEbadkey')
  {
    var run' := run + [b];
    forall i | 0 <= i < |run'| - 1 ensures StepAt(w, run', i, err, argEbadkey') {
      if i < |run| - 1 {
        assert StepAt(w, run, i, 0, argEbadkey);
        NoErrorNoKey(w, run[i], run[i + 1], argEbadkey);
      }
    }
  }

  lemma NoErrorNoKey(w: World, a: Snapshot, b: Snapshot, argEbadkey: bool)
    ensures Step(w, a, b, 0, argEbadkey) ==> !argEbadkey
  {
  }

  // ----- The options of a run -----

  /** The options among the first `n` calls, with their groups. */
  function OptionCallsIn(trace: seq<Event>, n: nat): seq<(nat, int)>
    requires n <= |trace|
  {
    if n == 0 then [] else OptionCallsIn(trace, n - 1) + if trace[n - 1].key.Opt? then [(trace[n - 1].group, trace[n - 1].key.value)] else []
  }

  function OptionCalls(trace: seq<Event>): seq<(nat, int)> { OptionCallsIn(trace, |trace|) }

  /** The options that getopt found when first asked `n` times, of groups that have a parser. */
  function OptionsFound(w: World, n: nat): seq<(nat, int)> {
    if n == 0 then []
    else
      OptionsFound(w, n - 1) +
      match w.getopt(n - 1)
      case Found(_, Some(g), value) => if g < |w.parsers| && w.parsers[g] then [(g, value)] else []
      case _ => []
  }

  lemma {:induction false} OptionsPrefix(trace: seq<Event>, more: seq<Event>, n: nat)
    requires n <= |trace|
    ensures OptionCallsIn(trace + more, n) == OptionCallsIn(trace, n)
  {
    if n > 0 {
      OptionsPrefix(trace, more, n - 1);
    }
  }

  /** Other calls leave the options alone. */
  lemma {:induction false} OptionsNone(trace: seq<Event>, more: seq<Event>, m: nat)
    requires m <= |more| && forall i :: 0 <= i < |more| ==> !more[i].key.Opt?
    ensures OptionCallsIn(trace + more, |trace| + m) == OptionCalls(trace)
  {
    if m == 0 {
      OptionsPrefix(trace, more, |trace|);
    } else {
      OptionsNone(trace, more, m - 1);
      assert (trace + more)[|trace| + m - 1] == more[m - 1];
    }
  }

  lemma RoundOptions(trace: seq<Event>, ev: seq<Event>, key: Key, parsers: seq<bool>)
    requires Round(ev, key, parsers) && !key.Opt?
    ensures OptionCalls(trace + ev) == OptionCalls(trace)
  {
    OptionsNone(trace, ev, |ev|);
  }

  lemma {:induction false} OptionsSameKeys(trace: seq<Event>, trace': seq<Event>, n: nat)
    requires n <= |trace| == |trace'| && forall i :: 0 <= i < |trace| ==> trace[i].group == trace'[i].group && trace[i].key == trace'[i].key
    ensures OptionCallsIn(trace, n) == OptionCallsIn(trace', n)
  {
    if n > 0 {
      OptionsSameKeys(trace, trace', n - 1);
    }
  }

  lemma {:induction false} OfferedKeys(parsers: seq<bool>, user: nat -> Reply, n: nat, g: nat)
    requires g <= |parsers|
    ensures Parsing(Offered(parsers, user, n, g), parsers)
    ensures forall i :: 0 <= i < |Offered(parsers, user, n, g)| ==> !Offered(parsers, user, n, g)[i].key.Opt?
    decreases |parsers| - g
  {
    if g < |parsers| {
      if !parsers[g] {
        OfferedKeys(parsers, user, n, g + 1);
      } else if user(n).err == EBADKEY == user(n + 1).err {
        OfferedKeys(parsers, user, n + 2, g + 1);
      }
    }
  }

  lemma OfferedOptions(w: World, a: Snapshot, b: Snapshot, index: int, err: int)
    requires OfferedAt(w, a, b, index, err)
    ensures OptionCalls(b.trace) == OptionCalls(a.trace)
  {
    var ev := Offered(w.parsers, w.user, |a.trace|, 0);
    OfferedKeys(w.parsers, w.user, |a.trace|, 0);
    OptionsNone(a.trace, ev, |ev|);
    if err == 0 {
      OptionsSameKeys(a.trace + ev, b.trace, |b.trace|);
    }
  }

  /** The options delivered are, in order, those that getopt found. */
  ghost predicate AllDelivered(w: World, s: Snapshot) { OptionCalls(s.trace) == OptionsFound(w, s.asked) }

  lemma StepDelivers(w: World, a: Snapshot, b: Snapshot, err: int, argEbadkey: bool)
    requires Step(w, a, b, err, argEbadkey) && AllDelivered(w, a)
    ensures AllDelivered(w, b)
  {
    var s := Unquoted(a.state);
    if !AsksGetopt(a) {
      SimulatedOptions(w, a, b, s, a.tryGetopt, err, argEbadkey);
    } else {
      match w.getopt(a.asked) {
        case AtEnd(optind, quote) =>
          SimulatedOptions(w, a, b, s.(next := optind, quoted := if optind > 1 && quote then optind else 0), false, err, argEbadkey);
        case Bad(_) =>
        case Argument(optind) => OfferedOptions(w, a, b, optind - 1, err);
        case Found(_, group, value) =>
          if b.trace != a.trace {
            OptionDelivered(a.trace, group.value, value);
          }
      }
    }
  }

  /** Options and arguments come between INIT and the last calls. */
  lemma StepStaged(w: World, a: Snapshot, b: Snapshot, err: int, argEbadkey: bool)
    requires Step(w, a, b, err, argEbadkey) && Staged(a.trace, w.parsers, 1)
    ensures Staged(b.trace, w.parsers, 1)
  {
    if b.trace != a.trace {
      if AsksGetopt(a) && w.getopt(a.asked).Found? {
        var opt := w.getopt(a.asked);
        StageCalls(a.trace, [Event(opt.group.value, Opt(opt.value), 0)], w.parsers);
      } else {
        OfferedStaged(w, a, b);
      }
    }
  }

  lemma OfferedStaged(w: World, a: Snapshot, b: Snapshot)
    requires Staged(a.trace, w.parsers, 1)
    requires var all := a.trace + Offered(w.parsers, w.user, |a.trace|, 0);
      b.trace == all || (all != [] && b.trace != [] && b.trace == Marked(all, b.trace[|b.trace| - 1].taken))
    ensures Staged(b.trace, w.parsers, 1)
  {
    var ev := Offered(w.parsers, w.user, |a.trace|, 0);
    OfferedKeys(w.parsers, w.user, |a.trace|, 0);
    StageCalls(a.trace, ev, w.parsers);
    if b.trace != a.trace + ev {
      StageMark(a.trace + ev, w.parsers, b.trace[|b.trace| - 1].taken);
    }
  }

  lemma SimulatedOptions(w: World, a: Snapshot, b: Snapshot, s: State, again: bool, err: int, argEbadkey: bool)
    requires Simulated(w, a, b, s, again, err, argEbadkey)
    ensures OptionCalls(b.trace) == OptionCalls(a.trace)
  {
    if s.next < s.argc && !s.noArgs {
      OfferedOptions(w, a, b, s.next, err);
    }
  }

  lemma OptionDelivered(trace: seq<Event>, g: nat, value: int)
    ensures OptionCalls(trace + [Event(g, Opt(value), 0)]) == OptionCalls(trace) + [(g, value)]
  {
    OptionsPrefix(trace, [Event(g, Opt(value), 0)], |trace|);
  }

  class Parser {
    const parsers: seq<bool>
    const user: nat -> Reply
    const getopt: nat -> Getopt
    var trace: seq<Event>
    var processed: seq<nat>
    var state: State
    var tryGetopt: bool
    var asked: nat

    ghost function View(): Snapshot
      reads this
    {
      Snapshot(trace, processed, state, tryGetopt, asked)
    }

    ghost function Around(): World { World(parsers, user, getopt) }

    /** The options found so far have been delivered. */
    ghost predicate Delivered()
      reads this
    {
      AllDelivered(Around(), View())
    }

    /** The counters agree with the trace. */
    ghost predicate Valid()
      reads this
    {
      Consistent(trace, processed, parsers)
    }

    constructor (parsers: seq<bool>, user: nat -> Reply, getopt: nat -> Getopt, state: State)
      ensures Valid() && trace == [] && asked == 0 && this.parsers == parsers && this.user == user && this.getopt == getopt
    {
      this.parsers, this.user, this.getopt := parsers, user, getopt;
      trace, processed := [], seq(|parsers|, i => 0);
      this.state, tryGetopt, asked := state, true, 0;
    }

    /** group_parse. */
    method GroupParse(g: nat, key: Key) returns (err: int)
      requires Valid() && g < |parsers|
      modifies this
      ensures Valid() && processed == old(processed) && tryGetopt == old(tryGetopt) && asked == old(asked)
      ensures trace == if parsers[g] then old(trace) + [Event(g, key, 0)] else old(trace)
      ensures !parsers[g] ==> err == EBADKEY && state == old(state)
      ensures parsers[g] ==> Reply(err, state) == user(|old(trace)|)
    {
      if !parsers[g] {
        return EBADKEY;
      }
      ghost var before := trace;
      var reply := user(|trace|);
      err, state := reply.err, reply.state;
      trace := trace + [Event(g, key, 0)];
      forall h: nat | h < |parsers| ensures processed[h] == Taken(trace, |trace|, h) {
        TakenNothing(before, [Event(g, key, 0)], 1, h);
      }
    }

    /** A loop over the groups from the first on, left at a real error if `stop`; with `idle`, busy groups are passed over. */
    method Upward(key: Key, idle: bool, stop: bool) returns (err: int, ghost ev: seq<Event>)
      requires Valid() && !Downwards(key)
      modifies this
      ensures Valid() && processed == old(processed) && trace == old(trace) + ev && Round(ev, key, parsers)
      ensures asked == old(asked)
      ensures idle ==> Idle(ev, processed)
      ensures !stop || err == 0 || err == EBADKEY ==> AllCalled(ev, if idle then IdleGroups(parsers, processed) else parsers, key)
    {
      err, ev := 0, [];
      ghost var want := if idle then IdleGroups(parsers, processed) else parsers;
      var g := 0;
      while g < |parsers| && (!stop || err == 0 || err == EBADKEY)
        invariant g <= |parsers| && Valid() && processed == old(processed) && trace == old(trace) + ev
        invariant asked == old(asked) && Swept(ev, key, parsers, want, 0, g)
      {
        if !idle || processed[g] == 0 {
          SweptOn(ev, key, parsers, want, 0, g, g);
          err := GroupParse(g, key);
          ev := ev + CallTo(parsers, g, key);
        } else {
          SweptPast(ev, key, parsers, want, 0, g);
        }
        g := g + 1;
      }
      if idle {
        SweptIdle(ev, key, parsers, processed, g);
      }
      if g == |parsers| {
        SweptAll(ev, key, parsers, want);
      }
    }

    /** A loop over the groups from the last on, with the error of what came before. */
    method Downward(key: Key, stop: bool, err0: int) returns (err: int, ghost ev: seq<Event>)
      requires Valid() && Downwards(key)
      modifies this
      ensures Valid() && processed == old(processed) && trace == old(trace) + ev && Round(ev, key, parsers)
      ensures asked == old(asked)
      ensures !stop || err == 0 || err == EBADKEY ==> AllCalled(ev, parsers, key)
      ensures stop && err0 != 0 && err0 != EBADKEY ==> err == err0
    {
      err, ev := err0, [];
      var g := |parsers|;
      while g > 0 && (!stop || err == 0 || err == EBADKEY)
        invariant 0 <= g <= |parsers| && Valid() && processed == old(processed) && trace == old(trace) + ev
        invariant asked == old(asked) && Swept(ev, key, parsers, parsers, g, |parsers|) && (stop && err0 != 0 && err0 != EBADKEY ==> err == err0)
      {
        g := g - 1;
        SweptOn(ev, key, parsers, parsers, g + 1, |parsers|, g);
        err := GroupParse(g, key);
        ev := ev + CallTo(parsers, g, key);
      }
    }

    // ----- The parse -----

    /** parser_init's loop over the parsers. */
    method ParserInit() returns (err: int)
      requires Valid() && trace == []
      modifies this
      ensures Valid() && (err == 0 ==> Staged(trace, parsers, 1)) && Round(trace, Init, parsers)
      ensures asked == old(asked) && OptionCalls(trace) == old(OptionCalls(trace))
    {
      ghost var ev;
      err, ev := Upward(Init, false, true);
      RoundOptions([], ev, Init, parsers);
      if err == EBADKEY {
        err := 0;
      }
      assert trace == ev;
    }

    /** ARGP_KEY_ARG, and failing that ARGP_KEY_ARGS, to one group. */
    method Offer(g: nat) returns (err: int, key: Key)
      requires Valid() && g < |parsers|
      modifies this
      ensures Valid() && processed == old(processed) && asked == old(asked)
      ensures var n := |old(trace)|;
        if !parsers[g] then trace == old(trace) && state == old(state) && err == EBADKEY
        else if user(n).err != EBADKEY then trace == old(trace) + [Event(g, Arg, 0)] && key == Arg && err == user(n).err
        else trace == old(trace) + [Event(g, Arg, 0)] + [Event(g, Args, 0)] && key == Args && err == user(n + 1).err
    {
      key := Arg;
      err := OfferAs(g, key, 1);
      if err == EBADKEY {
        key := Args;
        err := OfferAs(g, key, -1);
      }
    }

    /** A call after the next argument has been moved past the one on offer, or back to it. */
    method OfferAs(g: nat, key: Key, step: int) returns (err: int)
      requires Valid() && g < |parsers|
      modifies this
      ensures Valid() && processed == old(processed) && asked == old(asked)
      ensures trace == if parsers[g] then old(trace) + [Event(g, key, 0)] else old(trace)
      ensures err == if parsers[g] then user(|old(trace)|).err else EBADKEY
      ensures !parsers[g] ==> state == old(state).(next := old(state).next + step)
    {
      state := state.(next := state.next + step);
      err := GroupParse(g, key);
    }

    /** One turn of parser_parse_arg's loop. */
    method OfferNext(g: nat, ghost all: seq<Event>) returns (err: int, key: Key)
      requires Valid() && g < |parsers| && Offering(parsers, user, all, trace, g, EBADKEY)
      modifies this
      ensures Valid() && processed == old(processed) && asked == old(asked) && |trace| >= |old(trace)|
      ensures Offering(parsers, user, all, trace, g + 1, err)
      ensures err == if |trace| == |old(trace)| then EBADKEY else user(|trace| - 1).err
      ensures err != EBADKEY ==> trace[|trace| - 1] == Event(g, key, 0)
    {
      ghost var before := trace;
      err, key := Offer(g);
      OfferingOn(parsers, user, all, before, g, trace, err);
    }

    /** The loop of parser_parse_arg: each group in turn, until one does not refuse. */
    method OfferAll() returns (err: int, key: Key, g: nat)
      requires Valid()
      modifies this
      ensures Valid() && processed == old(processed) && asked == old(asked)
      ensures trace == old(trace) + Offered(parsers, user, |old(trace)|, 0)
      ensures err == if |trace| == |old(trace)| then EBADKEY else user(|trace| - 1).err
      ensures err != EBADKEY ==> g > 0 && |trace| > |old(trace)| && trace[|trace| - 1] == Event(g - 1, key, 0)
    {
      err, key, g := EBADKEY, Arg, 0;
      ghost var all := old(trace) + Offered(parsers, user, |trace|, 0);
      while g < |parsers| && err == EBADKEY
        invariant g <= |parsers| && Valid() && processed == old(processed) && asked == old(asked) && |trace| >= |old(trace)|
        invariant Offering(parsers, user, all, trace, g, err)
        invariant err == if |trace| == |old(trace)| then EBADKEY else user(|trace| - 1).err
        invariant err != EBADKEY ==> g > 0 && |trace| > |old(trace)| && trace[|trace| - 1] == Event(g - 1, key, 0)
      {
        err, key := OfferNext(g, all);
        g := g + 1;
      }
    }

    /** parser_parse_arg. */
    method ParseArg() returns (err: int)
      requires Valid()
      modifies this
      ensures Valid() && asked == old(asked)
      ensures OfferedAt(Around(), old(View()), View(), old(state.next) - 1, err)
    {
      state := state.(next := state.next - 1);
      var index := state.next;
      var key, g;
      err, key, g := OfferAll();
      if err == 0 {
        Accept(g - 1, key, index);
      }
    }

    method Accept(g: nat, key: Key, index: int)
      requires Valid() && trace != [] && trace[|trace| - 1] == Event(g, key, 0)
      modifies this
      ensures Valid() && trace != [] && trace == Marked(old(trace), trace[|trace| - 1].taken)
      ensures asked == old(asked) && trace[|trace| - 1].key == key && Accepted(View(), trace[|trace| - 1], old(processed), index)
    {
      if key == Args {
        state := state.(next := state.argc);
      }
      if state.next > index {
        Credit(g, state.next - index);
      } else {
        MarkedNone(trace);
        tryGetopt := true;
      }
    }

    /** args_processed of the group that took the argument. */
    method Credit(g: nat, t: nat)
      requires Valid() && trace != [] && trace[|trace| - 1].group == g && trace[|trace| - 1].taken == 0
      modifies this`trace, this`processed
      ensures Valid() && trace == Marked(old(trace), t) && processed == old(processed)[g := old(processed)[g] + t]
    {
      ghost var before := trace;
      processed := processed[g := processed[g] + t];
      trace := Marked(trace, t);
      forall h: nat | h < |parsers| ensures processed[h] == Taken(trace, |trace|, h) {
        TakenMarked(before, t, h);
      }
    }

    /** The first part of parser_parse_next: ask getopt, unless told not to or behind a quoting `--`. */
    method Ask() returns (opt: Getopt)
      modifies this
      ensures trace == old(trace) && processed == old(processed)
      ensures var s := Unquoted(old(state));
        if AsksGetopt(old(View())) then
          && opt == getopt(old(asked)) && asked == old(asked) + 1 && tryGetopt == !opt.AtEnd?
          && state == s.(next := opt.optind, quoted := if opt.AtEnd? && opt.optind > 1 && opt.quote then opt.optind else 0)
        else opt == AtEnd(s.next, false) && asked == old(asked) && state == s && tryGetopt == old(tryGetopt)
    {
      if state.quoted != 0 && state.next < state.quoted {
        state := state.(quoted := 0);
      }
      opt := AtEnd(state.next, false);
      if tryGetopt && state.quoted == 0 {
        opt := getopt(asked);
        asked := asked + 1;
        state := state.(next := opt.optind);
        if opt.AtEnd? {
          tryGetopt := false;
          if state.next > 1 && opt.quote {
            state := state.(quoted := state.next);
          }
        }
      }
    }

    /** What parser_parse_next does without an option: it gives up, or simulates an argument. */
    method Simulate() returns (err: int, argEbadkey: bool)
      requires Valid()
      modifies this
      ensures Valid() && asked == old(asked)
      ensures Simulated(Around(), old(View()), View(), old(state), old(tryGetopt), err, argEbadkey)
    {
      if state.next >= state.argc || state.noArgs {
        return EBADKEY, true;
      }
      state := state.(next := state.next + 1);
      err := ParseArg();
      argEbadkey := err == EBADKEY;
    }

    /** parser_parse_next. */
    method ParseNext() returns (err: int, argEbadkey: bool)
      requires Valid()
      requires forall n :: getopt(n).Found? && getopt(n).group.Some? ==> getopt(n).group.value < |parsers|
      modifies this
      ensures Valid() && Step(Around(), old(View()), View(), err, argEbadkey)
    {
      var opt := Ask();
      match opt {
        case Bad(_) =>
          err, argEbadkey := EBADKEY, false;
        case AtEnd(_, _) =>
          err, argEbadkey := Simulate();
        case Argument(_) =>
          err := ParseArg();
          argEbadkey := err == EBADKEY;
        case Found(_, group, value) =>
          err := Deliver(group, value);
          argEbadkey := false;
      }
    }

    /** parser_parse_opt, with the group that the option was found to belong to. */
    method Deliver(group: Option<nat>, value: int) returns (err: int)
      requires Valid() && (group.Some? ==> group.value < |parsers|)
      modifies this
      ensures Valid() && processed == old(processed) && tryGetopt == old(tryGetopt) && asked == old(asked)
      ensures if group.Some? && parsers[group.value]
        then trace == old(trace) + [Event(group.value, Opt(value), 0)] && Reply(err, state) == user(|old(trace)|)
        else trace == old(trace) && state == old(state) && err == EBADKEY
    {
      err := EBADKEY;
      if group.Some? {
        err := GroupParse(group.value, Opt(value));
      }
    }

    /** ARGP_KEY_NO_ARGS to every parser that took no argument, until one fails. */
    method TellNoArgs() returns (err: int)
      requires Valid() && Staged(trace, parsers, 1)
      modifies this
      ensures asked == old(asked) && OptionCalls(trace) == old(OptionCalls(trace))
      ensures Valid() && Staged(trace, parsers, 2) && processed == old(processed) && old(trace) <= trace
      ensures err == 0 || err == EBADKEY ==> AllCalled(trace, IdleGroups(parsers, processed), NoArgs)
    {
      ghost var t, ev := trace, [];
      err, ev := Upward(NoArgs, true, true);
      StageOn(t, ev, NoArgs, parsers, 1);
      RoundOptions(t, ev, NoArgs, parsers);
      CalledStays(t, ev, IdleGroups(parsers, processed), NoArgs);
    }

    /** ARGP_KEY_END to every parser, until one fails. */
    method TellEnd(err0: int) returns (err: int)
      requires Valid() && Staged(trace, parsers, 2)
      modifies this
      ensures asked == old(asked) && OptionCalls(trace) == old(OptionCalls(trace))
      ensures Valid() && Staged(trace, parsers, 3) && processed == old(processed) && old(trace) <= trace
      ensures err == 0 || err == EBADKEY ==> (err0 == 0 || err0 == EBADKEY) && AllCalled(trace, parsers, End)
    {
      ghost var t, ev := trace, [];
      err, ev := Downward(End, true, err0);
      StageOn(t, ev, End, parsers, 2);
      RoundOptions(t, ev, End, parsers);
      CalledStays(t, ev, parsers, End);
    }

    /** The last calls when every argument was parsed. */
    method EndOfArguments() returns (err: int)
      requires Valid() && Staged(trace, parsers, 1)
      modifies this
      ensures asked == old(asked) && OptionCalls(trace) == old(OptionCalls(trace))
      ensures Valid() && Staged(trace, parsers, 3) && err != EBADKEY && processed == old(processed) && old(trace) <= trace
      ensures err == 0 ==> AllCalled(trace, IdleGroups(parsers, processed), NoArgs) && AllCalled(trace, parsers, End)
    {
      err := TellNoArgs();
      ghost var t := trace;
      err := TellEnd(err);
      CalledPrefix(t, trace, IdleGroups(parsers, processed), NoArgs);
      if err == EBADKEY {
        err := 0;
      }
    }

    /** ARGP_KEY_ERROR to every parser, or ARGP_KEY_SUCCESS until one fails. */
    method Outcome(err0: int) returns (err: int)
      requires Valid() && Staged(trace, parsers, 3)
      modifies this
      ensures asked == old(asked) && OptionCalls(trace) == old(OptionCalls(trace))
      ensures Valid() && Staged(trace, parsers, 4) && ErrorsComplete(trace, parsers) && old(trace) <= trace
      ensures err0 != 0 ==> err == err0 && AllCalled(trace, parsers, Error)
      ensures err == 0 ==> AllCalled(trace, parsers, Success)
    {
      err := err0;
      ghost var t, ev := trace, [];
      if err != 0 {
        var ignored;
        ignored, ev := Upward(Error, false, false);
        StageOn(t, ev, Error, parsers, 3);
        RoundOptions(t, ev, Error, parsers);
        CalledStays(t, ev, parsers, Error);
      } else {
        err, ev := Downward(Success, true, 0);
        StageOn(t, ev, Success, parsers, 3);
        RoundOptions(t, ev, Success, parsers);
        CalledStays(t, ev, parsers, Success);
        if err == EBADKEY {
          err := 0;
        }
      }
    }

    method Cleanup()
      requires Valid() && Staged(trace, parsers, 4) && ErrorsComplete(trace, parsers)
      modifies this
      ensures asked == old(asked) && OptionCalls(trace) == old(OptionCalls(trace))
      ensures Valid() && Complete(trace, parsers) && old(trace) <= trace
    {
      ghost var t, ev := trace, [];
      var ignored;
      ignored, ev := Downward(Fini, false, 0);
      StageOn(t, ev, Fini, parsers, 4);
      RoundOptions(t, ev, Fini, parsers);
      CalledStays(t, ev, parsers, Fini);
      ErrorsStay(t, ev, parsers);
    }

    /** The start of parser_finalize: the last calls with arguments, if parsing went well. */
    method Conclude(err0: int, argEbadkey: bool, endIndex: bool) returns (err: int)
      requires Valid() && Staged(trace, parsers, 1)
      modifies this
      ensures asked == old(asked) && OptionCalls(trace) == old(OptionCalls(trace))
      ensures Valid() && Staged(trace, parsers, 3) && processed == old(processed) && old(trace) <= trace
      ensures err == 0 ==> (err0 == 0 || (err0 == EBADKEY && argEbadkey)) && (old(state.next) == old(state.argc) || endIndex)
      ensures err == 0 && old(state.next) == old(state.argc) ==>
        AllCalled(trace, IdleGroups(parsers, processed), NoArgs) && AllCalled(trace, parsers, End)
    {
      err := if err0 == EBADKEY && argEbadkey then 0 else err0;
      if err == 0 {
        if state.next == state.argc {
          err := EndOfArguments();
        } else if !endIndex {
          err := EBADKEY;
        }
      }
    }

    /** parser_finalize. */
    method Finalize(err0: int, argEbadkey: bool, endIndex: bool) returns (err: int)
      requires Valid() && Staged(trace, parsers, 1)
      modifies this
      ensures asked == old(asked) && OptionCalls(trace) == old(OptionCalls(trace))
      ensures Valid() && Complete(trace, parsers) && err != EBADKEY && old(trace) <= trace
      ensures Ending(trace, parsers, old(View()), err0 == 0 || (err0 == EBADKEY && argEbadkey), endIndex, err)
    {
      ghost var s := View();
      err := Conclude(err0, argEbadkey, endIndex);
      ghost var t, concluded := trace, err;
      err := Outcome(err);
      ghost var u := trace;
      Cleanup();
      EndingFrom(t, u, trace, parsers, s, err0 == 0 || (err0 == EBADKEY && argEbadkey), endIndex, concluded, err);
      if err == EBADKEY {
        err := EINVAL;
      }
    }

    /**
     argp_parse, watched for at most `limit` rounds of its parsing loop: a run that gets through
     parser_init and comes to its end has kept the grammar, and one cut short has so far.  The run
     itself is a sequence of steps, and the options delivered are those that getopt found.
     */
    method Parse(limit: nat, endIndex: bool)
      returns (started: bool, ended: bool, err: int, ghost run: seq<Snapshot>, ghost last: int, ghost argEbadkey: bool)
      requires Valid() && trace == [] && asked == 0
      requires forall n :: getopt(n).Found? && getopt(n).group.Some? ==> getopt(n).group.value < |parsers|
      modifies this
      ensures OptionCalls(trace) == OptionsFound(Around(), asked)
      ensures started ==> if ended then Complete(trace, parsers) else Staged(trace, parsers, 1)
      ensures started ==> IsParse(Around(), run, last, argEbadkey) && Round(run[0].trace, Init, parsers) && run[|run| - 1].trace <= trace
      ensures started ==> (ended <==> last != 0) && asked == run[|run| - 1].asked
      ensures started && ended ==> Ending(trace, parsers, run[|run| - 1], last == EBADKEY && argEbadkey, endIndex, err)
    {
      err := ParserInit();
      run, last, argEbadkey := [View()], 0, false;
      if err != 0 {
        return false, true, err, run, 0, false;
      }
      var arg, rounds := false, 0;
      while err == 0 && rounds < limit
        invariant Valid() && Staged(trace, parsers, 1) && Delivered() && arg == argEbadkey && err == last
        invariant IsParse(Around(), run, last, argEbadkey) && Round(run[0].trace, Init, parsers) && run[|run| - 1] == View()
        decreases limit - rounds
      {
        ghost var before := View();
        err, arg := ParseNext();
        StepDelivers(Around(), before, View(), err, arg);
        StepStaged(Around(), before, View(), err, arg);
        ParseOn(Around(), run, View(), argEbadkey, err, arg);
        run, last, argEbadkey := run + [View()], err, arg;
        rounds := rounds + 1;
      }
      if err == 0 {
        return true, false, err, run, last, argEbadkey;
      }
      err := Finalize(err, arg, endIndex);
      return true, true, err, run, last, argEbadkey;
    }
  }

  lemma EndingFrom(t: seq<Event>, u: seq<Event>, trace: seq<Event>, parsers: seq<bool>, s: Snapshot, well: bool, endIndex: bool,
                   concluded: int, err: int)
    requires t <= trace && u <= trace && |s.processed| == |parsers|
    requires concluded == 0 ==> well && (s.state.next == s.state.argc || endIndex)
    requires concluded == 0 && s.state.next == s.state.argc ==>
      AllCalled(t, IdleGroups(parsers, s.processed), NoArgs) && AllCalled(t, parsers, End)
    requires (concluded != 0 ==> err == concluded && AllCalled(u, parsers, Error)) && (err == 0 ==> AllCalled(u, parsers, Success))
    ensures Ending(trace, parsers, s, well, endIndex, if err == EBADKEY then EINVAL else err)
  {
    CalledPrefix(t, trace, IdleGroups(parsers, s.processed), NoArgs);
    CalledPrefix(t, trace, parsers, End);
    CalledPrefix(u, trace, parsers, Success);
    CalledPrefix(u, trace, parsers, Error);
  }

  /** Which final calls are made after a parse that ended in state `s`, well if all arguments were refused or used. */
  ghost predicate Ending(trace: seq<Event>, parsers: seq<bool>, s: Snapshot, well: bool, endIndex: bool, err: int) {
    var parsed := s.state.next == s.state.argc;
    && |s.processed| == |parsers| && (!well || (!parsed && !endIndex) ==> err != 0 && AllCalled(trace, parsers, Error))
    && (err == 0 ==> AllCalled(trace, parsers, Success))
    && (err == 0 && parsed ==> AllCalled(trace, IdleGroups(parsers, s.processed), NoArgs) && AllCalled(trace, parsers, End))
  }

  /** If any parser is told of an error, all are. */
  ghost predicate ErrorsComplete(trace: seq<Event>, parsers: seq<bool>) {
    (exists i :: 0 <= i < |trace| && trace[i].key == Error) ==> AllCalled(trace, parsers, Error)
  }

  lemma ErrorsStay(trace: seq<Event>, ev: seq<Event>, parsers: seq<bool>)
    requires ErrorsComplete(trace, parsers) && Round(ev, Fini, parsers)
    ensures ErrorsComplete(trace + ev, parsers)
  {
    CalledStays(trace, ev, parsers, Error);
    if i :| 0 <= i < |trace + ev| && (trace + ev)[i].key == Error {
      assert trace[i].key == Error;
    }
  }

  /** What holds of every run that parser_init let start. */
  ghost predicate Complete(trace: seq<Event>, parsers: seq<bool>) {
    Staged(trace, parsers, 5) && AllCalled(trace, parsers, Fini) && ErrorsComplete(trace, parsers)
  }

  // ----- The grammar as an automaton -----

  /**
   One letter of the documented sequence for a parser: INIT, any options and arguments, NO_ARGS at most once,
   END at most once, SUCCESS or ERROR at most once, FINI.  State 0 is the start, 5 accepts, -1 fails.
   */
  function Letter(p: int, key: Key): int {
    match key
    case Init => if p == 0 then 1 else -1
    case Opt(_) => if p == 1 then 1 else -1
    case Arg => if p == 1 then 1 else -1
    case Args => if p == 1 then 1 else -1
    case NoArgs => if p == 1 then 2 else -1
    case End => if p == 1 || p == 2 then 3 else -1
    case Success => if 1 <= p <= 3 then 4 else -1
    case Error => if 1 <= p <= 3 then 4 else -1
    case Fini => if 1 <= p <= 4 then 5 else -1
  }

  /** The state after the calls to group `g` among the first `n`. */
  function Scan(trace: seq<Event>, n: nat, g: nat): int
    requires n <= |trace|
  {
    if n == 0 then 0
    else if trace[n - 1].group == g then Letter(Scan(trace, n - 1, g), trace[n - 1].key)
    else Scan(trace, n - 1, g)
  }

  /** The last call to the group among the first `n`. */
  ghost function LastCall(trace: seq<Event>, n: nat, g: nat): Option<nat>
    requires n <= |trace|
  {
    if n == 0 then None else if trace[n - 1].group == g then Some(n - 1) else LastCall(trace, n - 1, g)
  }

  lemma {:induction false} LastCallIs(trace: seq<Event>, n: nat, g: nat, j: nat)
    requires n <= |trace|
    ensures LastCall(trace, n, g).Some? ==> LastCall(trace, n, g).value < n && trace[LastCall(trace, n, g).value].group == g
    ensures j < n && trace[j].group == g ==> LastCall(trace, n, g).Some? && j <= LastCall(trace, n, g).value
  {
    if n > 0 {
      LastCallIs(trace, n - 1, g, j);
    }
  }

  ghost function StateOf(key: Key): int { if key == Init then 1 else Rank(key) }

  /** The automaton is in the state its last letter leads to. */
  ghost predicate Scanned(trace: seq<Event>, n: nat, g: nat)
    requires n <= |trace|
  {
    var i := LastCall(trace, n, g);
    if i.None? then Scan(trace, n, g) == 0
    else i.value < n && trace[i.value].group == g && Scan(trace, n, g) == StateOf(trace[i.value].key)
  }

  lemma {:induction false} ScanFollows(trace: seq<Event>, n: nat, g: nat)
    requires n <= |trace| && InOrder(trace) && Called(trace, g, Init)
    ensures Scanned(trace, n, g)
  {
    if n > 0 {
      ScanFollows(trace, n - 1, g);
      if trace[n - 1].group == g {
        ScanOn(trace, n - 1, g);
      }
    }
  }

  lemma ScanOn(trace: seq<Event>, n: nat, g: nat)
    requires n < |trace| && InOrder(trace) && Called(trace, g, Init) && Scanned(trace, n, g) && trace[n].group == g
    ensures Scanned(trace, n + 1, g)
  {
    if LastCall(trace, n, g).None? {
      FirstIsInit(trace, n, g);
    }
  }

  lemma FirstIsInit(trace: seq<Event>, n: nat, g: nat)
    requires n < |trace| && InOrder(trace) && Called(trace, g, Init) && trace[n].group == g && LastCall(trace, n, g).None?
    ensures trace[n].key == Init
  {
    var i :| 0 <= i < |trace| && trace[i].group == g && trace[i].key == Init;
    LastCallIs(trace, n, g, i);
  }

  lemma AcceptedFrom(trace: seq<Event>, g: nat)
    requires InOrder(trace) && Called(trace, g, Init) && Called(trace, g, Fini)
    ensures Scan(trace, |trace|, g) == 5
  {
    ScanFollows(trace, |trace|, g);
    var f :| 0 <= f < |trace| && trace[f].group == g && trace[f].key == Fini;
    LastCallIs(trace, |trace|, g, f);
  }

  /** In every complete run, the calls to each parser are accepted. */
  lemma GrammarKept(trace: seq<Event>, parsers: seq<bool>, g: nat)
    requires Complete(trace, parsers) && g < |parsers| && parsers[g]
    ensures Scan(trace, |trace|, g) == 5
  {
    AcceptedFrom(trace, g);
  }

  /** No run tells one parser of success and another of an error. */
  lemma OneOutcome(trace: seq<Event>, parsers: seq<bool>, i: nat, j: nat)
    requires Complete(trace, parsers) && i < |trace| && j < |trace| && trace[i].key == Success
    ensures trace[j].key != Error
  {
    if i < j {
      assert Follows(trace[i], trace[j]);
    } else if j < i {
      assert Follows(trace[j], trace[i]);
    }
  }

  /** NO_ARGS goes to parsers that took no argument in the whole run. */
  lemma NoArgsOnlyWhenIdle(trace: seq<Event>, parsers: seq<bool>, i: nat, j: nat)
    requires Complete(trace, parsers) && i < |trace| && j < |trace| && trace[i].key == NoArgs && trace[j].group == trace[i].group
    ensures trace[j].taken == 0
  {
    TakenAtLeast(trace, |trace|, j);
  }

  lemma {:induction false} TakenAtLeast(trace: seq<Event>, n: nat, j: nat)
    requires j < n <= |trace|
    ensures Taken(trace, n, trace[j].group) >= trace[j].taken
  {
    if j < n - 1 {
      TakenAtLeast(trace, n - 1, j);
    }
  }
}
