/** What callbacks may do to the timer while it runs them: add, change and remove entries. A pass
    still treats every entry that they leave alone as if it were alone. */
module Callbacks {
  import Seqs
  import opened Options
  import opened Schedule

  const MSEC := 10000.0

  /** The interval in 100 ns units, from milliseconds; zero when it is not usable. */
  function IntervalOf(intervalMs: real): nat {
    if intervalMs <= 0.0 then 0 else (intervalMs * MSEC).Floor
  }

  function FirstTime(now: int, base: Option<int>, interval: nat): int
    requires interval > 0
  {
    if base.None? then now + interval else CalculateNextTime(now, base.value, interval)
  }

  /** The first due time as it is meant: an interval from now, or with a base time the least later time
      in phase with that, which is at most an interval away. */
  ghost predicate FirstDue(t: int, now: int, base: Option<int>, interval: nat)
    requires interval > 0
  {
    match base
    case None => t == now + interval
    case Some(b) => t <= now + interval && LeastInPhase(t, now, b, interval)
  }

  lemma FirstTimeExactly(now: int, base: Option<int>, interval: nat, t: int)
    requires interval > 0
    ensures t == FirstTime(now, base, interval) <==> FirstDue(t, now, base, interval)
  {
    hide CalculateNextTime, LeastInPhase;
    if base.Some? {
      CalculatedExactly(now, base.value, interval, t);
      NextTimeIsLeast(now, base.value, interval);
    }
  }

  /** The interval is the number of whole units of 100 ns in the milliseconds asked for, of which there
      are none without a positive number. */
  lemma IntervalExactly(intervalMs: real, n: nat)
    ensures n == IntervalOf(intervalMs) <==>
            if intervalMs <= 0.0 then n == 0 else n as real <= intervalMs * 10000.0 < (n + 1) as real
  {
  }

  function WithoutAddr(s: seq<Rec>, addr: nat): seq<Rec> {
    if s == [] then [] else (if s[0].addr == addr then [] else [s[0]]) + WithoutAddr(s[1..], addr)
  }

  /** Only the entry with this id differs between two schedules. */
  ghost predicate Moved(s: seq<Rec>, s': seq<Rec>, id: nat, x: Option<Rec>) {
    forall k: nat :: Lookup(s', k) == if k == id then x else Lookup(s, k)
  }

  // ---------- commands ----------

  /** The calls a callback can make; those that read a clock come with what it says. */
  datatype Command =
    | AddTimed(hasCallback: bool, date: int)
    | AddRepeated(hasCallback: bool, intervalMs: real, base: Option<int>, policy: Policy, now: int)
    | Change(id: nat, intervalMs: real, base: Option<int>, policy: Policy, now: int)
    | Remove(id: nat)

  /** The timer as callers see it: the schedule and the last id given out. */
  datatype State = State(schedule: seq<Rec>, idCounter: nat)

  ghost predicate Sound(y: State) {
    && InDueOrder(y.schedule) && UniqueIds(y.schedule)
    && forall i :: 0 <= i < |y.schedule| ==> y.schedule[i].id <= y.idCounter
  }

  /** A new entry with the next id, at some address. */
  ghost predicate Added(y: State, y': State, time: int, interval: nat, policy: Policy) {
    && y'.idCounter == y.idCounter + 1
    && exists addr: nat :: y'.schedule == Enqueue(y.schedule, Rec(addr, y'.idCounter, time, interval, policy, true))
  }

  ghost predicate Effect(y: State, y': State, c: Command) {
    match c
    case AddTimed(hasCallback, date) =>
      if hasCallback then Added(y, y', date, 0, CurrentTime) else y' == y
    case AddRepeated(hasCallback, intervalMs, base, policy, now) =>
      var interval := IntervalOf(intervalMs);
      if hasCallback && interval > 0 then Added(y, y', FirstTime(now, base, interval), interval, policy) else y' == y
    case Change(id, intervalMs, base, policy, now) =>
      var interval, x := IntervalOf(intervalMs), Lookup(y.schedule, id);
      if interval > 0 && x.Some? then
        var x' := x.value.(time := FirstTime(now, base, interval), interval := interval, policy := policy);
        && y' == y.(schedule := Enqueue(WithoutAddr(y.schedule, x'.addr), x'))
        && Moved(y.schedule, y'.schedule, id, Some(x'))
      else y' == y
    case Remove(id) =>
      var x := Lookup(y.schedule, id);
      if x.Some? then
        y' == y.(schedule := WithoutAddr(y.schedule, x.value.addr)) && Moved(y.schedule, y'.schedule, id, None)
      else y' == y
  }

  /** The commands of one callback, one after the other. */
  ghost predicate Effects(y: State, y': State, cs: seq<Command>)
    decreases |cs|
  {
    if cs == [] then y' == y
    else exists m :: Sound(m) && Effect(y, m, cs[0]) && Effects(m, y', cs[1..])
  }

  // ---------- a pass ----------

  /** One turn: the first entry is due, is taken out and rearmed or dropped, and its callback runs. */
  ghost predicate Turn(y: State, y': State, first: Rec, now: int, cs: seq<Command>) {
    && y.schedule != [] && first == y.schedule[0] && first.time <= now
    && Effects(y.(schedule := Dispatched(y.schedule, now)), y', if first.callback then cs else [])
  }

  /** What the callback of turn k does, by a script that ends at some time. */
  function CommandsOf(script: seq<seq<Command>>, k: nat): seq<Command> {
    if k < |script| then script[k] else []
  }

  /** The states between the turns of a pass, and the entries run, under callbacks with this script. */
  ghost predicate PassRun(states: seq<State>, log: seq<Rec>, now: int, script: seq<seq<Command>>) {
    && |states| == |log| + 1 && (forall k :: 0 <= k < |states| ==> Sound(states[k]))
    && forall k :: 0 <= k < |log| ==> Turn(states[k], states[k + 1], log[k], now, CommandsOf(script, k))
  }

  lemma NothingDone(y: State)
    ensures Effects(y, y, [])
  {
  }

  lemma NoTurnYet(y: State, now: int, script: seq<seq<Command>>)
    requires Sound(y)
    ensures PassRun([y], [], now, script)
  {
  }

  lemma OneMoreTurn(states: seq<State>, log: seq<Rec>, now: int, script: seq<seq<Command>>, first: Rec, y: State)
    requires PassRun(states, log, now, script) && Sound(y)
    requires Turn(states[|log|], y, first, now, CommandsOf(script, |log|))
    ensures PassRun(states + [y], log + [first], now, script)
  {
    hide Turn, Sound, CommandsOf;
  }

  /** Nothing that is due is left. */
  ghost predicate Ended(states: seq<State>, now: int) {
    states != [] && DueFrom(states[|states| - 1].schedule, now + 1)
  }

  /** Once the script has come to its end, every turn uses up some of what is pending. */
  lemma TurnDecreases(y: State, y': State, first: Rec, now: int, script: seq<seq<Command>>, k: nat)
    requires Turn(y, y', first, now, CommandsOf(script, k))
    ensures k < |script| || Pending(y'.schedule, now) < Pending(y.schedule, now)
  {
    DispatchDecreases(y.schedule, now);
  }

  // ---------- entries that callbacks leave alone ----------

  predicate Names(c: Command, id: nat) {
    (c.Change? || c.Remove?) && c.id == id
  }

  ghost predicate LeavesAlone(cs: seq<Command>, id: nat) {
    forall j :: 0 <= j < |cs| ==> !Names(cs[j], id)
  }

  lemma EffectElsewhere(y: State, y': State, c: Command, id: nat)
    requires Sound(y) && Effect(y, y', c) && id <= y.idCounter && !Names(c, id)
    ensures Lookup(y'.schedule, id) == Lookup(y.schedule, id) && y'.idCounter >= y.idCounter
  {
    hide IntervalOf, FirstTime, WithoutAddr;
    if y'.idCounter > y.idCounter {
      var addr: nat, time, interval, policy :|
        y'.schedule == Enqueue(y.schedule, Rec(addr, y'.idCounter, time, interval, policy, true));
      EnqueueLookup(y.schedule, Rec(addr, y'.idCounter, time, interval, policy, true), id);
    }
  }

  lemma {:induction false} EffectsElsewhere(y: State, y': State, cs: seq<Command>, id: nat)
    requires Sound(y) && Effects(y, y', cs) && id <= y.idCounter && LeavesAlone(cs, id)
    ensures Lookup(y'.schedule, id) == Lookup(y.schedule, id) && y'.idCounter >= y.idCounter
    decreases |cs|
  {
    hide Effect, Sound;
    if cs != [] {
      var m :| Sound(m) && Effect(y, m, cs[0]) && Effects(m, y', cs[1..]);
      EffectElsewhere(y, m, cs[0], id);
      EffectsElsewhere(m, y', cs[1..], id);
    }
  }

  lemma DispatchSound(y: State, now: int)
    requires Sound(y) && y.schedule != []
    ensures Sound(y.(schedule := Dispatched(y.schedule, now)))
  {
    var s := Dispatched(y.schedule, now);
    DispatchKeeps(y.schedule, now);
    DispatchLookup(y.schedule, now, 0);
    forall i | 0 <= i < |s| ensures s[i].id <= y.idCounter {
      DispatchLookup(y.schedule, now, s[i].id);
      LookupAbsent(s, s[i].id);
      LookupAbsent(y.schedule, s[i].id);
    }
  }

  /** What a turn makes of an entry that its callback does not name. */
  lemma TurnElsewhere(y: State, y': State, first: Rec, now: int, cs: seq<Command>, id: nat)
    requires Sound(y) && Turn(y, y', first, now, cs) && id <= y.idCounter && LeavesAlone(cs, id)
    ensures Lookup(y'.schedule, id) == if first.id != id then Lookup(y.schedule, id)
                                       else if first.interval == 0 then None else Some(Rearmed(first, now))
    ensures y'.idCounter >= y.idCounter
  {
    DispatchSound(y, now);
    DispatchLookup(y.schedule, now, id);
    hide Effects, Sound, Dispatched, Lookup, Rearmed;
    EffectsElsewhere(y.(schedule := Dispatched(y.schedule, now)), y', if first.callback then cs else [], id);
  }

  /** Whatever callbacks do to other entries, from any point of a pass on, an entry that they do not
      name gets exactly the turns and the record it would get alone. */
  lemma {:induction false} UntouchedTurns(states: seq<State>, log: seq<Rec>, now: int, script: seq<seq<Command>>,
                                         i: nat, id: nat)
    requires PassRun(states, log, now, script) && Ended(states, now) && i <= |log| && id <= states[i].idCounter
    requires forall k :: i <= k < |log| ==> LeavesAlone(CommandsOf(script, k), id)
    ensures (OnlyId(log[i..], id), Lookup(states[|log|].schedule, id)) == TurnsOf(Lookup(states[i].schedule, id), now)
    decreases |log| - i
  {
    if i == |log| {
      LaterLookup(states[i].schedule, now, id);
    } else {
      hide Effects, CommandsOf, Sound, LeavesAlone, Lookup, OnlyId, TurnsOf, Rearmed, Ended;
      assert Turn(states[i], states[i + 1], log[i], now, CommandsOf(script, i));
      TurnElsewhere(states[i], states[i + 1], log[i], now, CommandsOf(script, i), id);
      UntouchedTurns(states, log, now, script, i + 1, id);
      assert log[i..] == [log[i]] + log[i + 1..];
      TurnsUnfold(states[i].schedule, log[i + 1..], now, id, Lookup(states[|log|].schedule, id));
    }
  }

  /** The turns of an entry, unfolded at the first entry of the schedule. */
  lemma TurnsUnfold(s: seq<Rec>, log: seq<Rec>, now: int, id: nat, x: Option<Rec>)
    requires s != [] && s[0].time <= now
    requires (OnlyId(log, id), x) == TurnsOf(if s[0].id != id then Lookup(s, id)
                                            else if s[0].interval == 0 then None else Some(Rearmed(s[0], now)), now)
    ensures (OnlyId([s[0]] + log, id), x) == TurnsOf(Lookup(s, id), now)
  {
    Seqs.Uncons([s[0]], log);
    Seqs.Empty(OnlyId(log, id));
    Seqs.Empty([s[0]]);
    assert OnlyId([s[0]] + log, id) == (if s[0].id == id then [s[0]] else []) + OnlyId(log, id);
    if s[0].id == id && s[0].interval > 0 {
      var y := Rearmed(s[0], now);
      NotDueAnyMore(s[0], now);
      assert y.time <= now ==> [s[0]] + [y] == [s[0], y];
    }
  }

  // ---------- phase ----------

  /** Adding or changing a repeated entry with a base time under the base-time policy: every due time
      of every run of passes from there on is in phase with the base time. */
  lemma PhaseFromBase(y: State, y': State, c: Command, base: int, clocks: seq<int>)
    requires Sound(y) && Sound(y') && Effect(y, y', c)
    requires (c.AddRepeated? && c.hasCallback) || (c.Change? && Lookup(y.schedule, c.id).Some?)
    requires IntervalOf(c.intervalMs) > 0 && c.base == Some(base) && c.policy == BaseTime
    ensures var id := if c.AddRepeated? then y'.idCounter else c.id;
            var (log, s') := Passes(y'.schedule, clocks);
            && Lookup(y'.schedule, id).Some?
            && FirstDue(Lookup(y'.schedule, id).value.time, c.now, c.base, IntervalOf(c.intervalMs))
            && AllInPhase(OnlyId(log, id), base, IntervalOf(c.intervalMs))
            && Lookup(s', id).Some? && InPhase(Lookup(s', id).value.time, base, IntervalOf(c.intervalMs))
  {
    var n := IntervalOf(c.intervalMs);
    var x := CommandsEntry(y, y', c);
    hide Sound, Effect, FirstTime, IntervalOf, Passes, OnlyId, Lookup;
    FirstTimeExactly(c.now, c.base, n, x.time);
    SoundSchedule(y');
    PhaseKept(y'.schedule, clocks, x);
    var (log, s') := Passes(y'.schedule, clocks);
    forall k | 0 <= k < |OnlyId(log, x.id)| ensures InPhase(OnlyId(log, x.id)[k].time, base, n) {
      InPhaseTransitive(base, x.time, OnlyId(log, x.id)[k].time, n);
    }
    InPhaseTransitive(base, x.time, Lookup(s', x.id).value.time, n);
  }

  lemma SoundSchedule(y: State)
    requires Sound(y)
    ensures InDueOrder(y.schedule) && UniqueIds(y.schedule) && NoId(y.schedule, y.idCounter + 1)
  {
  }

  lemma CommandsEntry(y: State, y': State, c: Command) returns (x: Rec)
    requires Sound(y) && Effect(y, y', c)
    requires (c.AddRepeated? && c.hasCallback) || (c.Change? && Lookup(y.schedule, c.id).Some?)
    requires IntervalOf(c.intervalMs) > 0
    ensures Lookup(y'.schedule, x.id) == Some(x) && x.id == if c.AddRepeated? then y'.idCounter else c.id
    ensures x.interval == IntervalOf(c.intervalMs) && x.policy == c.policy && x.time == FirstTime(c.now, c.base, x.interval)
  {
    hide IntervalOf, FirstTime, WithoutAddr;
    if c.AddRepeated? {
      var n := IntervalOf(c.intervalMs);
      var addr: nat :|
        y'.schedule == Enqueue(y.schedule, Rec(addr, y'.idCounter, FirstTime(c.now, c.base, n), n, c.policy, true));
      x := Rec(addr, y'.idCounter, FirstTime(c.now, c.base, n), n, c.policy, true);
      SoundSchedule(y);
      EnqueueLookup(y.schedule, x, x.id);
    } else {
      x := Lookup(y'.schedule, c.id).value;
      LookupId(y.schedule, c.id);
    }
  }

  lemma {:induction false} LookupId(s: seq<Rec>, id: nat)
    ensures Lookup(s, id).Some? ==> Lookup(s, id).value.id == id
  {
    if s != [] {
      LookupId(s[1..], id);
    }
  }

  // ---------- passes without interference ----------

  /** When no callback does anything, the turns are those of a pass over the schedule. */
  lemma {:induction false} QuietPass(states: seq<State>, log: seq<Rec>, now: int)
    requires PassRun(states, log, now, []) && Ended(states, now)
    ensures (log, states[|log|].schedule) == Pass(states[0].schedule, now)
    decreases |log|
  {
    hide Sound, Dispatched;
    if log == [] {
      assert states[0].schedule != [] ==> states[0].schedule[0].time > now;
    } else {
      assert Turn(states[0], states[1], log[0], now, CommandsOf([], 0));
      QuietTail(states, log, now);
      QuietPass(states[1..], log[1..], now);
      assert states[1].schedule == Dispatched(states[0].schedule, now);
      assert [log[0]] + log[1..] == log;
    }
  }

  lemma QuietTail(states: seq<State>, log: seq<Rec>, now: int)
    requires PassRun(states, log, now, []) && Ended(states, now) && log != []
    ensures PassRun(states[1..], log[1..], now, []) && Ended(states[1..], now)
  {
    hide Turn, Sound;
    forall k | 0 <= k < |log[1..]| ensures Turn(states[1..][k], states[1..][k + 1], log[1..][k], now, CommandsOf([], k)) {
      assert Turn(states[k + 1], states[k + 2], log[k + 1], now, CommandsOf([], k + 1));
    }
  }

  // ---------- how long a pass takes ----------

  /** The command schedules nothing for the clock of the pass or before. A command that adds or
      changes a repeated entry never does, if its own clock is not behind. */
  predicate Later(c: Command, now: int) {
    match c
    case AddTimed(_, date) => date > now
    case AddRepeated(_, _, _, _, t) => t >= now
    case Change(_, _, _, _, t) => t >= now
    case Remove(_) => true
  }

  lemma {:induction false} WithoutPending(s: seq<Rec>, addr: nat, now: int)
    ensures Pending(WithoutAddr(s, addr), now) <= Pending(s, now)
  {
    if s != [] {
      WithoutPending(s[1..], addr, now);
      var rest := WithoutAddr(s[1..], addr);
      Seqs.Uncons([s[0]], rest);
      Seqs.Empty(rest);
    }
  }

  lemma FirstTimeIsLater(now: int, base: Option<int>, interval: nat)
    requires interval > 0
    ensures FirstTime(now, base, interval) > now
  {
    if base.Some? {
      NextTimeIsLeast(now, base.value, interval);
    }
  }

  lemma LaterEffect(y: State, y': State, c: Command, now: int)
    requires Effect(y, y', c) && Later(c, now)
    ensures Pending(y'.schedule, now) <= Pending(y.schedule, now)
  {
    hide IntervalOf, FirstTime, Moved, WithoutAddr, Pending, Enqueue;
    if y' != y {
      match c {
        case AddTimed(_, date) =>
          AddedPending(y, y', date, 0, CurrentTime, now);
        case AddRepeated(_, ms, base, policy, t) =>
          FirstTimeIsLater(t, base, IntervalOf(ms));
          AddedPending(y, y', FirstTime(t, base, IntervalOf(ms)), IntervalOf(ms), policy, now);
        case Change(id, ms, base, policy, t) =>
          var x := Lookup(y.schedule, id).value;
          FirstTimeIsLater(t, base, IntervalOf(ms));
          var x' := x.(time := FirstTime(t, base, IntervalOf(ms)), interval := IntervalOf(ms), policy := policy);
          WithoutPending(y.schedule, x.addr, now);
          EnqueuePending(WithoutAddr(y.schedule, x.addr), x', now);
        case Remove(id) =>
          WithoutPending(y.schedule, Lookup(y.schedule, id).value.addr, now);
      }
    }
  }

  lemma AddedPending(y: State, y': State, time: int, interval: nat, policy: Policy, now: int)
    requires Added(y, y', time, interval, policy) && time > now
    ensures Pending(y'.schedule, now) == Pending(y.schedule, now)
  {
    var addr: nat :| y'.schedule == Enqueue(y.schedule, Rec(addr, y'.idCounter, time, interval, policy, true));
    EnqueuePending(y.schedule, Rec(addr, y'.idCounter, time, interval, policy, true), now);
  }

  lemma {:induction false} LaterEffects(y: State, y': State, cs: seq<Command>, now: int)
    requires Effects(y, y', cs) && forall j :: 0 <= j < |cs| ==> Later(cs[j], now)
    ensures Pending(y'.schedule, now) <= Pending(y.schedule, now)
    decreases |cs|
  {
    hide Effect, Sound, Later, Pending;
    if cs != [] {
      var m :| Sound(m) && Effect(y, m, cs[0]) && Effects(m, y', cs[1..]);
      LaterEffect(y, m, cs[0], now);
      LaterEffects(m, y', cs[1..], now);
    }
  }

  /** While callbacks schedule nothing for the clock of the pass or before, the turns are at most as
      many as without them. */
  lemma {:induction false} PassBounded(states: seq<State>, log: seq<Rec>, now: int, script: seq<seq<Command>>, i: nat)
    requires PassRun(states, log, now, script) && i <= |log|
    requires forall k, j :: 0 <= k < |script| && 0 <= j < |script[k]| ==> Later(script[k][j], now)
    ensures |log| - i + Pending(states[|log|].schedule, now) <= Pending(states[i].schedule, now)
    decreases |log| - i
  {
    if i < |log| {
      var cs := if log[i].callback then CommandsOf(script, i) else [];
      assert Turn(states[i], states[i + 1], log[i], now, CommandsOf(script, i));
      DispatchDecreases(states[i].schedule, now);
      LaterEffects(states[i].(schedule := Dispatched(states[i].schedule, now)), states[i + 1], cs, now);
      PassBounded(states, log, now, script, i + 1);
    }
  }

  /** Otherwise there is no bound: a callback that adds itself again for the same clock keeps the pass
      busy for as many turns as it likes. */
  lemma PassUnbounded(now: int, n: nat) returns (states: seq<State>, log: seq<Rec>, script: seq<seq<Command>>)
    ensures PassRun(states, log, now, script) && |log| == n && states[0].schedule == [Rec(0, 1, now, 0, CurrentTime, true)]
  {
    states := seq(n + 1, k requires k >= 0 => Again(now, k));
    log := seq(n, k requires k >= 0 => Again(now, k).schedule[0]);
    script := seq(n, _ => [AddTimed(true, now)]);
    forall k | 0 <= k < n ensures Turn(states[k], states[k + 1], log[k], now, CommandsOf(script, k)) {
      var mid, c := State([], k + 1), AddTimed(true, now);
      assert Again(now, k + 1).schedule == Enqueue([], Rec(0, k + 2, now, 0, CurrentTime, true));
      assert Effect(mid, states[k + 1], c);
      assert Sound(states[k + 1]) && Effects(states[k + 1], states[k + 1], [c][1..]);
      assert Effects(mid, states[k + 1], [c]);
    }
  }

  function Again(now: int, k: nat): State {
    State([Rec(0, k + 1, now, 0, CurrentTime, true)], k + 1)
  }
}
