/** The timer as a schedule: a sequence of records in due order, what one processing pass does to
    it, and what follows for whole runs. Times are mathematical integers in units of 100 ns. */
module Schedule {
  import Seqs
  import opened Arithmetic
  import opened Options

  datatype Policy = CurrentTime | BaseTime

  datatype Rec = Rec(addr: nat, id: nat, time: int, interval: nat, policy: Policy, callback: bool)

  // ---------- the next due time ----------

  function CalculateNextTime(now: int, base: int, interval: int): int
    requires interval > 0
  {
    var m := Rem(now - base, interval);
    var cycleDelay := if m < 0 then m + interval else m;
    now + interval - cycleDelay
  }

  ghost predicate InPhase(t: int, base: int, interval: int)
    requires interval > 0
  {
    exists k: int :: t == base + Times(k, interval)
  }

  /** A product with a name, so that quantifiers over multiples have something to hang on. */
  function Times(k: int, n: int): int {
    k * n
  }

  lemma RemCongruent(a: int, n: int) returns (k: int)
    requires n > 0
    ensures var m := Rem(a, n); a == Times(k, n) + m && -n < m < n
  {
    if a >= 0 {
      k := a / n;
      assert a == n * (a / n) + a % n;
    } else {
      k := -((-a) / n);
      assert -a == n * ((-a) / n) + (-a) % n;
      assert Times(k, n) == -(n * ((-a) / n));
    }
  }

  /** The computed time is the least one that is later than now and in phase with the base time,
      also when the base time lies in the future. */
  lemma NextTimeIsLeast(now: int, base: int, interval: int)
    requires interval > 0
    ensures var r := CalculateNextTime(now, base, interval);
            && now < r <= now + interval && InPhase(r, base, interval)
            && forall t :: t > now && InPhase(t, base, interval) ==> r <= t
  {
    var r := CalculateNextTime(now, base, interval);
    var k := RemCongruent(now - base, interval);
    var j := if Rem(now - base, interval) < 0 then k else k + 1;
    assert r == base + Times(j, interval) by {
      assert Times(k + 1, interval) == Times(k, interval) + interval;
    }
    forall t | t > now && InPhase(t, base, interval) ensures r <= t {
      var i :| t == base + Times(i, interval);
      assert Times(j - 1, interval) == Times(j, interval) - interval;
      assert Times(i, interval) > Times(j - 1, interval);
      TimesMonotone(i, j - 1, interval);
      TimesMonotone(j, i, interval);
    }
  }

  lemma TimesMonotone(i: int, j: int, n: int)
    requires n > 0
    ensures i <= j <==> Times(i, n) <= Times(j, n)
  {
    var d := j - i;
    assert Times(j, n) - Times(i, n) == d * n;
    if d >= 0 {
      assert d * n >= 0;
    } else {
      assert d * n <= -n by { assert (-d) * n >= n; }
    }
  }

  // ---------- one processing pass ----------

  /** Due order: by time, and by address among equal times. */
  predicate Earlier(a: Rec, b: Rec) {
    a.time < b.time || (a.time == b.time && a.addr < b.addr)
  }

  function Enqueue(s: seq<Rec>, x: Rec): seq<Rec> {
    if s == [] then [x]
    else if Earlier(x, s[0]) then [x] + s
    else [s[0]] + Enqueue(s[1..], x)
  }

  /** The record of a repeated entry after it was taken out for execution at clock now. */
  function Rearmed(x: Rec, now: int): Rec
    requires x.interval > 0
  {
    var t := x.time + x.interval;
    x.(time := if t >= now then t
               else if x.policy == BaseTime then CalculateNextTime(now, t, x.interval)
               else now + x.interval)
  }

  function Dispatched(s: seq<Rec>, now: int): seq<Rec>
    requires s != []
  {
    if s[0].interval == 0 then s[1..] else Enqueue(s[1..], Rearmed(s[0], now))
  }

  function Urgency(x: Rec, now: int): nat {
    if x.time < now then 2 else if x.time == now then 1 else 0
  }

  /** How many dispatches a pass can still make: an overdue entry may come up twice, one that is
      due right now once. */
  function Pending(s: seq<Rec>, now: int): nat {
    if s == [] then 0 else Urgency(s[0], now) + Pending(s[1..], now)
  }

  lemma RearmedFacts(x: Rec, now: int)
    requires x.interval > 0
    ensures var y := Rearmed(x, now);
            && y == x.(time := y.time)
            && y.time >= x.time + x.interval
            && (y.time > now || y.time == now == x.time + x.interval)
            && (x.time <= now ==> Urgency(y, now) < Urgency(x, now))
  {
    if x.time + x.interval < now {
      NextTimeIsLeast(now, x.time + x.interval, x.interval);
    }
  }

  /** The least time later than now in phase with the base time. */
  ghost predicate LeastInPhase(t: int, now: int, base: int, interval: int)
    requires interval > 0
  {
    t > now && InPhase(t, base, interval) && forall u :: u > now && InPhase(u, base, interval) ==> t <= u
  }

  /** The next due time: an interval after the last one while that has not passed. After a missed
      cycle it is an interval after the clock, or under the base-time policy the least later time in
      phase with the last one. */
  lemma RearmedExactly(x: Rec, now: int, t: int)
    requires x.interval > 0
    ensures Rearmed(x, now) == x.(time := t) <==>
            if now <= x.time + x.interval then t == x.time + x.interval
            else match x.policy
                 case CurrentTime => t == now + x.interval
                 case BaseTime => LeastInPhase(t, now, x.time, x.interval)
  {
    hide CalculateNextTime, LeastInPhase;
    var base := x.time + x.interval;
    CalculatedExactly(now, base, x.interval, t);
    LeastShifted(t, now, x.time, x.interval);
  }

  lemma CalculatedExactly(now: int, base: int, interval: int, t: int)
    requires interval > 0
    ensures CalculateNextTime(now, base, interval) == t <==> LeastInPhase(t, now, base, interval)
  {
    hide CalculateNextTime, InPhase;
    NextTimeIsLeast(now, base, interval);
  }

  lemma LeastShifted(t: int, now: int, base: int, interval: int)
    requires interval > 0
    ensures LeastInPhase(t, now, base + interval, interval) <==> LeastInPhase(t, now, base, interval)
  {
    hide InPhase;
    var later := base + interval;
    forall u ensures InPhase(u, later, interval) <==> InPhase(u, base, interval) {
      ShiftedPhase(base, interval, u);
    }
    assert LeastInPhase(t, now, later, interval) <==> LeastInPhase(t, now, base, interval);
  }

  lemma ShiftedPhase(base: int, interval: int, t: int)
    requires interval > 0
    ensures InPhase(t, base + interval, interval) <==> InPhase(t, base, interval)
  {
    assert base + interval == base + Times(1, interval) && base == base + interval + Times(-1, interval);
    if InPhase(t, base, interval) {
      InPhaseTransitive(base + interval, base, t, interval);
    }
    if InPhase(t, base + interval, interval) {
      InPhaseTransitive(base, base + interval, t, interval);
    }
  }

  lemma {:induction false} EnqueuePending(s: seq<Rec>, x: Rec, now: int)
    ensures Pending(Enqueue(s, x), now) == Pending(s, now) + Urgency(x, now)
  {
    if s != [] {
      if Earlier(x, s[0]) {
        Seqs.Uncons([x], s);
      } else {
        EnqueuePending(s[1..], x, now);
      }
    }
  }

  /** Every dispatch of a due entry uses up some of what is pending, so a pass ends. */
  lemma DispatchDecreases(s: seq<Rec>, now: int)
    requires s != [] && s[0].time <= now
    ensures Pending(Dispatched(s, now), now) < Pending(s, now)
  {
    if s[0].interval > 0 {
      RearmedFacts(s[0], now);
      EnqueuePending(s[1..], Rearmed(s[0], now), now);
    }
  }

  /** A whole pass: the records dispatched, in order, and the schedule left behind. */
  function Pass(s: seq<Rec>, now: int): (seq<Rec>, seq<Rec>)
    decreases Pending(s, now)
  {
    if s == [] || s[0].time > now then ([], s)
    else
      DispatchDecreases(s, now);
      var (log, s') := Pass(Dispatched(s, now), now);
      ([s[0]] + log, s')
  }

  // ---------- what a pass guarantees ----------

  ghost predicate InDueOrder(s: seq<Rec>) {
    forall i, j :: 0 <= i < j < |s| ==> s[i].time <= s[j].time
  }

  ghost predicate DueFrom(s: seq<Rec>, t: int) {
    forall i :: 0 <= i < |s| ==> s[i].time >= t
  }

  ghost predicate UniqueIds(s: seq<Rec>) {
    forall i, j :: 0 <= i < j < |s| ==> s[i].id != s[j].id
  }

  lemma ConsDue(x: Rec, s: seq<Rec>, t: int)
    ensures DueFrom([x] + s, t) <==> x.time >= t && DueFrom(s, t)
    ensures InDueOrder([x] + s) <==> DueFrom(s, x.time) && InDueOrder(s)
  {
    var c := [x] + s;
    assert c[0] == x && forall i :: 0 <= i < |s| ==> s[i] == c[i + 1];
  }

  lemma {:induction false} EnqueueKeeps(s: seq<Rec>, x: Rec, t: int)
    requires InDueOrder(s)
    ensures InDueOrder(Enqueue(s, x))
    ensures DueFrom(Enqueue(s, x), t) <==> DueFrom(s, t) && x.time >= t
  {
    ConsDue(x, s, t);
    if s != [] {
      Seqs.Uncons(s, []);
      ConsDue(s[0], s[1..], t);
      ConsDue(s[0], s[1..], x.time);
      ConsDue(s[0], Enqueue(s[1..], x), t);
      EnqueueKeeps(s[1..], x, t);
      EnqueueKeeps(s[1..], x, s[0].time);
    }
  }

  lemma DispatchKeeps(s: seq<Rec>, now: int)
    requires s != [] && InDueOrder(s)
    ensures InDueOrder(Dispatched(s, now)) && DueFrom(Dispatched(s, now), s[0].time)
  {
    if s[0].interval > 0 {
      RearmedFacts(s[0], now);
      EnqueueKeeps(s[1..], Rearmed(s[0], now), s[0].time);
    }
  }

  /** Dispatches come in non-decreasing due time, all at or before the clock, and afterwards
      everything left is due strictly later than the clock. */
  lemma {:induction false} PassOrder(s: seq<Rec>, now: int)
    requires InDueOrder(s)
    ensures var (log, s') := Pass(s, now);
            && InDueOrder(log) && (s != [] ==> DueFrom(log, s[0].time))
            && (forall i :: 0 <= i < |log| ==> log[i].time <= now)
            && InDueOrder(s') && DueFrom(s', now + 1)
    decreases Pending(s, now)
  {
    if s != [] && s[0].time <= now {
      DispatchDecreases(s, now);
      DispatchKeeps(s, now);
      var rest := Dispatched(s, now);
      PassOrder(rest, now);
      var (log, s') := Pass(rest, now);
      if rest != [] {
        assert rest[0].time >= s[0].time;
      }
      assert DueFrom(log, s[0].time);
    }
  }

  // ---------- a pass acts on every entry by itself ----------

  function Lookup(s: seq<Rec>, id: nat): Option<Rec> {
    if s == [] then None else if s[0].id == id then Some(s[0]) else Lookup(s[1..], id)
  }

  function OnlyId(log: seq<Rec>, id: nat): seq<Rec> {
    if log == [] then [] else (if log[0].id == id then [log[0]] else []) + OnlyId(log[1..], id)
  }

  /** What becomes of one entry in a pass, without looking at any other: the times it runs and the
      record it leaves. It runs twice only when its next turn falls exactly on the clock. */
  function Turns(x: Rec, now: int): (seq<Rec>, Option<Rec>) {
    if x.time > now then ([], Some(x))
    else if x.interval == 0 then ([x], None)
    else
      var y := Rearmed(x, now);
      if y.time > now then ([x], Some(y)) else ([x, y], Some(Rearmed(y, now)))
  }

  function TurnsOf(x: Option<Rec>, now: int): (seq<Rec>, Option<Rec>) {
    if x.None? then ([], None) else Turns(x.value, now)
  }

  ghost predicate NoId(s: seq<Rec>, id: nat) {
    forall i :: 0 <= i < |s| ==> s[i].id != id
  }

  lemma ConsIds(x: Rec, s: seq<Rec>, id: nat)
    ensures NoId([x] + s, id) <==> x.id != id && NoId(s, id)
    ensures UniqueIds([x] + s) <==> NoId(s, x.id) && UniqueIds(s)
  {
    var c := [x] + s;
    assert c[0] == x && forall i :: 0 <= i < |s| ==> s[i] == c[i + 1];
  }

  lemma {:induction false} LookupAbsent(s: seq<Rec>, id: nat)
    ensures NoId(s, id) <==> Lookup(s, id).None?
  {
    if s != [] {
      Seqs.Uncons(s, []);
      ConsIds(s[0], s[1..], id);
      LookupAbsent(s[1..], id);
    }
  }

  lemma {:induction false} EnqueueLookup(s: seq<Rec>, x: Rec, id: nat)
    requires UniqueIds(s) && NoId(s, x.id)
    ensures UniqueIds(Enqueue(s, x))
    ensures NoId(Enqueue(s, x), id) <==> NoId(s, id) && x.id != id
    ensures Lookup(Enqueue(s, x), id) == if x.id == id then Some(x) else Lookup(s, id)
  {
    ConsIds(x, s, id);
    if s != [] {
      Seqs.Uncons(s, []);
      ConsIds(s[0], s[1..], x.id);
      ConsIds(s[0], s[1..], id);
      ConsIds(s[0], Enqueue(s[1..], x), id);
      Seqs.Uncons([x], s);
      Seqs.Uncons([s[0]], Enqueue(s[1..], x));
      EnqueueLookup(s[1..], x, id);
      EnqueueLookup(s[1..], x, s[0].id);
    }
  }

  lemma DispatchLookup(s: seq<Rec>, now: int, id: nat)
    requires s != [] && UniqueIds(s)
    ensures UniqueIds(Dispatched(s, now))
    ensures Lookup(Dispatched(s, now), id) ==
            if s[0].id != id then Lookup(s, id)
            else if s[0].interval == 0 then None else Some(Rearmed(s[0], now))
  {
    Seqs.Uncons(s, []);
    ConsIds(s[0], s[1..], id);
    LookupAbsent(s[1..], id);
    if s[0].interval > 0 {
      EnqueueLookup(s[1..], Rearmed(s[0], now), id);
    }
  }

  lemma NotDueAnyMore(x: Rec, now: int)
    requires x.interval > 0 && x.time <= now
    ensures var y := Rearmed(x, now);
            Turns(y, now) == if y.time > now then ([], Some(y)) else ([y], Some(Rearmed(y, now)))
  {
    RearmedFacts(x, now);
    var y := Rearmed(x, now);
    if y.time <= now {
      RearmedFacts(y, now);
      assert Rearmed(y, now).time > now;
    }
  }

  /** The whole pass, with its heap order and reinsertions, does to each entry exactly what Turns
      says, whatever else is in the schedule: it runs those times in that order and is left as that
      record. */
  lemma {:induction false} PassIsPointwise(s: seq<Rec>, now: int, id: nat)
    requires InDueOrder(s) && UniqueIds(s)
    ensures var (log, s') := Pass(s, now);
            UniqueIds(s') && (OnlyId(log, id), Lookup(s', id)) == TurnsOf(Lookup(s, id), now)
    decreases Pending(s, now)
  {
    if s == [] {
    } else if s[0].time > now {
      LaterLookup(s, now, id);
    } else {
      DispatchDecreases(s, now);
      DispatchKeeps(s, now);
      DispatchLookup(s, now, id);
      var rest := Dispatched(s, now);
      PassIsPointwise(rest, now, id);
      var (log, s') := Pass(rest, now);
      Seqs.Uncons([s[0]], log);
      Seqs.Empty(OnlyId(log, id));
      Seqs.Empty([s[0]]);
      assert OnlyId([s[0]] + log, id) == (if s[0].id == id then [s[0]] else []) + OnlyId(log, id);
      if s[0].id == id && s[0].interval > 0 {
        var y := Rearmed(s[0], now);
        assert (OnlyId(log, id), Lookup(s', id)) == Turns(y, now);
        NotDueAnyMore(s[0], now);
        assert y.time <= now ==> [s[0]] + [y] == [s[0], y];
      }
    }
  }

  lemma {:induction false} LaterLookup(s: seq<Rec>, now: int, id: nat)
    requires DueFrom(s, now + 1) || (s != [] && InDueOrder(s) && s[0].time > now)
    ensures Lookup(s, id).Some? ==> Lookup(s, id).value.time > now
  {
    if s != [] {
      LaterLookup(s[1..], now, id);
    }
  }

  // ---------- runs of many passes ----------

  /** Passes at the given clocks, in order: everything dispatched, and the final schedule. */
  function Passes(s: seq<Rec>, clocks: seq<int>): (seq<Rec>, seq<Rec>)
    decreases |clocks|
  {
    if clocks == [] then ([], s)
    else
      var (log1, s1) := Pass(s, clocks[0]);
      var (log2, s2) := Passes(s1, clocks[1..]);
      (log1 + log2, s2)
  }

  function AllTurns(x: Option<Rec>, clocks: seq<int>): (seq<Rec>, Option<Rec>)
    decreases |clocks|
  {
    if clocks == [] then ([], x)
    else
      var (log1, x1) := TurnsOf(x, clocks[0]);
      var (log2, x2) := AllTurns(x1, clocks[1..]);
      (log1 + log2, x2)
  }

  lemma {:induction false} OnlyIdAppend(a: seq<Rec>, b: seq<Rec>, id: nat)
    ensures OnlyId(a + b, id) == OnlyId(a, id) + OnlyId(b, id)
  {
    if a == [] {
      Seqs.Empty(b);
    } else {
      OnlyIdAppend(a[1..], b, id);
      Seqs.Uncons(a, b);
      Seqs.Assoc(if a[0].id == id then [a[0]] else [], OnlyId(a[1..], id), OnlyId(b, id));
    }
  }

  lemma {:induction false} PassesArePointwise(s: seq<Rec>, clocks: seq<int>, id: nat)
    requires InDueOrder(s) && UniqueIds(s)
    ensures var (log, s') := Passes(s, clocks);
            (OnlyId(log, id), Lookup(s', id)) == AllTurns(Lookup(s, id), clocks)
    decreases |clocks|
  {
    if clocks != [] {
      PassOrder(s, clocks[0]);
      PassIsPointwise(s, clocks[0], id);
      var (log1, s1) := Pass(s, clocks[0]);
      PassesArePointwise(s1, clocks[1..], id);
      OnlyIdAppend(log1, Passes(s1, clocks[1..]).0, id);
    }
  }

  /** Successive due times of one entry are at least an interval apart, starting from x. */
  ghost predicate Spaced(log: seq<Rec>, x: Rec) {
    forall k :: 0 <= k < |log| ==> log[k].time >= x.time + Times(k, x.interval)
  }

  ghost predicate NoLaterThan(log: seq<Rec>, t: int) {
    forall k :: 0 <= k < |log| ==> log[k].time <= t
  }

  lemma TurnsSpaced(x: Rec, now: int)
    requires x.interval > 0
    ensures var (log, y) := Turns(x, now);
            && Spaced(log, x) && NoLaterThan(log, now) && y.Some? && y.value == x.(time := y.value.time)
            && y.value.time >= x.time + Times(|log|, x.interval)
  {
    RearmedFacts(x, now);
    assert Times(1, x.interval) == x.interval && Times(2, x.interval) == 2 * x.interval && Times(0, x.interval) == 0;
    if x.time <= now && Rearmed(x, now).time <= now {
      RearmedFacts(Rearmed(x, now), now);
    }
  }

  lemma SpacedAppend(a: seq<Rec>, b: seq<Rec>, x: Rec, y: Rec)
    requires Spaced(a, x) && Spaced(b, y) && y.interval == x.interval
    requires y.time >= x.time + Times(|a|, x.interval)
    ensures Spaced(a + b, x)
  {
    forall k | 0 <= k < |a + b| ensures (a + b)[k].time >= x.time + Times(k, x.interval) {
      if k >= |a| {
        assert (a + b)[k] == b[k - |a|];
        TimesAdd(|a|, k - |a|, x.interval);
      }
    }
  }

  lemma TimesAdd(i: int, j: int, n: int)
    ensures Times(i + j, n) == Times(i, n) + Times(j, n)
  {
  }

  lemma {:induction false} AllTurnsSpaced(x: Rec, clocks: seq<int>, t: int)
    requires x.interval > 0 && forall i :: 0 <= i < |clocks| ==> clocks[i] <= t
    ensures var (log, y) := AllTurns(Some(x), clocks); Spaced(log, x) && NoLaterThan(log, t)
    decreases |clocks|
  {
    if clocks != [] {
      var (log1, y) := Turns(x, clocks[0]);
      TurnsSpaced(x, clocks[0]);
      AllTurnsSpaced(y.value, clocks[1..], t);
      SpacedAppend(log1, AllTurns(y, clocks[1..]).0, x, y.value);
    }
  }

  lemma SpacedBound(log: seq<Rec>, x: Rec, t: int)
    requires x.interval > 0 && Spaced(log, x) && NoLaterThan(log, t)
    ensures |log| <= if t < x.time then 0 else (t - x.time) / x.interval + 1
  {
    if log != [] {
      var k := |log| - 1;
      assert x.time + Times(k, x.interval) <= log[k].time <= t;
      TimesMonotone(0, k, x.interval);
      QuotientBound(t - x.time, k, x.interval);
    }
  }

  lemma QuotientBound(a: int, k: int, n: int)
    requires n > 0 && Times(k, n) <= a
    ensures k <= a / n
  {
    var q := a / n;
    assert a == n * q + a % n && a < Times(q + 1, n);
    TimesMonotone(q + 1, k, n);
  }

  /** The rate bound: over any run of passes with clocks up to t, an entry first due at x.time runs
      at most floor((t - x.time) / interval) + 1 times, and not at all when t lies before x.time. */
  lemma RateBound(s: seq<Rec>, clocks: seq<int>, t: int, x: Rec)
    requires InDueOrder(s) && UniqueIds(s) && Lookup(s, x.id) == Some(x) && x.interval > 0
    requires forall i :: 0 <= i < |clocks| ==> clocks[i] <= t
    ensures var runs := OnlyId(Passes(s, clocks).0, x.id);
            && Spaced(runs, x)
            && |runs| <= if t < x.time then 0 else (t - x.time) / x.interval + 1
  {
    PassesArePointwise(s, clocks, x.id);
    AllTurnsSpaced(x, clocks, t);
    SpacedBound(OnlyId(Passes(s, clocks).0, x.id), x, t);
  }

  // ---------- phase ----------

  lemma InPhaseTransitive(a: int, b: int, c: int, n: int)
    requires n > 0 && InPhase(b, a, n) && InPhase(c, b, n)
    ensures InPhase(c, a, n)
  {
    var i :| b == a + Times(i, n);
    var j :| c == b + Times(j, n);
    TimesAdd(i, j, n);
    assert c == a + Times(i + j, n);
  }

  lemma RearmedInPhase(x: Rec, now: int)
    requires x.interval > 0 && x.policy == BaseTime
    ensures InPhase(Rearmed(x, now).time, x.time, x.interval)
  {
    var t := x.time + x.interval;
    assert t == x.time + Times(1, x.interval);
    assert InPhase(t, x.time, x.interval);
    if t < now {
      NextTimeIsLeast(now, t, x.interval);
      InPhaseTransitive(x.time, t, Rearmed(x, now).time, x.interval);
    }
  }

  ghost predicate AllInPhase(log: seq<Rec>, base: int, n: int)
    requires n > 0
  {
    forall k :: 0 <= k < |log| ==> InPhase(log[k].time, base, n)
  }

  lemma TurnsInPhase(x: Rec, now: int)
    requires x.interval > 0 && x.policy == BaseTime
    ensures var (log, y) := Turns(x, now);
            AllInPhase(log, x.time, x.interval) && InPhase(y.value.time, x.time, x.interval)
  {
    assert x.time == x.time + Times(0, x.interval);
    assert InPhase(x.time, x.time, x.interval);
    RearmedInPhase(x, now);
    var y := Rearmed(x, now);
    RearmedInPhase(y, now);
    InPhaseTransitive(x.time, y.time, Rearmed(y, now).time, x.interval);
  }

  lemma {:induction false} AllTurnsInPhase(x: Rec, clocks: seq<int>)
    requires x.interval > 0 && x.policy == BaseTime
    ensures var (log, y) := AllTurns(Some(x), clocks);
            AllInPhase(log, x.time, x.interval) && y.Some? && InPhase(y.value.time, x.time, x.interval)
    decreases |clocks|
  {
    if clocks == [] {
      assert x.time == x.time + Times(0, x.interval);
    } else {
      var (log1, y) := Turns(x, clocks[0]);
      TurnsSpaced(x, clocks[0]);
      TurnsInPhase(x, clocks[0]);
      AllTurnsInPhase(y.value, clocks[1..]);
      var (log2, z) := AllTurns(y, clocks[1..]);
      InPhaseTransitive(x.time, y.value.time, z.value.time, x.interval);
      forall k | 0 <= k < |log2| ensures InPhase(log2[k].time, x.time, x.interval) {
        InPhaseTransitive(x.time, y.value.time, log2[k].time, x.interval);
      }
    }
  }

  /** Under the base-time policy every due time of an entry, at every clock of every run, stays in
      phase with the first one. */
  lemma PhaseKept(s: seq<Rec>, clocks: seq<int>, x: Rec)
    requires InDueOrder(s) && UniqueIds(s) && Lookup(s, x.id) == Some(x)
    requires x.interval > 0 && x.policy == BaseTime
    ensures var (log, s') := Passes(s, clocks);
            && AllInPhase(OnlyId(log, x.id), x.time, x.interval)
            && Lookup(s', x.id).Some? && InPhase(Lookup(s', x.id).value.time, x.time, x.interval)
  {
    PassesArePointwise(s, clocks, x.id);
    AllTurnsInPhase(x, clocks);
  }
}
