/** The promise of at least an interval between two executions, in the time of the clock: it is false
    of the code, and here is when it holds under either policy. */
module Intervals {
  import opened Options
  import opened Arithmetic
  import opened Schedule
  import Seqs

  function Repeat(c: int, n: nat): (r: seq<int>)
    ensures |r| == n && forall i :: 0 <= i < n ==> r[i] == c
  {
    seq(n, _ => c)
  }

  /** The clocks at which an entry executes in a run of passes. */
  function RunClocks(s: seq<Rec>, clocks: seq<int>, id: nat): seq<int>
    decreases |clocks|
  {
    if clocks == [] then []
    else
      var (log, s') := Pass(s, clocks[0]);
      Repeat(clocks[0], |OnlyId(log, id)|) + RunClocks(s', clocks[1..], id)
  }

  /** The same for an entry by itself. */
  function TurnClocks(x: Option<Rec>, clocks: seq<int>): seq<int>
    decreases |clocks|
  {
    if clocks == [] then []
    else
      var (log, x') := TurnsOf(x, clocks[0]);
      Repeat(clocks[0], |log|) + TurnClocks(x', clocks[1..])
  }

  lemma {:induction false} ClocksArePointwise(s: seq<Rec>, clocks: seq<int>, id: nat)
    requires InDueOrder(s) && UniqueIds(s)
    ensures RunClocks(s, clocks, id) == TurnClocks(Lookup(s, id), clocks)
    decreases |clocks|
  {
    hide Pass, TurnsOf;
    if clocks != [] {
      PassOrder(s, clocks[0]);
      PassIsPointwise(s, clocks[0], id);
      ClocksArePointwise(Pass(s, clocks[0]).1, clocks[1..], id);
    }
  }

  /** On time, or more than an interval late; under the base-time policy also in phase. Only then the
      next due time is a whole interval away from the clock. */
  predicate Prompt(x: Rec, c: int)
    requires x.interval > 0
  {
    || x.time == c
    || (x.time + x.interval < c && (x.policy == BaseTime ==> (c - x.time) % x.interval == 0))
  }

  lemma NextDueApart(x: Rec, c: int)
    requires x.interval > 0 && x.time <= c
    ensures Rearmed(x, c).time >= c + x.interval <==> Prompt(x, c)
  {
    if x.policy == BaseTime {
      var late := c - x.time;
      assert late == x.interval * (late / x.interval) + late % x.interval;
      Unique(late - x.interval, x.interval, late / x.interval - 1, late % x.interval);
    }
  }

  /** An entry with interval 10 that is first due at 0 runs at 9, being late, and at 10. */
  lemma RunsTooEarly(x: Rec)
    requires x.time == 0 && x.interval == 10 && x.policy == CurrentTime
    ensures RunClocks([x], [9, 10], x.id) == [9, 10]
  {
    ClocksArePointwise([x], [9, 10], x.id);
    var y := x.(time := 10);
    assert Turns(x, 9) == ([x], Some(y));
    assert Turns(y, 10) == ([y], Some(x.(time := 20)));
    assert [9, 10][1..] == [10] && [10][1..] == [];
    assert TurnClocks(Some(y), [10]) == Repeat(10, 1) + [];
    assert TurnClocks(Some(x), [9, 10]) == Repeat(9, 1) + TurnClocks(Some(y), [10]);
  }

  // ---------- from here on ----------

  ghost predicate AllFrom(cs: seq<int>, t: int) {
    forall k :: 0 <= k < |cs| ==> cs[k] >= t
  }

  /** An entry does not run before it is due. */
  lemma {:induction false} NotBeforeDue(x: Rec, clocks: seq<int>)
    requires x.interval > 0
    ensures AllFrom(TurnClocks(Some(x), clocks), x.time)
    decreases |clocks|
  {
    if clocks != [] {
      var (log, y) := Turns(x, clocks[0]);
      TurnsSpaced(x, clocks[0]);
      TimesMonotone(0, |log|, x.interval);
      NotBeforeDue(y.value, clocks[1..]);
    }
  }

  /** The first execution at clock c, and what follows it. */
  lemma FirstRun(x: Rec, c: int, clocks: seq<int>)
    requires x.interval > 0 && x.time <= c
    ensures var y, cs := Rearmed(x, c), TurnClocks(Some(x), [c] + clocks);
            && cs != [] && cs[0] == c
            && (y.time > c ==> cs[1..] == TurnClocks(Some(y), clocks))
            && (y.time <= c ==> |cs| > 1 && cs[1] == c)
  {
    var y := Rearmed(x, c);
    Seqs.Uncons([c], clocks);
    assert ([c] + clocks)[1..] == clocks by {
      Seqs.Empty(clocks);
    }
    if y.time > c {
      assert Turns(x, c) == ([x], Some(y));
      assert Repeat(c, 1) == [c];
    }
  }

  /** Whatever clocks follow, no further execution comes within an interval of an execution at clock
      c, if and only if that one was prompt. */
  lemma NextRunApart(s: seq<Rec>, x: Rec, c: int)
    requires InDueOrder(s) && UniqueIds(s) && Lookup(s, x.id) == Some(x)
    requires x.interval > 0 && x.time <= c
    ensures (forall clocks: seq<int> :: AllFrom(Later(RunClocks(s, [c] + clocks, x.id)), c + x.interval)) <==> Prompt(x, c)
  {
    hide Rearmed, TurnClocks, RunClocks;
    var y := Rearmed(x, c);
    NextDueApart(x, c);
    RearmedFacts(x, c);
    forall clocks: seq<int> | Prompt(x, c) ensures AllFrom(Later(RunClocks(s, [c] + clocks, x.id)), c + x.interval) {
      ClocksArePointwise(s, [c] + clocks, x.id);
      FirstRun(x, c, clocks);
      NotBeforeDue(y, clocks);
    }
    if !Prompt(x, c) {
      ClocksArePointwise(s, [c] + [y.time], x.id);
      FirstRun(x, c, [y.time]);
      if y.time > c {
        RearmedCurrent(x, c);
        FirstRun(y, y.time, []);
        Seqs.Empty([y.time]);
      }
      assert !AllFrom(Later(RunClocks(s, [c] + [y.time], x.id)), c + x.interval);
    }
  }

  lemma RearmedCurrent(x: Rec, c: int)
    requires x.interval > 0
    ensures Rearmed(x, c) == x.(time := Rearmed(x, c).time)
  {
  }

  function Later(cs: seq<int>): seq<int> {
    if cs == [] then [] else cs[1..]
  }

  // ---------- whole runs ----------

  /** Each of the first n executions is followed by the next no sooner than an interval later. */
  ghost predicate GapsKept(cs: seq<int>, n: nat, interval: nat) {
    forall k :: 0 <= k < n && k + 1 < |cs| ==> cs[k + 1] >= cs[k] + interval
  }

  /** Every execution in the run is prompt. */
  predicate PromptRun(x: Rec, clocks: seq<int>)
    requires x.interval > 0
    decreases |clocks|
  {
    clocks == [] ||
    ((x.time <= clocks[0] ==> Prompt(x, clocks[0])) && PromptRun(x.(time := NextTime(x, clocks[0])), clocks[1..]))
  }

  /** The due time a pass leaves. */
  function NextTime(x: Rec, c: int): int
    requires x.interval > 0
  {
    Turns(x, c).1.value.time
  }

  lemma PassedOver(x: Rec, c: int, clocks: seq<int>)
    requires x.interval > 0
    ensures var x', cs := x.(time := NextTime(x, c)), TurnClocks(Some(x), [c] + clocks);
            && (x.time > c ==> x' == x && cs == TurnClocks(Some(x), clocks))
            && (x.time <= c && Prompt(x, c) ==>
                  x'.time >= c + x.interval && cs == [c] + TurnClocks(Some(x'), clocks))
  {
    assert ([c] + clocks)[1..] == clocks;
    if x.time <= c {
      NextDueApart(x, c);
    }
    if x.time > c {
      assert Turns(x, c) == ([], Some(x));
      Seqs.Empty(TurnClocks(Some(x), clocks));
    } else if Prompt(x, c) {
      assert Turns(x, c) == ([x], Some(Rearmed(x, c)));
      assert Repeat(c, 1) == [c];
    }
  }

  lemma GapsCons(c: int, cs: seq<int>, n: nat, interval: nat)
    requires AllFrom(cs, c + interval) && GapsKept(cs, n, interval)
    ensures GapsKept([c] + cs, n + 1, interval)
  {
    assert forall k :: 0 <= k < |cs| ==> ([c] + cs)[k + 1] == cs[k];
  }

  lemma {:induction false} PromptKeepsGaps(x: Rec, clocks: seq<int>, more: seq<int>)
    requires x.interval > 0 && PromptRun(x, clocks)
    ensures GapsKept(TurnClocks(Some(x), clocks + more), |TurnClocks(Some(x), clocks)|, x.interval)
    decreases |clocks|
  {
    hide Prompt, TurnClocks, NextTime;
    if clocks == [] {
      NoTurns(x);
    } else {
      var c, x' := clocks[0], x.(time := NextTime(x, clocks[0]));
      Seqs.Uncons(clocks, more);
      Split(clocks);
      Split(clocks + more);
      PassedOver(x, c, clocks[1..]);
      PassedOver(x, c, clocks[1..] + more);
      PromptKeepsGaps(x', clocks[1..], more);
      NotBeforeDue(x', clocks[1..] + more);
      if x.time <= c {
        var cs := TurnClocks(Some(x'), clocks[1..] + more);
        GapsCons(c, cs, |TurnClocks(Some(x'), clocks[1..])|, x.interval);
      }
    }
  }

  lemma Split(s: seq<int>)
    requires s != []
    ensures s == [s[0]] + s[1..]
  {
  }

  lemma NoTurns(x: Rec)
    ensures TurnClocks(Some(x), []) == []
  {
  }

  /** Behind the first execution that is not prompt, an early next one is possible. */
  lemma {:induction false} LateBreaksGaps(x: Rec, clocks: seq<int>) returns (n: nat, more: seq<int>)
    requires x.interval > 0 && !PromptRun(x, clocks)
    ensures n <= |clocks|
    ensures !GapsKept(TurnClocks(Some(x), clocks[..n] + more), |TurnClocks(Some(x), clocks[..n])|, x.interval)
    decreases |clocks|
  {
    hide TurnClocks, NextTime, Rearmed, Prompt;
    var c, x' := clocks[0], x.(time := NextTime(x, clocks[0]));
    if x.time <= c && !Prompt(x, c) {
      var y := Rearmed(x, c);
      NextDueApart(x, c);
      RearmedFacts(x, c);
      RearmedCurrent(x, c);
      n, more := 1, [y.time];
      assert clocks[..1] == [c];
      FirstRun(x, c, [y.time]);
      FirstRun(x, c, []);
      Seqs.Empty([c]);
      FirstRun(y, y.time, []);
      Seqs.Empty([y.time]);
      assert !GapsKept(TurnClocks(Some(x), [c] + [y.time]), 1, x.interval);
    } else {
      n, more := LateBreaksGaps(x', clocks[1..]);
      var front := clocks[1..][..n];
      assert clocks[..n + 1] == [c] + front;
      assert clocks[..n + 1] + more == [c] + (front + more);
      PassedOver(x, c, front);
      PassedOver(x, c, front + more);
      GapsUncons(c, TurnClocks(Some(x'), front + more), |TurnClocks(Some(x'), front)|, x.interval);
      n := n + 1;
    }
  }

  lemma GapsUncons(c: int, cs: seq<int>, n: nat, interval: nat)
    ensures GapsKept([c] + cs, n + 1, interval) ==> GapsKept(cs, n, interval)
  {
    assert forall k :: 0 <= k < |cs| ==> ([c] + cs)[k + 1] == cs[k];
  }

  /** At every point of a run, however it goes on, each execution so far is at least an interval
      away from the next, if and only if every execution of the run is prompt. */
  lemma IntervalsKept(s: seq<Rec>, clocks: seq<int>, x: Rec)
    requires InDueOrder(s) && UniqueIds(s) && Lookup(s, x.id) == Some(x)
    requires x.interval > 0
    ensures (forall n: nat, more: seq<int> | n <= |clocks| ::
               GapsKept(RunClocks(s, clocks[..n] + more, x.id), |RunClocks(s, clocks[..n], x.id)|, x.interval))
            <==> PromptRun(x, clocks)
  {
    hide PromptRun, TurnClocks, RunClocks, GapsKept;
    forall n: nat, more: seq<int> | n <= |clocks| && PromptRun(x, clocks)
      ensures GapsKept(RunClocks(s, clocks[..n] + more, x.id), |RunClocks(s, clocks[..n], x.id)|, x.interval)
    {
      ClocksArePointwise(s, clocks[..n] + more, x.id);
      ClocksArePointwise(s, clocks[..n], x.id);
      PromptPrefix(x, clocks, n);
      PromptKeepsGaps(x, clocks[..n], more);
    }
    if !PromptRun(x, clocks) {
      var n, more := LateBreaksGaps(x, clocks);
      ClocksArePointwise(s, clocks[..n] + more, x.id);
      ClocksArePointwise(s, clocks[..n], x.id);
    }
  }

  lemma {:induction false} PromptPrefix(x: Rec, clocks: seq<int>, n: nat)
    requires x.interval > 0 && n <= |clocks| && PromptRun(x, clocks)
    ensures PromptRun(x, clocks[..n])
    decreases n
  {
    hide Prompt, NextTime;
    if n > 0 {
      PromptPrefix(x.(time := NextTime(x, clocks[0])), clocks[1..], n - 1);
      assert clocks[..n][1..] == clocks[1..][..n - 1];
    }
  }
}
