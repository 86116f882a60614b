/** Sequence numbers of symmetric chunks (section 6.7.2.4 of OPC UA Part 6): which numbers a receiver
    accepts, how long it takes until a number can be accepted again, and why a sender that counts
    up by one is always accepted. */
module SequenceNumbers {
  import opened Words

  const ROLLOVER := 4294966271

  /** The number after n, as 32-bit counters have it. */
  function Next(n: UInt32): UInt32 {
    U32(n + 1)
  }

  /** The receiver takes the next number, or a number below 1024 once the next one is past the
      rollover mark. */
  predicate Accepts(last: UInt32, number: UInt32) {
    number == Next(last) || (Next(last) > ROLLOVER && number < 1024)
  }

  /** Every number of the list is accepted in turn. */
  predicate AcceptsAll(last: UInt32, numbers: seq<UInt32>)
    decreases |numbers|
  {
    numbers == [] || (Accepts(last, numbers[0]) && AcceptsAll(numbers[0], numbers[1..]))
  }

  /** The least number of acceptances that lead from one number to another. */
  function Distance(n: UInt32, m: UInt32): nat {
    if n <= m then m - n
    else (if n < ROLLOVER then ROLLOVER - n else 0) + 1 + if m > 1023 then m - 1023 else 0
  }

  lemma StepNoFaster(last: UInt32, number: UInt32, target: UInt32)
    requires Accepts(last, number)
    ensures Distance(last, target) <= 1 + Distance(number, target)
  {
  }

  lemma {:induction false} NoFaster(last: UInt32, numbers: seq<UInt32>, i: nat)
    requires AcceptsAll(last, numbers) && i < |numbers|
    ensures Distance(last, numbers[i]) <= i + 1
    decreases i
  {
    StepNoFaster(last, numbers[0], numbers[i]);
    if i > 0 {
      NoFaster(numbers[0], numbers[1..], i - 1);
    }
  }

  lemma {:induction false} Suffix(last: UInt32, numbers: seq<UInt32>, i: nat)
    requires AcceptsAll(last, numbers) && i < |numbers|
    ensures AcceptsAll(numbers[i], numbers[i + 1..])
    decreases i
  {
    if i > 0 {
      Suffix(numbers[0], numbers[1..], i - 1);
      assert numbers[1..][i..] == numbers[i + 1..];
    }
  }

  /** In any run of accepted chunks, the same number comes again only after at least
      4294965249 acceptances. */
  lemma RepeatsAreFar(last: UInt32, numbers: seq<UInt32>, i: nat, j: nat)
    requires AcceptsAll(last, numbers) && i < j < |numbers| && numbers[i] == numbers[j]
    ensures j - i >= 4294965249
  {
    Suffix(last, numbers, i);
    var n, rest := numbers[i], numbers[i + 1..];
    assert rest[0] == numbers[i + 1] && rest[j - i - 1] == numbers[j];
    if j > i + 1 {
      NoFaster(rest[0], rest[1..], j - i - 2);
      assert rest[1..][j - i - 2] == n;
    }
    FirstStep(n, rest[0]);
  }

  /** Leaving a number makes it that far away. */
  lemma FirstStep(n: UInt32, number: UInt32)
    requires Accepts(n, number)
    ensures number != n && 1 + Distance(number, n) >= 4294965249
  {
  }

  /** The numbers from n, counted up by one. */
  function CountUp(n: UInt32, length: nat): (r: seq<UInt32>)
    ensures |r| == length
    decreases length
  {
    if length == 0 then [] else [n] + CountUp(Next(n), length - 1)
  }

  lemma Onwards(n: UInt32, i: nat)
    requires i > 0
    ensures U32(Next(n) + (i - 1)) == U32(n + i)
  {
  }

  lemma {:induction false} CountUpAt(n: UInt32, length: nat, i: nat)
    requires i < length
    ensures CountUp(n, length)[i] == U32(n + i)
    decreases i
  {
    hide U32;
    if i > 0 {
      CountUpAt(Next(n), length - 1, i - 1);
      Onwards(n, i);
    } else {
      Fits(n);
    }
  }

  /** A sender that counts up by one, with or without wrapping around at 2^32, is never rejected. */
  lemma {:induction false} CountingIsAccepted(last: UInt32, length: nat)
    ensures AcceptsAll(last, CountUp(Next(last), length))
    decreases length
  {
    if length > 0 {
      CountingIsAccepted(Next(last), length - 1);
    }
  }

  lemma {:induction false} AcceptsMore(last: UInt32, numbers: seq<UInt32>, number: UInt32)
    requires numbers != [] && AcceptsAll(last, numbers) && Accepts(numbers[|numbers| - 1], number)
    ensures AcceptsAll(last, numbers + [number])
    decreases |numbers|
  {
    if |numbers| > 1 {
      AcceptsMore(numbers[0], numbers[1..], number);
      assert (numbers + [number])[1..] == numbers[1..] + [number];
    } else {
      assert (numbers + [number])[1..] == [number];
    }
  }

  /** The bound is tight: from 1023 straight up to the rollover mark and back. */
  lemma RepeatAtTheBound() returns (numbers: seq<UInt32>)
    ensures AcceptsAll(1022, numbers) && |numbers| == 4294965250
    ensures numbers[0] == numbers[4294965249] == 1023
  {
    var up := CountUp(1023, 4294965249);
    CountingIsAccepted(1022, 4294965249);
    CountUpAt(1023, 4294965249, 0);
    CountUpAt(1023, 4294965249, 4294965248);
    AcceptsMore(1022, up, 1023);
    numbers := up + [1023];
  }
}
