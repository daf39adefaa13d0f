/** Requests per second over a sliding window: an atomic counter that requests increment, and a
    ticker that moves it into a ring of 60 samples with a running total. */
module RateWindow {
  const WINDOW_SIZE: nat := 60
  const HALF: int := 0x8000_0000_0000_0000

  type Int64 = n: int | -0x8000_0000_0000_0000 <= n < 0x8000_0000_0000_0000

  /** Arithmetic on int64 wraps around: multiples of 2^64 are taken off until the number fits. */
  function Wrap(n: int): Int64
    decreases if n < 0 then -n else n + 1
  {
    if n < -HALF then Wrap(n + 2 * HALF)
    else if n >= HALF then Wrap(n - 2 * HALF)
    else n
  }

  lemma {:induction false} WrapIsModular(n: int) returns (k: int)
    ensures Wrap(n) == n + 2 * HALF * k
    decreases if n < 0 then -n else n + 1
  {
    k := 0;
    if n < -HALF {
      k := WrapIsModular(n + 2 * HALF);
      k := k + 1;
    } else if n >= HALF {
      k := WrapIsModular(n - 2 * HALF);
      k := k - 1;
    }
  }

  lemma WrapSmall(n: Int64)
    ensures Wrap(n) == n
  {
  }

  lemma WrapOnce(n: int)
    ensures Wrap(n + 2 * HALF) == Wrap(n)
  {
  }

  lemma {:induction false} WrapOfSum(x: int, y: int)
    ensures Wrap(Wrap(x) + y) == Wrap(x + y)
    decreases if x < 0 then -x else x + 1
  {
    if x < -HALF {
      WrapOfSum(x + 2 * HALF, y);
      WrapOnce(x + y);
    } else if x >= HALF {
      WrapOfSum(x - 2 * HALF, y);
      WrapOnce(x - 2 * HALF + y);
    }
  }

  function Sum(s: seq<Int64>): int {
    if s == [] then 0 else Sum(s[..|s| - 1]) + s[|s| - 1]
  }

  /** The samples that a reader is meant to see: the last 60, or all there are. */
  function Window(samples: seq<Int64>): seq<Int64> {
    if |samples| <= WINDOW_SIZE then samples else samples[|samples| - WINDOW_SIZE..]
  }

  /** Requests per second, as read from the running total. */
  function Mean(samples: seq<Int64>): real {
    Wrap(Sum(Window(samples))) as real / 60.0
  }

  lemma {:induction false} SumOfTail(s: seq<Int64>)
    requires s != []
    ensures Sum(s) == s[0] + Sum(s[1..])
  {
    if |s| > 1 {
      SumOfTail(s[..|s| - 1]);
      assert s[..|s| - 1][1..] == s[1..][..|s| - 2];
    }
  }

  /** Sliding the window by one sample. */
  lemma WindowSlides(samples: seq<Int64>, x: Int64)
    ensures var gone := if |samples| < WINDOW_SIZE then 0 else samples[|samples| - WINDOW_SIZE];
            Sum(Window(samples + [x])) == Sum(Window(samples)) - gone + x
  {
    var w := Window(samples);
    assert (w + [x])[..|w|] == w;
    if |samples| < WINDOW_SIZE {
      assert Window(samples + [x]) == w + [x];
    } else {
      SumOfTail(w);
      assert Window(samples + [x]) == w[1..] + [x];
      assert (w[1..] + [x])[..|w| - 1] == w[1..];
    }
  }

  lemma {:induction false} SumOfNonNegatives(s: seq<Int64>, k: nat)
    requires k <= |s| && forall i :: 0 <= i < |s| ==> s[i] >= 0
    ensures 0 <= Sum(s[k..]) <= Sum(s)
    decreases |s|
  {
    assert s[0..] == s;
    if k < |s| {
      SumOfTail(s[k..]);
      SumOfNonNegatives(s[1..], if k == 0 then 0 else k - 1);
      SumOfTail(s);
      assert k > 0 ==> s[1..][k - 1..] == s[k..];
      assert s[1..][0..] == s[1..];
    } else if s != [] {
      SumOfNonNegatives(s[1..], |s| - 1);
      SumOfTail(s);
    }
  }

  /** A ring of 60 holds the last samples: this round's before the index, the previous round's after it. */
  predicate RingHolds(ring: seq<Int64>, idx: nat, samples: seq<Int64>, rounds: nat) {
    && |ring| == WINDOW_SIZE && idx < WINDOW_SIZE
    && |samples| == WINDOW_SIZE * rounds + idx
    && (forall k :: 0 <= k < idx ==> ring[k] == samples[WINDOW_SIZE * rounds + k])
    && (forall k :: idx <= k < WINDOW_SIZE ==>
          ring[k] == if rounds == 0 then 0 else samples[WINDOW_SIZE * (rounds - 1) + k])
  }

  /** The sample under the index is the one that leaves the window. */
  lemma RingOldest(ring: seq<Int64>, idx: nat, samples: seq<Int64>, rounds: nat)
    requires RingHolds(ring, idx, samples, rounds)
    ensures ring[idx] == if |samples| < WINDOW_SIZE then 0 else samples[|samples| - WINDOW_SIZE]
  {
  }

  lemma RingRecords(ring: seq<Int64>, idx: nat, samples: seq<Int64>, rounds: nat, x: Int64, next: nat, rounds': nat)
    requires RingHolds(ring, idx, samples, rounds)
    requires next == (idx + 1) % WINDOW_SIZE && rounds' == if next == 0 then rounds + 1 else rounds
    ensures RingHolds(ring[idx := x], next, samples + [x], rounds')
  {
  }

  /** No request is lost between the counter, the ticker's sample in flight and the recorded samples. */
  predicate NothingLost(served: nat, curr: Int64, inFlight: Int64, samples: seq<Int64>) {
    && Wrap(served) == Wrap(curr + inFlight + Sum(samples))
    && (served < HALF ==>
          && curr >= 0 && inFlight >= 0 && (forall k :: 0 <= k < |samples| ==> samples[k] >= 0)
          && curr + inFlight + Sum(samples) == served)
  }

  lemma RequestLosesNothing(served: nat, curr: Int64, inFlight: Int64, samples: seq<Int64>)
    requires NothingLost(served, curr, inFlight, samples)
    ensures NothingLost(served + 1, Wrap(curr + 1), inFlight, samples)
  {
    var rest := inFlight + Sum(samples);
    WrapOfSum(served, 1);
    WrapOfSum(curr + rest, 1);
    WrapOfSum(curr + 1, rest);
    if served + 1 < HALF {
      SumOfNonNegatives(samples, 0);
      assert samples[0..] == samples;
      WrapSmall(curr + 1);
    }
  }

  lemma RecordLosesNothing(served: nat, curr: Int64, inFlight: Int64, samples: seq<Int64>)
    requires NothingLost(served, curr, inFlight, samples)
    ensures NothingLost(served, curr, 0, samples + [inFlight])
  {
  }

  /** The two updates of the running total, each with wrap-around, slide the window. */
  lemma TotalSlides(samples: seq<Int64>, gone: int, x: Int64)
    requires gone == if |samples| < WINDOW_SIZE then 0 else samples[|samples| - WINDOW_SIZE]
    ensures Wrap(Wrap(Wrap(Sum(Window(samples))) - gone) + x) == Wrap(Sum(Window(samples + [x])))
  {
    var sum := Sum(Window(samples));
    WindowSlides(samples, x);
    WrapOfSum(sum, -gone);
    WrapOfSum(sum - gone, x);
  }

  lemma WindowIsLastSixty(samples: seq<Int64>)
    ensures Window(samples) == if |samples| <= 60 then samples else samples[|samples| - 60..]
    ensures |samples| == 60 ==> samples[|samples| - 60..] == samples
  {
  }

  lemma WindowIsBounded(samples: seq<Int64>)
    requires forall i :: 0 <= i < |samples| ==> samples[i] >= 0
    ensures 0 <= Sum(Window(samples)) <= Sum(samples)
  {
    SumOfNonNegatives(samples, if |samples| <= WINDOW_SIZE then 0 else |samples| - WINDOW_SIZE);
    assert samples[0..] == samples;
  }

  class Middleware {
    var curr: Int64
    const counts: array<Int64>
    var currentIdx: nat
    var total: Int64
    var inFlight: Int64            // the ticker's sample between its swap and its lock, 0 otherwise
    ghost var samples: seq<Int64>  // every sample ever recorded
    ghost var rounds: nat          // how often the ring has been filled
    ghost var served: nat          // requests so far

    ghost predicate Valid()
      reads this, counts
    {
      && RingHolds(counts[..], currentIdx, samples, rounds)
      && NothingLost(served, curr, inFlight, samples)
      && total == Wrap(Sum(Window(samples)))
    }

    constructor ()
      ensures Valid() && fresh(counts)
      ensures served == 0 && samples == [] && inFlight == 0
    {
      curr, currentIdx, total, inFlight := 0, 0, 0, 0;
      counts := new Int64[WINDOW_SIZE](_ => 0);
      samples, rounds, served := [], 0, 0;
    }

    /** The atomic increment of a request. */
    method ServeHTTP()
      requires Valid()
      modifies this`curr, this`served
      ensures Valid() && served == old(served) + 1
      ensures curr == Wrap(old(curr) + 1)
    {
      RequestLosesNothing(served, curr, inFlight, samples);
      curr := Wrap(curr + 1);
      served := served + 1;
    }

    /** The ticker takes the counter. */
    method Swap()
      requires Valid() && inFlight == 0
      modifies this`curr, this`inFlight
      ensures Valid() && curr == 0 && inFlight == old(curr)
    {
      inFlight, curr := curr, 0;
    }

    /** The ticker replaces the oldest sample, under the lock. */
    method Record()
      requires Valid()
      modifies this`total, this`currentIdx, this`inFlight, this`samples, this`rounds, counts
      ensures Valid() && inFlight == 0
      ensures samples == old(samples) + [old(inFlight)]
    {
      ghost var more := samples + [inFlight];
      RecordLosesNothing(served, curr, inFlight, samples);
      UpdateTotal();
      StoreSample();
      samples := more;
      inFlight := 0;
    }

    /** The sample under the index is the oldest one. */
    method UpdateTotal()
      requires RingHolds(counts[..], currentIdx, samples, rounds) && total == Wrap(Sum(Window(samples)))
      modifies this`total
      ensures total == Wrap(Sum(Window(samples + [inFlight])))
    {
      RingOldest(counts[..], currentIdx, samples, rounds);
      TotalSlides(samples, counts[currentIdx], inFlight);
      MoveTotal(Sum(Window(samples)), Sum(Window(samples + [inFlight])));
    }

    /** Under the lock: the oldest sample leaves the total, the new one enters it. */
    method MoveTotal(ghost before: int, ghost after: int)
      requires currentIdx < counts.Length && total == Wrap(before)
      requires Wrap(Wrap(Wrap(before) - counts[currentIdx]) + inFlight) == Wrap(after)
      modifies this`total
      ensures total == Wrap(after)
    {
      total := Wrap(total - counts[currentIdx]);
      total := Wrap(total + inFlight);
    }

    /** Under the lock: the new sample takes the oldest one's place. */
    method StoreSample()
      requires RingHolds(counts[..], currentIdx, samples, rounds)
      modifies this`currentIdx, this`rounds, counts
      ensures RingHolds(counts[..], currentIdx, samples + [inFlight], rounds)
    {
      ghost var ring, idx := counts[..], currentIdx;
      counts[currentIdx] := inFlight;
      currentIdx := (currentIdx + 1) % WINDOW_SIZE;
      ghost var rounds' := if currentIdx == 0 then rounds + 1 else rounds;
      RingRecords(ring, idx, samples, rounds, inFlight, currentIdx, rounds');
      rounds := rounds';
      assert counts[..] == ring[idx := inFlight];
    }

    /** Under the lock; the result is the mean over the window. */
    method GetRPS() returns (rps: real)
      requires Valid()
      ensures rps == Mean(samples)
      ensures |samples| <= 60 ==> rps == Wrap(Sum(samples)) as real / 60.0
      ensures |samples| >= 60 ==> rps == Wrap(Sum(samples[|samples| - 60..])) as real / 60.0
      ensures served < HALF ==> rps == Sum(Window(samples)) as real / 60.0 && 0.0 <= rps <= served as real / 60.0
    {
      WindowIsLastSixty(samples);
      if served < HALF {
        WindowIsBounded(samples);
      }
      rps := total as real / 60.0;
    }
  }

  datatype Step = Request | TickerSwaps | TickerRecords | Read

  function Requests(schedule: seq<Step>): nat {
    if schedule == [] then 0
    else Requests(schedule[..|schedule| - 1]) + (if schedule[|schedule| - 1].Request? then 1 else 0)
  }

  /** What a schedule leaves behind, with all samples kept; the ticker alternates between its two steps. */
  datatype History = History(curr: Int64, swapped: bool, inFlight: Int64, samples: seq<Int64>)

  function Next(h: History, step: Step): History {
    match step
    case Request => h.(curr := Wrap(h.curr + 1))
    case TickerSwaps => if h.swapped then h else History(0, true, h.curr, h.samples)
    case TickerRecords => if h.swapped then History(h.curr, false, 0, h.samples + [h.inFlight]) else h
    case Read => h
  }

  function After(schedule: seq<Step>): History {
    if schedule == [] then History(0, false, 0, []) else Next(After(schedule[..|schedule| - 1]), schedule[|schedule| - 1])
  }

  /** A read sees the mean over the window as the history is at that moment. */
  function Reading(h: History, step: Step): seq<real> {
    if step.Read? then [Mean(h.samples)] else []
  }

  function Readings(schedule: seq<Step>): seq<real> {
    if schedule == [] then []
    else
      var before := schedule[..|schedule| - 1];
      Readings(before) + Reading(After(before), schedule[|schedule| - 1])
  }

  lemma OneMoreStep(schedule: seq<Step>, i: nat)
    requires i < |schedule|
    ensures After(schedule[..i + 1]) == Next(After(schedule[..i]), schedule[i])
    ensures Readings(schedule[..i + 1]) == Readings(schedule[..i]) + Reading(After(schedule[..i]), schedule[i])
    ensures Requests(schedule[..i + 1]) == Requests(schedule[..i]) + if schedule[i].Request? then 1 else 0
  {
    assert schedule[..i + 1][..i] == schedule[..i];
  }

  /** Any schedule of requests, ticks and reads. */
  method Run(schedule: seq<Step>) returns (m: Middleware, readings: seq<real>)
    ensures fresh(m) && m.Valid()
    ensures readings == Readings(schedule) && m.samples == After(schedule).samples
    ensures m.served == Requests(schedule)
    ensures Requests(schedule) < HALF ==> m.curr + m.inFlight + Sum(m.samples) == Requests(schedule)
  {
    m := new Middleware();
    readings := [];
    var swapped := false;
    for i := 0 to |schedule|
      invariant fresh(m) && fresh(m.counts) && m.Valid() && (!swapped ==> m.inFlight == 0)
      invariant History(m.curr, swapped, m.inFlight, m.samples) == After(schedule[..i])
      invariant readings == Readings(schedule[..i]) && m.served == Requests(schedule[..i])
    {
      OneMoreStep(schedule, i);
      var seen: seq<real>;
      swapped, seen := Do(m, schedule[i], swapped, After(schedule[..i]));
      readings := readings + seen;
    }
    assert schedule[..|schedule|] == schedule;
  }

  /** One step of a schedule. */
  method Do(m: Middleware, step: Step, swapped: bool, ghost h: History) returns (swapped': bool, seen: seq<real>)
    requires m.Valid() && (!swapped ==> m.inFlight == 0) && h == History(m.curr, swapped, m.inFlight, m.samples)
    modifies m, m.counts
    ensures m.Valid() && (!swapped' ==> m.inFlight == 0)
    ensures History(m.curr, swapped', m.inFlight, m.samples) == Next(h, step) && seen == Reading(h, step)
    ensures m.served == old(m.served) + if step.Request? then 1 else 0
  {
    swapped', seen := swapped, [];
    match step {
      case Request => m.ServeHTTP();
      case Read =>
        var rps := m.GetRPS();
        seen := [rps];
      case _ => swapped' := Tick(m, step, swapped, h);
    }
  }

  method Tick(m: Middleware, step: Step, swapped: bool, ghost h: History) returns (swapped': bool)
    requires m.Valid() && (!swapped ==> m.inFlight == 0) && h == History(m.curr, swapped, m.inFlight, m.samples)
    requires step.TickerSwaps? || step.TickerRecords?
    modifies m, m.counts
    ensures m.Valid() && (!swapped' ==> m.inFlight == 0) && m.served == old(m.served)
    ensures History(m.curr, swapped', m.inFlight, m.samples) == Next(h, step)
  {
    if step.TickerSwaps? && !swapped {
      m.Swap();
      return true;
    }
    if step.TickerRecords? && swapped {
      m.Record();
      return false;
    }
    return swapped;
  }
}
