/**
  The sliding-window rate limiter (RateLimiter in code/go/pkg/p2p/p2p.go).

  Times are nanoseconds.  `Allow` forgets old messages for good, compacting its slice in place.
  Asking and recording are separate calls.  Main result: if the clock never runs backwards and at
  most `c` yeses are unused at any time, then no window of one second, anywhere in the run, holds more
  than limit - 1 + c messages, which is the limit if each message is recorded right after its yes;
  and some run reaches that number.
 */
module RateLimiting {

  const SECOND: nat := 1_000_000_000

  /** The times after `start`, in order. */
  function After(times: seq<int>, start: int): seq<int> {
    if times == [] then []
    else if times[|times| - 1] > start then After(times[..|times| - 1], start) + [times[|times| - 1]]
    else After(times[..|times| - 1], start)
  }

  /** How many of the times lie in (`low`, `high`]. */
  ghost function InWindow(times: seq<int>, low: int, high: int): nat {
    if times == [] then 0 else
      InWindow(times[..|times| - 1], low, high) + if low < times[|times| - 1] <= high then 1 else 0
  }

  /** How many of the times lie in the one-second window that ends at `t`. */
  ghost function LastSecond(times: seq<int>, t: int): nat {
    InWindow(times, t - 1_000_000_000, t)
  }

  class RateLimiter {
    const maxMessagesPerSecond: int
    var messages: seq<int>

    constructor (maxMessagesPerSecond: int)
      ensures this.maxMessagesPerSecond == maxMessagesPerSecond && messages == []
    {
      this.maxMessagesPerSecond := maxMessagesPerSecond;
      messages := [];
    }

    /** Keeps the messages of the last second, moving them to the front of the same slice. */
    method Allow(now: int) returns (allowed: bool)
      modifies this
      ensures messages == After(old(messages), now - 1_000_000_000)
      ensures allowed <==> |messages| < maxMessagesPerSecond
    {
      var windowStart := now - SECOND;
      var kept := 0;
      for i := 0 to |messages|
        invariant |messages| == |old(messages)| && kept <= i
        invariant messages[..kept] == After(old(messages)[..i], windowStart)
        invariant messages[i..] == old(messages)[i..]
      {
        var msgTime := messages[i];
        assert old(messages)[..i + 1][..i] == old(messages)[..i];
        assert msgTime == old(messages)[i] by {
          assert messages[i..][0] == old(messages)[i..][0];
        }
        if msgTime > windowStart {
          ghost var before := messages;
          messages := messages[kept := msgTime];
          assert messages[..kept + 1] == before[..kept] + [msgTime];
          kept := kept + 1;
        }
        assert messages[i + 1..] == old(messages)[i + 1..] by {
          assert messages[i + 1..] == old(messages)[i..][1..];
        }
      }
      assert old(messages)[..|messages|] == old(messages);
      messages := messages[..kept];
      return |messages| < maxMessagesPerSecond;
    }

    method Record(now: int)
      modifies this
      ensures messages == old(messages) + [now]
    {
      messages := messages + [now];
    }
  }

  // ---------- Runs ----------

  /** Asking and recording are separate calls; a yes that will not be used any more is abandoned. */
  datatype Event = Ask(time: int) | Record(time: int) | Abandon

  /**
    `messages` is the limiter's slice, `history` everything ever recorded, `clock` the last time
    read, `open` the number of yeses neither recorded nor abandoned.
   */
  datatype State = State(messages: seq<int>, history: seq<int>, clock: int, open: int)

  function Step(max: int, s: State, e: Event): State {
    match e
    case Ask(now) =>
      var kept := After(s.messages, now - SECOND);
      State(kept, s.history, now, if |kept| < max then s.open + 1 else s.open)
    case Record(now) => State(s.messages + [now], s.history + [now], now, s.open - 1)
    case Abandon => s.(open := s.open - 1)
  }

  /** The clock does not run backwards, a record or abandonment uses up a yes, and at most `c` are open. */
  predicate Allowed(max: int, c: nat, s: State, e: Event) {
    && (!e.Abandon? ==> s.clock <= e.time)
    && (!e.Ask? ==> s.open > 0)
    && Step(max, s, e).open <= c
  }

  function Run(max: int, start: int, events: seq<Event>): State {
    if events == [] then State([], [], start, 0)
    else Step(max, Run(max, start, events[..|events| - 1]), events[|events| - 1])
  }

  ghost predicate AllowedRun(max: int, c: nat, start: int, events: seq<Event>) {
    events == [] ||
    (AllowedRun(max, c, start, events[..|events| - 1])
     && Allowed(max, c, Run(max, start, events[..|events| - 1]), events[|events| - 1]))
  }

  // ---------- Counting ----------

  lemma {:induction false} AfterTwice(times: seq<int>, a: int, b: int)
    requires a <= b
    ensures After(After(times, a), b) == After(times, b)
  {
    if times != [] {
      var init, last := times[..|times| - 1], times[|times| - 1];
      AfterTwice(init, a, b);
      assert (After(init, a) + [last])[..|After(init, a)|] == After(init, a);
    }
  }

  lemma AfterSnoc(times: seq<int>, x: int, start: int)
    ensures After(times + [x], start) == if x > start then After(times, start) + [x] else After(times, start)
  {
    assert (times + [x])[..|times|] == times;
  }

  lemma InWindowSnoc(times: seq<int>, x: int, low: int, high: int)
    ensures InWindow(times + [x], low, high) == InWindow(times, low, high) + if low < x <= high then 1 else 0
  {
    assert (times + [x])[..|times|] == times;
  }

  ghost predicate NoneLater(times: seq<int>, clock: int) {
    forall i :: 0 <= i < |times| ==> times[i] <= clock
  }

  /** With nothing later than `high`, the window holds as many times as lie after `low`. */
  lemma {:induction false} WindowIsAfter(times: seq<int>, low: int, high: int)
    ensures InWindow(times, low, high) <= |After(times, low)|
    ensures NoneLater(times, high) ==> InWindow(times, low, high) == |After(times, low)|
  {
    if times != [] {
      assert NoneLater(times, high) ==> NoneLater(times[..|times| - 1], high);
      WindowIsAfter(times[..|times| - 1], low, high);
    }
  }

  lemma {:induction false} LaterStartHoldsLess(times: seq<int>, a: int, b: int)
    requires a <= b
    ensures |After(times, b)| <= |After(times, a)|
  {
    if times != [] {
      LaterStartHoldsLess(times[..|times| - 1], a, b);
    }
  }

  // ---------- Safety ----------

  /** The most records in a second: the limit, and one more for each yes beyond the first that can be open. */
  function Bound(max: int, c: nat): int {
    if max <= 0 || c == 0 then 0 else max - 1 + c
  }

  /**
    The slice holds all of the history that can still matter, what was recorded in the last second
    and what may still be recorded respect the bound, and so does every window.
   */
  ghost predicate Safe(max: int, c: nat, s: State) {
    && NoneLater(s.history, s.clock)
    && 0 <= s.open
    && (forall start :: start >= s.clock - SECOND ==> After(s.messages, start) == After(s.history, start))
    && |After(s.history, s.clock - SECOND)| + s.open <= Bound(max, c)
    && (forall t :: LastSecond(s.history, t) <= Bound(max, c))
  }

  lemma StepIsSafe(max: int, c: nat, s: State, e: Event)
    requires Safe(max, c, s) && Allowed(max, c, s, e)
    ensures Safe(max, c, Step(max, s, e))
  {
    hide LastSecond, After;
    match e
    case Ask(now) =>
      forall start | start >= now - SECOND ensures After(After(s.messages, now - SECOND), start) == After(s.history, start) {
        AfterTwice(s.messages, now - SECOND, start);
      }
      LaterStartHoldsLess(s.history, s.clock - SECOND, now - SECOND);
    case Record(now) =>
      forall start | start >= now - SECOND ensures After(s.messages + [now], start) == After(s.history + [now], start) {
        AfterSnoc(s.messages, now, start);
        AfterSnoc(s.history, now, start);
      }
      AfterSnoc(s.history, now, now - SECOND);
      LaterStartHoldsLess(s.history, s.clock - SECOND, now - SECOND);
      forall t ensures LastSecond(s.history + [now], t) <= Bound(max, c) {
        NewWindow(max, c, s, now, t);
      }
    case Abandon =>
  }

  /** A window with the new record holds besides it only records of the second before the clock. */
  lemma NewWindow(max: int, c: nat, s: State, now: int, t: int)
    requires Safe(max, c, s) && s.clock <= now && s.open > 0
    ensures LastSecond(s.history + [now], t) <= Bound(max, c)
  {
    InWindowSnoc(s.history, now, t - SECOND, t);
    assert LastSecond(s.history, t) <= Bound(max, c);
    if t - SECOND < now <= t {
      WindowIsAfter(s.history, t - SECOND, t);
      LaterStartHoldsLess(s.history, s.clock - SECOND, t - SECOND);
    }
  }

  lemma {:induction false} RunIsSafe(max: int, c: nat, start: int, events: seq<Event>)
    requires AllowedRun(max, c, start, events)
    ensures Safe(max, c, Run(max, start, events))
  {
    if events != [] {
      RunIsSafe(max, c, start, events[..|events| - 1]);
      StepIsSafe(max, c, Run(max, start, events[..|events| - 1]), events[|events| - 1]);
    }
  }

  /** With at most `c` open yeses, no one-second window of any run holds more than limit - 1 + c records. */
  lemma WindowNeverExceedsBound(max: int, c: nat, start: int, events: seq<Event>, t: int)
    requires AllowedRun(max, c, start, events)
    ensures LastSecond(Run(max, start, events).history, t) <= Bound(max, c)
  {
    RunIsSafe(max, c, start, events);
  }

  /** So the limit holds if no one asks while a yes is open, as when each record directly follows its yes. */
  lemma WindowNeverExceedsLimit(max: int, start: int, events: seq<Event>, t: int)
    requires AllowedRun(max, 1, start, events)
    ensures LastSecond(Run(max, start, events).history, t) <= if max < 0 then 0 else max
  {
    WindowNeverExceedsBound(max, 1, start, events, t);
  }

  // ---------- The bound is reached ----------

  /** `n` events of one kind in a row. */
  function Repeat(e: Event, n: nat): seq<Event> {
    if n == 0 then [] else Repeat(e, n - 1) + [e]
  }

  /** All at one time: first each record follows its yes, then `c` yeses come before `c` records. */
  function Burst(limit: nat, c: nat, t: int): seq<Event> {
    Pairs(limit, t) + Repeat(Ask(t), c) + Repeat(Record(t), c)
  }

  function Pairs(n: nat, t: int): seq<Event> {
    if n == 0 then [] else Pairs(n - 1, t) + [Ask(t)] + [Record(t)]
  }

  function Copies(n: nat, t: int): (ts: seq<int>)
    ensures |ts| == n
  {
    if n == 0 then [] else Copies(n - 1, t) + [t]
  }

  lemma {:induction false} CopiesFacts(n: nat, t: int)
    ensures After(Copies(n, t), t - SECOND) == Copies(n, t)
    ensures LastSecond(Copies(n, t), t) == n
  {
    if n > 0 {
      CopiesFacts(n - 1, t);
      AfterSnoc(Copies(n - 1, t), t, t - SECOND);
      InWindowSnoc(Copies(n - 1, t), t, t - SECOND, t);
    }
  }

  lemma RunSnoc(max: int, c: nat, start: int, events: seq<Event>, e: Event)
    ensures Run(max, start, events + [e]) == Step(max, Run(max, start, events), e)
    ensures AllowedRun(max, c, start, events + [e]) <==>
            AllowedRun(max, c, start, events) && Allowed(max, c, Run(max, start, events), e)
  {
    assert (events + [e])[..|events|] == events;
  }

  /** `n` records of the time `t` so far. */
  function Full(n: nat, t: int, open: int): State {
    State(Copies(n, t), Copies(n, t), t, open)
  }

  lemma FullSteps(max: int, c: nat, n: nat, t: int, open: nat)
    ensures n < max ==> Step(max, Full(n, t, open), Ask(t)) == Full(n, t, open + 1)
    ensures n < max && open < c ==> Allowed(max, c, Full(n, t, open), Ask(t))
    ensures Step(max, Full(n, t, open), Record(t)) == Full(n + 1, t, open - 1)
    ensures 0 < open <= c ==> Allowed(max, c, Full(n, t, open), Record(t))
  {
    hide After, LastSecond;
    CopiesFacts(n, t);
  }

  lemma EmptyRun(max: int, c: nat, t: int)
    ensures AllowedRun(max, c, t, []) && Run(max, t, []) == Full(0, t, 0)
  {
  }

  lemma {:induction false} PairsRun(max: int, c: nat, n: nat, t: int)
    requires n <= max && c > 0
    ensures AllowedRun(max, c, t, Pairs(n, t)) && Run(max, t, Pairs(n, t)) == Full(n, t, 0)
  {
    hide Run, AllowedRun, Step, Allowed, Full;
    EmptyRun(max, c, t);
    if n > 0 {
      PairsRun(max, c, n - 1, t);
      FullSteps(max, c, n - 1, t, 0);
      FullSteps(max, c, n - 1, t, 1);
      RunSnoc(max, c, t, Pairs(n - 1, t), Ask(t));
      RunSnoc(max, c, t, Pairs(n - 1, t) + [Ask(t)], Record(t));
    }
  }

  lemma {:induction false} AsksRun(max: int, c: nat, n: nat, k: nat, t: int)
    requires n < max && k <= c && c > 0
    ensures var events := Pairs(n, t) + Repeat(Ask(t), k);
      AllowedRun(max, c, t, events) && Run(max, t, events) == Full(n, t, k)
  {
    hide Run, AllowedRun, Step, Allowed, Full;
    if k == 0 {
      PairsRun(max, c, n, t);
      assert Pairs(n, t) + [] == Pairs(n, t);
    } else {
      AsksRun(max, c, n, k - 1, t);
      FullSteps(max, c, n, t, k - 1);
      RunSnoc(max, c, t, Pairs(n, t) + Repeat(Ask(t), k - 1), Ask(t));
      assert Pairs(n, t) + Repeat(Ask(t), k) == (Pairs(n, t) + Repeat(Ask(t), k - 1)) + [Ask(t)];
    }
  }

  lemma {:induction false} RecordsRun(max: int, c: nat, n: nat, k: nat, t: int)
    requires n < max && k <= c && c > 0
    ensures var events := Pairs(n, t) + Repeat(Ask(t), c) + Repeat(Record(t), k);
      AllowedRun(max, c, t, events) && Run(max, t, events) == Full(n + k, t, c - k)
  {
    hide Run, AllowedRun, Step, Allowed, Full;
    var asked := Pairs(n, t) + Repeat(Ask(t), c);
    if k == 0 {
      AsksRun(max, c, n, c, t);
      assert asked + [] == asked;
    } else {
      RecordsRun(max, c, n, k - 1, t);
      FullSteps(max, c, n + (k - 1), t, c - (k - 1));
      RunSnoc(max, c, t, asked + Repeat(Record(t), k - 1), Record(t));
      assert asked + Repeat(Record(t), k) == (asked + Repeat(Record(t), k - 1)) + [Record(t)];
    }
  }

  /** The bound is exact: for any positive limit and number of open yeses some run fills a window to it. */
  lemma BoundIsReached(max: int, c: nat, t: int)
    requires max > 0 && c > 0
    ensures AllowedRun(max, c, t, Burst(max - 1, c, t))
    ensures LastSecond(Run(max, t, Burst(max - 1, c, t)).history, t) == Bound(max, c)
  {
    hide Run, AllowedRun, LastSecond;
    RecordsRun(max, c, max - 1, c, t);
    CopiesFacts(max - 1 + c, t);
  }
}
