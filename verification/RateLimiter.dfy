/** The token bucket (src/distributed_cluster/__init__.py, TokenBucketRateLimiter), over reals.
    The lock is held through the sleep, so acquisitions are one after another. */
module RateLimiter {
  import opened Common

  datatype Bucket = Bucket(tokens: real, lastUpdate: real)

  /** One call of `acquire`: the clock when it refills first, and the clock when it wakes up if
      it had to sleep. */
  datatype Call = Call(tokens: int, start: real, wake: real)

  /** What the rate allows in a span of time. */
  function Earned(rps: real, from: real, to: real): real {
    (to - from) * rps
  }

  function Refilled(b: Bucket, rps: real, burst: int, now: real): Bucket {
    Bucket(MinReal(burst as real, b.tokens + Earned(rps, b.lastUpdate, now)), now)
  }

  predicate Sleeps(b: Bucket, rps: real, burst: int, c: Call) {
    Refilled(b, rps, burst, c.start).tokens < c.tokens as real
  }

  function Acquired(b: Bucket, rps: real, burst: int, c: Call): Bucket {
    var b1 := Refilled(b, rps, burst, c.start);
    var b2 := if Sleeps(b, rps, burst, c) then Refilled(b1, rps, burst, c.wake) else b1;
    b2.(tokens := b2.tokens - c.tokens as real)
  }

  /** The bucket after a whole run. */
  function After(b: Bucket, rps: real, burst: int, calls: seq<Call>): Bucket
    decreases |calls|
  {
    if calls == [] then b else After(Acquired(b, rps, burst, calls[0]), rps, burst, calls[1..])
  }

  /** The clock never goes back, and a sleep lasts at least as long as was asked. */
  ghost predicate Timely(b: Bucket, rps: real, burst: int, c: Call)
    requires rps > 0.0
  {
    && b.lastUpdate <= c.start
    && (Sleeps(b, rps, burst, c) ==>
          c.wake >= c.start + (c.tokens as real - Refilled(b, rps, burst, c.start).tokens) / rps)
  }

  ghost predicate TimelyRun(b: Bucket, rps: real, burst: int, calls: seq<Call>)
    requires rps > 0.0
    decreases |calls|
  {
    calls == []
    || (Timely(b, rps, burst, calls[0]) && TimelyRun(Acquired(b, rps, burst, calls[0]), rps, burst, calls[1..]))
  }

  /** When the i-th call is granted: the clock of its last refill. */
  function GrantTime(b: Bucket, rps: real, burst: int, calls: seq<Call>, i: nat): real
    requires i < |calls|
    decreases i
  {
    var b' := Acquired(b, rps, burst, calls[0]);
    if i == 0 then b'.lastUpdate else GrantTime(b', rps, burst, calls[1..], i - 1)
  }

  /** Tokens granted by calls i..j, both included. */
  function Granted(calls: seq<Call>, i: nat, j: nat): int
    requires i <= j < |calls|
    decreases j - i
  {
    calls[i].tokens + if i == j then 0 else Granted(calls, i + 1, j)
  }

  lemma EarnedExactly(rps: real, from: real, to: real, elapsed: real)
    requires elapsed == to - from
    ensures elapsed * rps == (to - from) * rps == Earned(rps, from, to)
  {
  }

  lemma EarnedAdds(rps: real, a: real, b: real, c: real)
    ensures Earned(rps, a, b) + Earned(rps, b, c) == Earned(rps, a, c)
  {
  }

  lemma EarnedGrows(rps: real, a: real, b: real, c: real)
    requires rps > 0.0 && b <= c
    ensures Earned(rps, a, b) <= Earned(rps, a, c)
  {
    assert (c - b) * rps >= 0.0;
  }

  lemma DivMul(a: real, r: real)
    requires r > 0.0
    ensures (a / r) * r == a
    ensures a > 0.0 <==> a / r > 0.0
  {
    var q := a / r;
    assert q * r == a;
    if q > 0.0 {
      assert q * r > 0.0;
    } else {
      assert (-q) * r >= 0.0;
    }
  }

  /** Sleeping as long as asked earns the missing tokens. */
  lemma SleepEarns(missing: real, rps: real, start: real, wake: real)
    requires rps > 0.0 && missing > 0.0 && wake >= start + missing / rps
    ensures start <= wake && Earned(rps, start, wake) >= missing
  {
    DivMul(missing, rps);
    EarnedGrows(rps, start, start + missing / rps, wake);
  }

  /** One acquisition: the clock moves forward, no more than the elapsed time is refilled, and
      the bucket is never left in debt beyond the part of the request above the burst size. */
  lemma AcquireBounds(b: Bucket, rps: real, burst: int, c: Call)
    requires rps > 0.0 && Timely(b, rps, burst, c)
    ensures var a := Acquired(b, rps, burst, c);
            && b.lastUpdate <= a.lastUpdate
            && a.tokens + c.tokens as real <= burst as real
            && a.tokens + c.tokens as real <= b.tokens + Earned(rps, b.lastUpdate, a.lastUpdate)
            && a.tokens >= MinReal(0.0, (burst - c.tokens) as real)
  {
    var b1 := Refilled(b, rps, burst, c.start);
    if Sleeps(b, rps, burst, c) {
      SleepEarns(c.tokens as real - b1.tokens, rps, c.start, c.wake);
      EarnedAdds(rps, b.lastUpdate, c.start, c.wake);
    }
  }

  lemma {:induction false} GrantedTail(calls: seq<Call>, i: nat, j: nat)
    requires i < j < |calls|
    ensures Granted(calls, i + 1, j) == Granted(calls[1..], i, j - 1)
    decreases j - i
  {
    if i + 1 >= j {
    } else {
      GrantedTail(calls, i + 1, j);
    }
  }

  /** A window that starts with the first call of the run. */
  lemma {:induction false} WindowFromFirst(b: Bucket, rps: real, burst: int, calls: seq<Call>, j: nat, room: real)
    requires rps > 0.0 && TimelyRun(b, rps, burst, calls) && j < |calls|
    requires calls[0].tokens as real + Acquired(b, rps, burst, calls[0]).tokens <= room
    ensures Granted(calls, 0, j) as real
         <= room - MinReal(0.0, (burst - calls[j].tokens) as real)
            + Earned(rps, GrantTime(b, rps, burst, calls, 0), GrantTime(b, rps, burst, calls, j))
    decreases j
  {
    var b' := Acquired(b, rps, burst, calls[0]);
    AcquireBounds(b, rps, burst, calls[0]);
    if j == 0 {
    } else {
      var rest := calls[1..];
      AcquireBounds(b', rps, burst, rest[0]);
      var t0, t1 := b'.lastUpdate, Acquired(b', rps, burst, rest[0]).lastUpdate;
      WindowFromFirst(b', rps, burst, rest, j - 1, b'.tokens + Earned(rps, t0, t1));
      GrantedTail(calls, 0, j);
      EarnedAdds(rps, t0, t1, GrantTime(b', rps, burst, rest, j - 1));
    }
  }

  lemma {:induction false} WindowEarns(b: Bucket, rps: real, burst: int, calls: seq<Call>, i: nat, j: nat)
    requires rps > 0.0 && TimelyRun(b, rps, burst, calls) && i <= j < |calls|
    ensures Granted(calls, i, j) as real
         <= Max(burst, calls[j].tokens) as real
            + Earned(rps, GrantTime(b, rps, burst, calls, i), GrantTime(b, rps, burst, calls, j))
    decreases i
  {
    if i == 0 {
      AcquireBounds(b, rps, burst, calls[0]);
      WindowFromFirst(b, rps, burst, calls, j, burst as real);
    } else {
      GrantedTail(calls, i - 1, j);
      WindowEarns(Acquired(b, rps, burst, calls[0]), rps, burst, calls[1..], i - 1, j - 1);
    }
  }

  /** Main result, for requests of any size: the tokens granted from call i to call j total at
      most the larger of the burst size and the last request, plus the rate times the time between
      the two grants. */
  lemma WindowBound(b: Bucket, rps: real, burst: int, calls: seq<Call>, i: nat, j: nat)
    requires rps > 0.0 && TimelyRun(b, rps, burst, calls) && i <= j < |calls|
    ensures Granted(calls, i, j) as real
         <= Max(burst, calls[j].tokens) as real
            + (GrantTime(b, rps, burst, calls, j) - GrantTime(b, rps, burst, calls, i)) * rps
  {
    WindowEarns(b, rps, burst, calls, i, j);
  }

  /** A window within the advertised limit, burst + rate * time. */
  predicate WithinLimit(b: Bucket, rps: real, burst: int, calls: seq<Call>, i: nat, j: nat)
    requires i <= j < |calls|
  {
    Granted(calls, i, j) as real
    <= burst as real + (GrantTime(b, rps, burst, calls, j) - GrantTime(b, rps, burst, calls, i)) * rps
  }

  /** The advertised limit holds for every window of a run exactly when no request of the run is
      larger than the burst size. */
  lemma LimitHeldExactly(b: Bucket, rps: real, burst: int, calls: seq<Call>)
    requires rps > 0.0 && TimelyRun(b, rps, burst, calls)
    ensures (forall i: nat, j: nat :: i <= j < |calls| ==> WithinLimit(b, rps, burst, calls, i, j))
       <==> (forall k :: 0 <= k < |calls| ==> calls[k].tokens <= burst)
  {
    forall i: nat, j: nat | i <= j < |calls| && calls[j].tokens <= burst
      ensures WithinLimit(b, rps, burst, calls, i, j)
    {
      WindowBound(b, rps, burst, calls, i, j);
    }
    forall k: nat | k < |calls| && calls[k].tokens > burst
      ensures !WithinLimit(b, rps, burst, calls, k, k)
    {
      var granted := GrantTime(b, rps, burst, calls, k);
      EarnedAdds(rps, granted, granted, granted);
    }
  }

  /** Between calls the bucket stays within [0, burst] as long as requests are within [0, burst]. */
  lemma {:induction false} TokensInRange(b: Bucket, rps: real, burst: int, calls: seq<Call>)
    requires rps > 0.0 && TimelyRun(b, rps, burst, calls) && 0.0 <= b.tokens <= burst as real
    requires forall k :: 0 <= k < |calls| ==> 0 <= calls[k].tokens <= burst
    ensures 0.0 <= After(b, rps, burst, calls).tokens <= burst as real
    decreases |calls|
  {
    if calls == [] {
    } else {
      AcquireBounds(b, rps, burst, calls[0]);
      TokensInRange(Acquired(b, rps, burst, calls[0]), rps, burst, calls[1..]);
    }
  }

  /** Tokens granted by call i and all later ones. */
  function GrantedFrom(calls: seq<Call>, i: nat): int
    requires i <= |calls|
    decreases |calls| - i
  {
    if i == |calls| then 0 else calls[i].tokens + GrantedFrom(calls, i + 1)
  }

  /** The window from grant i to a grant of `need` tokens at time `s` breaks the limit. */
  predicate Exceeds(b: Bucket, rps: real, burst: int, calls: seq<Call>, s: real, need: int, i: nat)
    requires i < |calls|
  {
    (GrantedFrom(calls, i) + need) as real > burst as real + (s - GrantTime(b, rps, burst, calls, i)) * rps
  }

  /** The window reaching back to the start of the run, where `b` held its tokens. */
  predicate ExceedsStart(b: Bucket, rps: real, calls: seq<Call>, s: real, need: int) {
    (GrantedFrom(calls, 0) + need) as real > b.tokens + (s - b.lastUpdate) * rps
  }

  /** Granting `need` more tokens at time `s` would break the limit of some window: of the new
      request alone, of one that starts with an earlier grant, or of the whole run. */
  ghost predicate WouldExceed(b: Bucket, rps: real, burst: int, calls: seq<Call>, s: real, need: int) {
    || need > burst
    || (exists i: nat :: i < |calls| && Exceeds(b, rps, burst, calls, s, need, i))
    || ExceedsStart(b, rps, calls, s, need)
  }

  lemma {:induction false} GrantedFromTail(calls: seq<Call>, i: nat)
    requires i < |calls|
    ensures GrantedFrom(calls, i + 1) == GrantedFrom(calls[1..], i)
    decreases |calls| - i
  {
    if i + 1 >= |calls| {
    } else {
      GrantedFromTail(calls, i + 1);
    }
  }

  /** A call within the burst size is capped only by its last refill. */
  lemma OneCap(b: Bucket, rps: real, burst: int, c: Call)
    requires c.tokens <= burst
    ensures var a := Acquired(b, rps, burst, c);
            a.tokens == MinReal(burst as real, b.tokens + Earned(rps, b.lastUpdate, a.lastUpdate)) - c.tokens as real
  {
    if Sleeps(b, rps, burst, c) {
      EarnedAdds(rps, b.lastUpdate, c.start, c.wake);
    }
  }

  lemma ExceedsShift(b: Bucket, rps: real, burst: int, calls: seq<Call>, s: real, need: int, i: nat)
    requires i + 1 < |calls|
    ensures Exceeds(b, rps, burst, calls, s, need, i + 1)
       <==> Exceeds(Acquired(b, rps, burst, calls[0]), rps, burst, calls[1..], s, need, i)
  {
    GrantedFromTail(calls, i + 1);
    GrantedFromTail(calls, i);
  }

  /** The windows of a run are those of its tail and the one that starts with its first call. */
  lemma WindowsShift(b: Bucket, rps: real, burst: int, calls: seq<Call>, s: real, need: int)
    requires calls != []
    ensures (exists i: nat :: i < |calls| && Exceeds(b, rps, burst, calls, s, need, i))
       <==> || Exceeds(b, rps, burst, calls, s, need, 0)
            || (exists i: nat :: i < |calls[1..]| &&
                  Exceeds(Acquired(b, rps, burst, calls[0]), rps, burst, calls[1..], s, need, i))
  {
    forall i: nat | i < |calls[1..]|
      ensures Exceeds(b, rps, burst, calls, s, need, i + 1)
         <==> Exceeds(Acquired(b, rps, burst, calls[0]), rps, burst, calls[1..], s, need, i)
    {
      ExceedsShift(b, rps, burst, calls, s, need, i);
    }
    if i: nat :| i < |calls| && Exceeds(b, rps, burst, calls, s, need, i) {
      if i > 0 {
        ExceedsShift(b, rps, burst, calls, s, need, i - 1);
        assert i - 1 < |calls[1..]|;
        assert Exceeds(Acquired(b, rps, burst, calls[0]), rps, burst, calls[1..], s, need, i - 1);
      }
    }
  }

  /** The first call is in every window that reaches back to it or to the start. */
  lemma FirstCallCounts(b: Bucket, rps: real, burst: int, calls: seq<Call>, s: real, need: int)
    requires calls != [] && calls[0].tokens <= burst
    ensures ExceedsStart(Acquired(b, rps, burst, calls[0]), rps, calls[1..], s, need)
       <==> Exceeds(b, rps, burst, calls, s, need, 0) || ExceedsStart(b, rps, calls, s, need)
  {
    var b' := Acquired(b, rps, burst, calls[0]);
    OneCap(b, rps, burst, calls[0]);
    EarnedAdds(rps, b.lastUpdate, b'.lastUpdate, s);
    GrantedFromTail(calls, 0);
  }

  lemma {:induction false} TokensAreTheTightestWindow(b: Bucket, rps: real, burst: int, calls: seq<Call>, s: real,
                                                      need: int)
    requires forall c :: c in calls ==> c.tokens <= burst
    ensures Refilled(After(b, rps, burst, calls), rps, burst, s).tokens < need as real
       <==> WouldExceed(b, rps, burst, calls, s, need)
    decreases |calls|
  {
    if calls == [] {
    } else {
      assert calls[0] in calls;
      assert forall x :: x in calls[1..] ==> x in calls;
      TokensAreTheTightestWindow(Acquired(b, rps, burst, calls[0]), rps, burst, calls[1..], s, need);
      FirstCallCounts(b, rps, burst, calls, s, need);
      WindowsShift(b, rps, burst, calls, s, need);
    }
  }

  /** Main result: the limiter never makes a caller wait without need. After any calls within
      the burst size, a further call sleeps exactly when granting it on arrival would break the
      advertised limit of some window ending with it. */
  lemma SleepsExactly(b: Bucket, rps: real, burst: int, calls: seq<Call>, c: Call)
    requires forall x :: x in calls ==> x.tokens <= burst
    ensures Sleeps(After(b, rps, burst, calls), rps, burst, c) <==> WouldExceed(b, rps, burst, calls, c.start, c.tokens)
  {
    TokensAreTheTightestWindow(b, rps, burst, calls, c.start, c.tokens);
  }

  class TokenBucketRateLimiter {
    const rps: real
    const burst: int
    var tokens: real
    var lastUpdate: real

    ghost function View(): Bucket
      reads this
    {
      Bucket(tokens, lastUpdate)
    }

    constructor (rps: real, burst: int, now: real)
      ensures View() == Bucket(burst as real, now)
      ensures this.rps == rps && this.burst == burst
    {
      this.rps, this.burst, tokens, lastUpdate := rps, burst, burst as real, now;
    }

    method Refill(now: real)
      modifies this`tokens, this`lastUpdate
      ensures View() == Refilled(old(View()), rps, burst, now)
      ensures lastUpdate == now
      ensures tokens == MinReal(burst as real, old(tokens) + (now - old(lastUpdate)) * rps)
    {
      var elapsed := now - lastUpdate;
      EarnedExactly(rps, lastUpdate, now, elapsed);
      lastUpdate := now;
      tokens := MinReal(burst as real, tokens + elapsed * rps);
    }

    /** `wait` is the sleep asked for, 0 when the tokens were there; the caller supplies the
        clock on waking. None stands for the ZeroDivisionError of having to wait at rate 0, which
        leaves the bucket refilled and grants nothing. */
    method Acquire(c: Call) returns (wait: Option<real>)
      modifies this`tokens, this`lastUpdate
      ensures wait.None? <==> Sleeps(old(View()), rps, burst, c) && rps == 0.0
      ensures View() == if wait.None? then Refilled(old(View()), rps, burst, c.start)
                        else Acquired(old(View()), rps, burst, c)
      ensures !Sleeps(old(View()), rps, burst, c) ==> wait == Some(0.0)
      ensures Sleeps(old(View()), rps, burst, c) && rps != 0.0 ==>
                wait.value * rps == c.tokens as real - Refilled(old(View()), rps, burst, c.start).tokens
      ensures Sleeps(old(View()), rps, burst, c) && rps > 0.0 ==> wait.value > 0.0
    {
      Refill(c.start);
      if tokens >= c.tokens as real {
        tokens := tokens - c.tokens as real;
        return Some(0.0);
      }
      if rps == 0.0 {
        return None;
      }
      wait := Some((c.tokens as real - tokens) / rps);
      if rps > 0.0 {
        DivMul(c.tokens as real - tokens, rps);
      }
      Refill(c.wake);
      tokens := tokens - c.tokens as real;
    }
  }
}
