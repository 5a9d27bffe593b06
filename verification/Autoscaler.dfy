/** The auto-scaling manager (src/distributed_cluster/autoscaling/scaler.py). The fleet is the
    provider's worker count. The count the manager reads in each step is an input, because with a
    cluster state it is the number of healthy workers and not the fleet; so are the policy's
    answer and the provider's. */
module Autoscaler {
  import opened Common
  import opened ScalingPolicies

  datatype Config = Config(
    minWorkers: int,
    maxWorkers: int,
    maxUp: int,
    maxDown: int,
    cooldownUp: real,
    cooldownDown: real)

  /** `known` is `state.current_worker_count`, which only automatic cycles refresh. */
  datatype State = State(fleet: int, known: int, lastUp: Option<real>, lastDown: Option<real>)

  /** What the provider did with a request, `n` workers having come or gone; a raised exception
      may leave some of them behind but updates nothing in the manager. */
  datatype Answer = Success(n: int) | Raised(n: int) | NothingTerminable

  /** One critical section: an automatic cycle with its cooldown check at `start`, or a manual
      `scale_to`. Either may end in a provider call completed at `done`. */
  datatype Step =
    | Auto(decision: Decision, seen: int, start: real, done: real, answer: Answer)
    | NoMetrics
    | Manual(target: int, seen: int, start: real, done: real, answer: Answer)

  predicate InCooldown(cfg: Config, s: State, now: real) {
    || (s.lastUp.Some? && now - s.lastUp.value < cfg.cooldownUp)
    || (s.lastDown.Some? && now - s.lastDown.value < cfg.cooldownDown)
  }

  function UpCount(cfg: Config, s: State, requested: int): int {
    Min(Min(requested, cfg.maxUp), cfg.maxWorkers - s.known)
  }

  function DownCount(cfg: Config, s: State, requested: int): int {
    Min(Min(requested, cfg.maxDown), s.known - cfg.minWorkers)
  }

  function ScaledUp(cfg: Config, s: State, requested: int, answer: Answer, done: real): State {
    if UpCount(cfg, s, requested) <= 0 then s
    else match answer
      case Success(n) => s.(fleet := s.fleet + n, lastUp := Some(done))
      case Raised(n) => s.(fleet := s.fleet + n)
      case NothingTerminable => s
  }

  function ScaledDown(cfg: Config, s: State, requested: int, answer: Answer, done: real): State {
    if DownCount(cfg, s, requested) <= 0 then s
    else match answer
      case Success(n) => s.(fleet := s.fleet - n, lastDown := Some(done))
      case Raised(n) => s.(fleet := s.fleet - n)
      case NothingTerminable => s
  }

  function ClampTarget(cfg: Config, target: int): int {
    Max(cfg.minWorkers, Min(cfg.maxWorkers, target))
  }

  function Apply(cfg: Config, s: State, step: Step): State {
    match step
    case NoMetrics => s
    case Auto(d, seen, start, done, answer) =>
      var s1 := s.(known := seen);
      if InCooldown(cfg, s1, start) then s1
      else if d.direction == Up then ScaledUp(cfg, s1, d.count, answer, done)
      else if d.direction == Down then ScaledDown(cfg, s1, d.count, answer, done)
      else s1
    case Manual(target, seen, start, done, answer) =>
      var t := ClampTarget(cfg, target);
      if t > seen then ScaledUp(cfg, s, t - seen, answer, done)
      else if t < seen then ScaledDown(cfg, s, seen - t, answer, done)
      else s
  }

  /** The provider's side of the contract: it never creates or ends more workers than asked, nor
      ends workers that are not there. */
  predicate HonestAnswer(answer: Answer, most: int) {
    answer.NothingTerminable? || 0 <= answer.n <= Max(0, most)
  }

  predicate Honest(cfg: Config, s: State, step: Step) {
    match step
    case NoMetrics => true
    case Auto(d, seen, start, done, answer) =>
      var s1 := s.(known := seen);
      HonestAnswer(answer,
                   if d.direction == Up then UpCount(cfg, s1, d.count)
                   else Min(DownCount(cfg, s1, d.count), s.fleet))
    case Manual(target, seen, start, done, answer) =>
      var t := ClampTarget(cfg, target);
      HonestAnswer(answer, if t > seen then UpCount(cfg, s, t - seen) else Min(DownCount(cfg, s, seen - t), s.fleet))
  }

  function After(cfg: Config, s: State, run: seq<Step>): State
    decreases |run|
  {
    if run == [] then s else After(cfg, Apply(cfg, s, run[0]), run[1..])
  }

  ghost predicate HonestRun(cfg: Config, s: State, run: seq<Step>)
    decreases |run|
  {
    run == [] || (Honest(cfg, s, run[0]) && HonestRun(cfg, Apply(cfg, s, run[0]), run[1..]))
  }

  // ----- fleet bounds -----

  /** The count read misses at most `missing` workers of the fleet, unhealthy ones, and has at
      most `extra` that are not in it; without a cluster state both are 0. */
  predicate Sees(s: State, step: Step, missing: nat, extra: nat) {
    step.NoMetrics? || s.fleet - missing <= step.seen <= s.fleet + extra
  }

  ghost predicate AlwaysSees(cfg: Config, s: State, run: seq<Step>, missing: nat, extra: nat)
    decreases |run|
  {
    run == [] || (Sees(s, run[0], missing, extra) && AlwaysSees(cfg, Apply(cfg, s, run[0]), run[1..], missing, extra))
  }

  /** One step changes the fleet by no more than the per-cycle limits and leaves the configured
      range by no more than the count read is wrong, even when a manual step works from a stale
      count. */
  lemma StepStaysInRange(cfg: Config, s: State, step: Step, missing: nat, extra: nat)
    requires cfg.minWorkers <= cfg.maxWorkers && cfg.minWorkers - extra <= s.fleet <= cfg.maxWorkers + missing
    requires Sees(s, step, missing, extra) && Honest(cfg, s, step)
    ensures var f := Apply(cfg, s, step).fleet;
            && cfg.minWorkers - extra <= f <= cfg.maxWorkers + missing
            && s.fleet - Max(0, cfg.maxDown) <= f <= s.fleet + Max(0, cfg.maxUp)
            && (s.fleet >= 0 ==> f >= 0)
  {
  }

  /** Main result: any mix of automatic cycles and manual calls, under any policy, keeps the
      fleet within [minWorkers, maxWorkers] if the manager reads the fleet's own count, and
      within that range widened by the number of workers it miscounts if it does not. */
  lemma {:induction false} FleetInRange(cfg: Config, s: State, run: seq<Step>, missing: nat, extra: nat)
    requires cfg.minWorkers <= cfg.maxWorkers && cfg.minWorkers - extra <= s.fleet <= cfg.maxWorkers + missing
    requires AlwaysSees(cfg, s, run, missing, extra) && HonestRun(cfg, s, run)
    ensures cfg.minWorkers - extra <= After(cfg, s, run).fleet <= cfg.maxWorkers + missing
    decreases |run|
  {
    if run == [] {
    } else {
      StepStaysInRange(cfg, s, run[0], missing, extra);
      FleetInRange(cfg, Apply(cfg, s, run[0]), run[1..], missing, extra);
    }
  }

  /** What an automatic cycle does: nothing while less than either cooldown has passed since its stamp,
      and otherwise what the decision, the per-cycle limit and the range allow, as far as the provider
      delivers. Only a call that returns leaves a stamp. */
  lemma CycleActsExactly(cfg: Config, s: State, d: Decision, seen: int, start: real, done: real, answer: Answer)
    ensures var s' := Apply(cfg, s, Auto(d, seen, start, done, answer));
            var asked := if d.direction == Up then Min(Min(d.count, cfg.maxUp), cfg.maxWorkers - seen)
                         else Min(Min(d.count, cfg.maxDown), seen - cfg.minWorkers);
            var waits := || (s.lastUp.Some? && start < s.lastUp.value + cfg.cooldownUp)
                         || (s.lastDown.Some? && start < s.lastDown.value + cfg.cooldownDown);
            if waits || d.direction == NoChange || asked <= 0 || answer.NothingTerminable? then s' == s.(known := seen)
            else
              && s'.known == seen
              && s'.fleet == (if d.direction == Up then s.fleet + answer.n else s.fleet - answer.n)
              && s'.lastUp == (if d.direction == Up && answer.Success? then Some(done) else s.lastUp)
              && s'.lastDown == (if d.direction == Down && answer.Success? then Some(done) else s.lastDown)
  {
  }

  /** What a manual call does: it goes for the clamped target from the count it reads, within the
      per-cycle limit and what the count last known leaves of the range, in no need of a cooldown. */
  lemma ManualActsExactly(cfg: Config, s: State, target: int, seen: int, start: real, done: real, answer: Answer)
    requires cfg.minWorkers <= cfg.maxWorkers
    ensures var s' := Apply(cfg, s, Manual(target, seen, start, done, answer));
            var t := if target < cfg.minWorkers then cfg.minWorkers
                     else if target > cfg.maxWorkers then cfg.maxWorkers else target;
            var asked := if t > seen then Min(Min(t - seen, cfg.maxUp), cfg.maxWorkers - s.known)
                         else Min(Min(seen - t, cfg.maxDown), s.known - cfg.minWorkers);
            if t == seen || asked <= 0 || answer.NothingTerminable? then s' == s
            else
              && s'.known == s.known
              && s'.fleet == (if t > seen then s.fleet + answer.n else s.fleet - answer.n)
              && s'.lastUp == (if t > seen && answer.Success? then Some(done) else s.lastUp)
              && s'.lastDown == (if t < seen && answer.Success? then Some(done) else s.lastDown)
  {
  }

  /** A cycle outside the cooldowns whose provider delivers all it is asked for moves the count
      read as far as the decision, the per-cycle limit and the range allow, and stops at the first
      of the three. */
  lemma CycleMovesAsFarAsAllowed(cfg: Config, s: State, d: Decision, seen: int, start: real, done: real, answer: Answer)
    requires cfg.minWorkers <= seen <= cfg.maxWorkers && 0 <= d.count && 0 <= cfg.maxUp && 0 <= cfg.maxDown
    requires s.lastUp.Some? ==> start >= s.lastUp.value + cfg.cooldownUp
    requires s.lastDown.Some? ==> start >= s.lastDown.value + cfg.cooldownDown
    requires d.direction == Up ==> answer == Success(Min(Min(d.count, cfg.maxUp), cfg.maxWorkers - seen))
    requires d.direction == Down ==> answer == Success(Min(Min(d.count, cfg.maxDown), seen - cfg.minWorkers))
    requires d.direction != NoChange
    ensures var f := Apply(cfg, s, Auto(d, seen, start, done, answer)).fleet;
            var moved := if d.direction == Up then f - s.fleet else s.fleet - f;
            var most := if d.direction == Up then cfg.maxUp else cfg.maxDown;
            var edge := if d.direction == Up then cfg.maxWorkers else cfg.minWorkers;
            && 0 <= moved <= d.count && moved <= most
            && cfg.minWorkers <= seen + (f - s.fleet) <= cfg.maxWorkers
            && (moved == d.count || moved == most || seen + (f - s.fleet) == edge)
  {
  }

  /** A manual call whose provider delivers all it is asked for takes the count read to the
      clamped target exactly when the distance fits the per-cycle limit and the count the manager
      last knew, which may be stale, leaves room for it. */
  lemma ManualReachesExactly(cfg: Config, s: State, target: int, seen: int, start: real, done: real, answer: Answer)
    requires var t := ClampTarget(cfg, target);
             answer == Success(if t > seen then UpCount(cfg, s, t - seen) else DownCount(cfg, s, seen - t))
    ensures var t := ClampTarget(cfg, target);
            seen + (Apply(cfg, s, Manual(target, seen, start, done, answer)).fleet - s.fleet) == t
            <==> (t == seen
                  || (t > seen && t - seen <= cfg.maxUp && s.known + (t - seen) <= cfg.maxWorkers)
                  || (t < seen && seen - t <= cfg.maxDown && s.known - (seen - t) >= cfg.minWorkers))
  {
  }

  // ----- cooldowns -----

  /** A call to the provider: who asked, in which direction, whether it returned, when the
      cooldown check was made and when the provider was done, and how many workers came or went. */
  datatype Scaling = Scaling(auto: bool, up: bool, success: bool, start: real, done: real, n: int)

  /** The provider call a step makes, if any. */
  function ScalingOf(cfg: Config, s: State, step: Step): seq<Scaling> {
    match step
    case NoMetrics => []
    case Auto(d, seen, start, done, answer) =>
      var s1 := s.(known := seen);
      if InCooldown(cfg, s1, start) || d.direction == NoChange then []
      else if d.direction == Up && UpCount(cfg, s1, d.count) <= 0 then []
      else if d.direction == Down && DownCount(cfg, s1, d.count) <= 0 then []
      else [Scaling(true, d.direction == Up, answer.Success?, start, done,
                    if answer.NothingTerminable? then 0 else answer.n)]
    case Manual(target, seen, start, done, answer) =>
      var t := ClampTarget(cfg, target);
      if t == seen then []
      else if t > seen && UpCount(cfg, s, t - seen) <= 0 then []
      else if t < seen && DownCount(cfg, s, seen - t) <= 0 then []
      else [Scaling(false, t > seen, answer.Success?, start, done, if answer.NothingTerminable? then 0 else answer.n)]
  }

  function Trace(cfg: Config, s: State, run: seq<Step>): seq<Scaling>
    decreases |run|
  {
    if run == [] then [] else ScalingOf(cfg, s, run[0]) + Trace(cfg, Apply(cfg, s, run[0]), run[1..])
  }

  /** The lock makes steps follow one another and the clock does not go back. */
  ghost predicate Clocked(run: seq<Step>, now: real)
    decreases |run|
  {
    run == []
    || (run[0].NoMetrics? && Clocked(run[1..], now))
    || (!run[0].NoMetrics? && now <= run[0].start <= run[0].done && Clocked(run[1..], run[0].done))
  }

  ghost predicate RestsAfter(cfg: Config, earlier: Scaling, later: Scaling) {
    earlier.success && later.auto ==>
      later.start >= earlier.done + if earlier.up then cfg.cooldownUp else cfg.cooldownDown
  }

  ghost predicate StampsBy(s: State, now: real) {
    (s.lastUp.Some? ==> s.lastUp.value <= now) && (s.lastDown.Some? ==> s.lastDown.value <= now)
  }

  /** A step that changes fleet or stamps is in the trace with what it did, and one that is not in the
      trace changes neither. */
  lemma ScalingsRecorded(cfg: Config, s: State, step: Step)
    ensures var s', us := Apply(cfg, s, step), ScalingOf(cfg, s, step);
            if us == [] then s'.fleet == s.fleet && s'.lastUp == s.lastUp && s'.lastDown == s.lastDown
            else
              && |us| == 1 && !step.NoMetrics? && us[0].auto == step.Auto?
              && us[0].start == step.start && us[0].done == step.done && us[0].success == step.answer.Success?
              && s'.fleet == (if us[0].up then s.fleet + us[0].n else s.fleet - us[0].n)
              && s'.lastUp == (if us[0].up && us[0].success then Some(us[0].done) else s.lastUp)
              && s'.lastDown == (if !us[0].up && us[0].success then Some(us[0].done) else s.lastDown)
  {
  }

  function Net(us: seq<Scaling>): int {
    if us == [] then 0 else (if us[0].up then us[0].n else -us[0].n) + Net(us[1..])
  }

  lemma {:induction false} NetConcat(a: seq<Scaling>, b: seq<Scaling>)
    ensures Net(a + b) == Net(a) + Net(b)
  {
    if a == [] {
      assert a + b == b;
    } else {
      assert (a + b)[0] == a[0] && (a + b)[1..] == a[1..] + b;
      NetConcat(a[1..], b);
    }
  }

  /** The trace accounts for the whole change of the fleet over a run. */
  lemma {:induction false} TraceAccounts(cfg: Config, s: State, run: seq<Step>)
    ensures After(cfg, s, run).fleet == s.fleet + Net(Trace(cfg, s, run))
    decreases |run|
  {
    if run == [] {
    } else {
      var s', first := Apply(cfg, s, run[0]), ScalingOf(cfg, s, run[0]);
      ScalingsRecorded(cfg, s, run[0]);
      TraceAccounts(cfg, s', run[1..]);
      NetConcat(first, Trace(cfg, s', run[1..]));
      assert first == [] || first[1..] == [];
    }
  }

  /** Automatic scalings of a run wait out the stamps of the state it starts from. */
  lemma {:induction false} TraceRests(cfg: Config, s: State, run: seq<Step>, now: real)
    requires Clocked(run, now) && StampsBy(s, now)
    ensures forall u :: u in Trace(cfg, s, run) ==> now <= u.start <= u.done
    ensures forall u :: u in Trace(cfg, s, run) && u.auto && s.lastUp.Some? ==>
              u.start >= s.lastUp.value + cfg.cooldownUp
    ensures forall u :: u in Trace(cfg, s, run) && u.auto && s.lastDown.Some? ==>
              u.start >= s.lastDown.value + cfg.cooldownDown
    decreases |run|
  {
    if run == [] {
    } else {
      var s' := Apply(cfg, s, run[0]);
      TraceRests(cfg, s', run[1..], if run[0].NoMetrics? then now else run[0].done);
    }
  }

  lemma StampOf(cfg: Config, s: State, step: Step)
    requires ScalingOf(cfg, s, step) != []
    ensures |ScalingOf(cfg, s, step)| == 1
    ensures var u, s' := ScalingOf(cfg, s, step)[0], Apply(cfg, s, step);
            u.success ==> (if u.up then s'.lastUp == Some(u.done) else s'.lastDown == Some(u.done))
  {
  }

  /** Main result: every automatic scaling starts at least the upward cooldown after each earlier
      successful scale-up and the downward cooldown after each earlier successful scale-down,
      automatic or manual. */
  lemma {:induction false} CooldownsKept(cfg: Config, s: State, run: seq<Step>, now: real)
    requires Clocked(run, now) && StampsBy(s, now)
    ensures forall i, j :: 0 <= i < j < |Trace(cfg, s, run)| ==>
              RestsAfter(cfg, Trace(cfg, s, run)[i], Trace(cfg, s, run)[j])
    decreases |run|
  {
    if run == [] {
    } else {
      var s', first := Apply(cfg, s, run[0]), ScalingOf(cfg, s, run[0]);
      var later := if run[0].NoMetrics? then now else run[0].done;
      var rest := Trace(cfg, s', run[1..]);
      CooldownsKept(cfg, s', run[1..], later);
      TraceRests(cfg, s', run[1..], later);
      if first != [] {
        StampOf(cfg, s, run[0]);
        forall u | u in rest ensures RestsAfter(cfg, first[0], u) {
        }
      }
    }
  }

  // ----- the rate of growth -----

  function SuccessfulAutoUp(): Scaling -> bool {
    (u: Scaling) => u.auto && u.up && u.success
  }

  function AutoUps(cfg: Config, s: State, run: seq<Step>): seq<Scaling> {
    Filter(Trace(cfg, s, run), SuccessfulAutoUp())
  }

  function Added(us: seq<Scaling>): int {
    if us == [] then 0 else Added(us[..|us| - 1]) + us[|us| - 1].n
  }

  /** The successful automatic scale-ups are those of the trace, in its order, and `Added` is the number
      of workers they brought. */
  lemma AutoUpsExactly(cfg: Config, s: State, run: seq<Step>, u: Scaling, us: seq<Scaling>)
    ensures u in AutoUps(cfg, s, run) <==> u in Trace(cfg, s, run) && u.auto && u.up && u.success
    ensures Subsequence(AutoUps(cfg, s, run), Trace(cfg, s, run))
    ensures Added([]) == 0 && Added(us + [u]) == Added(us) + u.n
  {
    FilterMember(Trace(cfg, s, run), SuccessfulAutoUp(), u);
    FilterSubsequence(Trace(cfg, s, run), SuccessfulAutoUp());
    assert (us + [u])[..|us|] == us;
  }

  /** Scalings with a gap between each and the next, each adding at most `most`. */
  ghost predicate Orderly(us: seq<Scaling>, gap: real, most: int) {
    && (forall i, j :: 0 <= i < j < |us| ==> us[i].done + gap <= us[j].start)
    && (forall k :: 0 <= k < |us| ==> us[k].start <= us[k].done && 0 <= us[k].n <= most)
  }

  lemma OrderlyCons(u: Scaling, us: seq<Scaling>, rest: seq<Scaling>, gap: real, most: int)
    requires Orderly(us, gap, most) && us == Filter(rest, SuccessfulAutoUp())
    requires u.start <= u.done && 0 <= u.n <= most
    requires forall x :: x in rest && x.auto ==> u.done + gap <= x.start
    ensures Orderly([u] + us, gap, most)
  {
    forall k | 0 <= k < |us| ensures u.done + gap <= us[k].start {
      FilterMember(rest, SuccessfulAutoUp(), us[k]);
    }
  }

  lemma {:induction false} AutoUpsOrderly(cfg: Config, s: State, run: seq<Step>, now: real)
    requires Clocked(run, now) && StampsBy(s, now) && HonestRun(cfg, s, run)
    ensures Orderly(AutoUps(cfg, s, run), cfg.cooldownUp, cfg.maxUp)
    decreases |run|
  {
    if run == [] {
    } else {
      var s', first := Apply(cfg, s, run[0]), ScalingOf(cfg, s, run[0]);
      var later := if run[0].NoMetrics? then now else run[0].done;
      var rest := Trace(cfg, s', run[1..]);
      AutoUpsOrderly(cfg, s', run[1..], later);
      TraceRests(cfg, s', run[1..], later);
      FilterConcat(first, rest, SuccessfulAutoUp());
      if first != [] && SuccessfulAutoUp()(first[0]) {
        StampOf(cfg, s, run[0]);
        assert first == [first[0]];
        OrderlyCons(first[0], Filter(rest, SuccessfulAutoUp()), rest, cfg.cooldownUp, cfg.maxUp);
      } else if first != [] {
        StampOf(cfg, s, run[0]);
        assert first == [first[0]];
        FilterNone(first, SuccessfulAutoUp());
        assert [] + Filter(rest, SuccessfulAutoUp()) == Filter(rest, SuccessfulAutoUp());
      } else {
        assert [] + rest == rest;
      }
    }
  }

  lemma OrderlySlice(us: seq<Scaling>, gap: real, most: int, i: nat, j: nat)
    requires Orderly(us, gap, most) && i <= j <= |us|
    ensures Orderly(us[i..j], gap, most)
  {
  }

  /** `k` gaps in a row, as a sum rather than a product. */
  function Gaps(k: nat, gap: real): real {
    if k == 0 then 0.0 else Gaps(k - 1, gap) + gap
  }

  function Copies(k: nat, most: int): int {
    if k == 0 then 0 else Copies(k - 1, most) + most
  }

  lemma {:induction false} OrderlySpan(us: seq<Scaling>, gap: real, most: int)
    requires us != [] && Orderly(us, gap, most)
    ensures Gaps(|us| - 1, gap) <= us[|us| - 1].done - us[0].done
    ensures Added(us) <= Copies(|us|, most)
  {
    var n := |us|;
    if n == 1 {
      assert us[..0] == [];
      assert Added(us) == us[0].n;
    } else {
      OrderlySlice(us, gap, most, 0, n - 1);
      assert us[0..n - 1] == us[..n - 1];
      OrderlySpan(us[..n - 1], gap, most);
      assert us[n - 2].done + gap <= us[n - 1].start;
    }
  }

  lemma {:induction false} Products(k: nat, gap: real, most: int)
    ensures Gaps(k, gap) == k as real * gap && Copies(k, most) == k * most
  {
    if k == 0 {
    } else {
      Products(k - 1, gap, most);
      assert (k - 1) as real * gap + gap == k as real * gap;
      assert (k - 1) * most + most == k * most;
    }
  }

  function RateCap(span: real, gap: real, most: int): real
    requires gap > 0.0
  {
    (1.0 + span / gap) * most as real
  }

  lemma RateFromSpan(k: nat, added: int, span: real, gap: real, most: int)
    requires gap > 0.0 && most >= 0 && Gaps(k, gap) <= span && added <= Copies(k + 1, most)
    ensures added as real <= RateCap(span, gap, most)
  {
    Products(k, gap, most);
    Products(k + 1, gap, most);
    var q := span / gap;
    assert q * gap == span;
    if q < k as real {
      ProductPositive(k as real - q, gap);
    }
    ProductAtLeastZero(q - k as real, most as real);
    assert (k + 1) as real * most as real == ((k + 1) * most) as real;
  }

  lemma OrderlyRate(us: seq<Scaling>, gap: real, most: int)
    requires gap > 0.0 && us != [] && Orderly(us, gap, most)
    ensures Added(us) as real <= RateCap(us[|us| - 1].done - us[0].done, gap, most)
  {
    OrderlySpan(us, gap, most);
    assert 0 <= us[0].n <= most;
    RateFromSpan(|us| - 1, Added(us), us[|us| - 1].done - us[0].done, gap, most);
  }

  /** The bound: once the most per cycle, and that again for every cooldown in the span. */
  lemma RateCapExactly(span: real, gap: real, most: int)
    requires gap > 0.0
    ensures RateCap(span, gap, most) == most as real + span / gap * most as real
  {
  }

  /** Main result: take any stretch of consecutive successful automatic scale-ups of a run, T
      between the first and the last; together they add at most
      (1 + T / cooldownUp) * maxUp workers. */
  lemma GrowthRate(cfg: Config, s: State, run: seq<Step>, now: real, i: nat, j: nat)
    requires cfg.cooldownUp > 0.0 && Clocked(run, now) && StampsBy(s, now) && HonestRun(cfg, s, run)
    requires i < j <= |AutoUps(cfg, s, run)|
    ensures var us := AutoUps(cfg, s, run);
            Added(us[i..j]) as real <= RateCap(us[j - 1].done - us[i].done, cfg.cooldownUp, cfg.maxUp)
  {
    var us := AutoUps(cfg, s, run);
    AutoUpsOrderly(cfg, s, run, now);
    OrderlySlice(us, cfg.cooldownUp, cfg.maxUp, i, j);
    OrderlyRate(us[i..j], cfg.cooldownUp, cfg.maxUp);
  }

  // ----- the budget -----

  /** The decision is the cost-aware policy's, over some decision of a base policy. */
  ghost predicate FollowsCost(cost: CostConfig, d: Decision, workers: int)
    requires cost.costPerWorker > 0.0
  {
    exists base: Decision, jobs: int :: CostAware(cost, base, jobs, workers) == d
  }

  /** Every step is an automatic cycle that follows the cost-aware policy on the count it reads. */
  ghost predicate CostDriven(cost: CostConfig, run: seq<Step>)
    requires cost.costPerWorker > 0.0
  {
    forall i :: 0 <= i < |run| ==>
      run[i].NoMetrics? || (run[i].Auto? && FollowsCost(cost, run[i].decision, run[i].seen))
  }

  lemma StepWithinBudget(cfg: Config, cost: CostConfig, s: State, step: Step, missing: nat, extra: nat)
    requires cost.costPerWorker > 0.0 && cost.hourlyBudget >= 0.0
    requires WithinBudget(cost, s.fleet - missing) && Sees(s, step, missing, extra) && Honest(cfg, s, step)
    requires step.NoMetrics? || (step.Auto? && FollowsCost(cost, step.decision, step.seen))
    ensures WithinBudget(cost, Apply(cfg, s, step).fleet - missing)
  {
    var f := Apply(cfg, s, step).fleet;
    if f > s.fleet {
      var base, jobs :| CostAware(cost, base, jobs, step.seen) == step.decision;
      UpStaysWithinBudget(cost, base, jobs, step.seen, f - s.fleet);
      Cheaper(cost, f - missing, step.seen + (f - s.fleet));
    } else {
      Cheaper(cost, f - missing, s.fleet - missing);
    }
  }

  /** Main result: automatic cycles under the cost-aware policy, over any base policy, never take
      the fleet over the hourly budget if the manager reads the fleet's own count, and by no more
      than the workers it misses if it does not. */
  lemma {:induction false} BudgetKept(cfg: Config, cost: CostConfig, s: State, run: seq<Step>, missing: nat, extra: nat)
    requires cost.costPerWorker > 0.0 && cost.hourlyBudget >= 0.0 && WithinBudget(cost, s.fleet - missing)
    requires AlwaysSees(cfg, s, run, missing, extra) && HonestRun(cfg, s, run) && CostDriven(cost, run)
    ensures WithinBudget(cost, After(cfg, s, run).fleet - missing)
    decreases |run|
  {
    if run == [] {
    } else {
      StepWithinBudget(cfg, cost, s, run[0], missing, extra);
      BudgetKept(cfg, cost, Apply(cfg, s, run[0]), run[1..], missing, extra);
    }
  }

  /** The allowance is needed and used up: with any number of workers missed, a cycle takes a
      fleet that just fits the budget over it by all of them. */
  lemma MissedWorkersOverspend(cfg: Config, cost: CostConfig, missing: nat, start: real)
    requires cost.enabled && cost.costPerWorker > 0.0 && cost.hourlyBudget >= 0.0
    requires 1 <= missing <= cfg.maxUp && Truncate(cost.hourlyBudget / cost.costPerWorker) <= cfg.maxWorkers
    ensures var most := Truncate(cost.hourlyBudget / cost.costPerWorker);
            var s, d := State(most, most, None, None), Decision(Up, missing, 1);
            var step := Auto(d, most - missing, start, start, Success(missing));
            && WithinBudget(cost, s.fleet) && FollowsCost(cost, d, most - missing)
            && Sees(s, step, missing, 0) && Honest(cfg, s, step)
            && Apply(cfg, s, step).fleet == most + missing && !WithinBudget(cost, most + missing)
  {
    var most := Truncate(cost.hourlyBudget / cost.costPerWorker);
    var d := Decision(Up, missing, 1);
    QuotientAffordable(cost);
    QuotientIsMost(cost, most + missing);
    assert CostAware(cost, d, 0, most - missing) == d;
  }

  // ----- the manager -----

  class AutoScalingManager {
    const cfg: Config
    var fleet: int
    var known: int
    var lastUp: Option<real>
    var lastDown: Option<real>

    ghost function View(): State
      reads this
    {
      State(fleet, known, lastUp, lastDown)
    }

    constructor (cfg: Config, fleet: int)
      ensures this.cfg == cfg && View() == State(fleet, 0, None, None)
    {
      this.cfg, this.fleet, known, lastUp, lastDown := cfg, fleet, 0, None, None;
    }

    method ScaleUp(requested: int, answer: Answer, done: real)
      modifies this
      ensures View() == ScaledUp(cfg, old(View()), requested, answer, done)
    {
      var count := Min(requested, cfg.maxUp);
      var maxPossible := cfg.maxWorkers - known;
      count := Min(count, maxPossible);
      if count <= 0 {
        return;
      }
      match answer {
        case Success(n) =>
          fleet := fleet + n;
          lastUp := Some(done);
        case Raised(n) =>
          fleet := fleet + n;
        case NothingTerminable =>
      }
    }

    method ScaleDown(requested: int, answer: Answer, done: real)
      modifies this
      ensures View() == ScaledDown(cfg, old(View()), requested, answer, done)
    {
      var count := Min(requested, cfg.maxDown);
      var minPossible := known - cfg.minWorkers;
      count := Min(count, minPossible);
      if count <= 0 {
        return;
      }
      match answer {
        case Success(n) =>
          fleet := fleet - n;
          lastDown := Some(done);
        case Raised(n) =>
          fleet := fleet - n;
        case NothingTerminable =>
      }
    }

    /** `decision` is what the policy answers for the count read; it is not asked during a
        cooldown. */
    method EvaluateAndScale(decision: Decision, seen: int, start: real, done: real, answer: Answer)
      modifies this
      ensures View() == Apply(cfg, old(View()), Auto(decision, seen, start, done, answer))
    {
      known := seen;
      if lastUp.Some? && start - lastUp.value < cfg.cooldownUp {
        return;
      }
      if lastDown.Some? && start - lastDown.value < cfg.cooldownDown {
        return;
      }
      if decision.direction == Up {
        ScaleUp(decision.count, answer, done);
      } else if decision.direction == Down {
        ScaleDown(decision.count, answer, done);
      }
    }

    method ScaleTo(target: int, seen: int, start: real, done: real, answer: Answer)
      modifies this
      ensures View() == Apply(cfg, old(View()), Manual(target, seen, start, done, answer))
    {
      var t := Max(cfg.minWorkers, Min(cfg.maxWorkers, target));
      if t == seen {
        return;
      }
      if t > seen {
        ScaleUp(t - seen, answer, done);
      } else {
        ScaleDown(seen - t, answer, done);
      }
    }
  }
}
