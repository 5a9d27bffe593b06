/** Scaling policies (src/distributed_cluster/autoscaling/policies.py): the queue-based policy
    with its window of observed depths, and the cost-aware policy on top of any other. */
module ScalingPolicies {
  import opened Common

  datatype Direction = Up | Down | NoChange

  /** `priority` also tells what triggered a queue decision: 2 the wait time, 1 the depth. */
  datatype Decision = Decision(direction: Direction, count: int, priority: int)

  const NO_SCALING := Decision(NoChange, 0, 0)

  datatype QueueConfig = QueueConfig(
    minWorkers: int,
    maxWorkers: int,
    upThreshold: int,
    downThreshold: int,
    maxWait: real,
    jobsPerWorker: int,
    upIncrement: int,
    downIncrement: int,
    periods: int)

  /** What one evaluation of the enabled policy sees. */
  datatype Observation = Observation(depth: int, wait: real, workers: int)

  function Clamp(cfg: QueueConfig, target: int): int {
    Max(cfg.minWorkers, Min(cfg.maxWorkers, target))
  }

  /** `math.ceil(a / b)` for a positive divisor. */
  function CeilDiv(a: int, b: int): int
    requires b >= 1
  {
    -((-a) / b)
  }

  function Required(cfg: QueueConfig, depth: int): int {
    CeilDiv(depth, Max(cfg.jobsPerWorker, 1))
  }

  /** The slice `h[-p:]`: the last `p` elements, all of them for p = 0, and without the first
      `-p` for a negative p. */
  function LastSlice(h: seq<int>, p: int): seq<int> {
    if p == 0 then h
    else if p > 0 then h[Max(|h| - p, 0)..]
    else h[Min(-p, |h|)..]
  }

  function Recorded(cfg: QueueConfig, history: seq<int>, depth: int): seq<int> {
    var h := history + [depth];
    if |h| > cfg.periods then LastSlice(h, cfg.periods) else h
  }

  predicate AllAtLeast(h: seq<int>, bound: int) {
    forall i :: 0 <= i < |h| ==> h[i] >= bound
  }

  predicate AllAtMost(h: seq<int>, bound: int) {
    forall i :: 0 <= i < |h| ==> h[i] <= bound
  }

  /** The decision on the updated window `h`. */
  function Decide(cfg: QueueConfig, h: seq<int>, o: Observation): Decision {
    var byWait := Clamp(cfg, Required(cfg, o.depth));
    if o.wait > cfg.maxWait && byWait > o.workers then Decision(Up, byWait - o.workers, 2)
    else if |h| < cfg.periods then NO_SCALING
    else
      var byDepth := Clamp(cfg, Max(Required(cfg, o.depth), o.workers + cfg.upIncrement));
      var lower := Clamp(cfg, Max(Required(cfg, o.depth), cfg.minWorkers));
      if AllAtLeast(h, cfg.upThreshold) && byDepth > o.workers then
        Decision(Up, Min(byDepth - o.workers, cfg.upIncrement * 2), 1)
      else if AllAtMost(h, cfg.downThreshold) && o.workers > cfg.minWorkers && lower < o.workers then
        Decision(Down, Min(o.workers - lower, cfg.downIncrement), 0)
      else NO_SCALING
  }

  function HistoryAfter(cfg: QueueConfig, obs: seq<Observation>): seq<int> {
    if obs == [] then [] else Recorded(cfg, HistoryAfter(cfg, obs[..|obs| - 1]), obs[|obs| - 1].depth)
  }

  /** The decision of the i-th recorded evaluation of a run. */
  function DecisionAt(cfg: QueueConfig, obs: seq<Observation>, i: nat): Decision
    requires i < |obs|
  {
    Decide(cfg, HistoryAfter(cfg, obs[..i + 1]), obs[i])
  }

  function Depths(obs: seq<Observation>): seq<int> {
    seq(|obs|, i requires 0 <= i < |obs| => obs[i].depth)
  }

  /** The window is always the last `periods` depths, or all of them while there are fewer; with
      periods = 0 the slice `[-0:]` drops nothing and it is all of them. */
  lemma {:induction false} WindowIsLastDepths(cfg: QueueConfig, obs: seq<Observation>)
    requires cfg.periods >= 0
    ensures HistoryAfter(cfg, obs)
         == if cfg.periods == 0 then Depths(obs) else Depths(obs)[Max(|obs| - cfg.periods, 0)..]
  {
    if obs == [] {
    } else {
      var before := obs[..|obs| - 1];
      WindowIsLastDepths(cfg, before);
      assert Depths(obs) == Depths(before) + [obs[|obs| - 1].depth];
    }
  }

  lemma InWindow(cfg: QueueConfig, obs: seq<Observation>, i: nat, k: nat) returns (j: nat)
    requires cfg.periods >= 0 && k <= i < |obs| && (cfg.periods == 0 || i - k < cfg.periods)
    ensures var h := HistoryAfter(cfg, obs[..i + 1]);
            j < |h| && h[j] == obs[k].depth && (cfg.periods > 0 ==> (|h| >= cfg.periods <==> cfg.periods <= i + 1))
  {
    var seen := obs[..i + 1];
    WindowIsLastDepths(cfg, seen);
    var start := if cfg.periods == 0 then 0 else Max(i + 1 - cfg.periods, 0);
    j := k - start;
    assert HistoryAfter(cfg, seen)[j] == Depths(seen)[k] == obs[k].depth;
  }

  /** A depth-triggered scale-up saw only depths at the upper threshold, a scale-down only depths
      at the lower one. */
  lemma WindowOf(cfg: QueueConfig, obs: seq<Observation>, i: nat, k: nat)
    requires cfg.periods >= 0 && k <= i < |obs| && (cfg.periods == 0 || i - k < cfg.periods)
    ensures DecisionAt(cfg, obs, i).direction == Up && DecisionAt(cfg, obs, i).priority == 1 ==>
              obs[k].depth >= cfg.upThreshold && (cfg.periods > 0 ==> cfg.periods <= i + 1)
    ensures DecisionAt(cfg, obs, i).direction == Down ==>
              obs[k].depth <= cfg.downThreshold && (cfg.periods > 0 ==> cfg.periods <= i + 1)
  {
    var j := InWindow(cfg, obs, i, k);
    var h := HistoryAfter(cfg, obs[..i + 1]);
    assert AllAtLeast(h, cfg.upThreshold) ==> h[j] >= cfg.upThreshold;
    assert AllAtMost(h, cfg.downThreshold) ==> h[j] <= cfg.downThreshold;
  }

  /** The workers a queue needs: the least number that takes it at `jobsPerWorker` each, or at one each
      when that is not positive. */
  lemma RequiredIsLeast(cfg: QueueConfig, depth: int)
    ensures var each := if cfg.jobsPerWorker >= 1 then cfg.jobsPerWorker else 1;
            (Required(cfg, depth) - 1) * each < depth <= Required(cfg, depth) * each
  {
    var each := Max(cfg.jobsPerWorker, 1);
    var q := (-depth) / each;
    assert q * each <= -depth < (q + 1) * each;
    assert (q + 1) * each == q * each + each;
    assert (-q) * each == -(q * each) && (-q - 1) * each == -((q + 1) * each);
  }

  lemma ClampExactly(cfg: QueueConfig, x: int)
    requires cfg.minWorkers <= cfg.maxWorkers
    ensures cfg.minWorkers <= Clamp(cfg, x) <= cfg.maxWorkers
    ensures Clamp(cfg, x) == x || (Clamp(cfg, x) == cfg.minWorkers > x) || (Clamp(cfg, x) == cfg.maxWorkers < x)
  {
  }

  /** The last `periods` depths observed up to evaluation `i`. */
  ghost predicate LastDepths(cfg: QueueConfig, obs: seq<Observation>, i: nat, atLeast: bool, bound: int)
    requires i < |obs|
  {
    && i + 1 >= cfg.periods
    && forall k :: 0 <= k <= i && i - k < cfg.periods ==>
         if atLeast then obs[k].depth >= bound else obs[k].depth <= bound
  }

  lemma WindowDepths(cfg: QueueConfig, obs: seq<Observation>, i: nat)
    requires cfg.periods >= 1 && i < |obs|
    ensures var h := HistoryAfter(cfg, obs[..i + 1]);
            && (|h| >= cfg.periods <==> i + 1 >= cfg.periods)
            && (|h| >= cfg.periods && AllAtLeast(h, cfg.upThreshold)
                <==> LastDepths(cfg, obs, i, true, cfg.upThreshold))
            && (|h| >= cfg.periods && AllAtMost(h, cfg.downThreshold)
                <==> LastDepths(cfg, obs, i, false, cfg.downThreshold))
  {
    var seen := obs[..i + 1];
    WindowIsLastDepths(cfg, seen);
    var h, start := HistoryAfter(cfg, seen), Max(i + 1 - cfg.periods, 0);
    assert |h| == i + 1 - start;
    forall k | start <= k <= i ensures h[k - start] == obs[k].depth {
      assert h[k - start] == Depths(seen)[k];
    }
    forall j | 0 <= j < |h| ensures h[j] == obs[j + start].depth {
      assert h[j + start - start] == obs[j + start].depth;
    }
  }

  /** When and by how much the policy scales, for at least one period: up at once if the wait is too
      long and the queue needs more workers than there are; up if the last depths were all at or above
      the upper threshold, by an increment or to what the queue needs, at most two increments; down if
      they were all at or below the lower one, towards what the queue needs, at most one decrement. */
  lemma DecidesExactly(cfg: QueueConfig, obs: seq<Observation>, i: nat)
    requires cfg.periods >= 1 && i < |obs|
    ensures var workers, need := obs[i].workers, Required(cfg, obs[i].depth);
            var up := Clamp(cfg, if need > workers + cfg.upIncrement then need else workers + cfg.upIncrement);
            var down := Clamp(cfg, if need > cfg.minWorkers then need else cfg.minWorkers);
            DecisionAt(cfg, obs, i)
            == if obs[i].wait > cfg.maxWait && Clamp(cfg, need) > workers then
                 Decision(Up, Clamp(cfg, need) - workers, 2)
               else if LastDepths(cfg, obs, i, true, cfg.upThreshold) && up > workers then
                 Decision(Up, if up - workers < cfg.upIncrement * 2 then up - workers else cfg.upIncrement * 2, 1)
               else if LastDepths(cfg, obs, i, false, cfg.downThreshold)
                       && workers > cfg.minWorkers && down < workers then
                 Decision(Down, if workers - down < cfg.downIncrement then workers - down else cfg.downIncrement, 0)
               else Decision(NoChange, 0, 0)
  {
    WindowDepths(cfg, obs, i);
  }

  /** No flapping: with a lower threshold below the upper one, a depth-triggered scale-up and a
      scale-down are at least `periods` recorded evaluations apart, in either order; with
      periods = 0 a run never has both. */
  lemma NoFlapping(cfg: QueueConfig, obs: seq<Observation>, i: nat, j: nat)
    requires cfg.periods >= 0 && cfg.downThreshold < cfg.upThreshold
    requires i < |obs| && j < |obs|
    requires DecisionAt(cfg, obs, i).direction == Up && DecisionAt(cfg, obs, i).priority == 1
    requires DecisionAt(cfg, obs, j).direction == Down
    ensures cfg.periods >= 1 && (i + cfg.periods <= j || j + cfg.periods <= i)
  {
    var k := Min(i, j);
    if cfg.periods == 0 || (i - k < cfg.periods && j - k < cfg.periods) {
      WindowOf(cfg, obs, i, k);
      WindowOf(cfg, obs, j, k);
      assert false;
    }
  }

  lemma {:induction false} NegativePeriodsForget(cfg: QueueConfig, obs: seq<Observation>)
    requires cfg.periods < 0
    ensures HistoryAfter(cfg, obs) == []
  {
    if obs == [] {
    } else {
      NegativePeriodsForget(cfg, obs[..|obs| - 1]);
    }
  }

  /** With a negative number of periods the window is always empty and both depth thresholds are
      ignored: every evaluation of a run without a wait trigger scales up while the fleet is below
      the maximum, however short the queue, and down at the maximum if fewer workers suffice. */
  lemma NegativePeriodsFlap(cfg: QueueConfig, obs: seq<Observation>, i: nat, up: int, down: int)
    requires cfg.periods < 0 && i < |obs|
    ensures DecisionAt(cfg, obs, i) == DecisionAt(cfg.(upThreshold := up, downThreshold := down), obs, i)
    ensures obs[i].wait <= cfg.maxWait && obs[i].workers < cfg.maxWorkers && cfg.upIncrement >= 1 ==>
              DecisionAt(cfg, obs, i).direction == Up && DecisionAt(cfg, obs, i).priority == 1
    ensures obs[i].wait <= cfg.maxWait && cfg.minWorkers < cfg.maxWorkers == obs[i].workers
            && Required(cfg, obs[i].depth) < cfg.maxWorkers ==>
              DecisionAt(cfg, obs, i).direction == Down
  {
    NegativePeriodsForget(cfg, obs[..i + 1]);
    NegativePeriodsForget(cfg.(upThreshold := up, downThreshold := down), obs[..i + 1]);
  }

  /** Scaling up never aims above the policy's maximum, scaling down never below its minimum. */
  lemma DecisionsStayInLimits(cfg: QueueConfig, h: seq<int>, o: Observation)
    requires cfg.minWorkers <= cfg.maxWorkers
    ensures Decide(cfg, h, o).direction == Up ==> o.workers + Decide(cfg, h, o).count <= cfg.maxWorkers
    ensures Decide(cfg, h, o).direction == Down ==> o.workers - Decide(cfg, h, o).count >= cfg.minWorkers
  {
  }

  class QueueBasedPolicy {
    const cfg: QueueConfig
    const enabled: bool
    var history: seq<int>

    constructor (cfg: QueueConfig, enabled: bool := true)
      ensures this.cfg == cfg && this.enabled == enabled && history == []
    {
      this.cfg, this.enabled, history := cfg, enabled, [];
    }

    method Evaluate(o: Observation) returns (d: Decision)
      modifies this`history
      ensures history == if enabled then Recorded(cfg, old(history), o.depth) else old(history)
      ensures d == if enabled then Decide(cfg, history, o) else NO_SCALING
    {
      if !enabled {
        return NO_SCALING;
      }
      history := history + [o.depth];
      if |history| > cfg.periods {
        history := LastSlice(history, cfg.periods);
      }
      if o.wait > cfg.maxWait {
        var target := Clamp(cfg, Required(cfg, o.depth));
        if target > o.workers {
          return Decision(Up, target - o.workers, 2);
        }
      }
      if |history| >= cfg.periods {
        if AllAtLeast(history, cfg.upThreshold) {
          var target := Clamp(cfg, Max(Required(cfg, o.depth), o.workers + cfg.upIncrement));
          if target > o.workers {
            return Decision(Up, Min(target - o.workers, cfg.upIncrement * 2), 1);
          }
        }
        if AllAtMost(history, cfg.downThreshold) {
          if o.workers > cfg.minWorkers {
            var target := Clamp(cfg, Max(Required(cfg, o.depth), cfg.minWorkers));
            if target < o.workers {
              return Decision(Down, Min(o.workers - target, cfg.downIncrement), 0);
            }
          }
        }
      }
      d := NO_SCALING;
    }
  }

  // ----- the cost-aware policy -----

  datatype CostConfig = CostConfig(
    enabled: bool,
    minWorkers: int,
    costPerWorker: real,
    hourlyBudget: real,
    targetCostPerJob: real)

  /** `int(x)`: towards zero. */
  function Truncate(x: real): int {
    if x >= 0.0 then x.Floor else -((-x).Floor)
  }

  /** Infinite when there are workers but no jobs. */
  predicate JobsTooDear(cfg: CostConfig, workers: int, jobsPerHour: int) {
    if jobsPerHour > 0 then workers as real * cfg.costPerWorker / jobsPerHour as real > cfg.targetCostPerJob * 2.0
    else workers > 0
  }

  /** The decision given the base policy's; the cost must be positive where it is divided by. */
  function CostAware(cfg: CostConfig, base: Decision, jobsPerHour: int, workers: int): Decision
    requires cfg.costPerWorker > 0.0
  {
    if !cfg.enabled then NO_SCALING
    else
      match base.direction
      case Up =>
        if (workers + base.count) as real * cfg.costPerWorker > cfg.hourlyBudget then
          var most := Truncate(cfg.hourlyBudget / cfg.costPerWorker);
          if most <= workers then NO_SCALING else Decision(Up, most - workers, base.priority)
        else base
      case Down => base
      case NoChange =>
        if JobsTooDear(cfg, workers, jobsPerHour) && workers > cfg.minWorkers then Decision(Down, 1, 0) else NO_SCALING
  }

  predicate WithinBudget(cfg: CostConfig, workers: int) {
    workers as real * cfg.costPerWorker <= cfg.hourlyBudget
  }

  /** A fleet is within budget if its workers together cost no more than that an hour. */
  lemma BudgetExactly(cfg: CostConfig, workers: int)
    ensures WithinBudget(cfg, workers) <==> workers as real * cfg.costPerWorker <= cfg.hourlyBudget
  {
  }

  lemma Cheaper(cfg: CostConfig, fewer: int, more: int)
    requires cfg.costPerWorker > 0.0 && fewer <= more && WithinBudget(cfg, more)
    ensures WithinBudget(cfg, fewer)
  {
    ProductAtLeastZero((more - fewer) as real, cfg.costPerWorker);
  }

  /** The truncated quotient is affordable, for a budget that is not negative. */
  lemma QuotientAffordable(cfg: CostConfig)
    requires cfg.costPerWorker > 0.0 && cfg.hourlyBudget >= 0.0
    ensures WithinBudget(cfg, Truncate(cfg.hourlyBudget / cfg.costPerWorker))
  {
    var q := cfg.hourlyBudget / cfg.costPerWorker;
    assert q * cfg.costPerWorker == cfg.hourlyBudget;
    if q < 0.0 {
      ProductAtLeastZero(-q, cfg.costPerWorker);
    }
    ProductAtLeastZero(q - q.Floor as real, cfg.costPerWorker);
  }

  /** One worker more than the truncated quotient is not. */
  lemma QuotientIsMost(cfg: CostConfig, workers: int)
    requires cfg.costPerWorker > 0.0 && cfg.hourlyBudget >= 0.0
    requires workers > Truncate(cfg.hourlyBudget / cfg.costPerWorker)
    ensures !WithinBudget(cfg, workers)
  {
    var q := cfg.hourlyBudget / cfg.costPerWorker;
    assert q * cfg.costPerWorker == cfg.hourlyBudget;
    if q < 0.0 {
      ProductAtLeastZero(-q, cfg.costPerWorker);
    }
    assert workers as real > q;
    ProductPositive(workers as real - q, cfg.costPerWorker);
  }

  /** Whatever the base policy says, growing by no more than the cost-aware answer ends within
      budget, wherever it starts. */
  lemma UpStaysWithinBudget(cfg: CostConfig, base: Decision, jobsPerHour: int, workers: int, added: int)
    requires cfg.costPerWorker > 0.0 && cfg.hourlyBudget >= 0.0
    requires var d := CostAware(cfg, base, jobsPerHour, workers); d.direction == Up && added <= d.count
    ensures WithinBudget(cfg, workers + added)
  {
    var d := CostAware(cfg, base, jobsPerHour, workers);
    if (workers + base.count) as real * cfg.costPerWorker > cfg.hourlyBudget {
      QuotientAffordable(cfg);
    }
    Cheaper(cfg, workers + added, workers + d.count);
  }

  /** What the cost-aware policy makes of the base policy's answer: it passes on what is affordable,
      cuts a scale-up down to the most that is, and lets one worker go on its own when jobs cost more
      than twice the target. */
  lemma CostAwareExactly(cfg: CostConfig, base: Decision, jobs: int, workers: int)
    requires cfg.costPerWorker > 0.0 && cfg.hourlyBudget >= 0.0
    ensures var d := CostAware(cfg, base, jobs, workers);
            if !cfg.enabled then d == Decision(NoChange, 0, 0)
            else
              match base.direction
              case Down => d == base
              case Up =>
                if (workers + base.count) as real * cfg.costPerWorker <= cfg.hourlyBudget then d == base
                else if (workers + 1) as real * cfg.costPerWorker > cfg.hourlyBudget then d == Decision(NoChange, 0, 0)
                else
                  && d.direction == Up && d.priority == base.priority && d.count >= 1
                  && (workers + d.count) as real * cfg.costPerWorker <= cfg.hourlyBudget
                  && (workers + d.count + 1) as real * cfg.costPerWorker > cfg.hourlyBudget
              case NoChange =>
                var dear := if jobs > 0
                            then workers as real * cfg.costPerWorker / jobs as real > 2.0 * cfg.targetCostPerJob
                            else workers > 0;
                d == if dear && workers > cfg.minWorkers then Decision(Down, 1, 0) else Decision(NoChange, 0, 0)
  {
    if base.direction == Up {
      var most := Truncate(cfg.hourlyBudget / cfg.costPerWorker);
      QuotientAffordable(cfg);
      QuotientIsMost(cfg, most + 1);
      if most <= workers {
        QuotientIsMost(cfg, workers + 1);
      } else {
        Cheaper(cfg, workers + 1, most);
      }
    }
  }
}
