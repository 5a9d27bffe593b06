/** The write-behind queue (src/distributed_cluster/cache/cache_manager.py: set,
    _write_behind_worker, _process_write_batch). Callers append to the queue while the worker
    moves writes into its batch and the batch to Redis; every await is a point where they may
    interleave, so each stretch between awaits is one step. Redis is a map. */
module WriteBehind {
  import opened Common

  type Key = string
  datatype Stored = Stored(value: string, ttl: int)

  datatype Target = ToRedis | ToDistributed
  datatype Write = Write(target: Target, key: Key, stored: Stored)

  datatype Level = AllLevels | L1Memory | L2Local | L3Distributed

  datatype Config = Config(batchSize: int, defaultTtl: int, distributed: bool)

  /** Where the worker stands: collecting, waiting for Redis, or past the Redis write but not
      yet done with the batch. */
  datatype Phase = Collecting | Writing | Written

  datatype State = State(redis: map<Key, Stored>, batch: seq<Write>, queue: seq<Write>, phase: Phase)

  datatype Step =
    | Put(key: Key, value: string, ttl: Option<int>, level: Level)  // a caller's set
    | Take                                                          // the worker gets one write
    | Begin                                                         // the batch is ready
    | Land                                                          // Redis executes the pipeline
    | Swallow                                                       // Redis fails, mset reports False
    | Finish                                                        // batch.clear()
    | Fail                                                          // an exception, the batch stays

  /** The writes one `set` queues. A missing or zero ttl means the default. */
  function Queued(cfg: Config, key: Key, value: string, ttl: Option<int>, level: Level): seq<Write> {
    var stored := Stored(value, if ttl.Some? && ttl.value != 0 then ttl.value else cfg.defaultTtl);
    (if level == AllLevels || level == L2Local then [Write(ToRedis, key, stored)] else [])
    + (if cfg.distributed && (level == AllLevels || level == L3Distributed) then [Write(ToDistributed, key, stored)]
       else [])
  }

  /** `mset` of the Redis part of a list of writes, in order. */
  function Overlay(m: map<Key, Stored>, ws: seq<Write>): map<Key, Stored> {
    if ws == [] then m
    else
      var before := Overlay(m, ws[..|ws| - 1]);
      var w := ws[|ws| - 1];
      if w.target == ToRedis then before[w.key := w.stored] else before
  }

  predicate Ready(cfg: Config, s: State) {
    |s.batch| >= cfg.batchSize || (s.batch != [] && s.queue == [])
  }

  /** A step that is not possible in a state leaves it as it is. */
  function Next(cfg: Config, s: State, step: Step): State {
    match step
    case Put(key, value, ttl, level) => s.(queue := s.queue + Queued(cfg, key, value, ttl, level))
    case Take =>
      if s.phase == Collecting && s.queue != [] then s.(batch := s.batch + [s.queue[0]], queue := s.queue[1..]) else s
    case Begin => if s.phase == Collecting && Ready(cfg, s) then s.(phase := Writing) else s
    case Land => if s.phase == Writing then s.(redis := Overlay(s.redis, s.batch), phase := Written) else s
    case Swallow => if s.phase == Writing then s.(phase := Written) else s
    case Finish => if s.phase == Written then s.(batch := [], phase := Collecting) else s
    case Fail => if s.phase == Collecting then s else s.(phase := Collecting)
  }

  function After(cfg: Config, s: State, steps: seq<Step>): State {
    if steps == [] then s else Next(cfg, After(cfg, s, steps[..|steps| - 1]), steps[|steps| - 1])
  }

  /** Everything the run's sets queued, in order. */
  function AllQueued(cfg: Config, steps: seq<Step>): seq<Write> {
    if steps == [] then []
    else
      var step := steps[|steps| - 1];
      AllQueued(cfg, steps[..|steps| - 1])
      + if step.Put? then Queued(cfg, step.key, step.value, step.ttl, step.level) else []
  }

  /** Redis as it will be once the batch and then the queue have landed. */
  function Pending(s: State): map<Key, Stored> {
    Overlay(Overlay(s.redis, s.batch), s.queue)
  }

  // ----- overlays -----

  /** The last write to `k`, if any. */
  function LastWrite(ws: seq<Write>, k: Key): Option<Stored> {
    if ws == [] then None
    else
      var w := ws[|ws| - 1];
      if w.target == ToRedis && w.key == k then Some(w.stored) else LastWrite(ws[..|ws| - 1], k)
  }

  lemma {:induction false} OverlayAt(m: map<Key, Stored>, ws: seq<Write>, k: Key)
    ensures k in Overlay(m, ws) <==> k in m || LastWrite(ws, k).Some?
    ensures k in Overlay(m, ws) ==>
              Overlay(m, ws)[k] == if LastWrite(ws, k).Some? then LastWrite(ws, k).value else m[k]
  {
    if ws == [] {
    } else {
      OverlayAt(m, ws[..|ws| - 1], k);
    }
  }

  lemma {:induction false} OverlayConcat(m: map<Key, Stored>, a: seq<Write>, b: seq<Write>)
    ensures Overlay(m, a + b) == Overlay(Overlay(m, a), b)
  {
    if b == [] {
      assert a + b == a;
    } else {
      var last := b[|b| - 1];
      assert (a + b)[..|a + b| - 1] == a + b[..|b| - 1];
      OverlayConcat(m, a, b[..|b| - 1]);
    }
  }

  /** Writing a batch twice, or writing it again after a failure, changes nothing. */
  lemma OverlayTwice(m: map<Key, Stored>, ws: seq<Write>)
    ensures Overlay(Overlay(m, ws), ws) == Overlay(m, ws)
  {
    var once, twice := Overlay(m, ws), Overlay(Overlay(m, ws), ws);
    forall k ensures k in twice <==> k in once {
      OverlayAt(once, ws, k);
      OverlayAt(m, ws, k);
    }
    forall k | k in twice ensures twice[k] == once[k] {
      OverlayAt(once, ws, k);
      OverlayAt(m, ws, k);
    }
  }

  // ----- the abstraction -----

  /** Clearing the batch loses nothing: every key of it is written again by the queue or already
      holds the batch's last value in Redis. */
  ghost predicate NothingLost(s: State) {
    forall k :: LastWrite(s.batch, k).Some? && LastWrite(s.queue, k).None? ==>
      k in s.redis && s.redis[k] == LastWrite(s.batch, k).value
  }

  /** What the pending writes should come to after the step. */
  function Expected(cfg: Config, s: State, step: Step): map<Key, Stored> {
    if step.Put? then Overlay(Pending(s), Queued(cfg, step.key, step.value, step.ttl, step.level)) else Pending(s)
  }

  predicate Clears(s: State, step: Step) {
    step.Finish? && s.phase == Written
  }

  lemma ClearKeepsExactly(cfg: Config, s: State)
    requires s.phase == Written
    ensures Pending(Next(cfg, s, Finish)) == Pending(s) <==> NothingLost(s)
  {
    var left, all := Pending(Next(cfg, s, Finish)), Pending(s);
    assert left == Overlay(Overlay(s.redis, []), s.queue) == Overlay(s.redis, s.queue);
    forall k
      ensures (k in left <==> k in all) && (k in left ==> left[k] == all[k])
         <==> (LastWrite(s.batch, k).Some? && LastWrite(s.queue, k).None? ==>
                 k in s.redis && s.redis[k] == LastWrite(s.batch, k).value)
    {
      OverlayAt(s.redis, s.queue, k);
      OverlayAt(Overlay(s.redis, s.batch), s.queue, k);
      OverlayAt(s.redis, s.batch, k);
    }
    if forall k :: (k in left <==> k in all) && (k in left ==> left[k] == all[k]) {
      assert left == all;
    }
  }

  /** Only clearing a batch can lose a write. */
  lemma StepKeepsExactly(cfg: Config, s: State, step: Step)
    ensures Pending(Next(cfg, s, step)) == Expected(cfg, s, step) <==> (Clears(s, step) ==> NothingLost(s))
  {
    match step
    case Put(key, value, ttl, level) =>
      OverlayConcat(Overlay(s.redis, s.batch), s.queue, Queued(cfg, key, value, ttl, level));
    case Take =>
      if s.phase == Collecting && s.queue != [] {
        assert s.queue == s.queue[..1] + s.queue[1..] && s.queue[..1] == [s.queue[0]];
        OverlayConcat(s.redis, s.batch, s.queue[..1]);
        OverlayConcat(Overlay(s.redis, s.batch), s.queue[..1], s.queue[1..]);
      }
    case Land => OverlayTwice(s.redis, s.batch);
    case Finish =>
      if s.phase == Written {
        ClearKeepsExactly(cfg, s);
      }
    case _ =>
  }

  function Fresh(redis: map<Key, Stored>): State {
    State(redis, [], [], Collecting)
  }

  /** The last set of the key that goes to Redis, which all levels and the local one do: its value,
      with the default ttl when its own is missing or 0. */
  function LastSet(cfg: Config, steps: seq<Step>, k: Key): Option<Stored> {
    if steps == [] then None
    else
      match steps[|steps| - 1]
      case Put(key, value, ttl, level) =>
        if key == k && (level == AllLevels || level == L2Local) then
          Some(Stored(value, if ttl.None? || ttl.value == 0 then cfg.defaultTtl else ttl.value))
        else LastSet(cfg, steps[..|steps| - 1], k)
      case _ => LastSet(cfg, steps[..|steps| - 1], k)
  }

  /** `m` holds for every key what was last set, and what Redis held at first when it was not set. */
  ghost predicate HoldsLastSets(cfg: Config, m: map<Key, Stored>, redis: map<Key, Stored>, steps: seq<Step>) {
    forall k ::
      && (k in m <==> k in redis || LastSet(cfg, steps, k).Some?)
      && (k in m ==> m[k] == if LastSet(cfg, steps, k).Some? then LastSet(cfg, steps, k).value else redis[k])
  }

  lemma LastWriteSnoc(ws: seq<Write>, w: Write, k: Key)
    ensures LastWrite(ws + [w], k) == if w.target == ToRedis && w.key == k then Some(w.stored) else LastWrite(ws, k)
  {
    assert (ws + [w])[..|ws|] == ws;
  }

  lemma LastWriteOfSet(cfg: Config, all: seq<Write>, key: Key, value: string, ttl: Option<int>, level: Level, k: Key)
    ensures LastWrite(all + Queued(cfg, key, value, ttl, level), k)
         == if key == k && (level == AllLevels || level == L2Local) then
              Some(Stored(value, if ttl.None? || ttl.value == 0 then cfg.defaultTtl else ttl.value))
            else LastWrite(all, k)
  {
    var ws := Queued(cfg, key, value, ttl, level);
    if |ws| == 0 {
      assert all + ws == all;
    } else if |ws| == 1 {
      LastWriteSnoc(all, ws[0], k);
      assert all + ws == all + [ws[0]];
    } else {
      LastWriteSnoc(all, ws[0], k);
      LastWriteSnoc(all + [ws[0]], ws[1], k);
      assert all + ws == all + [ws[0]] + [ws[1]];
    }
  }

  lemma {:induction false} LastSetIsLastWrite(cfg: Config, steps: seq<Step>, k: Key)
    ensures LastWrite(AllQueued(cfg, steps), k) == LastSet(cfg, steps, k)
  {
    if steps == [] {
    } else {
      var before, step := steps[..|steps| - 1], steps[|steps| - 1];
      LastSetIsLastWrite(cfg, before, k);
      var all := AllQueued(cfg, before);
      if step.Put? {
        LastWriteOfSet(cfg, all, step.key, step.value, step.ttl, step.level, k);
      } else {
        assert AllQueued(cfg, steps) == all;
      }
    }
  }

  /** So the overlay of everything queued holds the last sets, and nothing else does. */
  lemma OverlayHoldsLastSets(cfg: Config, m: map<Key, Stored>, redis: map<Key, Stored>, steps: seq<Step>)
    ensures HoldsLastSets(cfg, m, redis, steps) <==> m == Overlay(redis, AllQueued(cfg, steps))
  {
    var all := Overlay(redis, AllQueued(cfg, steps));
    forall k
      ensures k in all <==> k in redis || LastSet(cfg, steps, k).Some?
      ensures k in all ==> all[k] == if LastSet(cfg, steps, k).Some? then LastSet(cfg, steps, k).value else redis[k]
    {
      LastSetIsLastWrite(cfg, steps, k);
      OverlayAt(redis, AllQueued(cfg, steps), k);
    }
    if HoldsLastSets(cfg, m, redis, steps) {
      assert forall k :: k in m <==> k in all;
      assert forall k :: k in m ==> m[k] == all[k];
    }
  }

  /** After every step of the run, Redis overlaid with the batch and then the queue holds the last
      sets issued so far. */
  ghost predicate StaysLastWriter(cfg: Config, redis: map<Key, Stored>, steps: seq<Step>) {
    && HoldsLastSets(cfg, Pending(After(cfg, Fresh(redis), steps)), redis, steps)
    && (steps == [] || StaysLastWriter(cfg, redis, steps[..|steps| - 1]))
  }

  ghost predicate NeverLoses(cfg: Config, redis: map<Key, Stored>, steps: seq<Step>) {
    steps == []
    || (var before, last := steps[..|steps| - 1], steps[|steps| - 1];
        var s := After(cfg, Fresh(redis), before);
        NeverLoses(cfg, redis, before) && (Clears(s, last) ==> NothingLost(s)))
  }

  /** Main result: along any interleaving of sets with the worker's collecting, flushing and
      failing, errors that Redis swallows included, the pending writes stay the last-writer map
      exactly as long as no batch is cleared with a write that has neither landed nor been
      overtaken. */
  lemma {:induction false} LastWriterExactly(cfg: Config, redis: map<Key, Stored>, steps: seq<Step>)
    ensures StaysLastWriter(cfg, redis, steps) <==> NeverLoses(cfg, redis, steps)
  {
    OverlayHoldsLastSets(cfg, Pending(After(cfg, Fresh(redis), steps)), redis, steps);
    if steps == [] {
      assert Pending(Fresh(redis)) == redis;
    } else {
      var before, step := steps[..|steps| - 1], steps[|steps| - 1];
      OverlayHoldsLastSets(cfg, Pending(After(cfg, Fresh(redis), before)), redis, before);
      LastWriterExactly(cfg, redis, before);
      StepKeepsExactly(cfg, After(cfg, Fresh(redis), before), step);
      if step.Put? {
        OverlayConcat(redis, AllQueued(cfg, before), Queued(cfg, step.key, step.value, step.ttl, step.level));
      } else {
        assert AllQueued(cfg, steps) == AllQueued(cfg, before);
      }
    }
  }

  lemma OneStepMore(cfg: Config, s: State, steps: seq<Step>, step: Step)
    ensures After(cfg, s, steps + [step]) == Next(cfg, After(cfg, s, steps), step)
    ensures AllQueued(cfg, steps + [step])
         == AllQueued(cfg, steps) + if step.Put? then Queued(cfg, step.key, step.value, step.ttl, step.level) else []
  {
    assert (steps + [step])[..|steps|] == steps;
  }

  /** The states of a worker that takes one write, and whose flush Redis swallows. */
  lemma SwallowedStates(cfg: Config, w: Write)
    ensures var queued := State(map[], [], [w], Collecting);
            var taken, writing := queued.(batch := [w], queue := []), State(map[], [w], [], Writing);
            && Next(cfg, queued, Take) == taken
            && Next(cfg, taken, Begin) == writing
            && Next(cfg, Next(cfg, writing, Swallow), Finish) == Fresh(map[])
  {
  }

  /** A swallowed error loses the writes of its batch for good: one set, and the worker ends with
      nothing pending and nothing in Redis. */
  lemma SwallowedWriteIsLost(cfg: Config, key: Key, value: string, ttl: Option<int>)
    ensures var steps := [Put(key, value, ttl, L2Local), Take, Begin, Swallow, Finish];
            && After(cfg, Fresh(map[]), steps) == Fresh(map[])
            && LastSet(cfg, steps, key).Some? && !HoldsLastSets(cfg, map[], map[], steps)
  {
    var put, s0 := Put(key, value, ttl, L2Local), Fresh(map[]);
    var w := Queued(cfg, key, value, ttl, L2Local)[0];
    var s1 := [] + [put];
    var s2 := s1 + [Take];
    var s3 := s2 + [Begin];
    var s4 := s3 + [Swallow];
    SwallowedStates(cfg, w);
    OneStepMore(cfg, s0, [], put);
    OneStepMore(cfg, s0, s1, Take);
    OneStepMore(cfg, s0, s2, Begin);
    OneStepMore(cfg, s0, s3, Swallow);
    OneStepMore(cfg, s0, s4, Finish);
    assert s4 + [Finish] == [put, Take, Begin, Swallow, Finish];
    assert AllQueued(cfg, s4 + [Finish]) == [w] && [w][..0] == [];
    LastSetIsLastWrite(cfg, s4 + [Finish], key);
  }

  /** In phase Written the batch has landed, unless Redis swallowed it. */
  ghost predicate Consistent(s: State) {
    s.phase == Written ==> Overlay(s.redis, s.batch) == s.redis
  }

  lemma ConsistentLosesNothing(s: State)
    requires Consistent(s) && s.phase == Written
    ensures NothingLost(s)
  {
    forall k | LastWrite(s.batch, k).Some? ensures k in s.redis && s.redis[k] == LastWrite(s.batch, k).value {
      OverlayAt(s.redis, s.batch, k);
    }
  }

  lemma StepConsistent(cfg: Config, s: State, step: Step)
    requires Consistent(s) && !step.Swallow?
    ensures Consistent(Next(cfg, s, step))
  {
    OverlayTwice(s.redis, s.batch);
  }

  /** In particular when Redis swallows no error. */
  lemma {:induction false} PendingIsLastWriter(cfg: Config, redis: map<Key, Stored>, steps: seq<Step>)
    requires Swallow !in steps
    ensures Consistent(After(cfg, Fresh(redis), steps)) && NeverLoses(cfg, redis, steps)
    ensures HoldsLastSets(cfg, Pending(After(cfg, Fresh(redis), steps)), redis, steps)
  {
    if steps == [] {
    } else {
      var before, step := steps[..|steps| - 1], steps[|steps| - 1];
      var s := After(cfg, Fresh(redis), before);
      PendingIsLastWriter(cfg, redis, before);
      assert step in steps;
      StepConsistent(cfg, s, step);
      if Clears(s, step) {
        ConsistentLosesNothing(s);
      }
    }
    LastWriterExactly(cfg, redis, steps);
  }

  /** When batch and queue are empty, Redis itself holds the last sets. */
  lemma DrainedIsLastWriter(cfg: Config, redis: map<Key, Stored>, steps: seq<Step>)
    requires NeverLoses(cfg, redis, steps)
    ensures var s := After(cfg, Fresh(redis), steps);
            s.batch == [] && s.queue == [] ==> HoldsLastSets(cfg, s.redis, redis, steps)
  {
    LastWriterExactly(cfg, redis, steps);
  }

  // ----- draining -----

  /** One undisturbed turn of the worker's loop, the batch landing when it is ready. */
  function Turn(cfg: Config, s: State): State {
    var taken := if s.queue == [] then s else s.(batch := s.batch + [s.queue[0]], queue := s.queue[1..]);
    if Ready(cfg, taken) then taken.(redis := Overlay(taken.redis, taken.batch), batch := []) else taken
  }

  /** It is made of the worker's steps. */
  lemma TurnIsSteps(cfg: Config, s: State)
    requires s.phase == Collecting
    ensures var taken := Next(cfg, s, Take);
            Turn(cfg, s) == if Ready(cfg, taken) then Next(cfg, Next(cfg, Next(cfg, taken, Begin), Land), Finish)
                            else taken
  {
  }

  function Turns(cfg: Config, s: State, n: nat): State
    decreases n
  {
    if n == 0 then s else Turns(cfg, Turn(cfg, s), n - 1)
  }

  lemma TurnShape(cfg: Config, s: State)
    requires s.phase == Collecting
    ensures Turn(cfg, s).phase == Collecting
    ensures |Turn(cfg, s).queue| == if s.queue == [] then 0 else |s.queue| - 1
    ensures Turn(cfg, s).queue == [] ==> Turn(cfg, s).batch == []
  {
  }

  lemma TurnKeeps(cfg: Config, s: State)
    requires s.phase == Collecting
    ensures Pending(Turn(cfg, s)) == Pending(s)
  {
    var taken := Next(cfg, s, Take);
    StepKeepsExactly(cfg, s, Take);
    assert Overlay(Overlay(taken.redis, taken.batch), []) == Overlay(taken.redis, taken.batch);
  }

  /** When callers pause, one turn per queued write (and one if only the batch is left) empties
      both, so no write waits for ever. */
  lemma {:induction false} WorkerDrains(cfg: Config, s: State, n: nat)
    requires s.phase == Collecting && n >= |s.queue| && n >= 1
    ensures Turns(cfg, s, n).batch == [] && Turns(cfg, s, n).queue == []
    ensures Turns(cfg, s, n).redis == Pending(s)
    decreases n
  {
    var t := Turn(cfg, s);
    TurnShape(cfg, s);
    TurnKeeps(cfg, s);
    assert Turns(cfg, s, n) == Turns(cfg, t, n - 1);
    if n == 1 {
      assert Turns(cfg, t, 0) == t;
      assert Pending(t) == t.redis;
    } else {
      WorkerDrains(cfg, t, n - 1);
    }
  }

  /** From end to end: after a run that loses nothing, as many quiet turns as writes are queued leave
      in Redis what was last set for every key. */
  lemma QuietRedisHoldsLastSets(cfg: Config, redis: map<Key, Stored>, steps: seq<Step>, n: nat)
    requires NeverLoses(cfg, redis, steps)
    requires var s := After(cfg, Fresh(redis), steps); s.phase == Collecting && n >= |s.queue| && n >= 1
    ensures HoldsLastSets(cfg, Turns(cfg, After(cfg, Fresh(redis), steps), n).redis, redis, steps)
  {
    LastWriterExactly(cfg, redis, steps);
    WorkerDrains(cfg, After(cfg, Fresh(redis), steps), n);
  }

  /** When a turn flushes: the write it takes fills the batch or was the last one queued. */
  lemma TurnFlushesExactly(cfg: Config, s: State)
    requires s.queue != []
    ensures var t := Turn(cfg, s);
            && t.queue == s.queue[1..] && t.phase == s.phase
            && (if |s.batch| + 1 >= cfg.batchSize || |s.queue| == 1
                then t.batch == [] && t.redis == Overlay(s.redis, s.batch + [s.queue[0]])
                else t.batch == s.batch + [s.queue[0]] && t.redis == s.redis)
  {
  }

  /** What one set queues: a write for Redis first, unless the level is another one, and then one for
      the distributed backend, if there is one and the level is not another one. */
  lemma SetQueuesExactly(cfg: Config, key: Key, value: string, ttl: Option<int>, level: Level)
    ensures var t := if ttl.None? || ttl.value == 0 then cfg.defaultTtl else ttl.value;
            var toRedis := [Write(ToRedis, key, Stored(value, t))];
            var toDistributed := [Write(ToDistributed, key, Stored(value, t))];
            Queued(cfg, key, value, ttl, level)
            == match level
               case AllLevels => if cfg.distributed then toRedis + toDistributed else toRedis
               case L1Memory => []
               case L2Local => toRedis
               case L3Distributed => if cfg.distributed then toDistributed else []
  {
  }

  /** A flush begins when the batch is full or nothing more is queued, and one that fails keeps its
      batch for the next. */
  lemma FlushesExactly(cfg: Config, s: State)
    requires s.phase == Collecting
    ensures Next(cfg, s, Begin)
         == if |s.batch| >= cfg.batchSize || (s.batch != [] && s.queue == []) then s.(phase := Writing) else s
    ensures Next(cfg, s.(phase := Writing), Fail) == s && Next(cfg, s.(phase := Written), Fail) == s
  {
  }

  class CacheManager {
    const cfg: Config
    var redis: map<Key, Stored>
    var queue: seq<Write>
    var batch: seq<Write>
    var phase: Phase

    ghost function View(): State
      reads this
    {
      State(redis, batch, queue, phase)
    }

    constructor (cfg: Config, redis: map<Key, Stored>)
      ensures this.cfg == cfg && View() == State(redis, [], [], Collecting)
    {
      this.cfg, this.redis, queue, batch, phase := cfg, redis, [], [], Collecting;
    }

    method Set(key: Key, value: string, ttl: Option<int>, level: Level)
      modifies this`queue
      ensures View() == Next(cfg, old(View()), Put(key, value, ttl, level))
    {
      var t := if ttl.Some? && ttl.value != 0 then ttl.value else cfg.defaultTtl;
      ghost var was := queue;
      if level == AllLevels || level == L2Local {
        queue := queue + [Write(ToRedis, key, Stored(value, t))];
      }
      if cfg.distributed && (level == AllLevels || level == L3Distributed) {
        queue := queue + [Write(ToDistributed, key, Stored(value, t))];
      }
      assert queue == was + Queued(cfg, key, value, ttl, level);
    }

    /** One turn of the worker's loop with the callers quiet: `get` one write or time out, then
        process and clear the batch if it is ready. */
    method WorkerTurn()
      requires phase == Collecting
      modifies this
      ensures View() == Turn(cfg, old(View()))
    {
      if queue != [] {
        batch := batch + [queue[0]];
        queue := queue[1..];
      }
      if |batch| >= cfg.batchSize || (batch != [] && queue == []) {
        ProcessBatch();
        batch := [];
      }
    }

    /** `_process_write_batch`, the Redis part: the writes are picked out in order and sent as
        one pipeline. */
    method ProcessBatch()
      modifies this`redis
      ensures redis == Overlay(old(redis), batch)
    {
      for i := 0 to |batch|
        invariant redis == Overlay(old(redis), batch[..i])
      {
        assert batch[..i + 1][..i] == batch[..i];
        if batch[i].target == ToRedis {
          redis := redis[batch[i].key := batch[i].stored];
        }
      }
      assert batch[..|batch|] == batch;
    }
  }
}
