/** The multi-tier cache (src/distributed_cluster/cache/backends.py, TieredBackend). A tier is a
    map that may lose keys at any moment, by eviction, expiry or a restart; MemoryRunIsTierRun
    shows that the memory backend is one. A remote tier swallows its errors: it may answer
    a lookup with None, or leave a store, a deletion or a clear undone. */
module Tiered {
  import opened Common
  import opened OrderedDict
  import ByteBackend

  type Value = ByteBackend.Value
  type Tier = map<Key, Value>

  predicate SubMap(m: Tier, big: Tier) {
    forall k :: k in m ==> k in big && m[k] == big[k]
  }

  /** Every tier agrees with the plain map wherever it holds something. */
  ghost predicate Coherent(tiers: seq<Tier>, plain: Tier) {
    forall i :: 0 <= i < |tiers| ==> SubMap(tiers[i], plain)
  }

  /** Operations, and `Lose` for what the environment takes away from one tier. The lookups of
      the tiers in `deaf` fail, and so do the changes to the tiers in `missed`. */
  datatype Op =
    | Get(key: Key, deaf: set<nat>, missed: set<nat>)
    | Set(key: Key, value: Value, missed: set<nat>)
    | Delete(key: Key, missed: set<nat>)
    | Clear(missed: set<nat>)
    | Lose(tier: nat, keys: set<Key>)

  function Lookup(t: Tier, k: Key): Value {
    if k in t then t[k] else None
  }

  /** What lookups find while some tiers do not answer. */
  function Heard(tiers: seq<Tier>, deaf: set<nat>): seq<Tier> {
    seq(|tiers|, i requires 0 <= i < |tiers| => if i in deaf then map[] else tiers[i])
  }

  /** The first tier that answers with something other than None, or their number. */
  function FirstHit(tiers: seq<Tier>, k: Key): (i: nat)
    ensures i <= |tiers|
    ensures i < |tiers| ==> Lookup(tiers[i], k).Some?
    ensures forall j :: 0 <= j < i ==> Lookup(tiers[j], k).None?
  {
    if tiers == [] || Lookup(tiers[0], k).Some? then 0 else 1 + FirstHit(tiers[1..], k)
  }

  /** Storing in the first `n` tiers but those that fail. */
  function StoreUpTo(tiers: seq<Tier>, n: nat, k: Key, v: Value, missed: set<nat>): seq<Tier> {
    seq(|tiers|, i requires 0 <= i < |tiers| => if i < n && i !in missed then tiers[i][k := v] else tiers[i])
  }

  function GetResult(tiers: seq<Tier>, k: Key, deaf: set<nat>, missed: set<nat>): (seq<Tier>, Value) {
    var i := FirstHit(Heard(tiers, deaf), k);
    if i == |tiers| then (tiers, None)
    else (StoreUpTo(tiers, i, k, Lookup(tiers[i], k), missed), Lookup(tiers[i], k))
  }

  function Step(tiers: seq<Tier>, writeThrough: bool, op: Op): seq<Tier> {
    match op
    case Get(k, deaf, missed) => GetResult(tiers, k, deaf, missed).0
    case Set(k, v, missed) => StoreUpTo(tiers, if writeThrough then |tiers| else 1, k, v, missed)
    case Delete(k, missed) =>
      seq(|tiers|, i requires 0 <= i < |tiers| => if i in missed then tiers[i] else tiers[i] - {k})
    case Clear(missed) => seq(|tiers|, i requires 0 <= i < |tiers| => if i in missed then tiers[i] else map[])
    case Lose(t, ks) => if t < |tiers| then tiers[t := tiers[t] - ks] else tiers
  }

  /** What a single map that never loses anything and never fails would hold. */
  function PlainStep(m: Tier, op: Op): Tier {
    match op
    case Set(k, v, _) => m[k := v]
    case Delete(k, _) => m - {k}
    case Clear(_) => map[]
    case _ => m
  }

  function After(tiers: seq<Tier>, writeThrough: bool, ops: seq<Op>): seq<Tier> {
    if ops == [] then tiers
    else Step(After(tiers, writeThrough, ops[..|ops| - 1]), writeThrough, ops[|ops| - 1])
  }

  function Plain(m: Tier, ops: seq<Op>): Tier {
    if ops == [] then m else PlainStep(Plain(m, ops[..|ops| - 1]), ops[|ops| - 1])
  }

  /** What the operation does not reach holds nothing that it makes out of date: another value
      for a stored key, a deleted key, or anything at all after a clear. */
  predicate Harmless(t: Tier, reached: bool, op: Op) {
    match op
    case Set(k, v, _) => reached || k !in t || t[k] == v
    case Delete(k, _) => reached || k !in t
    case Clear(_) => reached || t == map[]
    case _ => true
  }

  /** Whether a store, a deletion or a clear takes effect in tier `i`. */
  predicate Reaches(writeThrough: bool, op: Op, i: nat) {
    match op
    case Set(_, _, missed) => i !in missed && (writeThrough || i == 0)
    case Delete(_, missed) => i !in missed
    case Clear(missed) => i !in missed
    case _ => true
  }

  ghost predicate AllHarmless(tiers: seq<Tier>, writeThrough: bool, op: Op) {
    forall i :: 0 <= i < |tiers| ==> Harmless(tiers[i], Reaches(writeThrough, op, i), op)
  }

  lemma TierCoherentExactly(tiers: seq<Tier>, plain: Tier, writeThrough: bool, op: Op, i: nat)
    requires Coherent(tiers, plain) && i < |tiers|
    ensures |Step(tiers, writeThrough, op)| == |tiers|
    ensures SubMap(Step(tiers, writeThrough, op)[i], PlainStep(plain, op))
       <==> Harmless(tiers[i], Reaches(writeThrough, op, i), op)
  {
    var t, t' := tiers[i], Step(tiers, writeThrough, op)[i];
    assert SubMap(t, plain);
    match op
    case Get(k, deaf, missed) =>
      var hit := FirstHit(Heard(tiers, deaf), k);
      if hit < |tiers| {
        assert SubMap(tiers[hit], plain);
      }
    case Set(k, v, missed) =>
      if k in t && !Reaches(writeThrough, op, i) {
        assert SubMap(t', plain[k := v]) ==> t[k] == v;
      }
    case Delete(k, missed) =>
      if k in t && i in missed {
        assert k in t' && k !in plain - {k};
      }
    case Clear(missed) =>
      if t != map[] && i in missed {
        var k :| k in t;
        assert k in t';
      }
    case Lose(_, _) =>
  }

  /** One operation keeps the tiers coherent exactly when every tier it does not reach, because
      the tier failed or only the top tier is written, holds nothing that is now out of date. */
  lemma StepCoherentExactly(tiers: seq<Tier>, plain: Tier, writeThrough: bool, op: Op)
    requires Coherent(tiers, plain)
    ensures Coherent(Step(tiers, writeThrough, op), PlainStep(plain, op)) <==> AllHarmless(tiers, writeThrough, op)
  {
    var tiers', plain' := Step(tiers, writeThrough, op), PlainStep(plain, op);
    assert |tiers'| == |tiers|;
    forall i: nat | i < |tiers|
      ensures SubMap(tiers'[i], plain') <==> Harmless(tiers[i], Reaches(writeThrough, op, i), op)
    {
      TierCoherentExactly(tiers, plain, writeThrough, op, i);
    }
  }

  /** The tiers agree with the plain map after every step of the run. */
  ghost predicate StaysCoherent(tiers: seq<Tier>, plain: Tier, writeThrough: bool, ops: seq<Op>) {
    && Coherent(After(tiers, writeThrough, ops), Plain(plain, ops))
    && (ops == [] || StaysCoherent(tiers, plain, writeThrough, ops[..|ops| - 1]))
  }

  ghost predicate NeverHarmed(tiers: seq<Tier>, writeThrough: bool, ops: seq<Op>) {
    ops == []
    || (var before, last := ops[..|ops| - 1], ops[|ops| - 1];
        NeverHarmed(tiers, writeThrough, before) && AllHarmless(After(tiers, writeThrough, before), writeThrough, last))
  }

  /** Main result: along any run, with any losses and failures, everything any tier holds is what
      was last stored for its key and not deleted since, exactly as long as no operation leaves
      out a tier with something that it makes out of date. */
  lemma {:induction false} RunCoherentExactly(tiers: seq<Tier>, plain: Tier, writeThrough: bool, ops: seq<Op>)
    requires Coherent(tiers, plain)
    ensures StaysCoherent(tiers, plain, writeThrough, ops) <==> NeverHarmed(tiers, writeThrough, ops)
  {
    if ops == [] {
    } else {
      var before, last := ops[..|ops| - 1], ops[|ops| - 1];
      RunCoherentExactly(tiers, plain, writeThrough, before);
      if StaysCoherent(tiers, plain, writeThrough, before) {
        StepCoherentExactly(After(tiers, writeThrough, before), Plain(plain, before), writeThrough, last);
      }
    }
  }

  /** No tier fails to carry out the change. */
  predicate Complete(op: Op) {
    op.Get? || op.Lose? || op.missed == {}
  }

  /** In particular under write-through, whatever is lost and whichever lookups and promotions
      fail, if no store, deletion or clear does. */
  lemma {:induction false} AlwaysCoherent(tiers: seq<Tier>, plain: Tier, ops: seq<Op>)
    requires Coherent(tiers, plain) && forall op :: op in ops ==> Complete(op)
    ensures StaysCoherent(tiers, plain, true, ops)
  {
    if ops == [] {
    } else {
      var before, last := ops[..|ops| - 1], ops[|ops| - 1];
      assert last in ops;
      AlwaysCoherent(tiers, plain, before);
      StepCoherentExactly(After(tiers, true, before), Plain(plain, before), true, last);
    }
  }

  lemma OneStepMore(tiers: seq<Tier>, plain: Tier, writeThrough: bool, ops: seq<Op>, op: Op)
    ensures After(tiers, writeThrough, ops + [op]) == Step(After(tiers, writeThrough, ops), writeThrough, op)
    ensures Plain(plain, ops + [op]) == PlainStep(Plain(plain, ops), op)
  {
    assert (ops + [op])[..|ops|] == ops;
  }

  /** A store that a tier misses comes back: once the tier above has lost the new value, a lookup
      answers the old one. */
  lemma MissedStoreServesOld(k: Key, was: Value, now: Value)
    requires was.Some? && was != now
    ensures var tiers, plain := [map[k := was], map[k := was]], map[k := was];
            var ops := [Op.Set(k, now, {1}), Lose(0, {k})];
            && Coherent(tiers, plain)
            && GetResult(After(tiers, true, ops), k, {}, {}).1 == was
            && Plain(plain, ops) == map[k := now]
  {
    var tiers, plain := [map[k := was], map[k := was]], map[k := was];
    var store, lose := Op.Set(k, now, {1}), Lose(0, {k});
    var left := [map[], map[k := was]];
    OneStepMore(tiers, plain, true, [], store);
    OneStepMore(tiers, plain, true, [] + [store], lose);
    assert [] + [store] + [lose] == [store, lose];
    var stored := [map[k := now], map[k := was]];
    assert map[k := was][k := now] == map[k := now];
    assert Step(tiers, true, store) == stored by {
      assert forall i :: 0 <= i < 2 ==> Step(tiers, true, store)[i] == stored[i];
    }
    assert Step(stored, true, lose) == left by {
      assert map[k := now] - {k} == map[];
    }
    assert Heard(left, {}) == left && left[1..] == [map[k := was]];
    assert FirstHit(left, k) == 1;
  }

  /** A lookup in coherent tiers answers the plain map's value if some tier that answers still
      holds one, None otherwise. */
  lemma LookupAgrees(tiers: seq<Tier>, plain: Tier, k: Key, deaf: set<nat>, missed: set<nat>)
    requires Coherent(tiers, plain)
    ensures GetResult(tiers, k, deaf, missed).1
         == if exists i :: 0 <= i < |tiers| && i !in deaf && Lookup(tiers[i], k).Some? then Lookup(plain, k) else None
  {
    var heard := Heard(tiers, deaf);
    var i := FirstHit(heard, k);
    if i < |tiers| {
      assert heard[i] == tiers[i] && SubMap(tiers[i], plain);
    } else {
      forall j | 0 <= j < |tiers| && j !in deaf ensures Lookup(tiers[j], k).None? {
        assert heard[j] == tiers[j];
      }
    }
  }

  /** A hit is promoted: every tier above the one that answered now holds the value unless its
      store failed, so if the first one's did not, the same lookup again is answered by it and
      changes nothing. */
  lemma HitIsPromoted(tiers: seq<Tier>, k: Key, deaf: set<nat>, missed: set<nat>)
    requires GetResult(tiers, k, deaf, missed).1.Some?
    ensures var (tiers', v) := GetResult(tiers, k, deaf, missed);
            var hit := FirstHit(Heard(tiers, deaf), k);
            && (forall i :: 0 <= i <= hit && (i !in missed || i == hit) ==> Lookup(tiers'[i], k) == v)
            && (hit == 0 || 0 !in missed ==> forall again :: GetResult(tiers', k, {}, again) == (tiers', v))
  {
    var (tiers', v) := GetResult(tiers, k, deaf, missed);
    var hit := FirstHit(Heard(tiers, deaf), k);
    assert Heard(tiers', {}) == tiers';
    if hit == 0 || 0 !in missed {
      assert Lookup(tiers'[0], k) == v;
      forall again ensures GetResult(tiers', k, {}, again) == (tiers', v) {
        assert StoreUpTo(tiers', 0, k, v, again) == tiers';
      }
    }
  }

  /** Without write-through nothing ever reaches the tiers below the first: starting empty, they
      stay empty, and the first tier alone is coherent with the plain map if no change to it
      fails. */
  lemma {:induction false} WriteBackNeverWritesBack(n: nat, ops: seq<Op>)
    requires n >= 1
    ensures var tiers := After(seq(n, i => map[]), false, ops);
            && |tiers| == n
            && (forall i :: 1 <= i < n ==> tiers[i] == map[])
            && ((forall op :: op in ops ==> Complete(op)) ==> Coherent(tiers, Plain(map[], ops)))
  {
    if ops == [] {
    } else {
      var before, op := ops[..|ops| - 1], ops[|ops| - 1];
      WriteBackNeverWritesBack(n, before);
      var tiers := After(seq(n, i => map[]), false, before);
      forall i | 1 <= i < n ensures Step(tiers, false, op)[i] == map[] {
        assert tiers[i] == map[];
        if op.Get? {
          assert Lookup(Heard(tiers, op.deaf)[i], op.key).None?;
        }
      }
      assert op in ops && forall o :: o in before ==> o in ops;
      if forall o :: o in ops ==> Complete(o) {
        StepCoherentExactly(tiers, Plain(map[], before), false, op);
      }
    }
  }

  // ----- what is stored and found -----

  /** The tier is left as it was, but for one key. */
  ghost predicate SameBut(t: Tier, t': Tier, k: Key) {
    forall x :: x != k ==> (x in t' <==> x in t) && (x in t ==> t'[x] == t[x])
  }

  /** A store puts its value under its key into every tier it reaches: all of them under
      write-through, the first otherwise, less those that fail. Nothing else changes. */
  lemma StoreReachesExactly(tiers: seq<Tier>, writeThrough: bool, k: Key, v: Value, missed: set<nat>)
    ensures var tiers' := Step(tiers, writeThrough, Op.Set(k, v, missed));
            && |tiers'| == |tiers|
            && forall i :: 0 <= i < |tiers| ==>
                 && SameBut(tiers[i], tiers'[i], k)
                 && (if (writeThrough || i == 0) && i !in missed then k in tiers'[i] && tiers'[i][k] == v
                     else tiers'[i] == tiers[i])
  {
  }

  /** A deletion removes its key from every tier that does not fail, a clear everything. */
  lemma DeletionReachesExactly(tiers: seq<Tier>, writeThrough: bool, k: Key, missed: set<nat>)
    ensures var deleted := Step(tiers, writeThrough, Op.Delete(k, missed));
            var cleared := Step(tiers, writeThrough, Op.Clear(missed));
            && |deleted| == |cleared| == |tiers|
            && forall i :: 0 <= i < |tiers| ==>
                 if i in missed then deleted[i] == tiers[i] && cleared[i] == tiers[i]
                 else k !in deleted[i] && SameBut(tiers[i], deleted[i], k) && cleared[i] == map[]
  {
  }

  /** A loss takes only the lost keys from its own tier. */
  lemma LossReachesExactly(tiers: seq<Tier>, writeThrough: bool, t: nat, ks: set<Key>)
    ensures var tiers' := Step(tiers, writeThrough, Lose(t, ks));
            && |tiers'| == |tiers|
            && forall i :: 0 <= i < |tiers| ==>
                 if i != t then tiers'[i] == tiers[i]
                 else forall x :: (x in tiers'[i] <==> x in tiers[i] && x !in ks)
                                  && (x in tiers'[i] ==> tiers'[i][x] == tiers[i][x])
  {
  }

  /** The lowest-numbered tier that answers. */
  ghost predicate AnswersFirst(tiers: seq<Tier>, k: Key, deaf: set<nat>, i: nat) {
    && i < |tiers| && i !in deaf && Lookup(tiers[i], k).Some?
    && forall j :: 0 <= j < i ==> j in deaf || Lookup(tiers[j], k).None?
  }

  ghost predicate Promoted(tiers: seq<Tier>, tiers': seq<Tier>, k: Key, v: Value, missed: set<nat>, hit: nat)
    requires hit < |tiers| == |tiers'|
  {
    && v == Lookup(tiers[hit], k)
    && forall i :: 0 <= i < |tiers| ==>
         && SameBut(tiers[i], tiers'[i], k)
         && if i < hit && i !in missed then Lookup(tiers'[i], k) == v else tiers'[i] == tiers[i]
  }

  /** A lookup answers what the first tier that answers holds, None if there is none, and puts it
      into the tiers above that take it. Nothing else changes. */
  lemma LookupExactly(tiers: seq<Tier>, k: Key, deaf: set<nat>, missed: set<nat>)
    ensures var (tiers', v) := GetResult(tiers, k, deaf, missed);
            && |tiers'| == |tiers|
            && (v.None? ==> tiers' == tiers && forall i: nat :: !AnswersFirst(tiers, k, deaf, i))
            && (v.Some? ==> exists hit: nat ::
                  AnswersFirst(tiers, k, deaf, hit) && Promoted(tiers, tiers', k, v, missed, hit))
  {
    var heard := Heard(tiers, deaf);
    var hit := FirstHit(heard, k);
    assert forall i :: 0 <= i < |tiers| ==> Lookup(heard[i], k) == if i in deaf then None else Lookup(tiers[i], k);
    if hit < |tiers| {
      assert AnswersFirst(tiers, k, deaf, hit);
      assert Promoted(tiers, GetResult(tiers, k, deaf, missed).0, k, Lookup(tiers[hit], k), missed, hit);
    }
  }

  /** The operation neither stores, deletes nor clears the key, nor takes it from tier `i`. */
  predicate LeavesAlone(op: Op, k: Key, i: nat) {
    match op
    case Get(_, _, _) => true
    case Set(x, _, _) => x != k
    case Delete(x, _) => x != k
    case Clear(_) => false
    case Lose(t, ks) => t != i || k !in ks
  }

  /** The tier holds this value for the key, and no tier another one. */
  ghost predicate Held(tiers: seq<Tier>, k: Key, v: Value, i: nat) {
    && i < |tiers| && k in tiers[i]
    && forall j :: 0 <= j < |tiers| && k in tiers[j] ==> tiers[j][k] == v
  }

  lemma StepHolds(tiers: seq<Tier>, writeThrough: bool, op: Op, k: Key, v: Value, i: nat)
    requires v.Some? && Held(tiers, k, v, i) && LeavesAlone(op, k, i)
    ensures Held(Step(tiers, writeThrough, op), k, v, i)
  {
    if op.Get? {
      LookupExactly(tiers, op.key, op.deaf, op.missed);
      assert Lookup(tiers[i], k) == v;
    }
  }

  lemma {:induction false} RunHolds(tiers: seq<Tier>, writeThrough: bool, ops: seq<Op>, k: Key, v: Value, i: nat)
    requires v.Some? && Held(tiers, k, v, i) && forall op :: op in ops ==> LeavesAlone(op, k, i)
    ensures Held(After(tiers, writeThrough, ops), k, v, i)
  {
    if ops == [] {
    } else {
      var before, last := ops[..|ops| - 1], ops[|ops| - 1];
      assert last in ops;
      RunHolds(tiers, writeThrough, before, k, v, i);
      StepHolds(After(tiers, writeThrough, before), writeThrough, last, k, v, i);
    }
  }

  lemma {:induction false} AfterLength(tiers: seq<Tier>, writeThrough: bool, ops: seq<Op>)
    ensures |After(tiers, writeThrough, ops)| == |tiers|
  {
    if ops == [] {
    } else {
      AfterLength(tiers, writeThrough, ops[..|ops| - 1]);
    }
  }

  lemma {:induction false} RunConcat(tiers: seq<Tier>, m: Tier, writeThrough: bool, a: seq<Op>, b: seq<Op>)
    ensures After(tiers, writeThrough, a + b) == After(After(tiers, writeThrough, a), writeThrough, b)
    ensures Plain(m, a + b) == Plain(Plain(m, a), b)
  {
    if b == [] {
      assert a + b == a;
    } else {
      assert (a + b)[..|a + b| - 1] == a + b[..|b| - 1];
      RunConcat(tiers, m, writeThrough, a, b[..|b| - 1]);
    }
  }

  lemma HeldAnswers(tiers: seq<Tier>, k: Key, v: Value, i: nat, deaf: set<nat>, missed: set<nat>)
    requires v.Some? && Held(tiers, k, v, i) && i !in deaf
    ensures GetResult(tiers, k, deaf, missed).1 == v
  {
    var heard := Heard(tiers, deaf);
    assert Lookup(heard[i], k) == v;
    var hit := FirstHit(heard, k);
    assert Lookup(heard[hit], k) == Lookup(tiers[hit], k);
  }

  /** Main result, from end to end: under write-through a lookup answers the last value set, as long
      as one tier that answers has not lost the key since, whatever else is looked up, promoted,
      stored, deleted and lost in between. */
  lemma LastSetIsServed(tiers: seq<Tier>, before: seq<Op>, k: Key, v: Value, since: seq<Op>, i: nat,
                        deaf: set<nat>, missed: set<nat>)
    requires v.Some? && i < |tiers| && i !in deaf
    requires forall op :: op in since ==> LeavesAlone(op, k, i)
    ensures GetResult(After(tiers, true, before + [Op.Set(k, v, {})] + since), k, deaf, missed).1 == v
  {
    var start := After(tiers, true, before);
    AfterLength(tiers, true, before);
    OneStepMore(tiers, map[], true, before, Op.Set(k, v, {}));
    StoreReachesExactly(start, true, k, v, {});
    RunConcat(tiers, map[], true, before + [Op.Set(k, v, {})], since);
    RunHolds(Step(start, true, Op.Set(k, v, {})), true, since, k, v, i);
    HeldAnswers(After(tiers, true, before + [Op.Set(k, v, {})] + since), k, v, i, deaf, missed);
  }

  // ----- the memory backend as a tier -----

  /** What an operation of the memory backend does to a tier besides taking keys away: it stores,
      deletes, clears or looks up. Presence tests and cleanups only take away. */
  function Rest(op: ByteBackend.Op): seq<Op> {
    match op
    case Get(k, _) => [Op.Get(k, {}, {})]
    case Set(k, v, _, _, _) => [Op.Set(k, v, {})]
    case Delete(k) => [Op.Delete(k, {})]
    case Clear => [Op.Clear({})]
    case Exists(_, _) => []
    case CleanupExpired(_) => []
  }

  function TierOps(d: seq<ByteBackend.Entry>, lim: ByteBackend.Limits, op: ByteBackend.Op): seq<Op> {
    [Lose(0, ByteBackend.Lost(d, lim, op))] + Rest(op)
  }

  /** The run of a lossy map that a run of the memory backend amounts to. */
  function Simulated(lim: ByteBackend.Limits, ops: seq<ByteBackend.Op>): seq<Op> {
    if ops == [] then []
    else
      var before := ops[..|ops| - 1];
      Simulated(lim, before) + TierOps(ByteBackend.After(lim, before), lim, ops[|ops| - 1])
  }

  /** What that makes of a single map. */
  function Changed(t: Tier, op: ByteBackend.Op): Tier {
    match op
    case Set(k, v, _, _, _) => t[k := v]
    case Delete(k) => t - {k}
    case Clear => map[]
    case _ => t
  }

  /** What the sets, deletions and clears of a run leave in a map that loses nothing. */
  function LastSets(ops: seq<ByteBackend.Op>): Tier {
    if ops == [] then map[] else Changed(LastSets(ops[..|ops| - 1]), ops[|ops| - 1])
  }

  lemma OneOp(tiers: seq<Tier>, m: Tier, writeThrough: bool, op: Op)
    ensures After(tiers, writeThrough, [op]) == Step(tiers, writeThrough, op)
    ensures Plain(m, [op]) == PlainStep(m, op)
  {
    assert [op][..0] == [];
  }

  lemma RestChanges(t: Tier, m: Tier, writeThrough: bool, op: ByteBackend.Op)
    ensures After([t], writeThrough, Rest(op)) == [Changed(t, op)]
    ensures Plain(m, Rest(op)) == Changed(m, op)
  {
    if Rest(op) != [] {
      OneOp([t], m, writeThrough, Rest(op)[0]);
      assert Step([t], writeThrough, Rest(op)[0])[0] == Changed(t, op) by {
        assert Heard([t], {}) == [t];
      }
    }
  }

  lemma LosingAgain(d: seq<ByteBackend.Entry>, lim: ByteBackend.Limits, op: ByteBackend.Op)
    requires DistinctKeys(d)
    ensures Changed(ByteBackend.Contents(d) - ByteBackend.Lost(d, lim, op), op)
         == ByteBackend.Contents(ByteBackend.Step(d, lim, op))
  {
    ByteBackend.StepIsLossy(d, lim, op);
    match op
    case Delete(k) => ByteBackend.ContentsRemove(d, k);
    case _ =>
  }

  /** One operation of the memory backend is its tier steps. */
  lemma MemoryStepIsTierSteps(d: seq<ByteBackend.Entry>, lim: ByteBackend.Limits, op: ByteBackend.Op, m: Tier,
                              writeThrough: bool)
    requires DistinctKeys(d)
    ensures After([ByteBackend.Contents(d)], writeThrough, TierOps(d, lim, op))
         == [ByteBackend.Contents(ByteBackend.Step(d, lim, op))]
    ensures Plain(m, TierOps(d, lim, op)) == Changed(m, op)
  {
    var all, lose := ByteBackend.Contents(d), Lose(0, ByteBackend.Lost(d, lim, op));
    var left := all - ByteBackend.Lost(d, lim, op);
    RunConcat([all], m, writeThrough, [lose], Rest(op));
    OneOp([all], m, writeThrough, lose);
    assert Step([all], writeThrough, lose) == [left];
    RestChanges(left, m, writeThrough, op);
    LosingAgain(d, lim, op);
  }

  /** A lookup in the memory backend answers what the lookup in the tier does. */
  lemma MemoryLookupIsTierLookup(d: seq<ByteBackend.Entry>, lim: ByteBackend.Limits, k: Key, now: real)
    requires DistinctKeys(d)
    ensures ByteBackend.GetResult(d, k, now).1
         == Lookup(ByteBackend.Contents(d) - ByteBackend.Lost(d, lim, ByteBackend.Get(k, now)), k)
  {
    ByteBackend.GetIsLossyLookup(d, k, now);
    ByteBackend.StepIsLossy(d, lim, ByteBackend.Get(k, now));
  }

  /** Main result on the memory backend as a tier: along any run its contents are those of a lossy
      map over the same sets, deletions and clears. */
  lemma {:induction false} MemoryRunIsTierRun(lim: ByteBackend.Limits, ops: seq<ByteBackend.Op>, writeThrough: bool)
    ensures After([map[]], writeThrough, Simulated(lim, ops)) == [ByteBackend.Contents(ByteBackend.After(lim, ops))]
    ensures Plain(map[], Simulated(lim, ops)) == LastSets(ops)
  {
    if ops == [] {
    } else {
      var before, op := ops[..|ops| - 1], ops[|ops| - 1];
      var d, run := ByteBackend.After(lim, before), Simulated(lim, before);
      MemoryRunIsTierRun(lim, before, writeThrough);
      RunConcat([map[]], map[], writeThrough, run, TierOps(d, lim, op));
      assert DistinctKeys(d) by {
        ByteBackend.LimitsHeld(lim, before);
      }
      MemoryStepIsTierSteps(d, lim, op, LastSets(before), writeThrough);
      assert Simulated(lim, ops) == run + TierOps(d, lim, op);
    }
  }

  lemma {:induction false} SimulatedComplete(lim: ByteBackend.Limits, ops: seq<ByteBackend.Op>)
    ensures forall op :: op in Simulated(lim, ops) ==> Complete(op)
  {
    if ops == [] {
    } else {
      SimulatedComplete(lim, ops[..|ops| - 1]);
    }
  }

  /** So whatever the memory backend holds is what was last stored for its key. */
  lemma MemoryIsCoherent(lim: ByteBackend.Limits, ops: seq<ByteBackend.Op>)
    ensures SubMap(ByteBackend.Contents(ByteBackend.After(lim, ops)), LastSets(ops))
  {
    var tiers := After([map[]], true, Simulated(lim, ops));
    MemoryRunIsTierRun(lim, ops, true);
    SimulatedComplete(lim, ops);
    AlwaysCoherent([map[]], map[], Simulated(lim, ops));
    assert Coherent(tiers, LastSets(ops)) && SubMap(tiers[0], LastSets(ops));
  }

  class TieredBackend {
    const writeThrough: bool
    var tiers: seq<Tier>

    constructor (tiers: seq<Tier>, writeThrough: bool := true)
      ensures this.tiers == tiers && this.writeThrough == writeThrough
    {
      this.tiers, this.writeThrough := tiers, writeThrough;
    }

    method Get(key: Key, deaf: set<nat>, missed: set<nat>) returns (r: Value)
      modifies this`tiers
      ensures (tiers, r) == GetResult(old(tiers), key, deaf, missed)
    {
      ghost var heard := Heard(tiers, deaf);
      for i := 0 to |tiers|
        invariant tiers == old(tiers)
        invariant forall j :: 0 <= j < i ==> Lookup(heard[j], key).None?
      {
        var value := if i in deaf then None else Lookup(tiers[i], key);
        if value.Some? {
          assert heard[i] == tiers[i] && i == FirstHit(heard, key);
          for j := 0 to i
            invariant tiers == StoreUpTo(old(tiers), j, key, value, missed)
          {
            if j !in missed {
              tiers := tiers[j := tiers[j][key := value]];
            }
          }
          return value;
        }
      }
      r := None;
    }

    /** Writes every tier, or the top one only, and reports whether all did. None stands for the
        IndexError of writing the top tier when there is no tier. */
    method Set(key: Key, value: Value, missed: set<nat>) returns (ok: Option<bool>)
      modifies this`tiers
      ensures tiers == Step(old(tiers), writeThrough, Op.Set(key, value, missed))
      ensures writeThrough ==> ok == Some(forall i: nat :: i < |old(tiers)| ==> i !in missed)
      ensures !writeThrough ==> ok == if old(tiers) != [] then Some(0 !in missed) else None
    {
      if writeThrough {
        var all := true;
        for i := 0 to |tiers|
          invariant |tiers| == |old(tiers)| && tiers == StoreUpTo(old(tiers), i, key, value, missed)
          invariant all == forall j: nat :: j < i ==> j !in missed
        {
          if i in missed {
            all := false;
          } else {
            tiers := tiers[i := tiers[i][key := value]];
          }
        }
        return Some(all);
      }
      if tiers == [] {
        return None;
      }
      if 0 !in missed {
        tiers := tiers[0 := tiers[0][key := value]];
      }
      ok := Some(0 !in missed);
    }

    /** Reports whether some tier had the key and deleted it. */
    method Delete(key: Key, missed: set<nat>) returns (any: bool)
      modifies this`tiers
      ensures tiers == Step(old(tiers), writeThrough, Op.Delete(key, missed))
      ensures any == exists i :: 0 <= i < |old(tiers)| && i !in missed && key in old(tiers)[i]
    {
      any := false;
      for i := 0 to |tiers|
        invariant |tiers| == |old(tiers)|
        invariant forall j :: 0 <= j < |tiers| ==>
                    tiers[j] == if j < i && j !in missed then old(tiers)[j] - {key} else old(tiers)[j]
        invariant any == exists j :: 0 <= j < i && j !in missed && key in old(tiers)[j]
      {
        if i !in missed {
          any := any || key in tiers[i];
          tiers := tiers[i := tiers[i] - {key}];
        }
      }
    }

    method Clear(missed: set<nat>)
      modifies this`tiers
      ensures tiers == Step(old(tiers), writeThrough, Op.Clear(missed))
    {
      var was := tiers;
      tiers := seq(|was|, i requires 0 <= i < |was| => if i in missed then was[i] else map[]);
    }
  }
}
