/** Backup retention (src/distributed_cluster/backup/manager.py, _cleanup_old_backups, with
    src/distributed_cluster/backup/scheduler.py, RetentionPolicy.should_delete).
    Creation times are microseconds; sizes are bytes, summed as reals in GB. */
module Retention {
  import opened Common
  import opened OrderedDict

  datatype Kind = Full | Incremental | Differential | ConfigOnly | StateOnly

  /** A stored snapshot under its id. */
  datatype Info = Info(kind: Kind, created: int, bytes: nat)
  type Snapshot = Item<Info>

  datatype Policy = Policy(
    keepFull: int,
    keepIncremental: int,
    maxAgeDays: int,
    minBackups: int,
    maxTotalGb: Option<real>,
    byKind: map<Kind, int>)

  const DAY: int := 86_400_000_000

  function KindOf(): Snapshot -> Kind {
    (s: Snapshot) => s.val.kind
  }

  function ByCreation(): Snapshot -> real {
    (s: Snapshot) => s.val.created as real
  }

  function Gb(s: Snapshot): real {
    s.val.bytes as real / 1073741824.0
  }

  function GbOf(): Snapshot -> real {
    (s: Snapshot) => Gb(s)
  }

  /** `timedelta.days` rounds down, for negative ages too. */
  function AgeDays(s: Snapshot, now: int): int {
    (now - s.val.created) / DAY
  }

  /** `should_delete`. A size limit of 0 is falsy and means no limit. */
  predicate ShouldDelete(p: Policy, age: int, kind: Kind, count: int, sizeGb: real) {
    if count <= p.minBackups then false
    else if age > p.maxAgeDays then true
    else if p.maxTotalGb.Some? && p.maxTotalGb.value != 0.0 && sizeGb > p.maxTotalGb.value then true
    else if kind in p.byKind && count > p.byKind[kind] then true
    else if kind == Full then count > p.keepFull
    else if kind == Incremental then count > p.keepIncremental
    else false
  }

  /** Whether a snapshot is due at a given count and total size. */
  type Due = (Snapshot, int, real) -> bool

  function DueUnder(p: Policy, now: int): Due {
    (s: Snapshot, count: int, sizeGb: real) => ShouldDelete(p, AgeDays(s, now), s.val.kind, count, sizeGb)
  }

  /** When a snapshot is due, limit by limit. */
  lemma ShouldDeleteExactly(p: Policy, age: int, kind: Kind, count: int, sizeGb: real)
    ensures ShouldDelete(p, age, kind, count, sizeGb)
       <==> && count > p.minBackups
            && (|| age > p.maxAgeDays
                || (p.maxTotalGb.Some? && p.maxTotalGb.value != 0.0 && sizeGb > p.maxTotalGb.value)
                || (kind in p.byKind && count > p.byKind[kind])
                || (kind == Full && count > p.keepFull)
                || (kind == Incremental && count > p.keepIncremental))
  {
  }

  /** A snapshot is `days` old once that many times 24 hours have passed, in microseconds; sizes are
      counted in units of 2 to the 30th bytes. */
  lemma UnitsExactly(s: Snapshot, now: int, days: int)
    ensures AgeDays(s, now) >= days <==> now - s.val.created >= days * 86_400_000_000
    ensures Gb(s) * 1073741824.0 == s.val.bytes as real
  {
  }

  /** Older, more numerous and bigger is never safer. */
  lemma ShouldDeleteMonotone(p: Policy, kind: Kind, age: int, count: int, sizeGb: real,
                             age': int, count': int, sizeGb': real)
    requires ShouldDelete(p, age, kind, count, sizeGb)
    requires age <= age' && count <= count' && sizeGb <= sizeGb'
    ensures ShouldDelete(p, age', kind, count', sizeGb')
  {
  }

  /** What a pass has done: the snapshots it tried to delete, those that went, those that stay,
      the shared deletion counter and the tracked total size. */
  datatype Pass = Pass(attempts: seq<Snapshot>, removed: seq<Snapshot>, kept: seq<Snapshot>, deleted: int, total: real)

  /** The loop over one type's snapshots, `todo` being what is left of the group of `n`. The
      storage may fail to delete; `refused` are the ids for which it does. */
  function GroupPass(due: Due, refused: set<Key>, n: nat, todo: seq<Snapshot>, deleted: int, total: real): Pass {
    if todo == [] then Pass([], [], [], deleted, total)
    else
      var s := todo[0];
      if due(s, n - deleted, total) then
        if s.key !in refused then
          var r := GroupPass(due, refused, n, todo[1..], deleted + 1, total - Gb(s));
          r.(attempts := [s] + r.attempts, removed := [s] + r.removed)
        else
          var r := GroupPass(due, refused, n, todo[1..], deleted, total);
          r.(attempts := [s] + r.attempts, kept := [s] + r.kept)
      else
        var r := GroupPass(due, refused, n, todo[1..], deleted, total);
        r.(kept := [s] + r.kept)
  }

  function Group(snaps: seq<Snapshot>, kind: Kind): seq<Snapshot> {
    StableSort(Filter(snaps, GroupIs(KindOf(), kind)), ByCreation())
  }

  function Joined(a: Pass, b: Pass): Pass {
    Pass(a.attempts + b.attempts, a.removed + b.removed, a.kept + b.kept, b.deleted, b.total)
  }

  /** The loop over the types, in the order of the grouping dictionary. */
  function Cleanup(due: Due, refused: set<Key>, snaps: seq<Snapshot>, kinds: seq<Kind>, deleted: int,
                   total: real): Pass {
    if kinds == [] then Pass([], [], [], deleted, total)
    else
      var g := Group(snaps, kinds[0]);
      var a := GroupPass(due, refused, |g|, g, deleted, total);
      Joined(a, Cleanup(due, refused, snaps, kinds[1..], a.deleted, a.total))
  }

  function Kinds(snaps: seq<Snapshot>): seq<Kind> {
    seq(|snaps|, i requires 0 <= i < |snaps| => snaps[i].val.kind)
  }

  /** The types in the order of their first snapshots, as the grouping dictionary lists them. */
  function KindOrder(snaps: seq<Snapshot>): seq<Kind> {
    Firsts(Kinds(snaps))
  }

  function TotalGb(snaps: seq<Snapshot>): real {
    Sum(snaps, GbOf())
  }

  /** The whole cleanup of what the storage lists. */
  function CleanupAll(p: Policy, now: int, refused: set<Key>, snaps: seq<Snapshot>): Pass {
    Cleanup(DueUnder(p, now), refused, snaps, KindOrder(snaps), 0, TotalGb(snaps))
  }

  // ----- one group -----

  /** If an older snapshot is spared, no younger one is due at a count and a size that are no
      greater. */
  ghost predicate Monotone(due: Due, g: seq<Snapshot>) {
    forall i, j, count, count', total, total' ::
      0 <= i <= j < |g| && count' <= count && total' <= total && due(g[j], count', total') ==> due(g[i], count, total)
  }

  lemma MonotoneTail(due: Due, g: seq<Snapshot>)
    requires Monotone(due, g) && g != []
    ensures Monotone(due, g[1..])
  {
    var rest := g[1..];
    forall i, j, count, count', total, total' |
      0 <= i <= j < |rest| && count' <= count && total' <= total && due(rest[j], count', total')
      ensures due(rest[i], count, total)
    {
      assert rest[i] == g[i + 1] && rest[j] == g[j + 1];
    }
  }

  ghost predicate Spares(due: Due, g: seq<Snapshot>, count: int, total: real) {
    forall s :: s in g ==> !due(s, count, total)
  }

  lemma MonotoneSpares(due: Due, g: seq<Snapshot>, count: int, total: real)
    requires Monotone(due, g) && g != [] && !due(g[0], count, total)
    ensures Spares(due, g, count, total)
  {
  }

  ghost predicate AllOfKind(g: seq<Snapshot>, kind: Kind) {
    forall s :: s in g ==> s.val.kind == kind
  }

  /** On one type, oldest first, the policy is monotone. */
  lemma PolicyMonotone(p: Policy, now: int, g: seq<Snapshot>, kind: Kind)
    requires Sorted(g, ByCreation()) && AllOfKind(g, kind)
    ensures Monotone(DueUnder(p, now), g)
  {
    var due := DueUnder(p, now);
    forall i, j, count, count', total, total' |
      0 <= i <= j < |g| && count' <= count && total' <= total && due(g[j], count', total')
      ensures due(g[i], count, total)
    {
      assert i == j || ByCreation()(g[i]) <= ByCreation()(g[j]);
      assert g[i] in g && g[j] in g;
      ShouldDeleteMonotone(p, kind, AgeDays(g[j], now), count', total', AgeDays(g[i], now), count, total);
    }
  }

  /** A group none of whose snapshots is due stays as it is. */
  lemma {:induction false} NoneGo(due: Due, refused: set<Key>, n: nat, todo: seq<Snapshot>, deleted: int, total: real)
    requires Spares(due, todo, n - deleted, total)
    ensures GroupPass(due, refused, n, todo, deleted, total) == Pass([], [], todo, deleted, total)
  {
    if todo == [] {
    } else {
      assert todo == [todo[0]] + todo[1..];
      assert todo[0] in todo && forall s :: s in todo[1..] ==> s in todo;
      NoneGo(due, refused, n, todo[1..], deleted, total);
    }
  }

  lemma PrefixCons(todo: seq<Snapshot>, attempts: seq<Snapshot>)
    requires todo != [] && attempts <= todo[1..]
    ensures [todo[0]] + attempts <= todo
  {
    assert todo == [todo[0]] + todo[1..];
  }

  /** The attempts on a group are its first snapshots, without gaps. */
  lemma {:induction false} AttemptsFirst(due: Due, refused: set<Key>, n: nat, todo: seq<Snapshot>, deleted: int,
                                         total: real)
    requires Monotone(due, todo)
    ensures GroupPass(due, refused, n, todo, deleted, total).attempts <= todo
  {
    if todo == [] {
    } else if !due(todo[0], n - deleted, total) {
      MonotoneSpares(due, todo, n - deleted, total);
      NoneGo(due, refused, n, todo, deleted, total);
    } else {
      var gone := todo[0].key !in refused;
      var deleted', total' := if gone then deleted + 1 else deleted, if gone then total - Gb(todo[0]) else total;
      MonotoneTail(due, todo);
      AttemptsFirst(due, refused, n, todo[1..], deleted', total');
      PrefixCons(todo, GroupPass(due, refused, n, todo[1..], deleted', total').attempts);
    }
  }

  /** The attempts on one type are its oldest snapshots, without gaps. */
  lemma AttemptsArePrefix(p: Policy, now: int, refused: set<Key>, n: nat, g: seq<Snapshot>, deleted: int,
                          total: real, kind: Kind)
    requires Sorted(g, ByCreation()) && AllOfKind(g, kind)
    ensures GroupPass(DueUnder(p, now), refused, n, g, deleted, total).attempts <= g
  {
    PolicyMonotone(p, now, g, kind);
    AttemptsFirst(DueUnder(p, now), refused, n, g, deleted, total);
  }

  /** Every snapshot of the group is either removed or kept: the numbers and the sizes add up. */
  lemma {:induction false} GroupConserves(due: Due, refused: set<Key>, n: nat, todo: seq<Snapshot>, deleted: int,
                                          total: real)
    ensures var r := GroupPass(due, refused, n, todo, deleted, total);
            && |r.removed| + |r.kept| == |todo|
            && TotalGb(r.removed) + TotalGb(r.kept) == TotalGb(todo)
  {
    if todo == [] {
    } else {
      var s := todo[0];
      var gone := due(s, n - deleted, total) && s.key !in refused;
      GroupConserves(due, refused, n, todo[1..],
                     if gone then deleted + 1 else deleted, if gone then total - Gb(s) else total);
    }
  }

  /** The counter and the tracked total follow the removals. */
  lemma {:induction false} GroupTallies(due: Due, refused: set<Key>, n: nat, todo: seq<Snapshot>, deleted: int,
                                        total: real)
    ensures var r := GroupPass(due, refused, n, todo, deleted, total);
            r.deleted == deleted + |r.removed| && r.total == total - TotalGb(r.removed)
  {
    if todo == [] {
    } else {
      var s := todo[0];
      var gone := due(s, n - deleted, total) && s.key !in refused;
      GroupTallies(due, refused, n, todo[1..],
                   if gone then deleted + 1 else deleted, if gone then total - Gb(s) else total);
    }
  }

  /** Nothing is due at the minimum or below. */
  ghost predicate SparesAt(due: Due, minimum: int) {
    forall s, count, total :: due(s, count, total) ==> count > minimum
  }

  lemma {:induction false} StopsWhereSpared(due: Due, refused: set<Key>, n: nat, todo: seq<Snapshot>,
                                            deleted: int, total: real, minimum: int)
    requires SparesAt(due, minimum)
    ensures var r := GroupPass(due, refused, n, todo, deleted, total);
            r.removed == [] || n - r.deleted >= minimum
  {
    if todo == [] {
    } else {
      var s := todo[0];
      var gone := due(s, n - deleted, total) && s.key !in refused;
      var deleted', total' := if gone then deleted + 1 else deleted, if gone then total - Gb(s) else total;
      StopsWhereSpared(due, refused, n, todo[1..], deleted', total', minimum);
      GroupTallies(due, refused, n, todo[1..], deleted', total');
    }
  }

  /** Deletion stops while the minimum is left: the counter only ever overstates a group's own
      deletions. */
  lemma GroupStopsAtMinimum(p: Policy, now: int, refused: set<Key>, n: nat, g: seq<Snapshot>, deleted: int, total: real)
    ensures var r := GroupPass(DueUnder(p, now), refused, n, g, deleted, total);
            r.removed == [] || n - r.deleted >= p.minBackups
  {
    StopsWhereSpared(DueUnder(p, now), refused, n, g, deleted, total, p.minBackups);
  }

  ghost predicate NoneRefused(g: seq<Snapshot>, refused: set<Key>) {
    forall s :: s in g ==> s.key !in refused
  }

  /** Everything of the group is due above the limit. */
  ghost predicate DueAbove(due: Due, g: seq<Snapshot>, limit: int) {
    forall s, count, total :: s in g && count > limit ==> due(s, count, total)
  }

  /** Such a group is cut down until the counter says it fits. */
  lemma {:induction false} GroupCutToCount(due: Due, refused: set<Key>, n: nat, todo: seq<Snapshot>,
                                           deleted: int, total: real, limit: int)
    requires DueAbove(due, todo, limit) && NoneRefused(todo, refused)
    ensures var r := GroupPass(due, refused, n, todo, deleted, total);
            r.kept == [] || n - r.deleted <= limit
  {
    if todo == [] {
    } else {
      var s := todo[0];
      assert s in todo && forall x :: x in todo[1..] ==> x in todo;
      var gone := due(s, n - deleted, total);
      var deleted', total' := if gone then deleted + 1 else deleted, if gone then total - Gb(s) else total;
      GroupCutToCount(due, refused, n, todo[1..], deleted', total', limit);
      GroupTallies(due, refused, n, todo[1..], deleted', total');
    }
  }

  /** If nothing is refused, what a group keeps is spared at the final count and size. */
  lemma {:induction false} KeptAreSpared(due: Due, n: nat, todo: seq<Snapshot>, deleted: int, total: real)
    requires Monotone(due, todo)
    ensures var r := GroupPass(due, {}, n, todo, deleted, total);
            Spares(due, r.kept, n - r.deleted, r.total)
  {
    if todo == [] {
    } else if due(todo[0], n - deleted, total) {
      MonotoneTail(due, todo);
      KeptAreSpared(due, n, todo[1..], deleted + 1, total - Gb(todo[0]));
    } else {
      MonotoneSpares(due, todo, n - deleted, total);
      NoneGo(due, {}, n, todo, deleted, total);
    }
  }

  lemma {:induction false} PassWithin(due: Due, refused: set<Key>, n: nat, todo: seq<Snapshot>, deleted: int,
                                      total: real)
    ensures var r := GroupPass(due, refused, n, todo, deleted, total);
            && (forall s :: s in r.attempts ==> s in todo)
            && (forall s :: s in r.removed ==> s in todo)
            && (forall s :: s in r.kept ==> s in todo)
  {
    if todo == [] {
    } else {
      var s := todo[0];
      var gone := due(s, n - deleted, total) && s.key !in refused;
      PassWithin(due, refused, n, todo[1..],
                 if gone then deleted + 1 else deleted, if gone then total - Gb(s) else total);
      assert todo == [todo[0]] + todo[1..];
    }
  }

  /** What the policy wants of a snapshot that stays, the minimum aside. */
  predicate Meets(p: Policy, age: int, kind: Kind, count: int, sizeGb: real) {
    && age <= p.maxAgeDays
    && (p.maxTotalGb.Some? && p.maxTotalGb.value != 0.0 ==> sizeGb <= p.maxTotalGb.value)
    && (kind in p.byKind ==> count <= p.byKind[kind])
    && (kind == Full ==> count <= p.keepFull)
    && (kind == Incremental ==> count <= p.keepIncremental)
  }

  lemma SparedMeets(p: Policy, now: int, s: Snapshot, count: int, sizeGb: real, smaller: real)
    requires !DueUnder(p, now)(s, count, sizeGb) && smaller <= sizeGb
    ensures count <= p.minBackups || Meets(p, AgeDays(s, now), s.val.kind, count, smaller)
  {
  }

  predicate NoSizeLimit(p: Policy) {
    p.maxTotalGb.None? || p.maxTotalGb.value == 0.0
  }

  /** A snapshot was tried because it was due, at a count no greater than the first. */
  lemma {:induction false} AttemptsWereDue(due: Due, refused: set<Key>, n: nat, todo: seq<Snapshot>, deleted: int,
                                           total: real)
    ensures forall s :: s in GroupPass(due, refused, n, todo, deleted, total).attempts ==>
              s in todo && exists count, size :: count <= n - deleted && due(s, count, size)
  {
    if todo == [] {
    } else {
      var s := todo[0];
      var gone := due(s, n - deleted, total) && s.key !in refused;
      AttemptsWereDue(due, refused, n, todo[1..],
                      if gone then deleted + 1 else deleted, if gone then total - Gb(s) else total);
      assert todo == [todo[0]] + todo[1..];
    }
  }

  /** Within its count limits and with no size limit, a group only loses what is too old. */
  lemma OnlyOldGo(p: Policy, now: int, refused: set<Key>, n: nat, g: seq<Snapshot>, deleted: int, total: real,
                  kind: Kind)
    requires AllOfKind(g, kind) && NoSizeLimit(p) && Meets(p, p.maxAgeDays, kind, n - deleted, total)
    ensures forall s :: s in GroupPass(DueUnder(p, now), refused, n, g, deleted, total).attempts ==>
              now - s.val.created >= (p.maxAgeDays + 1) * 86_400_000_000
  {
    var due := DueUnder(p, now);
    AttemptsWereDue(due, refused, n, g, deleted, total);
    forall s | s in GroupPass(due, refused, n, g, deleted, total).attempts
      ensures now - s.val.created >= (p.maxAgeDays + 1) * 86_400_000_000
    {
      UnitsExactly(s, now, p.maxAgeDays + 1);
      var count, size :| count <= n - deleted && due(s, count, size);
      assert ShouldDelete(p, AgeDays(s, now), kind, count, size);
    }
  }

  // ----- the whole cleanup -----

  function EarlierKinds(kinds: seq<Kind>, k: Kind): set<Kind> {
    if kinds == [] || kinds[0] == k then {} else {kinds[0]} + EarlierKinds(kinds[1..], k)
  }

  function KindAmong(ks: set<Kind>): Snapshot -> bool {
    (s: Snapshot) => s.val.kind in ks
  }

  lemma GroupMembers(snaps: seq<Snapshot>, k: Kind)
    ensures forall s :: s in Group(snaps, k) <==> s in snaps && s.val.kind == k
    ensures Sorted(Group(snaps, k), ByCreation())
    ensures TotalGb(Group(snaps, k)) == TotalGb(Filter(snaps, GroupIs(KindOf(), k)))
  {
    var f := Filter(snaps, GroupIs(KindOf(), k));
    SortMultiset(f, ByCreation());
    SortSorted(f, ByCreation());
    SumMultiset(Group(snaps, k), f, GbOf());
    forall s ensures s in Group(snaps, k) <==> s in snaps && s.val.kind == k {
      FilterMember(snaps, GroupIs(KindOf(), k), s);
    }
  }

  /** A group is the snapshots of one type, oldest first, those of one time in the listed order. */
  lemma GroupExactly(snaps: seq<Snapshot>, k: Kind, created: int)
    ensures forall s :: s in Group(snaps, k) <==> s in snaps && s.val.kind == k
    ensures |Group(snaps, k)| == |Filter(snaps, (s: Snapshot) => s.val.kind == k)|
    ensures forall i, j :: 0 <= i < j < |Group(snaps, k)| ==>
              Group(snaps, k)[i].val.created <= Group(snaps, k)[j].val.created
    ensures Filter(Group(snaps, k), (s: Snapshot) => s.val.created == created)
         == Filter(snaps, (s: Snapshot) => s.val.kind == k && s.val.created == created)
  {
    var f, h := Filter(snaps, GroupIs(KindOf(), k)), created as real;
    GroupMembers(snaps, k);
    SortMultiset(f, ByCreation());
    SortStable(f, ByCreation(), h);
    FilterExt(snaps, GroupIs(KindOf(), k), (s: Snapshot) => s.val.kind == k);
    FilterExt(Group(snaps, k), KeyIs(ByCreation(), h), (s: Snapshot) => s.val.created == created);
    FilterExt(f, KeyIs(ByCreation(), h), (s: Snapshot) => s.val.created == created);
    FilterTwice(snaps, GroupIs(KindOf(), k), (s: Snapshot) => s.val.created == created,
                (s: Snapshot) => s.val.kind == k && s.val.created == created);
    forall i, j | 0 <= i < j < |Group(snaps, k)|
      ensures Group(snaps, k)[i].val.created <= Group(snaps, k)[j].val.created
    {
      assert ByCreation()(Group(snaps, k)[i]) <= ByCreation()(Group(snaps, k)[j]);
    }
  }

  /** What a pass touches is of the kinds it looks at. */
  ghost predicate OfKinds(r: Pass, ks: set<Kind>) {
    && (forall s :: s in r.attempts ==> s.val.kind in ks)
    && (forall s :: s in r.removed ==> s.val.kind in ks)
    && (forall s :: s in r.kept ==> s.val.kind in ks)
  }

  ghost predicate KindFree(r: Pass, k: Kind) {
    forall s :: s in r.attempts || s in r.removed || s in r.kept ==> s.val.kind != k
  }

  lemma KindOnly(r: Pass, k: Kind)
    requires OfKinds(r, {k})
    ensures Filter(r.attempts, GroupIs(KindOf(), k)) == r.attempts
    ensures Filter(r.removed, GroupIs(KindOf(), k)) == r.removed
    ensures Filter(r.kept, GroupIs(KindOf(), k)) == r.kept
  {
    FilterAll(r.attempts, GroupIs(KindOf(), k));
    FilterAll(r.removed, GroupIs(KindOf(), k));
    FilterAll(r.kept, GroupIs(KindOf(), k));
  }

  lemma KindNever(r: Pass, k: Kind)
    requires KindFree(r, k)
    ensures Filter(r.attempts, GroupIs(KindOf(), k)) == []
    ensures Filter(r.removed, GroupIs(KindOf(), k)) == []
    ensures Filter(r.kept, GroupIs(KindOf(), k)) == []
  {
    FilterNone(r.attempts, GroupIs(KindOf(), k));
    FilterNone(r.removed, GroupIs(KindOf(), k));
    FilterNone(r.kept, GroupIs(KindOf(), k));
  }

  lemma KindsListed(snaps: seq<Snapshot>)
    ensures Distinct(KindOrder(snaps))
    ensures forall k :: k in KindOrder(snaps) <==> exists s :: s in snaps && s.val.kind == k
  {
    FirstsDistinct(Kinds(snaps));
    forall s | s in snaps ensures s.val.kind in Kinds(snaps) {
      var i :| 0 <= i < |snaps| && snaps[i] == s;
      assert Kinds(snaps)[i] == s.val.kind;
    }
  }

  /** One type's pass stays within the type and keeps the tallies. */
  lemma GroupPassOfKind(due: Due, refused: set<Key>, snaps: seq<Snapshot>, k: Kind, deleted: int, total: real)
    ensures var g := Group(snaps, k);
            var a := GroupPass(due, refused, |g|, g, deleted, total);
            OfKinds(a, {k}) && a.deleted == deleted + |a.removed| && a.total == total - TotalGb(a.removed)
  {
    var g := Group(snaps, k);
    GroupMembers(snaps, k);
    PassWithin(due, refused, |g|, g, deleted, total);
    GroupTallies(due, refused, |g|, g, deleted, total);
  }

  lemma {:induction false} CleanupOfKinds(due: Due, refused: set<Key>, snaps: seq<Snapshot>, kinds: seq<Kind>,
                                          deleted: int, total: real)
    ensures OfKinds(Cleanup(due, refused, snaps, kinds, deleted, total), set k | k in kinds)
  {
    if kinds == [] {
    } else {
      var g := Group(snaps, kinds[0]);
      var a := GroupPass(due, refused, |g|, g, deleted, total);
      GroupPassOfKind(due, refused, snaps, kinds[0], deleted, total);
      CleanupOfKinds(due, refused, snaps, kinds[1..], a.deleted, a.total);
      assert forall k :: k in kinds[1..] ==> k in kinds;
    }
  }

  lemma {:induction false} SizesAdd(snaps: seq<Snapshot>)
    ensures TotalGb(snaps) >= 0.0
  {
    if snaps == [] {
    } else {
      SizesAdd(snaps[1..]);
      assert Gb(snaps[0]) >= 0.0;
    }
  }

  lemma {:induction false} TotalFalls(due: Due, refused: set<Key>, snaps: seq<Snapshot>, kinds: seq<Kind>,
                                      deleted: int, total: real)
    ensures Cleanup(due, refused, snaps, kinds, deleted, total).total <= total
  {
    if kinds == [] {
    } else {
      var g := Group(snaps, kinds[0]);
      var a := GroupPass(due, refused, |g|, g, deleted, total);
      GroupTallies(due, refused, |g|, g, deleted, total);
      SizesAdd(a.removed);
      TotalFalls(due, refused, snaps, kinds[1..], a.deleted, a.total);
    }
  }

  /** What a pass deleted of the given types. */
  function RemovedOf(r: Pass, kinds: set<Kind>): seq<Snapshot> {
    Filter(r.removed, KindAmong(kinds))
  }

  function KeptOf(r: Pass, k: Kind): seq<Snapshot> {
    Filter(r.kept, GroupIs(KindOf(), k))
  }

  /** What a cleanup in the given order deleted of the types before `k`. */
  function EarlierRemoved(r: Pass, kinds: seq<Kind>, k: Kind): seq<Snapshot> {
    RemovedOf(r, EarlierKinds(kinds, k))
  }

  /** `own` is the part of the cleanup `r` that concerns type `k`; earlier types lost `before`
      snapshots of together `freed` GB. */
  ghost predicate PartOf(r: Pass, own: Pass, k: Kind, early: set<Kind>, before: int, freed: real) {
    && Filter(r.attempts, GroupIs(KindOf(), k)) == own.attempts
    && Filter(r.removed, GroupIs(KindOf(), k)) == own.removed
    && KeptOf(r, k) == own.kept
    && |RemovedOf(r, early)| == before
    && TotalGb(RemovedOf(r, early)) == freed
    && r.total <= own.total
  }

  lemma PartOfFirst(a: Pass, b: Pass, k: Kind)
    requires OfKinds(a, {k}) && KindFree(b, k) && b.total <= a.total
    ensures PartOf(Joined(a, b), a, k, {}, 0, 0.0)
  {
    FilterConcat(a.attempts, b.attempts, GroupIs(KindOf(), k));
    FilterConcat(a.removed, b.removed, GroupIs(KindOf(), k));
    FilterConcat(a.kept, b.kept, GroupIs(KindOf(), k));
    KindOnly(a, k);
    KindNever(b, k);
    FilterNone(a.removed + b.removed, KindAmong({}));
  }

  lemma RemovedOfJoined(a: Pass, b: Pass, first: Kind, early: set<Kind>)
    requires OfKinds(a, {first}) && KindFree(b, first)
    ensures RemovedOf(Joined(a, b), {first} + early) == a.removed + RemovedOf(b, early)
  {
    FilterConcat(a.removed, b.removed, KindAmong({first} + early));
    FilterAll(a.removed, KindAmong({first} + early));
    FilterExt(b.removed, KindAmong({first} + early), KindAmong(early));
  }

  lemma PartOfLater(a: Pass, b: Pass, own: Pass, k: Kind, first: Kind, early: set<Kind>, before: int, freed: real)
    requires OfKinds(a, {first}) && first != k && KindFree(b, first) && PartOf(b, own, k, early, before, freed)
    ensures PartOf(Joined(a, b), own, k, {first} + early, |a.removed| + before, TotalGb(a.removed) + freed)
  {
    FilterConcat(a.attempts, b.attempts, GroupIs(KindOf(), k));
    FilterConcat(a.removed, b.removed, GroupIs(KindOf(), k));
    FilterConcat(a.kept, b.kept, GroupIs(KindOf(), k));
    KindNever(a, k);
    RemovedOfJoined(a, b, first, early);
    SumConcat(a.removed, RemovedOf(b, early), GbOf());
  }

  /** The part of the cleanup that concerns one type is one pass over its group, started with
      the deletions made for the earlier types. */
  lemma {:induction false} CleanupOfKind(due: Due, refused: set<Key>, snaps: seq<Snapshot>, kinds: seq<Kind>,
                                         deleted: int, total: real, k: Kind)
    returns (d0: int, t0: real)
    requires Distinct(kinds) && k in kinds
    ensures PartOf(Cleanup(due, refused, snaps, kinds, deleted, total),
                   GroupPass(due, refused, |Group(snaps, k)|, Group(snaps, k), d0, t0),
                   k, EarlierKinds(kinds, k), d0 - deleted, total - t0)
  {
    var g := Group(snaps, kinds[0]);
    var a := GroupPass(due, refused, |g|, g, deleted, total);
    var b := Cleanup(due, refused, snaps, kinds[1..], a.deleted, a.total);
    GroupPassOfKind(due, refused, snaps, kinds[0], deleted, total);
    CleanupOfKinds(due, refused, snaps, kinds[1..], a.deleted, a.total);
    assert kinds[0] !in kinds[1..];
    if kinds[0] == k {
      d0, t0 := deleted, total;
      TotalFalls(due, refused, snaps, kinds[1..], a.deleted, a.total);
      PartOfFirst(a, b, k);
    } else {
      d0, t0 := CleanupOfKind(due, refused, snaps, kinds[1..], a.deleted, a.total, k);
      var own := GroupPass(due, refused, |Group(snaps, k)|, Group(snaps, k), d0, t0);
      PartOfLater(a, b, own, k, kinds[0], EarlierKinds(kinds[1..], k), d0 - a.deleted, a.total - t0);
    }
  }

  /** A type without snapshots has no part in the cleanup. */
  lemma CleanupOfAbsent(due: Due, refused: set<Key>, snaps: seq<Snapshot>, k: Kind, deleted: int, total: real)
    requires k !in KindOrder(snaps)
    ensures KindFree(Cleanup(due, refused, snaps, KindOrder(snaps), deleted, total), k)
    ensures Group(snaps, k) == []
  {
    KindsListed(snaps);
    CleanupOfKinds(due, refused, snaps, KindOrder(snaps), deleted, total);
    FilterNone(snaps, GroupIs(KindOf(), k));
  }

  /** Within each type the attempts are the oldest snapshots, without gaps, whichever deletions
      the storage refuses. */
  lemma OldestGoFirst(p: Policy, now: int, refused: set<Key>, snaps: seq<Snapshot>, k: Kind)
    ensures Filter(CleanupAll(p, now, refused, snaps).attempts, GroupIs(KindOf(), k)) <= Group(snaps, k)
  {
    var due := DueUnder(p, now);
    if k in KindOrder(snaps) {
      KindsListed(snaps);
      GroupMembers(snaps, k);
      var d0, t0 := CleanupOfKind(due, refused, snaps, KindOrder(snaps), 0, TotalGb(snaps), k);
      AttemptsArePrefix(p, now, refused, |Group(snaps, k)|, Group(snaps, k), d0, t0, k);
    } else {
      CleanupOfAbsent(due, refused, snaps, k, 0, TotalGb(snaps));
      KindNever(CleanupAll(p, now, refused, snaps), k);
    }
  }

  /** Every type keeps at least the minimum, or all it had. */
  lemma MinimumKept(p: Policy, now: int, refused: set<Key>, snaps: seq<Snapshot>, k: Kind)
    ensures |KeptOf(CleanupAll(p, now, refused, snaps), k)| >= Min(p.minBackups, |Group(snaps, k)|)
  {
    var due, g := DueUnder(p, now), Group(snaps, k);
    if k in KindOrder(snaps) {
      KindsListed(snaps);
      var d0, t0 := CleanupOfKind(due, refused, snaps, KindOrder(snaps), 0, TotalGb(snaps), k);
      GroupStopsAtMinimum(p, now, refused, |g|, g, d0, t0);
      GroupConserves(due, refused, |g|, g, d0, t0);
      GroupTallies(due, refused, |g|, g, d0, t0);
    } else {
      CleanupOfAbsent(due, refused, snaps, k, 0, TotalGb(snaps));
    }
  }

  function KeepCount(p: Policy, kind: Kind): int {
    if kind == Full then p.keepFull else p.keepIncremental
  }

  /** The count limit of a full or incremental type. */
  function CountLimit(p: Policy, k: Kind): int {
    Max(p.minBackups, KeepCount(p, k))
  }

  lemma PolicyCutsAbove(p: Policy, now: int, g: seq<Snapshot>, k: Kind)
    requires (k == Full || k == Incremental) && AllOfKind(g, k)
    ensures DueAbove(DueUnder(p, now), g, CountLimit(p, k))
  {
  }

  /** If every deletion succeeds, a full or incremental group ends with at most its keep count
      (or the minimum), plus the deletions made for earlier types, because the counter that
      stands in for them is shared. */
  lemma CountsCut(p: Policy, now: int, refused: set<Key>, snaps: seq<Snapshot>, k: Kind)
    requires k == Full || k == Incremental
    requires NoneRefused(snaps, refused)
    ensures var r := CleanupAll(p, now, refused, snaps);
            |KeptOf(r, k)| <= Max(0, CountLimit(p, k)) + |EarlierRemoved(r, KindOrder(snaps), k)|
  {
    var due, g := DueUnder(p, now), Group(snaps, k);
    if k in KindOrder(snaps) {
      KindsListed(snaps);
      GroupMembers(snaps, k);
      var d0, t0 := CleanupOfKind(due, refused, snaps, KindOrder(snaps), 0, TotalGb(snaps), k);
      PolicyCutsAbove(p, now, g, k);
      GroupCutToCount(due, refused, |g|, g, d0, t0, CountLimit(p, k));
      GroupConserves(due, refused, |g|, g, d0, t0);
      GroupTallies(due, refused, |g|, g, d0, t0);
    } else {
      CleanupOfAbsent(due, refused, snaps, k, 0, TotalGb(snaps));
      KindNever(CleanupAll(p, now, refused, snaps), k);
    }
  }

  // ----- exactly how many a type keeps -----

  /** The snapshot at index `m` is due at the given count once the older ones are gone. */
  predicate DueAt(due: Due, g: seq<Snapshot>, m: nat, count: int, total: real)
    requires m < |g|
  {
    due(g[m], count, total - TotalGb(g[..m]))
  }

  lemma DueAtLater(due: Due, g: seq<Snapshot>, m: nat, count: int, total: real)
    requires 1 <= m < |g|
    ensures DueAt(due, g, m, count, total) == DueAt(due, g[1..], m - 1, count, total - Gb(g[0]))
  {
    assert g[..m][0] == g[0] && g[..m][1..] == g[1..][..m - 1];
  }

  /** If the oldest is spared, the younger ones are not due at a lower count either. */
  lemma NotDueLater(due: Due, g: seq<Snapshot>, m: nat, count: int, total: real)
    requires m < |g| && Monotone(due, g) && !due(g[0], count, total)
    ensures !DueAt(due, g, m, count - m, total)
  {
    SizesAdd(g[..m]);
  }

  lemma SparedRemovesNone(due: Due, refused: set<Key>, n: nat, todo: seq<Snapshot>, deleted: int, total: real, m: nat)
    requires m < |todo| && Monotone(due, todo) && !due(todo[0], n - deleted, total)
    ensures GroupPass(due, refused, n, todo, deleted, total).removed == []
    ensures !DueAt(due, todo, m, n - deleted - m, total)
  {
    MonotoneSpares(due, todo, n - deleted, total);
    NoneGo(due, refused, n, todo, deleted, total);
    NotDueLater(due, todo, m, n - deleted, total);
  }

  lemma FirstGoes(due: Due, refused: set<Key>, n: nat, todo: seq<Snapshot>, deleted: int, total: real)
    requires todo != [] && NoneRefused(todo, refused) && due(todo[0], n - deleted, total)
    ensures |GroupPass(due, refused, n, todo, deleted, total).removed|
         == 1 + |GroupPass(due, refused, n, todo[1..], deleted + 1, total - Gb(todo[0])).removed|
    ensures NoneRefused(todo[1..], refused)
  {
    assert todo[0] in todo && forall s :: s in todo[1..] ==> s in todo;
  }

  /** With no refusals a group loses more than `m` snapshots exactly when the one at index `m` is
      due once the older ones are gone. */
  lemma {:induction false} RemovesMoreExactly(due: Due, refused: set<Key>, n: nat, todo: seq<Snapshot>,
                                              deleted: int, total: real, m: nat)
    requires Monotone(due, todo) && NoneRefused(todo, refused) && m < |todo|
    ensures |GroupPass(due, refused, n, todo, deleted, total).removed| > m
       <==> DueAt(due, todo, m, n - deleted - m, total)
  {
    if !due(todo[0], n - deleted, total) {
      SparedRemovesNone(due, refused, n, todo, deleted, total, m);
    } else {
      FirstGoes(due, refused, n, todo, deleted, total);
      if m == 0 {
        assert DueAt(due, todo, 0, n - deleted, total) by {
          assert todo[..0] == [];
        }
      } else {
        assert Monotone(due, todo[1..]) by {
          MonotoneTail(due, todo);
        }
        RemovesMoreExactly(due, refused, n, todo[1..], deleted + 1, total - Gb(todo[0]), m - 1);
        DueAtLater(due, todo, m, n - deleted - m, total);
      }
    }
  }

  /** The type had no more than `limit`, or the youngest one too many is due at the count that
      `before` earlier deletions leave of `limit + 1`. */
  predicate FitsOrDue(due: Due, g: seq<Snapshot>, limit: nat, before: int, total: real) {
    |g| <= limit || DueAt(due, g, |g| - limit - 1, limit + 1 - before, total)
  }

  lemma GroupKeepsAtMostExactly(due: Due, refused: set<Key>, g: seq<Snapshot>, limit: nat, before: int, total: real)
    requires Monotone(due, g) && NoneRefused(g, refused)
    ensures |GroupPass(due, refused, |g|, g, before, total).kept| <= limit <==> FitsOrDue(due, g, limit, before, total)
  {
    GroupConserves(due, refused, |g|, g, before, total);
    if |g| > limit {
      RemovesMoreExactly(due, refused, |g|, g, before, total, |g| - limit - 1);
    }
  }

  /** What `r` keeps of the type is at most `limit` exactly when it fits or is due, given what `r`
      deleted of the earlier types. */
  ghost predicate KeepsAtMost(due: Due, snaps: seq<Snapshot>, kinds: seq<Kind>, k: Kind, limit: nat, r: Pass) {
    var early := EarlierRemoved(r, kinds, k);
    |KeptOf(r, k)| <= limit
    <==> FitsOrDue(due, Group(snaps, k), limit, |early|, TotalGb(snaps) - TotalGb(early))
  }

  lemma PresentKeepsAtMost(p: Policy, now: int, refused: set<Key>, snaps: seq<Snapshot>, kinds: seq<Kind>, k: Kind,
                           limit: nat)
    requires NoneRefused(snaps, refused) && Distinct(kinds) && k in kinds
    ensures KeepsAtMost(DueUnder(p, now), snaps, kinds, k, limit,
                        Cleanup(DueUnder(p, now), refused, snaps, kinds, 0, TotalGb(snaps)))
  {
    var due, g := DueUnder(p, now), Group(snaps, k);
    var d0, t0 := CleanupOfKind(due, refused, snaps, kinds, 0, TotalGb(snaps), k);
    GroupMembers(snaps, k);
    PolicyMonotone(p, now, g, k);
    GroupKeepsAtMostExactly(due, refused, g, limit, d0, t0);
  }

  lemma AbsentKeepsAtMost(due: Due, refused: set<Key>, snaps: seq<Snapshot>, k: Kind, limit: nat)
    requires k !in KindOrder(snaps)
    ensures KeepsAtMost(due, snaps, KindOrder(snaps), k, limit,
                        Cleanup(due, refused, snaps, KindOrder(snaps), 0, TotalGb(snaps)))
  {
    CleanupOfAbsent(due, refused, snaps, k, 0, TotalGb(snaps));
    KindNever(Cleanup(due, refused, snaps, KindOrder(snaps), 0, TotalGb(snaps)), k);
  }

  /** Main result on counts: if every deletion succeeds, a type ends with at most `limit`
      snapshots exactly when it had no more, or the youngest one too many is due at the count
      that the deletions made for earlier types leave of `limit + 1`. */
  lemma KeepsAtMostExactly(p: Policy, now: int, refused: set<Key>, snaps: seq<Snapshot>, k: Kind, limit: nat)
    requires NoneRefused(snaps, refused)
    ensures KeepsAtMost(DueUnder(p, now), snaps, KindOrder(snaps), k, limit, CleanupAll(p, now, refused, snaps))
  {
    if k in KindOrder(snaps) {
      KindsListed(snaps);
      PresentKeepsAtMost(p, now, refused, snaps, KindOrder(snaps), k, limit);
    } else {
      AbsentKeepsAtMost(DueUnder(p, now), refused, snaps, k, limit);
    }
  }

  /** The oldest snapshot of the type is not due as things stand before the cleanup. */
  predicate OldestSpared(due: Due, snaps: seq<Snapshot>, k: Kind, deleted: int, total: real) {
    var g := Group(snaps, k);
    g == [] || !due(g[0], |g| - deleted, total)
  }

  lemma FirstOfKindExactly(p: Policy, now: int, refused: set<Key>, snaps: seq<Snapshot>, k: Kind, deleted: int,
                           total: real)
    requires NoneRefused(snaps, refused)
    ensures GroupPass(DueUnder(p, now), refused, |Group(snaps, k)|, Group(snaps, k), deleted, total).removed == []
       <==> OldestSpared(DueUnder(p, now), snaps, k, deleted, total)
  {
    var g := Group(snaps, k);
    GroupMembers(snaps, k);
    if g != [] {
      PolicyMonotone(p, now, g, k);
      RemovesMoreExactly(DueUnder(p, now), refused, |g|, g, deleted, total, 0);
      assert g[..0] == [];
    }
  }

  /** The earlier types lose nothing exactly when the oldest of each is spared. */
  lemma {:induction false} NothingEarlierExactly(p: Policy, now: int, refused: set<Key>, snaps: seq<Snapshot>,
                                                 kinds: seq<Kind>,
                                                 deleted: int, total: real, k: Kind)
    requires Distinct(kinds) && NoneRefused(snaps, refused)
    ensures EarlierRemoved(Cleanup(DueUnder(p, now), refused, snaps, kinds, deleted, total), kinds, k) == []
       <==> forall e :: e in EarlierKinds(kinds, k) ==> OldestSpared(DueUnder(p, now), snaps, e, deleted, total)
  {
    var due := DueUnder(p, now);
    if kinds == [] || kinds[0] == k {
      FilterNone(Cleanup(due, refused, snaps, kinds, deleted, total).removed, KindAmong({}));
    } else {
      var g := Group(snaps, kinds[0]);
      var a := GroupPass(due, refused, |g|, g, deleted, total);
      var b := Cleanup(due, refused, snaps, kinds[1..], a.deleted, a.total);
      GroupPassOfKind(due, refused, snaps, kinds[0], deleted, total);
      CleanupOfKinds(due, refused, snaps, kinds[1..], a.deleted, a.total);
      assert kinds[0] !in kinds[1..];
      RemovedOfJoined(a, b, kinds[0], EarlierKinds(kinds[1..], k));
      FirstOfKindExactly(p, now, refused, snaps, kinds[0], deleted, total);
      NothingEarlierExactly(p, now, refused, snaps, kinds[1..], a.deleted, a.total, k);
    }
  }

  /** Only count limits are at work on the type. */
  ghost predicate OnlyCounts(p: Policy, now: int, snaps: seq<Snapshot>, k: Kind) {
    && NoSizeLimit(p)
    && k !in p.byKind
    && forall s :: s in snaps && s.val.kind == k ==> AgeDays(s, now) <= p.maxAgeDays
  }

  lemma OnlyCountsDue(p: Policy, now: int, snaps: seq<Snapshot>, k: Kind, before: nat, total: real)
    requires (k == Full || k == Incremental) && OnlyCounts(p, now, snaps, k) && CountLimit(p, k) >= 0
    ensures FitsOrDue(DueUnder(p, now), Group(snaps, k), CountLimit(p, k), before, total)
       <==> |Group(snaps, k)| <= CountLimit(p, k) || before == 0
  {
    GroupMembers(snaps, k);
  }

  /** No type before `k` has a snapshot due as things stand before the cleanup. */
  ghost predicate EarlierSpared(p: Policy, now: int, snaps: seq<Snapshot>, k: Kind) {
    forall e :: e in EarlierKinds(KindOrder(snaps), k) ==> OldestSpared(DueUnder(p, now), snaps, e, 0, TotalGb(snaps))
  }

  /** When a full or incremental type meets its own count limit, where no other limit is at work
      on it: if it already did, or if no earlier type has a snapshot due. */
  lemma CountLimitMetExactly(p: Policy, now: int, refused: set<Key>, snaps: seq<Snapshot>, k: Kind)
    requires (k == Full || k == Incremental) && OnlyCounts(p, now, snaps, k) && CountLimit(p, k) >= 0
    requires NoneRefused(snaps, refused)
    ensures |KeptOf(CleanupAll(p, now, refused, snaps), k)| <= CountLimit(p, k)
       <==> |Group(snaps, k)| <= CountLimit(p, k) || EarlierSpared(p, now, snaps, k)
  {
    var early := EarlierRemoved(CleanupAll(p, now, refused, snaps), KindOrder(snaps), k);
    assert |early| == 0 <==> EarlierSpared(p, now, snaps, k) by {
      KindsListed(snaps);
      NothingEarlierExactly(p, now, refused, snaps, KindOrder(snaps), 0, TotalGb(snaps), k);
    }
    KeepsAtMostExactly(p, now, refused, snaps, k, CountLimit(p, k));
    OnlyCountsDue(p, now, snaps, k, |early|, TotalGb(snaps) - TotalGb(early));
  }

  /** The count is down to the minimum, or everything kept meets the policy with that count. */
  ghost predicate KeptMeet(p: Policy, now: int, k: Kind, kept: seq<Snapshot>, count: int, total: real) {
    forall s :: s in kept ==> count <= p.minBackups || Meets(p, AgeDays(s, now), k, count, total)
  }

  lemma OwnPassMeets(p: Policy, now: int, g: seq<Snapshot>, k: Kind, d0: int, t0: real, finalTotal: real)
    requires Sorted(g, ByCreation()) && AllOfKind(g, k)
    requires finalTotal <= GroupPass(DueUnder(p, now), {}, |g|, g, d0, t0).total
    ensures var own := GroupPass(DueUnder(p, now), {}, |g|, g, d0, t0);
            KeptMeet(p, now, k, own.kept, |own.kept| - d0, finalTotal)
  {
    var due := DueUnder(p, now);
    var own := GroupPass(due, {}, |g|, g, d0, t0);
    GroupConserves(due, {}, |g|, g, d0, t0);
    GroupTallies(due, {}, |g|, g, d0, t0);
    PolicyMonotone(p, now, g, k);
    KeptAreSpared(due, |g|, g, d0, t0);
    PassWithin(due, {}, |g|, g, d0, t0);
    forall s | s in own.kept
      ensures |own.kept| - d0 <= p.minBackups || Meets(p, AgeDays(s, now), k, |own.kept| - d0, finalTotal)
    {
      SparedMeets(p, now, s, |own.kept| - d0, own.total, finalTotal);
    }
  }

  /** If every deletion succeeds, a type ends at its minimum (plus the deletions made for earlier
      types) or everything it keeps meets the policy: age, total size and counts, the counts
      taken less those deletions. */
  lemma PolicyMetOrMinimum(p: Policy, now: int, snaps: seq<Snapshot>, k: Kind)
    requires k in KindOrder(snaps)
    ensures var r := CleanupAll(p, now, {}, snaps);
            KeptMeet(p, now, k, KeptOf(r, k), |KeptOf(r, k)| - |EarlierRemoved(r, KindOrder(snaps), k)|, r.total)
  {
    KindsListed(snaps);
    GroupMembers(snaps, k);
    var d0, t0 := CleanupOfKind(DueUnder(p, now), {}, snaps, KindOrder(snaps), 0, TotalGb(snaps), k);
    OwnPassMeets(p, now, Group(snaps, k), k, d0, t0, CleanupAll(p, now, {}, snaps).total);
  }

  lemma {:induction false} CleanupSums(due: Due, refused: set<Key>, snaps: seq<Snapshot>, kinds: seq<Kind>,
                                       deleted: int, total: real)
    ensures var r := Cleanup(due, refused, snaps, kinds, deleted, total);
            && r.deleted == deleted + |r.removed|
            && r.total == total - TotalGb(r.removed)
            && TotalGb(r.removed) + TotalGb(r.kept) == SumGroups(snaps, KindOf(), kinds, GbOf())
  {
    if kinds == [] {
    } else {
      var g := Group(snaps, kinds[0]);
      var a := GroupPass(due, refused, |g|, g, deleted, total);
      var b := Cleanup(due, refused, snaps, kinds[1..], a.deleted, a.total);
      GroupConserves(due, refused, |g|, g, deleted, total);
      GroupTallies(due, refused, |g|, g, deleted, total);
      GroupMembers(snaps, kinds[0]);
      SumConcat(a.removed, b.removed, GbOf());
      SumConcat(a.kept, b.kept, GbOf());
      CleanupSums(due, refused, snaps, kinds[1..], a.deleted, a.total);
    }
  }

  /** The tracked total is the size of what survives, and the returned number is the number of
      snapshots that went. */
  lemma TotalTracksSurvivors(p: Policy, now: int, refused: set<Key>, snaps: seq<Snapshot>)
    ensures var r := CleanupAll(p, now, refused, snaps);
            r.total == TotalGb(r.kept) && r.deleted == |r.removed|
  {
    KindsListed(snaps);
    CleanupSums(DueUnder(p, now), refused, snaps, KindOrder(snaps), 0, TotalGb(snaps));
    SumByGroup(snaps, KindOf(), KindOrder(snaps), GbOf());
  }

  // ----- the allowance is needed -----

  const ONE_OF_EACH := Policy(1, 1, 30, 0, None, map[])

  lemma ExampleFull(due: Due, f1: Snapshot, f2: Snapshot, total: real)
    requires due(f1, 2, total) && !due(f2, 1, total - Gb(f1))
    ensures GroupPass(due, {}, 2, [f1, f2], 0, total) == Pass([f1], [f1], [f2], 1, total - Gb(f1))
  {
    assert [f1, f2][1..] == [f2];
    NoneGo(due, {}, 2, [f2], 1, total - Gb(f1));
  }

  lemma ExampleIncremental(due: Due, i1: Snapshot, i2: Snapshot, i3: Snapshot, total: real)
    requires due(i1, 2, total) && !due(i2, 1, total - Gb(i1)) && !due(i3, 1, total - Gb(i1))
    ensures GroupPass(due, {}, 3, [i1, i2, i3], 1, total).kept == [i2, i3]
  {
    assert [i1, i2, i3][1..] == [i2, i3];
    NoneGo(due, {}, 3, [i2, i3], 2, total - Gb(i1));
  }

  lemma ExampleGroups(fs: seq<Snapshot>, ins: seq<Snapshot>)
    requires forall s :: s in fs ==> s.val.kind == Full
    requires forall s :: s in ins ==> s.val.kind == Incremental
    requires Sorted(fs, ByCreation()) && Sorted(ins, ByCreation())
    ensures Group(fs + ins, Full) == fs && Group(fs + ins, Incremental) == ins
  {
    FilterConcat(fs, ins, GroupIs(KindOf(), Full));
    FilterConcat(fs, ins, GroupIs(KindOf(), Incremental));
    FilterAll(fs, GroupIs(KindOf(), Full));
    FilterNone(fs, GroupIs(KindOf(), Incremental));
    FilterNone(ins, GroupIs(KindOf(), Full));
    FilterAll(ins, GroupIs(KindOf(), Incremental));
    SortOfSorted(fs, ByCreation());
    SortOfSorted(ins, ByCreation());
    assert fs + [] == fs && [] + ins == ins;
  }

  lemma ExampleKinds()
    ensures Firsts([Full, Full, Incremental, Incremental, Incremental]) == [Full, Incremental]
  {
    var ks := [Full, Full, Incremental, Incremental, Incremental];
    assert ks[..4] == [Full, Full, Incremental, Incremental] && ks[..4][..3] == ks[..3] && ks[..3][..2] == ks[..2];
    assert ks[..2] == [Full, Full] && ks[..2][..1] == [Full] && [Full][..0] == [];
    assert Firsts([Full]) == [Full];
    assert Firsts(ks[..2]) == [Full];
    assert Firsts(ks[..3]) == [Full, Incremental];
    assert Firsts(ks[..4]) == [Full, Incremental];
  }

  lemma ExampleDue(s: Snapshot, count: int, total: real)
    requires (s.val.kind == Full || s.val.kind == Incremental) && 0 <= s.val.created <= 9
    ensures DueUnder(ONE_OF_EACH, 9)(s, count, total) <==> count > 1
  {
  }

  lemma TwoKinds(due: Due, all: seq<Snapshot>, first: Kind, second: Kind, t: real)
    ensures var a := GroupPass(due, {}, |Group(all, first)|, Group(all, first), 0, t);
            var b := GroupPass(due, {}, |Group(all, second)|, Group(all, second), a.deleted, a.total);
            Cleanup(due, {}, all, [first, second], 0, t).kept == a.kept + b.kept
  {
    var a := GroupPass(due, {}, |Group(all, first)|, Group(all, first), 0, t);
    var b := GroupPass(due, {}, |Group(all, second)|, Group(all, second), a.deleted, a.total);
    var rest := Cleanup(due, {}, all, [second], a.deleted, a.total);
    assert [first, second][1..] == [second] && [second][1..] == [];
    assert rest == Joined(b, Cleanup(due, {}, all, [], b.deleted, b.total));
    assert rest.kept == b.kept + [] && b.kept + [] == b.kept;
  }

  lemma ExampleCleanup(due: Due, f1: Snapshot, f2: Snapshot, i1: Snapshot, i2: Snapshot, i3: Snapshot,
                       all: seq<Snapshot>, t: real)
    requires Group(all, Full) == [f1, f2] && Group(all, Incremental) == [i1, i2, i3]
    requires due(f1, 2, t) && !due(f2, 1, t - Gb(f1)) && due(i1, 2, t - Gb(f1))
    requires !due(i2, 1, t - Gb(f1) - Gb(i1)) && !due(i3, 1, t - Gb(f1) - Gb(i1))
    ensures Cleanup(due, {}, all, [Full, Incremental], 0, t).kept == [f2, i2, i3]
  {
    ExampleFull(due, f1, f2, t);
    ExampleIncremental(due, i1, i2, i3, t - Gb(f1));
    var a, b := GroupPass(due, {}, 2, [f1, f2], 0, t), GroupPass(due, {}, 3, [i1, i2, i3], 1, t - Gb(f1));
    TwoKinds(due, all, Full, Incremental, t);
    assert [f2] + [i2, i3] == [f2, i2, i3];
  }

  /** The allowance for earlier deletions is needed: with keep counts of 1, two full and three
      incremental snapshots of today end as one full and two incremental ones. */
  lemma SharedCounterSparesTooMany(f1: Snapshot, f2: Snapshot, i1: Snapshot, i2: Snapshot, i3: Snapshot)
    requires f1.val.kind == f2.val.kind == Full && i1.val.kind == i2.val.kind == i3.val.kind == Incremental
    requires 0 <= f1.val.created <= f2.val.created <= 9 && 0 <= i1.val.created <= i2.val.created <= i3.val.created <= 9
    ensures CleanupAll(ONE_OF_EACH, 9, {}, [f1, f2, i1, i2, i3]).kept == [f2, i2, i3]
  {
    var fs, ins, all := [f1, f2], [i1, i2, i3], [f1, f2, i1, i2, i3];
    assert all == fs + ins;
    ExampleGroups(fs, ins);
    assert Kinds(all) == [Full, Full, Incremental, Incremental, Incremental];
    ExampleKinds();
    var t := TotalGb(all);
    ExampleDue(f1, 2, t);
    ExampleDue(f2, 1, t - Gb(f1));
    ExampleDue(i1, 2, t - Gb(f1));
    ExampleDue(i2, 1, t - Gb(f1) - Gb(i1));
    ExampleDue(i3, 1, t - Gb(f1) - Gb(i1));
    ExampleCleanup(DueUnder(ONE_OF_EACH, 9), f1, f2, i1, i2, i3, all, t);
  }

  // ----- the listing -----

  const LISTED: nat := 10000

  function NewestFirst(): Snapshot -> real {
    (s: Snapshot) => -(s.val.created as real)
  }

  /** What the storage lists: the newest snapshots, as many as the manager asks for. */
  function Listing(stored: seq<Snapshot>): seq<Snapshot> {
    var sorted := StableSort(stored, NewestFirst());
    if |sorted| <= LISTED then sorted else sorted[..LISTED]
  }

  lemma {:induction false} RemovedFrom(due: Due, refused: set<Key>, snaps: seq<Snapshot>, kinds: seq<Kind>,
                                       deleted: int, total: real)
    ensures forall s :: s in Cleanup(due, refused, snaps, kinds, deleted, total).removed ==> s in snaps
  {
    if kinds == [] {
    } else {
      var g := Group(snaps, kinds[0]);
      var a := GroupPass(due, refused, |g|, g, deleted, total);
      GroupMembers(snaps, kinds[0]);
      PassWithin(due, refused, |g|, g, deleted, total);
      RemovedFrom(due, refused, snaps, kinds[1..], a.deleted, a.total);
    }
  }

  /** A snapshot beyond the listing is no newer than any listed one and always stays, however old
      it is. */
  lemma UnlistedStay(p: Policy, now: int, refused: set<Key>, stored: seq<Snapshot>, s: Snapshot)
    requires DistinctKeys(stored) && s in stored && s !in Listing(stored)
    ensures |Listing(stored)| == LISTED && forall x :: x in Listing(stored) ==> s.val.created <= x.val.created
    ensures s in Filter(stored, KeyNotAmong(CleanupAll(p, now, refused, Listing(stored)).removed))
  {
    var sorted, snaps := StableSort(stored, NewestFirst()), Listing(stored);
    SortMultiset(stored, NewestFirst());
    SortSorted(stored, NewestFirst());
    var j :| 0 <= j < |sorted| && sorted[j] == s;
    assert j >= |snaps|;
    forall x | x in snaps ensures s.val.created <= x.val.created {
      var i :| 0 <= i < |snaps| && snaps[i] == x;
      assert NewestFirst()(sorted[i]) <= NewestFirst()(sorted[j]);
    }
    var gone := CleanupAll(p, now, refused, snaps).removed;
    RemovedFrom(DueUnder(p, now), refused, snaps, KindOrder(snaps), 0, TotalGb(snaps));
    forall g | g in gone ensures g.key != s.key {
      assert g in stored;
      FindUnique(stored, g);
      FindUnique(stored, s);
    }
    FilterMember(stored, KeyNotAmong(gone), s);
  }

  // ----- the manager -----

  lemma PassFirst(due: Due, refused: set<Key>, n: nat, todo: seq<Snapshot>, deleted: int, total: real)
    requires todo != []
    ensures var r, s := GroupPass(due, refused, n, todo, deleted, total), todo[0];
            if due(s, n - deleted, total) && s.key !in refused then
              var rest := GroupPass(due, refused, n, todo[1..], deleted + 1, total - Gb(s));
              r.deleted == rest.deleted && r.total == rest.total && r.removed == [s] + rest.removed
            else
              var rest := GroupPass(due, refused, n, todo[1..], deleted, total);
              r.deleted == rest.deleted && r.total == rest.total && r.removed == rest.removed
  {
  }

  /** Where a pass over one more snapshot stands. */
  ghost predicate OneMore(before: Pass, after: Pass, s: Snapshot, gone: bool) {
    && after.deleted == (if gone then before.deleted + 1 else before.deleted)
    && after.total == (if gone then before.total - Gb(s) else before.total)
    && after.removed == if gone then before.removed + [s] else before.removed
  }

  lemma {:induction false} PassOneMore(due: Due, refused: set<Key>, n: nat, todo: seq<Snapshot>, s: Snapshot,
                                       deleted: int, total: real)
    ensures var a := GroupPass(due, refused, n, todo, deleted, total);
            OneMore(a, GroupPass(due, refused, n, todo + [s], deleted, total), s,
                    due(s, n - a.deleted, a.total) && s.key !in refused)
  {
    if todo == [] {
      assert todo + [s] == [s] && [s][1..] == [];
    } else {
      var x := todo[0];
      assert (todo + [s])[0] == x && (todo + [s])[1..] == todo[1..] + [s];
      PassFirst(due, refused, n, todo, deleted, total);
      PassFirst(due, refused, n, todo + [s], deleted, total);
      if due(x, n - deleted, total) && x.key !in refused {
        PassOneMore(due, refused, n, todo[1..], s, deleted + 1, total - Gb(x));
      } else {
        PassOneMore(due, refused, n, todo[1..], s, deleted, total);
      }
    }
  }

  /** One more snapshot at the end of the pass. */
  lemma PassSnoc(p: Policy, now: int, refused: set<Key>, g: seq<Snapshot>, i: nat, deleted: int, total: real)
    requires i < |g|
    ensures var a := GroupPass(DueUnder(p, now), refused, |g|, g[..i], deleted, total);
            OneMore(a, GroupPass(DueUnder(p, now), refused, |g|, g[..i + 1], deleted, total), g[i],
                    && ShouldDelete(p, AgeDays(g[i], now), g[i].val.kind, |g| - a.deleted, a.total)
                    && g[i].key !in refused)
  {
    PassOneMore(DueUnder(p, now), refused, |g|, g[..i], g[i], deleted, total);
    assert g[..i + 1] == g[..i] + [g[i]];
  }

  /** Where a cleanup of one more type stands. */
  ghost predicate OneKindMore(before: Pass, after: Pass, last: Pass) {
    after.deleted == last.deleted && after.total == last.total && after.removed == before.removed + last.removed
  }

  lemma JoinedMore(first: Pass, a: Pass, b: Pass, last: Pass)
    requires OneKindMore(a, b, last)
    ensures OneKindMore(Joined(first, a), Joined(first, b), last)
  {
    assert first.removed + (a.removed + last.removed) == (first.removed + a.removed) + last.removed;
  }

  lemma {:induction false} CleanupOneMore(due: Due, refused: set<Key>, snaps: seq<Snapshot>, kinds: seq<Kind>, k: Kind,
                                          deleted: int, total: real)
    ensures var a := Cleanup(due, refused, snaps, kinds, deleted, total);
            OneKindMore(a, Cleanup(due, refused, snaps, kinds + [k], deleted, total),
                        GroupPass(due, refused, |Group(snaps, k)|, Group(snaps, k), a.deleted, a.total))
  {
    if kinds == [] {
      assert kinds + [k] == [k] && [k][1..] == [];
    } else {
      var g := Group(snaps, kinds[0]);
      var first := GroupPass(due, refused, |g|, g, deleted, total);
      assert (kinds + [k])[0] == kinds[0] && (kinds + [k])[1..] == kinds[1..] + [k];
      var a := Cleanup(due, refused, snaps, kinds[1..], first.deleted, first.total);
      var b := Cleanup(due, refused, snaps, kinds[1..] + [k], first.deleted, first.total);
      CleanupOneMore(due, refused, snaps, kinds[1..], k, first.deleted, first.total);
      assert Cleanup(due, refused, snaps, kinds, deleted, total) == Joined(first, a);
      assert Cleanup(due, refused, snaps, kinds + [k], deleted, total) == Joined(first, b);
      JoinedMore(first, a, b, GroupPass(due, refused, |Group(snaps, k)|, Group(snaps, k), a.deleted, a.total));
    }
  }

  /** One more type at the end of the cleanup. */
  lemma CleanupSnoc(due: Due, refused: set<Key>, snaps: seq<Snapshot>, kinds: seq<Kind>, i: nat, total: real)
    requires i < |kinds|
    ensures var a := Cleanup(due, refused, snaps, kinds[..i], 0, total);
            OneKindMore(a, Cleanup(due, refused, snaps, kinds[..i + 1], 0, total),
                        GroupPass(due, refused, |Group(snaps, kinds[i])|, Group(snaps, kinds[i]), a.deleted, a.total))
  {
    CleanupOneMore(due, refused, snaps, kinds[..i], kinds[i], 0, total);
    assert kinds[..i + 1] == kinds[..i] + [kinds[i]];
  }

  lemma RemovedNext(was: seq<Snapshot>, gone: seq<Snapshot>, removed: seq<Snapshot>, s: Snapshot)
    ensures Remove(Filter(was, KeyNotAmong(gone + removed)), s.key) == Filter(was, KeyNotAmong(gone + (removed + [s])))
  {
    RemoveOneMore(was, gone + removed, s);
    assert gone + removed + [s] == gone + (removed + [s]);
  }

  class BackupManager {
    var stored: seq<Snapshot>

    constructor (stored: seq<Snapshot>)
      ensures this.stored == stored
    {
      this.stored := stored;
    }

    /** Deletes the snapshot if the policy says so and the storage does not refuse. */
    method DeleteIfDue(p: Policy, now: int, refused: set<Key>, s: Snapshot, count: int,
                       total: real) returns (gone: bool)
      modifies this`stored
      ensures gone == (ShouldDelete(p, AgeDays(s, now), s.val.kind, count, total) && s.key !in refused)
      ensures stored == if gone then Remove(old(stored), s.key) else old(stored)
    {
      gone := false;
      if ShouldDelete(p, AgeDays(s, now), s.val.kind, count, total) {
        if s.key !in refused {
          stored := Remove(stored, s.key);
          gone := true;
        }
      }
    }

    /** The loop over one type; `gone` is what earlier types lost of the snapshots `was`. */
    method CleanGroup(p: Policy, now: int, refused: set<Key>, group: seq<Snapshot>, before: int, totalBefore: real,
                      ghost gone: seq<Snapshot>, ghost was: seq<Snapshot>)
      returns (deleted: int, total: real)
      requires stored == Filter(was, KeyNotAmong(gone))
      modifies this`stored
      ensures var r := GroupPass(DueUnder(p, now), refused, |group|, group, before, totalBefore);
              deleted == r.deleted && total == r.total && stored == Filter(was, KeyNotAmong(gone + r.removed))
    {
      deleted, total := before, totalBefore;
      ghost var due := DueUnder(p, now);
      ghost var r := GroupPass(due, refused, |group|, group[..0], before, totalBefore);
      assert gone + [] == gone;
      for i := 0 to |group|
        invariant r == GroupPass(due, refused, |group|, group[..i], before, totalBefore)
        invariant deleted == r.deleted && total == r.total
        invariant stored == Filter(was, KeyNotAmong(gone + r.removed))
      {
        PassSnoc(p, now, refused, group, i, before, totalBefore);
        RemovedNext(was, gone, r.removed, group[i]);
        var done := DeleteIfDue(p, now, refused, group[i], |group| - deleted, total);
        if done {
          deleted := deleted + 1;
          total := total - Gb(group[i]);
        }
        r := GroupPass(due, refused, |group|, group[..i + 1], before, totalBefore);
      }
      assert group[..|group|] == group;
    }

    /** `_cleanup_old_backups`: what is left in the storage is what the pass did not remove. */
    method CleanupOldBackups(p: Policy, now: int, refused: set<Key>) returns (deleted: int)
      modifies this`stored
      ensures deleted == CleanupAll(p, now, refused, Listing(old(stored))).deleted
      ensures stored == Filter(old(stored), KeyNotAmong(CleanupAll(p, now, refused, Listing(old(stored))).removed))
    {
      var snapshots := Listing(stored);
      var kinds, total := KindOrder(snapshots), TotalGb(snapshots);
      deleted := 0;
      ghost var due, total0 := DueUnder(p, now), total;
      ghost var r := Cleanup(due, refused, snapshots, kinds[..0], 0, total0);
      FilterAll(stored, KeyNotAmong([]));
      for i := 0 to |kinds|
        invariant r == Cleanup(due, refused, snapshots, kinds[..i], 0, total0)
        invariant deleted == r.deleted && total == r.total
        invariant stored == Filter(old(stored), KeyNotAmong(r.removed))
      {
        CleanupSnoc(due, refused, snapshots, kinds, i, total0);
        var group := Group(snapshots, kinds[i]);
        deleted, total := CleanGroup(p, now, refused, group, deleted, total, r.removed, old(stored));
        r := Cleanup(due, refused, snapshots, kinds[..i + 1], 0, total0);
      }
      assert kinds[..|kinds|] == kinds;
    }
  }
}
