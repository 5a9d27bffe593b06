/** Cost tracking (src/distributed_cluster/billing/tracker.py). Times are seconds, money and
    quantities are reals. Entries live in an insertion-ordered dictionary; four index
    dictionaries list entry ids and are never cleaned. */
module CostTracker {
  import opened Common
  import opened OrderedDict

  datatype Resource = Cpu | Gpu | Memory | Disk | NetworkIngress | NetworkEgress | LlmTokens

  datatype Category = Compute | MemoryUse | Storage | Network | AiApi | License | Electricity | Other

  datatype ResourceCost = ResourceCost(resource: Resource, quantity: real, unitPrice: real, cost: real)

  /** A Python datetime without or with a time zone; comparing one of each raises a TypeError. */
  datatype Stamp = Naive(t: real) | Aware(t: real)

  datatype Cost = Cost(
    job: string,
    user: string,
    team: Option<string>,
    project: Option<string>,
    start: real,
    end: real,
    category: Category,
    costs: seq<ResourceCost>,
    total: real,
    created: Stamp)

  type Entry = Item<Cost>

  type Index = map<string, seq<Key>>

  datatype Ledger = Ledger(entries: seq<Entry>, jobs: Index, users: Index, teams: Index, projects: Index)

  const EMPTY := Ledger([], map[], map[], map[], map[])

  function TotalOf(): Entry -> real {
    (e: Entry) => e.val.total
  }

  function CostOf(): ResourceCost -> real {
    (c: ResourceCost) => c.cost
  }

  // ----- storing and cleaning -----

  function Indexed(ix: Index, name: string, id: Key): Index {
    ix[name := (if name in ix then ix[name] else []) + [id]]
  }

  /** Team and project ids that are None or empty are not indexed. */
  function IndexedIf(ix: Index, name: Option<string>, id: Key): Index {
    if name.Some? && name.value != "" then Indexed(ix, name.value, id) else ix
  }

  function Stored(l: Ledger, e: Entry): Ledger {
    Ledger(Assign(l.entries, e.key, e.val),
           IndexedIf(l.jobs, Some(e.val.job), e.key),
           Indexed(l.users, e.val.user, e.key),
           IndexedIf(l.teams, e.val.team, e.key),
           IndexedIf(l.projects, e.val.project, e.key))
  }

  function CreatedSince(cutoff: real): Entry -> bool {
    (e: Entry) => e.val.created.t >= cutoff
  }

  predicate AllAware(es: seq<Entry>) {
    forall e :: e in es ==> e.val.created.Aware?
  }

  /** Drops the entries created before the cutoff and reports how many; None is the TypeError of
      comparing a naive creation time with the aware cutoff, which leaves everything in place. */
  function Cleaned(l: Ledger, cutoff: real): (Ledger, Option<int>) {
    if AllAware(l.entries) then
      (l.(entries := Filter(l.entries, CreatedSince(cutoff))),
       Some(|l.entries| - |Filter(l.entries, CreatedSince(cutoff))|))
    else (l, None)
  }

  /** Starting a job and recording AI usage do not touch the ledger. */
  datatype Op = Store(entry: Entry) | Cleanup(cutoff: real)

  function Step(l: Ledger, op: Op): Ledger {
    match op
    case Store(e) => Stored(l, e)
    case Cleanup(cutoff) => Cleaned(l, cutoff).0
  }

  function After(ops: seq<Op>): Ledger {
    if ops == [] then EMPTY else Step(After(ops[..|ops| - 1]), ops[|ops| - 1])
  }

  /** Every entry ever stored, in order. */
  function Log(ops: seq<Op>): seq<Entry> {
    if ops == [] then []
    else Log(ops[..|ops| - 1]) + if ops[|ops| - 1].Store? then [ops[|ops| - 1].entry] else []
  }

  // ----- lookups through an index and by scanning -----

  predicate InDates(e: Entry, from: Option<real>, to: Option<real>) {
    (from.Some? ==> e.val.start >= from.value) && (to.Some? ==> e.val.end <= to.value)
  }

  function Dated(from: Option<real>, to: Option<real>): Entry -> bool {
    (e: Entry) => InDates(e, from, to)
  }

  function Ids(es: seq<Entry>): seq<Key> {
    seq(|es|, i requires 0 <= i < |es| => es[i].key)
  }

  function IdsFor(ix: Index, name: string): seq<Key> {
    if name in ix then ix[name] else []
  }

  /** The loop over the listed ids: ids without an entry and entries outside the dates are
      skipped. */
  function Collect(entries: seq<Entry>, ids: seq<Key>, from: Option<real>, to: Option<real>): seq<Entry> {
    if ids == [] then []
    else
      var found := Find(entries, ids[0]);
      var rest := Collect(entries, ids[1..], from, to);
      if found.Some? && InDates(found.value, from, to) then [found.value] + rest else rest
  }

  /** What an index is about. */
  datatype Entity = Job | User | Team | Project

  function NameIn(kind: Entity, e: Entry): Option<string> {
    match kind
    case Job => Some(e.val.job)
    case User => Some(e.val.user)
    case Team => e.val.team
    case Project => e.val.project
  }

  function Naming(kind: Entity, name: string): Entry -> bool {
    (e: Entry) => NameIn(kind, e) == Some(name)
  }

  function IndexFor(l: Ledger, kind: Entity): Index {
    match kind
    case Job => l.jobs
    case User => l.users
    case Team => l.teams
    case Project => l.projects
  }

  // ----- the invariant -----

  ghost function Among(es: seq<Entry>): Entry -> bool {
    (e: Entry) => e in es
  }

  /** The empty name is only a name for users. */
  predicate Nameable(kind: Entity, name: string) {
    name != "" || kind == User
  }

  /** An index lists the ids of all entries of the log that carry the name, live or not. */
  ghost predicate IndexFaithful(ix: Index, kind: Entity, log: seq<Entry>) {
    forall name :: IdsFor(ix, name) == if Nameable(kind, name) then Ids(Filter(log, Naming(kind, name))) else []
  }

  /** The live entries that carry the name and fall within the dates, by a full scan. */
  function Scan(entries: seq<Entry>, kind: Entity, name: string, from: Option<real>, to: Option<real>): seq<Entry> {
    if Nameable(kind, name) then Filter(Filter(entries, Naming(kind, name)), Dated(from, to)) else []
  }

  /** What a scan selects, in the order of the ledger: the entries of the job, user, team or project
      that start and end within the dates. The empty name is only a name for users. */
  lemma ScanExactly(entries: seq<Entry>, kind: Entity, name: string, from: Option<real>, to: Option<real>, e: Entry)
    ensures Subsequence(Scan(entries, kind, name, from, to), entries)
    ensures e in Scan(entries, kind, name, from, to)
       <==> && e in entries && (name != "" || kind == User)
            && (match kind
                case Job => e.val.job == name
                case User => e.val.user == name
                case Team => e.val.team == Some(name)
                case Project => e.val.project == Some(name))
            && (from.None? || from.value <= e.val.start) && (to.None? || e.val.end <= to.value)
  {
    var named := Filter(entries, Naming(kind, name));
    FilterMember(entries, Naming(kind, name), e);
    FilterMember(named, Dated(from, to), e);
    FilterTwice(entries, Naming(kind, name), Dated(from, to),
                (x: Entry) => Naming(kind, name)(x) && Dated(from, to)(x));
    FilterSubsequence(entries, (x: Entry) => Naming(kind, name)(x) && Dated(from, to)(x));
  }

  /** What a cleanup of time-zoned entries keeps. */
  lemma CleanedExactly(l: Ledger, cutoff: real, e: Entry)
    requires forall x :: x in l.entries ==> x.val.created.Aware?
    ensures e in Cleaned(l, cutoff).0.entries <==> e in l.entries && e.val.created.t >= cutoff
    ensures Subsequence(Cleaned(l, cutoff).0.entries, l.entries)
    ensures Cleaned(l, cutoff).1 == Some(|l.entries| - |Cleaned(l, cutoff).0.entries|)
    ensures Cleaned(l, cutoff).0 == l.(entries := Cleaned(l, cutoff).0.entries)
  {
    FilterMember(l.entries, CreatedSince(cutoff), e);
    FilterSubsequence(l.entries, CreatedSince(cutoff));
  }

  function UserOf(): Entry -> string {
    (e: Entry) => e.val.user
  }

  function CategoryOf(): Entry -> Category {
    (e: Entry) => e.val.category
  }

  function ResourceOf(): ResourceCost -> Resource {
    (c: ResourceCost) => c.resource
  }

  function HoursOf(): Entry -> real {
    (e: Entry) => (e.val.end - e.val.start) / 3600.0
  }

  /** What the totals and groups are made of. */
  lemma MeasuresExactly(e: Entry, c: ResourceCost)
    ensures TotalOf()(e) == e.val.total && UserOf()(e) == e.val.user && CategoryOf()(e) == e.val.category
    ensures CostOf()(c) == c.cost && ResourceOf()(c) == c.resource
    ensures HoursOf()(e) * 3600.0 == e.val.end - e.val.start
  {
  }

  /** The live entries are those of the log that are left, in the log's order, and each index
      is faithful to the log. */
  ghost predicate Faithful(l: Ledger, log: seq<Entry>) {
    && DistinctKeys(log)
    && l.entries == Filter(log, Among(l.entries))
    && (forall kind :: IndexFaithful(IndexFor(l, kind), kind, log))
    && (forall e :: e in log ==> e.val.total == Sum(e.val.costs, CostOf()))
  }

  lemma LiveFromLog(l: Ledger, log: seq<Entry>)
    requires Faithful(l, log)
    ensures DistinctKeys(l.entries)
    ensures forall e :: e in l.entries ==> e in log
  {
    FilterDistinctKeys(log, Among(l.entries));
    forall e | e in l.entries ensures e in log {
      FilterMember(log, Among(l.entries), e);
    }
  }

  /** Filtering by `p` and then by `q` keeps what `r` does when `r` means both. */
  lemma FilterFilter(log: seq<Entry>, p: Entry -> bool, q: Entry -> bool, r: Entry -> bool)
    requires r == Among(Filter(Filter(log, p), q))
    ensures Filter(log, r) == Filter(Filter(log, p), q)
  {
    var kept := Filter(Filter(log, p), q);
    forall e | e in log ensures r(e) == (p(e) && q(e)) {
      FilterMember(log, p, e);
      FilterMember(Filter(log, p), q, e);
    }
    FilterTwice(log, p, q, r);
  }

  lemma CleanKeepsFaithful(l: Ledger, log: seq<Entry>, cutoff: real)
    requires Faithful(l, log)
    ensures Faithful(Cleaned(l, cutoff).0, log)
  {
    if AllAware(l.entries) {
      var kept := Filter(l.entries, CreatedSince(cutoff));
      FilterCommute(log, Among(l.entries), CreatedSince(cutoff));
      FilterFilter(log, Among(l.entries), CreatedSince(cutoff), Among(kept));
      forall kind ensures IndexFaithful(IndexFor(Cleaned(l, cutoff).0, kind), kind, log) {
        assert IndexFaithful(IndexFor(l, kind), kind, log);
      }
    }
  }

  lemma {:induction false} AssignFresh(d: seq<Entry>, e: Entry)
    requires forall x :: x in d ==> x.key != e.key
    ensures Assign(d, e.key, e.val) == d + [e]
  {
    if d == [] {
    } else {
      assert d[0] in d;
      assert forall x :: x in d[1..] ==> x in d;
      AssignFresh(d[1..], e);
      assert d == [d[0]] + d[1..];
    }
  }

  lemma NamedStored(kind: Entity, log: seq<Entry>, e: Entry, name: string)
    ensures Ids(Filter(log + [e], Naming(kind, name)))
         == Ids(Filter(log, Naming(kind, name))) + if NameIn(kind, e) == Some(name) then [e.key] else []
  {
    var named := Filter(log, Naming(kind, name));
    FilterConcat(log, [e], Naming(kind, name));
    assert Filter([e], Naming(kind, name)) == if NameIn(kind, e) == Some(name) then [e] else [];
    assert Ids(named + [e]) == Ids(named) + [e.key];
    assert named + [] == named;
  }

  lemma IndexStoreFaithful(ix: Index, kind: Entity, log: seq<Entry>, e: Entry)
    requires IndexFaithful(ix, kind, log)
    ensures kind != User ==> IndexFaithful(IndexedIf(ix, NameIn(kind, e), e.key), kind, log + [e])
    ensures kind == User ==> IndexFaithful(Indexed(ix, e.val.user, e.key), kind, log + [e])
  {
    var ix' := if kind == User then Indexed(ix, e.val.user, e.key) else IndexedIf(ix, NameIn(kind, e), e.key);
    forall name
      ensures IdsFor(ix', name) == if Nameable(kind, name) then Ids(Filter(log + [e], Naming(kind, name))) else []
    {
      NamedStored(kind, log, e, name);
    }
  }

  lemma EntriesStoreFaithful(l: Ledger, log: seq<Entry>, e: Entry)
    requires Faithful(l, log) && (forall x :: x in log ==> x.key != e.key)
    ensures Stored(l, e).entries == l.entries + [e] == Filter(log + [e], Among(l.entries + [e]))
  {
    LiveFromLog(l, log);
    AssignFresh(l.entries, e);
    var entries' := l.entries + [e];
    FilterConcat(log, [e], Among(entries'));
    FilterExt(log, Among(entries'), Among(l.entries));
    assert Filter([e], Among(entries')) == [e];
  }

  lemma StoreKeepsFaithful(l: Ledger, log: seq<Entry>, e: Entry)
    requires Faithful(l, log) && (forall x :: x in log ==> x.key != e.key)
    requires e.val.total == Sum(e.val.costs, CostOf())
    ensures Faithful(Stored(l, e), log + [e])
    ensures Stored(l, e).entries == l.entries + [e]
  {
    EntriesStoreFaithful(l, log, e);
    forall kind ensures IndexFaithful(IndexFor(Stored(l, e), kind), kind, log + [e]) {
      IndexStoreFaithful(IndexFor(l, kind), kind, log, e);
    }
  }

  /** Every stored entry has its own id and its parts add up. */
  ghost predicate FreshRun(ops: seq<Op>) {
    DistinctKeys(Log(ops)) && forall e :: e in Log(ops) ==> e.val.total == Sum(e.val.costs, CostOf())
  }

  lemma {:induction false} AlwaysFaithful(ops: seq<Op>)
    requires FreshRun(ops)
    ensures Faithful(After(ops), Log(ops))
  {
    if ops == [] {
    } else {
      var before, op := ops[..|ops| - 1], ops[|ops| - 1];
      assert forall i :: 0 <= i < |Log(before)| ==> Log(before)[i] == Log(ops)[i];
      AlwaysFaithful(before);
      match op {
        case Store(e) =>
          assert Log(ops)[|Log(before)|] == e;
          StoreKeepsFaithful(After(before), Log(before), e);
        case Cleanup(cutoff) =>
          assert Log(ops) == Log(before);
          CleanKeepsFaithful(After(before), Log(before), cutoff);
      }
    }
  }

  // ----- index and scan agree -----

  lemma CollectHead(e: Entry, rest: seq<Entry>, a: Entry -> bool, p: Entry -> bool, d: Entry -> bool)
    ensures Filter(Filter(Filter([e] + rest, a), p), d)
         == if a(e) && p(e) && d(e) then [e] + Filter(Filter(Filter(rest, a), p), d)
            else Filter(Filter(Filter(rest, a), p), d)
  {
    assert ([e] + rest)[1..] == rest;
    var fa := Filter(rest, a);
    assert ([e] + fa)[1..] == fa;
    var fp := Filter(fa, p);
    assert ([e] + fp)[1..] == fp;
  }

  lemma {:induction false} CollectIsScan(entries: seq<Entry>, part: seq<Entry>,
                                         p: Entry -> bool, from: Option<real>, to: Option<real>)
    requires forall e :: e in part ==> Find(entries, e.key) == if e in entries then Some(e) else None
    ensures Collect(entries, Ids(Filter(part, p)), from, to)
         == Filter(Filter(Filter(part, Among(entries)), p), Dated(from, to))
  {
    if part == [] {
    } else {
      assert part[0] in part;
      assert forall e :: e in part[1..] ==> e in part;
      CollectIsScan(entries, part[1..], p, from, to);
      var e, named := part[0], Filter(part[1..], p);
      if p(e) {
        assert Ids([e] + named)[0] == e.key && Ids([e] + named)[1..] == Ids(named);
      }
      CollectHead(e, part[1..], Among(entries), p, Dated(from, to));
    }
  }

  /** Going through the index finds exactly the live entries with the name, each once and in
      order, whatever ids are left dangling. */
  lemma IndexAgreesWithScan(l: Ledger, log: seq<Entry>, kind: Entity, name: string, from: Option<real>,
                            to: Option<real>)
    requires Faithful(l, log)
    ensures Collect(l.entries, IdsFor(IndexFor(l, kind), name), from, to) == Scan(l.entries, kind, name, from, to)
  {
    assert IndexFaithful(IndexFor(l, kind), kind, log);
    LiveFromLog(l, log);
    forall e | e in log ensures Find(l.entries, e.key) == if e in l.entries then Some(e) else None {
      FindMember(l.entries, e.key);
      if e in l.entries {
        FindUnique(l.entries, e);
      }
    }
    CollectIsScan(l.entries, log, Naming(kind, name), from, to);
  }

  /** Main result: in every state reached by storing entries with unique ids and cleaning up,
      the index-based entries of a job, user, team or project are the scanned ones, so every total
      computed from them agrees. */
  lemma TotalsAgree(ops: seq<Op>, kind: Entity, name: string, from: Option<real>, to: Option<real>)
    requires FreshRun(ops)
    ensures var l := After(ops);
            && Collect(l.entries, IdsFor(IndexFor(l, kind), name), from, to) == Scan(l.entries, kind, name, from, to)
            && Sum(Collect(l.entries, IdsFor(IndexFor(l, kind), name), from, to), TotalOf())
               == Sum(Scan(l.entries, kind, name, from, to), TotalOf())
  {
    AlwaysFaithful(ops);
    IndexAgreesWithScan(After(ops), Log(ops), kind, name, from, to);
  }

  function UserTotals(l: Ledger, users: seq<string>): real {
    if users == [] then 0.0
    else Sum(Collect(l.entries, IdsFor(l.users, users[0]), None, None), TotalOf()) + UserTotals(l, users[1..])
  }

  lemma {:induction false} UserTotalsAreGroups(l: Ledger, log: seq<Entry>, users: seq<string>)
    requires Faithful(l, log)
    ensures UserTotals(l, users) == SumGroups(l.entries, UserOf(), users, TotalOf())
  {
    if users == [] {
    } else {
      UserTotalsAreGroups(l, log, users[1..]);
      var u := users[0];
      IndexAgreesWithScan(l, log, User, u, None, None);
      var named := Filter(l.entries, Naming(User, u));
      FilterAll(named, Dated(None, None));
      FilterExt(l.entries, Naming(User, u), GroupIs(UserOf(), u));
    }
  }

  lemma ScanAddsUp(l: Ledger, log: seq<Entry>, kind: Entity, name: string, from: Option<real>, to: Option<real>)
    requires Faithful(l, log)
    ensures forall e :: e in Scan(l.entries, kind, name, from, to) ==> e.val.total == Sum(e.val.costs, CostOf())
  {
    LiveFromLog(l, log);
    FilterMembers(l.entries, Naming(kind, name));
    FilterMembers(Filter(l.entries, Naming(kind, name)), Dated(from, to));
  }

  /** However the users of the index are listed, their totals add up to the cost of all live
      entries. */
  lemma UserTotalsCoverAll(ops: seq<Op>, users: seq<string>)
    requires FreshRun(ops) && Distinct(users) && (forall u :: u in users <==> u in After(ops).users)
    ensures UserTotals(After(ops), users) == Sum(After(ops).entries, TotalOf())
  {
    var l, log := After(ops), Log(ops);
    AlwaysFaithful(ops);
    LiveFromLog(l, log);
    UserTotalsAreGroups(l, log, users);
    forall e | e in l.entries ensures e.val.user in users {
      FilterMember(log, Naming(User, e.val.user), e);
      assert IndexFaithful(IndexFor(l, User), User, log);
      assert IdsFor(IndexFor(l, User), e.val.user) == Ids(Filter(log, Naming(User, e.val.user)));
      assert Filter(log, Naming(User, e.val.user)) != [];
      assert |IdsFor(l.users, e.val.user)| > 0;
    }
    SumByGroup(l.entries, UserOf(), users, TotalOf());
  }

  // ----- what cleanup does with the creation times the tracker itself makes -----

  ghost predicate AllNaive(es: seq<Entry>) {
    forall e :: e in es ==> e.val.created.Naive?
  }

  lemma NaiveStampsBlockCleanup(l: Ledger, cutoff: real)
    requires AllNaive(l.entries)
    ensures Cleaned(l, cutoff) == (l, if l.entries == [] then Some(0) else None)
  {
    assert l.entries == [] || l.entries[0] in l.entries;
  }

  /** With naive creation times, which are the only ones the tracker makes, the live entries are
      all those ever stored. */
  lemma {:induction false} NothingEverRemoved(ops: seq<Op>)
    requires FreshRun(ops) && AllNaive(Log(ops))
    ensures After(ops).entries == Log(ops)
  {
    if ops == [] {
    } else {
      var before, op := ops[..|ops| - 1], ops[|ops| - 1];
      assert forall i :: 0 <= i < |Log(before)| ==> Log(before)[i] == Log(ops)[i];
      NothingEverRemoved(before);
      match op {
        case Store(e) =>
          AlwaysFaithful(before);
          assert Log(ops)[|Log(before)|] == e;
          StoreKeepsFaithful(After(before), Log(before), e);
        case Cleanup(cutoff) =>
          NaiveStampsBlockCleanup(After(before), cutoff);
      }
    }
  }

  /** So after any run that has stored something, a cleanup raises and changes nothing. */
  lemma CleanupNeverWorks(ops: seq<Op>, cutoff: real)
    requires FreshRun(ops) && AllNaive(Log(ops))
    ensures Cleaned(After(ops), cutoff) == (After(ops), if Log(ops) == [] then Some(0) else None)
  {
    NothingEverRemoved(ops);
    NaiveStampsBlockCleanup(After(ops), cutoff);
  }

  // ----- breakdowns -----

  /** The resource costs of all the entries, one after another. */
  function Parts(es: seq<Entry>): seq<ResourceCost> {
    if es == [] then [] else es[0].val.costs + Parts(es[1..])
  }

  lemma {:induction false} PartsSum(es: seq<Entry>)
    requires forall e :: e in es ==> e.val.total == Sum(e.val.costs, CostOf())
    ensures Sum(Parts(es), CostOf()) == Sum(es, TotalOf())
  {
    if es == [] {
    } else {
      assert es[0] in es;
      assert forall e :: e in es[1..] ==> e in es;
      PartsSum(es[1..]);
      SumConcat(es[0].val.costs, Parts(es[1..]), CostOf());
    }
  }

  /** The dictionary holds exactly the occurring groups, each with the sum of its values. */
  ghost predicate IsGrouping<T, K(!new)>(m: map<K, real>, xs: seq<T>, group: T -> K, value: T -> real) {
    && (forall k :: k in m <==> exists x :: x in xs && group(x) == k)
    && (forall k :: k in m ==> m[k] == Sum(Filter(xs, GroupIs(group, k)), value))
  }

  lemma GroupGrows<T, K>(xs: seq<T>, i: nat, group: T -> K, value: T -> real)
    requires i < |xs|
    ensures forall k :: Sum(Filter(xs[..i + 1], GroupIs(group, k)), value)
                     == Sum(Filter(xs[..i], GroupIs(group, k)), value) + if group(xs[i]) == k then value(xs[i]) else 0.0
  {
    assert xs[..i + 1] == xs[..i] + [xs[i]];
    forall k ensures Sum(Filter(xs[..i + 1], GroupIs(group, k)), value)
                  == Sum(Filter(xs[..i], GroupIs(group, k)), value) + if group(xs[i]) == k then value(xs[i]) else 0.0
    {
      FilterConcat(xs[..i], [xs[i]], GroupIs(group, k));
      SumConcat(Filter(xs[..i], GroupIs(group, k)), Filter([xs[i]], GroupIs(group, k)), value);
      assert [xs[i]][1..] == [];
    }
  }

  /** The dictionary after one more value. */
  function Added<K(==)>(m: map<K, real>, key: K, value: real): map<K, real> {
    m[key := (if key in m then m[key] else 0.0) + value]
  }

  lemma AddedIsGrouping<T, K(!new)>(m: map<K, real>, xs: seq<T>, i: nat, group: T -> K, value: T -> real)
    requires i < |xs| && IsGrouping(m, xs[..i], group, value)
    ensures IsGrouping(Added(m, group(xs[i]), value(xs[i])), xs[..i + 1], group, value)
  {
    var key, m' := group(xs[i]), Added(m, group(xs[i]), value(xs[i]));
    assert xs[..i + 1] == xs[..i] + [xs[i]];
    if key !in m {
      FilterNone(xs[..i], GroupIs(group, key));
    }
    forall k | k in m' ensures m'[k] == Sum(Filter(xs[..i + 1], GroupIs(group, k)), value) {
      GroupGrows(xs, i, group, value);
    }
  }

  method AddTo<K(==)>(m: map<K, real>, key: K, value: real) returns (m': map<K, real>)
    ensures m' == Added(m, key, value)
  {
    m' := m;
    if key !in m' {
      m' := m'[key := 0.0];
    }
    m' := m'[key := m'[key] + value];
  }

  /** The accumulating loop of both breakdowns. */
  method GroupTotals<T, K(==,!new)>(xs: seq<T>, group: T -> K, value: T -> real) returns (m: map<K, real>)
    ensures IsGrouping(m, xs, group, value)
  {
    m := map[];
    for i := 0 to |xs|
      invariant IsGrouping(m, xs[..i], group, value)
    {
      AddedIsGrouping(m, xs, i, group, value);
      m := AddTo(m, group(xs[i]), value(xs[i]));
    }
    assert xs[..|xs|] == xs;
  }

  /** Both breakdowns of any selection of stored entries add up to its total: the categories
      because every entry has one, the resources because an entry's total is the sum of its
      resource costs. */
  lemma BreakdownsAddUp(es: seq<Entry>, categories: seq<Category>, resources: seq<Resource>)
    requires forall e :: e in es ==> e.val.total == Sum(e.val.costs, CostOf())
    requires Distinct(categories) && forall e :: e in es ==> e.val.category in categories
    requires Distinct(resources) && forall c :: c in Parts(es) ==> c.resource in resources
    ensures SumGroups(es, CategoryOf(), categories, TotalOf()) == Sum(es, TotalOf())
    ensures SumGroups(Parts(es), ResourceOf(), resources, CostOf()) == Sum(es, TotalOf())
  {
    PartsSum(es);
    SumByGroup(es, CategoryOf(), categories, TotalOf());
    SumByGroup(Parts(es), ResourceOf(), resources, CostOf());
  }

  /** The values of a dictionary added up, its keys listed in some order. */
  function SumValues<K>(m: map<K, real>, ks: seq<K>): real
    requires forall k :: k in ks ==> k in m
  {
    if ks == [] then 0.0
    else
      assert ks[0] in ks && forall k :: k in ks[1..] ==> k in ks;
      m[ks[0]] + SumValues(m, ks[1..])
  }

  /** However its keys are listed, the values of the dictionary add up to the total. */
  ghost predicate AddsUpTo<K(!new)>(m: map<K, real>, total: real) {
    forall ks :: Distinct(ks) && (forall k :: k in ks <==> k in m) ==> SumValues(m, ks) == total
  }

  lemma {:induction false} SumValuesIsGroups<T, K>(xs: seq<T>,
                                                   group: T -> K, value: T -> real, m: map<K, real>, ks: seq<K>)
    requires forall k :: k in ks ==> k in m && m[k] == Sum(Filter(xs, GroupIs(group, k)), value)
    ensures SumValues(m, ks) == SumGroups(xs, group, ks, value)
  {
    if ks == [] {
    } else {
      assert ks[0] in ks && forall k :: k in ks[1..] ==> k in ks;
      SumValuesIsGroups(xs, group, value, m, ks[1..]);
    }
  }

  lemma GroupTotalsAddUp<T, K(!new)>(xs: seq<T>, group: T -> K, value: T -> real, m: map<K, real>)
    requires IsGrouping(m, xs, group, value)
    ensures AddsUpTo(m, Sum(xs, value))
  {
    forall ks | Distinct(ks) && (forall k :: k in ks <==> k in m) ensures SumValues(m, ks) == Sum(xs, value) {
      SumValuesIsGroups(xs, group, value, m, ks);
      SumByGroup(xs, group, ks, value);
    }
  }

  // ----- the cost of a job -----

  /** Resource settings that may be given or missing. */
  datatype Settings = Settings(
    cpuCores: Option<real>,
    gpuCount: Option<real>,
    memoryGb: Option<real>,
    egressGb: Option<real>)

  /** `{**a, **b}` */
  function Merged(a: Settings, b: Settings): Settings {
    Settings(if b.cpuCores.Some? then b.cpuCores else a.cpuCores,
             if b.gpuCount.Some? then b.gpuCount else a.gpuCount,
             if b.memoryGb.Some? then b.memoryGb else a.memoryGb,
             if b.egressGb.Some? then b.egressGb else a.egressGb)
  }

  function GetOr(o: Option<real>, default: real): real {
    if o.Some? then o.value else default
  }

  datatype Active = Active(
    user: string,
    team: Option<string>,
    project: Option<string>,
    start: real,
    settings: Settings,
    inputTokens: int,
    outputTokens: int,
    requests: int,
    model: Option<string>,
    provider: Option<string>)

  function Unused(a: Active): Active {
    a.(inputTokens := 0, outputTokens := 0, requests := 0, model := None, provider := None)
  }

  /** A name that is missing or empty leaves the one recorded before. */
  function Named(was: Option<string>, name: Option<string>): Option<string> {
    if name.Some? && name.value != "" then name else was
  }

  /** What one request of the job uses. */
  datatype AiUsage = AiUsage(input: int, output: int, model: Option<string>, provider: Option<string>)

  function Used(a: Active, u: AiUsage): Active {
    a.(inputTokens := a.inputTokens + u.input, outputTokens := a.outputTokens + u.output, requests := a.requests + 1,
       model := Named(a.model, u.model), provider := Named(a.provider, u.provider))
  }

  /** The price dictionary, which always has all its keys. */
  datatype Prices = Prices(cpu: real, gpu: real, memory: real, disk: real, ingress: real, egress: real, tokens: real) {
    function For(r: Resource): real {
      match r
      case Cpu => cpu
      case Gpu => gpu
      case Memory => memory
      case Disk => disk
      case NetworkIngress => ingress
      case NetworkEgress => egress
      case LlmTokens => tokens
    }
  }

  function Priced(prices: Prices, r: Resource, quantity: real): ResourceCost {
    ResourceCost(r, quantity, prices.For(r), quantity * prices.For(r))
  }

  /** Core-hours, GPU-hours or GB-hours. */
  function Over(amount: real, hours: real): real {
    amount * hours
  }

  function When(used: bool, c: ResourceCost): seq<ResourceCost> {
    if used then [c] else []
  }

  /** What a job is charged for: CPU and memory always, the others when used. */
  function JobCosts(prices: Prices, a: Active, hours: real, s: Settings): seq<ResourceCost> {
    var tokens := a.inputTokens + a.outputTokens;
    [] + When(true, Priced(prices, Cpu, Over(GetOr(s.cpuCores, 1.0), hours)))
    + When(GetOr(s.gpuCount, 0.0) > 0.0, Priced(prices, Gpu, Over(GetOr(s.gpuCount, 0.0), hours)))
    + When(true, Priced(prices, Memory, Over(GetOr(s.memoryGb, 1.0), hours)))
    + When(GetOr(s.egressGb, 0.0) > 0.0, Priced(prices, NetworkEgress, GetOr(s.egressGb, 0.0)))
    + When(tokens > 0, Priced(prices, LlmTokens, tokens as real))
  }

  method AddWhen(costs: seq<ResourceCost>, total: real, used: bool, c: ResourceCost)
    returns (costs': seq<ResourceCost>, total': real)
    requires total == Sum(costs, CostOf())
    ensures costs' == costs + When(used, c) && total' == Sum(costs', CostOf())
  {
    costs', total' := costs, total;
    if used {
      SumSnoc(costs, c, CostOf());
      costs', total' := costs + [c], total + c.cost;
    }
  }

  /** `_calculate_job_cost`: the total is accumulated part by part and is the sum of the parts. */
  method CalculateJobCost(prices: Prices, a: Active, hours: real, s: Settings)
    returns (costs: seq<ResourceCost>, total: real)
    ensures costs == JobCosts(prices, a, hours, s)
    ensures total == Sum(costs, CostOf())
  {
    var tokens := a.inputTokens + a.outputTokens;
    costs, total := AddWhen([], 0.0, true, Priced(prices, Cpu, Over(GetOr(s.cpuCores, 1.0), hours)));
    costs, total := AddWhen(costs, total, GetOr(s.gpuCount, 0.0) > 0.0,
                            Priced(prices, Gpu, Over(GetOr(s.gpuCount, 0.0), hours)));
    costs, total := AddWhen(costs, total, true, Priced(prices, Memory, Over(GetOr(s.memoryGb, 1.0), hours)));
    costs, total := AddWhen(costs, total, GetOr(s.egressGb, 0.0) > 0.0,
                            Priced(prices, NetworkEgress, GetOr(s.egressGb, 0.0)));
    costs, total := AddWhen(costs, total, tokens > 0, Priced(prices, LlmTokens, tokens as real));
  }

  /** The entry of a finished job, adding up. */
  predicate IsJobEntry(e: Entry, prices: Prices, a: Active, job: string, s: Settings, end: real, id: Key,
                       created: real) {
    var costs := JobCosts(prices, a, (end - a.start) / 3600.0, s);
    e == Item(id, Cost(job, a.user, a.team, a.project, a.start, end, Compute,
                       costs, Sum(costs, CostOf()), Naive(created)))
  }

  /** What the entry of a finished job says; its hours are 3600 seconds each. */
  lemma JobEntryExactly(e: Entry, prices: Prices, a: Active, job: string, s: Settings, end: real, id: Key,
                        created: real,
                        hours: real)
    requires hours * 3600.0 == end - a.start
    ensures IsJobEntry(e, prices, a, job, s, end, id, created)
       <==> && e.key == id && e.val.job == job && e.val.user == a.user && e.val.team == a.team
            && e.val.project == a.project && e.val.start == a.start && e.val.end == end
            && e.val.category == Compute && e.val.created == Naive(created)
            && e.val.costs == JobCosts(prices, a, hours, s) && e.val.total == Sum(e.val.costs, CostOf())
  {
    assert hours == (end - a.start) / 3600.0;
  }

  /** The creation time defaults to `datetime.utcnow`, which has no time zone. */
  method JobEntry(prices: Prices, a: Active, job: string, s: Settings, end: real, id: Key,
                  created: real) returns (e: Entry)
    ensures IsJobEntry(e, prices, a, job, s, end, id, created)
  {
    var costs, total := CalculateJobCost(prices, a, (end - a.start) / 3600.0, s);
    e := Item(id, Cost(job, a.user, a.team, a.project, a.start, end, Compute, costs, total, Naive(created)));
  }

  /** A setting given when the job ends counts before the one given when it started. */
  lemma MergedExactly(a: Settings, b: Settings)
    ensures Merged(a, b).cpuCores == if b.cpuCores.None? then a.cpuCores else b.cpuCores
    ensures Merged(a, b).gpuCount == if b.gpuCount.None? then a.gpuCount else b.gpuCount
    ensures Merged(a, b).memoryGb == if b.memoryGb.None? then a.memoryGb else b.memoryGb
    ensures Merged(a, b).egressGb == if b.egressGb.None? then a.egressGb else b.egressGb
  {
  }

  function IfUsed(used: bool, cost: real): real {
    if used then cost else 0.0
  }

  /** The price of an amount, and of an amount held for some hours. */
  function Amount(quantity: real, price: real): real {
    quantity * price
  }

  function Hourly(amount: real, hours: real, price: real): real {
    amount * hours * price
  }

  lemma WhenCosts(used: bool, c: ResourceCost)
    ensures Sum(When(used, c), CostOf()) == IfUsed(used, c.cost)
  {
    assert [c][1..] == [];
  }

  lemma PricedCosts(prices: Prices, r: Resource, amount: real, hours: real)
    ensures Priced(prices, r, Over(amount, hours)).cost == Hourly(amount, hours, prices.For(r))
    ensures Priced(prices, r, amount).cost == Amount(amount, prices.For(r))
  {
  }

  lemma FiveSums(a: seq<ResourceCost>, b: seq<ResourceCost>, c: seq<ResourceCost>, d: seq<ResourceCost>,
                 e: seq<ResourceCost>)
    ensures Sum([] + a + b + c + d + e, CostOf())
         == Sum(a, CostOf()) + Sum(b, CostOf()) + Sum(c, CostOf()) + Sum(d, CostOf()) + Sum(e, CostOf())
  {
    assert [] + a == a;
    SumConcat(a, b, CostOf());
    SumConcat(a + b, c, CostOf());
    SumConcat(a + b + c, d, CostOf());
    SumConcat(a + b + c + d, e, CostOf());
  }

  /** What a job costs: its cores and its memory, one each when not given, and its GPUs by the hour,
      its egress by the GB and its tokens one by one, each at its own price. */
  lemma JobTotalExactly(prices: Prices, a: Active, hours: real, s: Settings, cores: real, gpus: real, gb: real,
                        egress: real)
    requires cores == if s.cpuCores.None? then 1.0 else s.cpuCores.value
    requires gpus == if s.gpuCount.None? then 0.0 else s.gpuCount.value
    requires gb == if s.memoryGb.None? then 1.0 else s.memoryGb.value
    requires egress == if s.egressGb.None? then 0.0 else s.egressGb.value
    ensures var tokens := a.inputTokens + a.outputTokens;
            Sum(JobCosts(prices, a, hours, s), CostOf())
            == Hourly(cores, hours, prices.cpu)
               + IfUsed(gpus > 0.0, Hourly(gpus, hours, prices.gpu))
               + Hourly(gb, hours, prices.memory)
               + IfUsed(egress > 0.0, Amount(egress, prices.egress))
               + IfUsed(tokens > 0, Amount(tokens as real, prices.tokens))
  {
    var tokens := a.inputTokens + a.outputTokens;
    var cpu, gpu := Priced(prices, Cpu, Over(cores, hours)), Priced(prices, Gpu, Over(gpus, hours));
    var memory, out := Priced(prices, Memory, Over(gb, hours)), Priced(prices, NetworkEgress, egress);
    var llm := Priced(prices, LlmTokens, tokens as real);
    PricedCosts(prices, Cpu, cores, hours);
    PricedCosts(prices, Gpu, gpus, hours);
    PricedCosts(prices, Memory, gb, hours);
    PricedCosts(prices, NetworkEgress, egress, hours);
    PricedCosts(prices, LlmTokens, tokens as real, hours);
    WhenCosts(true, cpu);
    WhenCosts(gpus > 0.0, gpu);
    WhenCosts(true, memory);
    WhenCosts(egress > 0.0, out);
    WhenCosts(tokens > 0, llm);
    FiveSums(When(true, cpu), When(gpus > 0.0, gpu), When(true, memory), When(egress > 0.0, out),
             When(tokens > 0, llm));
  }

  lemma PricedExactly(prices: Prices, r: Resource, amount: real, hours: real)
    ensures Priced(prices, r, Over(amount, hours))
         == ResourceCost(r, Amount(amount, hours), prices.For(r), Hourly(amount, hours, prices.For(r)))
    ensures Priced(prices, r, amount) == ResourceCost(r, amount, prices.For(r), Amount(amount, prices.For(r)))
  {
  }

  /** The parts a job's entry lists, in this order: each with its resource, quantity and price. */
  lemma PartsExactly(prices: Prices, a: Active, hours: real, s: Settings, cores: real, gpus: real, gb: real,
                     egress: real)
    requires cores == if s.cpuCores.None? then 1.0 else s.cpuCores.value
    requires gpus == if s.gpuCount.None? then 0.0 else s.gpuCount.value
    requires gb == if s.memoryGb.None? then 1.0 else s.memoryGb.value
    requires egress == if s.egressGb.None? then 0.0 else s.egressGb.value
    ensures var tokens := a.inputTokens + a.outputTokens;
            JobCosts(prices, a, hours, s)
            == [ResourceCost(Cpu, Amount(cores, hours), prices.cpu, Hourly(cores, hours, prices.cpu))]
               + (if gpus > 0.0
                  then [ResourceCost(Gpu, Amount(gpus, hours), prices.gpu, Hourly(gpus, hours, prices.gpu))]
                  else [])
               + [ResourceCost(Memory, Amount(gb, hours), prices.memory, Hourly(gb, hours, prices.memory))]
               + (if egress > 0.0
                  then [ResourceCost(NetworkEgress, egress, prices.egress, Amount(egress, prices.egress))]
                  else [])
               + (if tokens > 0
                  then [ResourceCost(LlmTokens, tokens as real, prices.tokens, Amount(tokens as real, prices.tokens))]
                  else [])
  {
    var tokens := a.inputTokens + a.outputTokens;
    PricedExactly(prices, Cpu, cores, hours);
    PricedExactly(prices, Gpu, gpus, hours);
    PricedExactly(prices, Memory, gb, hours);
    PricedExactly(prices, NetworkEgress, egress, hours);
    PricedExactly(prices, LlmTokens, tokens as real, hours);
    var cpu := When(true, Priced(prices, Cpu, Over(cores, hours)));
    assert [] + cpu == cpu;
  }

  /** What recording a request and starting over do to the usage of a job. */
  lemma UsageExactly(a: Active, u: AiUsage)
    ensures Used(a, u).inputTokens == a.inputTokens + u.input && Used(a, u).outputTokens == a.outputTokens + u.output
    ensures Used(a, u).requests == a.requests + 1
    ensures Used(a, u).model == if u.model.None? || u.model.value == "" then a.model else u.model
    ensures Used(a, u).provider == if u.provider.None? || u.provider.value == "" then a.provider else u.provider
    ensures Used(a, u).settings == a.settings && Used(a, u).start == a.start && Used(a, u).user == a.user
    ensures Used(a, u).team == a.team && Used(a, u).project == a.project
    ensures Unused(a).inputTokens == Unused(a).outputTokens == Unused(a).requests == 0
    ensures Unused(a).settings == a.settings && Unused(a).start == a.start && Unused(a).user == a.user
    ensures Unused(a).team == a.team && Unused(a).project == a.project
  {
  }

  // ----- the tracker -----

  datatype Report = Report(
    total: real,
    hours: real,
    jobCount: nat,
    byCategory: map<Category, real>,
    byResource: map<Resource, real>)

  /** The named jobs of the entries, each once. */
  function JobsOf(es: seq<Entry>): set<string> {
    set e | e in es && e.val.job != "" :: e.val.job
  }

  lemma JobsOfExactly(es: seq<Entry>, job: string)
    ensures job in JobsOf(es) <==> job != "" && exists e :: e in es && e.val.job == job
  {
  }

  /** The report on the entries found. */
  ghost predicate IsReport(r: Report, es: seq<Entry>) {
    && r.total == Sum(es, TotalOf())
    && r.hours == Sum(es, HoursOf())
    && r.jobCount == |JobsOf(es)|
    && IsGrouping(r.byCategory, es, CategoryOf(), TotalOf())
    && IsGrouping(r.byResource, Parts(es), ResourceOf(), CostOf())
  }

  method Summarize(es: seq<Entry>) returns (r: Report)
    requires forall e :: e in es ==> e.val.total == Sum(e.val.costs, CostOf())
    ensures IsReport(r, es)
    ensures AddsUpTo(r.byCategory, r.total) && AddsUpTo(r.byResource, r.total)
  {
    var byCategory := GroupTotals(es, CategoryOf(), TotalOf());
    var byResource := GroupTotals(Parts(es), ResourceOf(), CostOf());
    r := Report(Sum(es, TotalOf()), Sum(es, HoursOf()), |JobsOf(es)|, byCategory, byResource);
    PartsSum(es);
    GroupTotalsAddUp(es, CategoryOf(), TotalOf(), byCategory);
    GroupTotalsAddUp(Parts(es), ResourceOf(), CostOf(), byResource);
  }

  method CollectLoop(entries: seq<Entry>, ids: seq<Key>, from: Option<real>,
                     to: Option<real>) returns (found: seq<Entry>)
    ensures found == Collect(entries, ids, from, to)
  {
    found := [];
    for i := 0 to |ids|
      invariant found + Collect(entries, ids[i..], from, to) == Collect(entries, ids, from, to)
    {
      assert ids[i..][0] == ids[i] && ids[i..][1..] == ids[i + 1..];
      ghost var rest := Collect(entries, ids[i + 1..], from, to);
      var e := Find(entries, ids[i]);
      if e.Some? && InDates(e.value, from, to) {
        assert found + ([e.value] + rest) == (found + [e.value]) + rest;
        found := found + [e.value];
      }
    }
    assert ids[|ids|..] == [] && found + [] == found;
  }

  class CostTracker {
    var prices: Prices
    var entries: seq<Entry>
    var jobs: Index
    var users: Index
    var teams: Index
    var projects: Index
    var active: map<string, Active>
    ghost var log: seq<Entry>

    ghost function View(): Ledger
      reads this
    {
      Ledger(entries, jobs, users, teams, projects)
    }

    ghost predicate Valid()
      reads this
    {
      Faithful(View(), log) && AllNaive(log) && entries == log
    }

    constructor (prices: Prices)
      ensures Valid() && View() == EMPTY && active == map[] && log == []
    {
      this.prices := prices;
      entries, jobs, users, teams, projects := [], map[], map[], map[], map[];
      active, log := map[], [];
    }

    /** Starting again replaces what was tracked under the job's id. */
    method StartJob(job: string, a: Active)
      requires Valid()
      modifies this`active
      ensures Valid()
      ensures active == old(active)[job := Unused(a)]
    {
      active := active[job := Unused(a)];
    }

    method RecordAiUsage(job: string, u: AiUsage)
      requires Valid()
      modifies this`active
      ensures Valid()
      ensures active == if job !in old(active) then old(active)
                        else old(active)[job := Used(old(active)[job], u)]
    {
      if job in active {
        var a := active[job];
        a := a.(inputTokens := a.inputTokens + u.input);
        a := a.(outputTokens := a.outputTokens + u.output);
        a := a.(requests := a.requests + 1);
        if u.model.Some? && u.model.value != "" {
          a := a.(model := u.model);
        }
        if u.provider.Some? && u.provider.value != "" {
          a := a.(provider := u.provider);
        }
        active := active[job := a];
      }
    }

    /** Stores an entry and indexes it by job, user, team and project. */
    method StoreEntry(e: Entry)
      modifies this`entries, this`jobs, this`users, this`teams, this`projects
      ensures View() == Stored(old(View()), e)
    {
      entries := Assign(entries, e.key, e.val);
      if e.val.job != "" {
        jobs := Indexed(jobs, e.val.job, e.key);
      }
      users := Indexed(users, e.val.user, e.key);
      if e.val.team.Some? && e.val.team.value != "" {
        teams := Indexed(teams, e.val.team.value, e.key);
      }
      if e.val.project.Some? && e.val.project.value != "" {
        projects := Indexed(projects, e.val.project.value, e.key);
      }
    }

    /** `id` is the fresh uuid, `created` the second reading of the clock, for the creation time. */
    method StopJob(job: string, final: Settings, now: real, id: Key, created: real) returns (r: Option<Entry>)
      requires Valid()
      requires forall e :: e in log ==> e.key != id
      modifies this
      ensures Valid() && prices == old(prices)
      ensures job !in old(active) ==> r.None? && View() == old(View()) && active == old(active) && log == old(log)
      ensures job in old(active) ==>
                && r.Some?
                && IsJobEntry(r.value, prices, old(active)[job], job,
                              Merged(old(active)[job].settings, final), now, id, created)
                && View() == Stored(old(View()), r.value)
                && active == old(active) - {job}
                && log == old(log) + [r.value]
    {
      if job !in active {
        return None;
      }
      var a := active[job];
      active := active - {job};
      var e := JobEntry(prices, a, job, Merged(a.settings, final), now, id, created);
      StoreKeepsFaithful(View(), log, e);
      StoreEntry(e);
      log := log + [e];
      r := Some(e);
    }

    /** `_get_entity_costs` over the ids an index lists for the name. */
    method GetEntityCosts(kind: Entity, name: string, from: Option<real>, to: Option<real>) returns (r: Report)
      requires Valid()
      ensures IsReport(r, Scan(entries, kind, name, from, to))
      ensures AddsUpTo(r.byCategory, r.total) && AddsUpTo(r.byResource, r.total)
    {
      var ids := IdsFor(IndexFor(Ledger(entries, jobs, users, teams, projects), kind), name);
      var found := CollectLoop(entries, ids, from, to);
      IndexAgreesWithScan(View(), log, kind, name, from, to);
      ScanAddsUp(View(), log, kind, name, from, to);
      r := Summarize(found);
    }

    /** None stands for the TypeError, which every tracker that has ever stored an entry raises. */
    method CleanupOldEntries(cutoff: real) returns (removed: Option<int>)
      requires Valid()
      modifies this`entries
      ensures Valid() && View() == old(View())
      ensures (View(), removed) == Cleaned(old(View()), cutoff)
      ensures removed == if log == [] then Some(0) else None
    {
      assert entries == [] || entries[0] in entries;
      if !AllAware(entries) {
        return None;
      }
      var before := |entries|;
      entries := Filter(entries, CreatedSince(cutoff));
      removed := Some(before - |entries|);
    }
  }
}
