/** The size-bounded memory backend (src/distributed_cluster/caching/backends.py).
    The ordered dictionary is a sequence of entries with distinct keys, oldest first. */
module LruBackend {
  import opened Common
  import opened OrderedDict

  newtype byte = x: int | 0 <= x < 256
  type Bytes = seq<byte>

  datatype Slot = Slot(value: Bytes, expires: Option<real>)
  type Entry = Item<Slot>

  /** An expiry of exactly 0.0 is falsy in the source and never expires. */
  predicate Expired(e: Entry, now: real) {
    e.val.expires.Some? && e.val.expires.value != 0.0 && e.val.expires.value < now
  }

  function LiveAt(now: real): Entry -> bool {
    (e: Entry) => !Expired(e, now)
  }

  function ExpiredAt(now: real): Entry -> bool {
    (e: Entry) => Expired(e, now)
  }

  // ----- one operation as a function of the stored sequence -----

  /** What a call reports to its caller. `CapacityError` is the KeyError that popping from the
      empty dictionary raises when the configured size is not positive. */
  datatype Outcome =
    | Value(found: Option<Bytes>)
    | Stored
    | CapacityError
    | Flag(flag: bool)
    | Values(results: map<Key, Option<Bytes>>)
    | Count(count: nat)
    | Done

  datatype Op =
    | Get(key: Key, now: real)
    | Set(key: Key, value: Bytes, ttl: Option<int>, now: real)
    | Delete(key: Key)
    | Exists(key: Key, now: real)
    | GetMany(keys: seq<Key>, now: real)
    | CleanupExpired(now: real)
    | Clear

  /** Eviction keeps the newest `maxSize - 1` entries, and empties the cache when there is no
      such number. */
  function Evict(d: seq<Entry>, maxSize: int): seq<Entry> {
    if |d| < maxSize then d else if maxSize <= 0 then [] else d[|d| - maxSize + 1..]
  }

  function ExpiryFor(ttl: Option<int>, defaultTtl: int, now: real): Option<real> {
    var t := if ttl.Some? then ttl.value else defaultTtl;
    if t > 0 then Some(now + t as real) else None
  }

  function GetResult(d: seq<Entry>, k: Key, now: real): (seq<Entry>, Option<Bytes>) {
    match Find(d, k)
    case None => (d, None)
    case Some(e) => if Expired(e, now) then (Remove(d, k), None) else (Remove(d, k) + [e], Some(e.val.value))
  }

  function SetResult(d: seq<Entry>, maxSize: int, defaultTtl: int, k: Key, v: Bytes, ttl: Option<int>, now: real)
    : (seq<Entry>, Outcome)
  {
    if maxSize <= 0 then ([], CapacityError)
    else (Remove(Evict(d, maxSize), k) + [Item(k, Slot(v, ExpiryFor(ttl, defaultTtl, now)))], Stored)
  }

  function ExistsResult(d: seq<Entry>, k: Key, now: real): (seq<Entry>, bool) {
    match Find(d, k)
    case None => (d, false)
    case Some(e) => if Expired(e, now) then (Remove(d, k), false) else (d, true)
  }

  /** One round of the `get_many` loop: an expired entry is reported as missing but stays. */
  function GetManyStep(d: seq<Entry>, k: Key, now: real): (seq<Entry>, Option<Bytes>) {
    match Find(d, k)
    case None => (d, None)
    case Some(e) => if Expired(e, now) then (d, None) else (Remove(d, k) + [e], Some(e.val.value))
  }

  function GetManyResult(d: seq<Entry>, ks: seq<Key>, now: real): (seq<Entry>, map<Key, Option<Bytes>>) {
    if ks == [] then (d, map[])
    else
      var (d1, r1) := GetManyResult(d, ks[..|ks| - 1], now);
      var (d2, v) := GetManyStep(d1, ks[|ks| - 1], now);
      (d2, r1[ks[|ks| - 1] := v])
  }

  function Step(d: seq<Entry>, maxSize: int, defaultTtl: int, op: Op): (seq<Entry>, Outcome) {
    match op
    case Get(k, now) => var (d', r) := GetResult(d, k, now); (d', Value(r))
    case Set(k, v, ttl, now) => SetResult(d, maxSize, defaultTtl, k, v, ttl, now)
    case Delete(k) => (Remove(d, k), Flag(Find(d, k).Some?))
    case Exists(k, now) => var (d', r) := ExistsResult(d, k, now); (d', Flag(r))
    case GetMany(ks, now) => var (d', r) := GetManyResult(d, ks, now); (d', Values(r))
    case CleanupExpired(now) => (Filter(d, LiveAt(now)), Done)
    case Clear => ([], Count(|d|))
  }

  /** The state and the outcomes after a whole run. */
  function Run(d: seq<Entry>, maxSize: int, defaultTtl: int, ops: seq<Op>): (seq<Entry>, seq<Outcome>)
    decreases |ops|
  {
    if ops == [] then (d, [])
    else
      var (d', o) := Step(d, maxSize, defaultTtl, ops[0]);
      var (final, os) := Run(d', maxSize, defaultTtl, ops[1..]);
      (final, [o] + os)
  }

  lemma {:induction false} RunSnoc(d: seq<Entry>, maxSize: int, ttl: int, ops: seq<Op>, op: Op)
    ensures var (d', os) := Run(d, maxSize, ttl, ops);
            Run(d, maxSize, ttl, ops + [op])
            == (Step(d', maxSize, ttl, op).0, os + [Step(d', maxSize, ttl, op).1])
    decreases |ops|
  {
    if ops == [] {
      var (d1, o) := Step(d, maxSize, ttl, op);
      assert [op][1..] == [] && ops + [op] == [op];
      assert Run(d1, maxSize, ttl, []) == (d1, []);
      assert [o] + [] == [o] == [] + [o];
    } else {
      assert (ops + [op])[0] == ops[0] && (ops + [op])[1..] == ops[1..] + [op];
      var (d1, o) := Step(d, maxSize, ttl, ops[0]);
      var (d2, os) := Run(d1, maxSize, ttl, ops[1..]);
      RunSnoc(d1, maxSize, ttl, ops[1..], op);
      assert [o] + (os + [Step(d2, maxSize, ttl, op).1]) == [o] + os + [Step(d2, maxSize, ttl, op).1];
    }
  }

  // ----- what one operation answers and keeps -----

  /** The entry is there with this value and its expiry, if it has one other than 0.0, has not
      passed. */
  ghost predicate Serves(d: seq<Entry>, k: Key, v: Bytes, now: real) {
    exists e :: e in d && e.key == k && e.val.value == v
                && (e.val.expires.None? || e.val.expires.value == 0.0 || now <= e.val.expires.value)
  }

  lemma ServedByFind(d: seq<Entry>, k: Key, v: Bytes, now: real)
    requires DistinctKeys(d)
    ensures Serves(d, k, v, now) <==> Has(d, k) && Find(d, k).value.val.value == v && !Expired(Find(d, k).value, now)
  {
    FindMember(d, k);
    if e :| e in d && e.key == k && e.val.value == v
            && (e.val.expires.None? || e.val.expires.value == 0.0 || now <= e.val.expires.value) {
      FindUnique(d, e);
    }
  }

  /** A series of lookups changes the order only. */
  lemma {:induction false} GetManyFinds(d: seq<Entry>, ks: seq<Key>, now: real, k: Key)
    requires DistinctKeys(d)
    ensures DistinctKeys(GetManyResult(d, ks, now).0)
    ensures Find(GetManyResult(d, ks, now).0, k) == Find(d, k)
  {
    if ks == [] {
    } else {
      var last, d1 := ks[|ks| - 1], GetManyResult(d, ks[..|ks| - 1], now).0;
      GetManyFinds(d, ks[..|ks| - 1], now, k);
      FindMember(d1, last);
      if Has(d1, last) {
        RenewedFind(d1, Find(d1, last).value, k);
      }
    }
  }

  lemma {:induction false} GetManyAnswers(d: seq<Entry>, ks: seq<Key>, now: real)
    requires DistinctKeys(d)
    ensures GetManyResult(d, ks, now).1.Keys == set k | k in ks
    ensures forall k, v :: k in ks ==> (GetManyResult(d, ks, now).1[k] == Some(v) <==> Serves(d, k, v, now))
  {
    if ks == [] {
    } else {
      var before, last := ks[..|ks| - 1], ks[|ks| - 1];
      var d1 := GetManyResult(d, before, now).0;
      GetManyAnswers(d, before, now);
      assert ks == before + [last];
      GetManyFinds(d, before, now, last);
      FindMember(d, last);
      forall v ensures GetManyStep(d1, last, now).1 == Some(v) <==> Serves(d, last, v, now) {
        ServedByFind(d, last, v, now);
      }
    }
  }

  /** What the lookups answer: the value of a live entry, and nothing else. */
  lemma LookupsAnswer(d: seq<Entry>, maxSize: int, ttl: int, op: Op)
    requires DistinctKeys(d)
    ensures var o := Step(d, maxSize, ttl, op).1;
            match op
            case Get(k, now) => o.Value? && forall v :: o.found == Some(v) <==> Serves(d, k, v, now)
            case Exists(k, now) => o.Flag? && (o.flag <==> exists v :: Serves(d, k, v, now))
            case GetMany(ks, now) =>
              && o.Values? && o.results.Keys == (set k | k in ks)
              && forall k, v :: k in ks ==> (o.results[k] == Some(v) <==> Serves(d, k, v, now))
            case Delete(k) => o.Flag? && (o.flag <==> exists e :: e in d && e.key == k)
            case Clear => o == Count(|d|)
            case _ => true
  {
    match op
    case Get(k, now) =>
      forall v ensures Step(d, maxSize, ttl, op).1.found == Some(v) <==> Serves(d, k, v, now) {
        ServedByFind(d, k, v, now);
      }
    case Exists(k, now) =>
      if Has(d, k) {
        ServedByFind(d, k, Find(d, k).value.val.value, now);
      }
      forall v ensures Serves(d, k, v, now) ==> Step(d, maxSize, ttl, op).1.flag {
        ServedByFind(d, k, v, now);
      }
    case GetMany(ks, now) => GetManyAnswers(d, ks, now);
    case Delete(k) => FindMember(d, k);
    case _ =>
  }

  lemma {:induction false} GetManyKeeps(d: seq<Entry>, ks: seq<Key>, now: real, x: Entry)
    requires DistinctKeys(d)
    ensures x in GetManyResult(d, ks, now).0 <==> x in d
  {
    if ks == [] {
    } else {
      var last, d1 := ks[|ks| - 1], GetManyResult(d, ks[..|ks| - 1], now).0;
      GetManyKeeps(d, ks[..|ks| - 1], now, x);
      GetManyFinds(d, ks[..|ks| - 1], now, last);
      FindMember(d1, last);
      if Has(d1, last) {
        RenewedMembers(d1, Find(d1, last).value, x);
      }
    }
  }

  lemma LookupKeeps(d: seq<Entry>, k: Key, now: real, x: Entry)
    requires DistinctKeys(d)
    ensures x in GetResult(d, k, now).0 <==> x in d && !(x.key == k && Expired(x, now))
    ensures x in ExistsResult(d, k, now).0 <==> x in d && !(x.key == k && Expired(x, now))
  {
    FindMember(d, k);
    FilterMember(d, KeyOtherThan(k), x);
    if Has(d, k) {
      RenewedMembers(d, Find(d, k).value, x);
      if x in d && x.key == k {
        FindUnique(d, x);
      }
    }
  }

  lemma NewestKept(d: seq<Entry>, maxSize: int, x: Entry)
    requires 1 <= maxSize
    ensures x in Evict(d, maxSize) <==> exists i :: 0 <= i < |d| && |d| - maxSize + 1 <= i && d[i] == x
  {
    var n := if |d| < maxSize then 0 else |d| - maxSize + 1;
    assert Evict(d, maxSize) == d[n..];
    forall i | n <= i < |d| ensures d[i] in d[n..] {
      assert d[n..][i - n] == d[i];
    }
  }

  /** What an operation leaves in the cache, the order aside. A store keeps the newest
      maxSize - 1 entries with other keys and adds its own, which expires a positive ttl later. */
  lemma KeepsExactly(d: seq<Entry>, maxSize: int, defaultTtl: int, op: Op, x: Entry)
    requires DistinctKeys(d)
    ensures x in Step(d, maxSize, defaultTtl, op).0
       <==> match op
            case Get(k, now) =>
              x in d && !(x.key == k && x.val.expires.Some? && x.val.expires.value != 0.0 && x.val.expires.value < now)
            case Exists(k, now) =>
              x in d && !(x.key == k && x.val.expires.Some? && x.val.expires.value != 0.0 && x.val.expires.value < now)
            case GetMany(_, _) => x in d
            case Delete(k) => x in d && x.key != k
            case Clear => false
            case CleanupExpired(now) =>
              x in d && !(x.val.expires.Some? && x.val.expires.value != 0.0 && x.val.expires.value < now)
            case Set(k, v, ttl, now) =>
              var t := if ttl.Some? then ttl.value else defaultTtl;
              1 <= maxSize && if x.key == k then x.val == Slot(v, if t > 0 then Some(now + t as real) else None)
                              else exists i :: 0 <= i < |d| && |d| - maxSize + 1 <= i && d[i] == x
  {
    match op
    case Get(k, now) => LookupKeeps(d, k, now, x);
    case Exists(k, now) => LookupKeeps(d, k, now, x);
    case GetMany(ks, now) => GetManyKeeps(d, ks, now, x);
    case Delete(k) => FilterMember(d, KeyOtherThan(k), x);
    case Clear =>
    case CleanupExpired(now) => FilterMember(d, LiveAt(now), x);
    case Set(k, v, ttl, now) =>
      if 1 <= maxSize {
        FilterMember(Evict(d, maxSize), KeyOtherThan(k), x);
        NewestKept(d, maxSize, x);
      }
  }

  // ----- dictionary order is recency -----

  /** The names that were found. */
  function Hits(ks: seq<Key>, results: map<Key, Option<Bytes>>): seq<Key> {
    if ks == [] then []
    else
      var last := ks[|ks| - 1];
      Hits(ks[..|ks| - 1], results) + if last in results && results[last].Some? then [last] else []
  }

  /** The keys an operation uses, going by what it reports: a store and a lookup that finds. */
  function Used(op: Op, o: Outcome): seq<Key> {
    match op
    case Get(k, _) => if o.Value? && o.found.Some? then [k] else []
    case Set(k, _, _, _) => if o == Stored then [k] else []
    case GetMany(ks, _) => if o.Values? then Hits(ks, o.results) else []
    case _ => []
  }

  function Uses(ops: seq<Op>, os: seq<Outcome>): seq<Key>
    requires |ops| == |os|
  {
    if ops == [] then [] else Used(ops[0], os[0]) + Uses(ops[1..], os[1..])
  }

  /** The last position of the key, -1 when there is none. */
  function LastUse(uses: seq<Key>, k: Key): int {
    if uses == [] then -1 else if uses[|uses| - 1] == k then |uses| - 1 else LastUse(uses[..|uses| - 1], k)
  }

  /** The entries are in the order in which their keys were last used. */
  ghost predicate ByRecency(d: seq<Entry>, uses: seq<Key>) {
    && (forall e :: e in d ==> 0 <= LastUse(uses, e.key) < |uses|)
    && (forall i, j :: 0 <= i < j < |d| ==> LastUse(uses, d[i].key) < LastUse(uses, d[j].key))
  }

  lemma UsedAgain(uses: seq<Key>, k: Key, x: Key)
    ensures LastUse(uses + [k], x) == if x == k then |uses| else LastUse(uses, x)
  {
    assert (uses + [k])[..|uses|] == uses;
  }

  lemma {:induction false} FilterByRecency(d: seq<Entry>, uses: seq<Key>, p: Entry -> bool)
    requires ByRecency(d, uses)
    ensures ByRecency(Filter(d, p), uses)
    decreases |d|
  {
    if d == [] {
    } else {
      var rest := d[1..];
      var f := Filter(rest, p);
      assert forall i :: 0 <= i < |rest| ==> rest[i] == d[i + 1];
      assert forall e :: e in rest ==> e in d && LastUse(uses, d[0].key) < LastUse(uses, e.key);
      FilterByRecency(rest, uses, p);
      forall j | 0 <= j < |f| ensures LastUse(uses, d[0].key) < LastUse(uses, f[j].key) {
        FilterMember(rest, p, f[j]);
      }
    }
  }

  lemma RenewByRecency(d: seq<Entry>, uses: seq<Key>, e: Entry)
    requires ByRecency(d, uses)
    ensures ByRecency(Remove(d, e.key) + [e], uses + [e.key])
  {
    var r := Remove(d, e.key);
    FilterByRecency(d, uses, KeyOtherThan(e.key));
    UsedAgain(uses, e.key, e.key);
    forall x | x in r ensures LastUse(uses + [e.key], x.key) == LastUse(uses, x.key) {
      FilterMember(d, KeyOtherThan(e.key), x);
      UsedAgain(uses, e.key, x.key);
    }
  }

  lemma {:induction false} HitsExt(ks: seq<Key>, a: map<Key, Option<Bytes>>, b: map<Key, Option<Bytes>>)
    requires forall k :: k in ks ==> k in a && k in b && a[k].Some? == b[k].Some?
    ensures Hits(ks, a) == Hits(ks, b)
  {
    if ks == [] {
    } else {
      HitsExt(ks[..|ks| - 1], a, b);
    }
  }

  lemma GetManyAgrees(d: seq<Entry>, before: seq<Key>, ks: seq<Key>, now: real)
    requires DistinctKeys(d) && forall k :: k in before ==> k in ks
    ensures forall k :: k in before ==>
              && k in GetManyResult(d, before, now).1 && k in GetManyResult(d, ks, now).1
              && GetManyResult(d, before, now).1[k].Some? == GetManyResult(d, ks, now).1[k].Some?
  {
    GetManyAnswers(d, before, now);
    GetManyAnswers(d, ks, now);
    forall k | k in before ensures GetManyResult(d, before, now).1[k].Some? == GetManyResult(d, ks, now).1[k].Some? {
      var a, b := GetManyResult(d, before, now).1[k], GetManyResult(d, ks, now).1[k];
      if a.Some? {
        assert Serves(d, k, a.value, now);
      }
      if b.Some? {
        assert Serves(d, k, b.value, now);
      }
    }
  }

  lemma {:induction false} GetManyByRecency(d: seq<Entry>, uses: seq<Key>, ks: seq<Key>, now: real)
    requires DistinctKeys(d) && ByRecency(d, uses)
    ensures var (d', r) := GetManyResult(d, ks, now);
            ByRecency(d', uses + Hits(ks, r))
  {
    if ks == [] {
      assert uses + [] == uses;
    } else {
      var before, last := ks[..|ks| - 1], ks[|ks| - 1];
      var (d1, r1) := GetManyResult(d, before, now);
      var r := GetManyResult(d, ks, now).1;
      GetManyByRecency(d, uses, before, now);
      GetManyAgrees(d, before, ks, now);
      HitsExt(before, r1, r);
      GetManyFinds(d, before, now, last);
      FindMember(d1, last);
      if r[last].Some? {
        RenewByRecency(d1, uses + Hits(before, r), Find(d1, last).value);
        assert uses + Hits(before, r) + [last] == uses + (Hits(before, r) + [last]);
      } else {
        assert Hits(before, r) + [] == Hits(before, r);
      }
    }
  }

  lemma StepByRecency(d: seq<Entry>, maxSize: int, ttl: int, uses: seq<Key>, op: Op)
    requires DistinctKeys(d) && ByRecency(d, uses)
    ensures var (d', o) := Step(d, maxSize, ttl, op);
            DistinctKeys(d') && ByRecency(d', uses + Used(op, o))
  {
    assert uses + [] == uses;
    match op
    case Get(k, now) =>
      FindMember(d, k);
      FilterDistinctKeys(d, KeyOtherThan(k));
      FilterByRecency(d, uses, KeyOtherThan(k));
      if Has(d, k) {
        RemoveSnocDistinct(d, Find(d, k).value);
        RenewByRecency(d, uses, Find(d, k).value);
      }
    case Set(k, v, t, now) =>
      if maxSize >= 1 {
        var e := Item(k, Slot(v, ExpiryFor(t, ttl, now)));
        assert ByRecency(Evict(d, maxSize), uses);
        RemoveSnocDistinct(Evict(d, maxSize), e);
        RenewByRecency(Evict(d, maxSize), uses, e);
      }
    case GetMany(ks, now) =>
      GetManyFinds(d, ks, now, "");
      GetManyByRecency(d, uses, ks, now);
    case Delete(k) =>
      FilterDistinctKeys(d, KeyOtherThan(k));
      FilterByRecency(d, uses, KeyOtherThan(k));
    case Exists(k, now) =>
      FilterDistinctKeys(d, KeyOtherThan(k));
      FilterByRecency(d, uses, KeyOtherThan(k));
    case CleanupExpired(now) =>
      FilterDistinctKeys(d, LiveAt(now));
      FilterByRecency(d, uses, LiveAt(now));
    case Clear =>
  }

  lemma {:induction false} RunByRecency(d: seq<Entry>, maxSize: int, ttl: int, uses: seq<Key>, ops: seq<Op>)
    requires DistinctKeys(d) && ByRecency(d, uses)
    ensures var (d', os) := Run(d, maxSize, ttl, ops);
            |os| == |ops| && DistinctKeys(d') && ByRecency(d', uses + Uses(ops, os))
    decreases |ops|
  {
    if ops == [] {
      assert uses + [] == uses;
    } else {
      var (d1, o) := Step(d, maxSize, ttl, ops[0]);
      StepByRecency(d, maxSize, ttl, uses, ops[0]);
      RunByRecency(d1, maxSize, ttl, uses + Used(ops[0], o), ops[1..]);
      var os := Run(d1, maxSize, ttl, ops[1..]).1;
      assert ([o] + os)[0] == o && ([o] + os)[1..] == os;
      assert uses + Used(ops[0], o) + Uses(ops[1..], os) == uses + (Used(ops[0], o) + Uses(ops[1..], os));
    }
  }

  /** Main result: in every reachable state the dictionary lists its keys in the order in which they
      were last stored or last found by a lookup. */
  lemma OrderIsRecency(maxSize: int, ttl: int, ops: seq<Op>)
    ensures var (d, os) := Run([], maxSize, ttl, ops);
            |os| == |ops| && DistinctKeys(d) && ByRecency(d, Uses(ops, os))
  {
    RunByRecency([], maxSize, ttl, [], ops);
    assert [] + Uses(ops, Run([], maxSize, ttl, ops).1) == Uses(ops, Run([], maxSize, ttl, ops).1);
  }

  // ----- inclusion between two capacities -----

  /** The smaller cache embeds in the larger one, order, values and expiries included, and has
      no more free space than it. */
  ghost predicate Included(s: seq<Entry>, c1: int, l: seq<Entry>, c2: int) {
    && DistinctKeys(s) && DistinctKeys(l)
    && Subsequence(s, l)
    && c1 - |s| <= c2 - |l|
  }

  lemma FindIncluded(s: seq<Entry>, l: seq<Entry>, k: Key)
    requires DistinctKeys(l) && Subsequence(s, l) && Find(s, k).Some?
    ensures Find(l, k) == Find(s, k)
  {
    FindMember(s, k);
    SubsequenceMember(s, l, Find(s, k).value);
    FindUnique(l, Find(s, k).value);
  }

  lemma FilterIncluded(s: seq<Entry>, c1: int, l: seq<Entry>, c2: int, p: Entry -> bool)
    requires Included(s, c1, l, c2)
    ensures Included(Filter(s, p), c1, Filter(l, p), c2)
  {
    FilterDistinctKeys(s, p);
    FilterDistinctKeys(l, p);
    SubsequenceFilter(s, l, p);
    var q := (e: Entry) => !p(e);
    SubsequenceFilter(s, l, q);
    SubsequenceLength(Filter(s, q), Filter(l, q));
    FilterPartition(s, p, q);
    FilterPartition(l, p, q);
  }

  /** Storing an entry at the recent end of both, whatever each held for its key before. */
  lemma AppendIncluded(s: seq<Entry>, c1: int, l: seq<Entry>, c2: int, e: Entry)
    requires Included(s, c1, l, c2)
    ensures Included(Remove(s, e.key) + [e], c1, Remove(l, e.key) + [e], c2)
  {
    FilterIncluded(s, c1, l, c2, KeyOtherThan(e.key));
    SubsequenceSnoc(Remove(s, e.key), Remove(l, e.key), e);
    RemoveSnocDistinct(s, e);
    RemoveSnocDistinct(l, e);
  }

  lemma {:induction false} SubsequencePrefix(a: seq<Entry>, b: seq<Entry>, c: seq<Entry>)
    requires Subsequence(a, b)
    ensures Subsequence(a, b + c)
    decreases |b|
  {
    if a == [] {
    } else {
      assert (b + c)[0] == b[0] && (b + c)[1..] == b[1..] + c;
      if a[0] == b[0] && Subsequence(a[1..], b[1..]) {
        SubsequencePrefix(a[1..], b[1..], c);
      } else {
        SubsequencePrefix(a, b[1..], c);
      }
    }
  }

  /** Re-ordering the larger cache on a hit the smaller one misses. */
  lemma TouchLargerIncluded(s: seq<Entry>, c1: int, l: seq<Entry>, c2: int, e: Entry)
    requires Included(s, c1, l, c2) && Find(s, e.key).None? && Find(l, e.key) == Some(e)
    ensures Included(s, c1, Remove(l, e.key) + [e], c2)
  {
    FilterIncluded(s, c1, l, c2, KeyOtherThan(e.key));
    RemoveAbsent(s, e.key);
    RemovePresent(l, e.key);
    RemoveSnocDistinct(l, e);
    SubsequencePrefix(s, Remove(l, e.key), [e]);
  }

  /** Evicting from both: the smaller cache drops at least as many of its oldest entries. */
  lemma EvictIncluded(s: seq<Entry>, c1: int, l: seq<Entry>, c2: int)
    requires Included(s, c1, l, c2) && c1 <= c2 && 1 <= c1
    ensures Included(Evict(s, c1), c1, Evict(l, c2), c2)
  {
    var i := if |s| < c1 then 0 else |s| - c1 + 1;
    var j := if |l| < c2 then 0 else |l| - c2 + 1;
    SubsequenceDrop(s, l, i, j);
    assert Evict(s, c1) == s[i..] && Evict(l, c2) == l[j..];
  }

  lemma GetManyStepIncluded(s: seq<Entry>, c1: int, l: seq<Entry>, c2: int, k: Key, now: real)
    requires Included(s, c1, l, c2)
    ensures Included(GetManyStep(s, k, now).0, c1, GetManyStep(l, k, now).0, c2)
    ensures GetManyStep(s, k, now).1.Some? ==> GetManyStep(l, k, now).1 == GetManyStep(s, k, now).1
  {
    FindMember(l, k);
    if Find(s, k).Some? {
      FindIncluded(s, l, k);
      AppendIncluded(s, c1, l, c2, Find(s, k).value);
    } else if Find(l, k).Some? {
      TouchLargerIncluded(s, c1, l, c2, Find(l, k).value);
    }
  }

  /** Every hit the smaller cache reports is reported, with the same value, by the larger one. */
  ghost predicate SameHits(small: Outcome, large: Outcome) {
    match small
    case Value(v) => large.Value? && (v.Some? ==> large.found == v)
    case Flag(b) => large.Flag? && (b ==> large.flag)
    case Values(r) => large.Values? && r.Keys == large.results.Keys
                      && forall k :: k in r && r[k].Some? ==> large.results[k] == r[k]
    case Count(n) => large.Count? && n <= large.count
    case Stored => large == Stored
    case CapacityError => large == Stored || large == CapacityError
    case Done => large == Done
  }

  lemma {:induction false} GetManyIncluded(s: seq<Entry>, c1: int, l: seq<Entry>, c2: int, ks: seq<Key>, now: real)
    requires Included(s, c1, l, c2)
    ensures Included(GetManyResult(s, ks, now).0, c1, GetManyResult(l, ks, now).0, c2)
    ensures SameHits(Values(GetManyResult(s, ks, now).1), Values(GetManyResult(l, ks, now).1))
  {
    if ks == [] {
    } else {
      GetManyIncluded(s, c1, l, c2, ks[..|ks| - 1], now);
      GetManyStepIncluded(GetManyResult(s, ks[..|ks| - 1], now).0, c1,
                          GetManyResult(l, ks[..|ks| - 1], now).0, c2, ks[|ks| - 1], now);
    }
  }

  lemma LookupIncluded(s: seq<Entry>, c1: int, l: seq<Entry>, c2: int, k: Key, now: real)
    requires Included(s, c1, l, c2)
    ensures Included(GetResult(s, k, now).0, c1, GetResult(l, k, now).0, c2)
    ensures GetResult(s, k, now).1.Some? ==> GetResult(l, k, now).1 == GetResult(s, k, now).1
    ensures Included(ExistsResult(s, k, now).0, c1, ExistsResult(l, k, now).0, c2)
    ensures ExistsResult(s, k, now).1 ==> ExistsResult(l, k, now).1
  {
    FindMember(l, k);
    FilterIncluded(s, c1, l, c2, KeyOtherThan(k));
    if Find(s, k).Some? {
      FindIncluded(s, l, k);
      AppendIncluded(s, c1, l, c2, Find(s, k).value);
    } else {
      RemoveAbsent(s, k);
      if Find(l, k).Some? {
        TouchLargerIncluded(s, c1, l, c2, Find(l, k).value);
      }
    }
  }

  lemma SetFits(d: seq<Entry>, c: int, e: Entry)
    requires DistinctKeys(d) && 1 <= c
    ensures DistinctKeys(Remove(Evict(d, c), e.key) + [e])
    ensures |Remove(Evict(d, c), e.key) + [e]| <= c
  {
    RemoveSnocDistinct(Evict(d, c), e);
    FilterLength(Evict(d, c), KeyOtherThan(e.key));
  }

  lemma StepIncluded(s: seq<Entry>, c1: int, l: seq<Entry>, c2: int, ttl: int, op: Op)
    requires Included(s, c1, l, c2) && c1 <= c2
    ensures Included(Step(s, c1, ttl, op).0, c1, Step(l, c2, ttl, op).0, c2)
    ensures SameHits(Step(s, c1, ttl, op).1, Step(l, c2, ttl, op).1)
  {
    match op
    case Get(k, now) => LookupIncluded(s, c1, l, c2, k, now);
    case Exists(k, now) => LookupIncluded(s, c1, l, c2, k, now);
    case Set(k, v, t, now) =>
      var e := Item(k, Slot(v, ExpiryFor(t, ttl, now)));
      if c1 >= 1 {
        EvictIncluded(s, c1, l, c2);
        AppendIncluded(Evict(s, c1), c1, Evict(l, c2), c2, e);
      } else if c2 >= 1 {
        SetFits(l, c2, e);
      }
    case Delete(k) =>
      FilterIncluded(s, c1, l, c2, KeyOtherThan(k));
      if Find(s, k).Some? {
        FindIncluded(s, l, k);
      }
    case GetMany(ks, now) => GetManyIncluded(s, c1, l, c2, ks, now);
    case CleanupExpired(now) => FilterIncluded(s, c1, l, c2, LiveAt(now));
    case Clear => SubsequenceLength(s, l);
  }

  lemma {:induction false} RunIncluded(s: seq<Entry>, c1: int, l: seq<Entry>, c2: int, ttl: int, ops: seq<Op>)
    requires Included(s, c1, l, c2) && c1 <= c2
    ensures Included(Run(s, c1, ttl, ops).0, c1, Run(l, c2, ttl, ops).0, c2)
    ensures |Run(s, c1, ttl, ops).1| == |Run(l, c2, ttl, ops).1| == |ops|
    ensures forall i :: 0 <= i < |ops| ==> SameHits(Run(s, c1, ttl, ops).1[i], Run(l, c2, ttl, ops).1[i])
    decreases |ops|
  {
    if ops == [] {
    } else {
      StepIncluded(s, c1, l, c2, ttl, ops[0]);
      RunIncluded(Step(s, c1, ttl, ops[0]).0, c1, Step(l, c2, ttl, ops[0]).0, c2, ttl, ops[1..]);
    }
  }

  /** Main result. Two fresh caches with capacities c1 <= c2 fed the same operations with the
      same clock: the smaller one's entries are, in order and with their values and expiries, a
      subsequence of the larger one's, and every hit in the smaller is the same hit in the larger.
      No assumption is made on the clock or on the sign of the capacities. */
  lemma Inclusion(c1: int, c2: int, ttl: int, ops: seq<Op>)
    requires c1 <= c2
    ensures Subsequence(Run([], c1, ttl, ops).0, Run([], c2, ttl, ops).0)
    ensures |Run([], c1, ttl, ops).1| == |Run([], c2, ttl, ops).1| == |ops|
    ensures forall i :: 0 <= i < |ops| ==> SameHits(Run([], c1, ttl, ops).1[i], Run([], c2, ttl, ops).1[i])
  {
    RunIncluded([], c1, [], c2, ttl, ops);
  }

  function HitCount(os: seq<Outcome>): nat {
    if os == [] then 0
    else (if os[0].Value? && os[0].found.Some? then 1 else 0) + HitCount(os[1..])
  }

  lemma {:induction false} MoreHits(small: seq<Outcome>, large: seq<Outcome>)
    requires |small| == |large|
    requires forall i :: 0 <= i < |small| ==> SameHits(small[i], large[i])
    ensures HitCount(small) <= HitCount(large)
  {
    if small == [] {
    } else {
      assert SameHits(small[0], large[0]);
      MoreHits(small[1..], large[1..]);
    }
  }

  lemma HitCountExactly(o: Outcome, os: seq<Outcome>)
    ensures HitCount([]) == 0
    ensures HitCount([o] + os) == HitCount(os) + if o.Value? && o.found.Some? then 1 else 0
  {
    assert ([o] + os)[0] == o && ([o] + os)[1..] == os;
  }

  /** A bigger cache never answers fewer lookups from memory on the same run. */
  lemma NoBeladyAnomaly(c1: int, c2: int, ttl: int, ops: seq<Op>)
    requires c1 <= c2
    ensures HitCount(Run([], c1, ttl, ops).1) <= HitCount(Run([], c2, ttl, ops).1)
  {
    Inclusion(c1, c2, ttl, ops);
    MoreHits(Run([], c1, ttl, ops).1, Run([], c2, ttl, ops).1);
  }

  // ----- what the cache holds -----

  /** What the run so far last stored under `k`, nothing if it has deleted it since. */
  function LastStored(ops: seq<Op>, ttl: int, k: Key): Option<Slot> {
    if ops == [] then None
    else
      var op := ops[|ops| - 1];
      if op.Set? && op.key == k then Some(Slot(op.value, ExpiryFor(op.ttl, ttl, op.now)))
      else if op.Clear? || (op.Delete? && op.key == k) then None
      else LastStored(ops[..|ops| - 1], ttl, k)
  }

  ghost predicate Current(d: seq<Entry>, ops: seq<Op>, ttl: int) {
    forall e :: e in d ==> LastStored(ops, ttl, e.key) == Some(e.val)
  }

  lemma {:induction false} GetManyMembers(d: seq<Entry>, ks: seq<Key>, now: real)
    ensures forall e :: e in GetManyResult(d, ks, now).0 ==> e in d
  {
    if ks == [] {
    } else {
      GetManyMembers(d, ks[..|ks| - 1], now);
      var d1, k := GetManyResult(d, ks[..|ks| - 1], now).0, ks[|ks| - 1];
      FindMember(d1, k);
      FilterMembers(d1, KeyOtherThan(k));
    }
  }

  /** An entry that an operation leaves is the one it stores, or was there before and the
      operation does not delete or replace its key. */
  lemma StepMember(d: seq<Entry>, maxSize: int, ttl: int, op: Op, e: Entry)
    requires e in Step(d, maxSize, ttl, op).0
    ensures if op.Set? && op.key == e.key then e.val == Slot(op.value, ExpiryFor(op.ttl, ttl, op.now))
            else e in d && !op.Clear? && !(op.Delete? && op.key == e.key)
  {
    match op
    case Get(k, now) =>
      FindMember(d, k);
      FilterMember(d, KeyOtherThan(k), e);
    case Set(k, v, t, now) =>
      FilterMember(Evict(d, maxSize), KeyOtherThan(k), e);
    case Delete(k) => FilterMember(d, KeyOtherThan(k), e);
    case Exists(k, now) => FilterMember(d, KeyOtherThan(k), e);
    case GetMany(ks, now) => GetManyMembers(d, ks, now);
    case CleanupExpired(now) => FilterMember(d, LiveAt(now), e);
    case Clear =>
  }

  lemma StepCurrent(d: seq<Entry>, maxSize: int, ttl: int, before: seq<Op>, op: Op)
    requires Current(d, before, ttl)
    ensures Current(Step(d, maxSize, ttl, op).0, before + [op], ttl)
  {
    assert (before + [op])[..|before|] == before;
    forall e | e in Step(d, maxSize, ttl, op).0 ensures LastStored(before + [op], ttl, e.key) == Some(e.val) {
      StepMember(d, maxSize, ttl, op, e);
    }
  }

  /** Whatever is in the cache is what was last stored under its key, with that call's expiry. */
  lemma {:induction false} EntriesAreCurrent(d: seq<Entry>, maxSize: int, ttl: int, before: seq<Op>, ops: seq<Op>)
    requires Current(d, before, ttl)
    ensures Current(Run(d, maxSize, ttl, ops).0, before + ops, ttl)
    decreases |ops|
  {
    if ops == [] {
      assert before + ops == before;
    } else {
      StepCurrent(d, maxSize, ttl, before, ops[0]);
      EntriesAreCurrent(Step(d, maxSize, ttl, ops[0]).0, maxSize, ttl, before + [ops[0]], ops[1..]);
      assert before + [ops[0]] + ops[1..] == before + ops;
    }
  }

  /** `e` is cached and everything more recent than it has its key in `ks`. */
  ghost predicate RecentBut(d: seq<Entry>, e: Entry, ks: set<Key>) {
    exists i :: 0 <= i < |d| && d[i] == e && forall j :: i < j < |d| ==> d[j].key in ks
  }

  /** Operations that leave `e` alone: they name only keys of `ks` or look `e` up, and their
      clock has not reached its expiry. */
  predicate Spares(op: Op, e: Entry, ks: set<Key>) {
    match op
    case Get(k, now) => (k in ks || k == e.key) && !Expired(e, now)
    case Set(k, _, _, _) => k in ks
    case Delete(k) => k != e.key
    case Exists(k, now) => !Expired(e, now)
    case GetMany(names, now) => (forall k :: k in names ==> k in ks || k == e.key) && !Expired(e, now)
    case CleanupExpired(now) => !Expired(e, now)
    case Clear => false
  }

  lemma {:induction false} FilterRecent(d: seq<Entry>, e: Entry, ks: set<Key>, p: Entry -> bool)
    requires RecentBut(d, e, ks) && p(e)
    ensures RecentBut(Filter(d, p), e, ks)
  {
    var i :| 0 <= i < |d| && d[i] == e && forall j :: i < j < |d| ==> d[j].key in ks;
    var f := Filter(d[1..], p);
    if i == 0 {
      forall j | 0 < j < |[e] + f| ensures ([e] + f)[j].key in ks {
        FilterMember(d[1..], p, f[j - 1]);
      }
      assert ([e] + f)[0] == e;
    } else {
      assert d[1..][i - 1] == e;
      FilterRecent(d[1..], e, ks, p);
      var n :| 0 <= n < |f| && f[n] == e && forall j :: n < j < |f| ==> f[j].key in ks;
      assert p(d[0]) ==> ([d[0]] + f)[n + 1] == e;
    }
  }

  lemma TouchRecent(d: seq<Entry>, e: Entry, ks: set<Key>, x: Entry)
    requires RecentBut(d, e, ks) && x.key in ks && e.key !in ks
    ensures RecentBut(Remove(d, x.key) + [x], e, ks)
  {
    FilterRecent(d, e, ks, KeyOtherThan(x.key));
    var r := Remove(d, x.key);
    var n :| 0 <= n < |r| && r[n] == e && forall j :: n < j < |r| ==> r[j].key in ks;
    assert (r + [x])[n] == e;
  }

  lemma NewestRecent(d: seq<Entry>, e: Entry, ks: set<Key>)
    ensures RecentBut(d + [e], e, ks)
  {
    assert (d + [e])[|d|] == e;
  }

  lemma {:induction false} DistinctFit(d: seq<Entry>, ks: set<Key>)
    requires DistinctKeys(d) && forall e :: e in d ==> e.key in ks
    ensures |d| <= |ks|
    decreases |d|
  {
    if d == [] {
    } else {
      assert d[0] in d;
      forall e | e in d[1..] ensures e.key in ks - {d[0].key} {
        assert e in d;
      }
      DistinctFit(d[1..], ks - {d[0].key});
    }
  }

  /** How many other keys a run may name for a stored key to be safe: one fewer than a textbook
      LRU allows, because an overwrite evicts as well, but no other key at all always is. */
  predicate Safe(ks: set<Key>, maxSize: int) {
    ks == {} || |ks| <= maxSize - 2
  }

  lemma EvictRecent(d: seq<Entry>, e: Entry, ks: set<Key>, maxSize: int)
    requires DistinctKeys(d) && RecentBut(d, e, ks) && |ks| <= maxSize - 2
    ensures RecentBut(Evict(d, maxSize), e, ks)
  {
    var i :| 0 <= i < |d| && d[i] == e && forall j :: i < j < |d| ==> d[j].key in ks;
    DistinctFit(d[i + 1..], ks);
    var n := if |d| < maxSize then 0 else |d| - maxSize + 1;
    assert n <= i && Evict(d, maxSize) == d[n..];
    assert d[n..][i - n] == e;
  }

  lemma LookupRecent(d: seq<Entry>, e: Entry, ks: set<Key>, k: Key, now: real)
    requires DistinctKeys(d) && RecentBut(d, e, ks) && e.key !in ks && (k in ks || k == e.key) && !Expired(e, now)
    ensures RecentBut(GetResult(d, k, now).0, e, ks) && DistinctKeys(GetResult(d, k, now).0)
    ensures RecentBut(GetManyStep(d, k, now).0, e, ks) && DistinctKeys(GetManyStep(d, k, now).0)
  {
    FindMember(d, k);
    if Has(d, k) {
      var x := Find(d, k).value;
      RemoveSnocDistinct(d, x);
      FilterDistinctKeys(d, KeyOtherThan(k));
      if k == e.key {
        var i :| 0 <= i < |d| && d[i] == e && forall j :: i < j < |d| ==> d[j].key in ks;
        FindUnique(d, e);
        NewestRecent(Remove(d, k), e, ks);
      } else {
        TouchRecent(d, e, ks, x);
        FilterRecent(d, e, ks, KeyOtherThan(k));
      }
    }
  }

  lemma {:induction false} GetManyRecent(d: seq<Entry>, e: Entry, ks: set<Key>, names: seq<Key>, now: real)
    requires DistinctKeys(d) && RecentBut(d, e, ks) && e.key !in ks && !Expired(e, now)
    requires forall k :: k in names ==> k in ks || k == e.key
    ensures RecentBut(GetManyResult(d, names, now).0, e, ks) && DistinctKeys(GetManyResult(d, names, now).0)
  {
    if names == [] {
    } else {
      GetManyRecent(d, e, ks, names[..|names| - 1], now);
      assert names[|names| - 1] in names;
      LookupRecent(GetManyResult(d, names[..|names| - 1], now).0, e, ks, names[|names| - 1], now);
    }
  }

  lemma StepRecent(d: seq<Entry>, maxSize: int, ttl: int, e: Entry, ks: set<Key>, op: Op)
    requires DistinctKeys(d) && RecentBut(d, e, ks) && e.key !in ks && Safe(ks, maxSize) && Spares(op, e, ks)
    ensures RecentBut(Step(d, maxSize, ttl, op).0, e, ks) && DistinctKeys(Step(d, maxSize, ttl, op).0)
  {
    match op
    case Get(k, now) => LookupRecent(d, e, ks, k, now);
    case Set(k, v, t, now) =>
      var x := Item(k, Slot(v, ExpiryFor(t, ttl, now)));
      EvictRecent(d, e, ks, maxSize);
      TouchRecent(Evict(d, maxSize), e, ks, x);
      RemoveSnocDistinct(Evict(d, maxSize), x);
    case Delete(k) =>
      FilterRecent(d, e, ks, KeyOtherThan(k));
      FilterDistinctKeys(d, KeyOtherThan(k));
    case Exists(k, now) =>
      FilterDistinctKeys(d, KeyOtherThan(k));
      FindMember(d, k);
      if k != e.key {
        FilterRecent(d, e, ks, KeyOtherThan(k));
      } else {
        var i :| 0 <= i < |d| && d[i] == e && forall j :: i < j < |d| ==> d[j].key in ks;
        FindUnique(d, e);
      }
    case GetMany(names, now) => GetManyRecent(d, e, ks, names, now);
    case CleanupExpired(now) =>
      FilterRecent(d, e, ks, LiveAt(now));
      FilterDistinctKeys(d, LiveAt(now));
  }

  lemma {:induction false} RunRecent(d: seq<Entry>, maxSize: int, ttl: int, e: Entry, ks: set<Key>, ops: seq<Op>)
    requires DistinctKeys(d) && RecentBut(d, e, ks) && e.key !in ks && Safe(ks, maxSize)
    requires forall op :: op in ops ==> Spares(op, e, ks)
    ensures RecentBut(Run(d, maxSize, ttl, ops).0, e, ks) && DistinctKeys(Run(d, maxSize, ttl, ops).0)
    decreases |ops|
  {
    if ops == [] {
    } else {
      assert ops[0] in ops;
      StepRecent(d, maxSize, ttl, e, ks, ops[0]);
      RunRecent(Step(d, maxSize, ttl, ops[0]).0, maxSize, ttl, e, ks, ops[1..]);
    }
  }

  /** What storing `e` leaves. */
  function Storing(d: seq<Entry>, maxSize: int, e: Entry): seq<Entry> {
    Remove(Evict(d, maxSize), e.key) + [e]
  }

  /** A stored key survives any run that names only keys of a safe set besides it and neither
      deletes nor outlives it. */
  lemma WorkingSetKept(d: seq<Entry>, maxSize: int, ttl: int, e: Entry, ks: set<Key>, ops: seq<Op>)
    requires DistinctKeys(d) && e.key !in ks && Safe(ks, maxSize)
    requires forall op :: op in ops ==> Spares(op, e, ks)
    ensures Find(Run(Storing(d, maxSize, e), maxSize, ttl, ops).0, e.key) == Some(e)
  {
    RemoveSnocDistinct(Evict(d, maxSize), e);
    NewestRecent(Remove(Evict(d, maxSize), e.key), e, ks);
    RunRecent(Storing(d, maxSize, e), maxSize, ttl, e, ks, ops);
    FindUnique(Run(Storing(d, maxSize, e), maxSize, ttl, ops).0, e);
  }

  /** Storing `n` distinct keys fills the cache behind `e`. */
  lemma {:induction false} Fill(maxSize: int, ttl: int, e: Entry, ks: set<Key>, n: nat)
    returns (ops: seq<Op>, newer: seq<Entry>)
    requires e.key !in ks && n <= |ks| && n <= maxSize - 1
    ensures forall op :: op in ops ==> Spares(op, e, ks)
    ensures Run([e], maxSize, ttl, ops).0 == [e] + newer
    ensures |newer| == n && forall x :: x in newer ==> x.key in ks
    decreases n
  {
    if n == 0 {
      return [], [];
    }
    var k :| k in ks;
    ops, newer := Fill(maxSize, ttl, e, ks - {k}, n - 1);
    var op := Op.Set(k, [], None, 0.0);
    var x := Item(k, Slot([], ExpiryFor(None, ttl, 0.0)));
    RunSnoc([e], maxSize, ttl, ops, op);
    FilterAll([e] + newer, KeyOtherThan(k));
    assert [e] + newer + [x] == [e] + (newer + [x]);
    ops, newer := ops + [op], newer + [x];
  }

  /** Beyond the safe sets there is, for every capacity, a run that evicts the key although it
      never stores more than maxSize - 1 others: it fills the cache and then stores once more. */
  lemma OverwriteEvictsOther(maxSize: int, ttl: int, e: Entry, ks: set<Key>) returns (ops: seq<Op>)
    requires 1 <= maxSize && e.key !in ks && !Safe(ks, maxSize)
    ensures forall op :: op in ops ==> Spares(op, e, ks)
    ensures Find(Run([e], maxSize, ttl, ops).0, e.key) == None
  {
    var newer;
    ops, newer := Fill(maxSize, ttl, e, ks, maxSize - 1);
    var k := if newer != [] then newer[0].key else var any :| any in ks; any;
    var op := Op.Set(k, [], None, 0.0);
    var x := Item(k, Slot([], ExpiryFor(None, ttl, 0.0)));
    RunSnoc([e], maxSize, ttl, ops, op);
    assert Evict([e] + newer, maxSize) == newer;
    var final := Remove(newer, k) + [x];
    FilterMembers(newer, KeyOtherThan(k));
    FindMember(final, e.key);
    ops := ops + [op];
  }

  /** Every run that names only `ks` besides `e` and neither deletes nor outlives it finds it
      still there, whatever the cache held when it was stored. */
  ghost predicate AlwaysKept(maxSize: int, ttl: int, e: Entry, ks: set<Key>) {
    forall d, ops :: DistinctKeys(d) && (forall op :: op in ops ==> Spares(op, e, ks)) ==>
      Find(Run(Storing(d, maxSize, e), maxSize, ttl, ops).0, e.key) == Some(e)
  }

  /** Main result: the exact working set of a cache of any size. A stored key survives every run
      over the other keys `ks` exactly when there are none or at most maxSize - 2 of them. */
  lemma WorkingSetExactly(maxSize: int, ttl: int, e: Entry, ks: set<Key>)
    requires 1 <= maxSize && e.key !in ks
    ensures AlwaysKept(maxSize, ttl, e, ks) <==> ks == {} || |ks| <= maxSize - 2
  {
    if Safe(ks, maxSize) {
      forall d, ops | DistinctKeys(d) && (forall op :: op in ops ==> Spares(op, e, ks))
        ensures Find(Run(Storing(d, maxSize, e), maxSize, ttl, ops).0, e.key) == Some(e)
      {
        WorkingSetKept(d, maxSize, ttl, e, ks, ops);
      }
    } else {
      var ops := OverwriteEvictsOther(maxSize, ttl, e, ks);
      assert Storing([], maxSize, e) == [e];
    }
  }

  /** Operations that name only `ks` and `k`, and neither store nor delete `k`. */
  predicate SparesKey(op: Op, k: Key, ks: set<Key>) {
    match op
    case Get(x, _) => x in ks || x == k
    case Set(x, _, _, _) => x in ks
    case Delete(x) => x != k
    case Exists(_, _) => true
    case GetMany(names, _) => forall x :: x in names ==> x in ks || x == k
    case CleanupExpired(_) => true
    case Clear => false
  }

  predicate ClockedBy(op: Op, deadline: real) {
    match op
    case Get(_, now) => now <= deadline
    case Exists(_, now) => now <= deadline
    case GetMany(_, now) => now <= deadline
    case CleanupExpired(now) => now <= deadline
    case _ => true
  }

  /** A looked-up key is as safe as a stored one: wherever it stood, after a lookup that finds it
      every run over a safe set of other keys still finds it. */
  lemma LookupKeepsWorkingSet(d: seq<Entry>, maxSize: int, ttl: int, e: Entry, now: real, ks: set<Key>, ops: seq<Op>)
    requires DistinctKeys(d) && e in d && e.key !in ks && (ks == {} || |ks| <= maxSize - 2)
    requires e.val.expires.None? || e.val.expires.value == 0.0 || now <= e.val.expires.value
    requires forall op :: op in ops ==> SparesKey(op, e.key, ks)
    requires forall op :: op in ops ==>
               e.val.expires.None? || e.val.expires.value == 0.0 || ClockedBy(op, e.val.expires.value)
    ensures Find(Run(d, maxSize, ttl, [Get(e.key, now)] + ops).0, e.key) == Some(e)
  {
    var d' := Remove(d, e.key) + [e];
    FindUnique(d, e);
    RemoveSnocDistinct(d, e);
    NewestRecent(Remove(d, e.key), e, ks);
    forall op | op in ops ensures Spares(op, e, ks) {
    }
    RunRecent(d', maxSize, ttl, e, ks, ops);
    FindUnique(Run(d', maxSize, ttl, ops).0, e);
    assert ([Op.Get(e.key, now)] + ops)[1..] == ops;
  }

  lemma {:induction false} RunLength(d: seq<Entry>, maxSize: int, ttl: int, ops: seq<Op>)
    ensures |Run(d, maxSize, ttl, ops).1| == |ops|
    decreases |ops|
  {
    if ops == [] {
    } else {
      RunLength(Step(d, maxSize, ttl, ops[0]).0, maxSize, ttl, ops[1..]);
    }
  }

  /** Main result, from end to end: a key that was stored answers a later lookup with its value
      until its ttl has passed, and no longer, whatever else happens over at most maxSize - 2 other
      keys. (An expiry of exactly 0.0 never passes.) */
  lemma StoredIsServed(d: seq<Entry>, maxSize: int, defaultTtl: int, k: Key, v: Bytes, ttl: Option<int>, stored: real,
                       ks: set<Key>, ops: seq<Op>, now: real)
    requires DistinctKeys(d) && 1 <= maxSize && k !in ks && (ks == {} || |ks| <= maxSize - 2)
    requires forall op :: op in ops ==> SparesKey(op, k, ks)
    requires var t := if ttl.Some? then ttl.value else defaultTtl;
             t > 0 ==> forall op :: op in ops ==> ClockedBy(op, stored + t as real)
    ensures var t := if ttl.Some? then ttl.value else defaultTtl;
            var os := Run(d, maxSize, defaultTtl, [Set(k, v, ttl, stored)] + ops + [Get(k, now)]).1;
            && |os| == |ops| + 2
            && os[|ops| + 1]
               == Value(if t <= 0 || stored + t as real == 0.0 || now <= stored + t as real then Some(v) else None)
  {
    var store := Op.Set(k, v, ttl, stored);
    var e := Item(k, Slot(v, ExpiryFor(ttl, defaultTtl, stored)));
    forall op | op in ops ensures Spares(op, e, ks) {
    }
    WorkingSetKept(d, maxSize, defaultTtl, e, ks, ops);
    assert ([store] + ops)[1..] == ops;
    RunLength(d, maxSize, defaultTtl, [store] + ops);
    RunSnoc(d, maxSize, defaultTtl, [store] + ops, Get(k, now));
  }

  // ----- the backend itself -----

  class MemoryBackend {
    const maxSize: int
    const defaultTtl: int
    var data: seq<Entry>

    ghost predicate Valid()
      reads this
    {
      DistinctKeys(data) && |data| <= Max(maxSize, 0)
    }

    constructor (maxSize: int := 10000, defaultTtl: int := 3600)
      ensures Valid() && data == []
      ensures this.maxSize == maxSize && this.defaultTtl == defaultTtl
    {
      this.maxSize, this.defaultTtl, data := maxSize, defaultTtl, [];
    }

    /** `_evict_if_needed`: false stands for the KeyError of popping from an empty dictionary. */
    method EvictIfNeeded() returns (ok: bool)
      requires Valid()
      modifies this`data
      ensures ok == (maxSize >= 1)
      ensures data == Evict(old(data), maxSize)
      ensures Valid()
    {
      var n := 0;
      while |data| >= maxSize
        invariant 0 <= n <= |old(data)| && data == old(data)[n..]
        invariant n > 0 ==> |data| >= maxSize - 1
        invariant Valid()
        decreases |data|
      {
        if data == [] {
          return false;
        }
        data := data[1..];
        n := n + 1;
      }
      ok := true;
    }

    method Get(key: Key, now: real) returns (r: Option<Bytes>)
      requires Valid()
      modifies this`data
      ensures (data, r) == GetResult(old(data), key, now)
      ensures Valid()
    {
      var found := Find(data, key);
      if found.None? {
        return None;
      }
      FilterLength(data, KeyOtherThan(key));
      FilterDistinctKeys(data, KeyOtherThan(key));
      FindMember(data, key);
      RemovePresent(data, key);
      RemoveSnocDistinct(data, found.value);
      if Expired(found.value, now) {
        data := Remove(data, key);
        return None;
      }
      data := Remove(data, key) + [found.value];
      r := Some(found.value.val.value);
    }

    method Set(key: Key, value: Bytes, ttl: Option<int>, now: real) returns (o: Outcome)
      requires Valid()
      modifies this`data
      ensures (data, o) == SetResult(old(data), maxSize, defaultTtl, key, value, ttl, now)
      ensures Valid()
    {
      var ok := EvictIfNeeded();
      if !ok {
        return CapacityError;
      }
      var t := if ttl.Some? then ttl.value else defaultTtl;
      var expires := if t > 0 then Some(now + t as real) else None;
      var e := Item(key, Slot(value, expires));
      SetFits(old(data), maxSize, e);
      data := Remove(data, key) + [e];
      o := Stored;
    }

    method Delete(key: Key) returns (present: bool)
      requires Valid()
      modifies this`data
      ensures data == Remove(old(data), key)
      ensures present == (exists e :: e in old(data) && e.key == key)
      ensures Valid()
    {
      FindMember(data, key);
      FilterLength(data, KeyOtherThan(key));
      FilterDistinctKeys(data, KeyOtherThan(key));
      present := Find(data, key).Some?;
      if present {
        data := Remove(data, key);
      } else {
        RemoveAbsent(data, key);
      }
    }

    method Exists(key: Key, now: real) returns (present: bool)
      requires Valid()
      modifies this`data
      ensures (data, present) == ExistsResult(old(data), key, now)
      ensures Valid()
    {
      var found := Find(data, key);
      if found.None? {
        return false;
      }
      FilterLength(data, KeyOtherThan(key));
      FilterDistinctKeys(data, KeyOtherThan(key));
      if Expired(found.value, now) {
        data := Remove(data, key);
        return false;
      }
      present := true;
    }

    method GetMany(keys: seq<Key>, now: real) returns (results: map<Key, Option<Bytes>>)
      requires Valid()
      modifies this`data
      ensures (data, results) == GetManyResult(old(data), keys, now)
      ensures Valid()
    {
      results := map[];
      for i := 0 to |keys|
        invariant (data, results) == GetManyResult(old(data), keys[..i], now)
        invariant Valid()
      {
        assert keys[..i + 1][..i] == keys[..i];
        var found := Find(data, keys[i]);
        if found.Some? && !Expired(found.value, now) {
          FindMember(data, keys[i]);
          RemovePresent(data, keys[i]);
          RemoveSnocDistinct(data, found.value);
          results := results[keys[i] := Some(found.value.val.value)];
          data := Remove(data, keys[i]) + [found.value];
        } else {
          results := results[keys[i] := None];
        }
      }
      assert keys[..|keys|] == keys;
    }

    /** Collects the expired keys first, then deletes them one by one. */
    method CleanupExpired(now: real)
      requires Valid()
      modifies this`data
      ensures data == Filter(old(data), LiveAt(now))
      ensures Valid()
    {
      var expired := Filter(data, ExpiredAt(now));
      FilterAll(data, KeyNotAmong([]));
      for i := 0 to |expired|
        invariant Valid()
        invariant data == Filter(old(data), KeyNotAmong(expired[..i]))
      {
        FilterLength(data, KeyOtherThan(expired[i].key));
        FilterDistinctKeys(data, KeyOtherThan(expired[i].key));
        RemoveNext(old(data), expired, i);
        data := Remove(data, expired[i].key);
      }
      assert expired[..|expired|] == expired;
      DeleteCollected(old(data), ExpiredAt(now), LiveAt(now));
    }

    method Clear() returns (count: nat)
      requires Valid()
      modifies this`data
      ensures data == [] && count == |old(data)|
      ensures Valid()
    {
      count := |data|;
      data := [];
    }
  }
}
