/** The memory backend bounded in entries and in bytes
    (src/distributed_cluster/cache/backends.py, MemoryBackend). */
module ByteBackend {
  import opened Common
  import opened OrderedDict

  /** A cached object, or Python's None, which a lookup cannot tell from a miss. */
  type Value = Option<string>

  datatype Slot = Slot(value: Value, expires: Option<real>, size: nat)
  type Entry = Item<Slot>

  predicate Expired(e: Entry, now: real) {
    e.val.expires.Some? && now > e.val.expires.value
  }

  function LiveAt(now: real): Entry -> bool {
    (e: Entry) => !Expired(e, now)
  }

  function ExpiredAt(now: real): Entry -> bool {
    (e: Entry) => Expired(e, now)
  }

  function Bytes(d: seq<Entry>): nat {
    if d == [] then 0 else d[0].val.size + Bytes(d[1..])
  }

  datatype Limits = Limits(maxSize: int, maxBytes: int, defaultTtl: int)

  datatype Op =
    | Get(key: Key, now: real)
    | Set(key: Key, value: Value, size: nat, ttl: Option<int>, now: real)
    | Delete(key: Key)
    | Exists(key: Key, now: real)
    | Clear
    | CleanupExpired(now: real)

  /** There is room for an entry of `size` bytes more. */
  predicate Room(d: seq<Entry>, lim: Limits, size: nat) {
    |d| < lim.maxSize && Bytes(d) + size <= lim.maxBytes
  }

  function Evict(d: seq<Entry>, lim: Limits, size: nat): seq<Entry> {
    if d == [] || Room(d, lim, size) then d else Evict(d[1..], lim, size)
  }

  /** A missing or zero ttl means the default; a zero default means no expiry. */
  function ExpiryFor(ttl: Option<int>, lim: Limits, now: real): Option<real> {
    var t := if ttl.Some? && ttl.value != 0 then ttl.value else lim.defaultTtl;
    if t != 0 then Some(now + t as real) else None
  }

  function GetResult(d: seq<Entry>, k: Key, now: real): (seq<Entry>, Value) {
    match Find(d, k)
    case None => (d, None)
    case Some(e) => if Expired(e, now) then (Remove(d, k), None) else (Remove(d, k) + [e], e.val.value)
  }

  function SetResult(d: seq<Entry>, lim: Limits, k: Key, v: Value, size: nat, ttl: Option<int>, now: real): seq<Entry> {
    Remove(Evict(d, lim, size), k) + [Item(k, Slot(v, ExpiryFor(ttl, lim, now), size))]
  }

  function ExistsResult(d: seq<Entry>, k: Key, now: real): (seq<Entry>, bool) {
    match Find(d, k)
    case None => (d, false)
    case Some(e) => if Expired(e, now) then (Remove(d, k), false) else (d, true)
  }

  function Step(d: seq<Entry>, lim: Limits, op: Op): seq<Entry> {
    match op
    case Get(k, now) => GetResult(d, k, now).0
    case Set(k, v, size, ttl, now) => SetResult(d, lim, k, v, size, ttl, now)
    case Delete(k) => Remove(d, k)
    case Exists(k, now) => ExistsResult(d, k, now).0
    case Clear => []
    case CleanupExpired(now) => Filter(d, LiveAt(now))
  }

  function After(lim: Limits, ops: seq<Op>): seq<Entry> {
    if ops == [] then [] else Step(After(lim, ops[..|ops| - 1]), lim, ops[|ops| - 1])
  }

  lemma AfterNext(lim: Limits, ops: seq<Op>, op: Op)
    ensures After(lim, []) == [] && After(lim, ops + [op]) == Step(After(lim, ops), lim, op)
  {
    assert (ops + [op])[..|ops|] == ops;
  }

  // ----- limits -----

  /** Within both limits, or holding nothing but one oversized entry. With a size limit below 1
      one entry is still kept. */
  ghost predicate WithinLimits(d: seq<Entry>, lim: Limits) {
    |d| <= Max(lim.maxSize, 1) && (Bytes(d) <= lim.maxBytes || |d| <= 1)
  }

  lemma {:induction false} BytesConcat(a: seq<Entry>, b: seq<Entry>)
    ensures Bytes(a + b) == Bytes(a) + Bytes(b)
  {
    if a == [] {
      assert a + b == b;
    } else {
      assert (a + b)[0] == a[0] && (a + b)[1..] == a[1..] + b;
      BytesConcat(a[1..], b);
    }
  }

  lemma BytesSnoc(d: seq<Entry>, e: Entry)
    ensures Bytes(d + [e]) == Bytes(d) + e.val.size
  {
    BytesConcat(d, [e]);
    assert Bytes([e]) == e.val.size + Bytes([e][1..]);
  }

  /** The byte count is the sum of the sizes. */
  lemma BytesAdds(a: seq<Entry>, b: seq<Entry>, e: Entry)
    ensures Bytes([]) == 0 && Bytes([e]) == e.val.size && Bytes(a + b) == Bytes(a) + Bytes(b)
  {
    BytesConcat(a, b);
    BytesSnoc([], e);
    assert [] + [e] == [e];
  }

  lemma {:induction false} BytesFilter(d: seq<Entry>, p: Entry -> bool)
    ensures Bytes(Filter(d, p)) <= Bytes(d)
  {
    if d == [] {
    } else {
      BytesFilter(d[1..], p);
    }
  }

  lemma {:induction false} BytesRemove(d: seq<Entry>, k: Key)
    requires DistinctKeys(d) && Has(d, k)
    ensures Bytes(Remove(d, k)) == Bytes(d) - Find(d, k).value.val.size
  {
    if d[0].key == k {
      assert forall e :: e in d[1..] ==> e.key != k;
      FilterAll(d[1..], KeyOtherThan(k));
    } else {
      BytesRemove(d[1..], k);
    }
  }

  /** Eviction drops the shortest run of least recently used entries that makes room, or all of
      them when nothing does. */
  lemma {:induction false} EvictIsShortest(d: seq<Entry>, lim: Limits, size: nat) returns (n: nat)
    ensures n <= |d| && Evict(d, lim, size) == d[n..]
    ensures n < |d| ==> Room(d[n..], lim, size)
    ensures forall m: nat :: m < n ==> !Room(d[m..], lim, size)
  {
    if d == [] || Room(d, lim, size) {
      n := 0;
      assert d[0..] == d;
    } else {
      var n' := EvictIsShortest(d[1..], lim, size);
      n := n' + 1;
      assert d[1..][n'..] == d[n..];
      forall m: nat | m < n ensures !Room(d[m..], lim, size) {
        if m == 0 {
          assert d[0..] == d;
        } else {
          assert d[1..][m - 1..] == d[m..];
        }
      }
    }
  }

  lemma FilterKeepsLimits(d: seq<Entry>, lim: Limits, p: Entry -> bool)
    requires DistinctKeys(d) && WithinLimits(d, lim)
    ensures DistinctKeys(Filter(d, p)) && WithinLimits(Filter(d, p), lim)
  {
    FilterDistinctKeys(d, p);
    FilterLength(d, p);
    BytesFilter(d, p);
  }

  lemma TouchKeepsLimits(d: seq<Entry>, lim: Limits, k: Key)
    requires DistinctKeys(d) && WithinLimits(d, lim) && Has(d, k)
    ensures DistinctKeys(Remove(d, k) + [Find(d, k).value]) && WithinLimits(Remove(d, k) + [Find(d, k).value], lim)
    ensures Bytes(Remove(d, k) + [Find(d, k).value]) == Bytes(d)
  {
    FindMember(d, k);
    var e := Find(d, k).value;
    RemoveSnocDistinct(d, e);
    RemovePresent(d, k);
    BytesRemove(d, k);
    BytesSnoc(Remove(d, k), e);
  }

  lemma SetKeepsLimits(d: seq<Entry>, lim: Limits, e: Entry)
    requires DistinctKeys(d)
    ensures var d' := Remove(Evict(d, lim, e.val.size), e.key) + [e];
            DistinctKeys(d') && WithinLimits(d', lim)
  {
    var n := EvictIsShortest(d, lim, e.val.size);
    var kept := d[n..];
    RemoveSnocDistinct(kept, e);
    FilterLength(kept, KeyOtherThan(e.key));
    BytesFilter(kept, KeyOtherThan(e.key));
    BytesSnoc(Remove(kept, e.key), e);
  }

  lemma StepKeepsLimits(d: seq<Entry>, lim: Limits, op: Op)
    requires DistinctKeys(d) && WithinLimits(d, lim)
    ensures DistinctKeys(Step(d, lim, op)) && WithinLimits(Step(d, lim, op), lim)
  {
    match op
    case Get(k, now) =>
      FilterKeepsLimits(d, lim, KeyOtherThan(k));
      if Has(d, k) { TouchKeepsLimits(d, lim, k); }
    case Set(k, v, size, ttl, now) => SetKeepsLimits(d, lim, Item(k, Slot(v, ExpiryFor(ttl, lim, now), size)));
    case Delete(k) => FilterKeepsLimits(d, lim, KeyOtherThan(k));
    case Exists(k, now) => FilterKeepsLimits(d, lim, KeyOtherThan(k));
    case Clear =>
    case CleanupExpired(now) => FilterKeepsLimits(d, lim, LiveAt(now));
  }

  /** Both limits hold in every reachable state, up to one oversized entry. */
  lemma {:induction false} LimitsHeld(lim: Limits, ops: seq<Op>)
    ensures DistinctKeys(After(lim, ops)) && WithinLimits(After(lim, ops), lim)
  {
    if ops == [] {
    } else {
      LimitsHeld(lim, ops[..|ops| - 1]);
      StepKeepsLimits(After(lim, ops[..|ops| - 1]), lim, ops[|ops| - 1]);
    }
  }

  // ----- what one operation answers and keeps -----

  /** The entry is there with this value and has not passed its expiry. */
  ghost predicate Serves(d: seq<Entry>, k: Key, v: Value, now: real) {
    exists e :: e in d && e.key == k && e.val.value == v && (e.val.expires.None? || now <= e.val.expires.value)
  }

  lemma ServedByFind(d: seq<Entry>, k: Key, v: Value, now: real)
    requires DistinctKeys(d)
    ensures Serves(d, k, v, now) <==> Has(d, k) && Find(d, k).value.val.value == v && !Expired(Find(d, k).value, now)
  {
    FindMember(d, k);
    if e :| e in d && e.key == k && e.val.value == v && (e.val.expires.None? || now <= e.val.expires.value) {
      FindUnique(d, e);
    }
  }

  /** A lookup answers the value of a live entry and None otherwise, a presence test whether there is
      one. */
  lemma LookupsAnswer(d: seq<Entry>, k: Key, now: real)
    requires DistinctKeys(d)
    ensures forall v: Value :: v.Some? ==> (GetResult(d, k, now).1 == v <==> Serves(d, k, v, now))
    ensures ExistsResult(d, k, now).1 <==> exists v: Value :: Serves(d, k, v, now)
  {
    forall v: Value | v.Some? ensures GetResult(d, k, now).1 == v <==> Serves(d, k, v, now) {
      ServedByFind(d, k, v, now);
    }
    if Has(d, k) {
      ServedByFind(d, k, Find(d, k).value.val.value, now);
    }
    forall v: Value ensures Serves(d, k, v, now) ==> ExistsResult(d, k, now).1 {
      ServedByFind(d, k, v, now);
    }
  }

  lemma LookupKeeps(d: seq<Entry>, k: Key, now: real, x: Entry)
    requires DistinctKeys(d)
    ensures x in GetResult(d, k, now).0 <==> x in d && !(x.key == k && Expired(x, now))
    ensures x in ExistsResult(d, k, now).0 <==> x in d && !(x.key == k && Expired(x, now))
  {
    FindMember(d, k);
    FilterMember(d, KeyOtherThan(k), x);
    if Has(d, k) {
      RenewedMembers(d, Find(d, k).value, x);
      if x in d && x.key == k {
        FindUnique(d, x);
      }
    }
  }

  /** What an operation other than a store leaves in the cache, the order aside. */
  lemma KeepsExactly(d: seq<Entry>, lim: Limits, op: Op, x: Entry)
    requires DistinctKeys(d) && !op.Set?
    ensures x in Step(d, lim, op)
       <==> match op
            case Get(k, now) => x in d && !(x.key == k && x.val.expires.Some? && now > x.val.expires.value)
            case Exists(k, now) => x in d && !(x.key == k && x.val.expires.Some? && now > x.val.expires.value)
            case Delete(k) => x in d && x.key != k
            case Clear => false
            case CleanupExpired(now) => x in d && !(x.val.expires.Some? && now > x.val.expires.value)
            case Set(_, _, _, _, _) => true
  {
    match op
    case Get(k, now) => LookupKeeps(d, k, now, x);
    case Exists(k, now) => LookupKeeps(d, k, now, x);
    case Delete(k) => FilterMember(d, KeyOtherThan(k), x);
    case Clear =>
    case CleanupExpired(now) => FilterMember(d, LiveAt(now), x);
  }

  lemma ReplacedMember(d: seq<Entry>, e: Entry, x: Entry)
    ensures x in Remove(d, e.key) + [e] <==> if x.key == e.key then x == e else x in d
  {
    FilterMember(d, KeyOtherThan(e.key), x);
  }

  /** The fewest oldest entries are dropped for both limits to hold with `size` bytes more. */
  ghost predicate FewestDropped(d: seq<Entry>, lim: Limits, size: nat, n: nat) {
    && n <= |d|
    && (n == |d| || (|d| - n < lim.maxSize && Bytes(d[n..]) + size <= lim.maxBytes))
    && forall m: nat :: m < n ==> |d| - m >= lim.maxSize || Bytes(d[m..]) + size > lim.maxBytes
  }

  lemma EvictDropsFewest(d: seq<Entry>, lim: Limits, size: nat) returns (n: nat)
    ensures FewestDropped(d, lim, size, n) && Evict(d, lim, size) == d[n..]
  {
    n := EvictIsShortest(d, lim, size);
    forall m: nat | m < n ensures |d| - m >= lim.maxSize || Bytes(d[m..]) + size > lim.maxBytes {
      assert !Room(d[m..], lim, size);
    }
  }

  lemma StoreMember(d: seq<Entry>, lim: Limits, op: Op, n: nat, x: Entry)
    requires op.Set? && n <= |d| && Evict(d, lim, op.size) == d[n..]
    ensures x in Step(d, lim, op)
       <==> if x.key == op.key then x.val == Slot(op.value, ExpiryFor(op.ttl, lim, op.now), op.size) else x in d[n..]
  {
    ReplacedMember(d[n..], Item(op.key, Slot(op.value, ExpiryFor(op.ttl, lim, op.now), op.size)), x);
  }

  /** What a store leaves: its own entry, which expires a ttl that is not 0 later, and of the others
      those that remain when the fewest oldest ones are dropped for it. */
  lemma StoreKeepsExactly(d: seq<Entry>, lim: Limits, k: Key, v: Value, size: nat, ttl: Option<int>, now: real)
    returns (n: nat)
    requires DistinctKeys(d)
    ensures FewestDropped(d, lim, size, n)
    ensures var t := if ttl.None? || ttl.value == 0 then lim.defaultTtl else ttl.value;
            var slot := Slot(v, if t == 0 then None else Some(now + t as real), size);
            forall x :: x in Step(d, lim, Set(k, v, size, ttl, now))
                   <==> if x.key == k then x.val == slot else x in d[n..]
  {
    n := EvictDropsFewest(d, lim, size);
    forall x
      ensures x in Step(d, lim, Set(k, v, size, ttl, now))
         <==> if x.key == k then x.val == Slot(v, ExpiryFor(ttl, lim, now), size) else x in d[n..]
    {
      StoreMember(d, lim, Set(k, v, size, ttl, now), n, x);
    }
  }

  /** What the run last stored under `k`, with its expiry; nothing if it has deleted it since. */
  function LastStored(ops: seq<Op>, lim: Limits, k: Key): Option<Slot> {
    if ops == [] then None
    else
      match ops[|ops| - 1]
      case Set(x, v, size, ttl, now) =>
        if x != k then LastStored(ops[..|ops| - 1], lim, k)
        else
          var t := if ttl.None? || ttl.value == 0 then lim.defaultTtl else ttl.value;
          Some(Slot(v, if t == 0 then None else Some(now + t as real), size))
      case Delete(x) => if x == k then None else LastStored(ops[..|ops| - 1], lim, k)
      case Clear => None
      case _ => LastStored(ops[..|ops| - 1], lim, k)
  }

  /** An entry that an operation leaves is the one it stores, or was there before and the operation
      does not delete or replace its key. */
  lemma StepLeaves(d: seq<Entry>, lim: Limits, op: Op, e: Entry)
    requires DistinctKeys(d) && e in Step(d, lim, op)
    ensures if op.Set? && op.key == e.key then e.val == Slot(op.value, ExpiryFor(op.ttl, lim, op.now), op.size)
            else e in d && !op.Clear? && !(op.Delete? && op.key == e.key)
  {
    if op.Set? {
      var n := EvictDropsFewest(d, lim, op.size);
      ReplacedMember(d[n..], Item(op.key, Slot(op.value, ExpiryFor(op.ttl, lim, op.now), op.size)), e);
    } else {
      KeepsExactly(d, lim, op, e);
    }
  }

  /** Main result on contents: in every reachable state an entry is the last one stored under its key,
      with that call's value, expiry and size. */
  lemma {:induction false} EntriesAreCurrent(lim: Limits, ops: seq<Op>)
    ensures forall e :: e in After(lim, ops) ==> LastStored(ops, lim, e.key) == Some(e.val)
  {
    if ops == [] {
    } else {
      var before, op := ops[..|ops| - 1], ops[|ops| - 1];
      var d := After(lim, before);
      EntriesAreCurrent(lim, before);
      LimitsHeld(lim, before);
      forall e | e in After(lim, ops) ensures LastStored(ops, lim, e.key) == Some(e.val) {
        StepLeaves(d, lim, op, e);
      }
    }
  }

  /** So a key that has not been evicted answers a lookup with its last value until its ttl has
      passed, and no longer. */
  lemma UnevictedIsServed(lim: Limits, ops: seq<Op>, e: Entry, now: real)
    requires e in After(lim, ops)
    ensures LastStored(ops, lim, e.key).Some?
    ensures var s := LastStored(ops, lim, e.key).value;
            GetResult(After(lim, ops), e.key, now).1
            == if s.expires.None? || now <= s.expires.value then s.value else None
  {
    LimitsHeld(lim, ops);
    EntriesAreCurrent(lim, ops);
    FindUnique(After(lim, ops), e);
  }

  // ----- recency -----

  predicate Names(op: Op, k: Key) {
    (op.Get? || op.Set?) && op.key == k
  }

  /** The position of the last lookup or store naming `k`, or -1. */
  function LastNamed(ops: seq<Op>, k: Key): int {
    if ops == [] then -1
    else if Names(ops[|ops| - 1], k) then |ops| - 1
    else LastNamed(ops[..|ops| - 1], k)
  }

  lemma {:induction false} LastNamedRange(ops: seq<Op>, k: Key)
    ensures -1 <= LastNamed(ops, k) < |ops|
  {
    if ops == [] || Names(ops[|ops| - 1], k) {
    } else {
      LastNamedRange(ops[..|ops| - 1], k);
    }
  }

  ghost predicate ByRecency(d: seq<Entry>, ops: seq<Op>) {
    forall i, j :: 0 <= i < j < |d| ==> LastNamed(ops, d[i].key) < LastNamed(ops, d[j].key)
  }

  lemma {:induction false} FilterKeepsRecency(d: seq<Entry>, ops: seq<Op>, p: Entry -> bool)
    requires ByRecency(d, ops)
    ensures ByRecency(Filter(d, p), ops)
  {
    if d == [] {
    } else {
      FilterKeepsRecency(d[1..], ops, p);
      var f := Filter(d[1..], p);
      forall j | 0 <= j < |f| ensures LastNamed(ops, d[0].key) < LastNamed(ops, f[j].key) {
        FilterMember(d[1..], p, f[j]);
      }
    }
  }

  /** An operation that names none of the entries leaves their order of recency alone. */
  lemma StayOrdered(d: seq<Entry>, before: seq<Op>, op: Op)
    requires ByRecency(d, before)
    requires forall e :: e in d ==> !Names(op, e.key)
    ensures ByRecency(d, before + [op])
  {
    assert (before + [op])[..|before|] == before;
    forall e | e in d ensures LastNamed(before + [op], e.key) == LastNamed(before, e.key) {
    }
  }

  /** The entry an operation names belongs at the recent end. */
  lemma NewestLast(d: seq<Entry>, before: seq<Op>, op: Op, e: Entry)
    requires ByRecency(d, before) && Names(op, e.key)
    requires forall x :: x in d ==> x.key != e.key
    ensures ByRecency(d + [e], before + [op])
  {
    StayOrdered(d, before, op);
    assert (before + [op])[..|before|] == before;
    forall x | x in d ensures LastNamed(before + [op], x.key) < LastNamed(before + [op], e.key) {
      LastNamedRange(before, x.key);
    }
  }

  lemma RemovedIsGone(d: seq<Entry>, k: Key)
    ensures forall e :: e in Remove(d, k) ==> e.key != k
  {
    forall e | e in Remove(d, k) ensures e.key != k {
      FilterMember(d, KeyOtherThan(k), e);
    }
  }

  lemma StepKeepsRecency(d: seq<Entry>, lim: Limits, before: seq<Op>, op: Op)
    requires ByRecency(d, before)
    ensures ByRecency(Step(d, lim, op), before + [op])
  {
    match op
    case Get(k, now) =>
      FilterKeepsRecency(d, before, KeyOtherThan(k));
      FindMember(d, k);
      RemovedIsGone(d, k);
      if !Has(d, k) {
        StayOrdered(d, before, op);
      } else {
        StayOrdered(Remove(d, k), before, op);
        NewestLast(Remove(d, k), before, op, Find(d, k).value);
      }
    case Set(k, v, size, ttl, now) =>
      var n := EvictIsShortest(d, lim, size);
      FilterKeepsRecency(d[n..], before, KeyOtherThan(k));
      RemovedIsGone(d[n..], k);
      NewestLast(Remove(d[n..], k), before, op, Item(k, Slot(v, ExpiryFor(ttl, lim, now), size)));
    case Delete(k) =>
      FilterKeepsRecency(d, before, KeyOtherThan(k));
      StayOrdered(Remove(d, k), before, op);
    case Exists(k, now) =>
      FilterKeepsRecency(d, before, KeyOtherThan(k));
      StayOrdered(Remove(d, k), before, op);
      StayOrdered(d, before, op);
    case Clear =>
    case CleanupExpired(now) =>
      FilterKeepsRecency(d, before, LiveAt(now));
      StayOrdered(Filter(d, LiveAt(now)), before, op);
  }

  /** Dictionary order is recency order in every reachable state: an entry stands before another
      exactly when its key was last looked up or stored earlier. */
  lemma {:induction false} OrderIsRecency(lim: Limits, ops: seq<Op>)
    ensures ByRecency(After(lim, ops), ops)
  {
    if ops == [] {
    } else {
      var before := ops[..|ops| - 1];
      assert ops == before + [ops[|ops| - 1]];
      OrderIsRecency(lim, before);
      StepKeepsRecency(After(lim, before), lim, before, ops[|ops| - 1]);
    }
  }

  // ----- the backend itself -----

  lemma FirstOut(d: seq<Entry>)
    requires DistinctKeys(d) && d != []
    ensures Remove(d, d[0].key) == d[1..]
  {
    FilterAll(d[1..], KeyOtherThan(d[0].key));
  }

  class MemoryBackend {
    const lim: Limits
    var cache: seq<Entry>
    var memory: int

    ghost predicate Valid()
      reads this
    {
      DistinctKeys(cache) && WithinLimits(cache, lim) && memory == Bytes(cache)
    }

    constructor (maxSize: int := 10000, maxBytes: int := 104857600, defaultTtl: int := 300)
      ensures Valid() && cache == [] && lim == Limits(maxSize, maxBytes, defaultTtl)
    {
      lim := Limits(maxSize, maxBytes, defaultTtl);
      cache, memory := [], 0;
    }

    /** `_remove_entry`: gives back the bytes of the entry it drops. */
    method RemoveEntry(key: Key)
      requires Valid()
      modifies this`cache, this`memory
      ensures Valid()
      ensures cache == Remove(old(cache), key)
    {
      FilterKeepsLimits(cache, lim, KeyOtherThan(key));
      var found := Find(cache, key);
      if found.Some? {
        BytesRemove(cache, key);
        cache := Remove(cache, key);
        memory := memory - found.value.val.size;
      } else {
        RemoveAbsent(cache, key);
      }
    }

    method EvictOldest()
      requires Valid()
      modifies this`cache, this`memory
      ensures Valid()
      ensures cache == if old(cache) == [] then [] else old(cache)[1..]
    {
      if cache != [] {
        FirstOut(cache);
        RemoveEntry(cache[0].key);
      }
    }

    method Get(key: Key, now: real) returns (r: Value)
      requires Valid()
      modifies this`cache, this`memory
      ensures Valid()
      ensures (cache, r) == GetResult(old(cache), key, now)
    {
      var found := Find(cache, key);
      if found.None? {
        return None;
      }
      if Expired(found.value, now) {
        RemoveEntry(key);
        return None;
      }
      TouchKeepsLimits(cache, lim, key);
      cache := Remove(cache, key) + [found.value];
      r := found.value.val.value;
    }

    /** The eviction loop of `set`. */
    method MakeRoom(size: nat)
      requires Valid()
      modifies this`cache, this`memory
      ensures Valid() && cache == Evict(old(cache), lim, size)
    {
      while |cache| >= lim.maxSize || memory + size > lim.maxBytes
        invariant Valid()
        invariant Evict(cache, lim, size) == Evict(old(cache), lim, size)
        decreases |cache|
      {
        if cache == [] {
          break;
        }
        EvictOldest();
      }
    }

    /** The end of `set`: drops an entry under the same key and appends the new one. */
    method Replace(e: Entry)
      requires Valid() && WithinLimits(Remove(cache, e.key) + [e], lim)
      modifies this`cache, this`memory
      ensures Valid() && cache == Remove(old(cache), e.key) + [e]
    {
      RemoveSnocDistinct(cache, e);
      BytesSnoc(Remove(cache, e.key), e);
      if Has(cache, e.key) {
        RemoveEntry(e.key);
      } else {
        RemoveAbsent(cache, e.key);
      }
      cache := cache + [e];
      memory := memory + e.val.size;
    }

    /** `size` is what the pickled value measures, or the source's estimate when it cannot be
        pickled. */
    method Set(key: Key, value: Value, size: nat, ttl: Option<int>, now: real)
      requires Valid()
      modifies this`cache, this`memory
      ensures Valid()
      ensures cache == SetResult(old(cache), lim, key, value, size, ttl, now)
    {
      ghost var was := cache;
      MakeRoom(size);
      var t := if ttl.Some? && ttl.value != 0 then ttl.value else lim.defaultTtl;
      var expires := if t != 0 then Some(now + t as real) else None;
      var entry := Item(key, Slot(value, expires, size));
      SetKeepsLimits(was, lim, entry);
      Replace(entry);
    }

    method Delete(key: Key) returns (present: bool)
      requires Valid()
      modifies this`cache, this`memory
      ensures Valid()
      ensures cache == Remove(old(cache), key)
      ensures present == (exists e :: e in old(cache) && e.key == key)
    {
      FindMember(cache, key);
      present := Has(cache, key);
      if present {
        RemoveEntry(key);
      } else {
        RemoveAbsent(cache, key);
      }
    }

    method Exists(key: Key, now: real) returns (present: bool)
      requires Valid()
      modifies this`cache, this`memory
      ensures Valid()
      ensures (cache, present) == ExistsResult(old(cache), key, now)
    {
      var found := Find(cache, key);
      if found.None? {
        return false;
      }
      if Expired(found.value, now) {
        RemoveEntry(key);
        return false;
      }
      present := true;
    }

    method Clear()
      requires Valid()
      modifies this`cache, this`memory
      ensures Valid() && cache == []
    {
      cache, memory := [], 0;
    }

    method CleanupExpired(now: real) returns (count: nat)
      requires Valid()
      modifies this`cache, this`memory
      ensures Valid()
      ensures cache == Filter(old(cache), LiveAt(now)) && count == |old(cache)| - |cache|
    {
      ghost var was := cache;
      var expired := Filter(cache, ExpiredAt(now));
      FilterAll(cache, KeyNotAmong([]));
      FilterPartition(cache, ExpiredAt(now), LiveAt(now));
      for i := 0 to |expired|
        invariant Valid() && cache == Filter(was, KeyNotAmong(expired[..i]))
      {
        RemoveNext(was, expired, i);
        RemoveEntry(expired[i].key);
      }
      assert expired[..|expired|] == expired;
      DeleteCollected(was, ExpiredAt(now), LiveAt(now));
      count := |expired|;
    }
  }

  // ----- the backend seen as a map that may lose keys -----

  /** Key to value, forgetting order, expiry and size. */
  function Contents(d: seq<Entry>): map<Key, Value> {
    if d == [] then map[] else Contents(d[1..])[d[0].key := d[0].val.value]
  }

  lemma {:induction false} ContentsFind(d: seq<Entry>, k: Key)
    ensures k in Contents(d) <==> Has(d, k)
    ensures Has(d, k) ==> Contents(d)[k] == Find(d, k).value.val.value
  {
    if d == [] {
    } else {
      ContentsFind(d[1..], k);
    }
  }

  lemma ContentsFilter(d: seq<Entry>, p: Entry -> bool)
    requires DistinctKeys(d)
    ensures Contents(Filter(d, p)).Keys <= Contents(d).Keys
    ensures forall k :: k in Contents(Filter(d, p)) ==> Contents(Filter(d, p))[k] == Contents(d)[k]
  {
    forall k | k in Contents(Filter(d, p))
      ensures k in Contents(d) && Contents(Filter(d, p))[k] == Contents(d)[k]
    {
      ContentsFind(Filter(d, p), k);
      ContentsFind(d, k);
      FindMember(Filter(d, p), k);
      var e := Find(Filter(d, p), k).value;
      FilterMember(d, p, e);
      FindUnique(d, e);
    }
  }

  lemma {:induction false} SnocFind(d: seq<Entry>, e: Entry, k: Key)
    ensures Find(Remove(d, e.key) + [e], k) == if k == e.key then Some(e) else Find(d, k)
  {
    if d == [] {
      assert Remove(d, e.key) + [e] == [e];
      assert Find([e][1..], k) == None;
    } else {
      SnocFind(d[1..], e, k);
      if d[0].key != e.key {
        assert Remove(d, e.key) == [d[0]] + Remove(d[1..], e.key);
        assert (Remove(d, e.key) + [e])[1..] == Remove(d[1..], e.key) + [e];
      }
    }
  }

  lemma ContentsSnoc(d: seq<Entry>, e: Entry)
    ensures Contents(Remove(d, e.key) + [e]) == Contents(d)[e.key := e.val.value]
  {
    var r := Remove(d, e.key);
    forall k ensures k in Contents(r + [e]) <==> k in Contents(d)[e.key := e.val.value] {
      SnocFind(d, e, k);
      ContentsFind(r + [e], k);
      ContentsFind(d, k);
    }
    forall k | k in Contents(r + [e]) ensures Contents(r + [e])[k] == Contents(d)[e.key := e.val.value][k] {
      SnocFind(d, e, k);
      ContentsFind(r + [e], k);
      ContentsFind(d, k);
    }
  }

  lemma ContentsRemove(d: seq<Entry>, k: Key)
    requires DistinctKeys(d)
    ensures Contents(Remove(d, k)) == Contents(d) - {k}
  {
    ContentsFilter(d, KeyOtherThan(k));
    RemovedIsGone(d, k);
    forall x ensures x in Contents(Remove(d, k)) <==> x in Contents(d) && x != k {
      ContentsFind(Remove(d, k), x);
      ContentsFind(d, x);
      FindMember(Remove(d, k), x);
      FindMember(d, x);
      if Has(d, x) && x != k {
        FilterMember(d, KeyOtherThan(k), Find(d, x).value);
      }
    }
  }

  /** A lookup is a plain map lookup after losing the key if it had expired. */
  lemma GetIsLossyLookup(d: seq<Entry>, k: Key, now: real)
    requires DistinctKeys(d)
    ensures var lost := if Has(d, k) && Expired(Find(d, k).value, now) then {k} else {};
            && Contents(GetResult(d, k, now).0) == Contents(d) - lost
            && GetResult(d, k, now).1 == (if k in Contents(d) - lost then Contents(d)[k] else None)
  {
    var all := Contents(d);
    ContentsFind(d, k);
    assert all - {} == all;
    if Has(d, k) {
      var e := Find(d, k).value;
      FindMember(d, k);
      if Expired(e, now) {
        ContentsRemove(d, k);
      } else {
        ContentsSnoc(d, e);
        assert all[k := e.val.value] == all;
      }
    }
  }

  /** A store is a plain map store after losing the evicted keys. */
  lemma SetIsLossyStore(d: seq<Entry>, lim: Limits, k: Key, v: Value, size: nat, ttl: Option<int>, now: real)
    requires DistinctKeys(d)
    ensures var lost := Contents(d).Keys - Contents(Evict(d, lim, size)).Keys;
            Contents(SetResult(d, lim, k, v, size, ttl, now)) == (Contents(d) - lost)[k := v]
  {
    var n := EvictIsShortest(d, lim, size);
    ContentsSnoc(d[n..], Item(k, Slot(v, ExpiryFor(ttl, lim, now), size)));
    forall x | x in Contents(d[n..]) ensures x in Contents(d) && Contents(d)[x] == Contents(d[n..])[x] {
      ContentsFind(d[n..], x);
      FindMember(d[n..], x);
      FindUnique(d, Find(d[n..], x).value);
      ContentsFind(d, x);
    }
    assert Contents(d[n..]) == Contents(d) - (Contents(d).Keys - Contents(d[n..]).Keys);
  }

  /** The keys an operation takes away. */
  function Lost(d: seq<Entry>, lim: Limits, op: Op): set<Key> {
    Contents(d).Keys - Contents(Step(d, lim, op)).Keys
  }

  lemma OnlyLost(m: map<Key, Value>, rest: map<Key, Value>, gone: set<Key>)
    requires rest == m - gone
    ensures rest == m - (m.Keys - rest.Keys)
  {
  }

  lemma OnlyLostByStore(m: map<Key, Value>, after: map<Key, Value>, gone: set<Key>, k: Key, v: Value)
    requires after == (m - gone)[k := v]
    ensures after == (m - (m.Keys - after.Keys))[k := v]
  {
  }

  /** Every operation only loses keys, but for the value a store puts in. */
  lemma StepIsLossy(d: seq<Entry>, lim: Limits, op: Op)
    requires DistinctKeys(d)
    ensures Contents(Step(d, lim, op))
         == if op.Set? then (Contents(d) - Lost(d, lim, op))[op.key := op.value] else Contents(d) - Lost(d, lim, op)
  {
    var m, after := Contents(d), Contents(Step(d, lim, op));
    match op
    case Get(k, now) =>
      GetIsLossyLookup(d, k, now);
      OnlyLost(m, after, if Has(d, k) && Expired(Find(d, k).value, now) then {k} else {});
    case Set(k, v, size, ttl, now) =>
      SetIsLossyStore(d, lim, k, v, size, ttl, now);
      OnlyLostByStore(m, after, m.Keys - Contents(Evict(d, lim, size)).Keys, k, v);
    case Delete(k) =>
      ContentsRemove(d, k);
      OnlyLost(m, after, {k});
    case Exists(k, now) =>
      ContentsRemove(d, k);
      assert m - {} == m;
      OnlyLost(m, after, if after == m then {} else {k});
    case Clear =>
      OnlyLost(m, after, m.Keys);
    case CleanupExpired(now) =>
      ContentsFilter(d, LiveAt(now));
      assert after == m - (m.Keys - after.Keys);
  }
}
