/** Eviction strategies (src/distributed_cluster/cache/strategies.py: LRU, LFU and segmented LRU).
    Each tracks keys with a score, the last access or the frequency, in an insertion-ordered
    dictionary; the lowest score goes first, ties in dictionary order. */
module EvictionStrategies {
  import opened Common
  import opened OrderedDict

  type Scores = seq<Item<real>>

  function ByScore(): Item<real> -> real {
    (e: Item<real>) => e.val
  }

  function Keys(d: Scores): seq<Key> {
    seq(|d|, i requires 0 <= i < |d| => d[i].key)
  }

  /** `min(d, key=d.get)`: the first entry with the least score. */
  function MinItem(d: Scores): Item<real>
    requires d != []
  {
    if |d| == 1 then d[0]
    else
      var m := MinItem(d[1..]);
      if d[0].val <= m.val then d[0] else m
  }

  /** The entry at `i` has the least score, and of several the first in dictionary order. */
  ghost predicate FirstLeast(d: Scores, i: nat) {
    && i < |d|
    && (forall j :: 0 <= j < |d| ==> d[i].val <= d[j].val)
    && (forall j :: 0 <= j < i ==> d[i].val < d[j].val)
  }

  lemma FirstLeastCons(d: Scores, i: nat)
    requires d != [] && FirstLeast(d[1..], i)
    ensures d[0].val <= d[1..][i].val ==> FirstLeast(d, 0)
    ensures d[0].val > d[1..][i].val ==> FirstLeast(d, i + 1)
  {
    assert forall j :: 1 <= j < |d| ==> d[j] == d[1..][j - 1];
  }

  lemma {:induction false} MinItemExactly(d: Scores) returns (i: nat)
    requires d != []
    ensures FirstLeast(d, i) && MinItem(d) == d[i]
  {
    if |d| == 1 {
      i := 0;
    } else {
      var i' := MinItemExactly(d[1..]);
      FirstLeastCons(d, i');
      i := if d[0].val <= d[1..][i'].val then 0 else i' + 1;
    }
  }

  /** `select_victim` of one tracking dictionary. */
  function Victim(d: Scores): Option<Key> {
    if d == [] then None else Some(MinItem(d).key)
  }

  function FirstN<T>(s: seq<T>, n: nat): seq<T> {
    if n <= |s| then s[..n] else s
  }

  /** `select_victims` of one tracking dictionary. */
  function Victims(d: Scores, n: nat): seq<Key> {
    FirstN(Keys(StableSort(d, ByScore())), n)
  }

  /** Selecting one victim and deleting it, `n` times or until nothing is left. */
  function Repeated(d: Scores, n: nat): seq<Key>
    decreases n
  {
    if n == 0 || d == [] then [] else [MinItem(d).key] + Repeated(Remove(d, MinItem(d).key), n - 1)
  }

  lemma {:induction false} SortHeadIsMin(d: Scores)
    requires d != []
    ensures |StableSort(d, ByScore())| == |d| && StableSort(d, ByScore())[0] == MinItem(d)
  {
    SortMultiset(d, ByScore());
    if |d| == 1 {
      assert d[1..] == [];
    } else {
      SortHeadIsMin(d[1..]);
    }
  }

  lemma {:induction false} InsertDistinct(e: Item<real>, r: Scores)
    requires DistinctKeys(r) && forall x :: x in r ==> x.key != e.key
    ensures DistinctKeys(InsertBefore(e, r, ByScore()))
  {
    if !(r == [] || e.val <= r[0].val) {
      InsertDistinct(e, r[1..]);
      var t := InsertBefore(e, r[1..], ByScore());
      assert r[0] in r;
      forall x | x in t ensures x.key != r[0].key {
        InsertMembers(e, r[1..], ByScore(), x);
      }
    }
  }

  lemma {:induction false} SortDistinct(d: Scores)
    requires DistinctKeys(d)
    ensures DistinctKeys(StableSort(d, ByScore()))
  {
    if d == [] {
    } else {
      SortDistinct(d[1..]);
      SortMultiset(d[1..], ByScore());
      InsertDistinct(d[0], StableSort(d[1..], ByScore()));
    }
  }

  /** Deleting the first victim leaves the sorted order of the others. */
  lemma RemoveVictim(d: Scores)
    requires DistinctKeys(d) && d != []
    ensures |StableSort(d, ByScore())| == |d|
    ensures StableSort(Remove(d, MinItem(d).key), ByScore()) == StableSort(d, ByScore())[1..]
  {
    var t, k := StableSort(d, ByScore()), MinItem(d).key;
    SortHeadIsMin(d);
    SortDistinct(d);
    SortFilter(d, ByScore(), KeyOtherThan(k));
    FilterAll(t[1..], KeyOtherThan(k));
  }

  lemma FirstNKeys(t: Scores, n: nat)
    requires n > 0 && t != []
    ensures FirstN(Keys(t), n) == [t[0].key] + FirstN(Keys(t[1..]), n - 1)
  {
    assert Keys(t) == [t[0].key] + Keys(t[1..]);
  }

  lemma VictimsHead(d: Scores, n: nat)
    requires DistinctKeys(d) && d != [] && n > 0
    ensures Victims(d, n) == [MinItem(d).key] + Victims(Remove(d, MinItem(d).key), n - 1)
  {
    RemoveVictim(d);
    SortHeadIsMin(d);
    FirstNKeys(StableSort(d, ByScore()), n);
  }

  /** Main result for LRU and LFU: the batch is exactly what repeated single evictions produce,
      in the same order, ties included. */
  lemma {:induction false} BatchIsRepeated(d: Scores, n: nat)
    requires DistinctKeys(d)
    ensures Victims(d, n) == Repeated(d, n)
    decreases n
  {
    if n == 0 || d == [] {
      SortMultiset(d, ByScore());
    } else {
      VictimsHead(d, n);
      FilterDistinctKeys(d, KeyOtherThan(MinItem(d).key));
      BatchIsRepeated(Remove(d, MinItem(d).key), n - 1);
    }
  }

  lemma {:induction false} HasAssign(d: Scores, k: Key, v: real, x: Key)
    ensures Has(Assign(d, k, v), x) <==> Has(d, x) || x == k
  {
    if d == [] {
      assert [Item(k, v)][1..] == [];
    } else if d[0].key == k {
      assert Assign(d, k, v)[1..] == d[1..];
    } else {
      HasAssign(d[1..], k, v, x);
      assert Assign(d, k, v)[1..] == Assign(d[1..], k, v);
    }
  }

  lemma {:induction false} AssignDistinct(d: Scores, k: Key, v: real)
    requires DistinctKeys(d)
    ensures DistinctKeys(Assign(d, k, v))
  {
    if d == [] || d[0].key == k {
    } else {
      AssignDistinct(d[1..], k, v);
      HasAssign(d[1..], k, v, d[0].key);
      FindMember(d[1..], d[0].key);
      FindMember(Assign(d[1..], k, v), d[0].key);
    }
  }

  // ----- LRU and LFU -----

  datatype Event = Use(key: Key, stamp: real) | Forget(key: Key)

  function Tracking(events: seq<Event>): Scores {
    if events == [] then []
    else
      var d := Tracking(events[..|events| - 1]);
      match events[|events| - 1]
      case Use(k, t) => Assign(d, k, t)
      case Forget(k) => Remove(d, k)
  }

  /** The stamp of the last use of the key, if it has not been deleted since. */
  function LastStamp(events: seq<Event>, k: Key): Option<real> {
    if events == [] then None
    else
      var last := events[|events| - 1];
      if last.key != k then LastStamp(events[..|events| - 1], k) else if last.Use? then Some(last.stamp) else None
  }

  lemma {:induction false} TrackingExactly(events: seq<Event>, k: Key)
    ensures DistinctKeys(Tracking(events))
    ensures Find(Tracking(events), k)
         == if LastStamp(events, k).Some? then Some(Item(k, LastStamp(events, k).value)) else None
  {
    if events == [] {
    } else {
      var before := events[..|events| - 1];
      var d := Tracking(before);
      TrackingExactly(before, k);
      match events[|events| - 1] {
        case Use(x, t) =>
          AssignDistinct(d, x, t);
          AssignFinds(d, x, t, k);
        case Forget(x) =>
          FilterDistinctKeys(d, KeyOtherThan(x));
          RemoveFinds(d, x, k);
      }
    }
  }

  /** Main result for LRU over whole runs: the victim is a tracked key whose last use is the earliest
      of all tracked keys'. */
  lemma VictimIsLeastRecent(events: seq<Event>, x: Key)
    requires LastStamp(events, x).Some?
    ensures var v := Victim(Tracking(events));
            && v.Some? && LastStamp(events, v.value).Some?
            && LastStamp(events, v.value).value <= LastStamp(events, x).value
  {
    var d := Tracking(events);
    TrackingExactly(events, x);
    FindMember(d, x);
    var i := MinItemExactly(d);
    var v := MinItem(d);
    TrackingExactly(events, v.key);
    FindUnique(d, v);
    var j :| 0 <= j < |d| && d[j] == Find(d, x).value;
    assert v.val <= d[j].val;
  }

  class LruStrategy {
    var accessOrder: Scores

    ghost predicate Valid()
      reads this
    {
      DistinctKeys(accessOrder)
    }

    constructor ()
      ensures Valid() && accessOrder == []
    {
      accessOrder := [];
    }

    /** `on_access` stamps the item with the current time, `on_insert` takes its own stamp. */
    method OnUse(key: Key, lastAccessed: real)
      requires Valid()
      modifies this
      ensures Valid() && accessOrder == Assign(old(accessOrder), key, lastAccessed)
    {
      AssignDistinct(accessOrder, key, lastAccessed);
      accessOrder := Assign(accessOrder, key, lastAccessed);
    }

    method OnDelete(key: Key)
      requires Valid()
      modifies this
      ensures Valid() && accessOrder == Remove(old(accessOrder), key)
    {
      FilterDistinctKeys(accessOrder, KeyOtherThan(key));
      accessOrder := Remove(accessOrder, key);
    }

    method SelectVictims(n: nat) returns (victims: seq<Key>)
      requires Valid()
      ensures victims == Repeated(accessOrder, n)
    {
      BatchIsRepeated(accessOrder, n);
      victims := Victims(accessOrder, n);
    }
  }

  const DECAY_INTERVAL := 60.0

  function Scaled(score: real, factor: real): real {
    score * factor
  }

  function Decayed(d: Scores, factor: real): Scores {
    seq(|d|, i requires 0 <= i < |d| => Item(d[i].key, Scaled(d[i].val, factor)))
  }

  /** One more access; an unknown key starts from 0. */
  function Counted(d: Scores, k: Key): Scores {
    Assign(d, k, (if Has(d, k) then Find(d, k).value.val else 0.0) + 1.0)
  }

  lemma ScaledOrder(a: real, b: real, factor: real)
    requires factor > 0.0
    ensures a <= b <==> Scaled(a, factor) <= Scaled(b, factor)
  {
    if a <= b {
      assert (b - a) * factor >= 0.0;
    } else {
      assert (a - b) * factor > 0.0;
    }
  }

  lemma {:induction false} DecayedInsert(e: Item<real>, r: Scores, factor: real)
    requires factor > 0.0
    ensures InsertBefore(Item(e.key, Scaled(e.val, factor)), Decayed(r, factor), ByScore())
         == Decayed(InsertBefore(e, r, ByScore()), factor)
  {
    if r == [] {
    } else {
      ScaledOrder(e.val, r[0].val, factor);
      assert Decayed(r, factor)[1..] == Decayed(r[1..], factor);
      if e.val > r[0].val {
        DecayedInsert(e, r[1..], factor);
      }
    }
  }

  lemma {:induction false} DecayedSort(d: Scores, factor: real)
    requires factor > 0.0
    ensures StableSort(Decayed(d, factor), ByScore()) == Decayed(StableSort(d, ByScore()), factor)
  {
    if d == [] {
    } else {
      assert Decayed(d, factor)[1..] == Decayed(d[1..], factor);
      DecayedSort(d[1..], factor);
      DecayedInsert(d[0], StableSort(d[1..], ByScore()), factor);
    }
  }

  lemma {:induction false} DecayedFinds(d: Scores, factor: real, k: Key)
    ensures Find(Decayed(d, factor), k)
         == if Has(d, k) then Some(Item(k, Scaled(Find(d, k).value.val, factor))) else None
  {
    if d == [] {
    } else {
      assert Decayed(d, factor)[1..] == Decayed(d[1..], factor);
      DecayedFinds(d[1..], factor, k);
    }
  }

  datatype Count = Hit(key: Key) | Start(key: Key) | Drop(key: Key) | Scale(factor: real)

  function Counts(events: seq<Count>): Scores {
    if events == [] then []
    else
      var d := Counts(events[..|events| - 1]);
      match events[|events| - 1]
      case Hit(k) => Counted(d, k)
      case Start(k) => Assign(d, k, 1.0)
      case Drop(k) => Remove(d, k)
      case Scale(f) => Decayed(d, f)
  }

  function Shrunk(frequency: real, factor: real): real {
    frequency * factor
  }

  /** One more for every access since the key was inserted with 1 or first seen, each scaled by the
      decays after it. */
  function Frequency(events: seq<Count>, k: Key): Option<real> {
    if events == [] then None
    else
      var f := Frequency(events[..|events| - 1], k);
      match events[|events| - 1]
      case Hit(x) => if x != k then f else Some(1.0 + if f.Some? then f.value else 0.0)
      case Start(x) => if x != k then f else Some(1.0)
      case Drop(x) => if x != k then f else None
      case Scale(factor) => if f.Some? then Some(Shrunk(f.value, factor)) else None
  }

  /** The dictionary has this score for the key, or does not have the key. */
  predicate Holds(d: Scores, k: Key, score: Option<real>) {
    Find(d, k) == if score.Some? then Some(Item(k, score.value)) else None
  }

  lemma HitHolds(d: Scores, x: Key, fx: Option<real>, k: Key, f: Option<real>)
    requires DistinctKeys(d) && Holds(d, x, fx) && Holds(d, k, f)
    ensures DistinctKeys(Counted(d, x))
    ensures Holds(Counted(d, x), k, if x == k then Some(1.0 + if fx.Some? then fx.value else 0.0) else f)
  {
    var v := (if Has(d, x) then Find(d, x).value.val else 0.0) + 1.0;
    AssignDistinct(d, x, v);
    AssignFinds(d, x, v, k);
  }

  lemma ScaleHolds(d: Scores, factor: real, k: Key, f: Option<real>)
    requires DistinctKeys(d) && Holds(d, k, f)
    ensures DistinctKeys(Decayed(d, factor))
    ensures Holds(Decayed(d, factor), k, if f.Some? then Some(Shrunk(f.value, factor)) else None)
  {
    DecayedFinds(d, factor, k);
    if f.Some? {
      assert Scaled(f.value, factor) == Shrunk(f.value, factor);
    }
  }

  /** The LFU dictionary holds exactly these frequencies. */
  lemma {:induction false} CountsExactly(events: seq<Count>, k: Key)
    ensures DistinctKeys(Counts(events)) && Holds(Counts(events), k, Frequency(events, k))
  {
    if events == [] {
    } else {
      var before := events[..|events| - 1];
      var d, f := Counts(before), Frequency(before, k);
      CountsExactly(before, k);
      match events[|events| - 1] {
        case Hit(x) =>
          CountsExactly(before, x);
          HitHolds(d, x, Frequency(before, x), k, f);
        case Start(x) =>
          AssignDistinct(d, x, 1.0);
          AssignFinds(d, x, 1.0, k);
        case Drop(x) =>
          FilterDistinctKeys(d, KeyOtherThan(x));
          RemoveFinds(d, x, k);
        case Scale(factor) => ScaleHolds(d, factor, k, f);
      }
    }
  }

  /** Main result for LFU over whole runs: the victim is a tracked key used least. */
  lemma VictimIsLeastFrequent(events: seq<Count>, x: Key)
    requires Frequency(events, x).Some?
    ensures var v := Victim(Counts(events));
            && v.Some? && Frequency(events, v.value).Some?
            && Frequency(events, v.value).value <= Frequency(events, x).value
  {
    var d := Counts(events);
    CountsExactly(events, x);
    FindMember(d, x);
    var i := MinItemExactly(d);
    var v := MinItem(d);
    CountsExactly(events, v.key);
    FindUnique(d, v);
    var j :| 0 <= j < |d| && d[j] == Find(d, x).value;
    assert v.val <= d[j].val;
  }

  /** A positive decay factor changes no victim. */
  lemma DecayKeepsVictims(d: Scores, factor: real, n: nat)
    requires factor > 0.0
    ensures Victims(Decayed(d, factor), n) == Victims(d, n)
  {
    DecayedSort(d, factor);
    assert Keys(Decayed(StableSort(d, ByScore()), factor)) == Keys(StableSort(d, ByScore()));
  }

  class LfuStrategy {
    const decayFactor: real
    var frequencies: Scores
    var lastDecay: real

    ghost predicate Valid()
      reads this
    {
      DistinctKeys(frequencies)
    }

    constructor (now: real, decayFactor: real := 0.99)
      ensures Valid() && frequencies == [] && lastDecay == now && this.decayFactor == decayFactor
    {
      this.decayFactor, frequencies, lastDecay := decayFactor, [], now;
    }

    method MaybeDecay(now: real)
      requires Valid()
      modifies this
      ensures Valid()
      ensures frequencies == if now - old(lastDecay) > 60.0 then Decayed(old(frequencies), decayFactor)
                             else old(frequencies)
      ensures lastDecay == if now - old(lastDecay) > 60.0 then now else old(lastDecay)
    {
      if now - lastDecay > DECAY_INTERVAL {
        frequencies := Decayed(frequencies, decayFactor);
        lastDecay := now;
      }
    }

    method OnAccess(key: Key, now: real)
      requires Valid()
      modifies this
      ensures Valid()
      ensures frequencies == Counted(if now - old(lastDecay) <= 60.0 then old(frequencies)
                                     else Decayed(old(frequencies), decayFactor), key)
      ensures lastDecay == if now - old(lastDecay) > 60.0 then now else old(lastDecay)
    {
      MaybeDecay(now);
      var found := Find(frequencies, key);
      var count := if found.Some? then found.value.val else 0.0;
      AssignDistinct(frequencies, key, count + 1.0);
      frequencies := Assign(frequencies, key, count + 1.0);
    }

    method OnInsert(key: Key)
      requires Valid()
      modifies this`frequencies
      ensures Valid() && frequencies == Assign(old(frequencies), key, 1.0)
    {
      AssignDistinct(frequencies, key, 1.0);
      frequencies := Assign(frequencies, key, 1.0);
    }

    method OnDelete(key: Key)
      requires Valid()
      modifies this`frequencies
      ensures Valid() && frequencies == Remove(old(frequencies), key)
    {
      FilterDistinctKeys(frequencies, KeyOtherThan(key));
      frequencies := Remove(frequencies, key);
    }

    method SelectVictims(n: nat) returns (victims: seq<Key>)
      requires Valid()
      ensures victims == Repeated(frequencies, n)
    {
      BatchIsRepeated(frequencies, n);
      victims := Victims(frequencies, n);
    }
  }

  // ----- segmented LRU -----

  datatype Segments = Segments(probationary: Scores, protected: Scores)

  datatype Op = Access(key: Key, now: real) | Insert(key: Key, stamp: real) | Delete(key: Key)

  function Step(s: Segments, op: Op): Segments {
    match op
    case Access(k, now) =>
      if Has(s.probationary, k) then Segments(Remove(s.probationary, k), Assign(s.protected, k, now))
      else if Has(s.protected, k) then s.(protected := Assign(s.protected, k, now))
      else s
    case Insert(k, stamp) => s.(probationary := Assign(s.probationary, k, stamp))
    case Delete(k) => Segments(Remove(s.probationary, k), Remove(s.protected, k))
  }

  function After(ops: seq<Op>): Segments {
    if ops == [] then Segments([], []) else Step(After(ops[..|ops| - 1]), ops[|ops| - 1])
  }

  /** Inserted and not deleted since. */
  function Tracked(ops: seq<Op>): set<Key> {
    if ops == [] then {}
    else
      match ops[|ops| - 1]
      case Insert(k, _) => Tracked(ops[..|ops| - 1]) + {k}
      case Delete(k) => Tracked(ops[..|ops| - 1]) - {k}
      case Access(_, _) => Tracked(ops[..|ops| - 1])
  }

  ghost predicate Ordered(s: Segments) {
    DistinctKeys(s.probationary) && DistinctKeys(s.protected)
  }

  ghost predicate Disjoint(s: Segments) {
    forall k :: Has(s.probationary, k) ==> !Has(s.protected, k)
  }

  lemma HasMember(d: Scores, k: Key)
    ensures Has(d, k) <==> exists e :: e in d && e.key == k
  {
    FindMember(d, k);
  }

  lemma HasRemove(d: Scores, k: Key, x: Key)
    ensures Has(Remove(d, k), x) <==> Has(d, x) && x != k
  {
    HasMember(d, x);
    HasMember(Remove(d, k), x);
    FilterMembers(d, KeyOtherThan(k));
  }

  lemma StepHas(s: Segments, op: Op, x: Key)
    requires Ordered(s)
    ensures Ordered(Step(s, op))
    ensures Has(Step(s, op).probationary, x) <==>
              (match op
               case Access(k, _) => Has(s.probationary, x) && x != k
               case Insert(k, _) => Has(s.probationary, x) || x == k
               case Delete(k) => Has(s.probationary, x) && x != k)
    ensures Has(Step(s, op).protected, x) <==>
              (match op
               case Access(k, _) => Has(s.protected, x) || (x == k && Has(s.probationary, k))
               case Insert(k, _) => Has(s.protected, x)
               case Delete(k) => Has(s.protected, x) && x != k)
  {
    FilterDistinctKeys(s.probationary, KeyOtherThan(op.key));
    FilterDistinctKeys(s.protected, KeyOtherThan(op.key));
    HasRemove(s.probationary, op.key, x);
    HasRemove(s.protected, op.key, x);
    match op
    case Access(k, now) =>
      AssignDistinct(s.protected, k, now);
      HasAssign(s.protected, k, now, x);
    case Insert(k, stamp) =>
      AssignDistinct(s.probationary, k, stamp);
      HasAssign(s.probationary, k, stamp, x);
    case Delete(k) =>
  }

  /** In every run the two segments together track exactly the inserted, undeleted keys. */
  lemma {:induction false} TracksExactly(ops: seq<Op>, x: Key)
    ensures Ordered(After(ops))
    ensures Has(After(ops).probationary, x) || Has(After(ops).protected, x) <==> x in Tracked(ops)
  {
    if ops == [] {
    } else {
      TracksExactly(ops[..|ops| - 1], x);
      StepHas(After(ops[..|ops| - 1]), ops[|ops| - 1], x);
    }
  }

  /** What each segment holds for a key after an operation: an access moves it from probation to the
      protected segment, or restamps it there, and an insertion stamps it on probation. */
  lemma StepFinds(s: Segments, op: Op, x: Key)
    requires Ordered(s)
    ensures Find(Step(s, op).probationary, x)
         == match op
            case Access(k, _) => if x == k then None else Find(s.probationary, x)
            case Insert(k, t) => if x == k then Some(Item(k, t)) else Find(s.probationary, x)
            case Delete(k) => if x == k then None else Find(s.probationary, x)
    ensures Find(Step(s, op).protected, x)
         == match op
            case Access(k, t) => if x == k && (Has(s.probationary, k) || Has(s.protected, k)) then Some(Item(k, t))
                                 else Find(s.protected, x)
            case Insert(_, _) => Find(s.protected, x)
            case Delete(k) => if x == k then None else Find(s.protected, x)
  {
    RemoveFinds(s.probationary, op.key, x);
    RemoveFinds(s.protected, op.key, x);
    match op
    case Access(k, t) => AssignFinds(s.protected, k, t, x);
    case Insert(k, t) => AssignFinds(s.probationary, k, t, x);
    case Delete(k) =>
  }

  /** One operation keeps disjoint segments disjoint exactly when it does not insert a key that
      sits in the protected segment. */
  lemma StepDisjointExactly(s: Segments, op: Op)
    requires Ordered(s) && Disjoint(s)
    ensures Disjoint(Step(s, op)) <==> !(op.Insert? && Has(s.protected, op.key))
  {
    StepHas(s, op, op.key);
    forall x | x != op.key ensures !(Has(Step(s, op).probationary, x) && Has(Step(s, op).protected, x)) {
      StepHas(s, op, x);
    }
  }

  /** No step of the run inserts a key that is protected at that moment. */
  ghost predicate NeverReinsertsProtected(ops: seq<Op>) {
    ops == []
    || (var before, last := ops[..|ops| - 1], ops[|ops| - 1];
        NeverReinsertsProtected(before) && !(last.Insert? && Has(After(before).protected, last.key)))
  }

  /** The segments are disjoint after every step of the run. */
  ghost predicate AlwaysDisjoint(ops: seq<Op>) {
    Disjoint(After(ops)) && (ops == [] || AlwaysDisjoint(ops[..|ops| - 1]))
  }

  /** The segments stay disjoint all along a run exactly when it never inserts a key that is
      protected at that moment. */
  lemma {:induction false} RunDisjointExactly(ops: seq<Op>)
    ensures AlwaysDisjoint(ops) <==> NeverReinsertsProtected(ops)
  {
    if ops == [] {
    } else {
      var before, last := ops[..|ops| - 1], ops[|ops| - 1];
      RunDisjointExactly(before);
      TracksExactly(before, last.key);
      if Disjoint(After(before)) {
        StepDisjointExactly(After(before), last);
      }
    }
  }

  function SegmentVictim(s: Segments): Option<Key> {
    if s.probationary != [] then Victim(s.probationary) else Victim(s.protected)
  }

  /** How many protected victims a batch of `n` takes. */
  function FromProtected(s: Segments, n: nat): nat {
    if |s.probationary| < n then n - |s.probationary| else 0
  }

  /** Probationary victims first, then protected ones up to `n` in all. */
  function SegmentVictims(s: Segments, n: nat): seq<Key> {
    Victims(s.probationary, n) + Victims(s.protected, FromProtected(s, n))
  }

  function SegmentRepeated(s: Segments, n: nat): seq<Key>
    decreases n
  {
    if n == 0 || SegmentVictim(s).None? then []
    else [SegmentVictim(s).value] + SegmentRepeated(Step(s, Delete(SegmentVictim(s).value)), n - 1)
  }

  lemma MinItemIn(d: Scores)
    requires d != []
    ensures Has(d, MinItem(d).key)
  {
    SortHeadIsMin(d);
    SortMultiset(d, ByScore());
    assert StableSort(d, ByScore())[0] in StableSort(d, ByScore());
    HasMember(d, MinItem(d).key);
  }

  lemma VictimsLength(d: Scores, n: nat)
    ensures |Victims(d, n)| == Min(n, |d|)
  {
    SortMultiset(d, ByScore());
  }

  lemma {:induction false} ProtectedOnly(s: Segments, n: nat)
    requires s.probationary == []
    ensures SegmentRepeated(s, n) == Repeated(s.protected, n)
    decreases n
  {
    if n == 0 || s.protected == [] {
    } else {
      ProtectedOnly(Step(s, Delete(MinItem(s.protected).key)), n - 1);
    }
  }

  lemma {:induction false} RepeatedFrom(s: Segments, n: nat)
    requires Ordered(s)
    ensures forall k :: k in SegmentRepeated(s, n) ==> Has(s.probationary, k) || Has(s.protected, k)
    decreases n
  {
    if n == 0 || SegmentVictim(s).None? {
    } else {
      var v := SegmentVictim(s).value;
      MinItemIn(if s.probationary != [] then s.probationary else s.protected);
      StepHas(s, Delete(v), v);
      RepeatedFrom(Step(s, Delete(v)), n - 1);
      forall k | k in SegmentRepeated(Step(s, Delete(v)), n - 1) ensures Has(s.probationary, k) || Has(s.protected, k) {
        StepHas(s, Delete(v), k);
      }
    }
  }

  /** A victim is not evicted again by the rounds that follow its deletion. */
  lemma VictimGoneForGood(s: Segments, k: Key, n: nat)
    requires Ordered(s)
    ensures k !in SegmentRepeated(Step(s, Delete(k)), n)
  {
    StepHas(s, Delete(k), k);
    RepeatedFrom(Step(s, Delete(k)), n);
  }

  lemma {:induction false} FirstNWithout(t: Scores, k: Key, m: nat)
    requires k !in FirstN(Keys(t), m)
    ensures FirstN(Keys(Remove(t, k)), m) == FirstN(Keys(t), m)
  {
    if m == 0 || t == [] {
    } else {
      FirstNKeys(t, m);
      FirstNWithout(t[1..], k, m - 1);
      assert Remove(t, k) == [t[0]] + Remove(t[1..], k);
      FirstNKeys(Remove(t, k), m);
    }
  }

  /** Deleting a key that is not among the first `m` victims does not change them. */
  lemma VictimsWithout(d: Scores, k: Key, m: nat)
    requires k !in Victims(d, m)
    ensures Victims(Remove(d, k), m) == Victims(d, m)
  {
    SortFilter(d, ByScore(), KeyOtherThan(k));
    FirstNWithout(StableSort(d, ByScore()), k, m);
  }

  /** No protected victim of the batch is on probation as well. */
  ghost predicate NoneTwice(s: Segments, n: nat) {
    forall k :: k in Victims(s.protected, FromProtected(s, n)) ==> !Has(s.probationary, k)
  }

  lemma BatchHead(s: Segments, n: nat)
    requires Ordered(s) && s.probationary != [] && n > 0
    ensures var k := MinItem(s.probationary).key;
            && SegmentVictims(s, n) == [k] + SegmentVictims(Segments(Remove(s.probationary, k), s.protected), n - 1)
            && FromProtected(s, n) == FromProtected(Step(s, Delete(k)), n - 1)
  {
    var d, k := s.probationary, MinItem(s.probationary).key;
    MinItemIn(d);
    RemovePresent(d, k);
    VictimsHead(d, n);
    var first, rest := Victims(Remove(d, k), n - 1), Victims(s.protected, FromProtected(s, n));
    assert [k] + first + rest == [k] + (first + rest);
  }

  /** The batch and repeated eviction both start with the probationary victim. */
  lemma SegmentHeads(s: Segments, n: nat)
    requires Ordered(s) && s.probationary != [] && n > 0
    ensures var k := MinItem(s.probationary).key;
            && SegmentVictims(s, n) == [k] + SegmentVictims(Segments(Remove(s.probationary, k), s.protected), n - 1)
            && SegmentRepeated(s, n) == [k] + SegmentRepeated(Step(s, Delete(k)), n - 1)
            && FromProtected(s, n) == FromProtected(Step(s, Delete(k)), n - 1)
  {
    BatchHead(s, n);
  }

  lemma SameTails(k: Key, a: seq<Key>, b: seq<Key>)
    ensures [k] + a == [k] + b <==> a == b
  {
    assert ([k] + a)[1..] == a && ([k] + b)[1..] == b;
  }

  /** The victim is protected too and the batch reaches it there: it is listed twice. */
  lemma TwiceInBatch(s: Segments, n: nat)
    requires Ordered(s) && s.probationary != [] && n > 0
    requires MinItem(s.probationary).key in Victims(s.protected, FromProtected(s, n))
    ensures !NoneTwice(s, n) && SegmentVictims(s, n) != SegmentRepeated(s, n)
  {
    var k := MinItem(s.probationary).key;
    var rest := Segments(Remove(s.probationary, k), s.protected);
    var batch, rounds := SegmentVictims(rest, n - 1), SegmentRepeated(Step(s, Delete(k)), n - 1);
    MinItemIn(s.probationary);
    assert !NoneTwice(s, n);
    SegmentHeads(s, n);
    assert k in batch by {
      RemovePresent(s.probationary, k);
    }
    assert k !in rounds by {
      VictimGoneForGood(s, k, n - 1);
    }
    SameTails(k, batch, rounds);
  }

  lemma NoneTwiceAfter(s: Segments, n: nat, k: Key)
    requires Ordered(s) && s.probationary != [] && n > 0 && k == MinItem(s.probationary).key
    requires k !in Victims(s.protected, FromProtected(s, n))
    ensures NoneTwice(s, n) <==> NoneTwice(Step(s, Delete(k)), n - 1)
  {
    SegmentHeads(s, n);
    VictimsWithout(s.protected, k, FromProtected(s, n));
    forall x | x != k ensures Has(s.probationary, x) <==> Has(Remove(s.probationary, k), x) {
      HasRemove(s.probationary, k, x);
    }
  }

  lemma BatchAfter(s: Segments, n: nat, k: Key)
    requires Ordered(s) && s.probationary != [] && n > 0 && k == MinItem(s.probationary).key
    requires k !in Victims(s.protected, FromProtected(s, n))
    ensures SegmentVictims(Segments(Remove(s.probationary, k), s.protected), n - 1)
         == SegmentVictims(Step(s, Delete(k)), n - 1)
  {
    SegmentHeads(s, n);
    VictimsWithout(s.protected, k, FromProtected(s, n));
  }

  lemma SameRests(s: Segments, n: nat)
    requires Ordered(s) && s.probationary != [] && n > 0
    requires MinItem(s.probationary).key !in Victims(s.protected, FromProtected(s, n))
    ensures var s' := Step(s, Delete(MinItem(s.probationary).key));
            SegmentVictims(s, n) == SegmentRepeated(s, n) <==> SegmentVictims(s', n - 1) == SegmentRepeated(s', n - 1)
  {
    var k := MinItem(s.probationary).key;
    SegmentHeads(s, n);
    BatchAfter(s, n, k);
    SameTails(k, SegmentVictims(Step(s, Delete(k)), n - 1), SegmentRepeated(Step(s, Delete(k)), n - 1));
  }

  lemma ProtectedBatch(s: Segments, n: nat)
    requires Ordered(s) && s.probationary == [] && n > 0
    ensures SegmentVictims(s, n) == SegmentRepeated(s, n) && NoneTwice(s, n)
  {
    ProtectedOnly(s, n);
    VictimsLength(s.protected, n);
    BatchIsRepeated(s.protected, n);
    assert [] + Victims(s.protected, n) == Victims(s.protected, n);
  }

  /** Main result for segmented LRU: the batch is what repeated single evictions produce exactly
      when none of the protected victims it takes is on probation as well. */
  lemma {:induction false} SegmentBatchExactly(s: Segments, n: nat)
    requires Ordered(s)
    ensures SegmentVictims(s, n) == SegmentRepeated(s, n) <==> NoneTwice(s, n)
    decreases n
  {
    if n == 0 {
      VictimsLength(s.protected, 0);
    } else if s.probationary == [] {
      ProtectedBatch(s, n);
    } else {
      var k := MinItem(s.probationary).key;
      if k in Victims(s.protected, FromProtected(s, n)) {
        TwiceInBatch(s, n);
      } else {
        var s' := Step(s, Delete(k));
        StepHas(s, Delete(k), k);
        SegmentBatchExactly(s', n - 1);
        NoneTwiceAfter(s, n, k);
        SameRests(s, n);
      }
    }
  }

  lemma VictimsMember(d: Scores, n: nat, k: Key)
    ensures k in Victims(d, n) ==> Has(d, k)
    ensures n >= |d| && Has(d, k) ==> k in Victims(d, n)
  {
    var t := StableSort(d, ByScore());
    SortMultiset(d, ByScore());
    HasMember(d, k);
    if k in Victims(d, n) {
      var i :| 0 <= i < |Victims(d, n)| && Victims(d, n)[i] == k;
      assert t[i] in t;
    }
    if n >= |d| && Has(d, k) {
      var e :| e in d && e.key == k;
      var i :| 0 <= i < |t| && t[i] == e;
      assert Keys(t)[i] == k;
    }
  }

  /** In particular with disjoint segments. */
  lemma SegmentBatchIsRepeated(s: Segments, n: nat)
    requires Ordered(s) && Disjoint(s)
    ensures SegmentVictims(s, n) == SegmentRepeated(s, n)
  {
    forall k | k in Victims(s.protected, FromProtected(s, n)) ensures !Has(s.probationary, k) {
      VictimsMember(s.protected, FromProtected(s, n), k);
    }
    SegmentBatchExactly(s, n);
  }

  /** So batches of every size agree with repeated eviction exactly when the segments are
      disjoint. */
  lemma SegmentBatchesAgreeExactly(s: Segments)
    requires Ordered(s)
    ensures (forall n: nat :: SegmentVictims(s, n) == SegmentRepeated(s, n)) <==> Disjoint(s)
  {
    if Disjoint(s) {
      forall n: nat ensures SegmentVictims(s, n) == SegmentRepeated(s, n) {
        SegmentBatchIsRepeated(s, n);
      }
    } else {
      var k :| Has(s.probationary, k) && Has(s.protected, k);
      var n := |s.probationary| + |s.protected|;
      VictimsMember(s.protected, |s.protected|, k);
      SegmentBatchExactly(s, n);
    }
  }

  /** Disjointness is needed: a protected key inserted again is listed twice by the batch and
      evicted once by hand. */
  lemma ReinsertedKeyListedTwice()
    ensures var ops := [Insert("a", 1.0), Access("a", 2.0), Insert("a", 3.0)];
            && After(ops) == Segments([Item("a", 3.0)], [Item("a", 2.0)])
            && SegmentVictims(After(ops), 2) == ["a", "a"]
            && SegmentRepeated(After(ops), 2) == ["a"]
  {
    var ops := [Insert("a", 1.0), Access("a", 2.0), Insert("a", 3.0)];
    assert ops[..2] == [ops[0], ops[1]] && ops[..2][..1] == [ops[0]] && [ops[0]][..0] == [];
    assert After([ops[0]]) == Segments([Item("a", 1.0)], []);
    assert After(ops[..2]) == Segments([], [Item("a", 2.0)]);
    var s := Segments([Item("a", 3.0)], [Item("a", 2.0)]);
    assert After(ops) == s;
    SortOfSorted(s.probationary, ByScore());
    SortOfSorted(s.protected, ByScore());
    assert Victims(s.probationary, 2) == ["a"] && Victims(s.protected, 1) == ["a"];
    assert Step(s, Delete("a")) == Segments([], []);
    assert SegmentRepeated(Segments([], []), 1) == [];
  }

  class SlruStrategy {
    var probationary: Scores
    var protected: Scores

    ghost function View(): Segments
      reads this
    {
      Segments(probationary, protected)
    }

    ghost predicate Valid()
      reads this
    {
      Ordered(View())
    }

    constructor ()
      ensures Valid() && View() == Segments([], [])
    {
      probationary, protected := [], [];
    }

    method OnAccess(key: Key, now: real)
      requires Valid()
      modifies this
      ensures Valid() && View() == Step(old(View()), Access(key, now))
    {
      StepHas(View(), Access(key, now), key);
      if Has(probationary, key) {
        probationary := Remove(probationary, key);
        protected := Assign(protected, key, now);
      } else if Has(protected, key) {
        protected := Assign(protected, key, now);
      }
    }

    method OnInsert(key: Key, stamp: real)
      requires Valid()
      modifies this`probationary
      ensures Valid() && View() == Step(old(View()), Insert(key, stamp))
    {
      StepHas(View(), Insert(key, stamp), key);
      probationary := Assign(probationary, key, stamp);
    }

    method OnDelete(key: Key)
      requires Valid()
      modifies this
      ensures Valid() && View() == Step(old(View()), Delete(key))
    {
      StepHas(View(), Delete(key), key);
      probationary := Remove(probationary, key);
      protected := Remove(protected, key);
    }

    method SelectVictims(n: nat) returns (victims: seq<Key>)
      requires Valid()
      ensures victims == SegmentVictims(View(), n)
      ensures victims == SegmentRepeated(View(), n) <==> NoneTwice(View(), n)
    {
      SegmentBatchExactly(View(), n);
      VictimsLength(probationary, n);
      VictimsLength(protected, FromProtected(View(), n));
      victims := Victims(probationary, n);
      if |victims| < n {
        victims := victims + Victims(protected, n - |victims|);
      }
      victims := FirstN(victims, n);
    }
  }
}
