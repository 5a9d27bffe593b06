/** A Python dictionary with its insertion order: a sequence of items with distinct keys. */
module OrderedDict {
  import opened Common

  type Key = string
  datatype Item<+V> = Item(key: Key, val: V)

  ghost predicate DistinctKeys<V>(d: seq<Item<V>>) {
    forall i, j :: 0 <= i < j < |d| ==> d[i].key != d[j].key
  }

  function KeyOtherThan<V>(k: Key): Item<V> -> bool {
    (e: Item<V>) => e.key != k
  }

  function Find<V>(d: seq<Item<V>>, k: Key): Option<Item<V>> {
    if d == [] then None else if d[0].key == k then Some(d[0]) else Find(d[1..], k)
  }

  predicate Has<V>(d: seq<Item<V>>, k: Key) {
    Find(d, k).Some?
  }

  /** `del d[k]`, or nothing when the key is absent. */
  function Remove<V>(d: seq<Item<V>>, k: Key): seq<Item<V>> {
    Filter(d, KeyOtherThan(k))
  }

  /** `d[k] = v`: a key already there keeps its position. */
  function Assign<V>(d: seq<Item<V>>, k: Key, v: V): seq<Item<V>> {
    if d == [] then [Item(k, v)]
    else if d[0].key == k then [Item(k, v)] + d[1..]
    else [d[0]] + Assign(d[1..], k, v)
  }

  lemma {:induction false} FindMember<V>(d: seq<Item<V>>, k: Key)
    ensures Find(d, k).Some? ==> Find(d, k).value in d && Find(d, k).value.key == k
    ensures Find(d, k).None? ==> forall e :: e in d ==> e.key != k
  {
    if d == [] || d[0].key == k {
    } else {
      FindMember(d[1..], k);
      assert d == [d[0]] + d[1..];
    }
  }

  lemma FindUnique<V>(d: seq<Item<V>>, e: Item<V>)
    requires DistinctKeys(d) && e in d
    ensures Find(d, e.key) == Some(e)
  {
    FindMember(d, e.key);
  }

  lemma {:induction false} FilterDistinctKeys<V>(d: seq<Item<V>>, p: Item<V> -> bool)
    requires DistinctKeys(d)
    ensures DistinctKeys(Filter(d, p))
    decreases |d|
  {
    if d == [] {
    } else {
      FilterDistinctKeys(d[1..], p);
      forall e | e in Filter(d[1..], p) ensures e.key != d[0].key {
        FilterMember(d[1..], p, e);
      }
    }
  }

  lemma RemoveAbsent<V>(d: seq<Item<V>>, k: Key)
    requires !Has(d, k)
    ensures Remove(d, k) == d
  {
    FindMember(d, k);
    FilterAll(d, KeyOtherThan(k));
  }

  lemma {:induction false} RemovePresent<V>(d: seq<Item<V>>, k: Key)
    requires DistinctKeys(d) && Has(d, k)
    ensures |Remove(d, k)| == |d| - 1
  {
    if d[0].key == k {
      assert forall e :: e in d[1..] ==> e.key != k;
      FilterAll(d[1..], KeyOtherThan(k));
    } else {
      RemovePresent(d[1..], k);
    }
  }

  /** Moving a key to the recent end, or adding it there, keeps the keys distinct. */
  lemma RemoveSnocDistinct<V>(d: seq<Item<V>>, e: Item<V>)
    requires DistinctKeys(d)
    ensures DistinctKeys(Remove(d, e.key) + [e])
  {
    FilterDistinctKeys(d, KeyOtherThan(e.key));
    forall x | x in Remove(d, e.key) ensures x.key != e.key {
      FilterMember(d, KeyOtherThan(e.key), x);
    }
  }

  ghost function KeyNotAmong<V>(gone: seq<Item<V>>): Item<V> -> bool {
    (e: Item<V>) => forall g :: g in gone ==> g.key != e.key
  }

  lemma {:induction false} RemoveOneMore<V>(d: seq<Item<V>>, gone: seq<Item<V>>, g: Item<V>)
    ensures Remove(Filter(d, KeyNotAmong(gone)), g.key) == Filter(d, KeyNotAmong(gone + [g]))
  {
    if d == [] {
    } else {
      RemoveOneMore(d[1..], gone, g);
      var f := Filter(d, KeyNotAmong(gone));
      if KeyNotAmong(gone)(d[0]) {
        assert f[0] == d[0] && f[1..] == Filter(d[1..], KeyNotAmong(gone));
      }
      assert forall x :: x in gone + [g] <==> x in gone || x == g;
    }
  }

  lemma RemoveNext<V>(d: seq<Item<V>>, gone: seq<Item<V>>, i: nat)
    requires i < |gone|
    ensures Remove(Filter(d, KeyNotAmong(gone[..i])), gone[i].key) == Filter(d, KeyNotAmong(gone[..i + 1]))
  {
    RemoveOneMore(d, gone[..i], gone[i]);
    assert gone[..i + 1] == gone[..i] + [gone[i]];
  }

  /** Deleting the collected items one by one is the same as keeping the others. */
  lemma DeleteCollected<V>(d: seq<Item<V>>, p: Item<V> -> bool, q: Item<V> -> bool)
    requires DistinctKeys(d)
    requires forall e :: e in d ==> p(e) == !q(e)
    ensures Filter(d, KeyNotAmong(Filter(d, p))) == Filter(d, q)
  {
    var gone := Filter(d, p);
    forall e | e in d ensures KeyNotAmong(gone)(e) == q(e) {
      FilterMember(d, p, e);
      if q(e) {
        forall g | g in gone ensures g.key != e.key {
          FilterMember(d, p, g);
        }
      }
    }
    FilterExt(d, KeyNotAmong(gone), q);
  }

  /** Moving an item to the recent end changes the order only. */
  lemma RenewedFind<V>(d: seq<Item<V>>, e: Item<V>, k: Key)
    requires DistinctKeys(d) && Find(d, e.key) == Some(e)
    ensures DistinctKeys(Remove(d, e.key) + [e])
    ensures Find(Remove(d, e.key) + [e], k) == Find(d, k)
  {
    var d' := Remove(d, e.key) + [e];
    RemoveSnocDistinct(d, e);
    FindMember(d, k);
    FindMember(d', k);
    FilterMembers(d, KeyOtherThan(e.key));
    if Has(d, k) {
      if k == e.key {
        FindUnique(d', e);
      } else {
        FindUnique(d', Find(d, k).value);
      }
    } else {
      FindMember(d, e.key);
      forall x | x in d' ensures x in d {
        FilterMember(d, KeyOtherThan(e.key), x);
      }
    }
  }

  lemma RenewedMembers<V>(d: seq<Item<V>>, e: Item<V>, x: Item<V>)
    requires DistinctKeys(d) && e in d
    ensures x in Remove(d, e.key) + [e] <==> x in d
  {
    FilterMember(d, KeyOtherThan(e.key), x);
    if x in d && x.key == e.key {
      FindUnique(d, e);
      FindUnique(d, x);
    }
  }

  /** What a lookup finds after an assignment. */
  lemma {:induction false} AssignFinds<V>(d: seq<Item<V>>, k: Key, v: V, x: Key)
    ensures Find(Assign(d, k, v), x) == if x == k then Some(Item(k, v)) else Find(d, x)
  {
    if d == [] {
      assert Find([Item(k, v)][1..], x) == None;
    } else if d[0].key == k {
      assert Assign(d, k, v)[1..] == d[1..];
    } else {
      AssignFinds(d[1..], k, v, x);
      assert Assign(d, k, v)[1..] == Assign(d[1..], k, v);
    }
  }

  /** An assignment keeps the keys in their positions and appends a new one. */
  lemma {:induction false} AssignKeepsOrder<V>(d: seq<Item<V>>, k: Key, v: V)
    ensures |Assign(d, k, v)| == |d| + if Has(d, k) then 0 else 1
    ensures forall i :: 0 <= i < |d| ==> Assign(d, k, v)[i].key == d[i].key
  {
    if d == [] {
      assert Find([Item(k, v)][1..], k) == None;
    } else if d[0].key == k {
    } else {
      AssignKeepsOrder(d[1..], k, v);
    }
  }

  /** What a lookup finds after a deletion. */
  lemma RemoveFinds<V>(d: seq<Item<V>>, k: Key, x: Key)
    requires DistinctKeys(d)
    ensures Find(Remove(d, k), x) == if x == k then None else Find(d, x)
  {
    var d' := Remove(d, k);
    FilterDistinctKeys(d, KeyOtherThan(k));
    FindMember(d, x);
    FindMember(d', x);
    FilterMembers(d, KeyOtherThan(k));
    if x != k && Has(d, x) {
      FindUnique(d', Find(d, x).value);
    }
  }
}
