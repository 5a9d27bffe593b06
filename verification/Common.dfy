/** Shared vocabulary: optional values, filtering and summing of sequences, and the stable
    sort by a numeric key that Python's `sorted` and `list.sort` provide. */
module Common {

  datatype Option<+T> = None | Some(value: T)

  function Min(a: int, b: int): int {
    if a <= b then a else b
  }

  function Max(a: int, b: int): int {
    if a >= b then a else b
  }

  function MinReal(a: real, b: real): real {
    if a <= b then a else b
  }

  /** The lesser and the greater of two numbers. */
  lemma BoundsExactly(a: int, b: int, x: real, y: real)
    ensures Min(a, b) <= a && Min(a, b) <= b && (Min(a, b) == a || Min(a, b) == b)
    ensures Max(a, b) >= a && Max(a, b) >= b && (Max(a, b) == a || Max(a, b) == b)
    ensures MinReal(x, y) <= x && MinReal(x, y) <= y && (MinReal(x, y) == x || MinReal(x, y) == y)
  {
  }

  lemma ProductAtLeastZero(a: real, b: real)
    requires a >= 0.0 && b >= 0.0
    ensures a * b >= 0.0
  {
  }

  lemma ProductPositive(a: real, b: real)
    requires a > 0.0 && b > 0.0
    ensures a * b > 0.0
  {
  }

  // ----- filtering -----

  /** The elements of `s` satisfying `p`, in their original order. */
  function Filter<T>(s: seq<T>, p: T -> bool): seq<T> {
    if s == [] then []
    else if p(s[0]) then [s[0]] + Filter(s[1..], p)
    else Filter(s[1..], p)
  }

  lemma {:induction false} FilterConcat<T>(a: seq<T>, b: seq<T>, p: T -> bool)
    ensures Filter(a + b, p) == Filter(a, p) + Filter(b, p)
  {
    if a == [] {
      assert a + b == b;
    } else {
      assert (a + b)[0] == a[0] && (a + b)[1..] == a[1..] + b;
      FilterConcat(a[1..], b, p);
    }
  }

  lemma {:induction false} FilterMember<T>(s: seq<T>, p: T -> bool, x: T)
    ensures x in Filter(s, p) <==> x in s && p(x)
  {
    if s == [] {
    } else {
      FilterMember(s[1..], p, x);
      assert s == [s[0]] + s[1..];
    }
  }

  lemma FilterMembers<T>(s: seq<T>, p: T -> bool)
    ensures forall x :: x in Filter(s, p) <==> x in s && p(x)
  {
    forall x ensures x in Filter(s, p) <==> x in s && p(x) {
      FilterMember(s, p, x);
    }
  }

  lemma {:induction false} FilterExt<T>(s: seq<T>, p: T -> bool, q: T -> bool)
    requires forall x :: x in s ==> p(x) == q(x)
    ensures Filter(s, p) == Filter(s, q)
  {
    if s == [] {
    } else {
      assert forall x :: x in s[1..] ==> x in s;
      FilterExt(s[1..], p, q);
    }
  }

  lemma {:induction false} FilterAll<T>(s: seq<T>, p: T -> bool)
    requires forall x :: x in s ==> p(x)
    ensures Filter(s, p) == s
  {
    if s == [] {
    } else {
      assert forall x :: x in s[1..] ==> x in s;
      FilterAll(s[1..], p);
      assert s == [s[0]] + s[1..];
    }
  }

  lemma {:induction false} FilterNone<T>(s: seq<T>, p: T -> bool)
    requires forall x :: x in s ==> !p(x)
    ensures Filter(s, p) == []
  {
    if s == [] {
    } else {
      assert forall x :: x in s[1..] ==> x in s;
      FilterNone(s[1..], p);
    }
  }

  lemma {:induction false} FilterLength<T>(s: seq<T>, p: T -> bool)
    ensures |Filter(s, p)| <= |s|
    ensures |Filter(s, p)| == |s| ==> Filter(s, p) == s
  {
    if s == [] {
    } else {
      FilterLength(s[1..], p);
      assert s == [s[0]] + s[1..];
    }
  }

  lemma {:induction false} FilterCommute<T>(s: seq<T>, p: T -> bool, q: T -> bool)
    ensures Filter(Filter(s, p), q) == Filter(Filter(s, q), p)
  {
    if s == [] {
    } else {
      var hp := if p(s[0]) then [s[0]] else [];
      var hq := if q(s[0]) then [s[0]] else [];
      FilterConcat(hp, Filter(s[1..], p), q);
      FilterConcat(hq, Filter(s[1..], q), p);
      FilterCommute(s[1..], p, q);
    }
  }

  lemma {:induction false} FilterTwice<T>(s: seq<T>, p: T -> bool, q: T -> bool, both: T -> bool)
    requires forall x :: x in s ==> both(x) == (p(x) && q(x))
    ensures Filter(Filter(s, p), q) == Filter(s, both)
  {
    if s == [] {
    } else {
      assert s[0] in s && forall x :: x in s[1..] ==> x in s;
      FilterTwice(s[1..], p, q, both);
      if p(s[0]) {
        assert Filter(s, p)[0] == s[0] && Filter(s, p)[1..] == Filter(s[1..], p);
      }
    }
  }

  // ----- elements without repetition -----

  ghost predicate Distinct<T>(s: seq<T>) {
    forall i, j :: 0 <= i < j < |s| ==> s[i] != s[j]
  }

  lemma {:induction false} FilterDistinct<T>(s: seq<T>, p: T -> bool)
    requires Distinct(s)
    ensures Distinct(Filter(s, p))
  {
    if s == [] {
    } else {
      FilterDistinct(s[1..], p);
      FilterMembers(s[1..], p);
    }
  }

  lemma {:induction false} FilterPartition<T>(s: seq<T>, p: T -> bool, q: T -> bool)
    requires forall x :: x in s ==> p(x) == !q(x)
    ensures |Filter(s, p)| + |Filter(s, q)| == |s|
  {
    if s == [] {
    } else {
      assert s[0] in s;
      assert forall x :: x in s[1..] ==> x in s;
      FilterPartition(s[1..], p, q);
    }
  }

  // ----- order-preserving embedding -----

  /** `a` can be obtained from `b` by leaving elements out. */
  ghost predicate Subsequence<T>(a: seq<T>, b: seq<T>)
    decreases |b|
  {
    a == [] || (b != [] && ((a[0] == b[0] && Subsequence(a[1..], b[1..])) || Subsequence(a, b[1..])))
  }

  lemma {:induction false} SubsequenceRefl<T>(a: seq<T>)
    ensures Subsequence(a, a)
  {
    if a == [] {
    } else {
      SubsequenceRefl(a[1..]);
    }
  }

  lemma {:induction false} SubsequenceTail<T>(a: seq<T>, b: seq<T>)
    requires Subsequence(a, b) && a != []
    ensures b != [] && Subsequence(a[1..], b[1..])
    ensures Subsequence(a[1..], b)
    decreases |b|
  {
    if !(a[0] == b[0] && Subsequence(a[1..], b[1..])) {
      SubsequenceTail(a, b[1..]);
    }
  }

  lemma {:induction false} SubsequenceDropLeft<T>(a: seq<T>, b: seq<T>, i: nat)
    requires Subsequence(a, b) && i <= |a|
    ensures Subsequence(a[i..], b)
  {
    if i == 0 {
      assert a[i..] == a;
    } else {
      SubsequenceTail(a, b);
      SubsequenceDropLeft(a[1..], b, i - 1);
      assert a[1..][i - 1..] == a[i..];
    }
  }

  lemma {:induction false} SubsequenceDropBoth<T>(a: seq<T>, b: seq<T>, j: nat)
    requires Subsequence(a, b) && j <= |a| && j <= |b|
    ensures Subsequence(a[j..], b[j..])
  {
    if j == 0 {
      assert a[j..] == a && b[j..] == b;
    } else {
      SubsequenceTail(a, b);
      SubsequenceDropBoth(a[1..], b[1..], j - 1);
      assert a[1..][j - 1..] == a[j..] && b[1..][j - 1..] == b[j..];
    }
  }

  /** Dropping at least as many leading elements from the smaller side keeps the embedding. */
  lemma SubsequenceDrop<T>(a: seq<T>, b: seq<T>, i: nat, j: nat)
    requires Subsequence(a, b) && j <= i <= |a| && j <= |b|
    ensures Subsequence(a[i..], b[j..])
  {
    SubsequenceDropBoth(a, b, j);
    SubsequenceDropLeft(a[j..], b[j..], i - j);
    assert a[j..][i - j..] == a[i..];
  }

  lemma {:induction false} SubsequenceSnoc<T>(a: seq<T>, b: seq<T>, x: T)
    requires Subsequence(a, b)
    ensures Subsequence(a + [x], b + [x])
    decreases |b|
  {
    if b == [] {
      assert a == [] && a + [x] == [x] && b + [x] == [x];
      SubsequenceRefl([x]);
    } else {
      assert (b + [x])[0] == b[0] && (b + [x])[1..] == b[1..] + [x];
      if a != [] && a[0] == b[0] && Subsequence(a[1..], b[1..]) {
        assert (a + [x])[0] == a[0] && (a + [x])[1..] == a[1..] + [x];
        SubsequenceSnoc(a[1..], b[1..], x);
      } else {
        SubsequenceSnoc(a, b[1..], x);
      }
    }
  }

  lemma {:induction false} SubsequenceMember<T>(a: seq<T>, b: seq<T>, x: T)
    requires Subsequence(a, b) && x in a
    ensures x in b
    decreases |b|
  {
    if a[0] == b[0] && Subsequence(a[1..], b[1..]) {
      if x != a[0] {
        SubsequenceMember(a[1..], b[1..], x);
      }
    } else {
      SubsequenceMember(a, b[1..], x);
    }
  }

  lemma {:induction false} SubsequenceLength<T>(a: seq<T>, b: seq<T>)
    requires Subsequence(a, b)
    ensures |a| <= |b|
  {
    if a == [] {
    } else {
      SubsequenceTail(a, b);
      SubsequenceLength(a[1..], b[1..]);
    }
  }

  lemma {:induction false} SubsequenceFilter<T>(a: seq<T>, b: seq<T>, p: T -> bool)
    requires Subsequence(a, b)
    ensures Subsequence(Filter(a, p), Filter(b, p))
    decreases |b|
  {
    if a == [] {
    } else {
      if a[0] == b[0] && Subsequence(a[1..], b[1..]) {
        SubsequenceFilter(a[1..], b[1..], p);
        if p(a[0]) {
          assert Filter(a, p)[1..] == Filter(a[1..], p) && Filter(b, p)[1..] == Filter(b[1..], p);
        }
      } else {
        SubsequenceFilter(a, b[1..], p);
        if p(b[0]) {
          assert Filter(b, p)[1..] == Filter(b[1..], p);
        }
      }
    }
  }

  lemma {:induction false} FilterSubsequence<T>(s: seq<T>, p: T -> bool)
    ensures Subsequence(Filter(s, p), s)
  {
    if s == [] {
    } else {
      FilterSubsequence(s[1..], p);
    }
  }

  // ----- sums -----

  function Sum<T>(s: seq<T>, f: T -> real): real {
    if s == [] then 0.0 else f(s[0]) + Sum(s[1..], f)
  }

  lemma {:induction false} SumConcat<T>(a: seq<T>, b: seq<T>, f: T -> real)
    ensures Sum(a + b, f) == Sum(a, f) + Sum(b, f)
  {
    if a == [] {
      assert a + b == b;
    } else {
      assert (a + b)[0] == a[0] && (a + b)[1..] == a[1..] + b;
      SumConcat(a[1..], b, f);
    }
  }

  lemma SumSnoc<T>(a: seq<T>, x: T, f: T -> real)
    ensures Sum(a + [x], f) == Sum(a, f) + f(x)
  {
    SumConcat(a, [x], f);
    assert [x][1..] == [];
  }

  lemma {:induction false} SumSplit<T>(s: seq<T>, p: T -> bool, q: T -> bool, f: T -> real)
    requires forall x :: x in s ==> p(x) == !q(x)
    ensures Sum(s, f) == Sum(Filter(s, p), f) + Sum(Filter(s, q), f)
  {
    if s == [] {
    } else {
      assert forall x :: x in s[1..] ==> x in s;
      SumSplit(s[1..], p, q, f);
      assert s[0] in s;
      SumConcat(if p(s[0]) then [s[0]] else [], Filter(s[1..], p), f);
      SumConcat(if q(s[0]) then [s[0]] else [], Filter(s[1..], q), f);
      assert Sum([s[0]], f) == f(s[0]) + Sum([s[0]][1..], f);
    }
  }

  /** Taking one occurrence of an element out of the middle. */
  lemma TakeOut<T>(b: seq<T>, i: nat)
    requires i < |b|
    ensures b == b[..i] + [b[i]] + b[i + 1..]
    ensures multiset(b[..i] + b[i + 1..]) == multiset(b) - multiset{b[i]}
  {
    assert b == b[..i] + [b[i]] + b[i + 1..];
  }

  /** Two orders of the same elements: the first of one is somewhere in the other, and the rest
      match. */
  lemma MatchFirst<T>(a: seq<T>, b: seq<T>) returns (i: nat)
    requires multiset(a) == multiset(b) && a != []
    ensures i < |b| && b[i] == a[0]
    ensures multiset(a[1..]) == multiset(b[..i] + b[i + 1..])
  {
    TakeOut(a, 0);
    assert a[..0] + a[1..] == a[1..];
    assert a[0] in multiset(b);
    i :| 0 <= i < |b| && b[i] == a[0];
    TakeOut(b, i);
  }

  lemma SumTakeOut<T>(b: seq<T>, i: nat, f: T -> real)
    requires i < |b|
    ensures Sum(b, f) == f(b[i]) + Sum(b[..i] + b[i + 1..], f)
  {
    assert b == b[..i] + b[i..];
    SumConcat(b[..i], b[i..], f);
    SumConcat(b[..i], b[i + 1..], f);
  }

  /** A sum does not depend on the order of its terms. */
  lemma {:induction false} SumMultiset<T>(a: seq<T>, b: seq<T>, f: T -> real)
    requires multiset(a) == multiset(b)
    ensures Sum(a, f) == Sum(b, f)
    decreases |a|
  {
    if a == [] {
      assert |multiset(b)| == 0;
    } else {
      var i := MatchFirst(a, b);
      SumMultiset(a[1..], b[..i] + b[i + 1..], f);
      SumTakeOut(b, i, f);
    }
  }

  function GroupIs<T, K(==)>(group: T -> K, k: K): T -> bool {
    (x: T) => group(x) == k
  }

  function GroupIsNot<T, K(==)>(group: T -> K, k: K): T -> bool {
    (x: T) => group(x) != k
  }

  /** Adding up the sums of the listed groups. */
  function SumGroups<T, K(==)>(s: seq<T>, group: T -> K, ks: seq<K>, f: T -> real): real {
    if ks == [] then 0.0 else Sum(Filter(s, GroupIs(group, ks[0])), f) + SumGroups(s, group, ks[1..], f)
  }

  lemma {:induction false} GroupsWithout<T, K>(s: seq<T>, group: T -> K, ks: seq<K>, f: T -> real, k: K)
    requires k !in ks
    ensures SumGroups(Filter(s, GroupIsNot(group, k)), group, ks, f) == SumGroups(s, group, ks, f)
  {
    if ks == [] {
    } else {
      GroupsWithout(s, group, ks[1..], f, k);
      FilterCommute(s, GroupIsNot(group, k), GroupIs(group, ks[0]));
      var g := Filter(s, GroupIs(group, ks[0]));
      forall x | x in g ensures GroupIsNot(group, k)(x) {
        FilterMember(s, GroupIs(group, ks[0]), x);
        assert ks[0] in ks;
      }
      FilterAll(g, GroupIsNot(group, k));
    }
  }

  /** Group by group, nothing is counted twice and nothing is left out. */
  lemma {:induction false} SumByGroup<T, K>(s: seq<T>, group: T -> K, ks: seq<K>, f: T -> real)
    requires Distinct(ks)
    requires forall x :: x in s ==> group(x) in ks
    ensures SumGroups(s, group, ks, f) == Sum(s, f)
    decreases |ks|
  {
    assert s == [] || s[0] in s;
    if ks == [] {
    } else {
      var rest := Filter(s, GroupIsNot(group, ks[0]));
      SumSplit(s, GroupIs(group, ks[0]), GroupIsNot(group, ks[0]), f);
      forall x | x in rest ensures group(x) in ks[1..] {
        FilterMember(s, GroupIsNot(group, ks[0]), x);
        assert ks == [ks[0]] + ks[1..];
      }
      SumByGroup(rest, group, ks[1..], f);
      assert ks[0] !in ks[1..];
      GroupsWithout(s, group, ks[1..], f, ks[0]);
    }
  }

  /** The distinct elements of a sequence in order of first appearance, as a dictionary that is
      filled in that order lists its keys. */
  function Firsts<T(==)>(s: seq<T>): seq<T> {
    if s == [] then []
    else
      var before := Firsts(s[..|s| - 1]);
      if s[|s| - 1] in before then before else before + [s[|s| - 1]]
  }

  lemma {:induction false} FirstsDistinct<T>(s: seq<T>)
    ensures Distinct(Firsts(s))
    ensures forall x :: x in Firsts(s) <==> x in s
  {
    if s == [] {
    } else {
      FirstsDistinct(s[..|s| - 1]);
      assert s == s[..|s| - 1] + [s[|s| - 1]];
    }
  }

  // ----- stable sorting -----

  ghost predicate Sorted<T>(s: seq<T>, key: T -> real) {
    forall i, j :: 0 <= i < j < |s| ==> key(s[i]) <= key(s[j])
  }

  /** Puts `e` in front of the first element whose key is at least its own. */
  function InsertBefore<T>(e: T, r: seq<T>, key: T -> real): seq<T> {
    if r == [] || key(e) <= key(r[0]) then [e] + r else [r[0]] + InsertBefore(e, r[1..], key)
  }

  /** `sorted(s, key=key)`: ascending keys, elements with equal keys in their original order. */
  function StableSort<T>(s: seq<T>, key: T -> real): seq<T> {
    if s == [] then [] else InsertBefore(s[0], StableSort(s[1..], key), key)
  }

  function KeyIs<T>(key: T -> real, h: real): T -> bool {
    x => key(x) == h
  }

  lemma {:induction false} InsertMultiset<T>(e: T, r: seq<T>, key: T -> real)
    ensures multiset(InsertBefore(e, r, key)) == multiset([e] + r)
  {
    if !(r == [] || key(e) <= key(r[0])) {
      InsertMultiset(e, r[1..], key);
      assert r == [r[0]] + r[1..];
    }
  }

  lemma {:induction false} SortMultiset<T>(s: seq<T>, key: T -> real)
    ensures multiset(StableSort(s, key)) == multiset(s)
    ensures |StableSort(s, key)| == |s|
    ensures forall x :: x in StableSort(s, key) <==> x in s
  {
    if s == [] {
    } else {
      SortMultiset(s[1..], key);
      InsertMultiset(s[0], StableSort(s[1..], key), key);
      assert s == [s[0]] + s[1..];
    }
    assert |multiset(StableSort(s, key))| == |multiset(s)|;
    assert forall x :: x in StableSort(s, key) <==> x in multiset(StableSort(s, key));
    assert forall x :: x in s <==> x in multiset(s);
  }

  lemma {:induction false} InsertMembers<T>(e: T, r: seq<T>, key: T -> real, x: T)
    ensures x in InsertBefore(e, r, key) <==> x == e || x in r
  {
    if r == [] || key(e) <= key(r[0]) {
    } else {
      InsertMembers(e, r[1..], key, x);
      assert r == [r[0]] + r[1..];
    }
  }

  lemma {:induction false} InsertSorted<T>(e: T, r: seq<T>, key: T -> real)
    requires Sorted(r, key)
    ensures Sorted(InsertBefore(e, r, key), key)
  {
    if !(r == [] || key(e) <= key(r[0])) {
      InsertSorted(e, r[1..], key);
      var t := InsertBefore(e, r[1..], key);
      forall x | x in t ensures key(r[0]) <= key(x) {
        InsertMembers(e, r[1..], key, x);
      }
    }
  }

  lemma {:induction false} SortSorted<T>(s: seq<T>, key: T -> real)
    ensures Sorted(StableSort(s, key), key)
  {
    if s == [] {
    } else {
      SortSorted(s[1..], key);
      InsertSorted(s[0], StableSort(s[1..], key), key);
    }
  }

  /** Filtering and inserting commute on a sorted sequence. */
  lemma {:induction false} InsertFilter<T>(e: T, r: seq<T>, key: T -> real, p: T -> bool)
    requires Sorted(r, key)
    ensures Filter(InsertBefore(e, r, key), p)
         == if p(e) then InsertBefore(e, Filter(r, p), key) else Filter(r, p)
  {
    if r == [] || key(e) <= key(r[0]) {
      var f := Filter(r, p);
      assert ([e] + r)[0] == e && ([e] + r)[1..] == r;
      if f != [] {
        FilterMember(r, p, f[0]);
        var j :| 0 <= j < |r| && r[j] == f[0];
        assert key(r[0]) <= key(r[j]);
      }
    } else {
      InsertFilter(e, r[1..], key, p);
      var rest := InsertBefore(e, r[1..], key);
      FilterConcat([r[0]], rest, p);
      assert Filter([r[0]], p) == if p(r[0]) then [r[0]] else [];
      if p(r[0]) {
        assert Filter(r, p)[1..] == Filter(r[1..], p);
      }
    }
  }

  /** Filtering before or after a stable sort gives the same sequence. */
  lemma {:induction false} SortFilter<T>(s: seq<T>, key: T -> real, p: T -> bool)
    ensures Filter(StableSort(s, key), p) == StableSort(Filter(s, p), key)
  {
    if s == [] {
    } else {
      SortFilter(s[1..], key, p);
      SortSorted(s[1..], key);
      InsertFilter(s[0], StableSort(s[1..], key), key, p);
      if p(s[0]) {
        assert Filter(s, p)[1..] == Filter(s[1..], p);
      }
    }
  }

  lemma {:induction false} SortOfSorted<T>(s: seq<T>, key: T -> real)
    requires Sorted(s, key)
    ensures StableSort(s, key) == s
  {
    if s == [] {
    } else {
      SortOfSorted(s[1..], key);
      assert s == [s[0]] + s[1..];
    }
  }

  lemma SortOfEqualKeys<T>(s: seq<T>, key: T -> real, h: real)
    requires forall x :: x in s ==> key(x) == h
    ensures StableSort(s, key) == s
  {
    SortOfSorted(s, key);
  }

  /** Stability: the elements sharing a key keep their relative order. */
  lemma SortStable<T>(s: seq<T>, key: T -> real, h: real)
    ensures Filter(StableSort(s, key), KeyIs(key, h)) == Filter(s, KeyIs(key, h))
  {
    SortFilter(s, key, KeyIs(key, h));
    forall x | x in Filter(s, KeyIs(key, h)) ensures key(x) == h {
      FilterMember(s, KeyIs(key, h), x);
    }
    SortOfEqualKeys(Filter(s, KeyIs(key, h)), key, h);
  }

  /** Order and stability determine the result: any sorted sequence that keeps every
      equal-key group of `s` in order is the stable sort of `s`. */
  lemma {:induction false} SortUnique<T>(a: seq<T>, b: seq<T>, key: T -> real)
    requires Sorted(a, key) && Sorted(b, key)
    requires forall h: real :: Filter(a, KeyIs(key, h)) == Filter(b, KeyIs(key, h))
    ensures a == b
  {
    if a == [] {
      if b != [] {
        FilterMember(b, KeyIs(key, key(b[0])), b[0]);
        assert false;
      }
    } else if b == [] {
      FilterMember(a, KeyIs(key, key(a[0])), a[0]);
      assert false;
    } else {
      var ha, hb := key(a[0]), key(b[0]);
      FilterMember(a, KeyIs(key, hb), b[0]);
      FilterMember(b, KeyIs(key, hb), b[0]);
      FilterMember(b, KeyIs(key, ha), a[0]);
      FilterMember(a, KeyIs(key, ha), a[0]);
      assert ha == hb;
      assert Filter(a, KeyIs(key, ha))[0] == a[0];
      assert Filter(b, KeyIs(key, ha))[0] == b[0];
      forall h: real
        ensures Filter(a[1..], KeyIs(key, h)) == Filter(b[1..], KeyIs(key, h))
      {
        var p := KeyIs(key, h);
        var fa, fb := Filter(a, p), Filter(b, p);
        assert fa == fb;
        assert p(a[0]) == p(b[0]);
        if p(a[0]) {
          assert fa[1..] == Filter(a[1..], p);
          assert fb[1..] == Filter(b[1..], p);
        }
      }
      SortUnique(a[1..], b[1..], key);
      assert a == [a[0]] + a[1..] && b == [b[0]] + b[1..];
    }
  }
}
