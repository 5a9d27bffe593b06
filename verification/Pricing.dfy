/** Tiered prices and pricing rules (src/distributed_cluster/billing/pricing.py), over reals. */
module Pricing {
  import opened Common

  /** A tier as configured; missing entries take the source's defaults. A tier without `max` is
      unbounded. */
  datatype Tier = Tier(min: Option<real>, max: Option<real>, price: Option<real>)

  function From(t: Tier): real {
    if t.min.Some? then t.min.value else 0.0
  }

  function ByMin(): Tier -> real {
    (t: Tier) => From(t)
  }

  function Price(t: Tier, base: real): real {
    if t.price.Some? then t.price.value else base
  }

  function Width(t: Tier): real
    requires t.max.Some?
  {
    t.max.value - From(t)
  }

  function Times(a: real, b: real): real {
    a * b
  }

  // ----- the tier loop -----

  function TierQuantity(t: Tier, remaining: real): real {
    if t.max.None? then remaining else MinReal(remaining, Width(t))
  }

  /** The loop over sorted tiers with `remaining` still to be charged. */
  function Charge(ts: seq<Tier>, base: real, remaining: real): real {
    if ts == [] || remaining <= 0.0 then 0.0
    else
      var q := TierQuantity(ts[0], remaining);
      Times(q, Price(ts[0], base)) + Charge(ts[1..], base, remaining - q)
  }

  function TieredCost(tiers: seq<Tier>, base: real, quantity: real): real {
    if tiers == [] then Times(quantity, base) else Charge(StableSort(tiers, ByMin()), base, quantity)
  }

  method CalculateTieredCost(tiers: seq<Tier>, base: real, quantity: real) returns (total: real)
    ensures total == TieredCost(tiers, base, quantity)
  {
    if tiers == [] {
      return Times(quantity, base);
    }
    var sorted := StableSort(tiers, ByMin());
    var remaining := quantity;
    total := 0.0;
    assert sorted[0..] == sorted;
    for i := 0 to |sorted|
      invariant total + Charge(sorted[i..], base, remaining) == Charge(sorted, base, quantity)
    {
      if remaining <= 0.0 {
        return;
      }
      assert sorted[i..][0] == sorted[i] && sorted[i..][1..] == sorted[i + 1..];
      var q := TierQuantity(sorted[i], remaining);
      total := total + Times(q, Price(sorted[i], base));
      remaining := remaining - q;
    }
    assert sorted[|sorted|..] == [];
  }

  // ----- the closed form -----

  /** How much of [0, q] lies within the tier. */
  function Overlap(t: Tier, q: real): real {
    var top := if t.max.None? then q else MinReal(q, t.max.value);
    if top > From(t) then top - From(t) else 0.0
  }

  function OverlapCost(base: real, q: real): Tier -> real {
    (t: Tier) => Times(Overlap(t, q), Price(t, base))
  }

  /** Tiers that follow each other without gap or overlap from `lo`; only the last may be
      unbounded. */
  ghost predicate Contiguous(ts: seq<Tier>, lo: real) {
    ts == []
    || (From(ts[0]) == lo
        && (ts[0].max.None? ==> |ts| == 1)
        && (ts[0].max.Some? ==> lo <= ts[0].max.value && Contiguous(ts[1..], ts[0].max.value)))
  }

  lemma {:induction false} NothingAbove(ts: seq<Tier>, base: real, lo: real, q: real)
    requires Contiguous(ts, lo) && q <= lo
    ensures Sum(ts, OverlapCost(base, q)) == 0.0
  {
    if ts == [] || ts[0].max.None? {
    } else {
      NothingAbove(ts[1..], base, ts[0].max.value, q);
    }
  }

  lemma {:induction false} ChargeIsOverlap(ts: seq<Tier>, base: real, lo: real, q: real)
    requires Contiguous(ts, lo)
    ensures Charge(ts, base, q - lo) == Sum(ts, OverlapCost(base, q))
  {
    if ts == [] {
    } else {
      if q <= lo {
        NothingAbove(ts, base, lo, q);
      } else if ts[0].max.Some? {
        var hi := ts[0].max.value;
        if q <= hi {
          NothingAbove(ts[1..], base, hi, q);
        } else {
          ChargeIsOverlap(ts[1..], base, hi, q);
        }
      }
    }
  }

  /** The cost of a tier's share: the part of [0, q] between its lower end, 0 when missing, and its
      upper end, if it has one, at its own price or the base price. */
  lemma OverlapCostExactly(t: Tier, base: real, q: real)
    ensures var low := if t.min.None? then 0.0 else t.min.value;
            var high := if t.max.None? || q < t.max.value then q else t.max.value;
            OverlapCost(base, q)(t)
            == if high <= low then 0.0 else (high - low) * if t.price.None? then base else t.price.value
  {
  }

  /** Tiers are taken by their lower ends; without tiers the base price holds. */
  lemma TierOrderExactly(tiers: seq<Tier>, base: real, q: real)
    ensures tiers == [] ==> TieredCost(tiers, base, q) == q * base
    ensures multiset(StableSort(tiers, ByMin())) == multiset(tiers)
    ensures forall i, j :: 0 <= i < j < |StableSort(tiers, ByMin())| ==>
              From(StableSort(tiers, ByMin())[i]) <= From(StableSort(tiers, ByMin())[j])
    ensures forall t: Tier :: From(t) == if t.min.None? then 0.0 else t.min.value
  {
    SortMultiset(tiers, ByMin());
    SortSorted(tiers, ByMin());
    forall i, j | 0 <= i < j < |StableSort(tiers, ByMin())|
      ensures From(StableSort(tiers, ByMin())[i]) <= From(StableSort(tiers, ByMin())[j])
    {
      assert ByMin()(StableSort(tiers, ByMin())[i]) <= ByMin()(StableSort(tiers, ByMin())[j]);
    }
  }

  /** Main result: for tiers that are contiguous from 0 once sorted, the loop charges every tier
      for exactly the part of the quantity that lies within it. */
  lemma TieredCostIsClosedForm(tiers: seq<Tier>, base: real, q: real)
    requires tiers != [] && Contiguous(StableSort(tiers, ByMin()), 0.0)
    ensures TieredCost(tiers, base, q) == Sum(StableSort(tiers, ByMin()), OverlapCost(base, q))
  {
    ChargeIsOverlap(StableSort(tiers, ByMin()), base, 0.0, q);
  }

  /** Contiguity from 0 is needed: only the widths of the tiers count, so a single tier from 100
      to 200 charges the first hundred units. */
  lemma GapsAreIgnored()
    ensures var tiers := [Tier(Some(100.0), Some(200.0), Some(2.0))];
            TieredCost(tiers, 1.0, 50.0) == 100.0 && Sum(StableSort(tiers, ByMin()), OverlapCost(1.0, 50.0)) == 0.0
  {
    var t := Tier(Some(100.0), Some(200.0), Some(2.0));
    SortOfSorted([t], ByMin());
    assert [t][1..] == [];
    assert Charge([t][1..], 1.0, 0.0) == 0.0;
  }

  // ----- which tiers are charged for their own range -----

  /** How much of the quantity the loop charges to each tier. */
  function Quantities(ts: seq<Tier>, remaining: real): (qs: seq<real>)
    ensures |qs| == |ts|
  {
    if ts == [] then []
    else
      var q := if remaining <= 0.0 then 0.0 else TierQuantity(ts[0], remaining);
      [q] + Quantities(ts[1..], remaining - q)
  }

  function CostOfQuantities(ts: seq<Tier>, base: real, qs: seq<real>): real
    requires |qs| == |ts|
  {
    if ts == [] then 0.0 else Times(qs[0], Price(ts[0], base)) + CostOfQuantities(ts[1..], base, qs[1..])
  }

  lemma {:induction false} NothingLeft(ts: seq<Tier>, base: real, remaining: real)
    requires remaining <= 0.0
    ensures CostOfQuantities(ts, base, Quantities(ts, remaining)) == 0.0
  {
    if ts == [] {
    } else {
      assert Times(0.0, Price(ts[0], base)) == 0.0;
      NothingLeft(ts[1..], base, remaining);
    }
  }

  /** The loop's total is the cost of those quantities. */
  lemma {:induction false} ChargeOfQuantities(ts: seq<Tier>, base: real, remaining: real)
    ensures Charge(ts, base, remaining) == CostOfQuantities(ts, base, Quantities(ts, remaining))
  {
    if ts == [] {
    } else if remaining <= 0.0 {
      NothingLeft(ts, base, remaining);
    } else {
      ChargeOfQuantities(ts[1..], base, remaining - TierQuantity(ts[0], remaining));
    }
  }

  lemma CostOfFirst(t: Tier, ts: seq<Tier>, base: real, q: real, qs: seq<real>)
    requires |ts| == |qs|
    ensures CostOfQuantities([t] + ts, base, [q] + qs)
         == q * (if t.price.None? then base else t.price.value) + CostOfQuantities(ts, base, qs)
    ensures CostOfQuantities([], base, []) == 0.0
  {
    assert ([t] + ts)[1..] == ts && ([q] + qs)[1..] == qs;
  }

  /** No tier has negative width or starts below 0, and only the last is unbounded. */
  ghost predicate WellFormed(ts: seq<Tier>) {
    forall i :: 0 <= i < |ts| ==>
      && From(ts[i]) >= 0.0
      && (ts[i].max.Some? ==> Width(ts[i]) >= 0.0)
      && (ts[i].max.None? ==> i == |ts| - 1)
  }

  /** The total width of the tiers before index `i`. */
  function Start(ts: seq<Tier>, i: nat): real
    requires WellFormed(ts) && i < |ts|
  {
    if i == 0 then 0.0 else Width(ts[0]) + Start(ts[1..], i - 1)
  }

  /** What part of [0, q] lies between the tier's start and its start plus its width. */
  function Part(t: Tier, start: real, q: real): real {
    if q <= start then 0.0 else TierQuantity(t, q - start)
  }

  lemma {:induction false} QuantityAt(ts: seq<Tier>, q: real, i: nat)
    requires WellFormed(ts) && i < |ts|
    ensures Start(ts, i) >= 0.0
    ensures Quantities(ts, q)[i] == Part(ts[i], Start(ts, i), q)
  {
    if i == 0 {
    } else {
      var first := if q <= 0.0 then 0.0 else TierQuantity(ts[0], q);
      QuantityAt(ts[1..], q - first, i - 1);
    }
  }

  /** Every tier of positive width starts at the total width of those before it. */
  ghost predicate Aligned(ts: seq<Tier>)
    requires WellFormed(ts)
  {
    forall i :: 0 <= i < |ts| && (ts[i].max.Some? ==> Width(ts[i]) > 0.0) ==> From(ts[i]) == Start(ts, i)
  }

  ghost predicate ChargesOverlaps(ts: seq<Tier>, q: real) {
    forall i :: 0 <= i < |ts| ==> Quantities(ts, q)[i] == Overlap(ts[i], q)
  }

  /** A tier that starts anywhere else is charged wrongly for some quantity. */
  lemma MisalignedTier(t: Tier, start: real) returns (q: real)
    requires From(t) >= 0.0 && start >= 0.0 && (t.max.Some? ==> Width(t) > 0.0) && From(t) != start
    ensures q >= 0.0 && Part(t, start, q) != Overlap(t, q)
  {
    if start < From(t) {
      q := From(t);
    } else {
      q := if t.max.Some? then MinReal(start, t.max.value) else start;
    }
  }

  /** Main result: the loop charges every tier for exactly the part of the quantity that lies in
      its own range, for every quantity, exactly when the tiers are aligned. */
  lemma ChargesOverlapsExactly(ts: seq<Tier>)
    requires WellFormed(ts)
    ensures (forall q :: q >= 0.0 ==> ChargesOverlaps(ts, q)) <==> Aligned(ts)
  {
    if Aligned(ts) {
      forall q, i | q >= 0.0 && 0 <= i < |ts| ensures Quantities(ts, q)[i] == Overlap(ts[i], q) {
        QuantityAt(ts, q, i);
      }
    } else {
      var i :| 0 <= i < |ts| && (ts[i].max.Some? ==> Width(ts[i]) > 0.0) && From(ts[i]) != Start(ts, i);
      QuantityAt(ts, 0.0, i);
      var q := MisalignedTier(ts[i], Start(ts, i));
      QuantityAt(ts, q, i);
      assert !ChargesOverlaps(ts, q);
    }
  }

  // ----- degressive prices -----

  /** Prices never rise from one tier to the next, no tier has negative width, and the last is
      unbounded. */
  ghost predicate Degressive(ts: seq<Tier>, base: real) {
    && ts != []
    && (ts[0].max.Some? ==>
          && Width(ts[0]) >= 0.0
          && Degressive(ts[1..], base)
          && Price(ts[1], base) <= Price(ts[0], base))
  }

  lemma Distributes(a: real, b: real, p: real)
    ensures Times(a + b, p) == Times(a, p) + Times(b, p)
  {
  }

  lemma DearerTimes(a: real, p: real, p': real)
    requires 0.0 <= a && p <= p'
    ensures Times(a, p) <= Times(a, p')
  {
    assert a * (p' - p) >= 0.0;
  }

  /** The charge of the first tier and what goes on to the rest. */
  lemma ChargeFirst(ts: seq<Tier>, base: real, q: real)
    requires Degressive(ts, base) && 0.0 <= q
    ensures ts[0].max.None? || q <= Width(ts[0]) ==> Charge(ts, base, q) == Times(q, Price(ts[0], base))
    ensures ts[0].max.Some? && q >= Width(ts[0]) ==>
              Charge(ts, base, q) == Times(Width(ts[0]), Price(ts[0], base)) + Charge(ts[1..], base, q - Width(ts[0]))
  {
    assert Times(0.0, Price(ts[0], base)) == 0.0;
  }

  /** No stretch of the quantity costs more than at the first tier's price. */
  lemma {:induction false} SlopeBound(ts: seq<Tier>, base: real, q: real, d: real)
    requires Degressive(ts, base) && 0.0 <= q && 0.0 <= d
    ensures Charge(ts, base, q + d) - Charge(ts, base, q) <= Times(d, Price(ts[0], base))
  {
    var p := Price(ts[0], base);
    ChargeFirst(ts, base, q);
    ChargeFirst(ts, base, q + d);
    Distributes(q, d, p);
    if ts[0].max.Some? && q + d > Width(ts[0]) {
      var w, p1 := Width(ts[0]), Price(ts[1], base);
      if q >= w {
        SlopeBound(ts[1..], base, q - w, d);
        DearerTimes(d, p1, p);
      } else {
        SlopeBound(ts[1..], base, 0.0, q + d - w);
        DearerTimes(q + d - w, p1, p);
        Distributes(w, q + d - w, p);
      }
    }
  }

  /** Main result: with prices that never rise, buying together is never dearer than buying
      apart. */
  lemma {:induction false} Subadditive(ts: seq<Tier>, base: real, a: real, b: real)
    requires Degressive(ts, base) && 0.0 <= a && 0.0 <= b
    ensures Charge(ts, base, a + b) <= Charge(ts, base, a) + Charge(ts, base, b)
  {
    var p := Price(ts[0], base);
    ChargeFirst(ts, base, a);
    ChargeFirst(ts, base, b);
    ChargeFirst(ts, base, a + b);
    Distributes(a, b, p);
    if ts[0].max.Some? && a + b > Width(ts[0]) {
      var w := Width(ts[0]);
      if a >= w && b >= w {
        // both reach the rest: the second w units cost no more than the first
        SlopeBound(ts[1..], base, a + b - w - w, w);
        Subadditive(ts[1..], base, a - w, b - w);
        DearerTimes(w, Price(ts[1], base), p);
      } else if a >= w {
        SlopeBound(ts[1..], base, a - w, b);
        DearerTimes(b, Price(ts[1], base), p);
      } else if b >= w {
        SlopeBound(ts[1..], base, b - w, a);
        DearerTimes(a, Price(ts[1], base), p);
      } else {
        SlopeBound(ts, base, a, b);
      }
    }
  }

  lemma TieredCostSubadditive(tiers: seq<Tier>, base: real, a: real, b: real)
    requires tiers != [] && Degressive(StableSort(tiers, ByMin()), base) && 0.0 <= a && 0.0 <= b
    ensures TieredCost(tiers, base, a + b) <= TieredCost(tiers, base, a) + TieredCost(tiers, base, b)
  {
    Subadditive(StableSort(tiers, ByMin()), base, a, b);
  }

  // ----- pricing rules -----

  datatype Rule = Rule(
    name: string,
    conditionType: string,
    conditionValue: string,
    discount: real,
    markup: real,
    priority: int,
    enabled: bool,
    validFrom: Option<real>,
    validUntil: Option<real>)

  predicate AppliesTo(r: Rule, context: map<string, string>, now: real) {
    && r.enabled
    && (r.validFrom.Some? ==> now >= r.validFrom.value)
    && (r.validUntil.Some? ==> now <= r.validUntil.value)
    && r.conditionType in context && context[r.conditionType] == r.conditionValue
  }

  /** `PricingRule.apply` */
  function Apply(r: Rule, cost: real): real {
    var discounted := if r.discount > 0.0 then Times(cost, 1.0 - r.discount / 100.0) else cost;
    if r.markup > 0.0 then Times(discounted, 1.0 + r.markup / 100.0) else discounted
  }

  /** A discount takes its percentage off the cost and a markup then puts its percentage on. */
  lemma ApplyExactly(r: Rule, cost: real)
    ensures Apply(r, cost)
         == cost * (if r.discount > 0.0 then (100.0 - r.discount) / 100.0 else 1.0)
                 * (if r.markup > 0.0 then (100.0 + r.markup) / 100.0 else 1.0)
  {
    assert 1.0 - r.discount / 100.0 == (100.0 - r.discount) / 100.0;
    assert 1.0 + r.markup / 100.0 == (100.0 + r.markup) / 100.0;
  }

  /** When a rule applies. */
  lemma AppliesExactly(r: Rule, context: map<string, string>, now: real)
    ensures !AppliesTo(r, context, now)
       <==> || !r.enabled
            || (r.validFrom.Some? && now < r.validFrom.value)
            || (r.validUntil.Some? && now > r.validUntil.value)
            || r.conditionType !in context
            || context[r.conditionType] != r.conditionValue
  {
  }

  /** Higher priorities first, rules of one priority in the order they were added. */
  function ByPriority(): Rule -> real {
    (r: Rule) => -(r.priority as real)
  }

  /** The rule pass in a given order. */
  function PassInOrder(rules: seq<Rule>, context: map<string, string>, now: real, cost: real): real {
    if rules == [] then cost
    else PassInOrder(rules[1..], context, now,
                     if AppliesTo(rules[0], context, now) then Apply(rules[0], cost) else cost)
  }

  function Applicable(context: map<string, string>, now: real): Rule -> bool {
    (r: Rule) => AppliesTo(r, context, now)
  }

  method FinalCost(rules: seq<Rule>, context: map<string, string>, now: real, base: real)
    returns (cost: real, applied: seq<string>)
    ensures cost == PassInOrder(StableSort(rules, ByPriority()), context, now, base)
    ensures |applied| == |Filter(StableSort(rules, ByPriority()), Applicable(context, now))|
    ensures forall i :: 0 <= i < |applied| ==>
              applied[i] == Filter(StableSort(rules, ByPriority()), Applicable(context, now))[i].name
  {
    var sorted := StableSort(rules, ByPriority());
    cost, applied := base, [];
    assert sorted[0..] == sorted;
    for i := 0 to |sorted|
      invariant PassInOrder(sorted[i..], context, now, cost) == PassInOrder(sorted, context, now, base)
      invariant |applied| == |Filter(sorted[..i], Applicable(context, now))|
      invariant forall k :: 0 <= k < |applied| ==> applied[k] == Filter(sorted[..i], Applicable(context, now))[k].name
    {
      assert sorted[i..][0] == sorted[i] && sorted[i..][1..] == sorted[i + 1..];
      assert sorted[..i + 1] == sorted[..i] + [sorted[i]];
      FilterConcat(sorted[..i], [sorted[i]], Applicable(context, now));
      if AppliesTo(sorted[i], context, now) {
        cost := Apply(sorted[i], cost);
        applied := applied + [sorted[i].name];
      }
    }
    assert sorted[..|sorted|] == sorted;
  }

  /** The pass takes the rules one after the other and skips those that do not apply. */
  lemma {:induction false} PassExactly(rules: seq<Rule>, r: Rule, context: map<string, string>, now: real, cost: real)
    ensures PassInOrder([], context, now, cost) == cost
    ensures var before := PassInOrder(rules, context, now, cost);
            PassInOrder(rules + [r], context, now, cost)
            == if AppliesTo(r, context, now) then Apply(r, before) else before
    decreases |rules|
  {
    if rules == [] {
      assert rules + [r] == [r] && [r][1..] == [];
    } else {
      assert (rules + [r])[0] == rules[0] && (rules + [r])[1..] == rules[1..] + [r];
      PassExactly(rules[1..], r, context, now,
                  if AppliesTo(rules[0], context, now) then Apply(rules[0], cost) else cost);
    }
  }

  /** The order of the pass: falling priority, rules of one priority as they were added. */
  lemma PriorityExactly(rules: seq<Rule>, priority: int)
    ensures forall i, j :: 0 <= i < j < |StableSort(rules, ByPriority())| ==>
              StableSort(rules, ByPriority())[i].priority >= StableSort(rules, ByPriority())[j].priority
    ensures Filter(StableSort(rules, ByPriority()), (r: Rule) => r.priority == priority)
         == Filter(rules, (r: Rule) => r.priority == priority)
  {
    var sorted := StableSort(rules, ByPriority());
    SortSorted(rules, ByPriority());
    SortStable(rules, ByPriority(), -(priority as real));
    FilterExt(sorted, KeyIs(ByPriority(), -(priority as real)), (r: Rule) => r.priority == priority);
    FilterExt(rules, KeyIs(ByPriority(), -(priority as real)), (r: Rule) => r.priority == priority);
    forall i, j | 0 <= i < j < |sorted| ensures sorted[i].priority >= sorted[j].priority {
      assert ByPriority()(sorted[i]) <= ByPriority()(sorted[j]);
    }
  }

  /** What a rule multiplies the cost by. */
  function Factor(r: Rule, context: map<string, string>, now: real): real {
    if AppliesTo(r, context, now) then Apply(r, 1.0) else 1.0
  }

  function Product(rules: seq<Rule>, context: map<string, string>, now: real): real {
    if rules == [] then 1.0 else Times(Factor(rules[0], context, now), Product(rules[1..], context, now))
  }

  lemma Associates(a: real, b: real, c: real)
    ensures Times(Times(a, b), c) == Times(a, Times(b, c))
    ensures Times(a, b) == Times(b, a)
    ensures Times(a, 1.0) == a
  {
  }

  lemma ApplyIsFactor(r: Rule, cost: real)
    ensures Apply(r, cost) == Times(cost, Apply(r, 1.0))
  {
    var d, m := 1.0 - r.discount / 100.0, 1.0 + r.markup / 100.0;
    Associates(cost, d, m);
    Associates(d, 1.0, m);
    Associates(m, 1.0, cost);
    Associates(cost, m, 1.0);
  }

  lemma {:induction false} PassIsProduct(rules: seq<Rule>, context: map<string, string>, now: real, cost: real)
    ensures PassInOrder(rules, context, now, cost) == Times(cost, Product(rules, context, now))
  {
    if rules == [] {
      Associates(cost, 1.0, 1.0);
    } else {
      var f := Factor(rules[0], context, now);
      ApplyIsFactor(rules[0], cost);
      Associates(cost, f, Product(rules[1..], context, now));
      PassIsProduct(rules[1..], context, now, Times(cost, f));
    }
  }

  lemma {:induction false} ProductConcat(a: seq<Rule>, b: seq<Rule>, context: map<string, string>, now: real)
    ensures Product(a + b, context, now) == Times(Product(a, context, now), Product(b, context, now))
  {
    if a == [] {
      assert a + b == b;
      Associates(Product(b, context, now), 1.0, 1.0);
    } else {
      assert (a + b)[0] == a[0] && (a + b)[1..] == a[1..] + b;
      ProductConcat(a[1..], b, context, now);
      Associates(Factor(a[0], context, now), Product(a[1..], context, now), Product(b, context, now));
    }
  }

  lemma ProductMoveFront(b: seq<Rule>, i: nat, context: map<string, string>, now: real)
    requires i < |b|
    ensures Product(b, context, now) == Times(Factor(b[i], context, now), Product(b[..i] + b[i + 1..], context, now))
  {
    var x, y, f := Product(b[..i], context, now), Product(b[i + 1..], context, now), Factor(b[i], context, now);
    assert b == b[..i] + b[i..] && b[i..][0] == b[i] && b[i..][1..] == b[i + 1..];
    ProductConcat(b[..i], b[i..], context, now);
    ProductConcat(b[..i], b[i + 1..], context, now);
    Associates(x, f, y);
    Associates(f, x, y);
  }

  lemma {:induction false} ProductMultiset(a: seq<Rule>, b: seq<Rule>, context: map<string, string>, now: real)
    requires multiset(a) == multiset(b)
    ensures Product(a, context, now) == Product(b, context, now)
    decreases |a|
  {
    if a == [] {
      assert |multiset(b)| == 0;
    } else {
      var i := MatchFirst(a, b);
      ProductMultiset(a[1..], b[..i] + b[i + 1..], context, now);
      ProductMoveFront(b, i, context, now);
    }
  }

  /** Main result: the final cost is the same for every order of the rules, so priorities and
      insertion order do not matter. */
  lemma RuleOrderIrrelevant(rules: seq<Rule>, other: seq<Rule>, context: map<string, string>, now: real, base: real)
    requires multiset(other) == multiset(rules)
    ensures PassInOrder(StableSort(rules, ByPriority()), context, now, base) == PassInOrder(other, context, now, base)
  {
    var sorted := StableSort(rules, ByPriority());
    SortMultiset(rules, ByPriority());
    PassIsProduct(sorted, context, now, base);
    PassIsProduct(other, context, now, base);
    ProductMultiset(sorted, other, context, now);
  }
}
