/** Splitting a context-window figure into whole-token parts by the largest-remainder rule. */
module ContextWindow {

  function Clamp(value: int): nat {
    if value < 0 then 0 else value
  }

  function SumTokens(values: seq<int>): nat {
    if values == [] then 0 else Clamp(values[0]) + SumTokens(values[1..])
  }

  /** The exact share of part `i` is `Product / weightTotal`; `Floor` and `Rest` are its quotient and remainder. */
  function Product(weights: seq<int>, total: nat, i: nat): nat
    requires i < |weights|
  {
    Clamp(weights[i]) * total
  }

  function Floors(weights: seq<int>, total: nat): (r: seq<nat>)
    requires SumTokens(weights) > 0
    ensures |r| == |weights|
  {
    seq(|weights|, i requires 0 <= i < |weights| => Product(weights, total, i) / SumTokens(weights))
  }

  function Rests(weights: seq<int>, total: nat): (r: seq<nat>)
    requires SumTokens(weights) > 0
    ensures |r| == |weights|
    ensures forall i :: 0 <= i < |r| ==> r[i] < SumTokens(weights)
  {
    seq(|weights|, i requires 0 <= i < |weights| => Product(weights, total, i) % SumTokens(weights))
  }

  /** A part and the remainder of its share. */
  datatype Fraction = Fraction(index: nat, rest: nat)

  function Fractions(rests: seq<nat>): (items: seq<Fraction>)
    ensures |items| == |rests|
  {
    seq(|rests|, i requires 0 <= i < |rests| => Fraction(i, rests[i]))
  }

  /** The comparator: larger fraction first, then the smaller index. */
  predicate Before(a: Fraction, b: Fraction) {
    a.rest > b.rest || (a.rest == b.rest && a.index < b.index)
  }

  ghost predicate Sorted(items: seq<Fraction>) {
    forall k, l :: 0 <= k < l < |items| ==> Before(items[k], items[l])
  }

  function Insert(item: Fraction, items: seq<Fraction>): (r: seq<Fraction>)
    ensures |r| == |items| + 1
    ensures forall other :: other in r <==> other == item || other in items
    ensures Sorted(items) && (forall k :: 0 <= k < |items| ==> items[k].index != item.index) ==> Sorted(r)
  {
    if items == [] then [item]
    else if Before(item, items[0]) then [item] + items
    else
      var rest := Insert(item, items[1..]);
      assert forall k :: 0 <= k < |rest| ==> rest[k] in rest;
      [items[0]] + rest
  }

  ghost predicate DistinctIndexes(items: seq<Fraction>) {
    forall k, l :: 0 <= k < l < |items| ==> items[k].index != items[l].index
  }

  function ByFraction(items: seq<Fraction>): (r: seq<Fraction>)
    ensures |r| == |items|
    ensures forall other :: other in r <==> other in items
    ensures DistinctIndexes(items) ==> Sorted(r)
  {
    if items == [] then []
    else
      var first, rest := items[0], ByFraction(items[1..]);
      assert forall other :: other in items <==> other == first || other in items[1..];
      assert DistinctIndexes(items) ==> DistinctIndexes(items[1..]) && forall k :: 0 <= k < |rest| ==> rest[k].index != first.index by {
        assert forall k :: 0 <= k < |rest| ==> rest[k] in rest && rest[k] in items[1..];
      }
      Insert(first, rest)
  }

  /** One more token for each of the first `k` parts of `order`. */
  function AddOnes(whole: seq<nat>, order: seq<Fraction>, k: nat): (r: seq<nat>)
    requires k <= |order| && forall j :: 0 <= j < |order| ==> order[j].index < |whole|
    ensures |r| == |whole|
  {
    if k == 0 then whole
    else
      var r := AddOnes(whole, order, k - 1);
      var index := order[k - 1].index;
      r[index := r[index] + 1]
  }

  function Order(weights: seq<int>, total: nat): (order: seq<Fraction>)
    requires SumTokens(weights) > 0
    ensures |order| == |weights| && Sorted(order)
    ensures forall j :: 0 <= j < |order| ==> order[j].index < |weights| && order[j].rest == Rests(weights, total)[order[j].index]
    ensures forall i :: 0 <= i < |weights| ==> Fraction(i, Rests(weights, total)[i]) in order
  {
    var items := Fractions(Rests(weights, total));
    var order := ByFraction(items);
    assert forall j :: 0 <= j < |order| ==> order[j] in items;
    assert forall i :: 0 <= i < |weights| ==> items[i] == Fraction(i, Rests(weights, total)[i]) && items[i] in order;
    order
  }

  function Min(a: int, b: int): int {
    if a <= b then a else b
  }

  function Apportioned(weights: seq<int>, total: int): (r: seq<nat>)
    ensures |r| == |weights|
  {
    if SumTokens(weights) <= 0 || total <= 0 then seq(|weights|, _ => 0)
    else
      var whole := Floors(weights, total);
      var remainder := Clamp(total - SumTokens(whole));
      AddOnes(whole, Order(weights, total), Min(remainder, |weights|))
  }

  method ApportionTokens(weights: seq<int>, total: int) returns (whole: seq<nat>)
    ensures whole == Apportioned(weights, total)
  {
    hide Floors, Order;
    var weightTotal := SumTokens(weights);
    if weightTotal <= 0 || total <= 0 {
      return seq(|weights|, _ => 0);
    }
    var floors := Floors(weights, total);
    whole := floors;
    var remainder := total - SumTokens(whole);
    var byFraction := Order(weights, total);
    var k := 0;
    while k < |byFraction| && remainder > 0
      invariant k <= |byFraction| && whole == AddOnes(floors, byFraction, k)
      invariant remainder == total - SumTokens(floors) - k
      invariant remainder >= 0 || k == 0
    {
      var index := byFraction[k].index;
      whole := whole[index := whole[index] + 1];
      remainder := remainder - 1;
      k := k + 1;
    }
  }

  // The remainder is smaller than the number of parts with a fraction

  lemma {:induction false} SumUpdate(s: seq<nat>, i: nat)
    requires i < |s|
    ensures SumTokens(s[i := s[i] + 1]) == SumTokens(s) + 1
  {
    if i > 0 {
      assert s[i := s[i] + 1][1..] == s[1..][i - 1 := s[i] + 1];
      SumUpdate(s[1..], i - 1);
    } else {
      assert s[i := s[i] + 1][1..] == s[1..];
    }
  }

  /** Adding ones to distinct parts adds their number to the sum and one to each of them. */
  lemma {:induction false} AddOnesEffect(whole: seq<nat>, order: seq<Fraction>, k: nat)
    requires k <= |order| && Sorted(order) && forall j :: 0 <= j < |order| ==> order[j].index < |whole|
    requires forall i, j :: 0 <= i < j < |order| ==> order[i].index != order[j].index
    ensures SumTokens(AddOnes(whole, order, k)) == SumTokens(whole) + k
    ensures forall j :: 0 <= j < k ==> AddOnes(whole, order, k)[order[j].index] == whole[order[j].index] + 1
    ensures forall j :: k <= j < |order| ==> AddOnes(whole, order, k)[order[j].index] == whole[order[j].index]
  {
    if k > 0 {
      AddOnesEffect(whole, order, k - 1);
      SumUpdate(AddOnes(whole, order, k - 1), order[k - 1].index);
    }
  }

  /** Remainders below `w` each, added up, stay within `w - 1` for every part that has one. */
  lemma {:induction false} RestsBound(rests: seq<nat>, w: nat, positive: set<nat>)
    requires w > 0 && forall i :: 0 <= i < |rests| ==> rests[i] < w
    requires forall i :: 0 <= i < |rests| && rests[i] > 0 ==> i in positive
    ensures SumTokens(rests) <= (w - 1) * |positive|
    decreases |rests|
  {
    if rests != [] {
      var n := |rests| - 1;
      SumSnoc(rests[..n], rests[n]);
      assert rests == rests[..n] + [rests[n]];
      RestsBound(rests[..n], w, positive - {n});
      if n in positive {
        assert |positive| == |positive - {n}| + 1;
        Distribute(w - 1, |positive - {n}|, 1);
      } else {
        assert positive - {n} == positive;
      }
    }
  }

  lemma Distribute(a: int, b: int, c: int)
    ensures a * (b + c) == a * b + a * c
  {
  }

  lemma MulIncreases(a: nat, b: int, c: int)
    requires b <= c
    ensures a * b <= a * c
  {
  }

  lemma {:induction false} SumSnoc(s: seq<int>, x: int)
    ensures SumTokens(s + [x]) == SumTokens(s) + Clamp(x)
  {
    if s == [] {
      assert [] + [x] == [x] && [x][1..] == [];
    } else {
      assert (s + [x])[1..] == s[1..] + [x];
      SumSnoc(s[1..], x);
    }
  }

  function Indexes(order: seq<Fraction>): (r: set<nat>)
    ensures forall j :: 0 <= j < |order| ==> order[j].index in r
    ensures |r| <= |order|
  {
    if order == [] then {} else
      var r := Indexes(order[1..]);
      assert forall j :: 1 <= j < |order| ==> order[j] == order[1..][j - 1];
      r + {order[0].index}
  }

  lemma {:induction false} ScaledSum(values: seq<int>, factor: nat, products: seq<nat>)
    requires |products| == |values|
    requires forall i :: 0 <= i < |values| ==> products[i] == Clamp(values[i]) * factor
    ensures SumTokens(products) == SumTokens(values) * factor
  {
    if values != [] {
      ScaledSum(values[1..], factor, products[1..]);
      Distribute(factor, Clamp(values[0]), SumTokens(values[1..]));
    }
  }

  /** Quotients and remainders add up to the exact shares. */
  lemma {:induction false} SharesAddUp(products: seq<nat>, w: nat, floors: seq<nat>, rests: seq<nat>)
    requires |floors| == |rests| == |products|
    requires forall i :: 0 <= i < |products| ==> products[i] == w * floors[i] + rests[i]
    ensures w * SumTokens(floors) + SumTokens(rests) == SumTokens(products)
  {
    if products != [] {
      SharesAddUp(products[1..], w, floors[1..], rests[1..]);
      Distribute(w, floors[0], SumTokens(floors[1..]));
    }
  }

  ghost predicate Proportional(weights: seq<int>, total: int) {
    SumTokens(weights) > 0 && total > 0
  }

  function Remainder(weights: seq<int>, total: nat): int
    requires SumTokens(weights) > 0
  {
    total - SumTokens(Floors(weights, total))
  }

  /** The exact share of a part is its floor and its remainder. */
  lemma ShareIs(weights: seq<int>, total: nat, i: nat)
    requires Proportional(weights, total) && i < |weights|
    ensures Clamp(weights[i]) * total == SumTokens(weights) * Floors(weights, total)[i] + Rests(weights, total)[i]
    ensures Rests(weights, total)[i] < SumTokens(weights)
  {
    hide SumTokens;
    DivMod(Product(weights, total, i), SumTokens(weights));
  }

  lemma DivMod(p: nat, w: nat)
    requires w > 0
    ensures p == w * (p / w) + p % w
  {
  }

  lemma RemainderIsRests(weights: seq<int>, total: nat)
    requires Proportional(weights, total)
    ensures SumTokens(weights) * Remainder(weights, total) == SumTokens(Rests(weights, total))
    ensures Remainder(weights, total) >= 0
  {
    hide Floors, Rests, SumTokens;
    var w := SumTokens(weights);
    var products: seq<nat> := seq(|weights|, i requires 0 <= i < |weights| => Product(weights, total, i));
    forall i | 0 <= i < |weights|
      ensures products[i] == w * Floors(weights, total)[i] + Rests(weights, total)[i]
    {
      ShareIs(weights, total, i);
    }
    ScaledSum(weights, total, products);
    SharesAddUp(products, w, Floors(weights, total), Rests(weights, total));
    Distribute(w, Remainder(weights, total), SumTokens(Floors(weights, total)));
  }

  lemma PositiveRestsComeFirst(weights: seq<int>, total: nat, k: nat, i: nat)
    requires Proportional(weights, total)
    requires k <= |weights| && (k < |weights| ==> Order(weights, total)[k].rest == 0)
    requires i < |weights| && Rests(weights, total)[i] > 0
    ensures i in Indexes(Order(weights, total)[..k])
  {
    hide Rests, Order, SumTokens;
    var order := Order(weights, total);
    var l :| 0 <= l < |order| && order[l] == Fraction(i, Rests(weights, total)[i]);
    assert l < k;
    assert order[..k][l].index == i;
  }

  lemma TooFewTerms(w: nat, sum: nat, count: nat, k: nat, remainder: nat)
    requires w > 0 && count <= k && sum <= (w - 1) * count && w * remainder == sum
    ensures remainder < k || remainder == k == 0
  {
    MulIncreases(w - 1, count, k);
    Distribute(k, w - 1, 1);
    if remainder >= k {
      MulIncreases(w, k, remainder);
    }
  }

  /** Only parts with a fraction are rounded up, so there are enough of them. */
  lemma RoundedUpHaveFraction(weights: seq<int>, total: nat, j: nat)
    requires Proportional(weights, total)
    requires j < Remainder(weights, total)
    ensures j < |weights| && Order(weights, total)[j].rest > 0
  {
    hide Floors, Rests, Order, SumTokens, Remainder, Indexes;
    var order, k := Order(weights, total), if j < |weights| then j else |weights|;
    RemainderIsRests(weights, total);
    if k == |weights| || order[k].rest == 0 {
      forall i | 0 <= i < |weights| && Rests(weights, total)[i] > 0
        ensures i in Indexes(order[..k])
      {
        PositiveRestsComeFirst(weights, total, k, i);
      }
      RestsBound(Rests(weights, total), SumTokens(weights), Indexes(order[..k]));
      TooFewTerms(SumTokens(weights), SumTokens(Rests(weights, total)), |Indexes(order[..k])|, k, Remainder(weights, total));
      assert false;
    }
  }

  lemma RemainderWithin(weights: seq<int>, total: nat)
    requires Proportional(weights, total)
    ensures 0 <= Remainder(weights, total) <= |weights|
  {
    hide Floors, Rests, Order, SumTokens, Remainder;
    RemainderIsRests(weights, total);
    if Remainder(weights, total) > 0 {
      RoundedUpHaveFraction(weights, total, Remainder(weights, total) - 1);
    }
  }

  lemma ApportionedIsOnes(weights: seq<int>, total: nat)
    requires Proportional(weights, total)
    ensures 0 <= Remainder(weights, total) <= |weights|
    ensures Apportioned(weights, total) == AddOnes(Floors(weights, total), Order(weights, total), Remainder(weights, total))
  {
    hide Floors, Rests, Order, AddOnes;
    RemainderWithin(weights, total);
  }

  lemma OrderIsDistinct(weights: seq<int>, total: nat)
    requires Proportional(weights, total)
    ensures var order := Order(weights, total);
      forall i, j :: 0 <= i < j < |order| ==> order[i].index != order[j].index
  {
    hide Floors, Rests, Order, SumTokens;
  }

  /** A part is its floor, plus one when its position in the order is below the remainder. */
  lemma PartIs(weights: seq<int>, total: nat, i: nat) returns (j: nat)
    requires Proportional(weights, total) && i < |weights|
    ensures j < |weights| && Order(weights, total)[j] == Fraction(i, Rests(weights, total)[i])
    ensures Apportioned(weights, total)[i] == Floors(weights, total)[i] + (if j < Remainder(weights, total) then 1 else 0)
  {
    hide Floors, Rests, Order, SumTokens, AddOnes, Apportioned, Remainder;
    var order := Order(weights, total);
    ApportionedIsOnes(weights, total);
    OrderIsDistinct(weights, total);
    AddOnesEffect(Floors(weights, total), order, Remainder(weights, total));
    j :| 0 <= j < |order| && order[j] == Fraction(i, Rests(weights, total)[i]);
  }

  // The promises of the rule

  lemma PartsSumToTotal(weights: seq<int>, total: int)
    ensures SumTokens(Apportioned(weights, total)) == if Proportional(weights, total) then total else 0
  {
    hide Floors, Rests, Order, SumTokens, AddOnes;
    if Proportional(weights, total) {
      ApportionedIsOnes(weights, total);
      OrderIsDistinct(weights, total);
      AddOnesEffect(Floors(weights, total), Order(weights, total), Remainder(weights, total));
    } else {
      ScaledSum(Apportioned(weights, total), 0, Apportioned(weights, total));
    }
  }

  /** Quota: every part is the floor or the ceiling of its exact share. */
  lemma PartsKeepQuota(weights: seq<int>, total: nat, i: nat)
    requires Proportional(weights, total) && i < |weights|
    ensures var w, exact := SumTokens(weights), Clamp(weights[i]) * total;
      exact - w < w * Apportioned(weights, total)[i] < exact + w
  {
    hide Floors, Rests, Order, SumTokens, Apportioned, Remainder;
    var j := PartIs(weights, total, i);
    ShareIs(weights, total, i);
    if j < Remainder(weights, total) {
      RoundedUpHaveFraction(weights, total, j);
      Distribute(SumTokens(weights), Floors(weights, total)[i], 1);
    }
  }

  /** Products compare like their factors. */
  lemma Cancel(w: nat, a: int, b: int)
    requires w * a < w * b + w
    ensures a <= b
  {
    if a > b {
      MulIncreases(w, b + 1, a);
      Distribute(w, b, 1);
      assert false;
    }
  }

  lemma ZeroWeightGetsNothing(weights: seq<int>, total: int, i: nat)
    requires i < |weights| && weights[i] <= 0
    ensures Apportioned(weights, total)[i] == 0
  {
    if Proportional(weights, total) {
      hide Floors, Rests, Order, SumTokens, Apportioned;
      PartsKeepQuota(weights, total, i);
      Cancel(SumTokens(weights), Apportioned(weights, total)[i], 0);
    }
  }

  /** A strictly larger weight never gets less. */
  lemma LargerWeightNeverLess(weights: seq<int>, total: int, i: nat, j: nat)
    requires i < |weights| && j < |weights| && weights[i] > weights[j]
    ensures Apportioned(weights, total)[i] >= Apportioned(weights, total)[j]
  {
    if Clamp(weights[i]) == Clamp(weights[j]) {
      ZeroWeightGetsNothing(weights, total, j);
    } else if Proportional(weights, total) {
      hide Floors, Rests, Order, SumTokens, Apportioned, Remainder, Sorted, Proportional;
      var p := PartIs(weights, total, i);
      var q := PartIs(weights, total, j);
      LargerShare(weights, total, i, j);
      LargerFractionFirst(Order(weights, total), p, q);
    }
  }

  /** Of two equal weights the earlier part never gets less. */
  lemma EarlierOfEqualsFirst(weights: seq<int>, total: int, i: nat, j: nat)
    requires i < j < |weights| && weights[i] == weights[j]
    ensures Apportioned(weights, total)[i] >= Apportioned(weights, total)[j]
  {
    hide Floors, Rests, Order, SumTokens, Apportioned, Remainder, Sorted;
    if Proportional(weights, total) {
      var p := PartIs(weights, total, i);
      var q := PartIs(weights, total, j);
      EqualShares(weights, total, i, j);
      SmallerIndexFirst(Order(weights, total), p, q);
    } else {
      NothingToShare(weights, total, i);
      NothingToShare(weights, total, j);
    }
  }

  lemma NothingToShare(weights: seq<int>, total: int, i: nat)
    requires i < |weights| && !Proportional(weights, total)
    ensures Apportioned(weights, total)[i] == 0
  {
  }

  lemma EqualShares(weights: seq<int>, total: nat, i: nat, j: nat)
    requires Proportional(weights, total) && i < |weights| && j < |weights| && weights[i] == weights[j]
    ensures Floors(weights, total)[i] == Floors(weights, total)[j] && Rests(weights, total)[i] == Rests(weights, total)[j]
  {
    hide SumTokens;
  }

  lemma SmallerIndexFirst(order: seq<Fraction>, p: nat, q: nat)
    requires Sorted(order) && p < |order| && q < |order|
    ensures order[p].rest == order[q].rest && order[p].index < order[q].index ==> p < q
  {
  }

  lemma LargerShare(weights: seq<int>, total: nat, i: nat, j: nat)
    requires Proportional(weights, total)
    requires i < |weights| && j < |weights| && Clamp(weights[i]) > Clamp(weights[j])
    ensures var floors, rests := Floors(weights, total), Rests(weights, total);
      floors[j] < floors[i] || (floors[j] == floors[i] && rests[j] < rests[i])
  {
    hide Floors, Rests, SumTokens;
    ShareIs(weights, total, i);
    ShareIs(weights, total, j);
    StrictProducts(total, Clamp(weights[j]), Clamp(weights[i]));
    CompareShares(SumTokens(weights), Floors(weights, total)[j], Rests(weights, total)[j],
                  Floors(weights, total)[i], Rests(weights, total)[i]);
  }

  lemma LargerFractionFirst(order: seq<Fraction>, p: nat, q: nat)
    requires Sorted(order) && p < |order| && q < |order|
    ensures order[p].rest > order[q].rest ==> p < q
  {
  }

  lemma CompareShares(w: nat, f: nat, r: nat, f': nat, r': nat)
    requires w * f + r < w * f' + r' && r' < w
    ensures f < f' || (f == f' && r < r')
  {
    Cancel(w, f, f');
  }

  lemma StrictProducts(a: nat, b: nat, c: nat)
    requires a > 0
    ensures b < c ==> b * a < c * a
  {
    if b < c {
      MulIncreases(a, b + 1, c);
      Distribute(a, b, 1);
    }
  }

  /** Scaling down never gives a part more than its weight. */
  lemma PartsWithinWeights(weights: seq<int>, total: int, i: nat)
    requires i < |weights| && total <= SumTokens(weights)
    ensures Apportioned(weights, total)[i] <= Clamp(weights[i])
  {
    if Proportional(weights, total) {
      hide Floors, Rests, Order, SumTokens, Apportioned;
      PartsKeepQuota(weights, total, i);
      MulIncreases(Clamp(weights[i]), total, SumTokens(weights));
      Cancel(SumTokens(weights), Apportioned(weights, total)[i], Clamp(weights[i]));
    }
  }

  // Optimality

  function Abs(x: int): nat {
    if x < 0 then -x else x
  }

  /** How far an integer split is from the exact shares in all, scaled by the sum `w` of the weights. */
  ghost function Deviation(weights: seq<int>, total: nat, w: nat, split: seq<int>): nat
    requires |split| == |weights|
  {
    if weights == [] then 0
    else Abs(w * split[0] - Clamp(weights[0]) * total) + Deviation(weights[1..], total, w, split[1..])
  }

  ghost function Sum(s: seq<int>): int {
    if s == [] then 0 else s[0] + Sum(s[1..])
  }

  /** A multiplier `m` that makes each part of `best` at least as good as any other integer. */
  ghost predicate Pays(weights: seq<int>, total: nat, w: nat, m: int, best: seq<int>, i: nat, x: int)
    requires i < |weights| == |best|
  {
    Abs(w * best[i] - Clamp(weights[i]) * total) + m * best[i] <= Abs(w * x - Clamp(weights[i]) * total) + m * x
  }

  /** Lagrange: parts that are each optimal at one price are optimal together for their sum. */
  lemma {:induction false} PricedPartsAreOptimal(weights: seq<int>, total: nat, w: nat, m: int, best: seq<int>, other: seq<int>)
    requires |best| == |other| == |weights|
    requires forall i, x :: 0 <= i < |weights| ==> Pays(weights, total, w, m, best, i, x)
    ensures Deviation(weights, total, w, best) + m * Sum(best) <= Deviation(weights, total, w, other) + m * Sum(other)
  {
    if weights != [] {
      assert Pays(weights, total, w, m, best, 0, other[0]);
      forall i, x | 0 <= i < |weights| - 1
        ensures Pays(weights[1..], total, w, m, best[1..], i, x)
      {
        assert Pays(weights, total, w, m, best, i + 1, x);
      }
      PricedPartsAreOptimal(weights[1..], total, w, m, best[1..], other[1..]);
      Distribute(m, best[0], Sum(best[1..]));
      Distribute(m, other[0], Sum(other[1..]));
    }
  }

  /** One part: rounding up pays exactly when its remainder reaches the price's threshold. */
  lemma RoundingPays(w: nat, floor: nat, rest: nat, threshold: nat, up: bool, x: int)
    requires rest < w && threshold < w
    requires if up then rest >= threshold else rest <= threshold
    ensures var best, exact, m := floor + (if up then 1 else 0), w * floor + rest, 2 * threshold - w;
      Abs(w * best - exact) + m * best <= Abs(w * x - exact) + m * x
  {
    var d, m := x - floor, 2 * threshold - w;
    Distribute(w, floor, d);
    Distribute(m, floor, d);
    Distribute(w, floor, 1);
    Distribute(m, floor, 1);
    if d >= 1 {
      MulIncreases(w + m, 1, d);
      Distribute(d, w, m);
    } else if d <= 0 {
      MulIncreases(w - m, 0, -d);
      Distribute(-d, w, -m);
    }
  }

  lemma {:induction false} SumOfTokens(s: seq<nat>)
    ensures Sum(s) == SumTokens(s)
  {
    if s != [] {
      SumOfTokens(s[1..]);
    }
  }

  lemma {:induction false} PartOfZeroSum(s: seq<nat>, i: nat)
    requires i < |s|
    ensures s[i] <= SumTokens(s)
  {
    if i > 0 {
      PartOfZeroSum(s[1..], i - 1);
    }
  }

  /** The remainder of the last part rounded up separates those rounded up from the others. */
  ghost function Threshold(weights: seq<int>, total: nat): (t: nat)
    requires Proportional(weights, total)
    ensures t < SumTokens(weights)
  {
    var remainder := Remainder(weights, total);
    if 0 < remainder <= |weights| then Order(weights, total)[remainder - 1].rest else 0
  }

  lemma ThresholdSeparates(weights: seq<int>, total: nat, j: nat)
    requires Proportional(weights, total) && j < |weights|
    ensures var t, rest := Threshold(weights, total), Order(weights, total)[j].rest;
      if j < Remainder(weights, total) then rest >= t else rest <= t
  {
    hide Floors, Rests, Order, SumTokens, Remainder;
    RemainderWithin(weights, total);
    if Remainder(weights, total) == 0 {
      RemainderIsRests(weights, total);
      PartOfZeroSum(Rests(weights, total), Order(weights, total)[j].index);
    }
  }

  lemma PartPays(weights: seq<int>, total: nat, i: nat, x: int)
    requires Proportional(weights, total) && i < |weights|
    ensures Pays(weights, total, SumTokens(weights), 2 * Threshold(weights, total) - SumTokens(weights),
                 Apportioned(weights, total), i, x)
  {
    hide Floors, Rests, Order, SumTokens, Remainder, Apportioned, Threshold;
    var j := PartIs(weights, total, i);
    ThresholdSeparates(weights, total, j);
    ShareIs(weights, total, i);
    RoundingPays(SumTokens(weights), Floors(weights, total)[i], Rests(weights, total)[i], Threshold(weights, total),
                 j < Remainder(weights, total), x);
  }

  /** No integer split of the total is closer to the exact shares. */
  lemma ApportionmentIsOptimal(weights: seq<int>, total: nat, other: seq<int>)
    requires Proportional(weights, total)
    requires |other| == |weights| && Sum(other) == total
    ensures Deviation(weights, total, SumTokens(weights), Apportioned(weights, total))
         <= Deviation(weights, total, SumTokens(weights), other)
  {
    hide Apportioned, Threshold, SumTokens, Deviation, Pays;
    var w, m := SumTokens(weights), 2 * Threshold(weights, total) - SumTokens(weights);
    forall i, x | 0 <= i < |weights|
      ensures Pays(weights, total, w, m, Apportioned(weights, total), i, x)
    {
      PartPays(weights, total, i, x);
    }
    PricedPartsAreOptimal(weights, total, w, m, Apportioned(weights, total), other);
    PartsSumToTotal(weights, total);
    SumOfTokens(Apportioned(weights, total));
  }

  // splitDurableContext

  datatype Composition = Composition(basePrompt: nat, userRules: nat, skills: nat, workflows: nat, toolDefinitions: nat,
                                     mcpToolDefinitions: nat)

  datatype Breakdown = Breakdown(prefix: Composition, conversation: int)

  function PrefixParts(c: Composition): (r: seq<nat>)
    ensures |r| == 6
  {
    [c.basePrompt, c.userRules, c.skills, c.workflows, c.toolDefinitions, c.mcpToolDefinitions]
  }

  function OfParts(p: seq<nat>): Composition
    requires |p| == 6
  {
    Composition(p[0], p[1], p[2], p[3], p[4], p[5])
  }

  method SplitDurableContext(durableTokens: int, composition: Composition) returns (r: Breakdown)
    ensures r.conversation >= 0
    ensures SumTokens(PrefixParts(r.prefix)) + r.conversation == Clamp(durableTokens)
    ensures forall i :: 0 <= i < 6 ==> PrefixParts(r.prefix)[i] <= PrefixParts(composition)[i]
    ensures SumTokens(PrefixParts(composition)) <= durableTokens ==> r.prefix == composition
    ensures SumTokens(PrefixParts(composition)) > Clamp(durableTokens) ==>
      PrefixParts(r.prefix) == Apportioned(PrefixParts(composition), durableTokens)
    ensures SumTokens(PrefixParts(composition)) >= durableTokens ==> r.conversation == 0
  {
    var durable := Clamp(durableTokens);
    var prefix := PrefixParts(composition);
    var prefixTotal := SumTokens(prefix);
    var fitted := prefix;
    if prefixTotal > durable {
      fitted := ApportionTokens(prefix, durable);
      PartsSumToTotal(prefix, durable);
      forall i | 0 <= i < 6
        ensures fitted[i] <= prefix[i]
      {
        PartsWithinWeights(prefix, durable, i);
      }
    }
    r := Breakdown(OfParts(fitted), durable - SumTokens(fitted));
    assert PrefixParts(r.prefix) == fitted;
  }
}
