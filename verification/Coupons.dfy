/** Coupon discounts: the largest-remainder split of a platform coupon over the
    shop groups of a cart, and the per-group coupons.  Money is whole cents,
    ideal shares and percentages are exact reals. */
module Coupons {
  import opened Common

  // ----- rounding -----

  /** toFixed(2) on an amount given in cents: to the nearest cent, halves away from zero. */
  function ToFixedCents(x: real): int
  {
    if x < 0.0 then -MathRound(-x) else MathRound(x)
  }

  function Fraction(x: real): (r: real)
    ensures 0.0 <= r < 1.0
  {
    x - x.Floor as real
  }

  function AbsReal(x: real): real
  {
    if x < 0.0 then -x else x
  }

  // ----- carts and coupons -----

  datatype Item = Item(productId: string, categoryId: string, price: int, qty: int)

  datatype Group = Group(shopId: string, items: seq<Item>, deliveryFee: int)

  /** maxDiscount is 0.0 when the coupon has no cap. */
  datatype Terms =
    | Percentage(percent: real, maxDiscount: real)
    | Flat(amount: real)

  function LinePrice(it: Item): int
  {
    it.price * it.qty
  }

  function GroupItemTotal(g: Group): int
  {
    SumBy(g.items, LinePrice)
  }

  function GroupTotals(groups: seq<Group>): (totals: seq<int>)
    ensures |totals| == |groups|
  {
    seq(|groups|, i requires 0 <= i < |groups| => GroupItemTotal(groups[i]))
  }

  function RawDiscount(base: int, terms: Terms): real
  {
    match terms
    case Percentage(percent, cap) =>
      var discount := base as real * percent / 100.0;
      if cap != 0.0 && discount > cap then cap else discount
    case Flat(amount) => amount
  }

  function CappedDiscount(base: int, terms: Terms): (d: real)
    ensures d <= base as real
  {
    var raw := RawDiscount(base, terms);
    if raw <= base as real then raw else base as real
  }

  /** A percentage coupon never gives more than its cap, and a flat or percentage
      discount never more than the amount it applies to. */
  lemma DiscountBounds(base: int, terms: Terms)
    ensures CappedDiscount(base, terms) <= base as real
    ensures terms.Percentage? && terms.maxDiscount != 0.0 ==> CappedDiscount(base, terms) <= terms.maxDiscount
    ensures terms.Percentage? && 0 <= base && 0.0 <= terms.percent && 0.0 <= terms.maxDiscount
            ==> 0.0 <= CappedDiscount(base, terms)
  {
    if terms.Percentage? && 0 <= base && 0.0 <= terms.percent {
      ProductNonNegative(base as real, terms.percent);
    }
  }

  // ----- prices and discounts, summed up -----

  /** What a list of items costs: the price of each times its quantity. */
  ghost function Cost(items: seq<Item>): int
  {
    Sum(seq(|items|, i requires 0 <= i < |items| => items[i].price * items[i].qty))
  }

  ghost function CartCost(groups: seq<Group>): int
  {
    Sum(seq(|groups|, i requires 0 <= i < |groups| => Cost(groups[i].items)))
  }

  lemma {:induction false} ItemTotalIsCost(items: seq<Item>)
    ensures SumBy(items, LinePrice) == Cost(items)
  {
    var prices := seq(|items|, i requires 0 <= i < |items| => items[i].price * items[i].qty);
    if items != [] {
      var last := |items| - 1;
      ItemTotalIsCost(items[..last]);
      assert prices[..last] == seq(last, i requires 0 <= i < last => items[..last][i].price * items[..last][i].qty);
    }
  }

  lemma CartTotalIsCost(groups: seq<Group>)
    ensures Sum(GroupTotals(groups)) == CartCost(groups)
  {
    forall i | 0 <= i < |groups|
      ensures GroupItemTotal(groups[i]) == Cost(groups[i].items)
    {
      ItemTotalIsCost(groups[i].items);
    }
    assert GroupTotals(groups) == seq(|groups|, i requires 0 <= i < |groups| => Cost(groups[i].items));
  }

  /** An item of quantity m + n costs as much as the two items of quantities m and n. */
  lemma QuantitiesAdd(items: seq<Item>, it: Item, m: int, n: int)
    ensures SumBy(items + [it.(qty := m + n)], LinePrice) == SumBy(items + [it.(qty := m), it.(qty := n)], LinePrice)
  {
    SumByAppend(items, it.(qty := m + n), LinePrice);
    SumByAppend(items, it.(qty := m), LinePrice);
    SumByAppend(items + [it.(qty := m)], it.(qty := n), LinePrice);
    assert items + [it.(qty := m), it.(qty := n)] == (items + [it.(qty := m)]) + [it.(qty := n)];
  }

  function MinReal(a: real, b: real): real
  {
    if a <= b then a else b
  }

  /** The least of the coupon's amount, the amount it applies to, and its cap if it has one. */
  function LeastDiscount(base: int, terms: Terms): real
  {
    match terms
    case Flat(amount) => MinReal(amount, base as real)
    case Percentage(percent, cap) =>
      var share := MinReal(base as real * percent / 100.0, base as real);
      if cap == 0.0 then share else MinReal(share, cap)
  }

  lemma DiscountIsLeast(base: int, terms: Terms)
    ensures CappedDiscount(base, terms) == LeastDiscount(base, terms)
  {
  }

  // ----- the specification of the split -----

  function Ideal(total: int, cartTotal: int, discount: real): real
    requires cartTotal != 0
  {
    (total as real / cartTotal as real) * discount
  }

  function Ideals(totals: seq<int>, cartTotal: int, discount: real): (q: seq<real>)
    requires cartTotal != 0
    ensures |q| == |totals|
  {
    seq(|totals|, i requires 0 <= i < |totals| => Ideal(totals[i], cartTotal, discount))
  }

  function Floors(q: seq<real>): (f: seq<int>)
    ensures |f| == |q|
  {
    seq(|q|, i requires 0 <= i < |q| => q[i].Floor)
  }

  function SumReal(q: seq<real>): real
  {
    if q == [] then 0.0 else SumReal(q[..|q| - 1]) + q[|q| - 1]
  }

  function Remainders(q: seq<real>): (r: seq<real>)
    ensures |r| == |q|
  {
    seq(|q|, i requires 0 <= i < |q| => Fraction(q[i]))
  }

  /** Index i comes before index j in the stable descending order of r. */
  predicate Before(r: seq<real>, i: int, j: int)
  {
    && 0 <= i < |r| && 0 <= j < |r|
    && (r[i] > r[j] || (r[i] == r[j] && i < j))
  }

  /** x splits total over the groups by largest remainder: every share is its
      ideal rounded down or one more, and the groups that got one more come
      before all the others. */
  ghost predicate LargestRemainder(q: seq<real>, total: int, x: seq<int>)
  {
    && |x| == |q|
    && Sum(x) == total
    && (forall i :: 0 <= i < |q| ==> x[i] == q[i].Floor || x[i] == q[i].Floor + 1)
    && (forall i, j :: 0 <= i < |q| && 0 <= j < |q| && x[i] == q[i].Floor + 1 && x[j] == q[j].Floor
                       ==> Before(Remainders(q), i, j))
  }

  /** Total absolute deviation of the split x from the ideal q. */
  function Deviation(q: seq<real>, x: seq<int>): real
    requires |q| == |x|
  {
    if q == [] then 0.0
    else Deviation(q[..|q| - 1], x[..|q| - 1]) + AbsReal(x[|q| - 1] as real - q[|q| - 1])
  }

  // ----- the residue -----

  lemma IdealAdds(a: int, b: int, cartTotal: int, discount: real)
    requires cartTotal != 0
    ensures Ideal(a + b, cartTotal, discount) == Ideal(a, cartTotal, discount) + Ideal(b, cartTotal, discount)
  {
    var c := cartTotal as real;
    assert (a as real + b as real) / c == a as real / c + b as real / c;
  }

  lemma {:induction false} IdealsSum(totals: seq<int>, cartTotal: int, discount: real)
    requires cartTotal != 0
    ensures SumReal(Ideals(totals, cartTotal, discount)) == Ideal(Sum(totals), cartTotal, discount)
  {
    if totals != [] {
      var last := |totals| - 1;
      assert Ideals(totals, cartTotal, discount)[..last] == Ideals(totals[..last], cartTotal, discount);
      IdealsSum(totals[..last], cartTotal, discount);
      IdealAdds(Sum(totals[..last]), totals[last], cartTotal, discount);
    }
  }

  /** The groups with a non-zero remainder. */
  function Fractional(q: seq<real>): (k: seq<int>)
    ensures |k| == |q|
  {
    seq(|q|, i requires 0 <= i < |q| => if Fraction(q[i]) == 0.0 then 0 else 1)
  }

  lemma {:induction false} RemaindersBound(q: seq<real>)
    ensures Sum(Floors(q)) as real <= SumReal(q)
    ensures 0 <= Sum(Fractional(q)) <= |q|
    ensures if Sum(Fractional(q)) == 0 then SumReal(q) == Sum(Floors(q)) as real
            else SumReal(q) < (Sum(Floors(q)) + Sum(Fractional(q))) as real
  {
    if q != [] {
      var last := |q| - 1;
      RemaindersBound(q[..last]);
      assert Floors(q)[..last] == Floors(q[..last]);
      assert Fractional(q)[..last] == Fractional(q[..last]);
    }
  }

  lemma RoundedResidue(d: real, f: int, k: int)
    requires f as real <= d && 0 <= k
    requires if k == 0 then d == f as real else d < (f + k) as real
    ensures 0 <= MathRound(d) - f <= k
  {
  }

  lemma WholeIdeal(cartTotal: int, discount: real)
    requires cartTotal != 0
    ensures Ideal(cartTotal, cartTotal, discount) == discount
  {
    assert cartTotal as real / cartTotal as real == 1.0;
  }

  /** The cents left over after rounding every ideal down: at least none, and
      at most one for each group that has a non-zero remainder. */
  lemma ResidueBound(q: seq<real>, discount: real)
    requires SumReal(q) == discount
    ensures 0 <= MathRound(discount) - Sum(Floors(q)) <= Sum(Fractional(q)) <= |q|
  {
    RemaindersBound(q);
    RoundedResidue(discount, Sum(Floors(q)), Sum(Fractional(q)));
  }

  // ----- the stable sort of the indices by remainder, descending -----

  ghost predicate Ordered(r: seq<real>, order: seq<nat>)
  {
    forall a, b :: 0 <= a < b < |order| ==> Before(r, order[a], order[b])
  }

  ghost predicate IsOrder(r: seq<real>, order: seq<nat>, k: nat)
  {
    && |order| == k <= |r|
    && (forall a :: 0 <= a < |order| ==> order[a] < k)
    && (forall i: nat :: i < k ==> i in order)
    && Ordered(r, order)
  }

  function InsertIndex(r: seq<real>, order: seq<nat>, k: nat): (t: seq<nat>)
    ensures |t| == |order| + 1
    ensures forall i :: i in t <==> i == k || i in order
  {
    if order != [] && Before(r, order[0], k) then [order[0]] + InsertIndex(r, order[1..], k)
    else [k] + order
  }

  lemma {:induction false} InsertKeepsSorted(r: seq<real>, order: seq<nat>, k: nat)
    requires k < |r| && forall a :: 0 <= a < |order| ==> order[a] < k
    requires Ordered(r, order)
    ensures Ordered(r, InsertIndex(r, order, k))
  {
    if order != [] && Before(r, order[0], k) {
      InsertKeepsSorted(r, order[1..], k);
      var t := InsertIndex(r, order[1..], k);
      forall b | 0 <= b < |t|
        ensures Before(r, order[0], t[b])
      {
        assert t[b] in t;
        if t[b] != k {
          var c :| 0 <= c < |order[1..]| && order[1..][c] == t[b];
          assert order[c + 1] == t[b];
        }
      }
      var u := InsertIndex(r, order, k);
      assert u == [order[0]] + t;
      forall a, b | 0 <= a < b < |u|
        ensures Before(r, u[a], u[b])
      {
        assert u[b] == t[b - 1];
        assert a > 0 ==> u[a] == t[a - 1];
      }
    }
  }

  lemma InsertKeepsOrder(r: seq<real>, order: seq<nat>, k: nat)
    requires k < |r| && IsOrder(r, order, k)
    ensures IsOrder(r, InsertIndex(r, order, k), k + 1)
  {
    InsertKeepsSorted(r, order, k);
    var t := InsertIndex(r, order, k);
    assert forall a :: 0 <= a < |t| ==> t[a] in t;
  }

  function SortedIndices(r: seq<real>, k: nat): (order: seq<nat>)
    requires k <= |r|
    ensures IsOrder(r, order, k)
  {
    if k == 0 then []
    else
      InsertKeepsOrder(r, SortedIndices(r, k - 1), k - 1);
      InsertIndex(r, SortedIndices(r, k - 1), k - 1)
  }

  lemma OrderIsInjective(r: seq<real>, order: seq<nat>, k: nat)
    requires IsOrder(r, order, k)
    ensures forall a, b :: 0 <= a < |order| && 0 <= b < |order| && a != b ==> order[a] != order[b]
  {
    forall a, b | 0 <= a < b < |order|
      ensures order[a] != order[b]
    {
      assert Before(r, order[a], order[b]);
    }
  }

  // ----- the algorithm -----

  /** Give the residue out one cent at a time, in the order of the indices. */
  method GiveResidue(floored: array<int>, indices: seq<nat>, residue: nat)
    requires |indices| == floored.Length && residue <= floored.Length
    requires forall a :: 0 <= a < |indices| ==> indices[a] < floored.Length
    requires forall a, b :: 0 <= a < |indices| && 0 <= b < |indices| && a != b ==> indices[a] != indices[b]
    modifies floored
    ensures Sum(floored[..]) == old(Sum(floored[..])) + residue
    ensures forall a :: 0 <= a < |indices| ==>
              floored[indices[a]] == old(floored[indices[a]]) + if a < residue then 1 else 0
  {
    hide Sum;
    for k := 0 to residue
      invariant Sum(floored[..]) == old(Sum(floored[..])) + k
      invariant forall a :: 0 <= a < |indices| ==>
                  floored[indices[a]] == old(floored[indices[a]]) + if a < k then 1 else 0
    {
      var i := indices[k];
      ghost var was := floored[..];
      SumUpdate(was, i, was[i] + 1);
      floored[i] := floored[i] + 1;
      assert floored[..] == was[i := was[i] + 1];
    }
  }

  /** Round every ideal down, then give the residue out in the order of the remainders. */
  method RoundByLargestRemainder(q: seq<real>, totalCents: int) returns (shares: seq<int>)
    requires 0 <= totalCents - Sum(Floors(q)) <= |q|
    ensures LargestRemainder(q, totalCents, shares)
  {
    var n := |q|;
    var floored := new int[n](i requires 0 <= i < n => q[i].Floor);
    assert floored[..] == Floors(q);
    hide Floors, Remainders, Ordered, LargestRemainder, Sum;
    var residue := totalCents - Sum(floored[..]);
    var indices := SortedIndices(Remainders(q), n);
    OrderIsInjective(Remainders(q), indices, n);
    GiveResidue(floored, indices, residue);
    shares := floored[..];
    RaisedIsLargestRemainder(q, totalCents, indices, residue, shares);
  }

  lemma RaisedIsLargestRemainder(q: seq<real>, total: int, order: seq<nat>, residue: nat, x: seq<int>)
    requires IsOrder(Remainders(q), order, |q|) && residue <= |q| == |x| && Sum(x) == total
    requires forall a :: 0 <= a < |q| ==> x[order[a]] == Floors(q)[order[a]] + if a < residue then 1 else 0
    ensures LargestRemainder(q, total, x)
  {
    var floors := Floors(q);
    forall i: nat | i < |q|
      ensures x[i] == floors[i] || x[i] == floors[i] + 1
    {
      var a := Position(order, i);
    }
    forall i: nat, j: nat | i < |q| && j < |q| && x[i] == floors[i] + 1 && x[j] == floors[j]
      ensures Before(Remainders(q), i, j)
    {
      var a := Position(order, i);
      var b := Position(order, j);
      assert Before(Remainders(q), order[a], order[b]);
    }
  }

  lemma Position(order: seq<nat>, i: nat) returns (a: nat)
    requires i in order
    ensures a < |order| && order[a] == i
  {
    a :| 0 <= a < |order| && order[a] == i;
  }

  /** The proportional split of a discount over the group totals. */
  method DistributeProportional(totals: seq<int>, cartTotal: int, discount: real) returns (shares: seq<int>)
    requires cartTotal == Sum(totals) && cartTotal != 0
    ensures LargestRemainder(Ideals(totals, cartTotal, discount), MathRound(discount), shares)
  {
    var ideals := Ideals(totals, cartTotal, discount);
    IdealsSum(totals, cartTotal, discount);
    WholeIdeal(cartTotal, discount);
    ResidueBound(ideals, discount);
    shares := RoundByLargestRemainder(ideals, MathRound(discount));
  }

  // ----- what the split guarantees -----

  /** A group gets the extra cent before another exactly because of a larger
      fraction of a cent in its ideal, or, of equal ones, as the earlier group. */
  lemma RaisedBefore(q: seq<real>, total: int, x: seq<int>, i: nat, j: nat)
    requires LargestRemainder(q, total, x) && i < |q| && j < |q|
    requires x[i] == q[i].Floor + 1 && x[j] == q[j].Floor
    ensures var a, b := q[i] - q[i].Floor as real, q[j] - q[j].Floor as real; a > b || (a == b && i < j)
  {
  }

  lemma BeforeIsStrict(r: seq<real>, i: int, j: int)
    ensures !(Before(r, i, j) && Before(r, j, i))
    ensures Before(r, i, j) ==> r[i] >= r[j]
  {
  }

  /** No other split of the same total rounds by largest remainder: the result
      does not depend on how the residue is handed out. */
  lemma {:induction false} LargestRemainderUnique(q: seq<real>, total: int, x: seq<int>, y: seq<int>)
    requires LargestRemainder(q, total, x) && LargestRemainder(q, total, y)
    ensures x == y
  {
    // If some group is better off in x, no group can be better off in y.
    if i :| 0 <= i < |q| && x[i] > y[i] {
      forall j | 0 <= j < |q|
        ensures y[j] <= x[j]
      {
        BeforeIsStrict(Remainders(q), i, j);
      }
      SumPointwise(y, x);
    } else {
      SumPointwise(x, y);
    }
  }

  /** A group whose ideal is a whole number of cents gets exactly that, and
      every other group gets its ideal rounded down or up. */
  lemma ShareIsQuota(q: seq<real>, discount: real, x: seq<int>, i: nat)
    requires SumReal(q) == discount && i < |q|
    requires LargestRemainder(q, MathRound(discount), x)
    ensures q[i] - 1.0 < x[i] as real < q[i] + 1.0
    ensures Fraction(q[i]) == 0.0 ==> x[i] as real == q[i]
  {
    if Fraction(q[i]) == 0.0 && x[i] == q[i].Floor + 1 {
      // Then every group with a remainder was raised too, which takes more
      // than the residue.
      ResidueBound(q, discount);
      var raised := seq(|q|, j requires 0 <= j < |q| => x[j] - q[j].Floor);
      SumDifference(x, Floors(q), raised);
      forall j | 0 <= j < |q|
        ensures Fractional(q)[j] <= raised[j]
      {
        if x[j] == q[j].Floor && j != i {
          assert Before(Remainders(q), i, j);
        }
      }
      assert Fractional(q)[i] != raised[i];
      SumPointwise(Fractional(q), raised);
    }
  }

  lemma {:induction false} SumDifference(s: seq<int>, t: seq<int>, d: seq<int>)
    requires |s| == |t| == |d|
    requires forall i :: 0 <= i < |s| ==> d[i] == s[i] - t[i]
    ensures Sum(d) == Sum(s) - Sum(t)
  {
    if s != [] {
      var last := |s| - 1;
      SumDifference(s[..last], t[..last], d[..last]);
    }
  }

  lemma IdealWithin(total: int, cartTotal: int, discount: real)
    requires 0 <= total && 0 < cartTotal && 0.0 <= discount <= cartTotal as real
    ensures 0.0 <= Ideal(total, cartTotal, discount) <= total as real
  {
    var t, c := total as real, cartTotal as real;
    var part := t / c;
    assert part >= 0.0;
    assert part * c == t;
    assert part * discount <= part * c;
  }

  /** With whole-cent totals and a discount between zero and the cart total, no
      group pays a negative share or a share above its own total. */
  lemma ShareWithinTotal(totals: seq<int>, cartTotal: int, discount: real, x: seq<int>, i: nat)
    requires cartTotal == Sum(totals) && cartTotal > 0 && i < |totals| && 0 <= totals[i]
    requires 0.0 <= discount <= cartTotal as real
    requires LargestRemainder(Ideals(totals, cartTotal, discount), MathRound(discount), x)
    ensures 0 <= x[i] <= totals[i]
  {
    var q := Ideals(totals, cartTotal, discount);
    IdealsSum(totals, cartTotal, discount);
    WholeIdeal(cartTotal, discount);
    ShareIsQuota(q, discount, x, i);
    IdealWithin(totals[i], cartTotal, discount);
    WholeBound(x[i], q[i], totals[i]);
  }

  lemma WholeBound(x: int, q: real, t: int)
    requires 0.0 <= q <= t as real
    requires q - 1.0 < x as real < q + 1.0
    requires Fraction(q) == 0.0 ==> x as real == q
    ensures 0 <= x <= t
  {
  }

  /** A group with a larger ideal never gets a smaller share. */
  lemma LargerIdealLargerShare(q: seq<real>, total: int, x: seq<int>, i: nat, j: nat)
    requires LargestRemainder(q, total, x) && i < |q| && j < |q| && q[i] < q[j]
    ensures x[i] <= x[j]
  {
    assert q[i].Floor <= q[j].Floor;
    BeforeIsStrict(Remainders(q), i, j);
  }

  // ----- optimality -----

  /** A threshold between the remainders that were raised and those that were not. */
  lemma {:induction false} Threshold(q: seq<real>, x: seq<int>) returns (theta: real)
    requires |x| == |q|
    requires forall i :: 0 <= i < |q| ==> x[i] == q[i].Floor || x[i] == q[i].Floor + 1
    ensures 0.0 <= theta <= 1.0
    ensures forall i :: 0 <= i < |q| && x[i] == q[i].Floor + 1 ==> theta <= Fraction(q[i])
    ensures theta == 1.0 || exists i :: 0 <= i < |q| && x[i] == q[i].Floor + 1 && theta == Fraction(q[i])
  {
    theta := 1.0;
    if q != [] {
      var last := |q| - 1;
      theta := Threshold(q[..last], x[..last]);
      if x[last] == q[last].Floor + 1 && Fraction(q[last]) < theta {
        theta := Fraction(q[last]);
      }
    }
  }

  /** The share x of the ideal q was rounded on the right side of theta. */
  predicate Supports(theta: real, q: real, x: int)
  {
    || (x == q.Floor && Fraction(q) <= theta)
    || (x == q.Floor + 1 && theta <= Fraction(q))
  }

  function Slope(theta: real, m: int): real
  {
    (1.0 - 2.0 * theta) * m as real
  }

  /** The distance from q is convex, and 1 - 2 * theta is one of its slopes at
      the largest-remainder share. */
  lemma Subgradient(q: real, x: int, y: int, theta: real)
    requires 0.0 <= theta <= 1.0
    requires Supports(theta, q, x)
    ensures AbsReal(y as real - q) >= AbsReal(x as real - q) + Slope(theta, y - x)
  {
    var m := (y - x) as real;
    if y > x {
      ProductNonNegative(theta, m - 1.0);
    } else {
      ProductNonNegative(1.0 - theta, -m);
      if y < x {
        ProductNonNegative(1.0 - theta, -m - 1.0);
      }
    }
  }

  lemma ProductNonNegative(a: real, b: real)
    requires 0.0 <= a && 0.0 <= b
    ensures 0.0 <= a * b
  {
  }

  lemma {:induction false} DeviationBound(q: seq<real>, x: seq<int>, y: seq<int>, d: seq<real>)
    requires |x| == |q| == |y| == |d|
    requires forall i :: 0 <= i < |q| ==> AbsReal(y[i] as real - q[i]) >= AbsReal(x[i] as real - q[i]) + d[i]
    ensures Deviation(q, y) >= Deviation(q, x) + SumReal(d)
  {
    if q != [] {
      var last := |q| - 1;
      DeviationBound(q[..last], x[..last], y[..last], d[..last]);
    }
  }

  lemma SlopeAdds(theta: real, a: int, b: int)
    ensures Slope(theta, a + b) == Slope(theta, a) + Slope(theta, b)
    ensures Slope(theta, 0) == 0.0
  {
  }

  function Slopes(theta: real, x: seq<int>, y: seq<int>): (d: seq<real>)
    requires |x| == |y|
    ensures |d| == |x| && forall i :: 0 <= i < |x| ==> d[i] == Slope(theta, y[i] - x[i])
  {
    seq(|x|, i requires 0 <= i < |x| => Slope(theta, y[i] - x[i]))
  }

  lemma {:induction false} SlopesSum(theta: real, x: seq<int>, y: seq<int>)
    requires |x| == |y|
    ensures SumReal(Slopes(theta, x, y)) == Slope(theta, Sum(y) - Sum(x))
  {
    if x == [] {
      SlopeAdds(theta, 0, 0);
    } else {
      var last := |x| - 1;
      SlopesSum(theta, x[..last], y[..last]);
      assert Slopes(theta, x, y)[..last] == Slopes(theta, x[..last], y[..last]);
      SlopeAdds(theta, Sum(y[..last]) - Sum(x[..last]), y[last] - x[last]);
    }
  }

  lemma Margins(q: seq<real>, total: int, x: seq<int>, y: seq<int>) returns (d: seq<real>)
    requires LargestRemainder(q, total, x) && |y| == |q|
    ensures |d| == |q|
    ensures forall i :: 0 <= i < |q| ==> AbsReal(y[i] as real - q[i]) >= AbsReal(x[i] as real - q[i]) + d[i]
    ensures Sum(x) == Sum(y) ==> SumReal(d) == 0.0
  {
    var theta := Threshold(q, x);
    d := Slopes(theta, x, y);
    forall i | 0 <= i < |q|
      ensures AbsReal(y[i] as real - q[i]) >= AbsReal(x[i] as real - q[i]) + d[i]
    {
      ThresholdSupports(q, total, x, theta, i);
      Subgradient(q[i], x[i], y[i], theta);
    }
    SlopesSum(theta, x, y);
    SlopeAdds(theta, 0, 0);
  }

  /** Of all ways to split the rounded discount into whole cents (even with
      negative shares), the largest-remainder split deviates least from the
      ideal shares in total. */
  lemma LeastDeviation(q: seq<real>, total: int, x: seq<int>, y: seq<int>)
    requires LargestRemainder(q, total, x)
    requires |y| == |q| && Sum(y) == total
    ensures Deviation(q, x) <= Deviation(q, y)
  {
    var d := Margins(q, total, x, y);
    DeviationBound(q, x, y, d);
  }

  lemma ThresholdSupports(q: seq<real>, total: int, x: seq<int>, theta: real, i: nat)
    requires LargestRemainder(q, total, x) && i < |q|
    requires forall j :: 0 <= j < |q| && x[j] == q[j].Floor + 1 ==> theta <= Fraction(q[j])
    requires theta == 1.0 || exists j :: 0 <= j < |q| && x[j] == q[j].Floor + 1 && theta == Fraction(q[j])
    ensures Supports(theta, q[i], x[i])
  {
    if x[i] == q[i].Floor && theta != 1.0 {
      var j :| 0 <= j < |q| && x[j] == q[j].Floor + 1 && theta == Fraction(q[j]);
      BeforeIsStrict(Remainders(q), j, i);
    }
  }

  // ----- applying a coupon to a cart -----

  datatype ShopDiscount = ShopDiscount(shopId: string, discount: int, deliveryDiscount: int)

  datatype Breakdown = Breakdown(totalDiscount: int, shopDiscounts: seq<ShopDiscount>)

  function ItemDiscounts(ds: seq<ShopDiscount>): (x: seq<int>)
    ensures |x| == |ds|
  {
    seq(|ds|, i requires 0 <= i < |ds| => ds[i].discount)
  }

  function CartTotal(groups: seq<Group>): int
  {
    Sum(GroupTotals(groups))
  }

  lemma FloorIs(x: real, n: int)
    requires n as real <= x < (n + 1) as real
    ensures x.Floor == n
  {
  }

  /** toFixed(2) is the nearest cent, and of two equally near ones the one
      further from zero. */
  lemma NearestCent(x: real, n: int)
    ensures n == ToFixedCents(x) <==>
              if x < 0.0 then n as real - 0.5 < x <= n as real + 0.5 else n as real - 0.5 <= x < n as real + 0.5
  {
    NearestAbove(x, n);
    NearestAbove(-x, -n);
  }

  lemma NearestAbove(x: real, n: int)
    ensures MathRound(x) == n <==> n as real - 0.5 <= x < n as real + 0.5
  {
    if n as real - 0.5 <= x < n as real + 0.5 {
      FloorIs(x + 0.5, n);
    }
  }

  lemma MathRoundIs(x: real)
    ensures MathRound(x) == x.Floor + if Fraction(x) < 0.5 then 0 else 1
  {
    FloorIs(x + 0.5, x.Floor + if Fraction(x) < 0.5 then 0 else 1);
  }

  /** toFixed(2) and Math.round disagree exactly on negative half cents. */
  lemma RoundingsAgree(x: real)
    ensures ToFixedCents(x) == MathRound(x) <==> 0.0 <= x || Fraction(x) != 0.5
  {
    MathRoundIs(x);
    MathRoundIs(-x);
    FloorIs(-x, if Fraction(x) == 0.0 then -x.Floor else -x.Floor - 1);
  }

  /** Every share is within a cent of the group's part of the discount. */
  ghost predicate NearIdeals(groups: seq<Group>, d: real, shares: seq<int>)
    requires |shares| == |groups| && CartCost(groups) != 0
  {
    forall i :: 0 <= i < |groups| ==>
      -1.0 < shares[i] as real - Cost(groups[i].items) as real / CartCost(groups) as real * d < 1.0
  }

  lemma ShareNearIdeal(groups: seq<Group>, d: real, shares: seq<int>, i: nat)
    requires CartTotal(groups) != 0 && i < |groups|
    requires LargestRemainder(Ideals(GroupTotals(groups), CartTotal(groups), d), MathRound(d), shares)
    ensures var q := Ideals(GroupTotals(groups), CartTotal(groups), d);
            q[i] - 1.0 < shares[i] as real < q[i] + 1.0
  {
    hide LargestRemainder, Ideals, MathRound;
    IdealsSum(GroupTotals(groups), CartTotal(groups), d);
    WholeIdeal(CartTotal(groups), d);
    ShareIsQuota(Ideals(GroupTotals(groups), CartTotal(groups), d), d, shares, i);
  }

  lemma SharesNearIdeals(groups: seq<Group>, d: real, shares: seq<int>)
    requires CartTotal(groups) != 0 && CartCost(groups) == CartTotal(groups)
    requires LargestRemainder(Ideals(GroupTotals(groups), CartTotal(groups), d), MathRound(d), shares)
    ensures |shares| == |groups| && NearIdeals(groups, d, shares)
  {
    hide Cost, CartCost, CartTotal, SumBy, MathRound;
    forall i | 0 <= i < |groups|
      ensures -1.0 < shares[i] as real - Cost(groups[i].items) as real / CartCost(groups) as real * d < 1.0
    {
      ItemTotalIsCost(groups[i].items);
      ShareNearIdeal(groups, d, shares, i);
      assert Ideals(GroupTotals(groups), CartTotal(groups), d)[i]
          == Ideal(GroupItemTotal(groups[i]), CartTotal(groups), d);
    }
  }

  /** A platform coupon: the returned shares add up to the returned total, and
      no group gets back more than it costs. */
  method ApplyPlatformCoupon(groups: seq<Group>, terms: Terms) returns (b: Breakdown)
    ensures CartTotal(groups) <= 0 ==> b == Breakdown(0, [])
    ensures CartTotal(groups) > 0 ==>
              var d := CappedDiscount(CartTotal(groups), terms);
              && |b.shopDiscounts| == |groups|
              && (forall i :: 0 <= i < |groups| ==> b.shopDiscounts[i].shopId == groups[i].shopId)
              && (forall i :: 0 <= i < |groups| ==> b.shopDiscounts[i].deliveryDiscount == 0)
              && b.totalDiscount == ToFixedCents(d)
              && LargestRemainder(Ideals(GroupTotals(groups), CartTotal(groups), d), MathRound(d),
                                  ItemDiscounts(b.shopDiscounts))
    ensures CartTotal(groups) > 0 && 0.0 <= CappedDiscount(CartTotal(groups), terms) ==>
              && Sum(ItemDiscounts(b.shopDiscounts)) == b.totalDiscount
              && forall i :: 0 <= i < |groups| && 0 <= GroupItemTotal(groups[i]) ==>
                               0 <= b.shopDiscounts[i].discount <= GroupItemTotal(groups[i])
    ensures CartTotal(groups) == CartCost(groups)
    ensures CartCost(groups) > 0 ==>
              var d := LeastDiscount(CartCost(groups), terms);
              b.totalDiscount == ToFixedCents(d) && NearIdeals(groups, d, ItemDiscounts(b.shopDiscounts))
  {
    hide CappedDiscount, LeastDiscount, Cost, CartCost, LargestRemainder, ToFixedCents, Ideals, NearIdeals;
    hide GroupItemTotal, MathRound, Fraction;
    CartTotalIsCost(groups);
    var groupTotals := GroupTotals(groups);
    var cartTotal := Sum(groupTotals);
    if cartTotal <= 0 {
      return Breakdown(0, []);
    }
    var totalDiscount := CappedDiscount(cartTotal, terms);
    var shares := DistributeProportional(groupTotals, cartTotal, totalDiscount);
    b := Breakdown(ToFixedCents(totalDiscount),
                   seq(|groups|, i requires 0 <= i < |groups| => ShopDiscount(groups[i].shopId, shares[i], 0)));
    assert ItemDiscounts(b.shopDiscounts) == shares;
    RoundingsAgree(totalDiscount);
    DiscountIsLeast(cartTotal, terms);
    SharesNearIdeals(groups, totalDiscount, shares);
    if 0.0 <= totalDiscount {
      forall i | 0 <= i < |groups| && 0 <= GroupItemTotal(groups[i])
        ensures 0 <= shares[i] <= GroupItemTotal(groups[i])
      {
        ShareWithinTotal(groupTotals, cartTotal, totalDiscount, shares, i);
      }
    }
  }

  // ----- rounding every amount on its own -----

  function Rounded(q: seq<real>): (x: seq<int>)
    ensures |x| == |q|
  {
    seq(|q|, i requires 0 <= i < |q| => ToFixedCents(q[i]))
  }

  /** What an amount is above the cent it rounds to: its fraction when it is
      rounded down, a cent less when it is rounded up. */
  function Excess(x: real): (e: real)
    ensures -0.5 <= e <= 0.5
  {
    if Fraction(x) < 0.5 || (x < 0.0 && Fraction(x) == 0.5) then Fraction(x) else Fraction(x) - 1.0
  }

  function TotalExcess(q: seq<real>): real
  {
    if q == [] then 0.0 else TotalExcess(q[..|q| - 1]) + Excess(q[|q| - 1])
  }

  /** The excess of the groups rounded to whole cents, halves away from zero or
      not as the sign of the total has it. */
  function Drift(q: seq<real>): int
  {
    if SumReal(q) < 0.0 then -MathRound(-TotalExcess(q)) else MathRound(TotalExcess(q))
  }

  lemma ExcessIs(x: real)
    ensures x == ToFixedCents(x) as real + Excess(x)
  {
    MathRoundIs(x);
    MathRoundIs(-x);
    FloorIs(-x, if Fraction(x) == 0.0 then -x.Floor else -x.Floor - 1);
  }

  lemma {:induction false} TotalExcessIs(q: seq<real>)
    ensures SumReal(q) == Sum(Rounded(q)) as real + TotalExcess(q)
  {
    hide ToFixedCents, Excess;
    if q != [] {
      var last := |q| - 1;
      TotalExcessIs(q[..last]);
      assert Rounded(q)[..last] == Rounded(q[..last]);
      ExcessIs(q[last]);
    }
  }

  lemma MathRoundShift(n: int, x: real)
    ensures MathRound(n as real + x) == n + MathRound(x)
  {
    FloorIs(n as real + x + 0.5, n + MathRound(x));
  }

  /** The total misses the sum of the rounded discounts by exactly the rounded excess. */
  lemma DriftIs(q: seq<real>)
    ensures ToFixedCents(SumReal(q)) - Sum(Rounded(q)) == Drift(q)
  {
    hide MathRound;
    TotalExcessIs(q);
    MathRoundShift(Sum(Rounded(q)), TotalExcess(q));
    MathRoundShift(-Sum(Rounded(q)), -TotalExcess(q));
    assert -SumReal(q) == (-Sum(Rounded(q))) as real + -TotalExcess(q);
  }

  /** Discounts that are not negative add up after rounding if and only if
      their excess together is from minus half a cent to below half a cent. */
  lemma SharesAddUp(q: seq<real>)
    requires forall i :: 0 <= i < |q| ==> 0.0 <= q[i]
    ensures Sum(Rounded(q)) == ToFixedCents(SumReal(q)) <==> -0.5 <= TotalExcess(q) < 0.5
  {
    hide ToFixedCents, TotalExcess;
    DriftIs(q);
    SumRealNonNegative(q);
    MathRoundIs(TotalExcess(q));
  }

  lemma {:induction false} SumRealNonNegative(q: seq<real>)
    requires forall i :: 0 <= i < |q| ==> 0.0 <= q[i]
    ensures 0.0 <= SumReal(q)
  {
    if q != [] {
      SumRealNonNegative(q[..|q| - 1]);
    }
  }

  /** How many groups have a discount that is not a whole number of cents. */
  function FractionalCount(q: seq<real>): nat
  {
    if q == [] then 0
    else FractionalCount(q[..|q| - 1]) + if Fraction(q[|q| - 1]) == 0.0 then 0 else 1
  }

  /** The total is off by at most half a cent for each fractional group and one
      more half, and by nothing with at most one fractional group. */
  lemma PerGroupDrift(q: seq<real>)
    requires forall i :: 0 <= i < |q| ==> 0.0 <= q[i]
    ensures var drift := Sum(Rounded(q)) - ToFixedCents(SumReal(q));
            && -(FractionalCount(q) + 1) <= 2 * drift <= FractionalCount(q) + 1
            && (FractionalCount(q) <= 1 ==> drift == 0)
  {
    hide ToFixedCents;
    DriftIs(q);
    SumRealNonNegative(q);
    MathRoundIs(TotalExcess(q));
    ExcessBound(q);
  }

  lemma {:induction false} ExcessBound(q: seq<real>)
    requires forall i :: 0 <= i < |q| ==> 0.0 <= q[i]
    ensures -(FractionalCount(q) as real) <= 2.0 * TotalExcess(q) <= FractionalCount(q) as real
    ensures FractionalCount(q) == 0 ==> TotalExcess(q) == 0.0
    ensures FractionalCount(q) <= 1 ==> -0.5 <= TotalExcess(q) < 0.5
  {
    if q != [] {
      ExcessBound(q[..|q| - 1]);
    }
  }

  // ----- shop, category, product and delivery coupons -----

  /** What a coupon that is not a platform coupon applies to; a delivery coupon
      without shop ids applies to every shop. */
  datatype Scope =
    | Shops(ids: seq<string>)
    | Categories(ids: seq<string>)
    | Products(ids: seq<string>)
    | Delivery(shopIds: Option<seq<string>>)

  function MatchingTotal(items: seq<Item>, scope: Scope): int
  {
    SumBy(items, MatchingPrice(scope))
  }

  function MatchingPrice(scope: Scope): Item -> int
  {
    (it: Item) =>
      if scope.Categories? && it.categoryId !in scope.ids then 0
      else if scope.Products? && it.productId !in scope.ids then 0
      else LinePrice(it)
  }

  /** The amount of a group that the coupon can reduce, or None when the group is skipped. */
  function Base(g: Group, scope: Scope): Option<int>
  {
    match scope
    case Shops(ids) => if g.shopId in ids then Some(GroupItemTotal(g)) else None
    case Categories(_) => if MatchingTotal(g.items, scope) <= 0 then None else Some(MatchingTotal(g.items, scope))
    case Products(_) => if MatchingTotal(g.items, scope) <= 0 then None else Some(MatchingTotal(g.items, scope))
    case Delivery(shopIds) =>
      if shopIds.Some? && g.shopId !in shopIds.value then None
      else if g.deliveryFee <= 0 then None
      else Some(g.deliveryFee)
  }

  /** What the items that meet a condition cost. */
  ghost function CostOf(items: seq<Item>, chosen: Item -> bool): int
  {
    Sum(seq(|items|, i requires 0 <= i < |items| => if chosen(items[i]) then items[i].price * items[i].qty else 0))
  }

  lemma {:induction false} MatchingIsCost(items: seq<Item>, scope: Scope, chosen: Item -> bool)
    requires forall it :: chosen(it) <==> !(scope.Categories? && it.categoryId !in scope.ids)
                                          && !(scope.Products? && it.productId !in scope.ids)
    ensures MatchingTotal(items, scope) == CostOf(items, chosen)
  {
    var prices := seq(|items|, i requires 0 <= i < |items| =>
                    if chosen(items[i]) then items[i].price * items[i].qty else 0);
    if items != [] {
      var last := |items| - 1;
      MatchingIsCost(items[..last], scope, chosen);
      assert prices[..last] == seq(last, i requires 0 <= i < last =>
                                 if chosen(items[..last][i]) then items[..last][i].price * items[..last][i].qty else 0);
    }
  }

  /** What a coupon can reduce in a group: for a shop coupon all its items, for a
      category or product coupon those of its categories or products if they cost
      anything, for a delivery coupon a positive delivery fee. */
  lemma BaseIs(g: Group, scope: Scope)
    ensures match scope
            case Shops(ids) => Base(g, scope) == if g.shopId in ids then Some(Cost(g.items)) else None
            case Categories(ids) =>
              var cost := CostOf(g.items, (it: Item) => it.categoryId in ids);
              Base(g, scope) == if cost > 0 then Some(cost) else None
            case Products(ids) =>
              var cost := CostOf(g.items, (it: Item) => it.productId in ids);
              Base(g, scope) == if cost > 0 then Some(cost) else None
            case Delivery(shopIds) =>
              Base(g, scope) == if g.deliveryFee > 0 && (shopIds == None || g.shopId in shopIds.value)
                                then Some(g.deliveryFee) else None
  {
    match scope
    case Shops(_) => ItemTotalIsCost(g.items);
    case Categories(ids) => MatchingIsCost(g.items, scope, (it: Item) => it.categoryId in ids);
    case Products(ids) => MatchingIsCost(g.items, scope, (it: Item) => it.productId in ids);
    case Delivery(_) =>
  }

  function GroupDiscount(g: Group, scope: Scope, terms: Terms): real
  {
    match Base(g, scope)
    case None => 0.0
    case Some(base) => CappedDiscount(base, terms)
  }

  function GroupDiscounts(groups: seq<Group>, scope: Scope, terms: Terms): (q: seq<real>)
    ensures |q| == |groups|
  {
    seq(|groups|, i requires 0 <= i < |groups| => GroupDiscount(groups[i], scope, terms))
  }

  /** A delivery coupon reduces the delivery fee, every other coupon the items. */
  function Entry(g: Group, scope: Scope, cents: int): ShopDiscount
  {
    if scope.Delivery? then ShopDiscount(g.shopId, 0, cents) else ShopDiscount(g.shopId, cents, 0)
  }

  /** The column of the breakdown that the coupon fills. */
  function Listed(ds: seq<ShopDiscount>, scope: Scope): (x: seq<int>)
    ensures |x| == |ds|
  {
    seq(|ds|, i requires 0 <= i < |ds| => if scope.Delivery? then ds[i].deliveryDiscount else ds[i].discount)
  }

  predicate NonNegativeTerms(terms: Terms)
  {
    match terms
    case Percentage(percent, cap) => 0.0 <= percent && 0.0 <= cap
    case Flat(amount) => 0.0 <= amount
  }

  predicate NonNegativeBases(groups: seq<Group>, scope: Scope)
  {
    forall i :: 0 <= i < |groups| && Base(groups[i], scope).Some? ==> 0 <= Base(groups[i], scope).value
  }

  /** Shop, category, product and delivery coupons: every group is rounded on
      its own, while the total is the rounded sum of the exact discounts.  The
      shares miss the total by exactly what TotalExcess rounds to.  With bases
      and terms that are not negative no share is negative or above its base,
      and the shares add up to the total if and only if the excess of the
      groups together is at least minus half a cent and below half a cent. */
  method ApplyPerGroup(groups: seq<Group>, scope: Scope, terms: Terms) returns (b: Breakdown)
    ensures b.totalDiscount == ToFixedCents(SumReal(GroupDiscounts(groups, scope, terms)))
    ensures |b.shopDiscounts| == |groups|
    ensures forall i :: 0 <= i < |groups| ==>
              var base := Base(groups[i], scope);
              var cents := if base == None then 0 else ToFixedCents(LeastDiscount(base.value, terms));
              b.shopDiscounts[i] == if scope.Delivery? then ShopDiscount(groups[i].shopId, 0, cents)
                                    else ShopDiscount(groups[i].shopId, cents, 0)
    ensures var q := GroupDiscounts(groups, scope, terms);
            b.totalDiscount - Sum(Listed(b.shopDiscounts, scope)) == Drift(q)
    ensures NonNegativeTerms(terms) && NonNegativeBases(groups, scope) ==>
              var q := GroupDiscounts(groups, scope, terms);
              && (forall i :: 0 <= i < |groups| ==>
                    var base := Base(groups[i], scope);
                    0 <= Listed(b.shopDiscounts, scope)[i] <= (if base.Some? then base.value else 0))
              && (Sum(Listed(b.shopDiscounts, scope)) == b.totalDiscount <==> -0.5 <= TotalExcess(q) < 0.5)
  {
    hide GroupDiscounts, Base, CappedDiscount, LeastDiscount, ToFixedCents, TotalExcess, Drift;
    hide NonNegativeTerms, NonNegativeBases;
    ghost var q := GroupDiscounts(groups, scope, terms);
    var shopDiscounts: seq<ShopDiscount> := [];
    var totalDiscount := 0.0;
    for i := 0 to |groups|
      invariant totalDiscount == SumReal(q[..i])
      invariant |shopDiscounts| == i
      invariant forall j :: 0 <= j < i ==> shopDiscounts[j] == Entry(groups[j], scope, ToFixedCents(q[j]))
    {
      var group := groups[i];
      assert q[..i + 1][..i] == q[..i];
      GroupDiscountAt(groups, scope, terms, i);
      var base := Base(group, scope);
      if base == None {
        ZeroRoundsToZero();
        shopDiscounts := shopDiscounts + [Entry(group, scope, 0)];
      } else {
        var discount := CappedDiscount(base.value, terms);
        totalDiscount := totalDiscount + discount;
        shopDiscounts := shopDiscounts + [Entry(group, scope, ToFixedCents(discount))];
      }
    }
    assert q[..|groups|] == q;
    b := Breakdown(ToFixedCents(totalDiscount), shopDiscounts);
    assert Listed(b.shopDiscounts, scope) == Rounded(q);
    DriftIs(q);
    forall i | 0 <= i < |groups|
      ensures var base := Base(groups[i], scope);
              ToFixedCents(q[i]) == if base == None then 0 else ToFixedCents(LeastDiscount(base.value, terms))
    {
      GroupDiscountAt(groups, scope, terms, i);
      ZeroRoundsToZero();
      if Base(groups[i], scope).Some? {
        DiscountIsLeast(Base(groups[i], scope).value, terms);
      }
    }
    if NonNegativeTerms(terms) && NonNegativeBases(groups, scope) {
      DiscountsWithinBases(groups, scope, terms);
      SharesAddUp(q);
    }
  }

  lemma GroupDiscountAt(groups: seq<Group>, scope: Scope, terms: Terms, i: nat)
    requires i < |groups|
    ensures var base := Base(groups[i], scope);
            GroupDiscounts(groups, scope, terms)[i] == if base == None then 0.0 else CappedDiscount(base.value, terms)
  {
    hide Base, CappedDiscount;
  }

  lemma ZeroRoundsToZero()
    ensures ToFixedCents(0.0) == 0
  {
  }

  lemma DiscountWithin(base: int, terms: Terms)
    requires 0 <= base && NonNegativeTerms(terms)
    ensures 0.0 <= CappedDiscount(base, terms) && 0 <= ToFixedCents(CappedDiscount(base, terms)) <= base
  {
    DiscountBounds(base, terms);
    MathRoundIs(CappedDiscount(base, terms));
  }

  lemma DiscountsWithinBases(groups: seq<Group>, scope: Scope, terms: Terms)
    requires NonNegativeTerms(terms) && NonNegativeBases(groups, scope)
    ensures var q := GroupDiscounts(groups, scope, terms);
            forall i :: 0 <= i < |groups| ==>
              && 0.0 <= q[i]
              && 0 <= Rounded(q)[i] <= (if Base(groups[i], scope).Some? then Base(groups[i], scope).value else 0)
  {
    hide GroupDiscounts, Base, CappedDiscount, ToFixedCents, NonNegativeTerms;
    forall i | 0 <= i < |groups|
      ensures var q := GroupDiscounts(groups, scope, terms);
              && 0.0 <= q[i]
              && 0 <= Rounded(q)[i] <= (if Base(groups[i], scope).Some? then Base(groups[i], scope).value else 0)
    {
      GroupDiscountAt(groups, scope, terms, i);
      ZeroRoundsToZero();
      if Base(groups[i], scope).Some? {
        DiscountWithin(Base(groups[i], scope).value, terms);
      }
    }
  }

  /** Half of one cent off in each of two shops: both shops give back a cent,
      but the total says one. */
  lemma PerGroupSharesMayExceedTotal()
    ensures var group := Group("shop", [Item("p", "c", 1, 1)], 0);
            var scope := Shops(["shop", "other"]);
            var q := GroupDiscounts([group, group.(shopId := "other")], scope, Percentage(50.0, 0.0));
            Sum(Rounded(q)) == 2 && ToFixedCents(SumReal(q)) == 1
  {
    var group := Group("shop", [Item("p", "c", 1, 1)], 0);
    var other := group.(shopId := "other");
    assert SumBy(group.items, LinePrice) == 1 by {
      SumByAppend([], group.items[0], LinePrice);
      assert [] + [group.items[0]] == group.items;
    }
    var q := GroupDiscounts([group, other], Shops(["shop", "other"]), Percentage(50.0, 0.0));
    assert q == [0.5, 0.5];
    SumOfTwo(0.5, 0.5, 1, 1);
    MathRoundIs(1.0);
    assert Rounded(q) == [1, 1];
  }

  lemma SumOfTwo(a: real, b: real, m: int, n: int)
    ensures SumReal([a, b]) == a + b && Sum([m, n]) == m + n
  {
    assert [a, b][..1] == [a] && SumReal([a]) == a;
    assert [m, n][..1] == [m] && Sum([m]) == m;
  }
}
