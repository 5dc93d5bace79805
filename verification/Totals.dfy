/** The totals engine: the fees of a bill and the amount payable.  Money is whole
    cents; distances and percentages are exact reals. */
module Totals {
  import opened Common

  datatype FeeType = FlatFee | PercentFee

  /** value is cents for a flat fee and a percentage otherwise. */
  datatype FeeRule = FeeRule(enabled: bool, kind: FeeType, value: real)

  datatype Config = Config(
    deliveryEnabled: bool,
    minFee: int,
    baseKm: real,
    perKm: int,
    maxKm: Option<real>,
    freeEnabled: bool,
    freeAbove: Option<int>,
    handling: FeeRule,
    platform: FeeRule,
    smallCartEnabled: bool,
    smallCartThreshold: int,
    smallCartFee: int,
    surgeEnabled: bool,
    surgeFee: int,
    packagingEnabled: bool,
    packagingFee: int)

  datatype FeeCode = DeliveryFee | HandlingFee | PlatformFee | SmallCartFee | SurgeFee | PackagingFee

  datatype FeeLine = FeeLine(code: FeeCode, amount: int, original: int, waived: bool)

  datatype Delivery = Delivery(
    amount: int,
    original: int,
    waived: bool,
    applicable: bool,
    known: bool,
    outOfRange: bool)

  // ----- the delivery fee -----

  function Ceil(x: real): (n: int)
    ensures (n - 1) as real < x <= n as real
  {
    -((-x).Floor)
  }

  function MaxReal(a: real, b: real): real
  {
    if a < b then b else a
  }

  /** The distance charged for: capped at the configured maximum. */
  function EffectiveKm(config: Config, km: real): real
  {
    if config.maxKm.Some? && km > config.maxKm.value then config.maxKm.value else km
  }

  /** The fee before any waiver; the minimum fee when the distance is unknown. */
  function BeforeWaiver(config: Config, distance: Option<real>): int
  {
    match distance
    case None => config.minFee
    case Some(km) => config.minFee + Ceil(MaxReal(0.0, EffectiveKm(config, km) - config.baseKm)) * config.perKm
  }

  predicate Unlocked(config: Config, eligibleSubtotal: int)
  {
    config.freeEnabled && config.freeAbove.Some? && eligibleSubtotal >= config.freeAbove.value
  }

  function ComputeDeliveryFee(config: Config, distance: Option<real>, eligibleSubtotal: int): Delivery
  {
    if !config.deliveryEnabled then Delivery(0, 0, false, false, distance.Some?, false)
    else
      var before := BeforeWaiver(config, distance);
      var outOfRange := distance.Some? && config.maxKm.Some? && distance.value > config.maxKm.value;
      if Unlocked(config, eligibleSubtotal) then Delivery(0, before, true, true, distance.Some?, outOfRange)
      else Delivery(before, before, false, true, distance.Some?, outOfRange)
  }

  // ----- the other fees -----

  function FlatOrPercent(rule: FeeRule, base: int): int
  {
    if rule.kind == PercentFee then MathRound(base as real * rule.value / 100.0) else MathRound(rule.value)
  }

  function RuleFee(rule: FeeRule, subtotal: int): int
  {
    if rule.enabled then FlatOrPercent(rule, subtotal) else 0
  }

  function SmallCart(config: Config, subtotal: int): int
  {
    if config.smallCartEnabled && subtotal < config.smallCartThreshold then config.smallCartFee else 0
  }

  function Surge(config: Config): int
  {
    if config.surgeEnabled then config.surgeFee else 0
  }

  function Packaging(config: Config): int
  {
    if config.packagingEnabled then config.packagingFee else 0
  }

  lemma OtherFees(config: Config, subtotal: int)
    ensures SmallCart(config, subtotal)
         == if config.smallCartEnabled && subtotal < config.smallCartThreshold then config.smallCartFee else 0
    ensures Surge(config) == if config.surgeEnabled then config.surgeFee else 0
    ensures Packaging(config) == if config.packagingEnabled then config.packagingFee else 0
  {
  }

  /** The delivery fee: nothing when it is off; the fee before any waiver, and
      nothing of it is charged from the free-delivery amount on. */
  lemma DeliveryIs(config: Config, distance: Option<real>, subtotal: int)
    ensures var d, before := ComputeDeliveryFee(config, distance, subtotal), BeforeWaiver(config, distance);
            && d.applicable == config.deliveryEnabled && d.known == distance.Some?
            && d.waived == (config.deliveryEnabled && config.freeEnabled && config.freeAbove.Some?
                            && config.freeAbove.value <= subtotal)
            && d.original == (if config.deliveryEnabled then before else 0)
            && d.amount == (if config.deliveryEnabled && !d.waived then before else 0)
            && d.outOfRange == (config.deliveryEnabled && distance.Some? && config.maxKm.Some?
                                && config.maxKm.value < distance.value)
  {
    hide BeforeWaiver;
  }

  /** The fee by distance: the minimum up to the base distance, or without a known
      distance, and one per-km fee more for each kilometre begun beyond it, up to
      the maximum distance. */
  lemma FeeByDistance(config: Config, km: real, reach: real, n: nat)
    requires reach == if config.maxKm.Some? && config.maxKm.value < km then config.maxKm.value else km
    ensures BeforeWaiver(config, None) == config.minFee
    ensures reach <= config.baseKm ==> BeforeWaiver(config, Some(km)) == config.minFee
    ensures (n - 1) as real < reach - config.baseKm <= n as real && 1 <= n ==>
              BeforeWaiver(config, Some(km)) == config.minFee + n * config.perKm
  {
    if reach <= config.baseKm {
      assert Ceil(0.0) == 0;
    }
  }

  // ----- the breakdown -----

  datatype Breakdown = Breakdown(
    delivery: Delivery,
    fees: seq<FeeLine>,
    feesTotal: int,
    couponDiscount: int,
    tax: int,
    tip: int,
    totalPayable: int,
    totalSavings: int,
    amountToUnlock: int)

  function AmountOf(): FeeLine -> int
  {
    (f: FeeLine) => f.amount
  }

  /** No fee of this bill is negative. */
  predicate FeesNonNegative(config: Config, subtotal: int)
  {
    && 0 <= RuleFee(config.handling, subtotal)
    && 0 <= RuleFee(config.platform, subtotal)
    && 0 <= SmallCart(config, subtotal)
    && 0 <= Surge(config)
    && 0 <= Packaging(config)
  }

  /** What is charged for delivery and all other fees. */
  function ChargedFees(config: Config, distance: Option<real>, subtotal: int): int
  {
    ComputeDeliveryFee(config, distance, subtotal).amount + RuleFee(config.handling, subtotal)
    + RuleFee(config.platform, subtotal) + SmallCart(config, subtotal) + Surge(config) + Packaging(config)
  }

  function AmountToUnlock(config: Config, distance: Option<real>, subtotal: int): int
  {
    if config.freeEnabled && config.freeAbove.Some? && !ComputeDeliveryFee(config, distance, subtotal).waived then
      Max(0, config.freeAbove.value - subtotal)
    else 0
  }

  /** Only the delivery line may show a zero amount. */
  ghost predicate OthersPositive(fees: seq<FeeLine>)
  {
    forall f :: f in fees && f.code != DeliveryFee ==> f.amount > 0
  }

  /** The line of a fee other than delivery, if it is positive. */
  function PositiveLine(code: FeeCode, amount: int): seq<FeeLine>
  {
    if amount > 0 then [FeeLine(code, amount, amount, false)] else []
  }

  /** A fee other than delivery is listed only when it is positive. */
  method Push(fees: seq<FeeLine>, code: FeeCode, amount: int) returns (r: seq<FeeLine>)
    requires OthersPositive(fees)
    ensures r == fees + PositiveLine(code, amount)
    ensures SumBy(r, AmountOf()) == SumBy(fees, AmountOf()) + Max(0, amount)
    ensures OthersPositive(r)
  {
    r := fees;
    if amount > 0 {
      r := fees + [FeeLine(code, amount, amount, false)];
      SumByAppend(fees, FeeLine(code, amount, amount, false), AmountOf());
    }
  }

  lemma DeliveryLine(config: Config, distance: Option<real>, subtotal: int)
    ensures var d := ComputeDeliveryFee(config, distance, subtotal);
            var lines := if d.applicable then [FeeLine(DeliveryFee, d.amount, d.original, d.waived)] else [];
            SumBy(lines, AmountOf()) == d.amount
  {
    hide BeforeWaiver;
    var d := ComputeDeliveryFee(config, distance, subtotal);
    SumByAppend([], FeeLine(DeliveryFee, d.amount, d.original, d.waived), AmountOf());
  }

  /** The bill: the listed fees add up to the charged fees as long as none is
      negative, and the payable total is never negative. */
  method ComputeBreakdown(config: Config, subtotal: int, itemDiscount: int, coupon: int, distance: Option<real>,
                          tax: int, tip: int)
    returns (b: Breakdown)
    ensures b.delivery == ComputeDeliveryFee(config, distance, subtotal)
    ensures b.feesTotal == ChargedFees(config, distance, subtotal)
    ensures b.feesTotal <= SumBy(b.fees, AmountOf())
    ensures b.feesTotal == SumBy(b.fees, AmountOf()) <==> FeesNonNegative(config, subtotal)
    ensures b.totalPayable == Max(0, subtotal - Max(0, coupon) + b.feesTotal + tax + Max(0, tip))
    ensures b.amountToUnlock == AmountToUnlock(config, distance, subtotal)
    ensures b.totalSavings == itemDiscount + Max(0, coupon) + (if b.delivery.waived then b.delivery.original else 0)
    ensures OthersPositive(b.fees)
    ensures var handling, platform := RuleFee(config.handling, subtotal), RuleFee(config.platform, subtotal);
            var small := if config.smallCartEnabled && subtotal < config.smallCartThreshold
                         then config.smallCartFee else 0;
            var surge := if config.surgeEnabled then config.surgeFee else 0;
            var packaging := if config.packagingEnabled then config.packagingFee else 0;
            && b.feesTotal == b.delivery.amount + handling + platform + small + surge + packaging
            && var d := b.delivery;
               b.fees == (if config.deliveryEnabled then [FeeLine(DeliveryFee, d.amount, d.original, d.waived)] else [])
                         + PositiveLine(HandlingFee, handling) + PositiveLine(PlatformFee, platform)
                         + PositiveLine(SmallCartFee, small) + PositiveLine(SurgeFee, surge)
                         + PositiveLine(PackagingFee, packaging)
  {
    OtherFees(config, subtotal);
    DeliveryIs(config, distance, subtotal);
    hide ComputeDeliveryFee, SumBy, AmountOf, RuleFee, SmallCart, Surge, Packaging, PositiveLine;
    var delivery := ComputeDeliveryFee(config, distance, subtotal);
    var fees: seq<FeeLine> := [];
    if delivery.applicable {
      fees := [FeeLine(DeliveryFee, delivery.amount, delivery.original, delivery.waived)];
    }
    DeliveryLine(config, distance, subtotal);

    var handlingFee := RuleFee(config.handling, subtotal);
    fees := Push(fees, HandlingFee, handlingFee);
    var platformFee := RuleFee(config.platform, subtotal);
    fees := Push(fees, PlatformFee, platformFee);
    var smallCartFee := SmallCart(config, subtotal);
    fees := Push(fees, SmallCartFee, smallCartFee);
    var surgeFee := Surge(config);
    fees := Push(fees, SurgeFee, surgeFee);
    var packagingFee := Packaging(config);
    fees := Push(fees, PackagingFee, packagingFee);

    var couponDiscount := Max(0, coupon);
    var tipAmount := Max(0, tip);
    var feesTotal := delivery.amount + handlingFee + platformFee + smallCartFee + surgeFee + packagingFee;
    var totalPayable := subtotal - couponDiscount + feesTotal + tax + tipAmount;
    if totalPayable < 0 {
      totalPayable := 0;
    }
    var saving := if delivery.waived then delivery.original else 0;
    var unlock := if config.freeEnabled && config.freeAbove.Some? && !delivery.waived
                  then Max(0, config.freeAbove.value - subtotal) else 0;
    b := Breakdown(delivery, fees, feesTotal, couponDiscount, tax, tipAmount, totalPayable,
                   itemDiscount + couponDiscount + saving, unlock);
  }

  // ----- what the fees mean -----

  /** A longer distance never costs less, and no distance costs more than the
      fee at the configured maximum. */
  lemma DeliveryFeeMonotone(config: Config, a: real, b: real)
    requires a <= b && 0 <= config.perKm
    ensures BeforeWaiver(config, Some(a)) <= BeforeWaiver(config, Some(b))
    ensures config.maxKm.Some? ==> BeforeWaiver(config, Some(b)) <= BeforeWaiver(config, config.maxKm)
    ensures config.minFee <= BeforeWaiver(config, Some(a))
  {
    var x := MaxReal(0.0, EffectiveKm(config, a) - config.baseKm);
    var y := MaxReal(0.0, EffectiveKm(config, b) - config.baseKm);
    ProductMonotone(0, Ceil(x), config.perKm);
    ProductMonotone(Ceil(x), Ceil(y), config.perKm);
    if config.maxKm.Some? {
      var z := MaxReal(0.0, config.maxKm.value - config.baseKm);
      ProductMonotone(Ceil(y), Ceil(z), config.perKm);
    }
  }

  lemma ProductMonotone(a: int, b: int, c: int)
    requires a <= b && 0 <= c
    ensures a * c <= b * c
  {
  }

  /** With free delivery configured, adding x to the subtotal waives the delivery
      fee exactly when x is at least amountToUnlock: it is the least such
      addition.  When the delivery fee itself is switched off nothing is ever
      waived, so the amount shown then unlocks nothing. */
  lemma AmountToUnlockIsLeast(config: Config, distance: Option<real>, subtotal: int, x: nat)
    requires config.freeEnabled && config.freeAbove.Some?
    ensures ComputeDeliveryFee(config, distance, subtotal + x).waived
       <==> config.deliveryEnabled && AmountToUnlock(config, distance, subtotal) <= x
  {
  }

  /** A flat fee is charged to the nearest cent, and a rule that is off not at all. */
  lemma FlatFeeWithinHalfCent(rule: FeeRule, subtotal: int)
    ensures !rule.enabled ==> RuleFee(rule, subtotal) == 0
    ensures rule.enabled && rule.kind == FlatFee ==>
              rule.value - 0.5 < RuleFee(rule, subtotal) as real <= rule.value + 0.5
  {
  }

  /** A percentage fee is within half a cent of the exact percentage, and
      amounts are charged without loss when it is whole. */
  lemma PercentFeeWithinHalfCent(rule: FeeRule, subtotal: int)
    requires rule.enabled && rule.kind == PercentFee
    ensures var exact := subtotal as real * rule.value / 100.0;
            exact - 0.5 < RuleFee(rule, subtotal) as real <= exact + 0.5
  {
  }
}
