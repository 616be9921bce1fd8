/** The pricing engine: the static rate table and the price of a booking of a
    number of hours at an hourly rate, with a 10% discount past three hours.
    Prices are exact reals; the component's binary floating point is not
    modelled. */
module Pricing {
  import opened Desks

  datatype Tier = Basic | Premium | Executive

  /** Hourly rates: one per membership tier for individual desks, one flat
      rate for team desks. */
  datatype RateTable = RateTable(basic: real, premium: real, executive: real, team: real)

  /** The component's `PRICING` constant. */
  const Prices := RateTable(10.0, 15.0, 20.0, 25.0)

  /** Bookings strictly longer than this many hours are discounted. */
  const DiscountThreshold := 3

  /** The hourly rate of a desk of `kind` booked under membership `tier`: the
      team rate for team desks whatever the tier, the tier's rate otherwise. */
  function Rate(kind: DeskKind, tier: Tier): (r: real)
    ensures r > 0.0
    ensures kind == Team ==> r == Prices.team
    ensures kind == Individual && tier == Basic ==> r == Prices.basic
    ensures kind == Individual && tier == Premium ==> r == Prices.premium
    ensures kind == Individual && tier == Executive ==> r == Prices.executive
  {
    match kind
    case Team => Prices.team
    case Individual =>
      match tier
      case Basic => Prices.basic
      case Premium => Prices.premium
      case Executive => Prices.executive
  }

  /** `calculatePrice`: the undiscounted price `hours * rate`, less 10% when
      `hours` exceeds the threshold. */
  function CalculatePrice(hours: int, rate: real): (p: real)
    ensures hours <= DiscountThreshold ==> p == hours as real * rate
    ensures hours > DiscountThreshold ==> 10.0 * p == 9.0 * (hours as real * rate)
    ensures rate >= 0.0 ==> p <= hours as real * rate
  {
    var basePrice := hours as real * rate;
    if hours > DiscountThreshold then basePrice * 0.9 else basePrice
  }

  /** A positive booking at a positive rate costs something. */
  lemma PricePositive(hours: int, rate: real)
    requires hours >= 1 && rate > 0.0
    ensures CalculatePrice(hours, rate) > 0.0
  {
    assert hours as real * rate > 0.0;
  }

  /** The discount is applied exactly when the booking is longer than three
      hours: the price falls below `hours * rate` if and only if `hours > 3`. */
  lemma DiscountExactlyPastThreshold(hours: int, rate: real)
    requires rate > 0.0
    ensures CalculatePrice(hours, rate) < hours as real * rate <==> hours > DiscountThreshold
  {
    if hours > DiscountThreshold {
      assert hours as real * rate > 0.0;
    }
  }

  /** Despite the discount, booking more hours never costs less: the price is
      monotone in the hours at any non-negative rate. */
  lemma PriceMonotoneInHours(h1: int, h2: int, rate: real)
    requires h1 <= h2 && rate >= 0.0
    ensures CalculatePrice(h1, rate) <= CalculatePrice(h2, rate)
  {
    var b1, b2 := h1 as real * rate, h2 as real * rate;
    assert b1 <= b2 by {
      assert b2 - b1 == (h2 - h1) as real * rate;
    }
    if h1 <= DiscountThreshold < h2 {
      assert b1 <= 3.0 * rate by {
        assert 3.0 * rate - b1 == (3 - h1) as real * rate;
      }
      assert 4.0 * rate <= b2 by {
        assert b2 - 4.0 * rate == (h2 - 4) as real * rate;
      }
    }
  }
}
