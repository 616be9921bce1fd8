/** The booking component's state and its transitions: selecting a desk, the
    hours and tier form fields, the displayed quote, and confirming a booking,
    which appends to the history, adds to the revenue and marks the desk booked. */
module Booking {
  import opened Wrappers
  import opened Desks
  import opened Pricing

  /** One confirmed booking. `timestamp` is the clock reading taken at
      confirmation, supplied by the caller. */
  datatype BookingRecord = BookingRecord(deskId: string, hours: int, price: real, tier: Tier, timestamp: string)

  /** The component state: the desk inventory, the selected desk (a snapshot of
      the desk that was clicked), the form's hours and tier, the booking history
      and the running revenue total. */
  datatype State = State(
    desks: seq<Desk>,
    selected: Option<Desk>,
    hours: int,
    tier: Tier,
    history: seq<BookingRecord>,
    revenue: real)

  datatype BookingError = InvalidHours

  /** The sum of the prices of a history, accumulated oldest first. */
  function SumPrices(history: seq<BookingRecord>): real
  {
    if |history| == 0 then 0.0
    else SumPrices(history[..|history| - 1]) + history[|history| - 1].price
  }

  /** The state on mount: the start-up inventory, no selection, one hour, the
      basic tier, an empty history and zero revenue. */
  function Init(): (s: State)
    ensures s.desks == InitialDesks() && s.selected == None
    ensures s.hours == 1 && s.tier == Basic
    ensures s.history == [] && s.revenue == 0.0 == SumPrices(s.history)
  {
    State(InitialDesks(), None, 1, Basic, [], 0.0)
  }

  /** A click on the button of the desk at index `i`: it becomes the selection
      unless it is booked, in which case nothing changes. */
  function SelectDesk(s: State, i: int): (r: State)
    requires 0 <= i < |s.desks|
    ensures s.desks[i].booked ==> r == s
    ensures !s.desks[i].booked ==> r.selected == Some(s.desks[i])
    ensures r.desks == s.desks && r.hours == s.hours && r.tier == s.tier
    ensures r.history == s.history && r.revenue == s.revenue
  {
    if !s.desks[i].booked then s.(selected := Some(s.desks[i])) else s
  }

  /** The hours field as the component writes it: any parsed integer is stored,
      zero and negative values included. */
  function SetHoursAsWritten(s: State, hours: int): (r: State)
    ensures r.hours == hours
    ensures r == s.(hours := r.hours)
  {
    s.(hours := hours)
  }

  /** The hours field with the lower bound the input's `min="1"` evidently
      intends: a value below one is rejected and the state kept. */
  function SetHours(s: State, hours: int): (r: Result<State, BookingError>)
    ensures hours < 1 <==> r == Failure(InvalidHours)
    ensures r.Success? ==> r.value.hours == hours >= 1 && r.value == s.(hours := hours)
  {
    if hours < 1 then Failure(InvalidHours) else Success(s.(hours := hours))
  }

  /** The membership-tier field: only the tier changes. */
  function SetTier(s: State, tier: Tier): (r: State)
    ensures r.tier == tier
    ensures r == s.(tier := r.tier)
  {
    s.(tier := tier)
  }

  /** The price shown on the booking form for the selected desk: the team rate
      for a team desk, the tier's rate for an individual one, discounted past
      three hours. */
  function Quote(s: State): (p: real)
    requires s.selected.Some?
    ensures p == CalculatePrice(s.hours, Rate(s.selected.value.kind, s.tier))
    ensures s.hours >= 1 ==> p > 0.0
    ensures p < s.hours as real * Rate(s.selected.value.kind, s.tier) <==> s.hours > DiscountThreshold
  {
    var rate := Rate(s.selected.value.kind, s.tier);
    DiscountExactlyPastThreshold(s.hours, rate);
    if s.hours >= 1 then
      PricePositive(s.hours, rate);
      CalculatePrice(s.hours, rate)
    else
      CalculatePrice(s.hours, rate)
  }

  /** `handleBooking`: with no selection nothing happens. Otherwise a record of
      the selected desk, the hours, the quoted price and the tier is appended to
      the history, the price is added to the revenue, the desk with the
      selection's identifier is marked booked, the selection is cleared and the
      hours reset to one. The tier is kept. */
  function HandleBooking(s: State, timestamp: string): (r: State)
    ensures s.selected.None? ==> r == s
    ensures s.selected.Some? ==>
      && |r.history| == |s.history| + 1
      && r.history[..|s.history|] == s.history
      && r.history[|s.history|] == BookingRecord(s.selected.value.id, s.hours, Quote(s), s.tier, timestamp)
      && r.revenue == s.revenue + Quote(s)
    ensures s.selected.Some? ==>
      && |r.desks| == |s.desks|
      && (forall i :: 0 <= i < |r.desks| ==> r.desks[i].id == s.desks[i].id && r.desks[i].kind == s.desks[i].kind)
      && (forall i :: 0 <= i < |r.desks| ==>
            (r.desks[i].booked <==> s.desks[i].booked || s.desks[i].id == s.selected.value.id))
    ensures s.selected.Some? ==> r.selected == None && r.hours == 1 && r.tier == s.tier
  {
    match s.selected
    case None => s
    case Some(desk) =>
      var price := Quote(s);
      var record := BookingRecord(desk.id, s.hours, price, s.tier, timestamp);
      assert (s.history + [record])[..|s.history|] == s.history;
      State(MarkBooked(s.desks, desk.id), None, 1, s.tier, s.history + [record], s.revenue + price)
  }

  // ---------------------------------------------------------------------------
  // The invariant of every reachable state

  /** Some record of the history books the desk `id`. */
  ghost predicate BookedIn(history: seq<BookingRecord>, id: string) {
    exists k :: 0 <= k < |history| && history[k].deskId == id
  }

  /** No two records of the history book the same desk. */
  ghost predicate DistinctBookings(history: seq<BookingRecord>) {
    forall k, l :: 0 <= k < l < |history| ==> history[k].deskId != history[l].deskId
  }

  /** `record` books `desk` for at least one hour at the price the pricing
      engine gives that desk's kind under the record's tier. */
  ghost predicate PricedAt(record: BookingRecord, desk: Desk) {
    && record.deskId == desk.id
    && record.hours >= 1
    && record.price == CalculatePrice(record.hours, Rate(desk.kind, record.tier))
  }

  /** Every record books a desk of the inventory at that desk's price. */
  ghost predicate LedgerPriced(desks: seq<Desk>, history: seq<BookingRecord>) {
    forall k :: 0 <= k < |history| ==> exists i :: 0 <= i < |desks| && PricedAt(history[k], desks[i])
  }

  /** A desk is booked exactly when the ledger holds a booking of it. */
  ghost predicate BookedMatchesLedger(desks: seq<Desk>, history: seq<BookingRecord>) {
    forall i :: 0 <= i < |desks| ==> (desks[i].booked <==> BookedIn(history, desks[i].id))
  }

  /** What every state the component reaches keeps, whatever the hours field
      holds: the running total agrees with the ledger, the selection is a
      snapshot of an unbooked inventory desk, a desk is booked exactly when the
      ledger books it, and no desk is booked twice. */
  ghost predicate LedgerInv(s: State) {
    && DistinctIds(s.desks)
    && s.revenue == SumPrices(s.history)
    && (s.selected.Some? ==> s.selected.value in s.desks && !s.selected.value.booked)
    && BookedMatchesLedger(s.desks, s.history)
    && DistinctBookings(s.history)
  }

  /** The ledger invariant together with the bound the hours field evidently
      intends: hours are at least one and every record is priced at its desk's
      rate. */
  ghost predicate Inv(s: State) {
    && LedgerInv(s)
    && s.hours >= 1
    && LedgerPriced(s.desks, s.history)
  }

  lemma InitSatisfiesInv()
    ensures Inv(Init())
  {
    InitialIdsDistinct();
  }

  /** Appending a record adds exactly its price to the sum. */
  lemma SumPricesAppend(history: seq<BookingRecord>, record: BookingRecord)
    ensures SumPrices(history + [record]) == SumPrices(history) + record.price
  {
    assert (history + [record])[..|history|] == history;
  }

  /** The revenue grows by exactly the new record's price, so a total that
      agreed with the ledger before a confirmation agrees with it after. */
  lemma RevenueTracksLedger(s: State, timestamp: string)
    requires s.revenue == SumPrices(s.history)
    ensures HandleBooking(s, timestamp).revenue == SumPrices(HandleBooking(s, timestamp).history)
  {
    if s.selected.Some? {
      var r := HandleBooking(s, timestamp);
      SumPricesAppend(s.history, r.history[|s.history|]);
      assert r.history == s.history + [r.history[|s.history|]];
    }
  }

  /** Every record of a history satisfying the invariant has a positive price,
      so the sum never falls below zero. */
  lemma {:induction false} SumPricesNonNegative(history: seq<BookingRecord>)
    requires forall k :: 0 <= k < |history| ==> history[k].price > 0.0
    ensures SumPrices(history) >= 0.0
    ensures |history| > 0 ==> SumPrices(history) > 0.0
  {
    if |history| > 0 {
      SumPricesNonNegative(history[..|history| - 1]);
    }
  }

  lemma SelectDeskPreservesInv(s: State, i: int)
    requires Inv(s) && 0 <= i < |s.desks|
    ensures Inv(SelectDesk(s, i))
  {
  }

  lemma SetHoursPreservesInv(s: State, hours: int)
    requires Inv(s)
    ensures SetHours(s, hours).Success? ==> Inv(SetHours(s, hours).value)
  {
  }

  lemma SetTierPreservesInv(s: State, tier: Tier)
    requires Inv(s)
    ensures Inv(SetTier(s, tier))
  {
  }

  /** The ledger invariant survives the hours field as written, whatever
      integer it stores. */
  lemma SetHoursAsWrittenPreservesLedgerInv(s: State, hours: int)
    requires LedgerInv(s)
    ensures LedgerInv(SetHoursAsWritten(s, hours))
  {
  }

  lemma SelectDeskPreservesLedgerInv(s: State, i: int)
    requires LedgerInv(s) && 0 <= i < |s.desks|
    ensures LedgerInv(SelectDesk(s, i))
  {
  }

  lemma SetTierPreservesLedgerInv(s: State, tier: Tier)
    requires LedgerInv(s)
    ensures LedgerInv(SetTier(s, tier))
  {
  }

  /** A record appended to a history books exactly the desks the history
      booked plus the record's own. */
  lemma BookedInAppend(history: seq<BookingRecord>, record: BookingRecord, id: string)
    ensures BookedIn(history + [record], id) <==> BookedIn(history, id) || record.deskId == id
  {
    var h := history + [record];
    if BookedIn(history, id) {
      var k :| 0 <= k < |history| && history[k].deskId == id;
      assert h[k].deskId == id;
    }
    if record.deskId == id {
      assert h[|history|].deskId == id;
    }
  }

  /** Marking a desk booked while recording a booking of it keeps "booked
      exactly when the ledger holds a booking" for every desk. */
  lemma BookedMatchesLedgerAfterBooking(desks: seq<Desk>, history: seq<BookingRecord>, record: BookingRecord)
    requires BookedMatchesLedger(desks, history)
    ensures BookedMatchesLedger(MarkBooked(desks, record.deskId), history + [record])
  {
    var r := MarkBooked(desks, record.deskId);
    forall i | 0 <= i < |desks|
      ensures r[i].booked <==> BookedIn(history + [record], r[i].id)
    {
      BookedInAppend(history, record, r[i].id);
    }
  }

  /** Records priced at inventory desks stay so after a desk is marked booked,
      and so does a new record priced at the desk at `j`. */
  lemma PricedAfterBooking(desks: seq<Desk>, history: seq<BookingRecord>, record: BookingRecord, j: int)
    requires 0 <= j < |desks| && PricedAt(record, desks[j])
    requires LedgerPriced(desks, history)
    ensures LedgerPriced(MarkBooked(desks, record.deskId), history + [record])
  {
    var r, h := MarkBooked(desks, record.deskId), history + [record];
    forall k | 0 <= k < |h|
      ensures exists i :: 0 <= i < |desks| && PricedAt(h[k], r[i])
    {
      if k < |history| {
        var i :| 0 <= i < |desks| && PricedAt(history[k], desks[i]);
        assert h[k] == history[k];
        assert r[i].id == desks[i].id && r[i].kind == desks[i].kind;
        assert PricedAt(h[k], r[i]);
      } else {
        assert h[k] == record;
        assert r[j].id == desks[j].id && r[j].kind == desks[j].kind;
        assert PricedAt(h[k], r[j]);
      }
    }
  }

  /** Appending a booking of a desk the history has not booked keeps the
      bookings distinct. */
  lemma DistinctBookingsAppend(history: seq<BookingRecord>, record: BookingRecord)
    requires DistinctBookings(history) && !BookedIn(history, record.deskId)
    ensures DistinctBookings(history + [record])
  {
    var h := history + [record];
    forall k, l | 0 <= k < l < |h|
      ensures h[k].deskId != h[l].deskId
    {
      if l == |history| {
        assert history[k].deskId != record.deskId;
      } else {
        assert history[k].deskId != history[l].deskId;
      }
    }
  }

  /** Marking a desk booked keeps identifiers distinct. */
  lemma DistinctIdsAfterMark(desks: seq<Desk>, id: string)
    requires DistinctIds(desks)
    ensures DistinctIds(MarkBooked(desks, id))
  {
    var r := MarkBooked(desks, id);
    forall a, b | 0 <= a < b < |r|
      ensures r[a].id != r[b].id
    {
      assert desks[a].id != desks[b].id;
    }
  }

  /** Confirming a booking keeps the ledger invariant, whatever the hours:
      the new record books a desk no earlier record booked, and its price is
      what the revenue grows by. */
  lemma HandleBookingPreservesLedgerInv(s: State, timestamp: string)
    requires LedgerInv(s)
    ensures LedgerInv(HandleBooking(s, timestamp))
  {
    if s.selected.Some? {
      var desk := s.selected.value;
      var record := BookingRecord(desk.id, s.hours, Quote(s), s.tier, timestamp);
      var j :| 0 <= j < |s.desks| && s.desks[j] == desk;
      assert !BookedIn(s.history, record.deskId) by {
        assert !s.desks[j].booked;
      }
      RevenueTracksLedger(s, timestamp);
      DistinctIdsAfterMark(s.desks, record.deskId);
      BookedMatchesLedgerAfterBooking(s.desks, s.history, record);
      DistinctBookingsAppend(s.history, record);
    }
  }

  /** Confirming a booking keeps the invariant: on top of the ledger
      invariant, the new record is priced at the selected desk's rate. */
  lemma HandleBookingPreservesInv(s: State, timestamp: string)
    requires Inv(s)
    ensures Inv(HandleBooking(s, timestamp))
  {
    HandleBookingPreservesLedgerInv(s, timestamp);
    if s.selected.Some? {
      var desk := s.selected.value;
      var record := BookingRecord(desk.id, s.hours, Quote(s), s.tier, timestamp);
      var j :| 0 <= j < |s.desks| && s.desks[j] == desk;
      PricedAfterBooking(s.desks, s.history, record, j);
    }
  }

  /** Under the invariant, which the corrected hours field keeps, every
      recorded price is positive, so confirming a booking never lowers the
      revenue and the revenue is never negative. */
  lemma RevenueNeverDecreases(s: State, timestamp: string)
    requires Inv(s)
    ensures s.revenue >= 0.0
    ensures HandleBooking(s, timestamp).revenue >= s.revenue
    ensures s.selected.Some? ==> HandleBooking(s, timestamp).revenue > s.revenue
  {
    forall k | 0 <= k < |s.history|
      ensures s.history[k].price > 0.0
    {
      var i :| 0 <= i < |s.desks| && PricedAt(s.history[k], s.desks[i]);
      PricePositive(s.history[k].hours, Rate(s.desks[i].kind, s.history[k].tier));
    }
    SumPricesNonNegative(s.history);
  }

  /** A second confirmation right after a booking does nothing: the first one
      cleared the selection. */
  lemma HandleBookingTwiceIsOnce(s: State, t1: string, t2: string)
    ensures HandleBooking(HandleBooking(s, t1), t2) == HandleBooking(s, t1)
  {
  }

  /** Under the ledger invariant, selecting the desk at `i` succeeds exactly when it is
      not booked; selecting a booked desk leaves the selection as it was. */
  lemma SelectDeskSucceedsIffUnbooked(s: State, i: int)
    requires LedgerInv(s) && 0 <= i < |s.desks|
    ensures SelectDesk(s, i).selected == Some(s.desks[i]) <==> !s.desks[i].booked
  {
  }

  /** For a selected team desk the quoted price does not depend on the
      membership tier: choosing another tier leaves it as it was. */
  lemma TeamQuoteIgnoresTier(s: State, tier: Tier)
    requires s.selected.Some? && s.selected.value.kind == Team
    ensures Quote(SetTier(s, tier)) == Quote(s)
  {
  }

  /** A booked desk never becomes unbooked: no transition clears `booked`, and
      none changes a desk's identifier or kind or the number of desks. */
  lemma TransitionsKeepBooked(s: State, i: int, j: int, hours: int, tier: Tier, timestamp: string)
    requires 0 <= i < |s.desks| && 0 <= j < |s.desks|
    requires s.desks[i].booked
    ensures SelectDesk(s, j).desks[i].booked
    ensures SetHours(s, hours).Success? ==> SetHours(s, hours).value.desks[i].booked
    ensures SetHoursAsWritten(s, hours).desks[i].booked
    ensures SetTier(s, tier).desks[i].booked
    ensures |HandleBooking(s, timestamp).desks| == |s.desks|
    ensures HandleBooking(s, timestamp).desks[i].booked
  {
  }

  /** Under the ledger invariant a booking changes exactly the selected desk, which
      ends up booked; every other desk is left as it was. */
  lemma HandleBookingChangesOnlySelected(s: State, timestamp: string)
    requires LedgerInv(s) && s.selected.Some?
    ensures exists j :: && 0 <= j < |s.desks| && s.desks[j] == s.selected.value
                        && HandleBooking(s, timestamp).desks == s.desks[j := s.desks[j].(booked := true)]
  {
    var j :| 0 <= j < |s.desks| && s.desks[j] == s.selected.value;
    MarkBookedTouchesOnlyTarget(s.desks, j);
    var r := HandleBooking(s, timestamp);
    assert r.desks == s.desks[j := s.desks[j].(booked := true)];
  }

  // ---------------------------------------------------------------------------
  // The unchecked hours field

  /** With the hours field as written, typing -2 for a basic individual desk
      records a booking at price -20 and drives the revenue below zero, and
      the desk is nonetheless marked booked. */
  lemma NegativeHoursLowerRevenue()
    ensures var s := SetHoursAsWritten(SelectDesk(Init(), 0), -2);
      var r := HandleBooking(s, "t");
      && r.history[0].price == -20.0
      && r.revenue < Init().revenue
      && r.desks[0].booked
  {
    var s := SetHoursAsWritten(SelectDesk(Init(), 0), -2);
    assert Quote(s) == CalculatePrice(-2, 10.0) == -20.0;
  }
}
