# Co-working desk booking: a Dafny model

This project models the logic behind the `BookingSystem` React component of
the CoWorking repository: the rate table and the price of a booking, the desk
inventory, and the state transitions behind the desk buttons, the booking
form and the confirm button. The component's `useState` fields become one
immutable `State` value, and each handler becomes a pure function from the
old state to the new one.

- `Desks` (desks.dfy): the start-up inventory I1..I10 (individual) and T1..T5
  (team), and marking one desk booked.
- `Pricing` (pricing.dfy): the `PRICING` table, the rate of a desk under a
  membership tier, and `calculatePrice` with its 10% discount past three hours.
- `Booking` (booking.dfy): the state, the click guard, the hours and tier
  fields, the displayed quote, `handleBooking`, and the invariant every
  reachable state satisfies (`LedgerInv`):
  - revenue equals the sum of the recorded prices;
  - a desk is booked exactly when the history holds a booking of it;
  - no desk is booked twice.

  With the corrected hours field (see Findings) the stronger `Inv` also holds:
  hours are at least one and every record is priced at its desk's rate.
- `Session` (session.dfy): sequences of user actions from the state on mount,
  through either the component's hours field or the corrected one. The ledger
  invariant is proved for both; the stronger invariant, and a revenue that
  never falls, for the corrected field.
- `Scenarios` (scenarios.dfy): five worked sessions: three priced bookings, and
  one session typing -2 hours through each of the two hours fields.
- `Wrappers` (wrappers.dfy): `Option` and `Result`.

Prices are exact `real` numbers, so `basePrice * 0.9` is exact. The clock
reading stored in each record is a parameter of `HandleBooking`.

The membership tier survives a booking: `handleBooking` resets only the
selection and the hours (src/components/BookingSystem.jsx:68-69), and
`HandleBooking` keeps the tier. The component has no error values: a click
on a booked desk and a confirmation with no selection simply do nothing, and
the model says exactly that. The one rejection the model adds is the
corrected hours field described under Findings.

## Model

| member | source | states |
|---|---|---|
| Desks.DecimalString | src/components/BookingSystem.jsx:16-22 | the `${i + 1}` rendering of a number is a non-empty string of decimal digits, one digit long exactly for numbers below 10 |
| Desks.DecimalStringInjective | src/components/BookingSystem.jsx:16 | distinct desk numbers are spelled differently by the template literal |
| Desks.DeskIdInjective | src/components/BookingSystem.jsx:16-22 | an identifier `<prefix><n>` determines both its prefix and its number |
| Desks.InitialDesks | src/components/BookingSystem.jsx:14-27 | the start-up inventory has 15 desks: I1..I10 individual, then T1..T5 team, none booked |
| Desks.InitialIdsDistinct | src/components/BookingSystem.jsx:14-27 | the 15 start-up identifiers are pairwise distinct |
| Desks.InitialIdsSpelled | src/components/BookingSystem.jsx:14-27 | the rows begin and end with I1, I10, T1 and T5 |
| Desks.MarkBooked | src/components/BookingSystem.jsx:62-66 | marking keeps the desk count, order, ids and kinds; a desk ends booked iff it was booked or has the given id |
| Desks.MarkBookedTouchesOnlyTarget | src/components/BookingSystem.jsx:62-66 | with distinct ids, only the target desk changes, and it becomes booked |
| Pricing.Rate | src/components/BookingSystem.jsx:45-47 | team desks cost the team rate whatever the tier; individual desks cost their tier's rate; every rate is positive |
| Pricing.CalculatePrice | src/components/BookingSystem.jsx:37-40 | up to 3 hours the price is hours * rate; past 3 it is exactly 9/10 of that; it never exceeds hours * rate |
| Pricing.PricePositive | src/components/BookingSystem.jsx:37-40 | a booking of at least one hour at a positive rate has a positive price |
| Pricing.DiscountExactlyPastThreshold | src/components/BookingSystem.jsx:37-40 | at a positive rate and for any integer hours, the price is below hours * rate if and only if hours > 3 |
| Pricing.PriceMonotoneInHours | src/components/BookingSystem.jsx:37-40 | more hours never cost less at any non-negative rate, across the discount threshold too, for any integer hours including the ones the unchecked field can hold |
| Booking.Init | src/components/BookingSystem.jsx:30-35 | on mount: start-up inventory, no selection, 1 hour, basic tier, empty history, zero revenue |
| Booking.SelectDesk | src/components/BookingSystem.jsx:82 | a click on a booked desk changes nothing; on an unbooked desk it selects that desk and changes nothing else |
| Booking.SelectDeskSucceedsIffUnbooked | src/components/BookingSystem.jsx:82 | under the ledger invariant (so in every state reached through either hours field), a click selects the desk if and only if it is unbooked |
| Booking.SetHoursAsWritten | src/components/BookingSystem.jsx:116 | the hours field stores any integer it is given; nothing else changes |
| Booking.SetHours | src/components/BookingSystem.jsx:113-117 | the hours field rejects values below 1 and stores any other value; nothing else changes |
| Booking.SetTier | src/components/BookingSystem.jsx:125-128 | the tier menu changes the tier and nothing else |
| Booking.Quote | src/components/BookingSystem.jsx:138-146 | the displayed price is `CalculatePrice` of the hours at the selected desk's rate for its kind and the tier; it is below hours * rate exactly when the discount label shows, for any hours; and it is positive when hours are at least 1 |
| Booking.HandleBooking | src/components/BookingSystem.jsx:42-70 | without a selection nothing changes; otherwise one record (desk id, hours, quoted price, tier, time) is appended, revenue grows by its price, the selected desk is booked, selection cleared, hours 1, tier kept |
| Booking.TeamQuoteIgnoresTier | src/components/BookingSystem.jsx:138-143 | for a selected team desk, choosing another tier leaves the displayed price unchanged |
| Booking.HandleBookingTwiceIsOnce | src/components/BookingSystem.jsx:43-68 | a second confirmation right after a booking changes nothing |
| Booking.HandleBookingChangesOnlySelected | src/components/BookingSystem.jsx:62-66 | under the ledger invariant (so in every state reached through either hours field), a booking changes exactly the selected desk's flag |
| Booking.TransitionsKeepBooked | src/components/BookingSystem.jsx:62-66 | no transition, either hours field included, unbooks a desk, and a booking keeps the number of desks |
| Booking.SumPricesAppend | src/components/BookingSystem.jsx:59-60 | appending a record adds exactly its price to the sum of prices |
| Booking.RevenueTracksLedger | src/components/BookingSystem.jsx:59-60 | if revenue equals the sum of the history's prices before a confirmation, it does after |
| Booking.SumPricesNonNegative | src/components/BookingSystem.jsx:59-60 | a history of positive prices sums to a non-negative total, positive when non-empty |
| Booking.BookedInAppend | src/components/BookingSystem.jsx:59 | after an append, the history books the desks it booked before plus the new record's desk |
| Booking.BookedMatchesLedgerAfterBooking | src/components/BookingSystem.jsx:59-66 | marking a desk booked while recording it keeps "booked iff recorded" for every desk |
| Booking.PricedAfterBooking | src/components/BookingSystem.jsx:45-66 | every record stays priced at its desk's rate after a booking, the new one included |
| Booking.DistinctBookingsAppend | src/components/BookingSystem.jsx:59 | appending a booking of a desk not yet booked keeps bookings distinct |
| Booking.DistinctIdsAfterMark | src/components/BookingSystem.jsx:62-66 | marking a desk booked keeps identifiers distinct |
| Booking.InitSatisfiesInv | src/components/BookingSystem.jsx:14-35 | the state on mount satisfies the invariant |
| Booking.SelectDeskPreservesLedgerInv | src/components/BookingSystem.jsx:82 | a click keeps the ledger invariant |
| Booking.SetHoursAsWrittenPreservesLedgerInv | src/components/BookingSystem.jsx:116 | the hours field as written keeps the ledger invariant, whatever integer it stores |
| Booking.SetTierPreservesLedgerInv | src/components/BookingSystem.jsx:125-128 | choosing a tier keeps the ledger invariant |
| Booking.HandleBookingPreservesLedgerInv | src/components/BookingSystem.jsx:42-70 | confirming keeps revenue equal to the sum of prices, booked iff recorded, and no desk booked twice, whatever the hours |
| Booking.SelectDeskPreservesInv | src/components/BookingSystem.jsx:82 | a click keeps the invariant |
| Booking.SetHoursPreservesInv | src/components/BookingSystem.jsx:113-117 | an accepted hours value keeps the invariant |
| Booking.SetTierPreservesInv | src/components/BookingSystem.jsx:125-128 | choosing a tier keeps the invariant |
| Booking.HandleBookingPreservesInv | src/components/BookingSystem.jsx:42-70 | confirming a booking keeps the invariant |
| Booking.RevenueNeverDecreases | src/components/BookingSystem.jsx:49-60 | with the corrected hours field (under `Inv`), revenue is non-negative, a confirmation never lowers it, and a real booking raises it |
| Booking.NegativeHoursLowerRevenue | src/components/BookingSystem.jsx:113-117 | with the field as written, -2 hours on I1 records a price of -20, books the desk and makes revenue negative |
| Session.Apply | src/components/BookingSystem.jsx:42-128 | one action keeps desk count, ids and kinds, never unbooks, and only a confirmation touches desks, history or revenue; typed hours are stored as given by the component's field, and kept unless below 1 by the corrected one |
| Session.Run | src/components/BookingSystem.jsx:30-128 | any action sequence, through either hours field, keeps desk count, ids and kinds, never unbooks, and only appends to the history |
| Session.ApplyPreservesInv | src/components/BookingSystem.jsx:42-128 | with the corrected hours field, every action keeps the invariant |
| Session.ApplyPreservesLedgerInv | src/components/BookingSystem.jsx:42-128 | through either hours field, every action keeps the ledger invariant |
| Session.ClicksInRangeTail | src/components/BookingSystem.jsx:79-82 | the clicks of the rest of a session still land on rendered desks |
| Session.RunPreservesInv | src/components/BookingSystem.jsx:42-128 | with the corrected hours field, any action sequence keeps the invariant and never lowers the revenue |
| Session.RunPreservesLedgerInv | src/components/BookingSystem.jsx:42-128 | through either hours field, any action sequence keeps the ledger invariant |
| Session.ReachableStatesKeepLedger | src/components/BookingSystem.jsx:30-70 | in every state reached from mount, through either hours field, revenue equals the sum of recorded prices, booked desks are those recorded, and no desk is booked twice |
| Session.ReachableStatesKeepPrices | src/components/BookingSystem.jsx:30-70 | with the corrected hours field, every reached state also has non-negative revenue and every record priced at its desk's rate |
| Scenarios.BasicIndividualTwoHours | src/components/BookingSystem.jsx:37-69 | I1, basic, 2 hours: quote 20; the history holds that one record, revenue is 20, I1 is booked |
| Scenarios.TeamFiveHours | src/components/BookingSystem.jsx:37-69 | T1, 5 hours, any tier: quote 112.50 and revenue 112.50 |
| Scenarios.ExecutiveFourHoursThenReselect | src/components/BookingSystem.jsx:37-82 | I2, executive, 4 hours: quote 72; afterwards a click on I2 changes nothing, the tier stays executive |
| Scenarios.RunOfThree | src/components/BookingSystem.jsx:42-128 | a three-action session is the three actions applied in order |
| Scenarios.NegativeHoursSessionChecked | src/components/BookingSystem.jsx:113-117 | click I1, type -2, confirm with the corrected field: -2 is rejected, I1 is booked for 1 hour at 10 |
| Scenarios.NegativeHoursSessionAsWritten | src/components/BookingSystem.jsx:113-117 | the same session with the component's field books I1 for -2 hours at -20 and revenue becomes -20 |

## Left out

- JSX rendering, CSS classes and icons (lines 72-182): presentation only.
- `toFixed(2)` formatting of prices and revenue: display only; the stored values are modelled at full precision.
- Binary floating point: prices and revenue are exact reals, so rounding in `* 0.9` and in the running sum is not modelled.
- `parseInt` on the hours text: the model takes the parsed integer; a `NaN` from an empty field is not modelled.
- The record's `timestamp` is a caller-supplied string; the clock itself is not modelled.
- The per-desk `bookings: []` list: nothing ever writes to it, so `Desk` does not carry it.
- React state batching: each handler is one atomic transition.
- The tier menu is rendered only for individual desks (line 122); `SetTier` is allowed in any state, which covers every case the UI offers.
- Session.RunPreservesInv: the stronger invariant (hours at least 1, every price positive and at its desk's rate, revenue never falling) is proved only for sessions through the corrected hours field; the component's own field breaks it, as Findings shows. The ledger invariant is proved for both fields.
- Session.Run: a click is an index into the rendered desk list, so sessions whose clicks fall outside the 15 buttons are excluded by its precondition.

## Findings

| source | as written | input that shows it | evidently intended | confidence | as-written member | corrected member |
|---|---|---|---|---|---|---|
| src/components/BookingSystem.jsx:113-117 | the hours field stores whatever `parseInt` returns; `min="1"` does not stop a typed 0 or negative value | select I1, type -2 in the hours field, confirm | hours of at least 1, so every booking costs a positive amount and revenue never falls | not executed; high | Booking.NegativeHoursLowerRevenue (built on Booking.SetHoursAsWritten) | Booking.SetHours (used by Session.Apply with the corrected field; Session.RunPreservesInv proves revenue never falls) |
