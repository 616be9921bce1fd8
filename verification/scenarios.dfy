/** Worked sessions of the booking widget: concrete clicks, field values and
    confirmations with the quotes, history and revenue they produce. */
module Scenarios {
  import opened Wrappers
  import opened Desks
  import opened Pricing
  import opened Booking
  import opened Session

  /** Desk I1 at the basic tier for two hours costs 20 and no discount applies;
      confirming records it, books I1 and brings the revenue to 20. */
  lemma BasicIndividualTwoHours(ts: string)
    ensures SetHours(SelectDesk(Init(), 0), 2).Success?
    ensures var s := SetHours(SelectDesk(Init(), 0), 2).value;
      var r := HandleBooking(s, ts);
      && Quote(s) == 20.0
      && r.history == [BookingRecord("I1", 2, 20.0, Basic, ts)]
      && r.revenue == 20.0
      && r.desks[0].booked
      && r.selected == None && r.hours == 1
  {
    InitialIdsSpelled();
  }

  /** Team desk T1 for five hours costs 5 * 25 less 10%, that is 112.50,
      whatever the tier. */
  lemma TeamFiveHours(tier: Tier, ts: string)
    ensures SetHours(SetTier(SelectDesk(Init(), 10), tier), 5).Success?
    ensures var s := SetHours(SetTier(SelectDesk(Init(), 10), tier), 5).value;
      var r := HandleBooking(s, ts);
      && Quote(s) == 112.5
      && r.history == [BookingRecord("T1", 5, 112.5, tier, ts)]
      && r.revenue == 112.5
      && r.desks[10].booked
  {
    InitialIdsSpelled();
  }

  /** Desk I2 at the executive tier for four hours costs 72; once it is booked
      a further click on I2 changes nothing, and the executive tier survives
      the booking while the hours return to one. */
  lemma ExecutiveFourHoursThenReselect(ts: string)
    ensures SetHours(SetTier(SelectDesk(Init(), 1), Executive), 4).Success?
    ensures var s := SetHours(SetTier(SelectDesk(Init(), 1), Executive), 4).value;
      var r := HandleBooking(s, ts);
      && Quote(s) == 72.0
      && r.revenue == 72.0
      && r.desks[1].booked
      && r.tier == Executive && r.hours == 1
      && SelectDesk(r, 1) == r
  {
  }

  /** A three-action session is the three actions applied in order. */
  lemma RunOfThree(field: HoursField, s: State, e1: Event, e2: Event, e3: Event)
    requires e1.Click? ==> 0 <= e1.index < |s.desks|
    requires e2.Click? ==> 0 <= e2.index < |s.desks|
    requires e3.Click? ==> 0 <= e3.index < |s.desks|
    ensures ClicksInRange([e1, e2, e3], |s.desks|)
    ensures var t2 := Apply(field, Apply(field, s, e1), e2);
      Run(field, s, [e1, e2, e3]) == Apply(field, t2, e3)
  {
    var events := [e1, e2, e3];
    assert events[1..] == [e2, e3] && [e2, e3][1..] == [e3] && [e3][1..] == [];
    var t1 := Apply(field, s, e1);
    var t2 := Apply(field, t1, e2);
    var t3 := Apply(field, t2, e3);
    assert Run(field, t2, [e3]) == Run(field, t3, []) == t3;
    assert Run(field, t1, [e2, e3]) == Run(field, t2, [e3]);
    assert Run(field, s, events) == Run(field, t1, [e2, e3]);
  }

  /** Clicking I1, typing -2 hours and confirming through the corrected field:
      the value is rejected and the hours stay at one, so I1 is booked for one
      hour at 10. */
  lemma NegativeHoursSessionChecked(ts: string)
    ensures ClicksInRange([Click(0), EnterHours(-2), Confirm(ts)], |Init().desks|)
    ensures var r := Run(Checked, Init(), [Click(0), EnterHours(-2), Confirm(ts)]);
      && r.history == [BookingRecord("I1", 1, 10.0, Basic, ts)]
      && r.revenue == 10.0
  {
    RunOfThree(Checked, Init(), Click(0), EnterHours(-2), Confirm(ts));
    var t1 := SelectDesk(Init(), 0);
    assert Apply(Checked, Init(), Click(0)) == t1;
    assert Apply(Checked, t1, EnterHours(-2)) == t1;
    InitialIdsSpelled();
    assert t1.selected == Some(Desk("I1", Individual, false));
    assert Quote(t1) == 10.0;
  }

  /** The same session through the component's hours field books I1 for -2
      hours at -20, and the revenue goes negative. */
  lemma NegativeHoursSessionAsWritten(ts: string)
    ensures ClicksInRange([Click(0), EnterHours(-2), Confirm(ts)], |Init().desks|)
    ensures var r := Run(AsWritten, Init(), [Click(0), EnterHours(-2), Confirm(ts)]);
      && r.history == [BookingRecord("I1", -2, -20.0, Basic, ts)]
      && r.revenue == -20.0
  {
    RunOfThree(AsWritten, Init(), Click(0), EnterHours(-2), Confirm(ts));
    var t2 := SetHoursAsWritten(SelectDesk(Init(), 0), -2);
    assert Apply(AsWritten, Apply(AsWritten, Init(), Click(0)), EnterHours(-2)) == t2;
    InitialIdsSpelled();
    assert t2.selected == Some(Desk("I1", Individual, false));
    assert Quote(t2) == CalculatePrice(-2, 10.0) == -20.0;
  }
}
