/** A session of the booking widget: the user actions that reach the
    component's handlers, applied one after another from the state on mount. */
module Session {
  import opened Wrappers
  import opened Desks
  import opened Pricing
  import opened Booking

  /** A user action: a click on the desk button at `index`, a value typed into
      the hours field, a tier chosen in the tier menu, or the confirm button
      (with the clock reading taken when it is pressed). */
  datatype Event =
    | Click(index: int)
    | EnterHours(hours: int)
    | ChooseTier(tier: Tier)
    | Confirm(timestamp: string)

  /** Which hours field a session goes through: the component's, which stores
      any parsed integer, or the corrected one, which rejects values below one. */
  datatype HoursField = AsWritten | Checked

  /** Clicks land on one of the `n` rendered desk buttons. */
  ghost predicate ClicksInRange(events: seq<Event>, n: nat) {
    forall k :: 0 <= k < |events| && events[k].Click? ==> 0 <= events[k].index < n
  }

  /** One user action as one atomic transition. With the corrected field a
      rejected hours value leaves the state as it was. */
  function Apply(field: HoursField, s: State, e: Event): (r: State)
    requires e.Click? ==> 0 <= e.index < |s.desks|
    ensures |r.desks| == |s.desks|
    ensures forall i :: 0 <= i < |s.desks| ==> r.desks[i].id == s.desks[i].id && r.desks[i].kind == s.desks[i].kind
    ensures forall i :: 0 <= i < |s.desks| && s.desks[i].booked ==> r.desks[i].booked
    ensures !e.Confirm? ==> r.desks == s.desks && r.history == s.history && r.revenue == s.revenue
    ensures e.EnterHours? ==> r.hours == (if field == Checked && e.hours < 1 then s.hours else e.hours)
  {
    match e
    case Click(i) => SelectDesk(s, i)
    case EnterHours(h) =>
      if field == AsWritten then SetHoursAsWritten(s, h)
      else
        (match SetHours(s, h)
         case Success(t) => t
         case Failure(_) => assert h < 1 && field == Checked && e.hours == h; s)
    case ChooseTier(t) => SetTier(s, t)
    case Confirm(ts) => HandleBooking(s, ts)
  }

  /** The state after a sequence of actions, oldest first. Along the way no
      desk is added, removed, reordered, renamed or unbooked, and the history
      only grows at its end. */
  function Run(field: HoursField, s: State, events: seq<Event>): (r: State)
    requires ClicksInRange(events, |s.desks|)
    ensures |r.desks| == |s.desks|
    ensures forall i :: 0 <= i < |s.desks| ==> r.desks[i].id == s.desks[i].id && r.desks[i].kind == s.desks[i].kind
    ensures forall i :: 0 <= i < |s.desks| && s.desks[i].booked ==> r.desks[i].booked
    ensures |s.history| <= |r.history| && r.history[..|s.history|] == s.history
    decreases |events|
  {
    if |events| == 0 then s
    else
      var t := Apply(field, s, events[0]);
      assert t.history[..|s.history|] == s.history;
      Run(field, t, events[1..])
  }

  /** Every action keeps the invariant when hours go through the corrected field. */
  lemma ApplyPreservesInv(s: State, e: Event)
    requires Inv(s) && (e.Click? ==> 0 <= e.index < |s.desks|)
    ensures Inv(Apply(Checked, s, e))
  {
    match e
    case Click(i) => SelectDeskPreservesInv(s, i);
    case EnterHours(h) => SetHoursPreservesInv(s, h);
    case ChooseTier(t) => SetTierPreservesInv(s, t);
    case Confirm(ts) => HandleBookingPreservesInv(s, ts);
  }

  /** Every action keeps the ledger invariant through either hours field. */
  lemma ApplyPreservesLedgerInv(field: HoursField, s: State, e: Event)
    requires LedgerInv(s) && (e.Click? ==> 0 <= e.index < |s.desks|)
    ensures LedgerInv(Apply(field, s, e))
  {
    match e
    case Click(i) => SelectDeskPreservesLedgerInv(s, i);
    case EnterHours(h) => SetHoursAsWrittenPreservesLedgerInv(s, h);
    case ChooseTier(t) => SetTierPreservesLedgerInv(s, t);
    case Confirm(ts) => HandleBookingPreservesLedgerInv(s, ts);
  }

  /** The clicks of the rest of a session still land on a desk. */
  lemma ClicksInRangeTail(events: seq<Event>, n: nat)
    requires |events| > 0 && ClicksInRange(events, n)
    ensures ClicksInRange(events[1..], n)
  {
    forall k | 0 <= k < |events[1..]| && events[1..][k].Click?
      ensures 0 <= events[1..][k].index < n
    {
      assert events[1..][k] == events[k + 1];
    }
  }

  /** With the corrected hours field every action sequence keeps the
      invariant, and the revenue never falls. */
  lemma {:induction false} RunPreservesInv(s: State, events: seq<Event>)
    requires Inv(s) && ClicksInRange(events, |s.desks|)
    ensures Inv(Run(Checked, s, events))
    ensures Run(Checked, s, events).revenue >= s.revenue
    decreases |events|
  {
    if |events| > 0 {
      var t := Apply(Checked, s, events[0]);
      ApplyPreservesInv(s, events[0]);
      RevenueNeverDecreases(s, if events[0].Confirm? then events[0].timestamp else "");
      ClicksInRangeTail(events, |s.desks|);
      RunPreservesInv(t, events[1..]);
    }
  }

  /** Through either hours field, every action sequence keeps the ledger
      invariant. */
  lemma {:induction false} RunPreservesLedgerInv(field: HoursField, s: State, events: seq<Event>)
    requires LedgerInv(s) && ClicksInRange(events, |s.desks|)
    ensures LedgerInv(Run(field, s, events))
    decreases |events|
  {
    if |events| > 0 {
      ApplyPreservesLedgerInv(field, s, events[0]);
      ClicksInRangeTail(events, |s.desks|);
      RunPreservesLedgerInv(field, Apply(field, s, events[0]), events[1..]);
    }
  }

  /** In every state the component reaches from mount, hours field as written
      included, the running revenue equals the sum of the prices in the
      history, booked desks are exactly those the history books, and no desk is
      booked twice. */
  lemma ReachableStatesKeepLedger(field: HoursField, events: seq<Event>)
    requires ClicksInRange(events, |InitialDesks()|)
    ensures var r := Run(field, Init(), events);
      && LedgerInv(r)
      && r.revenue == SumPrices(r.history)
      && DistinctBookings(r.history)
  {
    InitSatisfiesInv();
    RunPreservesLedgerInv(field, Init(), events);
  }

  /** With the corrected hours field, in every state reached from mount the
      revenue is also never negative and every record is priced at its desk's
      rate for at least one hour. */
  lemma ReachableStatesKeepPrices(events: seq<Event>)
    requires ClicksInRange(events, |InitialDesks()|)
    ensures var r := Run(Checked, Init(), events);
      && Inv(r)
      && r.revenue >= 0.0
      && LedgerPriced(r.desks, r.history)
  {
    InitSatisfiesInv();
    RunPreservesInv(Init(), events);
    RevenueNeverDecreases(Run(Checked, Init(), events), "");
  }
}
