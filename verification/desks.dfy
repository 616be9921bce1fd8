/** The desk inventory: the fixed list of desks the booking widget starts with,
    and the only mutation ever applied to it, marking one desk booked. */
module Desks {

  datatype DeskKind = Individual | Team

  /** A desk of the inventory. `booked` is the component's `isBooked` flag; the
      per-desk `bookings` list, which nothing ever fills, is not carried. */
  datatype Desk = Desk(id: string, kind: DeskKind, booked: bool)

  /** The character of a decimal digit. */
  function DigitChar(d: nat): (c: char)
    requires d < 10
    ensures '0' <= c <= '9'
    ensures c as int - '0' as int == d
  {
    ('0' as int + d) as char
  }

  /** Decimal rendering of a natural number, as a template literal prints it. */
  function DecimalString(n: nat): (s: string)
    ensures 1 <= |s|
    ensures n < 10 <==> |s| == 1
    ensures forall k :: 0 <= k < |s| ==> '0' <= s[k] <= '9'
  {
    if n < 10 then [DigitChar(n)] else DecimalString(n / 10) + [DigitChar(n % 10)]
  }

  /** Distinct numbers have distinct decimal renderings. */
  lemma {:induction false} DecimalStringInjective(m: nat, n: nat)
    ensures DecimalString(m) == DecimalString(n) ==> m == n
  {
    if DecimalString(m) == DecimalString(n) {
      var a, b := DecimalString(m), DecimalString(n);
      if m < 10 || n < 10 {
        assert m < 10 && n < 10;
        assert a[0] == DigitChar(m) && b[0] == DigitChar(n);
      } else {
        assert a[|a| - 1] == DigitChar(m % 10);
        assert b[|b| - 1] == DigitChar(n % 10);
        assert a[..|a| - 1] == DecimalString(m / 10);
        assert b[..|b| - 1] == DecimalString(n / 10);
        DecimalStringInjective(m / 10, n / 10);
      }
    }
  }

  /** The identifier `<prefix><n>` of the n-th desk of a row. */
  function DeskId(prefix: char, n: nat): string {
    [prefix] + DecimalString(n)
  }

  /** Two identifiers are equal exactly when both prefix and number are. */
  lemma DeskIdInjective(p: char, m: nat, q: char, n: nat)
    ensures DeskId(p, m) == DeskId(q, n) <==> p == q && m == n
  {
    if DeskId(p, m) == DeskId(q, n) {
      assert DeskId(p, m)[0] == p && DeskId(q, n)[0] == q;
      assert DeskId(p, m)[1..] == DecimalString(m);
      assert DeskId(q, n)[1..] == DecimalString(n);
      DecimalStringInjective(m, n);
    }
  }

  /** No two desks of an inventory share an identifier. */
  ghost predicate DistinctIds(desks: seq<Desk>) {
    forall i, j :: 0 <= i < j < |desks| ==> desks[i].id != desks[j].id
  }

  const IndividualCount: nat := 10
  const TeamCount: nat := 5

  /** The inventory at start-up: individual desks I1..I10, then team desks
      T1..T5, none booked. */
  function InitialDesks(): (desks: seq<Desk>)
    ensures |desks| == IndividualCount + TeamCount == 15
    ensures forall i :: 0 <= i < IndividualCount ==>
      desks[i].kind == Individual && desks[i].id == DeskId('I', i + 1)
    ensures forall i :: IndividualCount <= i < |desks| ==>
      desks[i].kind == Team && desks[i].id == DeskId('T', i - IndividualCount + 1)
    ensures forall i :: 0 <= i < |desks| ==> !desks[i].booked
  {
    seq(IndividualCount, i requires 0 <= i => Desk(DeskId('I', i + 1), Individual, false))
    + seq(TeamCount, i requires 0 <= i => Desk(DeskId('T', i + 1), Team, false))
  }

  /** The start-up identifiers are pairwise distinct. */
  lemma InitialIdsDistinct()
    ensures DistinctIds(InitialDesks())
  {
    var desks := InitialDesks();
    forall i, j | 0 <= i < j < |desks|
      ensures desks[i].id != desks[j].id
    {
      if j < IndividualCount {
        DeskIdInjective('I', i + 1, 'I', j + 1);
      } else if i < IndividualCount {
        DeskIdInjective('I', i + 1, 'T', j - IndividualCount + 1);
      } else {
        DeskIdInjective('T', i - IndividualCount + 1, 'T', j - IndividualCount + 1);
      }
    }
  }

  /** The first and last identifiers of each row are spelled I1, I10, T1, T5. */
  lemma InitialIdsSpelled()
    ensures InitialDesks()[0].id == "I1"
    ensures InitialDesks()[9].id == "I10"
    ensures InitialDesks()[10].id == "T1"
    ensures InitialDesks()[14].id == "T5"
  {
    assert DecimalString(10) == DecimalString(1) + [DigitChar(0)];
  }

  /** Sets `booked` on every desk whose identifier is `id`, leaving every other
      desk, the number of desks and their order as they were. */
  function MarkBooked(desks: seq<Desk>, id: string): (r: seq<Desk>)
    ensures |r| == |desks|
    ensures forall i :: 0 <= i < |r| ==> r[i].id == desks[i].id && r[i].kind == desks[i].kind
    ensures forall i :: 0 <= i < |r| ==> (r[i].booked <==> desks[i].booked || desks[i].id == id)
  {
    if |desks| == 0 then []
    else
      var d := desks[0];
      [if d.id == id then d.(booked := true) else d] + MarkBooked(desks[1..], id)
  }

  /** With distinct identifiers, marking the desk at `j` changes that desk alone:
      it ends up booked and every other desk is equal to what it was. */
  lemma MarkBookedTouchesOnlyTarget(desks: seq<Desk>, j: int)
    requires DistinctIds(desks)
    requires 0 <= j < |desks|
    ensures MarkBooked(desks, desks[j].id)[j] == desks[j].(booked := true)
    ensures forall i :: 0 <= i < |desks| && i != j ==> MarkBooked(desks, desks[j].id)[i] == desks[i]
  {
    var r := MarkBooked(desks, desks[j].id);
    forall i | 0 <= i < |desks| && i != j
      ensures r[i] == desks[i]
    {
      assert desks[i].id != desks[j].id;
    }
  }
}
