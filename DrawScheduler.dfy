/**
 * The lottery draw schedule: draws take place on Wednesdays and Saturdays at 20:00:00.000
 * local time, and the next draw after a reference instant is found by pinning the
 * reference's clock to 20:00 and stepping forward one calendar day at a time.
 */
module DrawScheduler {
  import opened Calendar

  /** Weekdays (Sunday = 0) on which a draw takes place: Wednesday and Saturday. */
  const DrawDays: seq<int> := [3, 6]

  const DrawHour: int := 20

  /** 20:00:00.000 as milliseconds since midnight. */
  const DrawTime: int := MakeTime(DrawHour, 0, 0, 0)

  predicate IsDrawDay(t: int) {
    WeekDay(t) in DrawDays
  }

  /** t is the instant of a draw: 20:00:00.000 on a Wednesday or a Saturday. */
  predicate IsDrawInstant(t: int) {
    IsDrawDay(t) && TimeWithinDay(t) == DrawTime
  }

  /** 20:00:00.000 on day number d. */
  function DrawOnDay(d: int): int {
    MakeDate(d, DrawTime)
  }

  /** Day d passes the loop's test for reference date: a draw day whose 20:00 is strictly later than date. */
  predicate Qualifies(date: int, d: int) {
    IsDrawDay(DrawOnDay(d)) && date < DrawOnDay(d)
  }

  lemma DrawOnDayParts(d: int)
    ensures Day(DrawOnDay(d)) == d && TimeWithinDay(DrawOnDay(d)) == DrawTime
    ensures WeekDay(DrawOnDay(d)) == (d + 4) % 7
  {
    MakeDateParts(d, DrawTime);
  }

  /** Days from weekday w forward to the nearest draw weekday, 0 when w is one. */
  function DaysToDrawDay(w: int): (n: int)
    requires 0 <= w < 7
    ensures 0 <= n <= 3
    ensures (w + n) % 7 in DrawDays
  {
    if w <= 3 then 3 - w else 6 - w
  }

  /**
   * The next draw in closed form: 20:00 of the reference's own day when the reference falls
   * on a draw day before 20:00, and otherwise 20:00 of the first draw day after its day.
   */
  function NextDraw(date: int): (r: int)
    ensures IsDrawInstant(r) && date < r
    ensures Day(date) <= Day(r) <= Day(date) + 4
  {
    var today := Day(date);
    DrawOnDayParts(today);
    if IsDrawDay(date) && TimeWithinDay(date) < DrawTime then
      DrawOnDay(today)
    else
      var d := today + 1 + DaysToDrawDay((today + 5) % 7);
      DrawOnDayParts(d);
      DrawOnDay(d)
  }

  /** No day before the closed form's day passes the loop's test, and the closed form's day does. */
  lemma {:induction false} NextDrawIsFirstQualifyingDay(date: int)
    ensures NextDraw(date) == DrawOnDay(Day(NextDraw(date)))
    ensures Qualifies(date, Day(NextDraw(date)))
    ensures forall d :: d < Day(NextDraw(date)) ==> !Qualifies(date, d)
  {
    var r := NextDraw(date);
    var today := Day(date);
    DrawOnDayParts(Day(r));
    assert DrawOnDay(Day(r)) == r;
    forall d | d < Day(r)
      ensures !Qualifies(date, d)
    {
      DrawOnDayParts(d);
      if d == today {
        assert WeekDay(DrawOnDay(d)) == WeekDay(date);
      } else if d > today {
        assert (d + 4) % 7 !in DrawDays;
      }
    }
  }

  /** The closed form is the earliest draw instant strictly after the reference date. */
  lemma NextDrawIsEarliest(date: int, t: int)
    requires IsDrawInstant(t) && date < t
    ensures NextDraw(date) <= t
  {
    var r := NextDraw(date);
    DrawOnDayParts(Day(t));
    DrawOnDayParts(Day(r));
    assert t == DrawOnDay(Day(t)) && r == DrawOnDay(Day(r));
    NextDrawIsFirstQualifyingDay(date);
    assert Qualifies(date, Day(t));
  }

  /**
   * The result stays on the reference's own day exactly when the reference falls on a draw
   * day before 20:00; a reference at or after 20:00 of a draw day moves to a later day.
   */
  lemma NextDrawSameDay(date: int)
    ensures Day(NextDraw(date)) == Day(date) <==> IsDrawDay(date) && TimeWithinDay(date) < DrawTime
  {
    DrawOnDayParts(Day(date));
    NextDrawIsFirstQualifyingDay(date);
    if Day(NextDraw(date)) == Day(date) {
      assert Qualifies(date, Day(date));
      assert WeekDay(DrawOnDay(Day(date))) == WeekDay(date);
    }
  }

  /** After a Wednesday draw the next one is the Saturday three days on; after a Saturday, the Wednesday four days on. */
  lemma NextDrawAfterDraw(t: int)
    requires IsDrawInstant(t)
    ensures NextDraw(t) == t + (if WeekDay(t) == 3 then 3 else 4) * MsPerDay
  {
    DrawOnDayParts(Day(t));
    assert t == DrawOnDay(Day(t));
    DrawOnDayParts(Day(t) + 1 + DaysToDrawDay((Day(t) + 5) % 7));
  }

  /** The reference Wednesday 2024-01-03 at 12:00 gives the draw at 20:00 the same day. */
  lemma WednesdayNoonExample()
    ensures DaysFromCivil(2024, 0, 3) == 19725
    ensures NextDraw(MakeDate(19725, MakeTime(12, 0, 0, 0))) == MakeDate(19725, MakeTime(20, 0, 0, 0))
  {
    MakeDateParts(19725, MakeTime(12, 0, 0, 0));
    assert WeekDay(MakeDate(19725, MakeTime(12, 0, 0, 0))) == 3;
  }

  /** The reference Wednesday 2024-01-03 at 21:00 gives the draw on Saturday 2024-01-06 at 20:00. */
  lemma WednesdayEveningExample()
    ensures DaysFromCivil(2024, 0, 6) == 19728
    ensures NextDraw(MakeDate(19725, MakeTime(21, 0, 0, 0))) == MakeDate(19728, MakeTime(20, 0, 0, 0))
  {
    MakeDateParts(19725, MakeTime(21, 0, 0, 0));
  }

  /**
   * getNextLottoDraw: copy the reference, pin its clock to 20:00:00.000 on the same calendar
   * day, then advance one calendar day at a time until the candidate falls on a draw weekday
   * and is strictly later than the reference.
   */
  method GetNextLottoDraw(date: int) returns (next: int, ghost advances: nat)
    ensures next == NextDraw(date)
    ensures IsDrawInstant(next) && date < next
    ensures forall t :: date < t < next ==> !IsDrawInstant(t)
    ensures Day(next) == Day(date) + advances && advances <= 4
    ensures advances == 0 <==> IsDrawDay(date) && TimeWithinDay(date) < DrawTime
  {
    var drawDays := DrawDays;
    next := SetHours(date, DrawHour, 0, 0, 0);
    SetHoursPinsTime(date, DrawHour, 0, 0, 0);
    NextDrawIsFirstQualifyingDay(date);
    advances := 0;
    while !(WeekDay(next) in drawDays) || next <= date
      invariant next == DrawOnDay(Day(next))
      invariant Day(next) == Day(date) + advances <= Day(NextDraw(date))
      decreases Day(NextDraw(date)) - Day(next)
    {
      next := AdvanceOneDay(next);
      advances := advances + 1;
    }
    assert Qualifies(date, Day(next));
    assert Day(next) == Day(NextDraw(date));
    NextDrawSameDay(date);
    forall t | date < t < next
      ensures !IsDrawInstant(t)
    {
      if IsDrawInstant(t) {
        NextDrawIsEarliest(date, t);
      }
    }
  }
}
