/** Listing the fire times of a schedule in a window, and finding the newest ones.

    Windows are in whole seconds; the moments they are taken from are in nanoseconds. */
module Slots {
  import opened Bitmask
  import opened Calendar
  import opened Cron
  import opened Wrappers

  const DAY_NANOS := SECONDS_PER_DAY * NANOS

  /** Every fire from a to b, ascending. */
  function FiresIn(c: Schedule, a: int, b: int): seq<int>
    decreases b - a
  {
    if b < a then [] else FiresIn(c, a, b - 1) + (if Fires(c, b) then [b] else [])
  }

  /** The enumeration is exactly the fires of the window, each once, in order. */
  lemma {:induction false} FiresInExact(c: Schedule, a: int, b: int)
    ensures forall t :: t in FiresIn(c, a, b) <==> a <= t <= b && Fires(c, t)
    ensures forall i, j :: 0 <= i < j < |FiresIn(c, a, b)| ==> FiresIn(c, a, b)[i] < FiresIn(c, a, b)[j]
    decreases b - a
  {
    if a <= b {
      FiresInExact(c, a, b - 1);
      var rest := FiresIn(c, a, b - 1);
      forall i | 0 <= i < |rest| ensures rest[i] < b { assert rest[i] in rest; }
    }
  }

  lemma {:induction false} FiresInSplit(c: Schedule, a: int, m: int, b: int)
    requires a - 1 <= m <= b
    ensures FiresIn(c, a, b) == FiresIn(c, a, m) + FiresIn(c, m + 1, b)
    decreases b - m
  {
    if m < b {
      FiresInSplit(c, a, m, b - 1);
    }
  }

  lemma {:induction false} FiresInNone(c: Schedule, a: int, b: int)
    requires NoFires(c, a, b + 1)
    ensures FiresIn(c, a, b) == []
    decreases b - a
  {
    if a <= b {
      FiresInNone(c, a, b - 1);
    }
  }

  lemma FirstOfFires(c: Schedule, a: int, f: int, b: int)
    requires a <= f <= b && Fires(c, f) && NoFires(c, a, f)
    ensures FiresIn(c, a, b) == [f] + FiresIn(c, f + 1, b)
  {
    FiresInSplit(c, a, f, b);
    FiresInNone(c, a, f - 1);
  }

  /** How many of the fires can be reached one from the next without a gap of five years or more. */
  function Reach(prev: int, fires: seq<int>): (n: nat)
    ensures n <= |fires|
    decreases |fires|
  {
    if fires != [] && fires[0] < Horizon(prev + 1) then 1 + Reach(fires[0], fires[1..]) else 0
  }

  lemma {:induction false} ReachesAll(prev: int, fires: seq<int>, limit: int)
    requires forall i :: 0 <= i < |fires| ==> prev < fires[i] < limit
    requires forall i, j :: 0 <= i < j < |fires| ==> fires[i] < fires[j]
    requires limit <= prev + 1 + 1825 * SECONDS_PER_DAY
    ensures Reach(prev, fires) == |fires|
    decreases |fires|
  {
    if fires != [] {
      FiveYears(prev + 1);
      ReachesAll(fires[0], fires[1..], limit);
    }
  }

  function Min(a: int, b: int): int {
    if a <= b then a else b
  }

  /** The outcome of listing the window from second s to second e: the fires up to the first gap of five
      years or the cap, and whether the cap cut the list. */
  ghost predicate Lists(c: Schedule, s: int, e: int, out: seq<int>, capped: bool) {
    var all := FiresIn(c, s, e);
    var n := Reach(s - 1, all);
    out == all[..Min(n, 10_000)] && capped == (n > 10_000)
  }

  /** The fires of [start, end] (nanoseconds) at second resolution; a window that ends before it starts has none. */
  method Between(c: Schedule, start: int, end: int) returns (out: seq<int>, capped: bool)
    requires c.Valid()
    ensures end < start ==> out == [] && !capped
    ensures start <= end ==> Lists(c, start / NANOS, end / NANOS, out, capped)
  {
    hide AddDate, MonthIndex, Fires, Reach, FiresIn;
    if end < start {
      return [], false;
    }
    out := [];
    var t := start - NANOS;
    ghost var s, e := start / NANOS, end / NANOS;
    ghost var prev := s - 1;
    while true
      invariant t / NANOS == prev <= e && |out| <= BETWEEN_CAP
      invariant ListedTo(c, s, e, prev, out)
      decreases e - prev
    {
      var n := Next(c, t);
      if n.None? {
        ListDone(c, s, e, prev, out, n);
        return out, false;
      }
      WholeSeconds(n.value, end);
      if n.value * NANOS > end {
        ListDone(c, s, e, prev, out, n);
        return out, false;
      }
      ListMore(c, s, e, prev, out, n.value);
      if |out| >= BETWEEN_CAP {
        return out, true;
      }
      out := out + [n.value];
      t := n.value * NANOS;
      prev := n.value;
    }
  }

  lemma WholeSeconds(n: int, end: int)
    ensures n * NANOS / NANOS == n
    ensures n * NANOS > end <==> n > end / NANOS
  {
  }

  /** The listing has reached prev: what it holds is a leading part of the window's fires, all within reach. */
  ghost predicate ListedTo(c: Schedule, s: int, e: int, prev: int, out: seq<int>) {
    && s - 1 <= prev
    && FiresIn(c, s, e) == out + FiresIn(c, prev + 1, e)
    && Reach(s - 1, FiresIn(c, s, e)) == |out| + Reach(prev, FiresIn(c, prev + 1, e))
  }

  lemma ListDone(c: Schedule, s: int, e: int, prev: int, out: seq<int>, n: Option<int>)
    requires prev <= e && IsNext(c, prev + 1, n) && ListedTo(c, s, e, prev, out)
    requires n.None? || n.value > e
    requires |out| <= BETWEEN_CAP
    ensures Lists(c, s, e, out, false)
  {
    NothingInReach(c, prev, e, n);
  }

  lemma NothingInReach(c: Schedule, prev: int, e: int, n: Option<int>)
    requires IsNext(c, prev + 1, n) && (n.None? || n.value > e)
    ensures Reach(prev, FiresIn(c, prev + 1, e)) == 0
  {
    var rest := FiresIn(c, prev + 1, e);
    FiresInExact(c, prev + 1, e);
    if rest != [] { assert rest[0] in rest; }
  }

  lemma ListMore(c: Schedule, s: int, e: int, prev: int, out: seq<int>, f: int)
    requires f <= e && IsNext(c, prev + 1, Some(f)) && ListedTo(c, s, e, prev, out)
    ensures prev < f && ListedTo(c, s, e, f, out + [f])
    ensures |out| == BETWEEN_CAP ==> Lists(c, s, e, out, true)
  {
    FirstOfFires(c, prev + 1, f, e);
    ReachOne(prev, f, FiresIn(c, f + 1, e));
    Shift(out, f, FiresIn(c, f + 1, e));
    if |out| == BETWEEN_CAP { ListCapped(c, s, e, out); }
  }

  lemma Shift(out: seq<int>, f: int, later: seq<int>)
    ensures out + ([f] + later) == out + [f] + later
  {
  }

  lemma ListCapped(c: Schedule, s: int, e: int, out: seq<int>)
    requires out <= FiresIn(c, s, e) && |out| == BETWEEN_CAP < Reach(s - 1, FiresIn(c, s, e))
    ensures Lists(c, s, e, out, true)
  {
  }

  lemma ReachOne(prev: int, f: int, later: seq<int>)
    requires f < Horizon(prev + 1)
    ensures Reach(prev, [f] + later) == 1 + Reach(f, later)
  {
    assert ([f] + later)[1..] == later;
  }

  /** Fire i lies within five years of the second after the fire before it, or after prev for the first. */
  predicate InReach(prev: int, fires: seq<int>, i: nat)
    requires i < |fires|
  {
    fires[i] < Horizon((if i == 0 then prev else fires[i - 1]) + 1)
  }

  predicate NoLongGap(prev: int, fires: seq<int>) {
    forall i :: 0 <= i < |fires| ==> InReach(prev, fires, i)
  }

  lemma {:induction false} ReachExactly(prev: int, fires: seq<int>)
    ensures Reach(prev, fires) == |fires| <==> NoLongGap(prev, fires)
    decreases |fires|
  {
    hide Horizon;
    if fires != [] {
      var rest := fires[1..];
      ReachExactly(fires[0], rest);
      assert fires[0] < Horizon(prev + 1) <==> InReach(prev, fires, 0);
      forall i | 0 <= i < |rest| ensures InReach(fires[0], rest, i) <==> InReach(prev, fires, i + 1) { }
      if NoLongGap(prev, fires) {
        forall i | 0 <= i < |rest| ensures InReach(fires[0], rest, i) { assert InReach(prev, fires, i + 1); }
      }
      if Reach(prev, fires) == |fires| {
        forall i | 0 <= i < |fires| ensures InReach(prev, fires, i) {
          if i > 0 { assert InReach(fires[0], rest, i - 1); }
        }
      }
    }
  }

  /** Any window is listed whole exactly when it has at most 10,000 fires and none of them lies five years or more
      after the one before it, or after the start. */
  lemma ListsExactly(c: Schedule, s: int, e: int, out: seq<int>, capped: bool)
    requires Lists(c, s, e, out, capped)
    ensures var all := FiresIn(c, s, e);
      out == all <==> |all| <= 10_000 && NoLongGap(s - 1, all)
  {
    hide NoLongGap, FiresIn, Reach;
    ReachExactly(s - 1, FiresIn(c, s, e));
  }

  /** A window under five years with at most 10,000 fires is listed whole. */
  lemma ListsWhole(c: Schedule, s: int, e: int, out: seq<int>, capped: bool)
    requires e < s + 1825 * SECONDS_PER_DAY && Lists(c, s, e, out, capped)
    ensures capped <==> |FiresIn(c, s, e)| > 10_000
    ensures !capped ==> out == FiresIn(c, s, e)
  {
    hide AddDate, Fires, FiresIn, Reach;
    var all := FiresIn(c, s, e);
    FiresInExact(c, s, e);
    forall i | 0 <= i < |all| ensures s - 1 < all[i] < e + 1 { assert all[i] in all; }
    ReachesAll(s - 1, all, e + 1);
  }

  // ---- the newest slots ----

  /** The last n items, or all of them when there are fewer. */
  function Last(s: seq<int>, n: nat): seq<int> {
    if |s| <= n then s else s[|s| - n..]
  }

  /** The second a number of days before a moment. */
  function WindowStart(now: int, days: int): (s: int)
    ensures s == now / NANOS - days * SECONDS_PER_DAY
  {
    (now - days * DAY_NANOS) / NANOS
  }

  function Window(c: Schedule, now: int, days: int): seq<int> {
    FiresIn(c, WindowStart(now, days), now / NANOS)
  }

  const LONGEST := 1024

  /** The lookbacks tried, in days. */
  predicate Rung(days: int) {
    days == 1 || days == 4 || days == 16 || days == 64 || days == 256 || days == LONGEST
  }

  /** The widening search stops at this lookback: the first to hold n fires, or the longest. */
  ghost predicate Deciding(c: Schedule, now: int, n: nat, days: int) {
    && Rung(days)
    && ShorterFail(c, now, n, days)
    && (|Window(c, now, days)| >= n || days == LONGEST)
  }

  /** A window that starts earlier holds at least as many fires, and the same newest ones. */
  lemma WindowsNest(c: Schedule, early: int, late: int, end: int, n: nat)
    requires early <= late <= end
    ensures |FiresIn(c, late, end)| <= |FiresIn(c, early, end)|
    ensures |FiresIn(c, late, end)| >= n ==> Last(FiresIn(c, late, end), n) == Last(FiresIn(c, early, end), n)
  {
    FiresInSplit(c, early, late - 1, end);
  }

  /** Which lookback first found n fires makes no difference to what is found. */
  lemma DecidingIsLongest(c: Schedule, now: int, n: nat, days: int)
    requires Deciding(c, now, n, days)
    ensures Last(Window(c, now, days), n) == Last(Window(c, now, 1024), n)
  {
    WindowsNest(c, WindowStart(now, LONGEST), WindowStart(now, days), now / NANOS, n);
  }

  /** What looking for the n newest fires should give: those of the 1024-day window, but nothing at all when the
      lookback that decides holds more than 10,000 fires. */
  ghost predicate NewestFires(c: Schedule, now: int, n: nat, out: seq<int>) {
    exists days :: Deciding(c, now, n, days) && OutcomeAt(c, now, n, days, out)
  }

  ghost predicate OutcomeAt(c: Schedule, now: int, n: nat, days: int, out: seq<int>) {
    out == if |Window(c, now, days)| > 10_000 then [] else Last(Window(c, now, 1024), n)
  }

  ghost predicate ShorterFail(c: Schedule, now: int, n: nat, days: int) {
    forall r :: Rung(r) && r < days ==> |Window(c, now, r)| < n
  }

  /** The n newest fires up to now, looking back ever further. */
  method NewestSlots(c: Schedule, now: int, n: int) returns (out: seq<int>)
    requires c.Valid()
    ensures n <= 0 ==> out == []
    ensures n > 0 ==> NewestFires(c, now, n, out)
  {
    hide AddDate, MonthIndex, Fires, Reach, FiresIn;
    if n <= 0 {
      return [];
    }
    var lookback := DAY_NANOS;
    ghost var days := 1;
    while true
      invariant Rung(days) && lookback == days * DAY_NANOS && ShorterFail(c, now, n, days)
      decreases LONGEST - days
    {
      var fires, capped := Between(c, now - lookback, now);
      Look(c, now, n, days, lookback, fires, capped);
      if capped {
        return [];
      }
      if |fires| >= n {
        return fires[|fires| - n..];
      }
      if lookback > 400 * DAY_NANOS {
        return fires;
      }
      lookback := lookback * 4;
      days := days * 4;
    }
  }

  lemma Look(c: Schedule, now: int, n: nat, days: int, lookback: int, fires: seq<int>, capped: bool)
    requires Rung(days) && lookback == days * DAY_NANOS && ShorterFail(c, now, n, days)
    requires Lists(c, (now - lookback) / NANOS, now / NANOS, fires, capped)
    ensures capped ==> NewestFires(c, now, n, [])
    ensures !capped && |fires| >= n ==> NewestFires(c, now, n, fires[|fires| - n..])
    ensures !capped && |fires| < n && lookback > 400 * DAY_NANOS ==> NewestFires(c, now, n, fires)
    ensures !capped && |fires| < n && lookback <= 400 * DAY_NANOS ==>
              Rung(4 * days) && lookback * 4 == 4 * days * DAY_NANOS && ShorterFail(c, now, n, 4 * days)
  {
    hide FiresIn, Reach, Lists;
    LookbackIsWindow(c, now, days, lookback, fires, capped);
    if capped {
      CappedDecides(c, now, n, days);
    } else if |fires| >= n || days == LONGEST {
      assert Deciding(c, now, n, days);
      DecidingIsLongest(c, now, n, days);
      assert OutcomeAt(c, now, n, days, Last(fires, n));
    }
  }

  lemma LookbackIsWindow(c: Schedule, now: int, days: int, lookback: int, out: seq<int>, capped: bool)
    requires Rung(days) && lookback == days * DAY_NANOS && Lists(c, (now - lookback) / NANOS, now / NANOS, out, capped)
    ensures capped <==> |Window(c, now, days)| > BETWEEN_CAP
    ensures !capped ==> out == Window(c, now, days)
    ensures lookback > 400 * DAY_NANOS <==> days == LONGEST
  {
    assert (now - lookback) / NANOS == WindowStart(now, days);
    ListsWhole(c, WindowStart(now, days), now / NANOS, out, capped);
  }

  /** A lookback over the cap decides, or a longer one does that is over the cap too. */
  lemma {:induction false} CappedDecides(c: Schedule, now: int, n: nat, days: int)
    requires Rung(days) && |Window(c, now, days)| > BETWEEN_CAP
    requires ShorterFail(c, now, n, days)
    ensures NewestFires(c, now, n, [])
    decreases LONGEST - days
  {
    if |Window(c, now, days)| < n && days < LONGEST {
      WindowsNest(c, WindowStart(now, 4 * days), WindowStart(now, days), now / NANOS, n);
      CappedDecides(c, now, n, 4 * days);
    } else {
      assert Deciding(c, now, n, days) && OutcomeAt(c, now, n, days, []);
    }
  }

  /** The fires from an instant (seconds) up to now; none when the listing is capped. */
  method SlotsFrom(c: Schedule, from: int, now: int) returns (out: seq<int>)
    requires c.Valid()
    ensures now < from * NANOS ==> out == []
    ensures from * NANOS <= now ==>
              var all := FiresIn(c, from, now / NANOS);
              out == if Reach(from - 1, all) > 10_000 then [] else all[..Reach(from - 1, all)]
  {
    hide AddDate, Fires, FiresIn, Reach;
    var fires, capped := Between(c, from * NANOS, now);
    WholeSeconds(from, now);
    out := if capped then [] else fires;
  }

  // ---- windows of five years and more ----

  /** Midnight of every February 29th. */
  function LeapDaySchedule(): Schedule {
    Schedule(With(0, 0), With(0, 0), With(0, 0), With(0, 29), With(0, 2), 127, true, false)
  }

  lemma SingleBit(v: nat, i: nat)
    ensures Has(With(0, v), i) <==> i == v
  {
    WithBit(0, v, i);
    ZeroIsEmpty(i);
  }

  lemma LeapDayScheduleIsValid()
    ensures LeapDaySchedule().Valid()
  {
    forall v: nat, i: nat ensures Has(With(0, v), i) <==> i == v { SingleBit(v, i); }
    assert Has(With(0, 0), 0) && Has(With(0, 29), 29) && Has(With(0, 2), 2);
    assert Has(127, 0);
    forall v: nat | Has(127, v) ensures v <= 6 {
      if v >= 7 { ShrBit(127, 7, v - 7); ZeroIsEmpty(v - 7); }
    }
  }

  lemma LeapDays(t: int)
    requires Fires(LeapDaySchedule(), t)
    ensures var k := MonthIndex(DayOf(t)); k % 12 == 1 && Leap(k / 12) && DayOfMonth(DayOf(t)) == 29 && SecondOfDay(t) == 0
  {
    SingleBit(2, MonthOf(DayOf(t)));
    SingleBit(29, DayOfMonth(DayOf(t)));
    SingleBit(0, Hour(t));
    SingleBit(0, Minute(t));
    SingleBit(0, Second(t));
    FieldsAt(t);
  }

  /** Where a century year skips its leap day, eight years lie between two leap days (2096 and 2104, say): listing
      the window from the March after the first to the second stops at the horizon with nothing, although the
      window holds a fire. */
  lemma LongWindowLosesFires(y: int, s: int, e: int, out: seq<int>, capped: bool)
    requires Leap(y) && !Leap(y + 4) && Leap(y + 8)
    requires s == At(DateDay(y, 3, 1), 0, 0, 0) && e == At(DateDay(y + 8, 2, 29), 0, 0, 0)
    requires Lists(LeapDaySchedule(), s, e, out, capped)
    ensures LeapDaySchedule().Valid()
    ensures out == [] && !capped && FiresIn(LeapDaySchedule(), s, e) == [e]
  {
    var c := LeapDaySchedule();
    LeapDayScheduleIsValid();
    LeapDayGap(y, s, e);
    FirstOfFires(c, s, e, e);
    assert FiresIn(c, e + 1, e) == [];
    EarlyHorizon(y, s);
  }

  lemma LeapDayGap(y: int, s: int, e: int)
    requires Leap(y) && !Leap(y + 4) && Leap(y + 8)
    requires s == At(DateDay(y, 3, 1), 0, 0, 0) && e == At(DateDay(y + 8, 2, 29), 0, 0, 0)
    ensures s < e && Fires(LeapDaySchedule(), e) && NoFires(LeapDaySchedule(), s, e)
  {
    hide MonthStart, MonthLength, Fires, LeapDaySchedule;
    FirstOfMarch(y, s);
    LeapDayOf(y + 8, e);
    MonthStartMonotone(12 * y + 3, 12 * (y + 8) + 1);
    NextMonthStart(12 * y + 2);
    forall u | s <= u < e ensures !Fires(LeapDaySchedule(), u) {
      if Fires(LeapDaySchedule(), u) {
        LeapDays(u);
        ClockOrder(s, u);
        ClockOrder(u, e);
        MonthsOrdered(DayOf(s), DayOf(u));
        MonthsOrdered(DayOf(u), DayOf(e));
        OnlyLeapYear(y, MonthIndex(DayOf(u)));
        FieldsAt(u);
        FieldsAt(e);
      }
    }
  }

  lemma OnlyLeapYear(y: int, k: int)
    requires Leap(y) && !Leap(y + 4) && 12 * y + 2 <= k <= 12 * (y + 8) + 1 && k % 12 == 1 && Leap(k / 12)
    ensures k == 12 * (y + 8) + 1
  {
    var year := k / 12;
    assert k == 12 * year + 1;
    assert y < year <= y + 8;
    MultipleOfFour(y, year);
  }

  lemma MultipleOfFour(y: int, year: int)
    requires y % 4 == 0 && year % 4 == 0 && y < year <= y + 8
    ensures year == y + 4 || year == y + 8
  {
  }

  lemma FirstOfMarch(y: int, s: int)
    requires s == At(DateDay(y, 3, 1), 0, 0, 0)
    ensures MonthIndex(DayOf(s)) == 12 * y + 2 && DayOfMonth(DayOf(s)) == 1 && SecondOfDay(s) == 0
    ensures DayOf(s) == MonthStart(12 * y + 2)
  {
    var k := 12 * y + 2;
    AtFields(DateDay(y, 3, 1), 0, 0, 0);
    NextMonthStart(k);
    MonthIndexUnique(MonthStart(k), k);
    FieldsAt(s);
  }

  lemma LeapDayOf(y: int, e: int)
    requires Leap(y) && e == At(DateDay(y, 2, 29), 0, 0, 0)
    ensures MonthIndex(DayOf(e)) == 12 * y + 1 && DayOfMonth(DayOf(e)) == 29 && SecondOfDay(e) == 0
    ensures DayOf(e) == MonthStart(12 * y + 1) + 28
    ensures Fires(LeapDaySchedule(), e)
  {
    var k := 12 * y + 1;
    AtFields(DateDay(y, 2, 29), 0, 0, 0);
    NextMonthStart(k);
    assert k / 12 == y && k % 12 == 1;
    MonthIndexUnique(MonthStart(k) + 28, k);
    FieldsAt(e);
    LeapDayFires(e);
  }

  lemma LeapDayFires(t: int)
    requires MonthOf(DayOf(t)) == 2 && DayOfMonth(DayOf(t)) == 29 && Hour(t) == 0 && Minute(t) == 0 && Second(t) == 0
    ensures Fires(LeapDaySchedule(), t)
  {
    SingleBit(2, 2);
    SingleBit(29, 29);
    SingleBit(0, 0);
  }

  lemma EarlyHorizon(y: int, s: int)
    requires s == At(DateDay(y, 3, 1), 0, 0, 0)
    ensures Horizon(s) < At(DateDay(y + 8, 2, 29), 0, 0, 0)
  {
    FirstOfMarch(y, s);
    MonthStartMonotone(12 * (y + 5) + 2, 12 * (y + 8) + 1);
  }
}
