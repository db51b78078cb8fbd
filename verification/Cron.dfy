/** The 6-field UTC schedule: bitmask fields, the vixie day rule, and the skip-ahead search for fire times. */
module Cron {
  import opened Bitmask
  import opened Calendar
  import opened Wrappers

  const NANOS := 1_000_000_000
  const BETWEEN_CAP := 10_000
  const ITERATION_GUARD := 2_000_000

  datatype Schedule = Schedule(sec: nat, min: nat, hour: nat, dom: nat, mon: nat, dow: nat,
                               domSet: bool, dowSet: bool)
  {
    /** What parsing a schedule guarantees: every field admits some value in its bounds, and none above them. (A mask
        may hold bit 0 of a field that starts at 1, which no date has.) */
    ghost predicate Valid() {
      && Within(sec, 0, 59) && Within(min, 0, 59) && Within(hour, 0, 23)
      && Within(dom, 1, 31) && Within(mon, 1, 12) && Within(dow, 0, 6)
    }
  }

  ghost predicate Within(m: nat, lo: nat, hi: nat) {
    (exists v: nat :: lo <= v <= hi && Has(m, v)) && forall v: nat :: Has(m, v) ==> v <= hi
  }

  /** Both day fields restricted: either may match; one restricted: it must match; none: any day. */
  predicate DayOK(c: Schedule, day: int) {
    var domOK := Has(c.dom, DayOfMonth(day));
    var dowOK := Has(c.dow, Weekday(day));
    if c.domSet && c.dowSet then domOK || dowOK
    else if c.domSet then domOK
    else if c.dowSet then dowOK
    else true
  }

  /** The instants a schedule names. */
  predicate Fires(c: Schedule, t: int) {
    && Has(c.mon, MonthOf(DayOf(t))) && DayOK(c, DayOf(t))
    && Has(c.hour, Hour(t)) && Has(c.min, Minute(t)) && Has(c.sec, Second(t))
  }

  ghost predicate NoFires(c: Schedule, a: int, b: int) {
    forall u :: a <= u < b ==> !Fires(c, u)
  }

  function Horizon(t: int): int {
    AddDate(t, 5, 0, 0)
  }

  /** r is the first fire from instant `from` on, looked for up to five years ahead. */
  ghost predicate IsNext(c: Schedule, from: int, r: Option<int>) {
    match r
    case Some(f) => from <= f < Horizon(from) && Fires(c, f) && NoFires(c, from, f)
    case None => NoFires(c, from, Horizon(from))
  }

  // ---- what each skip may jump over ----

  /** The clock reading the search resets to on entering a day: the least value of each field. */
  ghost predicate Resets(c: Schedule, h: int, m: int, s: int) {
    && c.Valid()
    && 0 <= h < 24 && Has(c.hour, h) && (forall v: nat :: Has(c.hour, v) ==> h <= v)
    && 0 <= m < 60 && Has(c.min, m) && (forall v: nat :: Has(c.min, v) ==> m <= v)
    && 0 <= s < 60 && Has(c.sec, s) && (forall v: nat :: Has(c.sec, v) ==> s <= v)
  }

  lemma NoFireEarlyInDay(c: Schedule, u: int, h: int, m: int, s: int)
    requires Resets(c, h, m, s)
    requires u < At(DayOf(u), h, m, s)
    ensures !Fires(c, u)
  {
    FieldsAt(u);
  }

  /** The schedule admits month k. */
  ghost predicate OpenMonth(c: Schedule, k: int) {
    Has(c.mon, k % 12 + 1)
  }

  lemma SkipMonths(c: Schedule, t: int, k: int, h: int, m: int, s: int)
    requires Resets(c, h, m, s)
    requires MonthIndex(DayOf(t)) < k
    requires NoOpenMonth(c, MonthIndex(DayOf(t)), k)
    ensures NoFires(c, t, At(MonthStart(k), h, m, s))
  {
    forall u | t <= u < At(MonthStart(k), h, m, s) ensures !Fires(c, u) {
      if DayOf(u) == MonthStart(k) {
        NoFireEarlyInDay(c, u, h, m, s);
      } else {
        FieldsAt(u);
        MonthsOrdered(DayOf(t), DayOf(u));
        LaterMonth(DayOf(u), k);
        assert !OpenMonth(c, MonthIndex(DayOf(u)));
      }
    }
  }

  lemma MonthsOrdered(d: int, e: int)
    requires d <= e
    ensures MonthIndex(d) <= MonthIndex(e)
  {
    if MonthIndex(e) < MonthIndex(d) {
      LaterMonth(e, MonthIndex(d));
    }
  }

  lemma LaterMonth(day: int, j: int)
    ensures MonthIndex(day) < j <==> day < MonthStart(j)
  {
    var k := MonthIndex(day);
    if k < j {
      NextMonthStart(k);
      MonthStartMonotone(k + 1, j);
    } else {
      MonthStartMonotone(j, k);
    }
  }

  lemma SkipDay(c: Schedule, t: int, h: int, m: int, s: int)
    requires Resets(c, h, m, s)
    requires forall u :: DayOf(u) == DayOf(t) && t <= u ==> !Fires(c, u)
    ensures NoFires(c, t, At(DayOf(t) + 1, h, m, s))
  {
    forall u | t <= u < At(DayOf(t) + 1, h, m, s) ensures !Fires(c, u) {
      FieldsAt(u);
      if DayOf(u) == DayOf(t) + 1 {
        NoFireEarlyInDay(c, u, h, m, s);
      }
    }
  }

  lemma SkipHours(c: Schedule, t: int, h: int, m: int, s: int)
    requires c.Valid() && 0 <= m < 60 && 0 <= s < 60
    requires forall v: nat :: Has(c.min, v) ==> m <= v
    requires forall v: nat :: Has(c.sec, v) ==> s <= v
    requires Hour(t) < h < 24 && forall v: nat :: Hour(t) <= v < h ==> !Has(c.hour, v)
    ensures NoFires(c, t, At(DayOf(t), h, m, s))
  {
    AtFields(DayOf(t), h, m, s);
    forall u | t <= u < At(DayOf(t), h, m, s) ensures !Fires(c, u) {
      ClockOrder(t, u);
      ClockOrder(u, At(DayOf(t), h, m, s));
    }
  }

  lemma SkipMinutes(c: Schedule, t: int, m: int, s: int)
    requires c.Valid() && 0 <= s < 60
    requires forall v: nat :: Has(c.sec, v) ==> s <= v
    requires Minute(t) < m < 60 && forall v: nat :: Minute(t) <= v < m ==> !Has(c.min, v)
    ensures t < At(DayOf(t), Hour(t), m, s) && NoFires(c, t, At(DayOf(t), Hour(t), m, s))
  {
    FieldsAt(t);
    AtFields(DayOf(t), Hour(t), m, s);
    forall u | t <= u < At(DayOf(t), Hour(t), m, s) ensures !Fires(c, u) {
      ClockOrder(t, u);
      ClockOrder(u, At(DayOf(t), Hour(t), m, s));
    }
  }

  lemma SkipToNextHour(c: Schedule, t: int, m: int, s: int)
    requires c.Valid() && 0 <= m < 60 && 0 <= s < 60
    requires forall v: nat :: Has(c.min, v) ==> m <= v
    requires forall v: nat :: Has(c.sec, v) ==> s <= v
    requires forall v: nat :: Minute(t) <= v ==> !Has(c.min, v)
    ensures t < At(DayOf(t), Hour(t), m, s) + 3600 && NoFires(c, t, At(DayOf(t), Hour(t), m, s) + 3600)
  {
    FieldsAt(t);
    forall u | t <= u < At(DayOf(t), Hour(t), m, s) + 3600 ensures !Fires(c, u) {
      FieldsAt(t);
      FieldsAt(u);
      ClockOrder(t, u);
    }
  }

  lemma SkipSeconds(c: Schedule, t: int, s: int)
    requires Second(t) < s < 60 && forall v: nat :: Second(t) <= v < s ==> !Has(c.sec, v)
    ensures t < At(DayOf(t), Hour(t), Minute(t), s) && NoFires(c, t, At(DayOf(t), Hour(t), Minute(t), s))
  {
    FieldsAt(t);
    AtFields(DayOf(t), Hour(t), Minute(t), s);
    forall u | t <= u < At(DayOf(t), Hour(t), Minute(t), s) ensures !Fires(c, u) {
      ClockOrder(t, u);
      ClockOrder(u, At(DayOf(t), Hour(t), Minute(t), s));
      if t < u {}
    }
  }

  lemma SkipToNextMinute(c: Schedule, t: int, s: int)
    requires c.Valid() && 0 <= s < 60
    requires forall v: nat :: Has(c.sec, v) ==> s <= v
    requires forall v: nat :: Second(t) <= v ==> !Has(c.sec, v)
    ensures t < At(DayOf(t), Hour(t), Minute(t), s) + 60 && NoFires(c, t, At(DayOf(t), Hour(t), Minute(t), s) + 60)
  {
    FieldsAt(t);
    WholeMinutes(t);
    var n := t / 60;
    assert At(DayOf(t), Hour(t), Minute(t), s) == n * 60 + s;
    forall u | t <= u < n * 60 + s + 60 ensures !Fires(c, u) {
      assert Second(u) == u % 60 by { WholeMinutes(u); }
      assert u / 60 == n ==> u % 60 >= t % 60;
    }
  }

  lemma NoFiresJoin(c: Schedule, a: int, b: int, e: int)
    requires NoFires(c, a, b) && NoFires(c, b, e)
    ensures NoFires(c, a, e)
  {
  }

  // ---- progress ----

  /** How many clock fields may still need a skip before the clock settles on the reset reading. */
  function ClockRank(c: Schedule, t: int): (r: int)
    ensures 0 <= r <= 3
  {
    if !Has(c.sec, Second(t)) then 3
    else if !Has(c.min, Minute(t)) then 2
    else if !Has(c.hour, Hour(t)) then 1
    else 0
  }

  /** Every skip enters a later day or settles a clock field for good. */
  function Progress(c: Schedule, t: int): int {
    DayOf(t) - ClockRank(c, t)
  }

  /** Arriving on a later day at the reset reading is progress. */
  lemma ResetProgress(c: Schedule, day: int, h: int, m: int, s: int)
    requires Resets(c, h, m, s)
    ensures Progress(c, At(day, h, m, s)) == day
  {
    AtFields(day, h, m, s);
  }

  lemma HourProgress(c: Schedule, t: int, m: int, s: int)
    requires 0 <= m < 60 && 0 <= s < 60 && Has(c.min, m) && Has(c.sec, s)
    requires Has(c.hour, Hour(t)) && !Has(c.min, Minute(t))
    ensures Progress(c, At(DayOf(t), Hour(t), m, s) + 3600) > Progress(c, t)
  {
    if Hour(t) == 23 {
      AtFields(DayOf(t) + 1, 0, m, s);
    } else {
      AtFields(DayOf(t), Hour(t) + 1, m, s);
    }
  }

  lemma MinuteProgress(c: Schedule, t: int, s: int)
    requires 0 <= s < 60 && Has(c.sec, s)
    requires !Has(c.sec, Second(t)) && Has(c.hour, Hour(t)) && Has(c.min, Minute(t))
    ensures Progress(c, At(DayOf(t), Hour(t), Minute(t), s) + 60) > Progress(c, t)
  {
    var u := At(DayOf(t), Hour(t), Minute(t), s) + 60;
    if Minute(t) < 59 {
      AtFields(DayOf(t), Hour(t), Minute(t) + 1, s);
    } else if Hour(t) < 23 {
      AtFields(DayOf(t), Hour(t) + 1, 0, s);
    } else {
      AtFields(DayOf(t) + 1, 0, 0, s);
    }
  }

  // ---- the search ----

  /** Moving from t to u jumps over no fire and makes progress. */
  ghost predicate Skips(c: Schedule, t: int, u: int) {
    t < u && NoFires(c, t, u) && Progress(c, t) < Progress(c, u)
  }

  lemma DayStep(c: Schedule, t: int, h: int, m: int, s: int)
    requires Resets(c, h, m, s)
    requires forall u :: DayOf(u) == DayOf(t) && t <= u ==> !Fires(c, u)
    ensures Skips(c, t, AddDate(At(DayOf(t), h, m, s), 0, 0, 1))
  {
    SkipDay(c, t, h, m, s);
    NextDay(DayOf(t), h, m, s);
    ResetProgress(c, DayOf(t) + 1, h, m, s);
  }

  lemma ExcludedHourDone(c: Schedule, t: int)
    requires IsNextSet(c.hour, Hour(t), -1) && !Has(c.hour, Hour(t))
    ensures forall u :: DayOf(u) == DayOf(t) && t <= u ==> !Fires(c, u)
  {
    forall u | DayOf(u) == DayOf(t) && t <= u ensures !Fires(c, u) {
      ClockOrder(t, u);
    }
  }

  lemma HourStep(c: Schedule, t: int, h: int, m: int, s: int)
    requires Resets(c, h, m, s) && !Has(c.hour, Hour(t))
    ensures var next := NextSet(c.hour, Hour(t));
            IsNextSet(c.hour, Hour(t), next) &&
            Skips(c, t, if next >= 0 then At(DayOf(t), next, m, s) else AddDate(At(DayOf(t), h, m, s), 0, 0, 1))
  {
    NextSetIsNext(c.hour, Hour(t));
    var next := NextSet(c.hour, Hour(t));
    if next >= 0 {
      SkipHours(c, t, next, m, s);
      AtFields(DayOf(t), next, m, s);
    } else {
      ExcludedHourDone(c, t);
      DayStep(c, t, h, m, s);
    }
  }

  lemma MinuteStep(c: Schedule, t: int, h: int, m: int, s: int)
    requires Resets(c, h, m, s) && Has(c.hour, Hour(t)) && !Has(c.min, Minute(t))
    ensures var next := NextSet(c.min, Minute(t));
            IsNextSet(c.min, Minute(t), next) &&
            Skips(c, t, if next >= 0 then At(DayOf(t), Hour(t), next, s) else At(DayOf(t), Hour(t), m, s) + 3600)
  {
    NextSetIsNext(c.min, Minute(t));
    var next := NextSet(c.min, Minute(t));
    if next >= 0 {
      SkipMinutes(c, t, next, s);
      AtFields(DayOf(t), Hour(t), next, s);
    } else {
      SkipToNextHour(c, t, m, s);
      HourProgress(c, t, m, s);
    }
  }

  lemma SecondStep(c: Schedule, t: int, h: int, m: int, s: int)
    requires Resets(c, h, m, s) && Has(c.hour, Hour(t)) && Has(c.min, Minute(t)) && !Has(c.sec, Second(t))
    ensures var next := NextSet(c.sec, Second(t));
            IsNextSet(c.sec, Second(t), next) &&
            Skips(c, t, if next >= 0 then At(DayOf(t), Hour(t), Minute(t), next)
                        else At(DayOf(t), Hour(t), Minute(t), s) + 60)
  {
    NextSetIsNext(c.sec, Second(t));
    var next := NextSet(c.sec, Second(t));
    if next >= 0 {
      SkipSeconds(c, t, next);
      AtFields(DayOf(t), Hour(t), Minute(t), next);
    } else {
      SkipToNextMinute(c, t, s);
      MinuteProgress(c, t, s);
    }
  }

  /** Calendar addition of one month to a clock reading. */
  function MonthAfter(day: int, h: int, m: int, s: int): int {
    AddDate(At(day, h, m, s), 0, 1, 0)
  }

  ghost predicate NoOpenMonth(c: Schedule, a: int, b: int) {
    forall i :: a <= i < b ==> !OpenMonth(c, i)
  }

  lemma MonthStep(c: Schedule, t: int, j: int, u: int, h: int, m: int, s: int)
    requires Resets(c, h, m, s) && StartsMonth(u, j, h, m, s) && MonthIndex(DayOf(t)) < j
    requires NoOpenMonth(c, MonthIndex(DayOf(t)), j)
    ensures Skips(c, t, u)
  {
    SkipMonths(c, t, j, h, m, s);
    LaterMonth(DayOf(t), j);
    ResetProgress(c, MonthStart(j), h, m, s);
    if u <= t { ClockOrder(u, t); }
  }

  /** u is the given clock reading on the first day of month j. */
  ghost predicate StartsMonth(u: int, j: int, h: int, m: int, s: int) {
    u == At(MonthStart(j), h, m, s) && DayOf(u) == MonthStart(j) && MonthOf(DayOf(u)) == j % 12 + 1
  }

  lemma NextStartsMonth(c: Schedule, u: int, j: int, open: nat, h: int, m: int, s: int)
    requires c.Valid() && 0 <= h < 24 && 0 <= m < 60 && 0 <= s < 60 && StartsMonth(u, j, h, m, s)
    requires 1 <= open <= 12 && Has(c.mon, open) && !Has(c.mon, MonthOf(DayOf(u)))
    ensures StartsMonth(MonthAfter(DayOf(u), h, m, s), j + 1, h, m, s)
    ensures !OpenMonth(c, j) && 0 <= MonthsUntil(open, j + 1) < MonthsUntil(open, j)
  {
    NextMonth(j, h, m, s);
    NextMonth(j + 1, h, m, s);
    AtFields(MonthStart(j + 1), h, m, s);
    MonthsLeft(open, j);
  }

  /** Months from month index j to the next month numbered `open`. */
  function MonthsUntil(open: int, j: int): int {
    (open - 1 - j) % 12
  }

  lemma MonthsLeft(open: int, j: int)
    requires 1 <= open <= 12 && open != j % 12 + 1
    ensures 0 <= MonthsUntil(open, j + 1) < MonthsUntil(open, j)
  {
  }

  lemma FirstOfNextMonth(c: Schedule, t: int, h: int, m: int, s: int)
    requires 0 <= h < 24 && 0 <= m < 60 && 0 <= s < 60
    ensures var day, j := DayOf(t), MonthIndex(DayOf(t)) + 1;
            StartsMonth(MonthAfter(DateDay(YearOf(day), MonthOf(day), 1), h, m, s), j, h, m, s)
    ensures !Has(c.mon, MonthOf(DayOf(t))) ==> !OpenMonth(c, MonthIndex(DayOf(t)))
  {
    hide MonthStart, MonthIndex, Has, AddDate;
    FirstOfMonth(DayOf(t));
    StartsNext(MonthIndex(DayOf(t)), h, m, s);
  }

  lemma FirstOfMonth(day: int)
    ensures DateDay(YearOf(day), MonthOf(day), 1) == MonthStart(MonthIndex(day)) && MonthOf(day) == MonthIndex(day) % 12 + 1
  {
    hide MonthStart, MonthIndex;
    assert 12 * YearOf(day) + MonthOf(day) - 1 == MonthIndex(day);
  }

  lemma StartsNext(k: int, h: int, m: int, s: int)
    requires 0 <= h < 24 && 0 <= m < 60 && 0 <= s < 60
    ensures StartsMonth(MonthAfter(MonthStart(k), h, m, s), k + 1, h, m, s)
  {
    hide MonthStart, AddDate;
    NextMonth(k, h, m, s);
    NextMonth(k + 1, h, m, s);
    AtFields(MonthStart(k + 1), h, m, s);
  }

  /** From an instant in an excluded month to the reset reading on the first day of the next admitted month. */
  method ToNextMonth(c: Schedule, t: int, h: int, m: int, s: int) returns (u: int)
    requires Resets(c, h, m, s) && !Has(c.mon, MonthOf(DayOf(t)))
    ensures Skips(c, t, u)
  {
    hide MonthStart, MonthIndex, AddDate, Has, Skips, OpenMonth;
    ghost var open: nat :| 1 <= open <= 12 && Has(c.mon, open);
    ghost var j := MonthIndex(DayOf(t)) + 1;
    FirstOfNextMonth(c, t, h, m, s);
    u := MonthAfter(DateDay(YearOf(DayOf(t)), MonthOf(DayOf(t)), 1), h, m, s);
    while !Has(c.mon, MonthOf(DayOf(u)))
      invariant MonthIndex(DayOf(t)) < j && StartsMonth(u, j, h, m, s) && NoOpenMonth(c, MonthIndex(DayOf(t)), j)
      decreases MonthsUntil(open, j)
    {
      NextStartsMonth(c, u, j, open, h, m, s);
      u := MonthAfter(DayOf(u), h, m, s);
      j := j + 1;
    }
    MonthStep(c, t, j, u, h, m, s);
  }

  /** The search is still inside its horizon, so it has made few steps. */
  lemma WithinGuard(c: Schedule, from: int, t: int, i: int)
    requires from <= t < Horizon(from) && i <= Progress(c, t) - Progress(c, from)
    ensures i < ITERATION_GUARD && Progress(c, t) <= DayOf(Horizon(from))
  {
    FiveYears(from);
  }

  /** The first fire strictly after a moment given in nanoseconds. The iteration guard never decides the answer. */
  method Next(c: Schedule, after: int) returns (r: Option<int>)
    requires c.Valid()
    ensures IsNext(c, after / 1_000_000_000 + 1, r)
  {
    var t := after / NANOS + 1;
    ghost var from := t;
    var limit := Horizon(t);
    var sec0 := First(c.sec);
    var min0 := First(c.min);
    var hour0 := First(c.hour);
    assert Resets(c, hour0, min0, sec0);
    var i := 0;
    while true
      invariant from <= t && NoFires(c, from, t)
      invariant 0 <= i <= Progress(c, t) - Progress(c, from)
      decreases DayOf(limit) + 1 - Progress(c, t)
    {
      if t < limit { WithinGuard(c, from, t, i); }
      if i > ITERATION_GUARD || t >= limit {
        return None;
      }
      i := i + 1;
      ghost var was := t;
      if !Has(c.mon, MonthOf(DayOf(t))) {
        t := ToNextMonth(c, t, hour0, min0, sec0);
      } else if !DayOK(c, DayOf(t)) {
        DayStep(c, t, hour0, min0, sec0);
        t := AddDate(At(DayOf(t), hour0, min0, sec0), 0, 0, 1);
      } else if !Has(c.hour, Hour(t)) {
        HourStep(c, t, hour0, min0, sec0);
        var h := NextSet(c.hour, Hour(t));
        t := if h >= 0 then At(DayOf(t), h, min0, sec0) else AddDate(At(DayOf(t), hour0, min0, sec0), 0, 0, 1);
      } else if !Has(c.min, Minute(t)) {
        MinuteStep(c, t, hour0, min0, sec0);
        var m := NextSet(c.min, Minute(t));
        t := if m >= 0 then At(DayOf(t), Hour(t), m, sec0) else At(DayOf(t), Hour(t), min0, sec0) + 3600;
      } else if !Has(c.sec, Second(t)) {
        SecondStep(c, t, hour0, min0, sec0);
        var s := NextSet(c.sec, Second(t));
        t := if s >= 0 then At(DayOf(t), Hour(t), Minute(t), s) else At(DayOf(t), Hour(t), Minute(t), sec0) + 60;
      } else {
        return Some(t);
      }
      NoFiresJoin(c, from, was, t);
    }
  }

  // ---- what a schedule says of dates ----

  /** A schedule fires at a date and time exactly when month and clock are admitted and one of the day fields that are set
      admits the day, or none is set. */
  lemma FiresOnDate(c: Schedule, y: int, m: int, d: int, h: int, mi: int, s: int)
    requires 1 <= m <= 12 && 1 <= d <= MonthLength(12 * y + m - 1) && 0 <= h < 24 && 0 <= mi < 60 && 0 <= s < 60
    ensures var day := DateDay(y, m, d);
      Fires(c, day * 86400 + h * 3600 + mi * 60 + s) <==>
        (|| (c.domSet && Has(c.dom, d)) || (c.dowSet && Has(c.dow, (day + 4) % 7)) || (!c.domSet && !c.dowSet))
        && Has(c.mon, m) && Has(c.hour, h) && Has(c.min, mi) && Has(c.sec, s)
  {
    hide Has, MonthStart, MonthIndex, DateDay;
    DateRoundTrip(0, y, m, d);
    AtFields(DateDay(y, m, d), h, mi, s);
  }

  function Earlier(a: Option<int>, b: Option<int>): Option<int> {
    if a.None? then b else if b.None? || a.value <= b.value then a else b
  }

  /** With both day fields set, a schedule is two schedules at once, each with one of them. */
  lemma EitherDay(c: Schedule, t: int)
    requires c.domSet && c.dowSet
    ensures Fires(c, t) <==> Fires(c.(dowSet := false), t) || Fires(c.(domSet := false), t)
  {
    hide Has;
  }

  /** The next fire is then the earlier of theirs. */
  lemma NextOfEither(c: Schedule, from: int, r: Option<int>, a: Option<int>, b: Option<int>)
    requires c.domSet && c.dowSet && IsNext(c.(dowSet := false), from, a) && IsNext(c.(domSet := false), from, b)
    ensures IsNext(c, from, r) <==> r == Earlier(a, b)
  {
    hide Fires, Horizon;
    forall u ensures Fires(c, u) <==> Fires(c.(dowSet := false), u) || Fires(c.(domSet := false), u) { EitherDay(c, u); }
    if IsNext(c, from, r) { OnlyNext(c, from, r, Earlier(a, b)); }
  }

  lemma OnlyNext(c: Schedule, from: int, r: Option<int>, q: Option<int>)
    requires IsNext(c, from, r) && IsNext(c, from, q)
    ensures r == q
  {
    hide Fires, Horizon;
    if r.Some? && q.Some? {
      assert !(r.value < q.value) && !(q.value < r.value);
    }
  }

  /** With one set, the mask of the other makes no difference and the set one must admit the day; with none, the masks make
      no difference. */
  lemma OneDay(c: Schedule, t: int, dom: nat, dow: nat)
    ensures !c.domSet ==> (Fires(c.(dom := dom), t) <==> Fires(c, t))
    ensures !c.dowSet ==> (Fires(c.(dow := dow), t) <==> Fires(c, t))
    ensures c.domSet && !c.dowSet ==> (Fires(c, t) <==> Fires(c.(domSet := false), t) && Has(c.dom, DayOfMonth(DayOf(t))))
    ensures c.dowSet && !c.domSet ==> (Fires(c, t) <==> Fires(c.(dowSet := false), t) && Has(c.dow, Weekday(DayOf(t))))
  {
    hide Has;
  }

  /** So the mask of a field that is not set does not move the next fire. */
  lemma NextIgnoresUnset(c: Schedule, from: int, r: Option<int>, dom: nat, dow: nat)
    ensures !c.domSet ==> (IsNext(c.(dom := dom), from, r) <==> IsNext(c, from, r))
    ensures !c.dowSet ==> (IsNext(c.(dow := dow), from, r) <==> IsNext(c, from, r))
  {
    hide Fires, Horizon;
    forall u ensures (!c.domSet ==> (Fires(c.(dom := dom), u) <==> Fires(c, u)))
                     && (!c.dowSet ==> (Fires(c.(dow := dow), u) <==> Fires(c, u))) { OneDay(c, u, dom, dow); }
  }

  /** The horizon is the same date and time five years later (of a February 29th, the day after the last of that month). */
  lemma HorizonIsFiveYears(y: int, m: int, d: int, second: int)
    requires 1 <= m <= 12 && 1 <= d <= MonthLength(12 * y + m - 1) && 0 <= second < 86400
    ensures Horizon(DateDay(y, m, d) * 86400 + second) == DateDay(y + 5, m, d) * 86400 + second
  {
    hide MonthStart, MonthIndex, MonthOf, YearOf, DateDay;
    var day := DateDay(y, m, d);
    DateRoundTrip(0, y, m, d);
    DayAndSecond(day, second);
    MonthOfDate(day);
    DateFrom(y, m, d);
    DateFrom(y + 5, m, d);
    assert MonthIndex(day) + 60 == 12 * (y + 5) + m - 1;
  }

  lemma DayAndSecond(day: int, second: int)
    requires 0 <= second < 86400
    ensures DayOf(day * 86400 + second) == day && SecondOfDay(day * 86400 + second) == second
  {
  }

  lemma MonthOfDate(day: int)
    ensures MonthIndex(day) == 12 * YearOf(day) + MonthOf(day) - 1
  {
    hide MonthIndex;
  }

  lemma DateFrom(y: int, m: int, d: int)
    ensures DateDay(y, m, d) == MonthStart(12 * y + m - 1) + d - 1
  {
    hide MonthStart;
  }
}
