/** What schedule texts mean: the terms that are read, and when a schedule that is written out in full fires. */
module ScheduleMeaning {
  import opened Bitmask
  import Calendar
  import opened Cron
  import opened ScheduleText
  import opened StringOrder
  import opened Text
  import opened Wrappers

  // ---- the grammar of terms ----

  /** The values of the fields: second, minute, hour, day of month, month, weekday with Sunday as 0 and 7. */
  predicate InBounds(f: nat, v: int) {
    match f
    case 0 => 0 <= v <= 59
    case 1 => 0 <= v <= 59
    case 2 => 0 <= v <= 23
    case 3 => 1 <= v <= 31
    case 4 => 1 <= v <= 12
    case _ => 0 <= v <= 7
  }

  predicate Greatest(f: nat, v: int) {
    InBounds(f, v) && !InBounds(f, v + 1)
  }

  predicate Least(f: nat, v: int) {
    InBounds(f, v) && !InBounds(f, v - 1)
  }

  /** One or more digits that say v. */
  predicate Numeral(s: string, v: nat) {
    s != "" && AllDigits(s) && Number(s) == v
  }

  /** A positive number, perhaps with a plus sign, that a signed 64-bit integer holds. */
  ghost predicate StepText(s: string, n: nat) {
    && 1 <= n < 0x8000_0000_0000_0000
    && (Numeral(s, n) || (s != "" && s[0] == '+' && Numeral(s[1..], n)))
  }

  /** A star for the whole field, a range, or a value: by itself, or with a step to the end of the field. Only a star without
      a step leaves the field unrestricted. */
  ghost predicate BodyText(f: nat, body: string, stepped: bool, t: Term) {
    || (body == "*" && Least(f, t.lo) && Greatest(f, t.hi) && (t.restricted <==> stepped))
    || (t.restricted && RangeText(f, body, t.lo, t.hi))
    || (t.restricted && Numeral(body, t.lo) && InBounds(f, t.lo) && if stepped then Greatest(f, t.hi) else t.hi == t.lo)
  }

  ghost predicate RangeText(f: nat, body: string, lo: nat, hi: nat) {
    lo <= hi && InBounds(f, lo) && InBounds(f, hi) && exists a, b :: Numeral(a, lo) && Numeral(b, hi) && body == a + "-" + b
  }

  ghost predicate TermText(f: nat, text: string, t: Term) {
    || (BodyText(f, text, false, t) && t.step == 1)
    || (exists body, step :: text == body + "/" + step && StepText(step, t.step) && BodyText(f, body, true, t))
  }

  lemma BoundsAre(f: nat)
    requires f < 6
    ensures forall v: int :: InBounds(f, v) <==> Low(f) <= v <= High(f)
    ensures forall v: int :: (Least(f, v) <==> v == Low(f)) && (Greatest(f, v) <==> v == High(f))
  {
  }

  lemma ValueExactly(f: nat, s: string, v: nat)
    requires f < 6
    ensures ParsedValue(f, s) == Some(v) <==> Numeral(s, v) && InBounds(f, v)
  {
    hide Number, AllDigits;
    BoundsAre(f);
  }

  lemma NumeralPlain(s: string, v: nat, c: char)
    requires Numeral(s, v) && !('0' <= c <= '9')
    ensures c !in s
  {
  }

  lemma StepExactly(s: string, n: nat)
    ensures Atoi(s) == Some(n) && n > 0 <==> StepText(s, n)
  {
    hide Number;
    if s != "" && s[0] == '-' {
      assert !AllDigits(s);
    }
    if s != "" && s[0] == '+' {
      assert !AllDigits(s);
    }
  }

  lemma PlainBody(f: nat, body: string, stepped: bool, t: Term)
    requires BodyText(f, body, stepped, t)
    ensures '/' !in body
  {
    hide Numeral;
    if body != "*" {
      if Numeral(body, t.lo) {
        NumeralPlain(body, t.lo, '/');
      } else {
        var a, b :| Numeral(a, t.lo) && Numeral(b, t.hi) && body == a + "-" + b;
        NumeralPlain(a, t.lo, '/');
        NumeralPlain(b, t.hi, '/');
      }
    }
  }

  lemma RangeExactly(f: nat, body: string, lo: nat, hi: nat)
    requires f < 6
    ensures var dash := IndexOf(body, '-');
      dash < |body| && ParsedValue(f, body[..dash]) == Some(lo) && ParsedValue(f, body[dash + 1..]) == Some(hi) && lo <= hi <==>
        RangeText(f, body, lo, hi)
  {
    hide ParsedValue, Numeral, IndexOf, InBounds;
    var dash := IndexOf(body, '-');
    if dash < |body| {
      IndexOfIs(body, '-');
      ValueExactly(f, body[..dash], lo);
      ValueExactly(f, body[dash + 1..], hi);
      assert body == body[..dash] + "-" + body[dash + 1..];
    }
    if RangeText(f, body, lo, hi) {
      var a, b :| Numeral(a, lo) && Numeral(b, hi) && body == a + "-" + b;
      NumeralPlain(a, lo, '-');
      CutAt(a, '-', b);
      assert body == a + ['-'] + b;
      ValueExactly(f, a, lo);
      ValueExactly(f, b, hi);
    }
  }

  lemma BodyExactly(f: nat, body: string, stepped: bool, t: Term)
    requires f < 6
    ensures ParsedBody(f, body, stepped, t.step) == Some(t) <==> BodyText(f, body, stepped, t)
  {
    hide ParsedValue, Numeral, IndexOf, InBounds, RangeText, Least, Greatest;
    BoundsAre(f);
    RangeExactly(f, body, t.lo, t.hi);
    ValueExactly(f, body, t.lo);
    StarIsNothingElse(f, body, t);
    if Numeral(body, t.lo) { NumeralHasNoDash(body, t.lo); }
  }

  lemma StarIsNothingElse(f: nat, body: string, t: Term)
    ensures body == "*" ==> !Numeral(body, t.lo) && !RangeText(f, body, t.lo, t.hi)
  {
    assert RangeText(f, body, t.lo, t.hi) ==> |body| >= 3;
  }

  lemma NumeralHasNoDash(body: string, v: nat)
    requires Numeral(body, v)
    ensures IndexOf(body, '-') == |body|
  {
    NumeralPlain(body, v, '-');
    IndexAbsent(body, '-');
  }

  /** A field's term is read exactly if it is written so, and as what it is written; everything else is refused. */
  lemma TermExactly(f: nat, text: string, t: Term)
    requires f < 6
    ensures ParsedTerm(f, text) == Some(t) <==> TermText(f, text, t)
  {
    hide ParsedBody, BodyText, StepText, Atoi, IndexOf;
    var slash := IndexOf(text, '/');
    IndexOfIs(text, '/');
    BodyExactly(f, text, false, t);
    if slash < |text| {
      var body, step := text[..slash], text[slash + 1..];
      assert text == body + "/" + step;
      BodyExactly(f, body, true, t);
      StepExactly(step, t.step);
      if ParsedTerm(f, text) == Some(t) { BodyKeepsStep(f, body, true, Atoi(step).value, t); }
      if BodyText(f, text, false, t) { PlainBody(f, text, false, t); }
    } else if ParsedTerm(f, text) == Some(t) {
      BodyKeepsStep(f, text, false, 1, t);
    }
    forall body, step | text == body + "/" + step && StepText(step, t.step) && BodyText(f, body, true, t)
      ensures slash == |body| && slash < |text| && text[..slash] == body && text[slash + 1..] == step {
      PlainBody(f, body, true, t);
      CutAt(body, '/', step);
      assert text == body + ['/'] + step;
    }
  }

  lemma BodyKeepsStep(f: nat, body: string, stepped: bool, step: nat, t: Term)
    requires ParsedBody(f, body, stepped, step) == Some(t)
    ensures t.step == step
  {
    hide ParsedValue, IndexOf;
  }

  // ---- the values of a field ----

  /** A term that stops at each of its documented values admits exactly those, Sunday's 7 as 0. */
  lemma TermAdmits(f: nat, text: string, t: Term, b: nat)
    requires f < 6 && ParsedTerm(f, text) == Some(t) && t.lo + 2 * t.step < TWO_64
    ensures TermSelects(f, text, b) <==> exists n: nat :: t.lo + n * t.step <= t.hi && Folded(f, t.lo + n * t.step) == b
  {
    hide ParsedTerm, Adds, Wanted;
    ParsedTermReady(f, text);
    TermExact(t);
    if TermSelects(f, text, b) {
      var v :| Adds(t, v) && Folded(f, v) == b;
      WantedIs(t, v);
      var n: nat :| v == t.lo + n * t.step;
      assert Folded(f, t.lo + n * t.step) == b;
    }
    if exists n: nat :: t.lo + n * t.step <= t.hi && Folded(f, t.lo + n * t.step) == b {
      var n: nat :| t.lo + n * t.step <= t.hi && Folded(f, t.lo + n * t.step) == b;
      WantedIs(t, t.lo + n * t.step);
      assert Adds(t, t.lo + n * t.step);
    }
  }

  lemma WantedIs(t: Term, v: int)
    ensures Wanted(t, v) <==> v <= t.hi && exists n: nat :: v == t.lo + n * t.step
  {
    if Wanted(t, v) {
      var n: nat :| Nth(t, n) == v;
      assert v == t.lo + n * t.step;
    }
    if exists n: nat :: v == t.lo + n * t.step {
      var n: nat :| v == t.lo + n * t.step;
      assert Nth(t, n) == v;
    }
  }

  /** A term with step 1 admits a run of values. */
  lemma RunAdmits(f: nat, text: string, t: Term, b: nat)
    requires f < 6 && ParsedTerm(f, text) == Some(t) && t.step == 1
    ensures TermSelects(f, text, b) <==> exists v :: t.lo <= v <= t.hi && Folded(f, v) == b
  {
    hide ParsedTerm, TermSelects;
    ParsedTermReady(f, text);
    TermAdmits(f, text, t, b);
    forall n: nat ensures t.lo + n * t.step == t.lo + n { }
    if exists v :: t.lo <= v <= t.hi && Folded(f, v) == b {
      var v :| t.lo <= v <= t.hi && Folded(f, v) == b;
      var n: nat := v - t.lo;
      assert t.lo + n * t.step == v;
    }
  }

  lemma OneTermField(f: nat, text: string, b: nat)
    requires ',' !in text
    ensures SomeSelects(f, Split(text, ','), b) <==> TermSelects(f, text, b)
    ensures SomeRestricts(f, Split(text, ',')) <==> TermRestricts(f, text)
  {
    hide TermSelects, TermRestricts;
    SplitAt(text, ',', "");
    assert Split(text, ',')[0] == text;
  }

  /** A list admits what its first term does and what the rest of the list does. */
  lemma ListAdmits(f: nat, first: string, more: string, b: nat)
    requires ',' !in first
    ensures SomeSelects(f, Split(first + "," + more, ','), b) <==> TermSelects(f, first, b) || SomeSelects(f, Split(more, ','), b)
    ensures SomeRestricts(f, Split(first + "," + more, ',')) <==> TermRestricts(f, first) || SomeRestricts(f, Split(more, ','))
    ensures FieldReads(f, first + "," + more) <==> ParsedTerm(f, first).Some? && FieldReads(f, more)
  {
    hide TermSelects, TermRestricts, ParsedTerm;
    assert first + "," + more == first + [','] + more;
    SplitAt(first, ',', more);
    var all, rest := Split(first + "," + more, ','), Split(more, ',');
    assert all[0] == first && forall i :: 0 <= i < |rest| ==> all[i + 1] == rest[i];
  }

  /** A number admits itself only, of the weekday 7 as 0, and restricts its field; a number out of bounds is refused. */
  lemma LoneValue(f: nat, a: nat)
    requires f < 6
    ensures FieldReads(f, Decimal(a)) <==> InBounds(f, a)
    ensures InBounds(f, a) ==>
              && SomeRestricts(f, Split(Decimal(a), ','))
              && forall b: nat :: SomeSelects(f, Split(Decimal(a), ','), b) <==> b == if f == 5 && a == 7 then 0 else a
  {
    hide Decimal, TermSelects, Number, ParsedTerm, BodyText, InBounds, StepText;
    var text := Decimal(a);
    DecimalReads(a);
    NumeralPlain(text, a, ',');
    SplitAt(text, ',', "");
    assert Split(text, ',')[0] == text;
    LoneTerm(f, a);
    if InBounds(f, a) {
      var t := Term(a, a, 1, true);
      OneTermField(f, text, 0);
      forall b: nat ensures SomeSelects(f, Split(text, ','), b) <==> b == if f == 5 && a == 7 then 0 else a {
        RunAdmits(f, text, t, b);
        OneTermField(f, text, b);
        if b == (if f == 5 && a == 7 then 0 else a) { assert Folded(f, a) == b; }
      }
    }
  }

  lemma LoneTerm(f: nat, a: nat)
    requires f < 6
    ensures ParsedTerm(f, Decimal(a)) == if InBounds(f, a) then Some(Term(a, a, 1, true)) else None
  {
    hide Decimal, Number, ParsedTerm, TermText;
    DecimalReads(a);
    forall t ensures ParsedTerm(f, Decimal(a)) == Some(t) <==> InBounds(f, a) && t == Term(a, a, 1, true) {
      TermExactly(f, Decimal(a), t);
      LoneText(f, Decimal(a), a, t);
    }
    if ParsedTerm(f, Decimal(a)).Some? { assert InBounds(f, a); }
  }

  lemma LoneText(f: nat, text: string, v: nat, t: Term)
    requires f < 6 && Numeral(text, v)
    ensures TermText(f, text, t) <==> InBounds(f, v) && t == Term(v, v, 1, true)
  {
    hide InBounds;
    NumeralPlain(text, v, '/');
    NumeralPlain(text, v, '-');
    NumeralPlain(text, v, '*');
    SignsShow(f, text, t);
  }

  lemma SignsShow(f: nat, text: string, t: Term)
    ensures RangeText(f, text, t.lo, t.hi) ==> '-' in text
    ensures TermText(f, text, t) ==> BodyText(f, text, false, t) || '/' in text
  {
    hide InBounds, BodyText, StepText;
  }

  /** A star admits every value of its field and does not restrict it; with a step it restricts it. */
  lemma Star(f: nat, b: nat, step: nat)
    requires f < 6 && 1 <= step < 0x8000_0000_0000_0000
    ensures FieldReads(f, "*") && !SomeRestricts(f, Split("*", ','))
    ensures SomeSelects(f, Split("*", ','), b) <==> if f == 5 then b <= 6 else InBounds(f, b)
    ensures ParsedTerm(f, "*/" + Decimal(step)) == Some(Term(Low(f), High(f), step, true))
  {
    hide TermSelects, ParsedTerm, TermText, Number;
    BoundsAre(f);
    var t := Term(Low(f), High(f), 1, false);
    StarTerm(f);
    OneTermField(f, "*", b);
    SplitAt("*", ',', "");
    RunAdmits(f, "*", t, b);
    if (if f == 5 then b <= 6 else InBounds(f, b)) { assert Low(f) <= b <= High(f) && Folded(f, b) == b; }
    SteppedStar(f, step);
  }

  lemma StarTerm(f: nat)
    requires f < 6
    ensures ParsedTerm(f, "*") == Some(Term(Low(f), High(f), 1, false))
  {
    hide ParsedTerm;
    BoundsAre(f);
    var t := Term(Low(f), High(f), 1, false);
    assert BodyText(f, "*", false, t);
    TermExactly(f, "*", t);
  }

  lemma SteppedStar(f: nat, step: nat)
    requires f < 6 && 1 <= step < 0x8000_0000_0000_0000
    ensures ParsedTerm(f, "*/" + Decimal(step)) == Some(Term(Low(f), High(f), step, true))
  {
    hide ParsedTerm, Number, Decimal;
    BoundsAre(f);
    DecimalReads(step);
    var t := Term(Low(f), High(f), step, true);
    assert "*/" + Decimal(step) == "*" + "/" + Decimal(step);
    assert StepText(Decimal(step), step) && BodyText(f, "*", true, t);
    TermExactly(f, "*/" + Decimal(step), t);
  }

  /** A range without a step admits what lies between its ends. */
  lemma PlainRange(f: nat, lo: nat, hi: nat, b: nat)
    requires f < 6 && InBounds(f, lo) && InBounds(f, hi) && lo <= hi
    ensures var text := Decimal(lo) + "-" + Decimal(hi);
      && ParsedTerm(f, text) == Some(Term(lo, hi, 1, true))
      && (TermSelects(f, text, b) <==> exists v :: lo <= v <= hi && Folded(f, v) == b)
  {
    hide TermSelects, ParsedTerm, Number, Decimal, InBounds;
    DecimalReads(lo);
    DecimalReads(hi);
    var text, t := Decimal(lo) + "-" + Decimal(hi), Term(lo, hi, 1, true);
    assert Numeral(Decimal(lo), lo) && Numeral(Decimal(hi), hi);
    assert RangeText(f, text, lo, hi);
    assert BodyText(f, text, false, t);
    TermExactly(f, text, t);
    RunAdmits(f, text, t, b);
  }

  // ---- when schedules fire ----

  /** The schedule of six numbers: the time of day they say, on the day of the month or the weekday they say. */
  lemma NumbersFire(fields: seq<string>, c: Schedule, v: seq<nat>, t: int)
    requires SixFields(fields, c) && |v| == 6 && forall f :: 0 <= f < 6 ==> fields[f] == Decimal(v[f])
    ensures Fires(c, t) <==>
              && Calendar.Second(t) == v[0] && Calendar.Minute(t) == v[1] && Calendar.Hour(t) == v[2]
              && Calendar.MonthOf(Calendar.DayOf(t)) == v[4]
              && (Calendar.DayOfMonth(Calendar.DayOf(t)) == v[3] || Calendar.Weekday(Calendar.DayOf(t)) == v[5] % 7)
  {
    hide Decimal, SomeSelects, SomeRestricts, FieldReads, Has, Calendar.MonthIndex, InBounds;
    forall f | 0 <= f < 6 ensures InBounds(f, v[f]) && forall b: nat :: Has(MaskOf(c, f), b) <==> b == if f == 5 && v[f] == 7 then 0 else v[f] {
      assert FieldReads(f, fields[f]) && MaskMeans(f, fields[f], MaskOf(c, f));
      LoneValue(f, v[f]);
    }
    LoneValue(3, v[3]);
    LoneValue(5, v[5]);
    assert MaskOf(c, 0) == c.sec && MaskOf(c, 1) == c.min && MaskOf(c, 2) == c.hour && MaskOf(c, 3) == c.dom
           && MaskOf(c, 4) == c.mon && MaskOf(c, 5) == c.dow;
    assert v[5] <= 7 by { assert InBounds(5, v[5]); BoundsAre(5); }
  }

  /** The schedule of a time of day and three stars: that time, every day. */
  lemma DailyFires(fields: seq<string>, c: Schedule, s: nat, m: nat, h: nat, t: int)
    requires SixFields(fields, c) && fields == [Decimal(s), Decimal(m), Decimal(h), "*", "*", "*"]
    ensures h <= 23 && m <= 59 && s <= 59
    ensures Fires(c, t) <==> t % 86400 == h * 3600 + m * 60 + s
  {
    hide Decimal, SomeSelects, SomeRestricts, FieldReads, MaskMeans, Has, Calendar.MonthIndex, Calendar.Hour, Calendar.Minute, Calendar.Second;
    LoneMask(fields, c, 0, s);
    LoneMask(fields, c, 1, m);
    LoneMask(fields, c, 2, h);
    StarMask(fields, c, 4, Calendar.MonthOf(Calendar.DayOf(t)));
    Star(3, 0, 1);
    Star(5, 0, 1);
    assert MaskOf(c, 0) == c.sec && MaskOf(c, 1) == c.min && MaskOf(c, 2) == c.hour && MaskOf(c, 4) == c.mon;
    BoundsAre(0);
    BoundsAre(2);
    TimeOfDay(t, h, m, s);
  }

  lemma TimeOfDay(t: int, h: int, m: int, s: int)
    requires 0 <= h < 24 && 0 <= m < 60 && 0 <= s < 60
    ensures Calendar.Hour(t) == h && Calendar.Minute(t) == m && Calendar.Second(t) == s <==> t % 86400 == h * 3600 + m * 60 + s
  {
    hide Calendar.Hour, Calendar.Minute, Calendar.Second;
    Calendar.FieldsAt(t);
    Calendar.AtFields(Calendar.DayOf(t), h, m, s);
  }

  lemma LoneMask(fields: seq<string>, c: Schedule, f: nat, a: nat)
    requires SixFields(fields, c) && f < 6 && fields[f] == Decimal(a)
    ensures InBounds(f, a) && forall b: nat :: Has(MaskOf(c, f), b) <==> b == if f == 5 && a == 7 then 0 else a
  {
    hide Decimal, SomeSelects, SomeRestricts, FieldReads, Has, InBounds;
    assert FieldReads(f, fields[f]) && MaskMeans(f, fields[f], MaskOf(c, f));
    LoneValue(f, a);
  }

  lemma StarMask(fields: seq<string>, c: Schedule, f: nat, b: nat)
    requires SixFields(fields, c) && f < 6 && fields[f] == "*"
    ensures Has(MaskOf(c, f), b) <==> if f == 5 then b <= 6 else InBounds(f, b)
  {
    hide SomeSelects, SomeRestricts, FieldReads, Has, InBounds;
    assert MaskMeans(f, fields[f], MaskOf(c, f));
    Star(f, b, 1);
  }

  /** The instants an alias names: every hour, midnight, midnight of Sundays, of the first of each month, of New Year's Day. */
  predicate AliasMoment(name: string, t: int) {
    var day := Calendar.DayOf(t);
    if name == "@hourly" then t % 3600 == 0
    else
      && t % 86400 == 0
      && (name == "@weekly" ==> Calendar.Weekday(day) == 0)
      && (name == "@monthly" ==> Calendar.DayOfMonth(day) == 1)
      && (name == "@yearly" || name == "@annually" ==> Calendar.DayOfMonth(day) == 1 && Calendar.MonthOf(day) == 1)
  }

  /** They are when the alias fires. */
  lemma AliasFires(name: string, m: Masks, t: int)
    requires Alias(name) == Some(m)
    ensures Fires(Aliased(m), t) <==> AliasMoment(name, t)
  {
    hide Has, Only, AllMask, Calendar.MonthIndex;
    forall v: nat, b: nat ensures Has(Only(v), b) <==> b == v { OnlyIs(v, b); }
    forall lo: nat, hi: int, b: nat ensures Has(AllMask(lo, hi), b) <==> lo <= b <= hi { AllMaskIs(lo, hi, b); }
    OnlyIsNotAll();
    OnTheHour(t);
  }

  lemma OnlyIsNotAll()
    ensures Only(1) != AllMask(1, 31) && Only(0) != AllMask(0, 6)
  {
    hide Has, Only, AllMask;
    OnlyIs(1, 2);
    AllMaskIs(1, 31, 2);
    OnlyIs(0, 2);
    AllMaskIs(0, 6, 2);
  }

  lemma OnTheHour(t: int)
    ensures Calendar.Minute(t) == 0 && Calendar.Second(t) == 0 <==> t % 3600 == 0
    ensures Calendar.Hour(t) == 0 && Calendar.Minute(t) == 0 && Calendar.Second(t) == 0 <==> t % 86400 == 0
  {
    Calendar.FieldsAt(t);
    var d, h, m, s := Calendar.DayOf(t), Calendar.Hour(t), Calendar.Minute(t), Calendar.Second(t);
    assert t == 3600 * (24 * d + h) + (m * 60 + s);
    assert t % 3600 == m * 60 + s;
  }

  /** Letters of ASCII lose their case, one byte for one, and of all other characters only two come to be ASCII. */
  lemma {:induction false} LowerAscii(s: string)
    requires forall i :: 0 <= i < |s| ==> s[i] < 0x80 as char
    ensures |Lower(s)| == |s|
    ensures forall i :: 0 <= i < |s| ==> Lower(s)[i] == if 'A' <= s[i] <= 'Z' then (s[i] as int + 32) as char else s[i]
  {
    if s != "" {
      var rest := s[1..];
      LowerFirst(s);
      hide Lower;
      LowerAscii(rest);
      forall i | 0 < i < |s| ensures Lower(s)[i] == Lower(rest)[i - 1] && s[i] == rest[i - 1] { }
    } else {
      assert Lower("") == "";
    }
  }

  lemma LowerFirst(s: string)
    requires s != "" && s[0] < 0x80 as char
    ensures Lower(s) == [LowerByte(s[0])] + Lower(s[1..])
  {
    assert |s| >= 2 ==> s[..2][0] == s[0];
    assert |s| >= 3 ==> s[..3][0] == s[0];
  }

  lemma LowerOthers(s: string)
    ensures Lower([0xC4 as char, 0xB0 as char] + s) == "i" + Lower(s)
    ensures Lower([0xE2 as char, 0x84 as char, 0xAA as char] + s) == "k" + Lower(s)
  {
    var a, b := [0xC4 as char, 0xB0 as char] + s, [0xE2 as char, 0x84 as char, 0xAA as char] + s;
    assert a[..2] == [0xC4 as char, 0xB0 as char] && a[2..] == s;
    assert b[..3] == [0xE2 as char, 0x84 as char, 0xAA as char] && b[3..] == s;
    assert b[..2][0] == 0xE2 as char;
  }

  lemma DecimalIsWord(n: nat)
    ensures Word(Decimal(n))
  {
    hide Decimal, Number;
    DecimalReads(n);
    PlainHasNoSpace(Decimal(n));
  }

  lemma StarIsWord()
    ensures Word("*")
  {
    PlainHasNoSpace("*");
  }

  ghost predicate StarOrNumber(w: string) {
    w == "*" || exists n: nat :: w == Decimal(n)
  }

  /** A schedule written as six numbers or stars with a space between them, and white space around it, is split into them. */
  lemma WrittenSplits(fields: seq<string>)
    requires |fields| == 6 && forall f :: 0 <= f < 6 ==> StarOrNumber(fields[f])
    ensures var raw := Joined(fields); TrimSpace(raw) == raw && Fields(raw) == fields && !HasPrefix(raw, "@")
  {
    hide Decimal, Fields, TrimSpace, Word, Joined;
    forall w | w in fields ensures Word(w) && Dark(w) {
      StarIsWord();
      if w != "*" {
        var n: nat :| w == Decimal(n);
        DecimalIsWord(n);
        DecimalReads(n);
      }
    }
    FieldsJoined(fields);
    forall i | 0 <= i < |fields| ensures Dark(fields[i]) { assert fields[i] in fields; }
    EndsOfJoined(fields);
    NothingTrimmed(Joined(fields));
    assert Joined(fields)[..1] == [Joined(fields)[0]];
  }

  /** The text begins and ends with printable ASCII, and not with an at sign. */
  predicate Dark(w: string) {
    w != "" && '!' <= w[0] <= '~' && '!' <= w[|w| - 1] <= '~' && w[0] != '@'
  }

  lemma {:induction false} EndsOfJoined(words: seq<string>)
    requires words != [] && forall i :: 0 <= i < |words| ==> Dark(words[i])
    ensures Dark(Joined(words))
  {
    if |words| > 1 {
      var rest := words[1..];
      forall i | 0 <= i < |rest| ensures Dark(rest[i]) { assert rest[i] == words[i + 1]; }
      EndsOfJoined(rest);
      assert Dark(words[0]);
    }
  }

  /** The text "s m h * * *" is a schedule exactly when its numbers are a time of day, and then it fires then, every day. */
  lemma DailyText(s: nat, m: nat, h: nat)
    ensures var raw := TrimSpace(Joined([Decimal(s), Decimal(m), Decimal(h), "*", "*", "*"]));
      && (Accepted(raw) <==> s <= 59 && m <= 59 && h <= 23)
      && forall c, t: int :: SixFields(Fields(raw), c) ==> (Fires(c, t) <==> t % 86400 == h * 3600 + m * 60 + s)
  {
    hide Decimal, Fields, TrimSpace, Joined, SixFields, Fires, Accepted, HasPrefix;
    var fields := [Decimal(s), Decimal(m), Decimal(h), "*", "*", "*"];
    assert StarOrNumber(Decimal(s)) && StarOrNumber(Decimal(m)) && StarOrNumber(Decimal(h)) && StarOrNumber("*");
    WrittenSplits(fields);
    DailyReads(fields, s, m, h);
    NotEmpty(fields);
    AcceptedFields(Joined(fields));
    forall c, t: int | SixFields(fields, c) ensures Fires(c, t) <==> t % 86400 == h * 3600 + m * 60 + s { DailyFires(fields, c, s, m, h, t); }
  }

  lemma DailyReads(fields: seq<string>, s: nat, m: nat, h: nat)
    requires fields == [Decimal(s), Decimal(m), Decimal(h), "*", "*", "*"]
    ensures (forall f :: 0 <= f < 6 ==> FieldReads(f, fields[f])) <==> s <= 59 && m <= 59 && h <= 23
  {
    hide Decimal, FieldReads, SomeSelects, SomeRestricts;
    LoneValue(0, s);
    LoneValue(1, m);
    LoneValue(2, h);
    forall f | 3 <= f < 6 ensures FieldReads(f, "*") { Star(f, 0, 1); }
    if s <= 59 && m <= 59 && h <= 23 {
      forall f | 0 <= f < 6 ensures FieldReads(f, fields[f]) { }
    } else {
      assert !FieldReads(0, fields[0]) || !FieldReads(1, fields[1]) || !FieldReads(2, fields[2]);
    }
  }

  lemma NotEmpty(fields: seq<string>)
    requires |fields| == 6 && Fields(Joined(fields)) == fields && !HasPrefix(Joined(fields), "@")
    ensures Joined(fields) != "" && !HasPrefix(Joined(fields), "@every")
  {
    hide Joined;
    var raw := Joined(fields);
    assert |raw| >= 6 ==> raw[..6][..1] == raw[..1];
    assert "@every"[..1] == "@";
  }

  lemma AcceptedFields(raw: string)
    requires raw != "" && !HasPrefix(raw, "@every") && !HasPrefix(raw, "@")
    ensures Accepted(raw) <==> |Fields(raw)| == 6 && forall f :: 0 <= f < 6 ==> FieldReads(f, Fields(raw)[f])
  {
    hide Fields, FieldReads, Alias, Lower, HasPrefix;
  }

  /** There are seven aliases. */
  lemma AliasesAre(name: string)
    ensures Alias(name).Some? <==>
              name in {"@yearly", "@annually", "@monthly", "@weekly", "@daily", "@midnight", "@hourly"}
  {
    hide Only, AllMask;
  }
}
