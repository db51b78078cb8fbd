/** Reading a schedule: six fields of terms, each a value, a range or a star with an optional step, into masks. */
module ScheduleText {
  // Steps go through the machine's 64-bit integers, which wrap around; the loop over a term's values is modelled with
  // that wrap-around.

  import opened Bitmask
  import opened Cron
  import opened StringOrder
  import opened Text
  import opened Wrappers

  const INT_MAX := 0x7FFF_FFFF_FFFF_FFFF
  const TWO_64 := 0x1_0000_0000_0000_0000

  const DOM := 3
  const MON := 4
  const DOW := 5

  /** The bounds of the fields: second, minute, hour, day of month, month, day of week. */
  function Low(f: nat): nat {
    if f == DOM || f == MON then 1 else 0
  }

  function High(f: nat): nat {
    if f < 2 then 59 else if f == 2 then 23 else if f == DOM then 31 else if f == MON then 12 else 7
  }

  // ---- numbers ----

  predicate AllDigits(s: string) {
    forall i :: 0 <= i < |s| ==> '0' <= s[i] <= '9'
  }

  function Number(s: string): nat
    requires AllDigits(s)
  {
    if s == "" then 0 else 10 * Number(s[..|s| - 1]) + (s[|s| - 1] as nat - '0' as nat)
  }

  /** A decimal integer that fits, with an optional sign. */
  function Atoi(s: string): Option<int> {
    var signed := s != "" && (s[0] == '+' || s[0] == '-');
    var digits := if signed then s[1..] else s;
    if digits == "" || !AllDigits(digits) then None
    else
      var n: int := if signed && s[0] == '-' then 0 - Number(digits) else Number(digits);
      if -INT_MAX - 1 <= n <= INT_MAX then Some(n) else None
  }

  function ParsedValue(f: nat, s: string): Option<nat> {
    if s == "" || !AllDigits(s) then None
    else
      var n := Number(s);
      if n > INT_MAX || n < Low(f) || n > High(f) then None else Some(n)
  }

  // ---- terms ----

  datatype Term = Term(lo: nat, hi: nat, step: nat, restricted: bool)

  /** A term without its step: a star, a range or a value, which runs to the end of the field if there is a step. */
  function ParsedBody(f: nat, body: string, stepped: bool, step: nat): Option<Term> {
    var dash := IndexOf(body, '-');
    if body == "*" then Some(Term(Low(f), High(f), step, stepped))
    else if dash < |body| then
      var a, b := ParsedValue(f, body[..dash]), ParsedValue(f, body[dash + 1..]);
      if a.None? || b.None? || a.value > b.value then None else Some(Term(a.value, b.value, step, true))
    else
      var a := ParsedValue(f, body);
      if a.None? then None else Some(Term(a.value, if stepped then High(f) else a.value, step, true))
  }

  function ParsedTerm(f: nat, text: string): Option<Term> {
    var slash := IndexOf(text, '/');
    if slash == |text| then ParsedBody(f, text, false, 1)
    else
      var step := Atoi(text[slash + 1..]);
      if step.None? || step.value <= 0 then None else ParsedBody(f, text[..slash], true, step.value)
  }

  ghost predicate Ready(t: Term) {
    t.lo <= t.hi <= 59 && 1 <= t.step <= INT_MAX
  }

  lemma ParsedTermReady(f: nat, text: string)
    requires ParsedTerm(f, text).Some?
    ensures var t := ParsedTerm(f, text).value; Ready(t) && Low(f) <= t.lo && t.hi <= High(f)
  {
    hide Number, IndexOf, Atoi;
    if IndexOf(text, '/') < |text| { AtoiFits(text[IndexOf(text, '/') + 1..]); }
  }

  lemma AtoiFits(s: string)
    ensures Atoi(s).Some? ==> Atoi(s).value <= INT_MAX
  {
    hide Number;
  }

  /** Addition of 64-bit integers, for a small or negative v. */
  function Add(v: int, step: nat): int {
    if v + step > INT_MAX then v + step - TWO_64 else v + step
  }

  /** Sunday is 0 and may be written 7. */
  function Folded(f: nat, v: int): int {
    if f == DOW && v == 7 then 0 else v
  }

  /** How far a step is from wrapping around by itself. */
  function Slack(t: Term): int {
    INT_MAX + 1 - t.step
  }

  predicate Ascends(t: Term) {
    t.lo < Slack(t)
  }

  /** The n-th value the loop over a term's values stands at, but for negative ones it passes through. */
  function Stop(t: Term, n: nat): int {
    if Ascends(t) then t.lo + n * t.step else t.lo - 2 * n * Slack(t)
  }

  /** The loop adds value v. */
  ghost predicate Adds(t: Term, v: int) {
    0 <= v <= t.hi && exists n: nat :: Stop(t, n) == v
  }

  /** The documentation's values of a term: from lo by steps up to hi. */
  ghost predicate Wanted(t: Term, v: int) {
    v <= t.hi && exists n: nat :: Nth(t, n) == v
  }

  function Nth(t: Term, n: nat): int {
    t.lo + n * t.step
  }

  ghost predicate Selected(f: nat, t: Term, b: nat) {
    exists v :: Adds(t, v) && Folded(f, v) == b
  }

  /** The bits of the mask r are those of m and of the first n stops. */
  ghost predicate Gathered(f: nat, t: Term, m: nat, r: nat, n: nat) {
    forall b: nat :: Has(r, b) <==> Has(m, b) || exists j: nat :: j < n && StopsAt(f, t, j, b)
  }

  ghost predicate StopsAt(f: nat, t: Term, j: nat, b: nat) {
    0 <= Stop(t, j) <= t.hi && Folded(f, Stop(t, j)) == b
  }

  lemma GatherNext(f: nat, t: Term, m: nat, r: nat, n: nat)
    requires Gathered(f, t, m, r, n)
    ensures Gathered(f, t, m, if 0 <= Stop(t, n) <= t.hi then With(r, Folded(f, Stop(t, n))) else r, n + 1)
  {
    hide Stop, With, Has;
    var v := Stop(t, n);
    var r' := if 0 <= v <= t.hi then With(r, Folded(f, v)) else r;
    forall b: nat ensures Has(r', b) <==> Has(m, b) || exists j: nat :: j < n + 1 && StopsAt(f, t, j, b) {
      if 0 <= v <= t.hi { WithBit(r, Folded(f, v), b); }
      if Has(r', b) && !Has(r, b) { assert StopsAt(f, t, n, b); }
      if Has(r, b) && !Has(m, b) {
        var j: nat :| j < n && StopsAt(f, t, j, b);
        assert j < n + 1;
      }
    }
  }

  lemma NothingGathered(f: nat, t: Term, m: nat)
    ensures Gathered(f, t, m, m, 0)
  {
  }

  /** When every later stop is out of range, the gathered bits are those the term selects. */
  lemma AllGathered(f: nat, t: Term, m: nat, r: nat, n: nat)
    requires Gathered(f, t, m, r, n) && forall j: nat :: n <= j ==> !(0 <= Stop(t, j) <= t.hi)
    ensures forall b: nat :: Has(r, b) <==> Has(m, b) || Selected(f, t, b)
  {
    hide Stop, Has;
    forall b: nat ensures Has(r, b) <==> Has(m, b) || Selected(f, t, b) {
      if Selected(f, t, b) {
        var v :| Adds(t, v) && Folded(f, v) == b;
        var n': nat :| Stop(t, n') == v;
        assert StopsAt(f, t, n', b);
      }
      if Has(r, b) && !Has(m, b) {
        var j: nat :| j < n && StopsAt(f, t, j, b);
        assert Adds(t, Stop(t, j));
      }
    }
  }

  lemma ProductGrows(a: nat, b: nat, x: nat)
    requires a <= b
    ensures a * x <= b * x
  {
    var c: nat := b - a;
    assert b * x == a * x + c * x && c * x >= 0;
  }

  lemma Monotone(t: Term, n: nat, j: nat)
    requires Ready(t) && n <= j
    ensures Ascends(t) ==> Stop(t, n) <= Stop(t, j)
    ensures !Ascends(t) && 1 <= Slack(t) ==> Stop(t, j) <= Stop(t, n)
  {
    if Ascends(t) {
      ProductGrows(n, j, t.step);
    } else if 1 <= Slack(t) {
      ProductGrows(2 * n, 2 * j, Slack(t));
    }
  }

  lemma StopNext(t: Term, n: nat)
    ensures Stop(t, n + 1) == if Ascends(t) then Stop(t, n) + t.step else Stop(t, n) - 2 * Slack(t)
  {
    assert (n + 1) * t.step == n * t.step + t.step;
    assert 2 * (n + 1) * Slack(t) == 2 * n * Slack(t) + 2 * Slack(t);
  }

  lemma NoneLater(t: Term, n: nat)
    requires Ready(t) && (if Ascends(t) then Stop(t, n) > t.hi else Stop(t, n) < 0)
    ensures forall j: nat :: n <= j ==> !(0 <= Stop(t, j) <= t.hi)
  {
    hide Stop;
    forall j: nat | n <= j ensures !(0 <= Stop(t, j) <= t.hi) { Monotone(t, n, j); }
  }

  /** Where the loop is: at the n-th stop, at a negative value between two stops, or past its end. */
  datatype Phase = AtStop | Between | Past

  ghost predicate At(t: Term, v: int, n: nat, phase: Phase) {
    match phase
    case AtStop => v == Stop(t, n) && (if Ascends(t) then v == t.lo || t.lo + t.step <= v else -59 <= v <= t.lo)
    case Between => !Ascends(t) && v == Stop(t, n) + t.step - TWO_64 && Slack(t) <= Stop(t, n) <= t.lo
    case Past => !Ascends(t) && Stop(t, n) < Slack(t) && v == Stop(t, n) + t.step > t.hi
  }

  function Measure(t: Term, v: int, n: nat, phase: Phase): int {
    match phase
    case AtStop => if Ascends(t) then t.hi + 1 - v else 2 * (v + 60) + 1
    case Between => 2 * (Stop(t, n) + 60)
    case Past => 0
  }

  /** Adds the values of a term to the mask, bit by bit. */
  method AddTerm(f: nat, t: Term, m: nat) returns (r: nat)
    requires Ready(t)
    ensures forall b: nat :: Has(r, b) <==> Has(m, b) || Selected(f, t, b)
  {
    hide Has, With, Stop, Gathered, StopsAt;
    r := m;
    var v: int := t.lo;
    ghost var n: nat, phase := 0, AtStop;
    FirstStop(t);
    NothingGathered(f, t, m);
    while v <= t.hi
      invariant At(t, v, n, phase)
      invariant Gathered(f, t, m, r, if phase.AtStop? then n else n + 1)
      decreases Measure(t, v, n, phase)
    {
      var d := v;
      if f == DOW && d == 7 { d := 0; }
      // A shift by a negative count sets no bit.
      ghost var r0 := r;
      if d >= 0 { r := With(r, d); }
      if phase.AtStop? { GatherNext(f, t, m, r0, n); }
      StopNext(t, n);
      ghost var n', phase' := Moved(t, v, n, phase);
      v := Add(v, t.step);
      n, phase := n', phase';
    }
    Finished(f, t, m, r, v, n, phase);
  }

  lemma FirstStop(t: Term)
    ensures Stop(t, 0) == t.lo
  {
  }

  lemma Moved(t: Term, v: int, n: nat, phase: Phase) returns (n': nat, phase': Phase)
    requires Ready(t) && At(t, v, n, phase) && v <= t.hi
    ensures At(t, Add(v, t.step), n', phase') && Measure(t, Add(v, t.step), n', phase') < Measure(t, v, n, phase)
    ensures 0 < Measure(t, v, n, phase)
    ensures if phase.AtStop? && phase'.AtStop? then n' == n + 1
            else if phase.AtStop? then n' == n
            else n' == n + 1 && phase'.AtStop?
    ensures phase.Between? ==> v < 0
  {
    hide Stop;
    StopNext(t, n);
    match phase
    case AtStop =>
      if Ascends(t) { n', phase' := n + 1, AtStop; }
      else if v >= Slack(t) { n', phase' := n, Between; }
      else { n', phase' := n, Past; }
    case Between => n', phase' := n + 1, AtStop;
  }

  lemma Finished(f: nat, t: Term, m: nat, r: nat, v: int, n: nat, phase: Phase)
    requires Ready(t) && At(t, v, n, phase) && v > t.hi
    requires Gathered(f, t, m, r, if phase.AtStop? then n else n + 1)
    ensures forall b: nat :: Has(r, b) <==> Has(m, b) || Selected(f, t, b)
  {
    hide Stop, Gathered, Has, Selected;
    StopNext(t, n);
    var end := if phase.AtStop? then n else n + 1;
    NoneLater(t, end);
    AllGathered(f, t, m, r, end);
  }

  /** The loop adds exactly the values from lo by steps up to hi, if and only if the step is not so large that two of
      them wrap all the way round to a value below lo. */
  lemma TermExact(t: Term)
    requires Ready(t)
    ensures (forall v :: Adds(t, v) <==> Wanted(t, v)) <==> t.lo + 2 * t.step < TWO_64
  {
    hide Stop, Nth;
    if Ascends(t) {
      forall v ensures Adds(t, v) <==> Wanted(t, v) { SameStops(t, v); }
    } else {
      FirstStop(t);
      StopNext(t, 0);
      OnlyFirst(t);
      if t.lo + 2 * t.step < TWO_64 {
        NoneLater(t, 1);
        forall v ensures Adds(t, v) <==> Wanted(t, v) { OnlyLo(t, v); }
      } else {
        assert Adds(t, Stop(t, 1));
        assert !Wanted(t, Stop(t, 1));
      }
    }
  }

  lemma SameStops(t: Term, v: int)
    requires Ascends(t)
    ensures Adds(t, v) <==> Wanted(t, v)
  {
    if Adds(t, v) {
      var n: nat :| Stop(t, n) == v;
      assert Nth(t, n) == v;
    }
    if Wanted(t, v) {
      var n: nat :| Nth(t, n) == v;
      assert Stop(t, n) == v;
      assert n * t.step >= 0;
    }
  }

  lemma NthApart(t: Term, n: nat)
    ensures Nth(t, n) == t.lo || (n > 0 && Nth(t, n) >= t.lo + t.step)
  {
    if n > 0 {
      var k: nat := n - 1;
      assert n * t.step == k * t.step + t.step && k * t.step >= 0;
    }
  }

  lemma OnlyFirst(t: Term)
    requires Ready(t) && !Ascends(t)
    ensures forall v :: Wanted(t, v) <==> v == t.lo
  {
    assert Nth(t, 0) == t.lo;
    hide Nth;
    forall v | Wanted(t, v) ensures v == t.lo {
      var n: nat :| Nth(t, n) == v;
      NthApart(t, n);
    }
  }

  lemma OnlyLo(t: Term, v: int)
    requires Ready(t) && (forall w :: Wanted(t, w) <==> w == t.lo) && Stop(t, 0) == t.lo
    requires forall j: nat :: 1 <= j ==> !(0 <= Stop(t, j) <= t.hi)
    ensures Adds(t, v) <==> Wanted(t, v)
  {
    hide Stop, Wanted;
    if Adds(t, v) {
      var n: nat :| Stop(t, n) == v;
      assert n == 0;
    }
  }

  // ---- fields ----

  datatype Field = Field(mask: nat, narrowed: bool)

  ghost predicate FieldReads(f: nat, text: string) {
    forall i :: 0 <= i < |Split(text, ',')| ==> ParsedTerm(f, Split(text, ',')[i]).Some?
  }

  ghost predicate TermSelects(f: nat, text: string, b: nat) {
    ParsedTerm(f, text).Some? && Selected(f, ParsedTerm(f, text).value, b)
  }

  predicate TermRestricts(f: nat, text: string) {
    ParsedTerm(f, text).Some? && ParsedTerm(f, text).value.restricted
  }

  ghost predicate SomeSelects(f: nat, terms: seq<string>, b: nat) {
    exists i :: 0 <= i < |terms| && TermSelects(f, terms[i], b)
  }

  ghost predicate SomeRestricts(f: nat, terms: seq<string>) {
    exists i :: 0 <= i < |terms| && TermRestricts(f, terms[i])
  }

  /** The mask has the values that some term selects; the field is set when some term is more than a star. */
  ghost predicate FieldMeans(f: nat, terms: seq<string>, field: Field) {
    && (forall b: nat :: Has(field.mask, b) <==> SomeSelects(f, terms, b))
    && (field.narrowed <==> SomeRestricts(f, terms))
  }

  method ParseField(f: nat, text: string) returns (field: Option<Field>)
    ensures field.Some? <==> FieldReads(f, text)
    ensures field.Some? ==> FieldMeans(f, Split(text, ','), field.value)
  {
    hide Has, Selected, ParsedTerm, Ready, TermSelects, TermRestricts;
    var terms := Split(text, ',');
    var m, restricted := 0, false;
    NothingMeans(f);
    for i := 0 to |terms|
      invariant forall j :: 0 <= j < i ==> ParsedTerm(f, terms[j]).Some?
      invariant FieldMeans(f, terms[..i], Field(m, restricted))
    {
      var t := ParsedTerm(f, terms[i]);
      if t.None? { return None; }
      ParsedTermReady(f, terms[i]);
      var m' := AddTerm(f, t.value, m);
      var restricted' := restricted || t.value.restricted;
      MeansMore(f, terms[..i], terms[i], Field(m, restricted), Field(m', restricted'));
      assert terms[..i] + [terms[i]] == terms[..i + 1];
      m, restricted := m', restricted';
    }
    assert terms[..|terms|] == terms;
    field := Some(Field(m, restricted));
  }

  lemma NothingMeans(f: nat)
    ensures FieldMeans(f, [], Field(0, false))
  {
    forall b: nat ensures !Has(0, b) { ZeroIsEmpty(b); }
  }

  lemma MeansMore(f: nat, terms: seq<string>, text: string, before: Field, after: Field)
    requires FieldMeans(f, terms, before) && ParsedTerm(f, text).Some?
    requires forall b: nat :: Has(after.mask, b) <==> Has(before.mask, b) || Selected(f, ParsedTerm(f, text).value, b)
    requires after.narrowed <==> before.narrowed || ParsedTerm(f, text).value.restricted
    ensures FieldMeans(f, terms + [text], after)
  {
    hide Has, Selected, ParsedTerm;
    var all := terms + [text];
    assert all[|terms|] == text;
    forall b: nat ensures SomeSelects(f, all, b) <==> SomeSelects(f, terms, b) || TermSelects(f, text, b) {
      if SomeSelects(f, terms, b) {
        var i :| 0 <= i < |terms| && TermSelects(f, terms[i], b);
        assert TermSelects(f, all[i], b);
      }
      if TermSelects(f, text, b) { assert TermSelects(f, all[|terms|], b); }
    }
    if SomeRestricts(f, terms) {
      var i :| 0 <= i < |terms| && TermRestricts(f, terms[i]);
      assert TermRestricts(f, all[i]);
    }
    if TermRestricts(f, text) { assert TermRestricts(f, all[|terms|]); }
  }

  // ---- schedules ----

  function AllMask(lo: nat, hi: int): nat
    decreases hi
  {
    if hi < lo then 0 else With(AllMask(lo, hi - 1), hi)
  }

  lemma {:induction false} AllMaskIs(lo: nat, hi: int, b: nat)
    ensures Has(AllMask(lo, hi), b) <==> lo <= b <= hi
    decreases hi
  {
    hide Has, With;
    if hi < lo {
      ZeroIsEmpty(b);
    } else {
      AllMaskIs(lo, hi - 1, b);
      WithBit(AllMask(lo, hi - 1), hi, b);
    }
  }

  function Only(v: nat): nat {
    With(0, v)
  }

  lemma OnlyIs(v: nat, b: nat)
    ensures Has(Only(v), b) <==> b == v
  {
    WithBit(0, v, b);
    ZeroIsEmpty(b);
  }

  datatype Masks = Masks(sec: nat, min: nat, hour: nat, dom: nat, mon: nat, dow: nat)

  function Alias(name: string): Option<Masks> {
    if name == "@yearly" || name == "@annually" then Some(Masks(Only(0), Only(0), Only(0), Only(1), Only(1), AllMask(0, 6)))
    else if name == "@monthly" then Some(Masks(Only(0), Only(0), Only(0), Only(1), AllMask(1, 12), AllMask(0, 6)))
    else if name == "@weekly" then Some(Masks(Only(0), Only(0), Only(0), AllMask(1, 31), AllMask(1, 12), Only(0)))
    else if name == "@daily" || name == "@midnight" then
      Some(Masks(Only(0), Only(0), Only(0), AllMask(1, 31), AllMask(1, 12), AllMask(0, 6)))
    else if name == "@hourly" then
      Some(Masks(Only(0), Only(0), AllMask(0, 23), AllMask(1, 31), AllMask(1, 12), AllMask(0, 6)))
    else None
  }

  function LowerByte(c: char): char {
    if 'A' <= c <= 'Z' then (c as int - 'A' as int + 'a' as int) as char else c
  }

  /** The text in lower case, as far as that can make it ASCII: two letters beyond ASCII, the dotted capital I and the
      Kelvin sign, have an ASCII letter for their lower case; all others stay beyond ASCII. */
  function Lower(s: string): string {
    if s == "" then ""
    else if HasPrefix(s, [0xC4 as char, 0xB0 as char]) then "i" + Lower(s[2..])
    else if HasPrefix(s, [0xE2 as char, 0x84 as char, 0xAA as char]) then "k" + Lower(s[3..])
    else [LowerByte(s[0])] + Lower(s[1..])
  }

  /** The schedule of an alias: a day field is set unless it admits every day. */
  function Aliased(m: Masks): Schedule {
    Schedule(m.sec, m.min, m.hour, m.dom, m.mon, m.dow, m.dom != AllMask(1, 31), m.dow != AllMask(0, 6))
  }

  function MaskOf(c: Schedule, f: nat): nat {
    match f
    case 0 => c.sec
    case 1 => c.min
    case 2 => c.hour
    case 3 => c.dom
    case 4 => c.mon
    case _ => c.dow
  }

  ghost predicate SixFields(fields: seq<string>, c: Schedule) {
    && |fields| == 6
    && (forall f :: 0 <= f < 6 ==> FieldReads(f, fields[f]) && MaskMeans(f, fields[f], MaskOf(c, f)))
    && (c.domSet <==> SomeRestricts(DOM, Split(fields[DOM], ','))) && (c.dowSet <==> SomeRestricts(DOW, Split(fields[DOW], ',')))
  }

  ghost predicate MaskMeans(f: nat, text: string, mask: nat) {
    forall b: nat :: Has(mask, b) <==> SomeSelects(f, Split(text, ','), b)
  }

  ghost predicate Accepted(raw: string) {
    && raw != "" && !HasPrefix(raw, "@every")
    && (if HasPrefix(raw, "@") then Alias(Lower(raw)).Some?
        else |Fields(raw)| == 6 && forall f :: 0 <= f < 6 ==> FieldReads(f, Fields(raw)[f]))
  }

  // ---- what an accepted schedule admits ----

  lemma SelectedAtMost(f: nat, text: string, b: nat)
    requires TermSelects(f, text, b) && f < 6
    ensures b <= if f == DOW then 6 else High(f)
  {
    hide ParsedTerm, Stop;
    ParsedTermReady(f, text);
  }

  lemma TermSelectsLo(f: nat, text: string)
    requires ParsedTerm(f, text).Some?
    ensures exists b: nat :: Low(f) <= b && TermSelects(f, text, b)
  {
    hide ParsedTerm;
    var t := ParsedTerm(f, text).value;
    ParsedTermReady(f, text);
    FirstStop(t);
    assert Adds(t, t.lo);
    assert TermSelects(f, text, Folded(f, t.lo));
  }

  lemma FieldWithin(f: nat, text: string, mask: nat)
    requires f < 6 && FieldReads(f, text) && MaskMeans(f, text, mask)
    ensures Within(mask, Low(f), if f == DOW then 6 else High(f))
  {
    hide ParsedTerm, Has, TermSelects, Split;
    var terms := Split(text, ',');
    assert ParsedTerm(f, terms[0]).Some?;
    TermSelectsLo(f, terms[0]);
    var b0: nat :| Low(f) <= b0 && TermSelects(f, terms[0], b0);
    SelectedAtMost(f, terms[0], b0);
    assert SomeSelects(f, terms, b0) && Has(mask, b0);
    forall b: nat | Has(mask, b) ensures b <= if f == DOW then 6 else High(f) {
      assert SomeSelects(f, terms, b);
      var i :| 0 <= i < |terms| && TermSelects(f, terms[i], b);
      SelectedAtMost(f, terms[i], b);
    }
  }

  /** Every schedule read from six fields is valid: it admits some value of every field within bounds and none above
      them, which is all the search for fire times relies on. */
  lemma ReadScheduleIsValid(fields: seq<string>, c: Schedule)
    requires SixFields(fields, c)
    ensures c.Valid()
  {
    hide FieldReads, MaskMeans, Within, SomeRestricts;
    FieldWithin(0, fields[0], MaskOf(c, 0));
    FieldWithin(1, fields[1], MaskOf(c, 1));
    FieldWithin(2, fields[2], MaskOf(c, 2));
    FieldWithin(3, fields[3], MaskOf(c, 3));
    FieldWithin(4, fields[4], MaskOf(c, 4));
    FieldWithin(5, fields[5], MaskOf(c, 5));
  }

  lemma OnlyWithin(v: nat, lo: nat, hi: nat)
    requires lo <= v <= hi
    ensures Within(Only(v), lo, hi)
  {
    hide Has, Only;
    OnlyIs(v, v);
    forall b: nat | Has(Only(v), b) ensures b <= hi { OnlyIs(v, b); }
  }

  lemma AllWithin(lo: nat, hi: nat)
    requires lo <= hi
    ensures Within(AllMask(lo, hi), lo, hi)
  {
    hide Has, AllMask;
    AllMaskIs(lo, hi, lo);
    forall b: nat | Has(AllMask(lo, hi), b) ensures b <= hi { AllMaskIs(lo, hi, b); }
  }

  /** Every alias is a valid schedule. */
  lemma AliasIsValid(name: string)
    requires Alias(name).Some?
    ensures Aliased(Alias(name).value).Valid()
  {
    hide Within, Only, AllMask;
    OnlyWithin(0, 0, 59); OnlyWithin(0, 0, 23); OnlyWithin(1, 1, 31); OnlyWithin(1, 1, 12); OnlyWithin(0, 0, 6);
    AllWithin(0, 23); AllWithin(1, 31); AllWithin(1, 12); AllWithin(0, 6);
  }

  // ---- reading a schedule ----

  method ParseSchedule(s: string) returns (c: Option<Schedule>)
    ensures c.Some? <==> Accepted(TrimSpace(s))
    ensures c.Some? ==> c.value.Valid()
    ensures var raw := TrimSpace(s); c.Some? ==>
      if HasPrefix(raw, "@") then c.value == Aliased(Alias(Lower(raw)).value) else SixFields(Fields(raw), c.value)
  {
    hide Has, FieldReads, SomeSelects, SomeRestricts, Fields, Alias, Lower, AllMask, TrimSpace;
    var raw := TrimSpace(s);
    if raw == "" { return None; }
    if HasPrefix(raw, "@every") { return None; }
    if HasPrefix(raw, "@") {
      var a := Alias(Lower(raw));
      if a.None? { return None; }
      AliasIsValid(Lower(raw));
      return Some(Aliased(a.value));
    }
    var fields := Fields(raw);
    if |fields| != 6 { return None; }
    var r := Schedule(0, 0, 0, 0, 0, 0, false, false);
    for f := 0 to 6
      invariant forall g :: 0 <= g < f ==> FieldReads(g, fields[g]) && MaskMeans(g, fields[g], MaskOf(r, g))
      invariant f > DOM ==> (r.domSet <==> SomeRestricts(DOM, Split(fields[DOM], ',')))
      invariant f > DOW ==> (r.dowSet <==> SomeRestricts(DOW, Split(fields[DOW], ',')))
    {
      var field := ParseField(f, fields[f]);
      if field.None? { return None; }
      var m, narrowed := field.value.mask, field.value.narrowed;
      r := match f
           case 0 => r.(sec := m)
           case 1 => r.(min := m)
           case 2 => r.(hour := m)
           case 3 => r.(dom := m, domSet := narrowed)
           case 4 => r.(mon := m)
           case _ => r.(dow := m, dowSet := narrowed);
    }
    ReadScheduleIsValid(fields, r);
    c := Some(r);
  }

  // ---- writing terms ----

  function Decimal(n: nat): string {
    var digit := ('0' as int + n % 10) as char;
    if n < 10 then [digit] else Decimal(n / 10) + [digit]
  }

  /** Reading a number undoes writing it. */
  lemma {:induction false} DecimalReads(n: nat)
    ensures Decimal(n) != "" && AllDigits(Decimal(n)) && Number(Decimal(n)) == n
  {
    var s := Decimal(n);
    if n >= 10 {
      DecimalReads(n / 10);
      assert s[..|s| - 1] == Decimal(n / 10);
    } else {
      assert s[..0] == "";
    }
  }

  lemma DigitsHave(s: string, c: char)
    requires AllDigits(s) && !('0' <= c <= '9')
    ensures c !in s
  {
  }

  lemma AtoiDecimal(n: nat)
    requires n <= INT_MAX
    ensures Atoi(Decimal(n)) == Some(n)
  {
    hide Number, Decimal;
    DecimalReads(n);
  }

  lemma CutAt(a: string, c: char, b: string)
    requires c !in a
    ensures IndexOf(a + [c] + b, c) == |a| && (a + [c] + b)[..|a|] == a && (a + [c] + b)[|a| + 1..] == b
  {
    IndexAfter(a, c, b);
  }

  lemma ValueReads(f: nat, a: nat)
    requires f < 6 && Low(f) <= a <= High(f)
    ensures ParsedValue(f, Decimal(a)) == Some(a)
  {
    hide Number, Decimal;
    DecimalReads(a);
  }

  /** Any range with any step in bounds can be written, and reads back as itself. */
  lemma RangeReads(f: nat, a: nat, b: nat, step: nat)
    requires f < 6 && Low(f) <= a <= b <= High(f) && 1 <= step <= INT_MAX
    ensures ParsedTerm(f, (Decimal(a) + "-" + Decimal(b)) + "/" + Decimal(step)) == Some(Term(a, b, step, true))
  {
    hide Number, Decimal, ParsedValue, Atoi, IndexOf;
    DecimalReads(a); DecimalReads(b); DecimalReads(step);
    DigitsHave(Decimal(a), '/'); DigitsHave(Decimal(b), '/'); DigitsHave(Decimal(a), '-');
    var body := Decimal(a) + "-" + Decimal(b);
    CutAt(body, '/', Decimal(step));
    CutAt(Decimal(a), '-', Decimal(b));
    AtoiDecimal(step);
    ValueReads(f, a); ValueReads(f, b);
    assert body != "*" by { assert body[0] == Decimal(a)[0]; }
  }

  /** So does a value with a step, which runs to the end of the field. */
  lemma FromReads(f: nat, a: nat, step: nat)
    requires f < 6 && Low(f) <= a <= High(f) && 1 <= step <= INT_MAX
    ensures ParsedTerm(f, Decimal(a) + "/" + Decimal(step)) == Some(Term(a, High(f), step, true))
  {
    hide Number, Decimal, ParsedValue, Atoi, IndexOf;
    DecimalReads(a); DecimalReads(step);
    DigitsHave(Decimal(a), '/'); DigitsHave(Decimal(a), '-'); DigitsHave(Decimal(a), '*');
    CutAt(Decimal(a), '/', Decimal(step));
    IndexAbsent(Decimal(a), '-');
    AtoiDecimal(step);
    ValueReads(f, a);
  }

  /** The largest step is accepted and wraps round: a field that is `a` by 9223372036854775807 also has a - 2, below
      where the term starts. */
  lemma WrappedStepSelectsBelow(f: nat, a: nat, fields: seq<string>, c: Schedule)
    requires f < 6 && Low(f) <= a <= High(f) && a >= 2
    requires SixFields(fields, c) && fields[f] == Decimal(a) + "/" + Decimal(INT_MAX)
    ensures Has(MaskOf(c, f), a - 2)
  {
    hide Decimal, ParsedTerm, Has, Split;
    var text := fields[f];
    FromReads(f, a, INT_MAX);
    var t := Term(a, High(f), INT_MAX, true);
    StopNext(t, 0);
    FirstStop(t);
    assert Adds(t, Stop(t, 1));
    assert TermSelects(f, text, a - 2);
    OneTerm(a, text);
    assert SomeSelects(f, Split(text, ','), a - 2) by { assert TermSelects(f, Split(text, ',')[0], a - 2); }
    assert MaskMeans(f, fields[f], MaskOf(c, f));
  }

  /** So the month term 2 by that step admits month 0. No date has it, so the schedule is valid all the same. */
  lemma WrappedStepAdmitsMonthZero(c: Schedule, fields: seq<string>)
    requires SixFields(fields, c) && fields[MON] == Decimal(2) + "/" + Decimal(INT_MAX)
    ensures Has(c.mon, 0) && c.Valid()
  {
    hide Decimal, Has;
    WrappedStepSelectsBelow(MON, 2, fields, c);
    ReadScheduleIsValid(fields, c);
  }

  lemma OneTerm(a: nat, text: string)
    requires text == Decimal(a) + "/" + Decimal(INT_MAX)
    ensures Split(text, ',') == [text]
  {
    hide Decimal, Number;
    DecimalReads(a); DecimalReads(INT_MAX);
    DigitsHave(Decimal(a), ','); DigitsHave(Decimal(INT_MAX), ',');
    IndexAbsent(text, ',');
  }
}
