/** Which slots a pass considers, how each is classified, and which missing ones it builds.

    A window is the list of slots a strategy should have an entry for; without one nothing of the strategy is planned. */
module Plan {
  import opened Cron
  import opened Entries
  import opened Resolve
  import opened Slots
  import opened StringOrder
  import opened Strategies
  import opened Wrappers

  const CLOSE_GRACE := 120
  const FAR_FUTURE := 0x4000000000000000
  const LOOSE_WINDOW := 2

  // ---- windows ----

  ghost predicate StrictlyAscending(s: seq<int>) {
    forall i, j :: 0 <= i < j < |s| ==> s[i] < s[j]
  }

  lemma NewestFiresAscend(c: Schedule, now: int, n: nat, out: seq<int>)
    requires NewestFires(c, now, n, out)
    ensures StrictlyAscending(out)
    ensures forall t :: t in out ==> Fires(c, t) && t * NANOS <= now && now / NANOS - LONGEST * 86400 <= t
  {
    var all := Window(c, now, LONGEST);
    FiresInExact(c, WindowStart(now, LONGEST), now / NANOS);
    var days :| Deciding(c, now, n, days) && OutcomeAt(c, now, n, days, out);
    forall t | t in out ensures t in all {
      assert out == Last(all, n);
    }
  }

  lemma SlotsFromAscend(c: Schedule, from: int, e: int, out: seq<int>)
    requires out == [] || (exists n :: 0 <= n <= |FiresIn(c, from, e)| && out == FiresIn(c, from, e)[..n])
    ensures StrictlyAscending(out)
    ensures forall t :: t in out ==> from <= t <= e && Fires(c, t)
  {
    FiresInExact(c, from, e);
    forall t | t in out ensures t in FiresIn(c, from, e) { }
  }

  const TWO_64 := 0x1_0000_0000_0000_0000

  /** Slots are stored as unsigned 64-bit seconds. */
  function Unsigned(fires: seq<int>): seq<nat> {
    seq(|fires|, i requires 0 <= i < |fires| => (fires[i] % TWO_64) as nat)
  }

  /** The instant, in signed seconds, that a stored slot is read back as. */
  function Moment(slot: nat): int {
    if slot < TWO_64 / 2 then slot else slot - TWO_64
  }

  /** Within the range of signed seconds nothing is lost in storing. */
  lemma StoredReadsBack(fires: seq<int>, i: nat)
    requires i < |fires| && -TWO_64 / 2 <= fires[i] < TWO_64 / 2
    ensures Moment(Unsigned(fires)[i]) == fires[i]
  {
  }

  lemma UnsignedAscends(fires: seq<int>)
    requires StrictlyAscending(fires) && forall t :: t in fires ==> 0 <= t < TWO_64
    ensures Unsigned(fires) == fires && StrictlyAscending(Unsigned(fires))
  {
    forall i | 0 <= i < |fires| ensures Unsigned(fires)[i] == fires[i] { assert fires[i] in fires; }
  }

  /** The window of one strategy: a full's `keep` newest fires; a chain's fires from the newest bundle of its nearest
      ancestor that has one, that instant included (no window before there is one); otherwise the two newest. */
  ghost predicate WindowOf(s: Strategy, tbl: Table, es: seq<Entry>, now: int, w: Option<seq<nat>>)
    requires Acyclic(tbl)
  {
    if s.kind == Full then w.Some? && NewestStored(s.schedule, now, if s.keep > 0 then s.keep else 2, w.value)
    else if s.chain then
      var base := Nearest(es, tbl, s.base, 0x4000_0000_0000_0000);
      if base.None? then w.None? else w.Some? && StoredSince(s.schedule, base.value.slot, now, w.value)
    else w.Some? && NewestStored(s.schedule, now, 2, w.value)
  }

  ghost predicate NewestStored(c: Schedule, now: int, n: nat, slots: seq<nat>) {
    exists fires :: NewestFires(c, now, n, fires) && slots == Unsigned(fires)
  }

  /** The fires from an instant up to now, as far as they are listed. */
  ghost predicate SlotsSince(c: Schedule, from: nat, now: int, out: seq<int>) {
    var all := FiresIn(c, from, now / NANOS);
    out == if now < from * NANOS || Reach(from - 1, all) > 10_000 then [] else all[..Reach(from - 1, all)]
  }

  ghost predicate StoredSince(c: Schedule, from: nat, now: int, slots: seq<nat>) {
    exists fires :: SlotsSince(c, from, now, fires) && slots == Unsigned(fires)
  }

  function At(windows: Windows, name: string): Option<seq<nat>> {
    if name in windows then Some(windows[name]) else None
  }

  /** Every lookback from now stays past 1970, and now itself is within unsigned seconds. */
  predicate InEpoch(now: int) {
    now >= LONGEST * DAY_NANOS && now / NANOS < TWO_64
  }

  /** Every strategy's window, at any moment; away from the edges of unsigned time they are strictly ascending. */
  method PlanWindows(strats: seq<Strategy>, tbl: Table, es: seq<Entry>, now: int) returns (out: Windows)
    requires WellFormed(strats) && tbl == ByName(strats)
    requires forall s :: s in strats ==> s.schedule.Valid()
    ensures forall s :: s in strats ==> WindowOf(s, tbl, es, now, At(out, s.name))
    ensures InEpoch(now) ==> forall n :: n in out ==> StrictlyAscending(out[n])
  {
    hide WindowOf, ByName, InEpoch;
    ValidatedIsSound(strats);
    out := map[];
    for i := 0 to |strats|
      invariant forall j :: 0 <= j < i ==> WindowOf(strats[j], tbl, es, now, At(out, strats[j].name))
      invariant forall n :: n in out ==> exists j :: 0 <= j < i && strats[j].name == n
      invariant InEpoch(now) ==> forall n :: n in out ==> StrictlyAscending(out[n])
    {
      var w := OneWindow(strats[i], tbl, es, now);
      if w.Some? {
        out := out[strats[i].name := w.value];
      }
    }
  }

  method OneWindow(s: Strategy, tbl: Table, es: seq<Entry>, now: int) returns (w: Option<seq<nat>>)
    requires Sound(tbl) && s.schedule.Valid()
    ensures WindowOf(s, tbl, es, now, w)
    ensures w.Some? && InEpoch(now) ==> StrictlyAscending(w.value)
  {
    if s.kind == Full {
      var slots := NewestWindow(s.schedule, now, s.EffectiveKeep());
      return Some(slots);
    }
    if s.chain {
      var base := NewestAncestorEntry(es, tbl, s, FAR_FUTURE);
      if base.None? { return None; }
      var slots := WindowSince(s.schedule, base.value.slot, now);
      return Some(slots);
    }
    var slots := NewestWindow(s.schedule, now, LOOSE_WINDOW);
    w := Some(slots);
  }

  method NewestWindow(c: Schedule, now: int, n: nat) returns (slots: seq<nat>)
    requires c.Valid() && n > 0
    ensures NewestStored(c, now, n, slots) && (InEpoch(now) ==> StrictlyAscending(slots))
  {
    hide FiresIn, Fires, NewestFires;
    var fires := Slots.NewestSlots(c, now, n);
    NewestFiresAscend(c, now, n, fires);
    slots := Unsigned(fires);
    if InEpoch(now) { UnsignedAscends(fires); }
  }

  method WindowSince(c: Schedule, from: nat, now: int) returns (slots: seq<nat>)
    requires c.Valid()
    ensures StoredSince(c, from, now, slots) && (InEpoch(now) ==> StrictlyAscending(slots))
  {
    hide FiresIn, Fires, Reach;
    var fires := SlotsFrom(c, from, now);
    SlotsFromAscend(c, from, now / NANOS, fires);
    assert SlotsSince(c, from, now, fires);
    slots := Unsigned(fires);
    if InEpoch(now) { UnsignedAscends(fires); }
  }

  /** The lookbacks from now stay within signed seconds. */
  predicate Signed(now: int) {
    -TWO_64 / 2 <= now / NANOS - LONGEST * 86400 && now / NANOS < TWO_64 / 2
  }

  /** The instant a planned slot is read back as, also before 1970, is a fire of its schedule at or before now. */
  lemma StoredSlotsFire(c: Schedule, now: int, n: nat, slots: seq<nat>, i: nat)
    requires NewestStored(c, now, n, slots) && Signed(now) && i < |slots|
    ensures Fires(c, Moment(slots[i])) && Moment(slots[i]) * NANOS <= now
  {
    hide Fires, NewestFires;
    var fires :| NewestFires(c, now, n, fires) && slots == Unsigned(fires);
    NewestFiresAscend(c, now, n, fires);
    assert fires[i] in fires;
    StoredReadsBack(fires, i);
  }

  /** The same of the slots of a chain, which none of them is before. */
  lemma StoredSinceFire(c: Schedule, from: nat, now: int, slots: seq<nat>, i: nat)
    requires StoredSince(c, from, now, slots) && Signed(now) && i < |slots|
    ensures Fires(c, Moment(slots[i])) && from <= Moment(slots[i]) && Moment(slots[i]) * NANOS <= now
  {
    hide Fires, FiresIn;
    var fires :| SlotsSince(c, from, now, fires) && slots == Unsigned(fires);
    var n := Reach(from - 1, FiresIn(c, from, now / NANOS));
    assert n <= |FiresIn(c, from, now / NANOS)|;
    if fires != [] { assert fires == FiresIn(c, from, now / NANOS)[..n]; }
    SlotsFromAscend(c, from, now / NANOS, fires);
    assert fires[i] in fires;
    StoredReadsBack(fires, i);
  }

  // ---- classification ----

  datatype PlanState = Built | TooSmall | Skipped | WrongHost | Unavailable | Pending | Blocked | Missing

  datatype PlanSlot = PlanSlot(strategy: string, slot: nat, state: PlanState)

  /** The first verdict recorded for a slot, whatever base it names. */
  function SkippedAt(vs: seq<SkippedSlot>, name: string, slot: nat): Option<SkippedSlot> {
    if vs == [] then None
    else if vs[0].strategy == name && vs[0].slot == slot then Some(vs[0])
    else SkippedAt(vs[1..], name, slot)
  }

  predicate Open(slot: nat, now: int) {
    Moment(slot) * NANOS > now || now - Moment(slot) * NANOS <= CLOSE_GRACE * NANOS
  }

  predicate Ready(s: Strategy, slot: nat, list: BundleList, tbl: Table)
    requires Acyclic(tbl)
  {
    s.kind == Incremental ==> BaseIdFor(s, slot, list.bundles, tbl).Ok?
  }

  function Classify(s: Strategy, slot: nat, list: BundleList, tbl: Table, now: int, fits: bool, floor: Option<int>): PlanState
    requires Acyclic(tbl)
  {
    if HasEntry(list.bundles, s.name, slot) then Built
    else if SkippedAt(list.skipped, s.name, slot).Some? then
      (if "too-small" <= SkippedAt(list.skipped, s.name, slot).value.reason then TooSmall else Skipped)
    else if !fits then WrongHost
    else if floor.Some? && Moment(slot) * NANOS < floor.value then Unavailable
    else if Open(slot, now) then Pending
    else if Ready(s, slot, list, tbl) then Missing
    else Blocked
  }

  // ---- which slots are shown as what ----

  /** The list has an entry of the strategy for the slot. */
  ghost predicate Listed(list: BundleList, name: string, slot: nat) {
    exists e :: e in list.bundles && e.strategy == name && e.slot == slot
  }

  /** Verdict k is the first of the strategy for the slot. */
  ghost predicate FirstVerdict(list: BundleList, name: string, slot: nat, k: nat) {
    && k < |list.skipped| && list.skipped[k].strategy == name && list.skipped[k].slot == slot
    && forall j :: 0 <= j < k ==> list.skipped[j].strategy != name || list.skipped[j].slot != slot
  }

  ghost predicate Judged(list: BundleList, name: string, slot: nat) {
    exists v :: v in list.skipped && v.strategy == name && v.slot == slot
  }

  ghost predicate TooSmallVerdict(v: SkippedSlot) {
    |v.reason| >= 9 && v.reason[..9] == "too-small"
  }

  /** An incremental of this slot has something to be cut on: an entry of an ancestor at or before the slot or, on a chain, an
      earlier one of its own. */
  ghost predicate HasBase(s: Strategy, slot: nat, es: seq<Entry>, tbl: Table)
    requires Acyclic(tbl)
  {
    exists e :: e in es && ((Ancestor(tbl, s.name, e.strategy) && e.slot <= slot)
                            || (s.chain && e.strategy == s.name && e.slot < slot))
  }

  /** The slot is neither built nor judged, and this host may build it. */
  ghost predicate Due(s: Strategy, slot: nat, list: BundleList, fits: bool, floor: Option<int>) {
    && !Listed(list, s.name, slot) && !Judged(list, s.name, slot) && fits
    && (floor.Some? ==> floor.value <= Moment(slot) * 1_000_000_000)
  }

  /** What a plan shows of a slot, state by state: a slot is due until it is built, judged, of another host or before the
      first state; pending until two minutes after its instant; then missing, or blocked without a base. */
  ghost predicate ShownAs(s: Strategy, slot: nat, list: BundleList, tbl: Table, now: int, fits: bool, floor: Option<int>, state: PlanState)
    requires Acyclic(tbl)
  {
    var listed, judged := Listed(list, s.name, slot), Judged(list, s.name, slot);
    var closed := Moment(slot) * 1_000_000_000 + 120_000_000_000 < now;
    match state
    case Built => listed
    case TooSmall => !listed && exists k: nat :: FirstVerdict(list, s.name, slot, k) && TooSmallVerdict(list.skipped[k])
    case Skipped => !listed && exists k: nat :: FirstVerdict(list, s.name, slot, k) && !TooSmallVerdict(list.skipped[k])
    case WrongHost => !listed && !judged && !fits
    case Unavailable => !listed && !judged && fits && floor.Some? && Moment(slot) * 1_000_000_000 < floor.value
    case Pending => Due(s, slot, list, fits, floor) && !closed
    case Blocked => Due(s, slot, list, fits, floor) && closed && s.kind != Full && !HasBase(s, slot, list.bundles, tbl)
    case Missing => Due(s, slot, list, fits, floor) && closed && (s.kind == Full || HasBase(s, slot, list.bundles, tbl))
  }

  lemma {:induction false} SkippedAtExactly(vs: seq<SkippedSlot>, name: string, slot: nat)
    ensures SkippedAt(vs, name, slot).None? <==> forall j :: 0 <= j < |vs| ==> vs[j].strategy != name || vs[j].slot != slot
    ensures SkippedAt(vs, name, slot).Some? ==>
              exists k :: 0 <= k < |vs| && vs[k].strategy == name && vs[k].slot == slot && SkippedAt(vs, name, slot).value == vs[k]
                          && forall j :: 0 <= j < k ==> vs[j].strategy != name || vs[j].slot != slot
  {
    if vs != [] && (vs[0].strategy != name || vs[0].slot != slot) {
      var rest := vs[1..];
      SkippedAtExactly(rest, name, slot);
      assert forall j :: 0 < j < |vs| ==> vs[j] == rest[j - 1];
      if SkippedAt(rest, name, slot).Some? {
        var k :| 0 <= k < |rest| && rest[k].strategy == name && rest[k].slot == slot && SkippedAt(rest, name, slot).value == rest[k]
                 && forall j :: 0 <= j < k ==> rest[j].strategy != name || rest[j].slot != slot;
        assert vs[k + 1] == rest[k];
      }
    }
  }

  lemma VerdictsShown(list: BundleList, name: string, slot: nat)
    ensures SkippedAt(list.skipped, name, slot).Some? <==> Judged(list, name, slot)
    ensures forall k: nat :: FirstVerdict(list, name, slot, k) ==> SkippedAt(list.skipped, name, slot) == Some(list.skipped[k])
    ensures Judged(list, name, slot) ==> exists k: nat :: FirstVerdict(list, name, slot, k)
  {
    SkippedAtExactly(list.skipped, name, slot);
    if Judged(list, name, slot) {
      var v :| v in list.skipped && v.strategy == name && v.slot == slot;
      var j :| 0 <= j < |list.skipped| && list.skipped[j] == v;
    }
  }

  /** Every slot is shown in the one state that the list, the table, the host and the time say. */
  lemma ClassifiedExactly(s: Strategy, slot: nat, list: BundleList, tbl: Table, now: int, fits: bool, floor: Option<int>, state: PlanState)
    requires Sound(tbl) && s.name in tbl && tbl[s.name] == s
    ensures Classify(s, slot, list, tbl, now, fits, floor) == state <==> ShownAs(s, slot, list, tbl, now, fits, floor, state)
  {
    hide SkippedAt, BaseFor, FirstVerdict, Ancestor;
    VerdictsShown(list, s.name, slot);
    if s.kind != Full { BlockedExactly(s, slot, list.bundles, tbl); }
  }

  function SlotsOf(windows: Windows, name: string): seq<nat> {
    if name in windows then windows[name] else []
  }

  /** The rows of one strategy, in window order. */
  function Rows(s: Strategy, slots: seq<nat>, list: BundleList, tbl: Table, now: int, fits: bool, floor: Option<int>): (r: seq<PlanSlot>)
    requires Acyclic(tbl)
    ensures |r| == |slots|
    ensures forall k :: 0 <= k < |r| ==> r[k] == PlanSlot(s.name, slots[k], Classify(s, slots[k], list, tbl, now, fits, floor))
  {
    seq(|slots|, k requires 0 <= k < |slots| => PlanSlot(s.name, slots[k], Classify(s, slots[k], list, tbl, now, fits, floor)))
  }

  function AllRows(strats: seq<Strategy>, windows: Windows, list: BundleList, tbl: Table, now: int,
                   fits: Strategy -> bool, floor: Option<int>): seq<PlanSlot>
    requires Acyclic(tbl)
  {
    if strats == [] then []
    else
      var s := strats[|strats| - 1];
      AllRows(strats[..|strats| - 1], windows, list, tbl, now, fits, floor)
      + Rows(s, SlotsOf(windows, s.name), list, tbl, now, fits(s), floor)
  }

  predicate RowBefore(a: PlanSlot, b: PlanSlot) {
    Less(a.strategy, b.strategy) || (a.strategy == b.strategy && a.slot < b.slot)
  }

  ghost predicate RowsSorted(rows: seq<PlanSlot>) {
    forall i, j :: 0 <= i < j < |rows| ==> !RowBefore(rows[j], rows[i])
  }

  /** Every slot of every window classified, ordered by strategy and slot. */
  method PlanStates(strats: seq<Strategy>, windows: Windows, list: BundleList, tbl: Table, now: int,
                    fits: Strategy -> bool, floor: Option<int>) returns (out: seq<PlanSlot>)
    requires Acyclic(tbl)
    ensures multiset(out) == multiset(AllRows(strats, windows, list, tbl, now, fits, floor)) && RowsSorted(out)
  {
    var rows := [];
    for i := 0 to |strats|
      invariant rows == AllRows(strats[..i], windows, list, tbl, now, fits, floor)
    {
      assert strats[..i + 1][..i] == strats[..i];
      var s := strats[i];
      var mine := ClassifyAll(s, SlotsOf(windows, s.name), list, tbl, now, fits(s), floor);
      rows := rows + mine;
    }
    assert strats[..|strats|] == strats;
    out := SortRows(rows);
  }

  method ClassifyAll(s: Strategy, slots: seq<nat>, list: BundleList, tbl: Table, now: int, fits: bool, floor: Option<int>)
    returns (mine: seq<PlanSlot>)
    requires Acyclic(tbl)
    ensures mine == Rows(s, slots, list, tbl, now, fits, floor)
  {
    hide Classify;
    mine := [];
    for k := 0 to |slots|
      invariant mine == Rows(s, slots, list, tbl, now, fits, floor)[..k]
    {
      mine := mine + [PlanSlot(s.name, slots[k], Classify(s, slots[k], list, tbl, now, fits, floor))];
    }
  }

  method SortRows(rows: seq<PlanSlot>) returns (out: seq<PlanSlot>)
    ensures multiset(out) == multiset(rows) && RowsSorted(out)
  {
    out := [];
    for i := 0 to |rows|
      invariant multiset(out) == multiset(rows[..i]) && RowsSorted(out)
    {
      assert rows[..i + 1] == rows[..i] + [rows[i]];
      out := InsertRow(out, rows[i]);
    }
    assert rows[..|rows|] == rows;
  }

  method InsertRow(rows: seq<PlanSlot>, row: PlanSlot) returns (out: seq<PlanSlot>)
    requires RowsSorted(rows)
    ensures RowsSorted(out) && multiset(out) == multiset(rows) + multiset{row}
  {
    var k := |rows|;
    while k > 0 && RowBefore(row, rows[k - 1])
      invariant 0 <= k <= |rows|
      invariant forall j :: k <= j < |rows| ==> RowBefore(row, rows[j])
    {
      k := k - 1;
    }
    InsertedRowSorted(rows, row, k);
    InsertedRowSame(rows, row, k);
    out := rows[..k] + [row] + rows[k..];
  }

  lemma InsertedRowSame(rows: seq<PlanSlot>, row: PlanSlot, k: nat)
    requires k <= |rows|
    ensures multiset(rows[..k] + [row] + rows[k..]) == multiset(rows) + multiset{row}
  {
    assert rows == rows[..k] + rows[k..];
  }

  lemma InsertedRowSorted(rows: seq<PlanSlot>, row: PlanSlot, k: nat)
    requires RowsSorted(rows) && k <= |rows| && (k > 0 ==> !RowBefore(row, rows[k - 1]))
    requires forall j :: k <= j < |rows| ==> RowBefore(row, rows[j])
    ensures RowsSorted(rows[..k] + [row] + rows[k..])
  {
    hide RowBefore;
    var low, high := rows[..k], rows[k..];
    forall j | 0 <= j < |low| ensures !RowBefore(row, low[j]) {
      if j < k - 1 { RowOrder(rows[j], rows[k - 1], row); }
    }
    forall j | 0 <= j < |high| ensures !RowBefore(high[j], row) { RowOrder(row, rows[k + j], row); }
    RowsJoin(low, [row]);
    RowsJoin(low + [row], high);
  }

  lemma RowsJoin(a: seq<PlanSlot>, b: seq<PlanSlot>)
    requires RowsSorted(a) && RowsSorted(b)
    requires forall i, j :: 0 <= i < |a| && 0 <= j < |b| ==> !RowBefore(b[j], a[i])
    ensures RowsSorted(a + b)
  {
    hide RowBefore;
  }

  lemma RowOrder(a: PlanSlot, b: PlanSlot, c: PlanSlot)
    ensures RowBefore(a, b) ==> !RowBefore(b, a)
    ensures !RowBefore(b, a) && !RowBefore(c, b) ==> !RowBefore(c, a)
  {
    LessTotal(a.strategy, b.strategy);
    LessTotal(b.strategy, c.strategy);
    LessTotal(a.strategy, c.strategy);
    LessIrreflexive(a.strategy);
    if Less(a.strategy, b.strategy) { LessAsymmetric(a.strategy, b.strategy); }
    if Less(a.strategy, b.strategy) && Less(b.strategy, c.strategy) {
      LessTransitive(a.strategy, b.strategy, c.strategy);
      LessAsymmetric(a.strategy, c.strategy);
    }
    if Less(c.strategy, a.strategy) && Less(a.strategy, b.strategy) { LessTransitive(c.strategy, a.strategy, b.strategy); }
    if Less(b.strategy, c.strategy) && Less(c.strategy, a.strategy) { LessTransitive(b.strategy, c.strategy, a.strategy); }
  }

  // ---- backfill ----

  /** The missing slots of a window, oldest first. */
  function MissingSlots(s: Strategy, slots: seq<nat>, list: BundleList, tbl: Table, now: int): seq<nat>
    requires Acyclic(tbl)
  {
    if slots == [] then []
    else MissingSlots(s, slots[..|slots| - 1], list, tbl, now)
         + (if Classify(s, slots[|slots| - 1], list, tbl, now, true, None) == Missing then [slots[|slots| - 1]] else [])
  }

  /** All of them, or the first max when a budget is set. */
  function Budget(slots: seq<nat>, max: int): seq<nat> {
    if max > 0 && |slots| > max then slots[..max] else slots
  }

  function ToBuild(strats: seq<Strategy>, windows: Windows, list: BundleList, tbl: Table, now: int): seq<(string, nat)>
    requires Acyclic(tbl)
  {
    if strats == [] then []
    else
      var s := strats[|strats| - 1];
      ToBuild(strats[..|strats| - 1], windows, list, tbl, now)
      + Named(s.name, Budget(MissingSlots(s, SlotsOf(windows, s.name), list, tbl, now), s.backfillMax))
  }

  function Named(name: string, slots: seq<nat>): seq<(string, nat)> {
    seq(|slots|, k requires 0 <= k < |slots| => (name, slots[k]))
  }

  /** The slots to build this pass: strategies in table order, each one's oldest missing slots within its budget. */
  method BackfillPlan(strats: seq<Strategy>, windows: Windows, list: BundleList, tbl: Table, now: int)
    returns (out: seq<(string, nat)>)
    requires Acyclic(tbl)
    ensures out == ToBuild(strats, windows, list, tbl, now)
  {
    out := [];
    for i := 0 to |strats|
      invariant out == ToBuild(strats[..i], windows, list, tbl, now)
    {
      assert strats[..i + 1][..i] == strats[..i];
      var mine := BackfillOne(strats[i], SlotsOf(windows, strats[i].name), list, tbl, now);
      out := out + Named(strats[i].name, mine);
    }
    assert strats[..|strats|] == strats;
  }

  method BackfillOne(s: Strategy, slots: seq<nat>, list: BundleList, tbl: Table, now: int) returns (mine: seq<nat>)
    requires Acyclic(tbl)
    ensures mine == Budget(MissingSlots(s, slots, list, tbl, now), s.backfillMax)
  {
    hide BaseIdFor;
    mine := [];
    for k := 0 to |slots|
      invariant mine == MissingSlots(s, slots[..k], list, tbl, now)
      invariant s.backfillMax > 0 ==> |mine| < s.backfillMax
    {
      assert slots[..k + 1][..k] == slots[..k];
      var slot := slots[k];
      if HasEntry(list.bundles, s.name, slot) || SkippedAt(list.skipped, s.name, slot).Some? { continue; }
      if Open(slot, now) { continue; }
      if s.kind == Incremental && BaseIdFor(s, slot, list.bundles, tbl).Err? {
        continue;
      }
      mine := mine + [slot];
      if s.backfillMax > 0 && |mine| >= s.backfillMax {
        MissingPrefix(s, slots, list, tbl, now, k + 1);
        return;
      }
    }
    assert slots[..|slots|] == slots;
  }

  lemma {:induction false} MissingPrefix(s: Strategy, slots: seq<nat>, list: BundleList, tbl: Table, now: int, k: nat)
    requires Acyclic(tbl) && k <= |slots|
    ensures MissingSlots(s, slots[..k], list, tbl, now) <= MissingSlots(s, slots, list, tbl, now)
    decreases |slots| - k
  {
    if k < |slots| {
      MissingPrefix(s, slots, list, tbl, now, k + 1);
      assert slots[..k + 1][..k] == slots[..k];
    } else {
      assert slots[..k] == slots;
    }
  }

  // ---- the plan a pass builds is the plan it shows ----

  /** The slots a plan shows as missing for one strategy, in its order. */
  function ShownMissing(rows: seq<PlanSlot>, name: string): seq<nat> {
    if rows == [] then []
    else
      var r := rows[|rows| - 1];
      ShownMissing(rows[..|rows| - 1], name) + (if r.strategy == name && r.state == Missing then [r.slot] else [])
  }

  lemma {:induction false} ShownMissingAre(rows: seq<PlanSlot>, name: string)
    ensures forall t :: t in ShownMissing(rows, name) <==> PlanSlot(name, t, Missing) in rows
  {
    if rows != [] {
      ShownMissingAre(rows[..|rows| - 1], name);
      assert rows == rows[..|rows| - 1] + [rows[|rows| - 1]];
    }
  }

  /** Rows of distinct slots, sorted, show a strategy's missing slots in ascending order. */
  lemma {:induction false} ShownAscend(rows: seq<PlanSlot>, name: string)
    requires RowsSorted(rows)
    requires forall i, j :: 0 <= i < j < |rows| && rows[i].strategy == rows[j].strategy ==> rows[i].slot != rows[j].slot
    ensures StrictlyAscending(ShownMissing(rows, name))
  {
    if rows != [] {
      var init, r := rows[..|rows| - 1], rows[|rows| - 1];
      ShownAscend(init, name);
      ShownMissingAre(init, name);
      var shown := ShownMissing(init, name);
      if r.strategy == name {
        forall i | 0 <= i < |shown| ensures shown[i] < r.slot {
          assert shown[i] in shown;
          var k :| 0 <= k < |init| && init[k] == PlanSlot(name, shown[i], Missing);
          assert !RowBefore(rows[|rows| - 1], rows[k]);
        }
      }
    }
  }

  lemma {:induction false} MissingAre(s: Strategy, slots: seq<nat>, list: BundleList, tbl: Table, now: int)
    requires Acyclic(tbl) && StrictlyAscending(slots)
    ensures StrictlyAscending(MissingSlots(s, slots, list, tbl, now))
    ensures forall t :: t in MissingSlots(s, slots, list, tbl, now) <==> t in slots && Classify(s, t, list, tbl, now, true, None) == Missing
  {
    if slots != [] {
      var init := slots[..|slots| - 1];
      MissingAre(s, init, list, tbl, now);
      assert slots == init + [slots[|slots| - 1]];
      var mine := MissingSlots(s, init, list, tbl, now);
      forall i | 0 <= i < |mine| ensures mine[i] < slots[|slots| - 1] { assert mine[i] in mine; }
    }
  }

  lemma {:induction false} SameAscending(a: seq<nat>, b: seq<nat>)
    requires StrictlyAscending(a) && StrictlyAscending(b) && forall t :: t in a <==> t in b
    ensures a == b
  {
    HasMember(a);
    HasMember(b);
    if a != [] {
      assert a[0] in b;
      assert b[0] in a;
      assert a[0] == b[0];
      var x, y := a[1..], b[1..];
      assert a == [a[0]] + x && b == [b[0]] + y;
      forall t: nat ensures t in x <==> t in y {
        TailMembers(a, t);
        TailMembers(b, t);
      }
      SameAscending(x, y);
    }
  }

  lemma HasMember(a: seq<nat>)
    ensures a != [] ==> exists t: nat :: t in a
  {
    if a != [] { assert a[0] in a; }
  }

  lemma TailMembers(a: seq<nat>, t: nat)
    requires StrictlyAscending(a) && a != []
    ensures t in a[1..] <==> t in a && t != a[0]
  {
    assert a == [a[0]] + a[1..];
    if t in a[1..] {
      var i :| 0 <= i < |a| - 1 && a[1..][i] == t;
      assert a[i + 1] == t;
    }
  }

  lemma {:induction false} RowsOf(strats: seq<Strategy>, windows: Windows, list: BundleList, tbl: Table, now: int, i: nat, t: nat)
    requires Acyclic(tbl) && UniqueNames(strats) && i < |strats|
    ensures PlanSlot(strats[i].name, t, Missing) in AllRows(strats, windows, list, tbl, now, s => true, None) <==>
            t in SlotsOf(windows, strats[i].name) && Classify(strats[i], t, list, tbl, now, true, None) == Missing
  {
    var s := strats[|strats| - 1];
    var mine := Rows(s, SlotsOf(windows, s.name), list, tbl, now, true, None);
    var row := PlanSlot(strats[i].name, t, Missing);
    if i < |strats| - 1 {
      RowsOf(strats[..|strats| - 1], windows, list, tbl, now, i, t);
      assert strats[i].name != s.name;
      assert row !in mine;
    } else {
      NotEarlier(strats[..|strats| - 1], windows, list, tbl, now, row);
      if t in SlotsOf(windows, s.name) && Classify(s, t, list, tbl, now, true, None) == Missing {
        var k :| 0 <= k < |mine| && SlotsOf(windows, s.name)[k] == t;
        assert mine[k] == row;
      }
    }
  }

  lemma {:induction false} NotEarlier(strats: seq<Strategy>, windows: Windows, list: BundleList, tbl: Table, now: int, row: PlanSlot)
    requires Acyclic(tbl) && forall s :: s in strats ==> s.name != row.strategy
    ensures row !in AllRows(strats, windows, list, tbl, now, s => true, None)
  {
    if strats != [] {
      NotEarlier(strats[..|strats| - 1], windows, list, tbl, now, row);
    }
  }

  lemma {:induction false} AllRowsDistinct(strats: seq<Strategy>, windows: Windows, list: BundleList, tbl: Table, now: int)
    requires Acyclic(tbl) && UniqueNames(strats) && forall n :: n in windows ==> StrictlyAscending(windows[n])
    ensures var rows := AllRows(strats, windows, list, tbl, now, s => true, None);
      && (forall i, j :: 0 <= i < j < |rows| && rows[i].strategy == rows[j].strategy ==> rows[i].slot != rows[j].slot)
      && (forall r :: r in rows ==> exists s :: s in strats && s.name == r.strategy)
  {
    if strats != [] {
      var init, s := strats[..|strats| - 1], strats[|strats| - 1];
      AllRowsDistinct(init, windows, list, tbl, now);
      var before, mine := AllRows(init, windows, list, tbl, now, s => true, None), Rows(s, SlotsOf(windows, s.name), list, tbl, now, true, None);
      forall r | r in before ensures r.strategy != s.name && exists t :: t in strats && t.name == r.strategy {
        var t :| t in init && t.name == r.strategy;
        assert t in strats;
      }
      assert s in strats;
    }
  }

  /** Permuted rows of distinct slots are distinct still. */
  lemma PermutedDistinct(a: seq<PlanSlot>, b: seq<PlanSlot>)
    requires multiset(a) == multiset(b)
    requires forall i, j :: 0 <= i < j < |a| && a[i].strategy == a[j].strategy ==> a[i].slot != a[j].slot
    ensures forall i, j :: 0 <= i < j < |b| && b[i].strategy == b[j].strategy ==> b[i].slot != b[j].slot
    ensures forall r :: r in a <==> r in b
  {
    forall r ensures r in a <==> r in b { assert r in multiset(a) <==> r in multiset(b); }
    forall i, j | 0 <= i < j < |b| && b[i].strategy == b[j].strategy ensures b[i].slot != b[j].slot {
      if b[i].slot == b[j].slot {
        var p, q := b[i], b[j];
        assert b[i] in a && b[j] in a;
        var x :| 0 <= x < |a| && a[x] == p;
        var y :| 0 <= y < |a| && a[y] == q;
        assert x == y;
        CountTwice(b, i, j);
        CountOnce(a, x);
      }
    }
  }

  lemma CountTwice(b: seq<PlanSlot>, i: nat, j: nat)
    requires i < j < |b| && b[i] == b[j]
    ensures multiset(b)[b[i]] >= 2
  {
    assert b == b[..j] + [b[j]] + b[j + 1..];
    assert b[i] in b[..j];
    assert multiset(b) == multiset(b[..j]) + multiset{b[j]} + multiset(b[j + 1..]);
  }

  lemma CountOnce(a: seq<PlanSlot>, x: nat)
    requires x < |a| && forall i, j :: 0 <= i < j < |a| && a[i].strategy == a[j].strategy ==> a[i].slot != a[j].slot
    ensures multiset(a)[a[x]] == 1
  {
    assert a == a[..x] + [a[x]] + a[x + 1..];
    assert a[x] !in a[..x] && a[x] !in a[x + 1..];
    assert multiset(a) == multiset(a[..x]) + multiset{a[x]} + multiset(a[x + 1..]);
  }

  /** What a pass builds for a strategy is the oldest part of what the plan shows missing for it: all of it without a
      budget. (On a host every strategy fits, for a repository without a first-state floor.) */
  lemma BackfillIsOldestMissing(strats: seq<Strategy>, windows: Windows, list: BundleList, tbl: Table, now: int,
                                rows: seq<PlanSlot>, i: nat)
    requires Acyclic(tbl) && UniqueNames(strats) && i < |strats|
    requires forall n :: n in windows ==> StrictlyAscending(windows[n])
    requires multiset(rows) == multiset(AllRows(strats, windows, list, tbl, now, s => true, None)) && RowsSorted(rows)
    ensures MissingSlots(strats[i], SlotsOf(windows, strats[i].name), list, tbl, now) == ShownMissing(rows, strats[i].name)
    ensures StrictlyAscending(ShownMissing(rows, strats[i].name))
  {
    var s, slots := strats[i], SlotsOf(windows, strats[i].name);
    AllRowsDistinct(strats, windows, list, tbl, now);
    PermutedDistinct(AllRows(strats, windows, list, tbl, now, s => true, None), rows);
    ShownAscend(rows, s.name);
    ShownMissingAre(rows, s.name);
    MissingAre(s, slots, list, tbl, now);
    forall t: nat ensures t in MissingSlots(s, slots, list, tbl, now) <==> t in ShownMissing(rows, s.name) {
      RowsOf(strats, windows, list, tbl, now, i, t);
    }
    SameAscending(MissingSlots(s, slots, list, tbl, now), ShownMissing(rows, s.name));
  }

  // ---- rows and builds, slot by slot ----

  lemma {:induction false} RowIn(strats: seq<Strategy>, windows: Windows, list: BundleList, tbl: Table, now: int,
                                 fits: Strategy -> bool, floor: Option<int>, row: PlanSlot)
    requires Acyclic(tbl)
    ensures row in AllRows(strats, windows, list, tbl, now, fits, floor) <==>
            exists s :: s in strats && s.name == row.strategy && row.slot in SlotsOf(windows, s.name)
                        && Classify(s, row.slot, list, tbl, now, fits(s), floor) == row.state
  {
    hide Classify;
    if strats != [] {
      var init, s := strats[..|strats| - 1], strats[|strats| - 1];
      assert strats == init + [s];
      RowIn(init, windows, list, tbl, now, fits, floor, row);
      var slots := SlotsOf(windows, s.name);
      var mine := Rows(s, slots, list, tbl, now, fits(s), floor);
      if row.slot in slots && s.name == row.strategy && Classify(s, row.slot, list, tbl, now, fits(s), floor) == row.state {
        var k :| 0 <= k < |slots| && slots[k] == row.slot;
        assert mine[k] == row;
      }
    }
  }

  /** A plan has a row exactly for each slot of the window of each strategy, in the state that is the slot's. */
  lemma PlanShowsExactly(strats: seq<Strategy>, windows: Windows, list: BundleList, now: int,
                         fits: Strategy -> bool, floor: Option<int>, rows: seq<PlanSlot>, row: PlanSlot)
    requires WellFormed(strats)
    requires multiset(rows) == multiset(AllRows(strats, windows, list, ByName(strats), now, fits, floor))
    ensures row in rows <==>
            exists s :: s in strats && s.name == row.strategy && s.name in windows && row.slot in windows[s.name]
                        && ShownAs(s, row.slot, list, ByName(strats), now, fits(s), floor, row.state)
  {
    hide Classify, ShownAs, ByName, Rows, AllRows;
    var tbl := ByName(strats);
    ValidatedIsSound(strats);
    ByNameFinds(strats);
    assert row in multiset(rows) <==> row in multiset(AllRows(strats, windows, list, tbl, now, fits, floor));
    RowIn(strats, windows, list, tbl, now, fits, floor, row);
    forall s | s in strats
      ensures Classify(s, row.slot, list, tbl, now, fits(s), floor) == row.state <==>
              ShownAs(s, row.slot, list, tbl, now, fits(s), floor, row.state) {
      var i :| 0 <= i < |strats| && strats[i] == s;
      ClassifiedExactly(s, row.slot, list, tbl, now, fits(s), floor, row.state);
    }
  }

  /** The places before k in a window whose slots are missing. */
  ghost function MissingBefore(s: Strategy, slots: seq<nat>, list: BundleList, tbl: Table, now: int, k: nat): set<nat>
    requires Acyclic(tbl) && k <= |slots|
  {
    set j: nat | j < k && Classify(s, slots[j], list, tbl, now, true, None) == Missing
  }

  /** The slot is at a place in the window at which it is missing and the budget is not used up by those before it. */
  ghost predicate Affordable(s: Strategy, slots: seq<nat>, list: BundleList, tbl: Table, now: int, max: int, t: nat)
    requires Acyclic(tbl)
  {
    exists k: nat :: k < |slots| && slots[k] == t && Classify(s, t, list, tbl, now, true, None) == Missing
                     && (max > 0 ==> |MissingBefore(s, slots, list, tbl, now, k)| < max)
  }

  lemma {:induction false} MissingCounted(s: Strategy, slots: seq<nat>, list: BundleList, tbl: Table, now: int)
    requires Acyclic(tbl)
    ensures |MissingSlots(s, slots, list, tbl, now)| == |MissingBefore(s, slots, list, tbl, now, |slots|)|
  {
    hide Classify;
    if slots != [] {
      var n := |slots| - 1;
      MissingCounted(s, slots[..n], list, tbl, now);
      assert MissingBefore(s, slots[..n], list, tbl, now, n) == MissingBefore(s, slots, list, tbl, now, n);
      var before, all := MissingBefore(s, slots, list, tbl, now, n), MissingBefore(s, slots, list, tbl, now, n + 1);
      if Classify(s, slots[n], list, tbl, now, true, None) == Missing {
        assert all == before + {n};
      } else {
        assert all == before;
      }
    } else {
      assert MissingBefore(s, slots, list, tbl, now, 0) == {};
    }
  }

  lemma {:induction false} BudgetTakes(s: Strategy, slots: seq<nat>, list: BundleList, tbl: Table, now: int, max: int, t: nat)
    requires Acyclic(tbl)
    ensures t in Budget(MissingSlots(s, slots, list, tbl, now), max) <==> Affordable(s, slots, list, tbl, now, max, t)
  {
    hide Classify, Affordable, Budget, MissingBefore;
    if slots != [] {
      var n := |slots| - 1;
      var init := slots[..n];
      BudgetTakes(s, init, list, tbl, now, max, t);
      MissingCounted(s, init, list, tbl, now);
      AffordableStep(s, slots, list, tbl, now, max, t);
      var before := MissingSlots(s, init, list, tbl, now);
      if Classify(s, slots[n], list, tbl, now, true, None) == Missing {
        BudgetStep(before, slots[n], max, t);
      } else {
        assert MissingSlots(s, slots, list, tbl, now) == before + [] == before;
      }
    } else {
      NothingAffordable(s, list, tbl, now, max, t);
    }
  }

  lemma NothingAffordable(s: Strategy, list: BundleList, tbl: Table, now: int, max: int, t: nat)
    requires Acyclic(tbl)
    ensures !Affordable(s, [], list, tbl, now, max, t) && t !in Budget(MissingSlots(s, [], list, tbl, now), max)
  {
  }

  lemma BudgetStep(before: seq<nat>, x: nat, max: int, t: nat)
    ensures t in Budget(before + [x], max) <==> t in Budget(before, max) || (x == t && (max > 0 ==> |before| < max))
  {
    if max > 0 && |before| >= max {
      assert (before + [x])[..max] == before[..max];
    }
  }

  lemma AffordableStep(s: Strategy, slots: seq<nat>, list: BundleList, tbl: Table, now: int, max: int, t: nat)
    requires Acyclic(tbl) && slots != []
    ensures var n := |slots| - 1;
      Affordable(s, slots, list, tbl, now, max, t) <==>
        || Affordable(s, slots[..n], list, tbl, now, max, t)
        || (slots[n] == t && Classify(s, t, list, tbl, now, true, None) == Missing
            && (max > 0 ==> |MissingBefore(s, slots[..n], list, tbl, now, n)| < max))
  {
    hide Classify;
    var n := |slots| - 1;
    forall k: nat | k <= n ensures MissingBefore(s, slots[..n], list, tbl, now, k) == MissingBefore(s, slots, list, tbl, now, k) { }
  }

  lemma {:induction false} BuildIn(strats: seq<Strategy>, windows: Windows, list: BundleList, tbl: Table, now: int, b: (string, nat))
    requires Acyclic(tbl)
    ensures b in ToBuild(strats, windows, list, tbl, now) <==>
            exists s :: s in strats && s.name == b.0 && Affordable(s, SlotsOf(windows, s.name), list, tbl, now, s.backfillMax, b.1)
  {
    hide Affordable, MissingSlots, Budget;
    if strats != [] {
      var init, s := strats[..|strats| - 1], strats[|strats| - 1];
      assert strats == init + [s];
      BuildIn(init, windows, list, tbl, now, b);
      var slots := Budget(MissingSlots(s, SlotsOf(windows, s.name), list, tbl, now), s.backfillMax);
      BudgetTakes(s, SlotsOf(windows, s.name), list, tbl, now, s.backfillMax, b.1);
      NamedHas(s.name, slots, b);
    }
  }

  lemma NamedHas(name: string, slots: seq<nat>, b: (string, nat))
    ensures b in Named(name, slots) <==> b.0 == name && b.1 in slots
  {
    if b.0 == name && b.1 in slots {
      var k :| 0 <= k < |slots| && slots[k] == b.1;
      assert Named(name, slots)[k] == b;
    }
  }

  /** The slot is what a plan of this host shows as missing, for a repository without a first-state floor. */
  ghost predicate Wanting(s: Strategy, slot: nat, list: BundleList, tbl: Table, now: int)
    requires Acyclic(tbl)
  {
    ShownAs(s, slot, list, tbl, now, true, None, Missing)
  }

  /** A slot is built in a pass exactly when it is missing at some place of its strategy's window and, if the strategy has a
      budget, fewer slots before that place are missing than it allows. */
  lemma BackfillExactly(strats: seq<Strategy>, windows: Windows, list: BundleList, now: int, b: (string, nat))
    requires WellFormed(strats)
    ensures var tbl := ByName(strats);
      b in ToBuild(strats, windows, list, tbl, now) <==>
        exists s, k: nat :: s in strats && s.name == b.0 && s.name in windows && k < |windows[s.name]| && windows[s.name][k] == b.1
          && Wanting(s, b.1, list, tbl, now)
          && (s.backfillMax > 0 ==> |set j: nat | j < k && Wanting(s, windows[s.name][j], list, tbl, now)| < s.backfillMax)
  {
    hide Classify, Wanting, ByName, ToBuild;
    var tbl := ByName(strats);
    BuildIn(strats, windows, list, tbl, now, b);
    forall s, t: nat | s in strats
      ensures Classify(s, t, list, tbl, now, true, None) == Missing <==> Wanting(s, t, list, tbl, now) {
      MissingIsWanting(strats, s, t, list, now);
    }
    forall s, k: nat | s in strats && s.name in windows && k <= |windows[s.name]|
      ensures MissingBefore(s, windows[s.name], list, tbl, now, k) ==
              set j: nat | j < k && Wanting(s, windows[s.name][j], list, tbl, now) { }
  }

  lemma MissingIsWanting(strats: seq<Strategy>, s: Strategy, t: nat, list: BundleList, now: int)
    requires WellFormed(strats) && s in strats
    ensures Classify(s, t, list, ByName(strats), now, true, None) == Missing <==> Wanting(s, t, list, ByName(strats), now)
  {
    hide Classify, ShownAs, ByName;
    ValidatedIsSound(strats);
    ByNameFinds(strats);
    var i :| 0 <= i < |strats| && strats[i] == s;
    ClassifiedExactly(s, t, list, ByName(strats), now, true, None, Missing);
  }

  /** Of two builds, this one comes first: its strategy is listed first, or it is the older slot of the same one. */
  ghost predicate Earlier(strats: seq<Strategy>, a: (string, nat), b: (string, nat)) {
    || (exists p, q :: 0 <= p < q < |strats| && strats[p].name == a.0 && strats[q].name == b.0)
    || (a.0 == b.0 && a.1 < b.1)
  }

  lemma EarlierStill(strats: seq<Strategy>, n: nat, a: (string, nat), b: (string, nat))
    requires n <= |strats| && Earlier(strats[..n], a, b)
    ensures Earlier(strats, a, b)
  {
    if !(a.0 == b.0 && a.1 < b.1) {
      var p, q :| 0 <= p < q < n && strats[..n][p].name == a.0 && strats[..n][q].name == b.0;
      assert strats[p].name == a.0 && strats[q].name == b.0;
    }
  }

  lemma EarlierThanLast(strats: seq<Strategy>, windows: Windows, list: BundleList, tbl: Table, now: int, a: (string, nat), b: (string, nat))
    requires Acyclic(tbl) && strats != [] && b.0 == strats[|strats| - 1].name
    requires a in ToBuild(strats[..|strats| - 1], windows, list, tbl, now)
    ensures Earlier(strats, a, b)
  {
    hide ToBuild, Affordable;
    var init := strats[..|strats| - 1];
    BuildIn(init, windows, list, tbl, now, a);
    var s :| s in init && s.name == a.0;
    var p :| 0 <= p < |init| && init[p] == s;
    assert strats[p].name == a.0 && strats[|strats| - 1].name == b.0;
  }

  /** Builds come in table order and, of one strategy, from the oldest slot on. */
  lemma {:induction false} BackfillInOrder(strats: seq<Strategy>, windows: Windows, list: BundleList, tbl: Table, now: int)
    requires Acyclic(tbl) && UniqueNames(strats) && forall n :: n in windows ==> StrictlyAscending(windows[n])
    ensures var out := ToBuild(strats, windows, list, tbl, now);
      forall i, j :: 0 <= i < j < |out| ==> Earlier(strats, out[i], out[j])
  {
    hide MissingSlots, Budget, Earlier;
    if strats != [] {
      var n := |strats| - 1;
      var init, s := strats[..n], strats[n];
      BackfillInOrder(init, windows, list, tbl, now);
      assert forall i, j :: 0 <= i < j < |ToBuild(init, windows, list, tbl, now)| ==>
        Earlier(init, ToBuild(init, windows, list, tbl, now)[i], ToBuild(init, windows, list, tbl, now)[j]);
      var slots := Budget(MissingSlots(s, SlotsOf(windows, s.name), list, tbl, now), s.backfillMax);
      var before, mine := ToBuild(init, windows, list, tbl, now), Named(s.name, slots);
      BudgetAscends(s, SlotsOf(windows, s.name), list, tbl, now);
      forall i, j | 0 <= i < j < |before| + |mine| ensures Earlier(strats, (before + mine)[i], (before + mine)[j]) {
        if j < |before| {
          assert Earlier(init, before[i], before[j]);
          EarlierStill(strats, n, before[i], before[j]);
        } else if i < |before| {
          EarlierThanLast(strats, windows, list, tbl, now, before[i], mine[j - |before|]);
        } else {
          OlderIsEarlier(strats, s.name, slots, i - |before|, j - |before|);
        }
      }
    }
  }

  lemma OlderIsEarlier(strats: seq<Strategy>, name: string, slots: seq<nat>, i: nat, j: nat)
    requires StrictlyAscending(slots) && i < j < |slots|
    ensures Earlier(strats, Named(name, slots)[i], Named(name, slots)[j])
  {
  }

  lemma BudgetAscends(s: Strategy, slots: seq<nat>, list: BundleList, tbl: Table, now: int)
    requires Acyclic(tbl) && StrictlyAscending(slots)
    ensures StrictlyAscending(Budget(MissingSlots(s, slots, list, tbl, now), s.backfillMax))
  {
    MissingAre(s, slots, list, tbl, now);
  }
}
