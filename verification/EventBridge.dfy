/** The events bridge: delivery of one repository's log to every sink, by bridges that share a cursor. */
module EventBridge {
  // A catch-up goes in steps, and between any two of them other bridges act, the log grows and is folded from below.
  // A step a bridge is not ready for changes nothing. A read of the log either fails or gives the whole range.

  import opened Wrappers
  import opened Events
  import C = CasMachine

  /** Entries lo+1..hi that a catch-up found folded below its cursor, or below where it started without one. */
  datatype Gap = Gap(lo: nat, hi: nat, cold: bool)

  /** Where a bridge is in a catch-up: `version` is the cursor version it loaded, if there was a cursor, and k counts
      the sinks that have accepted the batch. */
  datatype Phase =
    | Idle
    | Synced(head: nat, minSeq: nat)
    | Loaded(head: nat, from: nat, start: nat, version: Option<nat>)
    | Delivering(head: nat, from: nat, start: nat, version: Option<nat>, batch: seq<RefEvent>, k: nat)

  /** Entry number n is log[n - 1]; those below minSeq are folded. */
  datatype State = State(log: seq<LogEntry>, minSeq: nat, cursor: C.Cell<nat>, nextVersion: nat,
                         bridges: map<nat, Phase>, inboxes: seq<seq<RefEvent>>, gaps: seq<Gap>)
  {
    function Of(b: nat): Phase {
      if b in bridges then bridges[b] else Idle
    }

    function With(b: nat, p: Phase): State {
      this.(bridges := bridges[b := p])
    }
  }

  /** Fail ends a catch-up with an error, at any point. DeliverUnsure is a delivery the sink took and the bridge
      believes failed. */
  datatype Step =
    | Append(kind: Kind, txn: Option<seq<Update>>, meta: map<string, string>)
    | Fold(upTo: nat)
    | Sync(b: nat) | Load(b: nat) | ReadLog(b: nat) | Deliver(b: nat) | DeliverUnsure(b: nat) | MoveCursor(b: nat)
    | Fail(b: nat)

  function ReadableFrom(minSeq: nat): nat {
    if minSeq > 0 then minSeq - 1 else 0
  }

  function Range(log: seq<LogEntry>, first: nat, last: nat): seq<LogEntry> {
    if 1 <= first <= last + 1 <= |log| + 1 then log[first - 1..last] else []
  }

  function LoadCursor(s: State, b: nat, head: nat, minSeq: nat): State {
    var readable := ReadableFrom(minSeq);
    var from := if s.cursor.Empty? then readable else s.cursor.value;
    var start := if from + 1 < minSeq then minSeq else from + 1;
    var gaps :=
      if s.cursor.Empty? then s.gaps + [Gap(0, readable, true)]
      else if from < readable then s.gaps + [Gap(from, readable, false)]
      else s.gaps;
    s.(gaps := gaps).With(b, if head <= from then Idle else Loaded(head, from, start, s.cursor.Version()))
  }

  function DeliverTo(s: State, p: Phase): State
    requires p.Delivering?
  {
    if p.batch != [] && p.k < |s.inboxes| then s.(inboxes := s.inboxes[p.k := s.inboxes[p.k] + p.batch]) else s
  }

  predicate AllAccepted(s: State, p: Phase)
    requires p.Delivering?
  {
    p.batch == [] || p.k == |s.inboxes|
  }

  function CasCursor(s: State, version: Option<nat>, to: nat): State {
    if s.cursor.Version() == version then s.(cursor := C.Holds(to, s.nextVersion), nextVersion := s.nextVersion + 1) else s
  }

  function Acting(src: Source, s: State, step: Step): State
    requires !step.Append? && !step.Fold?
  {
    var b := step.b;
    match (step, s.Of(b))
    case (Sync(_), Idle) => s.With(b, Synced(|s.log|, s.minSeq))
    case (Load(_), Synced(head, minSeq)) => LoadCursor(s, b, head, minSeq)
    case (ReadLog(_), Loaded(head, from, start, version)) =>
      s.With(b, Delivering(head, from, start, version, LogEvents(src, Range(s.log, start, head)), 0))
    case (Deliver(_), Delivering(_, _, _, _, batch, k)) =>
      if AllAccepted(s, s.Of(b)) then s else DeliverTo(s, s.Of(b)).With(b, s.Of(b).(k := k + 1))
    case (DeliverUnsure(_), Delivering(_, _, _, _, _, _)) => DeliverTo(s, s.Of(b)).With(b, Idle)
    case (MoveCursor(_), Delivering(head, _, _, version, _, _)) =>
      if AllAccepted(s, s.Of(b)) then CasCursor(s, version, head).With(b, Idle) else s
    case (Fail(_), _) => s.With(b, Idle)
    case _ => s
  }

  function Take(src: Source, s: State, step: Step): State {
    match step
    case Append(kind, txn, meta) => s.(log := s.log + [LogEntry(|s.log| + 1, kind, txn, meta)])
    case Fold(upTo) => if s.minSeq <= upTo <= |s.log| + 1 then s.(minSeq := upTo) else s
    case _ => Acting(src, s, step)
  }

  function Run(src: Source, s: State, steps: seq<Step>): State {
    if steps == [] then s else Take(src, Run(src, s, steps[..|steps| - 1]), steps[|steps| - 1])
  }

  ghost predicate Numbered(log: seq<LogEntry>) {
    forall i :: 0 <= i < |log| ==> log[i].seqNo == i + 1
  }

  /** No catch-up has begun; the cursor may have been seeded, with any number. */
  ghost predicate Initial(s: State) {
    && Numbered(s.log) && s.minSeq <= |s.log| + 1 && s.bridges == map[] && s.gaps == []
    && (s.cursor.Holds? ==> s.cursor.version < s.nextVersion)
    && forall k :: 0 <= k < |s.inboxes| ==> s.inboxes[k] == []
  }

  // ---- what every step keeps ----

  ghost predicate InGap(gaps: seq<Gap>, n: nat) {
    exists i :: 0 <= i < |gaps| && gaps[i].lo < n <= gaps[i].hi
  }

  /** A catch-up that found a cursor below the readable entries counted and logged a gap that holds entry n. */
  ghost predicate Reported(gaps: seq<Gap>, n: nat) {
    exists i :: 0 <= i < |gaps| && !gaps[i].cold && gaps[i].lo < n <= gaps[i].hi
  }

  /** A catch-up that found no cursor started above entry n. That is not reported. */
  ghost predicate StartedAbove(gaps: seq<Gap>, n: nat) {
    exists i :: 0 <= i < |gaps| && gaps[i].cold && gaps[i].lo < n <= gaps[i].hi
  }

  /** Entry n need not be delivered: the cursor was seeded past it, or a catch-up found it folded. */
  ghost predicate Excused(s: State, seed: Option<nat>, n: nat) {
    (seed.Some? && n <= seed.value) || InGap(s.gaps, n)
  }

  ghost predicate Has(src: Source, inbox: seq<RefEvent>, e: LogEntry) {
    forall v :: v in EntryEvents(src, e) ==> v in inbox
  }

  ghost predicate Everywhere(src: Source, s: State, n: nat) {
    1 <= n <= |s.log| && forall k :: 0 <= k < |s.inboxes| ==> SinkHas(src, s, k, n)
  }

  ghost predicate SettledUpTo(src: Source, s: State, seed: Option<nat>, upTo: nat) {
    forall n :: 1 <= n <= upTo ==> Excused(s, seed, n) || Everywhere(src, s, n)
  }

  /** If the cursor still has this version it still has this value. */
  ghost predicate VersionOK(s: State, version: Option<nat>, from: nat) {
    && (version.Some? ==> version.value < s.nextVersion)
    && (version.Some? && version == s.cursor.Version() ==> s.cursor.value == from)
  }

  ghost predicate RangeOK(src: Source, s: State, seed: Option<nat>, head: nat, from: nat, start: nat, version: Option<nat>) {
    from < start <= head + 1 && from < head <= |s.log| && SettledUpTo(src, s, seed, start - 1) && VersionOK(s, version, from)
  }

  /** Sink k has every event of entry n. */
  ghost predicate SinkHas(src: Source, s: State, k: nat, n: nat)
    requires k < |s.inboxes| && 1 <= n <= |s.log|
  {
    Has(src, s.inboxes[k], s.log[n - 1])
  }

  ghost predicate AcceptedBy(src: Source, s: State, start: nat, head: nat, k: nat) {
    1 <= start && head <= |s.log| && k <= |s.inboxes| &&
    forall j, n :: 0 <= j < k && start <= n <= head ==> SinkHas(src, s, j, n)
  }

  ghost predicate PhaseOK(src: Source, s: State, seed: Option<nat>, p: Phase) {
    match p
    case Idle => true
    case Synced(head, minSeq) => head <= |s.log| && minSeq <= s.minSeq && minSeq <= head + 1
    case Loaded(head, from, start, version) => RangeOK(src, s, seed, head, from, start, version)
    case Delivering(head, from, start, version, batch, k) =>
      && RangeOK(src, s, seed, head, from, start, version)
      && batch == LogEvents(src, Range(s.log, start, head))
      && AcceptedBy(src, s, start, head, k)
  }

  ghost predicate PhasesOK(src: Source, s: State, seed: Option<nat>) {
    forall b: nat :: PhaseOK(src, s, seed, s.Of(b))
  }

  ghost predicate CursorOK(src: Source, s: State, seed: Option<nat>) {
    s.cursor.Holds? ==> s.cursor.version < s.nextVersion && SettledUpTo(src, s, seed, s.cursor.value)
  }

  /** Every entry skipped is folded, and only a bridge that finds no cursor starts cold. */
  ghost predicate GapsOK(s: State, seed: Option<nat>) {
    && (forall i :: 0 <= i < |s.gaps| ==> s.gaps[i].hi == 0 || s.gaps[i].hi < s.minSeq)
    && (forall i :: 0 <= i < |s.gaps| && s.gaps[i].cold ==> seed.None?)
    && (s.cursor.Empty? ==> seed.None?)
  }

  /** Before the event at position p the inbox has every event of every earlier entry that was not skipped. */
  ghost predicate Precedes(src: Source, s: State, seed: Option<nat>, inbox: seq<RefEvent>, p: nat)
    requires p < |inbox|
  {
    forall n :: 1 <= n < inbox[p].seqNo ==> Excused(s, seed, n) || (n <= |s.log| && Has(src, inbox[..p], s.log[n - 1]))
  }

  ghost predicate InOrder(src: Source, s: State, seed: Option<nat>, inbox: seq<RefEvent>) {
    forall p :: 0 <= p < |inbox| ==> Precedes(src, s, seed, inbox, p)
  }

  ghost predicate InboxesOK(src: Source, s: State, seed: Option<nat>) {
    forall k :: 0 <= k < |s.inboxes| ==> InOrder(src, s, seed, s.inboxes[k])
  }

  ghost predicate Inv(src: Source, s: State, seed: Option<nat>) {
    && Numbered(s.log) && s.minSeq <= |s.log| + 1 && GapsOK(s, seed)
    && CursorOK(src, s, seed) && PhasesOK(src, s, seed) && InboxesOK(src, s, seed)
  }

  // ---- growth ----

  ghost predicate Prefix<T>(a: seq<T>, b: seq<T>) {
    |a| <= |b| && a == b[..|a|]
  }

  /** The log, the inboxes and the gaps only get longer, and folding only moves on. */
  ghost predicate Grows(s: State, t: State) {
    && Prefix(s.log, t.log) && Prefix(s.gaps, t.gaps) && s.minSeq <= t.minSeq && |t.inboxes| == |s.inboxes|
    && s.nextVersion <= t.nextVersion
    && forall k :: 0 <= k < |s.inboxes| ==> Prefix(s.inboxes[k], t.inboxes[k])
  }

  lemma TakeGrows(src: Source, s: State, step: Step)
    ensures Grows(s, Take(src, s, step))
  {
    hide LogEvents, EntryEvents;
    var t := Take(src, s, step);
    forall k | 0 <= k < |s.inboxes| ensures Prefix(s.inboxes[k], t.inboxes[k]) { }
  }

  lemma HasMore(src: Source, a: seq<RefEvent>, b: seq<RefEvent>, e: LogEntry)
    requires Prefix(a, b) && Has(src, a, e)
    ensures Has(src, b, e)
  {
    hide EntryEvents;
    forall v | v in EntryEvents(src, e) ensures v in b {
      var i :| 0 <= i < |a| && a[i] == v;
      assert b[..|a|][i] == b[i];
    }
  }

  lemma GrowsKeepsExcused(s: State, t: State, seed: Option<nat>, n: nat)
    requires Grows(s, t) && Excused(s, seed, n)
    ensures Excused(t, seed, n)
  {
    if InGap(s.gaps, n) {
      var i :| 0 <= i < |s.gaps| && s.gaps[i].lo < n <= s.gaps[i].hi;
      assert t.gaps[..|s.gaps|][i] == t.gaps[i];
    }
  }

  lemma GrowsKeepsEverywhere(src: Source, s: State, t: State, n: nat)
    requires Grows(s, t) && Everywhere(src, s, n)
    ensures Everywhere(src, t, n)
  {
    hide Has;
    assert t.log[..|s.log|][n - 1] == t.log[n - 1];
    forall k | 0 <= k < |t.inboxes| ensures SinkHas(src, t, k, n) {
      assert SinkHas(src, s, k, n);
      HasMore(src, s.inboxes[k], t.inboxes[k], s.log[n - 1]);
    }
  }

  lemma GrowsKeepsSettled(src: Source, s: State, t: State, seed: Option<nat>, upTo: nat)
    requires Grows(s, t) && SettledUpTo(src, s, seed, upTo)
    ensures SettledUpTo(src, t, seed, upTo)
  {
    hide Excused, Everywhere;
    forall n | 1 <= n <= upTo ensures Excused(t, seed, n) || Everywhere(src, t, n) {
      if Excused(s, seed, n) { GrowsKeepsExcused(s, t, seed, n); } else { GrowsKeepsEverywhere(src, s, t, n); }
    }
  }

  lemma GrowsKeepsAccepted(src: Source, s: State, t: State, start: nat, head: nat, k: nat)
    requires Grows(s, t) && AcceptedBy(src, s, start, head, k)
    ensures AcceptedBy(src, t, start, head, k)
  {
    hide Has;
    forall j, n | 0 <= j < k && start <= n <= head ensures SinkHas(src, t, j, n) {
      assert SinkHas(src, s, j, n);
      assert t.log[..|s.log|][n - 1] == t.log[n - 1];
      HasMore(src, s.inboxes[j], t.inboxes[j], s.log[n - 1]);
    }
  }

  lemma SameRange(a: seq<LogEntry>, b: seq<LogEntry>, first: nat, last: nat)
    requires Prefix(a, b) && 1 <= first <= last + 1 <= |a| + 1
    ensures Range(a, first, last) == Range(b, first, last)
  {
  }

  /** The cursor is as it was, or has a version that was never used. */
  ghost predicate CursorFresh(s: State, t: State) {
    t.cursor == s.cursor || (t.cursor.Holds? && t.cursor.version == s.nextVersion)
  }

  lemma GrowsKeepsPhase(src: Source, s: State, t: State, seed: Option<nat>, p: Phase)
    requires Grows(s, t) && CursorFresh(s, t) && PhaseOK(src, s, seed, p)
    ensures PhaseOK(src, t, seed, p)
  {
    hide SettledUpTo, AcceptedBy, LogEvents;
    match p
    case Idle =>
    case Synced(_, _) =>
    case Loaded(head, from, start, version) =>
      GrowsKeepsSettled(src, s, t, seed, start - 1);
    case Delivering(head, from, start, version, batch, k) =>
      GrowsKeepsSettled(src, s, t, seed, start - 1);
      GrowsKeepsAccepted(src, s, t, start, head, k);
      SameRange(s.log, t.log, start, head);
  }

  lemma GrowsKeepsInOrder(src: Source, s: State, t: State, seed: Option<nat>, inbox: seq<RefEvent>)
    requires Grows(s, t) && InOrder(src, s, seed, inbox)
    ensures InOrder(src, t, seed, inbox)
  {
    hide Has, Excused;
    forall p | 0 <= p < |inbox| ensures Precedes(src, t, seed, inbox, p) {
      assert Precedes(src, s, seed, inbox, p);
      forall n | 1 <= n < inbox[p].seqNo
        ensures Excused(t, seed, n) || (n <= |t.log| && Has(src, inbox[..p], t.log[n - 1]))
      {
        if Excused(s, seed, n) { GrowsKeepsExcused(s, t, seed, n); } else { assert t.log[..|s.log|][n - 1] == t.log[n - 1]; }
      }
    }
  }

  // ---- delivering a batch ----

  lemma {:induction false} LogEventsHas(src: Source, log: seq<LogEntry>, i: nat)
    requires i < |log|
    ensures Has(src, LogEvents(src, log), log[i])
  {
    if i < |log| - 1 {
      LogEventsHas(src, log[..|log| - 1], i);
    }
  }

  ghost predicate Increasing(log: seq<LogEntry>) {
    forall i, j :: 0 <= i < j < |log| ==> log[i].seqNo < log[j].seqNo
  }

  lemma EntrySeq(src: Source, e: LogEntry)
    ensures forall i :: 0 <= i < |EntryEvents(src, e)| ==> EntryEvents(src, e)[i].seqNo == e.seqNo
  {
    if e.txn.Some? && WireKind(e.kind).Some? { EventsCarrySeq(src, e, WireKind(e.kind).value, e.txn.value); }
  }

  /** In the events of a stretch of the log, those of earlier entries come before those of later ones. */
  lemma {:induction false} BatchInOrder(src: Source, log: seq<LogEntry>, p: nat, j: nat)
    requires Increasing(log) && p < |LogEvents(src, log)| && j < |log| && log[j].seqNo < LogEvents(src, log)[p].seqNo
    ensures Has(src, LogEvents(src, log)[..p], log[j])
  {
    hide EntryEvents, Has;
    var rest, last := log[..|log| - 1], log[|log| - 1];
    var es := LogEvents(src, rest);
    EntrySeq(src, last);
    if p < |es| {
      if j == |rest| { SeqFrom(src, rest, p); assert false; }
      BatchInOrder(src, rest, p, j);
      assert LogEvents(src, log)[..p] == es[..p];
    } else {
      assert LogEvents(src, log)[p] == EntryEvents(src, last)[p - |es|];
      LogEventsHas(src, rest, j);
      assert LogEvents(src, log)[..p][..|es|] == es;
      HasMore(src, es, LogEvents(src, log)[..p], log[j]);
    }
  }

  /** Every event of a stretch of the log has the number of one of its entries. */
  lemma {:induction false} SeqFrom(src: Source, log: seq<LogEntry>, p: nat)
    requires p < |LogEvents(src, log)|
    ensures exists i :: 0 <= i < |log| && log[i].seqNo == LogEvents(src, log)[p].seqNo
  {
    var rest, last := log[..|log| - 1], log[|log| - 1];
    var es := LogEvents(src, rest);
    EntrySeq(src, last);
    if p < |es| {
      SeqFrom(src, rest, p);
      var i :| 0 <= i < |rest| && rest[i].seqNo == es[p].seqNo;
      assert log[i] == rest[i];
    } else {
      assert LogEvents(src, log)[p] == EntryEvents(src, last)[p - |es|];
    }
  }

  /** A sink that has all that came before takes a batch, and still has everything in order. */
  lemma AppendInOrder(src: Source, s: State, seed: Option<nat>, k: nat, start: nat, head: nat)
    requires Numbered(s.log) && k < |s.inboxes| && InOrder(src, s, seed, s.inboxes[k])
    requires 1 <= start <= head + 1 <= |s.log| + 1 && SettledUpTo(src, s, seed, start - 1)
    ensures InOrder(src, s, seed, s.inboxes[k] + LogEvents(src, Range(s.log, start, head)))
  {
    hide Has, Excused, LogEvents;
    var inbox, part := s.inboxes[k], Range(s.log, start, head);
    var both := inbox + LogEvents(src, part);
    forall p | 0 <= p < |both| ensures Precedes(src, s, seed, both, p) {
      if p < |inbox| {
        assert Precedes(src, s, seed, inbox, p);
        assert both[..p] == inbox[..p];
      } else {
        BatchPrecedes(src, s, seed, k, start, head, p);
      }
    }
  }

  lemma BatchPrecedes(src: Source, s: State, seed: Option<nat>, k: nat, start: nat, head: nat, p: nat)
    requires Numbered(s.log) && k < |s.inboxes|
    requires 1 <= start <= head + 1 <= |s.log| + 1 && SettledUpTo(src, s, seed, start - 1)
    requires |s.inboxes[k]| <= p < |s.inboxes[k] + LogEvents(src, Range(s.log, start, head))|
    ensures Precedes(src, s, seed, s.inboxes[k] + LogEvents(src, Range(s.log, start, head)), p)
  {
    hide Has, Excused, LogEvents;
    var inbox, part := s.inboxes[k], Range(s.log, start, head);
    var events := LogEvents(src, part);
    var both, q := inbox + events, p - |inbox|;
    SeqFrom(src, part, q);
    assert both[p] == events[q] && both[..p] == inbox + events[..q];
    forall n | 1 <= n < both[p].seqNo ensures Excused(s, seed, n) || (n <= |s.log| && Has(src, both[..p], s.log[n - 1])) {
      if n < start {
        if !Excused(s, seed, n) {
          assert Everywhere(src, s, n) && SinkHas(src, s, k, n);
          HasMore(src, inbox, both[..p], s.log[n - 1]);
        }
      } else {
        assert part[n - start] == s.log[n - 1];
        BatchInOrder(src, part, q, n - start);
        HasAfter(src, inbox, events[..q], s.log[n - 1]);
      }
    }
  }

  lemma HasAfter(src: Source, a: seq<RefEvent>, b: seq<RefEvent>, e: LogEntry)
    requires Has(src, b, e)
    ensures Has(src, a + b, e)
  {
  }

  // ---- each step keeps the invariant ----

  lemma KeepsPhases(src: Source, s: State, t: State, seed: Option<nat>, b: nat)
    requires PhasesOK(src, s, seed) && Grows(s, t) && CursorFresh(s, t) && PhaseOK(src, t, seed, t.Of(b))
    requires forall c: nat :: c != b ==> t.Of(c) == s.Of(c)
    ensures PhasesOK(src, t, seed)
  {
    hide PhaseOK, Grows;
    forall c: nat ensures PhaseOK(src, t, seed, t.Of(c)) {
      if c != b {
        assert PhaseOK(src, s, seed, s.Of(c));
        GrowsKeepsPhase(src, s, t, seed, s.Of(c));
      }
    }
  }

  lemma KeepsInboxes(src: Source, s: State, t: State, seed: Option<nat>)
    requires InboxesOK(src, s, seed) && Grows(s, t) && t.inboxes == s.inboxes
    ensures InboxesOK(src, t, seed)
  {
    hide InOrder, Grows;
    forall k | 0 <= k < |t.inboxes| ensures InOrder(src, t, seed, t.inboxes[k]) {
      GrowsKeepsInOrder(src, s, t, seed, s.inboxes[k]);
    }
  }

  lemma KeepsCursor(src: Source, s: State, t: State, seed: Option<nat>)
    requires CursorOK(src, s, seed) && Grows(s, t) && t.cursor == s.cursor
    ensures CursorOK(src, t, seed)
  {
    hide SettledUpTo;
    if s.cursor.Holds? { GrowsKeepsSettled(src, s, t, seed, s.cursor.value); }
  }

  /** A step that changes neither cursor nor inboxes nor gaps keeps the invariant if the bridge's own phase is fine. */
  lemma QuietStep(src: Source, s: State, t: State, seed: Option<nat>, b: nat)
    requires Inv(src, s, seed) && Grows(s, t) && t.inboxes == s.inboxes && t.cursor == s.cursor
    requires Numbered(t.log) && t.minSeq <= |t.log| + 1 && GapsOK(t, seed)
    requires PhaseOK(src, t, seed, t.Of(b)) && forall c: nat :: c != b ==> t.Of(c) == s.Of(c)
    ensures Inv(src, t, seed)
  {
    hide PhasesOK, CursorOK, InboxesOK, PhaseOK, Grows, GapsOK, Numbered;
    KeepsPhases(src, s, t, seed, b);
    KeepsInboxes(src, s, t, seed);
    KeepsCursor(src, s, t, seed);
  }

  lemma LogStep(src: Source, s: State, seed: Option<nat>, step: Step)
    requires Inv(src, s, seed) && (step.Append? || step.Fold?)
    ensures Inv(src, Take(src, s, step), seed)
  {
    hide PhaseOK, CursorOK, InboxesOK, EntryEvents, LogEvents;
    var t := Take(src, s, step);
    TakeGrows(src, s, step);
    assert PhaseOK(src, s, seed, s.Of(0));
    GrowsKeepsPhase(src, s, t, seed, s.Of(0));
    QuietStep(src, s, t, seed, 0);
  }

  lemma LoadStep(src: Source, s: State, seed: Option<nat>, b: nat)
    requires Inv(src, s, seed) && s.Of(b).Synced?
    ensures Inv(src, Take(src, s, Load(b)), seed)
  {
    hide InboxesOK, Numbered, Grows;
    var t := Take(src, s, Load(b));
    TakeGrows(src, s, Load(b));
    assert PhaseOK(src, s, seed, s.Of(b));
    if t.Of(b).Loaded? { LoadSettles(src, s, seed, b); }
    QuietStep(src, s, t, seed, b);
  }

  lemma LoadSettles(src: Source, s: State, seed: Option<nat>, b: nat)
    requires Inv(src, s, seed) && s.Of(b).Synced? && Take(src, s, Load(b)).Of(b).Loaded?
    ensures var t := Take(src, s, Load(b)); SettledUpTo(src, t, seed, t.Of(b).start - 1)
  {
    hide InboxesOK, Numbered, Grows, Everywhere, PhasesOK;
    var t := Take(src, s, Load(b));
    var start := t.Of(b).start;
    TakeGrows(src, s, Load(b));
    if s.cursor.Holds? { GrowsKeepsSettled(src, s, t, seed, s.cursor.value); }
    forall n | 1 <= n <= start - 1 ensures Excused(t, seed, n) || Everywhere(src, t, n) {
      if s.cursor.Empty? || s.cursor.value < n {
        var g := t.gaps[|t.gaps| - 1];
        assert g.lo < n <= g.hi;
      }
    }
  }

  lemma ReadStep(src: Source, s: State, seed: Option<nat>, b: nat)
    requires Inv(src, s, seed) && s.Of(b).Loaded?
    ensures Inv(src, Take(src, s, ReadLog(b)), seed)
  {
    hide InboxesOK, CursorOK, Numbered, SettledUpTo, LogEvents, Grows;
    var t := Take(src, s, ReadLog(b));
    TakeGrows(src, s, ReadLog(b));
    assert PhaseOK(src, s, seed, s.Of(b));
    GrowsKeepsSettled(src, s, t, seed, s.Of(b).start - 1);
    QuietStep(src, s, t, seed, b);
  }

  /** A sink has taken the batch. */
  lemma DeliverStep(src: Source, s: State, seed: Option<nat>, b: nat, step: Step)
    requires Inv(src, s, seed) && s.Of(b).Delivering? && !AllAccepted(s, s.Of(b)) && (step == Deliver(b) || step == DeliverUnsure(b))
    ensures Inv(src, Take(src, s, step), seed)
  {
    hide PhaseOK, CursorOK, InOrder, SettledUpTo, LogEvents, Grows, AcceptedBy;
    var t, p := Take(src, s, step), s.Of(b);
    TakeGrows(src, s, step);
    DeliverPhase(src, s, seed, b, step);
    KeepsPhases(src, s, t, seed, b);
    KeepsCursor(src, s, t, seed);
    DeliverInboxes(src, s, seed, b, step);
  }

  lemma DeliverInboxes(src: Source, s: State, seed: Option<nat>, b: nat, step: Step)
    requires Inv(src, s, seed) && s.Of(b).Delivering? && !AllAccepted(s, s.Of(b)) && (step == Deliver(b) || step == DeliverUnsure(b))
    ensures InboxesOK(src, Take(src, s, step), seed)
  {
    hide InOrder, SettledUpTo, LogEvents, Grows, Numbered, CursorOK;
    var t, p := Take(src, s, step), s.Of(b);
    TakeGrows(src, s, step);
    assert PhaseOK(src, s, seed, p);
    forall k | 0 <= k < |t.inboxes| ensures InOrder(src, t, seed, t.inboxes[k]) {
      assert InOrder(src, s, seed, s.inboxes[k]);
      if k == p.k { AppendInOrder(src, s, seed, k, p.start, p.head); }
      GrowsKeepsInOrder(src, s, t, seed, t.inboxes[k]);
    }
  }

  lemma DeliverPhase(src: Source, s: State, seed: Option<nat>, b: nat, step: Step)
    requires Inv(src, s, seed) && s.Of(b).Delivering? && !AllAccepted(s, s.Of(b)) && (step == Deliver(b) || step == DeliverUnsure(b))
    ensures PhaseOK(src, Take(src, s, step), seed, Take(src, s, step).Of(b))
  {
    hide CursorOK, InboxesOK, SettledUpTo, LogEvents, Grows, Numbered, Has;
    var t, p := Take(src, s, step), s.Of(b);
    TakeGrows(src, s, step);
    assert PhaseOK(src, s, seed, p);
    GrowsKeepsPhase(src, s, t, seed, p);
    if step.Deliver? {
      forall n | p.start <= n <= p.head ensures SinkHas(src, t, p.k, n) {
        var part := Range(s.log, p.start, p.head);
        assert part[n - p.start] == s.log[n - 1];
        LogEventsHas(src, part, n - p.start);
        HasAfter(src, s.inboxes[p.k], p.batch, s.log[n - 1]);
      }
    }
  }

  /** Once every sink has accepted the batch, everything up to the head is settled. */
  lemma BatchSettles(src: Source, s: State, seed: Option<nat>, p: Phase)
    requires p.Delivering? && PhaseOK(src, s, seed, p) && AllAccepted(s, p)
    ensures SettledUpTo(src, s, seed, p.head)
  {
    hide Has, Excused, LogEvents;
    var part := Range(s.log, p.start, p.head);
    forall n | 1 <= n <= p.head ensures Excused(s, seed, n) || Everywhere(src, s, n) {
      if n >= p.start && p.batch == [] {
        assert part[n - p.start] == s.log[n - 1];
        LogEventsHas(src, part, n - p.start);
        forall k | 0 <= k < |s.inboxes| ensures SinkHas(src, s, k, n) {
          HasMore(src, [], s.inboxes[k], s.log[n - 1]);
        }
      }
    }
  }

  lemma CursorStep(src: Source, s: State, seed: Option<nat>, b: nat)
    requires Inv(src, s, seed) && s.Of(b).Delivering? && AllAccepted(s, s.Of(b))
    ensures Inv(src, Take(src, s, MoveCursor(b)), seed)
  {
    hide PhaseOK, SettledUpTo, InboxesOK, LogEvents, Grows, Numbered;
    var t, p := Take(src, s, MoveCursor(b)), s.Of(b);
    TakeGrows(src, s, MoveCursor(b));
    assert PhaseOK(src, s, seed, p);
    BatchSettles(src, s, seed, p);
    GrowsKeepsSettled(src, s, t, seed, p.head);
    IdleOK(src, t, seed);
    KeepsPhases(src, s, t, seed, b);
    KeepsInboxes(src, s, t, seed);
    if t.cursor == s.cursor { KeepsCursor(src, s, t, seed); }
  }

  lemma IdleOK(src: Source, s: State, seed: Option<nat>)
    ensures PhaseOK(src, s, seed, Idle)
  {
  }

  /** Synchronizing, failing, and steps the bridge is not ready for. */
  lemma PlainStep(src: Source, s: State, seed: Option<nat>, step: Step)
    requires Inv(src, s, seed) && !step.Append? && !step.Fold?
    requires var t := Take(src, s, step); t == s || t == s.With(step.b, Idle) || t == s.With(step.b, Synced(|s.log|, s.minSeq))
    ensures Inv(src, Take(src, s, step), seed)
  {
    hide CursorOK, InboxesOK, Numbered, Take;
    var t := Take(src, s, step);
    assert PhaseOK(src, s, seed, s.Of(step.b));
    if t != s {
      TakeGrows(src, s, step);
      QuietStep(src, s, t, seed, step.b);
    }
  }

  lemma TakeKeepsInv(src: Source, s: State, seed: Option<nat>, step: Step)
    requires Inv(src, s, seed)
    ensures Inv(src, Take(src, s, step), seed)
  {
    hide Inv, LogEvents, EntryEvents;
    if step.Append? || step.Fold? {
      LogStep(src, s, seed, step);
    } else {
      match (step, s.Of(step.b))
      case (Load(b), Synced(_, _)) => LoadStep(src, s, seed, b);
      case (ReadLog(b), Loaded(_, _, _, _)) => ReadStep(src, s, seed, b);
      case (Deliver(b), Delivering(_, _, _, _, _, _)) =>
        if AllAccepted(s, s.Of(b)) { PlainStep(src, s, seed, step); } else { DeliverStep(src, s, seed, b, step); }
      case (DeliverUnsure(b), Delivering(_, _, _, _, _, _)) =>
        UnsureStep(src, s, seed, b);
      case (MoveCursor(b), Delivering(_, _, _, _, _, _)) =>
        if AllAccepted(s, s.Of(b)) { CursorStep(src, s, seed, b); } else { PlainStep(src, s, seed, step); }
      case _ => PlainStep(src, s, seed, step);
    }
  }

  lemma UnsureStep(src: Source, s: State, seed: Option<nat>, b: nat)
    requires Inv(src, s, seed) && s.Of(b).Delivering?
    ensures Inv(src, Take(src, s, DeliverUnsure(b)), seed)
  {
    hide Inv, LogEvents, EntryEvents;
    if AllAccepted(s, s.Of(b)) {
      PlainStep(src, s, seed, DeliverUnsure(b));
    } else {
      DeliverStep(src, s, seed, b, DeliverUnsure(b));
    }
  }

  lemma {:induction false} RunKeepsInv(src: Source, s: State, steps: seq<Step>)
    requires Initial(s)
    ensures Inv(src, Run(src, s, steps), s.cursor.Value())
  {
    if steps == [] {
      forall b: nat ensures PhaseOK(src, s, s.cursor.Value(), s.Of(b)) { }
    } else {
      hide Inv, Initial;
      RunKeepsInv(src, s, steps[..|steps| - 1]);
      TakeKeepsInv(src, Run(src, s, steps[..|steps| - 1]), s.cursor.Value(), steps[|steps| - 1]);
    }
  }

  // ---- what the subscribers can rely on ----

  /** At least once: in every run, however many bridges catch up, fail, lose the race for the cursor or are cut off
      half way, while the log grows and is folded, every entry the cursor has passed has reached every sink, unless
      the cursor was seeded past it, or it was folded already when a catch-up looked: one that found the cursor below it
      and reported the gap, or one that found no cursor, which happens only if none was seeded. */
  lemma AtLeastOnce(src: Source, s: State, steps: seq<Step>, n: nat)
    requires Initial(s) && Run(src, s, steps).cursor.Holds? && 1 <= n <= Run(src, s, steps).cursor.value
    ensures var t := Run(src, s, steps);
      || (s.cursor.Holds? && n <= s.cursor.value)
      || (n < t.minSeq && Reported(t.gaps, n))
      || (n < t.minSeq && s.cursor.Empty? && StartedAbove(t.gaps, n))
      || (n <= |t.log| && forall k, v :: 0 <= k < |t.inboxes| && v in EntryEvents(src, t.log[n - 1]) ==> v in t.inboxes[k])
  {
    hide EntryEvents, PhasesOK, InboxesOK;
    RunKeepsInv(src, s, steps);
    var t, seed := Run(src, s, steps), s.cursor.Value();
    assert Excused(t, seed, n) || Everywhere(src, t, n);
    if Everywhere(src, t, n) {
      forall k, v | 0 <= k < |t.inboxes| && v in EntryEvents(src, t.log[n - 1]) ensures v in t.inboxes[k] {
        assert SinkHas(src, t, k, n);
      }
    }
  }

  /** In order: whenever a sink is given an event, it already has every event of every earlier entry, save those of
      entries the cursor was seeded past, or that were folded when a catch-up looked. */
  lemma NothingSkipped(src: Source, s: State, steps: seq<Step>, k: nat, p: nat, n: nat, v: RefEvent)
    requires Initial(s) && k < |Run(src, s, steps).inboxes| && p < |Run(src, s, steps).inboxes[k]|
    requires 1 <= n < Run(src, s, steps).inboxes[k][p].seqNo
    requires n <= |Run(src, s, steps).log| ==> v in EntryEvents(src, Run(src, s, steps).log[n - 1])
    ensures var t := Run(src, s, steps);
      || (s.cursor.Holds? && n <= s.cursor.value)
      || (n < t.minSeq && Reported(t.gaps, n))
      || (n < t.minSeq && s.cursor.Empty? && StartedAbove(t.gaps, n))
      || v in t.inboxes[k][..p]
  {
    hide EntryEvents, PhasesOK, CursorOK;
    RunKeepsInv(src, s, steps);
    var t := Run(src, s, steps);
    assert InOrder(src, t, s.cursor.Value(), t.inboxes[k]);
    assert Precedes(src, t, s.cursor.Value(), t.inboxes[k], p);
    assert Excused(t, s.cursor.Value(), n) || (n <= |t.log| && Has(src, t.inboxes[k][..p], t.log[n - 1]));
  }

  lemma StepNeverRegresses(src: Source, s: State, seed: Option<nat>, step: Step)
    requires Inv(src, s, seed) && s.cursor.Holds?
    ensures var t := Take(src, s, step); t.cursor.Holds? && t.cursor.value >= s.cursor.value
  {
    hide InboxesOK, SettledUpTo, LogEvents, Numbered;
    if !step.Append? && !step.Fold? { assert PhaseOK(src, s, seed, s.Of(step.b)); }
  }

  /** The cursor never goes back. */
  lemma {:induction false} CursorNeverRegresses(src: Source, s: State, steps: seq<Step>, more: seq<Step>)
    requires Initial(s) && Run(src, s, steps).cursor.Holds?
    ensures var later := Run(src, s, steps + more);
      later.cursor.Holds? && later.cursor.value >= Run(src, s, steps).cursor.value
  {
    hide Inv, Initial, Take;
    if more == [] {
      assert steps + more == steps;
    } else {
      var n := |more| - 1;
      CursorNeverRegresses(src, s, steps, more[..n]);
      RunKeepsInv(src, s, steps + more[..n]);
      RunOneMore(src, s, steps + more[..n], more[n]);
      assert steps + more == steps + more[..n] + [more[n]];
      StepNeverRegresses(src, Run(src, s, steps + more[..n]), s.cursor.Value(), more[n]);
    }
  }

  lemma RunOneMore(src: Source, s: State, steps: seq<Step>, step: Step)
    ensures Run(src, s, steps + [step]) == Take(src, Run(src, s, steps), step)
  {
    hide Take;
    assert (steps + [step])[..|steps|] == steps;
  }

  /** The cursor is moved only by a bridge whose whole batch every sink has accepted, to the head that bridge saw. */
  lemma CursorMovesAfterDelivery(src: Source, s: State, steps: seq<Step>, step: Step)
    requires Initial(s) && Take(src, Run(src, s, steps), step).cursor != Run(src, s, steps).cursor
    ensures step.MoveCursor?
    ensures var t := Run(src, s, steps); var p := t.Of(step.b);
      && p.Delivering? && Take(src, t, step).cursor.Value() == Some(p.head)
      && (t.cursor.Holds? ==> t.cursor.value == p.from < p.head) && 1 <= p.start && p.head <= |t.log|
      && forall k, n :: 0 <= k < |t.inboxes| && p.start <= n <= p.head ==> SinkHas(src, t, k, n)
  {
    hide InboxesOK, SettledUpTo, Numbered;
    RunKeepsInv(src, s, steps);
    var t := Run(src, s, steps);
    assert PhaseOK(src, t, s.cursor.Value(), t.Of(step.b));
    var p := t.Of(step.b);
    if p.batch == [] { NothingToHave(src, t, p); }
  }

  lemma NothingToHave(src: Source, s: State, p: Phase)
    requires p.Delivering? && p.batch == [] == LogEvents(src, Range(s.log, p.start, p.head))
    requires 1 <= p.start <= p.head + 1 <= |s.log| + 1
    ensures forall k, n :: 0 <= k < |s.inboxes| && p.start <= n <= p.head ==> SinkHas(src, s, k, n)
  {
    hide Has, LogEvents;
    var part := Range(s.log, p.start, p.head);
    forall k, n | 0 <= k < |s.inboxes| && p.start <= n <= p.head ensures SinkHas(src, s, k, n) {
      assert part[n - p.start] == s.log[n - 1];
      LogEventsHas(src, part, n - p.start);
      HasMore(src, [], s.inboxes[k], s.log[n - 1]);
    }
  }

  // ---- an undisturbed catch-up ----

  function Delivers(b: nat, k: nat): seq<Step> {
    seq(k, _ => Deliver(b))
  }

  function CatchUp(b: nat, sinks: nat): seq<Step> {
    [Sync(b), Load(b), ReadLog(b)] + Delivers(b, sinks) + [MoveCursor(b)]
  }

  lemma {:induction false} RunInTwo(src: Source, s: State, a: seq<Step>, b: seq<Step>)
    ensures Run(src, s, a + b) == Run(src, Run(src, s, a), b)
  {
    hide Take;
    if b == [] {
      assert a + b == a;
    } else {
      var n := |b| - 1;
      RunInTwo(src, s, a, b[..n]);
      assert (a + b)[..|a| + n] == a + b[..n] && (a + b)[|a| + n] == b[n];
    }
  }

  lemma {:induction false} DeliversAll(src: Source, s: State, b: nat, k: nat)
    requires s.Of(b).Idle? || (s.Of(b).Delivering? && s.Of(b).k == 0 && k <= |s.inboxes|)
    ensures var t := Run(src, s, Delivers(b, k));
      && |t.inboxes| == |s.inboxes| && t.cursor == s.cursor
      && t.Of(b) == (if s.Of(b).Idle? || s.Of(b).batch == [] then s.Of(b) else s.Of(b).(k := k))
  {
    hide LogEvents;
    if k > 0 {
      DeliversAll(src, s, b, k - 1);
      assert Delivers(b, k)[..k - 1] == Delivers(b, k - 1);
    }
  }

  /** The loop makes progress: a catch-up that no one disturbs and in which nothing fails brings the cursor to the head. */
  lemma UndisturbedCatchUp(src: Source, s: State, b: nat)
    requires s.Of(b).Idle? && (s.cursor.Holds? || s.minSeq <= |s.log|)
    ensures var t := Run(src, s, CatchUp(b, |s.inboxes|)); |s.log| > 0 ==> t.cursor.Holds? && t.cursor.value >= |s.log|
  {
    hide LogEvents, Run;
    var opening := [Sync(b), Load(b), ReadLog(b)];
    var s3, all := Run(src, s, opening), opening + Delivers(b, |s.inboxes|);
    OpensUndisturbed(src, s, b);
    RunInTwo(src, s, opening, Delivers(b, |s.inboxes|));
    RunOneMore(src, s, all, MoveCursor(b));
    DeliversAll(src, s3, b, |s.inboxes|);
    assert CatchUp(b, |s.inboxes|) == all + [MoveCursor(b)];
  }

  lemma OpensUndisturbed(src: Source, s: State, b: nat)
    requires s.Of(b).Idle?
    ensures var t, p := Run(src, s, [Sync(b), Load(b), ReadLog(b)]), Run(src, s, [Sync(b), Load(b), ReadLog(b)]).Of(b);
      && |t.inboxes| == |s.inboxes| && t.cursor == s.cursor
      && (if (if s.cursor.Empty? then ReadableFrom(s.minSeq) else s.cursor.value) < |s.log|
          then p.Delivering? && p.head == |s.log| && p.version == s.cursor.Version() && p.k == 0 else p.Idle?)
  {
    hide LogEvents;
    RunOneMore(src, s, [], Sync(b));
    RunOneMore(src, s, [Sync(b)], Load(b));
    RunOneMore(src, s, [Sync(b), Load(b)], ReadLog(b));
    assert [] + [Sync(b)] == [Sync(b)] && [Sync(b)] + [Load(b)] == [Sync(b), Load(b)];
    assert [Sync(b), Load(b)] + [ReadLog(b)] == [Sync(b), Load(b), ReadLog(b)];
    hide Run;
    ThreeSteps(src, s, b);
  }

  lemma ThreeSteps(src: Source, s: State, b: nat)
    requires s.Of(b).Idle?
    ensures var t := Take(src, Take(src, Take(src, s, Sync(b)), Load(b)), ReadLog(b));
      && |t.inboxes| == |s.inboxes| && t.cursor == s.cursor
      && (if (if s.cursor.Empty? then ReadableFrom(s.minSeq) else s.cursor.value) < |s.log|
          then t.Of(b).Delivering? && t.Of(b).head == |s.log| && t.Of(b).version == s.cursor.Version() && t.Of(b).k == 0
          else t.Of(b).Idle?)
  {
    hide LogEvents;
  }

  // ---- what a catch-up reads and reports ----

  /** From which entry on a catch-up delivers: the one after the cursor, or the first that is not folded if that is later or
      there is no cursor. */
  lemma ReadsFrom(src: Source, s: State, b: nat)
    requires s.Of(b).Synced?
    ensures var t, p := Take(src, s, Load(b)), s.Of(b);
      var first := if s.cursor.Holds? && s.cursor.value + 1 > p.minSeq then s.cursor.value + 1
                   else if s.cursor.Empty? && p.minSeq == 0 then 1 else p.minSeq;
      if (s.cursor.Holds? && s.cursor.value >= p.head) || (s.cursor.Empty? && p.minSeq > p.head) || p.head == 0 then t.Of(b).Idle?
      else t.Of(b).Loaded? && t.Of(b).start == first && t.Of(b).head == p.head
  {
  }

  /** A catch-up reports a gap exactly when it finds a cursor with folded entries above it, and those are the gap; one that finds
      no cursor leaves a cold start, and any other nothing. */
  lemma GapExactly(src: Source, s: State, b: nat)
    requires s.Of(b).Synced?
    ensures var before, after, minSeq := s.gaps, Take(src, s, Load(b)).gaps, s.Of(b).minSeq;
      if s.cursor.Empty? then after == before + [Gap(0, if minSeq == 0 then 0 else minSeq - 1, true)]
      else if s.cursor.value + 1 < minSeq then after == before + [Gap(s.cursor.value, minSeq - 1, false)]
      else after == before
  {
  }

  /** Nothing but a catch-up that loads a cursor below the folded entries ever reports a gap. */
  lemma GapsOnlyOnLoad(src: Source, s: State, step: Step)
    requires Take(src, s, step).gaps != s.gaps
    ensures step.Load? && s.Of(step.b).Synced? && (s.cursor.Empty? || s.cursor.value + 1 < s.Of(step.b).minSeq)
  {
  }
}
