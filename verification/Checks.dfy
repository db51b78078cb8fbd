/** Commit statuses: their worst-of, the record of one (commit, context), and the notification of a transition. */
module Checks {
  import opened Wrappers
  import C = CasMachine

  datatype CheckState = Success | Pending | Failure | Error

  function StateRank(s: CheckState): nat {
    match s
    case Success => 0
    case Pending => 1
    case Failure => 2
    case Error => 3
  }

  function Worst(states: seq<CheckState>): CheckState {
    if states == [] then Success
    else
      var w, last := Worst(states[..|states| - 1]), states[|states| - 1];
      if StateRank(last) > StateRank(w) then last else w
  }

  /** No contexts are as good as one that is pending. */
  function Combined(states: seq<CheckState>): CheckState {
    if states == [] then Pending else Worst(states)
  }

  method CombinedState(states: seq<CheckState>) returns (r: CheckState)
    ensures r == Combined(states)
  {
    r := Success;
    for i := 0 to |states|
      invariant r == Worst(states[..i])
    {
      assert states[..i + 1][..i] == states[..i];
      if StateRank(states[i]) > StateRank(r) { r := states[i]; }
    }
    assert states[..|states|] == states;
    if |states| == 0 { r := Pending; }
  }

  lemma {:induction false} NoneWorse(states: seq<CheckState>, i: nat)
    requires i < |states|
    ensures StateRank(states[i]) <= StateRank(Worst(states))
  {
    if i < |states| - 1 { NoneWorse(states[..|states| - 1], i); }
  }

  lemma {:induction false} WorstIsOne(states: seq<CheckState>)
    ensures Worst(states) in states || Worst(states) == Success
  {
    if states != [] {
      WorstIsOne(states[..|states| - 1]);
      assert states == states[..|states| - 1] + [states[|states| - 1]];
    }
  }

  /** The combined state is one of the states, and none is worse. */
  lemma CombinedIsWorst(states: seq<CheckState>)
    requires states != []
    ensures Combined(states) in states && forall s :: s in states ==> StateRank(s) <= StateRank(Combined(states))
  {
    hide Worst;
    WorstIsOne(states);
    forall s | s in states ensures StateRank(s) <= StateRank(Combined(states)) {
      var i :| 0 <= i < |states| && states[i] == s;
      NoneWorse(states, i);
    }
    if Worst(states) == Success { assert states[0] in states; }
  }

  /** Fewer contexts are never worse. */
  lemma CombinedMonotone(some: seq<CheckState>, all: seq<CheckState>)
    requires some != [] && forall s :: s in some ==> s in all
    ensures StateRank(Combined(some)) <= StateRank(Combined(all))
    ensures (forall s :: s in all ==> s in some) ==> Combined(some) == Combined(all)
  {
    CombinedIsWorst(some);
    assert Combined(some) in all;
    CombinedIsWorst(all);
  }

  // ---- the record ----

  /** What a report says. Times are the reporter's own clock's. */
  datatype Report = Report(state: CheckState, targetUrl: string, description: string,
                           startedAt: Option<string>, completedAt: Option<string>, creator: string, now: string)

  datatype Record = Record(state: CheckState, targetUrl: string, description: string, startedAt: Option<string>,
                           completedAt: Option<string>, creator: string, createdAt: string, updatedAt: string, version: nat)

  function CompletedAt(r: Report): Option<string> {
    if r.state.Pending? then None else r.completedAt
  }

  function Fresh(r: Report): Record {
    Record(r.state, r.targetUrl, r.description, r.startedAt, CompletedAt(r), r.creator, r.now, r.now, 1)
  }

  function Updated(cur: Record, r: Report): Record {
    Record(r.state, r.targetUrl, r.description, r.startedAt, CompletedAt(r), cur.creator, cur.createdAt, r.now, cur.version + 1)
  }

  const ATTEMPTS := 5

  /** Each report's mutator: a first report's record where there is none, else the record updated. A report that
      finds its key free creates the record without reading first, which is a read and a write with nothing between. */
  ghost function Writes(reports: nat -> Report): C.Mutators<Record> {
    (c: nat) => (cur: Option<Record>) => C.Write(if cur.None? then Fresh(reports(c)) else Updated(cur.value, reports(c)))
  }

  ghost function After(reports: nat -> Report, steps: seq<C.Step>): C.State<Record> {
    C.Run(Writes(reports), ATTEMPTS - 1, C.Initial(None), steps)
  }

  /** The k-th record written says what its own report says, and who and when the first report said. */
  ghost predicate Follows(reports: nat -> Report, s: C.State<Record>, k: nat)
    requires |s.authors| == |s.history|
  {
    k < |s.history| ==>
      var rec, r := s.history[k], reports(s.authors[k]);
      && rec.version == k + 1
      && rec.creator == reports(s.authors[0]).creator && rec.createdAt == reports(s.authors[0]).now
      && rec.state == r.state && rec.targetUrl == r.targetUrl && rec.description == r.description
      && rec.startedAt == r.startedAt && rec.completedAt == CompletedAt(r) && rec.updatedAt == r.now
  }

  lemma FollowsNext(reports: nat -> Report, s: C.State<Record>, k: nat)
    requires |s.authors| == |s.history| && k < |s.history|
    requires Writes(reports)(s.authors[k])(s.ValueAt(k)) == C.Write(s.history[k])
    requires if k == 0 then s.initial == None else Follows(reports, s, k - 1)
    ensures Follows(reports, s, k)
  {
  }

  lemma Written(reports: nat -> Report, s: C.State<Record>, k: nat)
    requires C.Serialized(Writes(reports), s) && k < |s.history|
    ensures |s.authors| == |s.history|
    ensures Writes(reports)(s.authors[k])(s.ValueAt(k)) == C.Write(s.history[k])
  {
    hide Writes;
  }

  lemma {:induction false} HistoryFollows(reports: nat -> Report, s: C.State<Record>, k: nat)
    requires C.Serialized(Writes(reports), s) && s.initial == None && k < |s.history| == |s.authors|
    ensures Follows(reports, s, k)
    decreases k
  {
    hide Writes, Follows, C.Serialized;
    if k > 0 { HistoryFollows(reports, s, k - 1); }
    Written(reports, s, k);
    FollowsNext(reports, s, k);
  }

  lemma {:induction false} StartsEmpty(reports: nat -> Report, steps: seq<C.Step>)
    ensures After(reports, steps).initial == None
    decreases |steps|
  {
    if steps != [] { StartsEmpty(reports, steps[..|steps| - 1]); }
  }

  /** However many reporters race on one (commit, context): every write is one report's, the version counts the
      writes, creator and creation time are the first report's for good, and the record is the last committed
      report's. A report that ran out of attempts wrote nothing, and lost all five to others that did. */
  lemma ReportsCounted(reports: nat -> Report, steps: seq<C.Step>)
    ensures var s := After(reports, steps);
      && |s.authors| == |s.history|
      && (forall k :: 0 <= k < |s.history| ==> Follows(reports, s, k))
      && (s.cell.Holds? ==> s.history != [] && s.cell.value == s.history[|s.history| - 1] && s.cell.value.version == |s.history|)
      && (forall c :: c in s.calls && s.calls[c].phase == C.Done(C.Exhausted) ==> c !in s.authors && |s.history| >= 5)
      && (forall c :: c in s.calls && s.calls[c].phase.Reading? ==> s.calls[c].phase.attempt < 5)
      && (forall j, k :: 0 <= j < k < |s.authors| ==> s.authors[j] != s.authors[k])
  {
    hide Follows, Writes, C.Serialized, C.Accounted, After;
    Whole(reports, steps);
    var s := After(reports, steps);
    OnceEach(reports, s);
    forall k | 0 <= k < |s.history| ensures Follows(reports, s, k) { HistoryFollows(reports, s, k); }
    if s.cell.Holds? { LastCounts(reports, s); }
    ExhaustedWroteNothing(reports, s);
    forall c | c in s.calls
      ensures s.calls[c].phase == C.Done(C.Exhausted) ==> |s.history| >= 5
      ensures s.calls[c].phase.Reading? ==> s.calls[c].phase.attempt < 5 { FiveAttempts(reports, steps, c); }
  }

  lemma FiveAttempts(reports: nat -> Report, steps: seq<C.Step>, c: nat)
    ensures var s := After(reports, steps);
      c in s.calls ==>
        && (s.calls[c].phase == C.Done(C.Exhausted) ==> |s.history| >= 5)
        && (s.calls[c].phase.Reading? ==> s.calls[c].phase.attempt < 5)
  {
    hide Writes;
    assert C.Run(Writes(reports), ATTEMPTS - 1, C.Initial(None), []) == C.Initial(None);
    C.GivesUpAfterLosses(Writes(reports), ATTEMPTS - 1, None, [], steps, c);
  }

  lemma Whole(reports: nat -> Report, steps: seq<C.Step>)
    ensures var s := After(reports, steps);
      C.Serialized(Writes(reports), s) && C.Accounted(Writes(reports), s) && s.initial == None
  {
    hide Writes, C.Serialized, C.Accounted;
    C.NoLostUpdate(Writes(reports), ATTEMPTS - 1, None, steps);
    StartsEmpty(reports, steps);
  }

  lemma OnceEach(reports: nat -> Report, s: C.State<Record>)
    requires C.Serialized(Writes(reports), s)
    ensures |s.authors| == |s.history| && forall j, k :: 0 <= j < k < |s.authors| ==> s.authors[j] != s.authors[k]
  {
    hide Writes;
  }

  lemma ExhaustedWroteNothing(reports: nat -> Report, s: C.State<Record>)
    requires C.Accounted(Writes(reports), s)
    ensures forall c :: c in s.calls && s.calls[c].phase == C.Done(C.Exhausted) ==> c !in s.authors
  {
    hide Writes;
  }

  lemma LastCounts(reports: nat -> Report, s: C.State<Record>)
    requires C.Serialized(Writes(reports), s) && s.initial == None && s.cell.Holds?
    ensures s.history != [] && s.cell.value == s.history[|s.history| - 1] && s.cell.value.version == |s.history|
  {
    HistoryFollows(reports, s, |s.history| - 1);
  }

  // ---- the notification of a transition ----

  predicate Bad(s: CheckState) {
    s == Failure || s == Error
  }

  /** A record read from the store into memory. */
  class StatusDoc {
    var value: Record

    constructor (r: Record)
      ensures value == r
    {
      value := r;
    }

    method Update(r: Report)
      modifies this
      ensures value == Updated(old(value), r)
    {
      value := value.(state := r.state);
      value := value.(targetUrl := r.targetUrl, description := r.description, startedAt := r.startedAt);
      value := value.(completedAt := r.completedAt);
      if r.state.Pending? { value := value.(completedAt := None); }
      value := value.(updatedAt := r.now);
      value := value.(version := value.version + 1);
    }
  }

  /** A report whose record changed: the documented rule notifies when the state becomes bad and was not. */
  predicate ShouldNotify(before: Option<Record>, now: CheckState) {
    Bad(now) && (before.None? || !Bad(before.value.state))
  }

  /** What the write path does: it remembers the previous record by reference and then updates that very record. */
  predicate Notifies(before: Option<Record>, now: CheckState) {
    Bad(now) && before.None?
  }

  /** The write path of a report that nobody races, on the stored record. */
  method ReportStatus(stored: Option<Record>, r: Report) returns (written: Record, notified: bool)
    ensures written == if stored.None? then Fresh(r) else Updated(stored.value, r)
    ensures notified == Notifies(stored, r.state)
  {
    var result := Fresh(r);
    var prev: StatusDoc? := null;
    if stored.Some? {
      var cur := new StatusDoc(stored.value);
      prev := cur;
      cur.Update(r);
      result := cur.value;
    }
    written := result;
    notified := Bad(result.state) && (prev == null || !Bad(prev.value.state));
  }

  /** The transition from a good state to a bad one on a record that exists is never notified, and that is exactly
      where the write path falls short of the rule. */
  lemma TransitionMissed(before: Option<Record>, now: CheckState)
    ensures Notifies(before, now) ==> ShouldNotify(before, now)
    ensures ShouldNotify(before, now) && !Notifies(before, now) <==>
              && before.Some? && (before.value.state == Success || before.value.state == Pending)
              && (now == Failure || now == Error)
    ensures Notifies(before, now) <==> before.None? && (now == Failure || now == Error)
  {
  }

  // ---- the worst state, case by case ----

  /** Error if any context errs; else failure if any fails; else pending if any is, or there are none; else success. */
  lemma CombinedExactly(states: seq<CheckState>)
    ensures Combined(states) == Error <==> Error in states
    ensures Combined(states) == Failure <==> Error !in states && Failure in states
    ensures Combined(states) == Success <==> states != [] && forall s :: s in states ==> s == Success
    ensures Combined(states) == Pending <==> Error !in states && Failure !in states && (states == [] || Pending in states)
  {
    hide Worst;
    if states != [] {
      CombinedIsWorst(states);
      assert states[0] in states;
    }
  }
}
