/** The build lease: one object that hosts create, steal when it has expired, renew while they build, and delete. */
module Lease {
  // A host acts on the store in separate steps, and other hosts act in between. The store never uses a version again.
  // Times are seconds; a host's clock is real time plus its skew.

  import opened Wrappers

  const TTL := 1800
  const SKEW := 2
  const MAX_ATTEMPTS := 4

  datatype Lease = Lease(holder: nat, epoch: nat, expires: Option<int>)

  datatype Stored = Stored(lease: Lease, version: nat)

  /** Where a host is in acquiring, holding or releasing. `at` is the clock reading an attempt began with; `pinned` is
      the stored lease at the version a renewal relies on, which the host does not look at. A host whose renewal found
      the lease gone or changed stops renewing and builds on. */
  datatype Phase =
    | Idle
    | Trying(attempt: nat, at: int)
    | SawNone(attempt: nat, at: int)
    | SawSome(attempt: nat, at: int, version: nat)
    | Tested(attempt: nat, at: int, version: nat, cur: Lease)
    | Holding(mine: Lease)
    | Renewing(mine: Lease, version: nat, pinned: Lease)
    | Unrenewed(mine: Lease)
    | Releasing
    | ReleaseSaw(version: nat)
    | ReleaseTested(version: nat, holder: nat)
  {
    /** The host builds under the lease. */
    predicate Holds() {
      Holding? || Renewing? || Unrenewed?
    }
  }

  datatype State = State(now: int, cell: Option<Stored>, nextVersion: nat, hosts: map<nat, Phase>, skew: map<nat, int>)
  {
    function Of(h: nat): Phase {
      if h in hosts then hosts[h] else Idle
    }

    function Clock(h: nat): int {
      now + (if h in skew then skew[h] else 0)
    }

    function With(h: nat, p: Phase): State {
      this.(hosts := hosts[h := p])
    }

    predicate Unchanged(version: nat) {
      cell.Some? && cell.value.version == version
    }

    function Store(lease: Lease): State {
      this.(cell := Some(Stored(lease, nextVersion)), nextVersion := nextVersion + 1)
    }
  }

  /** One step of a host, or time passing. Act takes whatever step the host's phase calls for next; Renew starts a
      heartbeat; Finish ends the build; Fail is a store error. */
  datatype Step = Tick(seconds: nat) | Start(h: nat) | Act(h: nat) | Renew(h: nat) | Finish(h: nat) | Fail(h: nat)

  predicate Expired(cur: Lease, at: int) {
    cur.expires.None? || at > cur.expires.value + SKEW
  }

  /** A lost race: read the clock and look again, until the attempts run out. */
  function Again(s: State, h: nat, attempt: nat): Phase {
    if attempt + 1 < MAX_ATTEMPTS then Trying(attempt + 1, s.Clock(h)) else Idle
  }

  function Acquire(s: State, h: nat, at: int, epoch: nat): State {
    var lease := Lease(h, epoch, Some(at + TTL));
    s.Store(lease).With(h, Holding(lease))
  }

  function Acting(s: State, h: nat): State {
    match s.Of(h)
    case Trying(attempt, at) =>
      if s.cell.None? then s.With(h, SawNone(attempt, at)) else s.With(h, SawSome(attempt, at, s.cell.value.version))
    case SawNone(attempt, at) =>
      if s.cell.None? then Acquire(s, h, at, 1) else s.With(h, Again(s, h, attempt))
    case SawSome(attempt, at, version) =>
      if s.cell.None? then s.With(h, Idle) else s.With(h, Tested(attempt, at, version, s.cell.value.lease))
    case Tested(attempt, at, version, cur) =>
      if !Expired(cur, at) && cur.holder != h then s.With(h, Idle)
      else if s.Unchanged(version) then Acquire(s, h, at, cur.epoch + 1)
      else s.With(h, Again(s, h, attempt))
    case Renewing(mine, version, _) =>
      if s.Unchanged(version) then s.Store(mine).With(h, Holding(mine)) else s.With(h, Unrenewed(mine))
    case Releasing =>
      if s.cell.None? then s.With(h, Idle) else s.With(h, ReleaseSaw(s.cell.value.version))
    case ReleaseSaw(version) =>
      if s.cell.None? || s.cell.value.lease.holder != h then s.With(h, Idle)
      else s.With(h, ReleaseTested(version, s.cell.value.lease.holder))
    case ReleaseTested(version, _) =>
      if s.Unchanged(version) then s.(cell := None).With(h, Idle) else s.With(h, Idle)
    case _ => s
  }

  function Take(s: State, step: Step): State {
    match step
    case Tick(seconds) => s.(now := s.now + seconds)
    case Start(h) => if s.Of(h).Idle? then s.With(h, Trying(0, s.Clock(h))) else s
    case Act(h) => Acting(s, h)
    case Renew(h) =>
      (match s.Of(h)
       case Holding(mine) =>
         if s.cell.None? then s.With(h, Unrenewed(mine))
         else s.With(h, Renewing(Lease(h, mine.epoch + 1, Some(s.Clock(h) + TTL)), s.cell.value.version, s.cell.value.lease))
       case _ => s)
    case Finish(h) => if s.Of(h).Holds() then s.With(h, Releasing) else s
    case Fail(h) =>
      (match s.Of(h)
       case Holding(_) => s
       case Unrenewed(_) => s
       case Renewing(mine, _, _) => s.With(h, Holding(mine))
       case _ => s.With(h, Idle))
  }

  // ---- what holds whatever the timing ----

  ghost predicate PhaseOK(s: State, h: nat) {
    match s.Of(h)
    case Trying(_, at) => at <= s.Clock(h)
    case SawNone(_, at) => at <= s.Clock(h)
    case SawSome(_, at, version) => at <= s.Clock(h) && version < s.nextVersion
    case Tested(_, at, version, cur) => at <= s.Clock(h) && version < s.nextVersion && (s.Unchanged(version) ==> s.cell.value.lease == cur)
    case Holding(mine) => mine.holder == h
    case Unrenewed(mine) => mine.holder == h
    case Renewing(mine, version, pinned) =>
      mine.holder == h && version < s.nextVersion && (s.Unchanged(version) ==> s.cell.value.lease == pinned)
    case ReleaseSaw(version) => version < s.nextVersion
    case ReleaseTested(version, holder) => version < s.nextVersion && holder == h && (s.Unchanged(version) ==> s.cell.value.lease.holder == holder)
    case _ => true
  }

  ghost predicate Sane(s: State) {
    && (s.cell.Some? ==> s.cell.value.version < s.nextVersion)
    && forall h: nat :: PhaseOK(s, h)
  }

  lemma OthersStayOK(s: State, t: State, h: nat)
    requires Sane(s) && t.skew == s.skew && t.now == s.now && t.nextVersion >= s.nextVersion && t.Of(h) == s.Of(h)
    requires t.cell == s.cell || t.cell.None? || t.cell.value.version == s.nextVersion
    ensures PhaseOK(t, h)
  {
    assert PhaseOK(s, h);
  }

  lemma TakeKeepsSane(s: State, step: Step)
    requires Sane(s)
    ensures Sane(Take(s, step))
  {
    var t := Take(s, step);
    if step.Tick? {
      forall h: nat ensures PhaseOK(t, h) { assert PhaseOK(s, h); }
    } else {
      forall h: nat ensures PhaseOK(t, h) {
        if h == step.h { OwnStaysOK(s, step); } else { OthersStayOK(s, t, h); }
      }
    }
  }

  lemma OwnStaysOK(s: State, step: Step)
    requires Sane(s) && !step.Tick?
    ensures PhaseOK(Take(s, step), step.h)
  {
    assert PhaseOK(s, step.h);
  }

  function Run(s: State, steps: seq<Step>): State {
    if steps == [] then s else Take(Run(s, steps[..|steps| - 1]), steps[|steps| - 1])
  }

  /** Nothing held, no host at work, and nothing or some old lease in the store. */
  ghost predicate Initial(s: State) {
    s.hosts == map[] && (s.cell.Some? ==> s.cell.value.version < s.nextVersion)
  }

  lemma {:induction false} RunKeepsSane(s: State, steps: seq<Step>)
    requires Initial(s)
    ensures Sane(Run(s, steps))
  {
    if steps != [] {
      RunKeepsSane(s, steps[..|steps| - 1]);
      TakeKeepsSane(Run(s, steps[..|steps| - 1]), steps[|steps| - 1]);
    }
  }

  /** In any run, a step by which host h comes to hold the lease either creates it where there was none, or replaces
      exactly the lease h tested: one that h itself held, or that had expired on h's clock. */
  lemma AcquireReplacesTested(s: State, steps: seq<Step>, step: Step)
    requires Initial(s) && !step.Tick?
    requires var a := Run(s, steps); !a.Of(step.h).Holds() && Take(a, step).Of(step.h).Holds()
    ensures var a, b := Run(s, steps), Take(Run(s, steps), step);
      && b.cell.Some? && b.cell.value.lease.holder == step.h
      && (a.cell.None? || (a.Of(step.h).Tested? && a.cell.value.lease == a.Of(step.h).cur
                           && (a.cell.value.lease.holder == step.h || Expired(a.cell.value.lease, a.Of(step.h).at))
                           && b.cell.value.lease.epoch == a.cell.value.lease.epoch + 1))
  {
    RunKeepsSane(s, steps);
    assert PhaseOK(Run(s, steps), step.h);
  }

  /** In any run, a step that empties the store deletes a lease that still names the host that deletes it. */
  lemma ReleaseDeletesOwn(s: State, steps: seq<Step>, step: Step)
    requires Initial(s)
    requires Run(s, steps).cell.Some? && Take(Run(s, steps), step).cell.None?
    ensures step.Act? && Run(s, steps).cell.value.lease.holder == step.h
  {
    RunKeepsSane(s, steps);
    if !step.Tick? { assert PhaseOK(Run(s, steps), step.h); }
  }

  // ---- when two hosts hold the lease ----

  ghost predicate HoldersNamed(s: State) {
    forall h: nat :: s.Of(h).Holds() ==> s.cell.Some? && s.cell.value.lease.holder == h
  }

  /** The step takes the lease from another host that still builds under it, because it has expired on this host's
      clock. */
  predicate Usurps(s: State, step: Step) {
    step.Act? && s.Of(step.h).Tested? &&
    var p := s.Of(step.h);
    s.Unchanged(p.version) && Expired(p.cur, p.at) && p.cur.holder != step.h && s.Of(p.cur.holder).Holds()
  }

  lemma OwnStepNames(s: State, step: Step)
    requires Sane(s) && HoldersNamed(s) && !step.Tick? && Take(s, step).Of(step.h).Holds()
    ensures var t := Take(s, step); t.cell.Some? && t.cell.value.lease.holder == step.h
  {
    assert PhaseOK(s, step.h);
  }

  /** Of every step: the stored lease still names whoever holds it, exactly unless the step usurps it. */
  lemma StepNamesExactly(s: State, step: Step)
    requires Sane(s) && HoldersNamed(s) && !step.Tick?
    ensures HoldersNamed(Take(s, step)) <==> !Usurps(s, step)
  {
    var t := Take(s, step);
    assert PhaseOK(s, step.h);
    if Usurps(s, step) {
      var other := s.Of(step.h).cur.holder;
      assert t.Of(other).Holds() && t.cell.value.lease.holder != other;
    } else {
      forall h: nat | t.Of(h).Holds() ensures t.cell.Some? && t.cell.value.lease.holder == h {
        if h == step.h { OwnStepNames(s, step); } else { assert s.Of(h).Holds(); }
      }
    }
  }

  ghost predicate TwoHold(s: State) {
    exists g: nat, h: nat :: g != h && s.Of(g).Holds() && s.Of(h).Holds()
  }

  function Upto(s: State, steps: seq<Step>, i: nat): State
    requires i <= |steps|
  {
    Run(s, steps[..i])
  }

  lemma UptoNext(s: State, steps: seq<Step>, i: nat)
    requires i < |steps|
    ensures Upto(s, steps, i + 1) == Take(Upto(s, steps, i), steps[i])
  {
    hide Take;
    assert steps[..i + 1][..i] == steps[..i];
  }

  lemma {:induction false} NamedUnlessUsurped(s: State, steps: seq<Step>, i: nat)
    requires Initial(s) && i <= |steps|
    requires forall k :: 0 <= k < i ==> !Usurps(Upto(s, steps, k), steps[k])
    ensures HoldersNamed(Upto(s, steps, i))
  {
    if i > 0 {
      hide Take, Usurps, Sane, HoldersNamed, Upto;
      NamedUnlessUsurped(s, steps, i - 1);
      UptoNext(s, steps, i - 1);
      UptoSane(s, steps, i - 1);
      if steps[i - 1].Tick? {
        TickNames(Upto(s, steps, i - 1), steps[i - 1]);
      } else {
        StepNamesExactly(Upto(s, steps, i - 1), steps[i - 1]);
      }
    }
  }

  lemma UptoSane(s: State, steps: seq<Step>, i: nat)
    requires Initial(s) && i <= |steps|
    ensures Sane(Upto(s, steps, i))
  {
    RunKeepsSane(s, steps[..i]);
  }

  lemma TickNames(s: State, step: Step)
    requires HoldersNamed(s) && step.Tick?
    ensures HoldersNamed(Take(s, step))
  {
    forall h: nat | Take(s, step).Of(h).Holds() ensures s.cell.Some? && s.cell.value.lease.holder == h { assert s.Of(h).Holds(); }
  }

  lemma NamedOnlyOne(s: State)
    requires HoldersNamed(s)
    ensures !TwoHold(s)
  {
  }

  lemma UsurpedTwoHold(s: State, step: Step)
    requires Usurps(s, step)
    ensures TwoHold(Take(s, step))
  {
    var other := s.Of(step.h).cur.holder;
    assert Take(s, step).Of(step.h).Holds() && Take(s, step).Of(other).Holds();
  }

  /** Exclusion, exactly: whatever the clocks and however late the heartbeats, there is a moment of the run when two
      hosts hold the lease if and only if some step usurps it. */
  lemma ExclusionFailsExactly(s: State, steps: seq<Step>)
    requires Initial(s)
    ensures (exists i :: 0 <= i <= |steps| && TwoHold(Upto(s, steps, i))) <==>
            (exists i :: 0 <= i < |steps| && Usurps(Upto(s, steps, i), steps[i]))
  {
    hide Take, Usurps, Upto, TwoHold, HoldersNamed, Initial;
    if exists i :: 0 <= i < |steps| && Usurps(Upto(s, steps, i), steps[i]) {
      var i :| 0 <= i < |steps| && Usurps(Upto(s, steps, i), steps[i]);
      UptoNext(s, steps, i);
      UsurpedTwoHold(Upto(s, steps, i), steps[i]);
      assert TwoHold(Upto(s, steps, i + 1));
    } else {
      forall i | 0 <= i <= |steps| ensures !TwoHold(Upto(s, steps, i)) {
        NamedUnlessUsurped(s, steps, i);
        NamedOnlyOne(Upto(s, steps, i));
      }
    }
  }

  // ---- one holder, when heartbeats are in time ----

  ghost predicate ClocksClose(s: State) {
    forall g: nat, h: nat :: s.Clock(g) <= s.Clock(h) + SKEW
  }

  /** A host that builds has not, by its own clock, passed the expiry of a lease that names it. */
  ghost predicate InTime(s: State) {
    forall h: nat :: s.Of(h).Holds() && s.cell.Some? && s.cell.value.lease.holder == h ==>
      s.cell.value.lease.expires.Some? && s.Clock(h) <= s.cell.value.lease.expires.value
  }

  /** While h holds the lease in time, no step of another host touches the stored lease. */
  lemma OthersCannotTake(s: State, step: Step, h: nat)
    requires Sane(s) && ClocksClose(s) && InTime(s) && HoldersNamed(s)
    requires !step.Tick? && step.h != h && s.Of(h).Holds()
    ensures Take(s, step).cell == s.cell
  {
    assert PhaseOK(s, step.h);
    assert s.Clock(step.h) <= s.Clock(h) + SKEW;
    assert s.cell.Some? && s.cell.value.lease.holder == h;
    if s.Of(step.h).Tested? && s.Unchanged(s.Of(step.h).version) {
      assert !Expired(s.cell.value.lease, s.Of(step.h).at);
    }
  }

  lemma TakeKeepsNamed(s: State, step: Step)
    requires Sane(s) && ClocksClose(s) && InTime(s) && HoldersNamed(s)
    ensures HoldersNamed(Take(s, step))
  {
    if step.Tick? {
      TickNames(s, step);
    } else {
      if Usurps(s, step) { OthersCannotTake(s, step, s.Of(step.h).cur.holder); }
      StepNamesExactly(s, step);
    }
  }

  lemma {:induction false} RunKeepsNamed(s: State, steps: seq<Step>)
    requires Initial(s) && ClocksClose(s) && forall i :: 0 <= i <= |steps| ==> InTime(Run(s, steps[..i]))
    ensures HoldersNamed(Run(s, steps)) && ClocksClose(Run(s, steps))
  {
    if steps != [] {
      var rest := steps[..|steps| - 1];
      forall i | 0 <= i <= |rest| ensures InTime(Run(s, rest[..i])) { assert rest[..i] == steps[..i]; }
      RunKeepsNamed(s, rest);
      RunKeepsSane(s, rest);
      assert rest[..|rest|] == rest;
      TakeKeepsNamed(Run(s, rest), steps[|steps| - 1]);
      SameClocks(Run(s, rest), steps[|steps| - 1]);
    }
  }

  lemma SameClocks(s: State, step: Step)
    requires ClocksClose(s)
    ensures ClocksClose(Take(s, step))
  {
    var t := Take(s, step);
    forall g: nat, h: nat ensures t.Clock(g) <= t.Clock(h) + SKEW {
      assert s.Clock(g) <= s.Clock(h) + SKEW;
    }
  }

  /** With clocks at most two seconds apart, as long as acquisitions and heartbeats land before the expiry they
      renew, at most one host builds under the lease at any time. */
  lemma OneHolder(s: State, steps: seq<Step>, g: nat, h: nat)
    requires Initial(s) && ClocksClose(s) && forall i :: 0 <= i <= |steps| ==> InTime(Run(s, steps[..i]))
    requires Run(s, steps).Of(g).Holds() && Run(s, steps).Of(h).Holds()
    ensures g == h
  {
    RunKeepsNamed(s, steps);
  }

  // ---- late heartbeats ----

  /** In any run, a renewal replaces another host's lease if and only if the lease at the version it pinned names
      another host and that version is unchanged: whose lease it renews it never looks at. */
  lemma RenewalReplacesExactly(s: State, steps: seq<Step>, h: nat)
    requires Initial(s) && Run(s, steps).Of(h).Renewing?
    ensures var a, b := Run(s, steps), Take(Run(s, steps), Act(h));
      (a.cell.Some? && a.cell.value.lease.holder != h && b.cell.Some? && b.cell.value.lease.holder == h) <==>
      (a.Of(h).pinned.holder != h && a.Unchanged(a.Of(h).version))
  {
    RunKeepsSane(s, steps);
    assert PhaseOK(Run(s, steps), h);
  }

  /** Host g takes the lease and falls silent until it has expired on every clock; host h takes it over; then g's
      heartbeat comes after all. */
  function LateRun(g: nat, h: nat): seq<Step> {
    [Start(g), Act(g), Act(g), Tick(TTL + 2 * SKEW + 1), Start(h), Act(h), Act(h), Act(h), Renew(g), Act(g)]
  }

  function TakeAll(s: State, steps: seq<Step>): State
    decreases |steps|
  {
    if steps == [] then s else TakeAll(Take(s, steps[0]), steps[1..])
  }

  lemma {:induction false} TakeAllIsRun(s: State, steps: seq<Step>)
    ensures TakeAll(s, steps) == Run(s, steps)
    decreases |steps|
  {
    hide Take;
    if |steps| > 1 {
      var n := |steps| - 1;
      TakeAllIsRun(s, steps[..n]);
      TakeAllIsRun(Take(s, steps[0]), steps[1..]);
      TakeAllIsRun(Take(s, steps[0]), steps[1..n]);
      assert steps[1..][..n - 1] == steps[1..n] && steps[..n][1..] == steps[1..n] && steps[1..][n - 1] == steps[n];
    } else if |steps| == 1 {
      assert steps[1..] == [] && steps[..0] == [];
    }
  }

  lemma LateTakeover(s: State, g: nat, h: nat)
    requires Initial(s) && s.cell.None? && ClocksClose(s) && g != h
    ensures var t := Take(Take(Take(Take(Take(Take(Take(Take(s, Start(g)), Act(g)), Act(g)), Tick(TTL + 2 * SKEW + 1)), Start(h)), Act(h)), Act(h)), Act(h));
      t.Of(g).Holding? && t.Of(h).Holding? && t.cell.Some? && t.cell.value.lease.holder == h
  {
    assert s.Clock(g) <= s.Clock(h) + SKEW;
    var held := Take(Take(Take(s, Start(g)), Act(g)), Act(g));
    assert held.Of(g).Holding? && held.cell == Some(Stored(Lease(g, 1, Some(s.Clock(g) + TTL)), s.nextVersion));
    assert held.Of(h).Idle? && held.Clock(h) == s.Clock(h);
    ExpiredTakeover(Take(held, Tick(TTL + 2 * SKEW + 1)), g, h);
  }

  lemma ExpiredTakeover(s: State, g: nat, h: nat)
    requires g != h && s.Of(g).Holding? && s.Of(h).Idle? && s.cell.Some? && Expired(s.cell.value.lease, s.Clock(h))
    ensures var t := Take(Take(Take(Take(s, Start(h)), Act(h)), Act(h)), Act(h));
      t.Of(g).Holding? && t.Of(h).Holding? && t.cell.Some? && t.cell.value.lease.holder == h
  {
  }

  lemma TakeFirst(s: State, step: Step, more: seq<Step>)
    ensures TakeAll(s, [step] + more) == TakeAll(Take(s, step), more)
  {
    hide Take;
    assert ([step] + more)[1..] == more;
  }

  lemma TakeFive(s: State, a: Step, b: Step, c: Step, d: Step, e: Step, more: seq<Step>)
    ensures TakeAll(s, [a, b, c, d, e] + more) == TakeAll(Take(Take(Take(Take(Take(s, a), b), c), d), e), more)
  {
    hide Take, TakeAll;
    assert [a, b, c, d, e] + more == [a] + ([b] + ([c] + ([d] + ([e] + more))));
    TakeFirst(s, a, [b] + ([c] + ([d] + ([e] + more))));
    TakeFirst(Take(s, a), b, [c] + ([d] + ([e] + more)));
    TakeFirst(Take(Take(s, a), b), c, [d] + ([e] + more));
    TakeFirst(Take(Take(Take(s, a), b), c), d, [e] + more);
    TakeFirst(Take(Take(Take(Take(s, a), b), c), d), e, more);
  }

  lemma TakeTen(s: State, a: Step, b: Step, c: Step, d: Step, e: Step, f: Step, g: Step, h: Step, i: Step, j: Step)
    ensures TakeAll(s, [a, b, c, d, e, f, g, h, i, j]) ==
            Take(Take(Take(Take(Take(Take(Take(Take(Take(Take(s, a), b), c), d), e), f), g), h), i), j)
  {
    hide Take;
    TakeFive(s, a, b, c, d, e, [f, g, h, i, j]);
    TakeFive(Take(Take(Take(Take(Take(s, a), b), c), d), e), f, g, h, i, j, []);
    assert [a, b, c, d, e] + [f, g, h, i, j] == [a, b, c, d, e, f, g, h, i, j];
    assert [f, g, h, i, j] + [] == [f, g, h, i, j];
  }

  /** With clocks as close as they should be, that run ends with both hosts holding the lease, and the store naming the
      one whose lease had expired. */
  lemma LateHeartbeatOverwrites(s: State, g: nat, h: nat)
    requires Initial(s) && s.cell.None? && ClocksClose(s) && g != h
    ensures var t := Run(s, LateRun(g, h));
      t.Of(g).Holds() && t.Of(h).Holds() && t.cell.Some? && t.cell.value.lease.holder == g
  {
    hide Initial, Take;
    LateTakeover(s, g, h);
    TakeTen(s, Start(g), Act(g), Act(g), Tick(TTL + 2 * SKEW + 1), Start(h), Act(h), Act(h), Act(h), Renew(g), Act(g));
    TakeAllIsRun(s, LateRun(g, h));
    var t := Take(Take(Take(Take(Take(Take(Take(Take(s, Start(g)), Act(g)), Act(g)), Tick(TTL + 2 * SKEW + 1)), Start(h)), Act(h)), Act(h)), Act(h));
    RenewsOverOther(t, g, h);
  }

  lemma RenewsOverOther(s: State, g: nat, h: nat)
    requires g != h && s.Of(g).Holding? && s.Of(h).Holding? && s.cell.Some?
    ensures var t := Take(Take(s, Renew(g)), Act(g)); t.Of(g).Holds() && t.Of(h).Holds() && t.cell.Some? && t.cell.value.lease.holder == g
  {
  }

  // ---- a host by itself ----

  function AcquireSteps(h: nat): seq<Step> {
    [Start(h), Act(h), Act(h), Act(h)]
  }

  /** What a host that nobody disturbs gets: the lease for half an hour by its clock, with the next epoch, if there is none, if it
      is its own, or if it has expired more than two seconds ago; otherwise nothing. */
  lemma AcquireAlone(s: State, h: nat)
    requires Sane(s) && s.Of(h).Idle?
    ensures var t, clock := Run(s, AcquireSteps(h)), s.now + (if h in s.skew then s.skew[h] else 0);
      if s.cell.Some? && s.cell.value.lease.holder != h && s.cell.value.lease.expires.Some?
         && clock <= s.cell.value.lease.expires.value + 2
      then t.cell == s.cell && !t.Of(h).Holds()
      else t.Of(h).Holds() && t.cell.Some?
           && t.cell.value.lease == Lease(h, if s.cell.None? then 1 else s.cell.value.lease.epoch + 1, Some(clock + 1800))
  {
    hide Run;
    RunFour(s, Start(h), Act(h), Act(h), Act(h));
    StartAlone(s, h);
    var b := Take(Take(s, Start(h)), Act(h));
    if s.cell.None? {
      assert Take(b, Act(h)).Of(h).Holds() && Take(Take(b, Act(h)), Act(h)) == Take(b, Act(h));
    } else {
      TestAlone(b, h);
    }
  }

  lemma StartAlone(s: State, h: nat)
    requires s.Of(h).Idle?
    ensures Take(Take(s, Start(h)), Act(h)) ==
            s.With(h, Trying(0, s.Clock(h))).With(h, if s.cell.None? then SawNone(0, s.Clock(h)) else SawSome(0, s.Clock(h), s.cell.value.version))
  {
    hide Run;
  }

  lemma TestAlone(b: State, h: nat)
    requires b.Of(h).SawSome? && b.cell.Some? && b.Of(h).version == b.cell.value.version
    ensures var t, cur, at := Take(Take(b, Act(h)), Act(h)), b.cell.value.lease, b.Of(h).at;
      if cur.holder != h && cur.expires.Some? && at <= cur.expires.value + 2
      then t.cell == b.cell && t.Of(h).Idle?
      else t.Of(h).Holds() && t.cell.Some? && t.cell.value.lease == Lease(h, cur.epoch + 1, Some(at + 1800))
  {
    hide Run;
    var c := Take(b, Act(h));
    assert c.Of(h) == Tested(b.Of(h).attempt, b.Of(h).at, b.Of(h).version, b.cell.value.lease) && c.cell == b.cell;
  }

  lemma RunFour(s: State, a: Step, b: Step, c: Step, d: Step)
    ensures Run(s, [a, b]) == Take(Take(s, a), b)
    ensures Run(s, [a, b, c, d]) == Take(Take(Take(Take(s, a), b), c), d)
  {
    hide Take;
    assert Run(s, []) == s;
    RunOneMore(s, [], a);
    RunOneMore(s, [a], b);
    RunOneMore(s, [a, b], c);
    RunOneMore(s, [a, b, c], d);
    assert [] + [a] == [a] && [a] + [b] == [a, b] && [a, b] + [c] == [a, b, c] && [a, b, c] + [d] == [a, b, c, d];
  }

  lemma RunOneMore(s: State, steps: seq<Step>, step: Step)
    ensures Run(s, steps + [step]) == Take(Run(s, steps), step)
  {
    hide Take;
    assert (steps + [step])[..|steps|] == steps;
  }

  /** A heartbeat that nobody disturbs renews the stored lease for half an hour more, with the next epoch. */
  lemma HeartbeatAlone(s: State, h: nat)
    requires s.Of(h).Holding? && s.cell.Some? && s.cell.value.lease == s.Of(h).mine && s.Of(h).mine.holder == h
    ensures var t, clock := Run(s, [Renew(h), Act(h)]), s.now + (if h in s.skew then s.skew[h] else 0);
      && t.Of(h).Holds() && t.cell.Some?
      && t.cell.value.lease == Lease(h, s.cell.value.lease.epoch + 1, Some(clock + 1800))
  {
    hide Run;
    RunFour(s, Renew(h), Act(h), Act(h), Act(h));
    var b := Take(s, Renew(h));
    assert b.Of(h) == Renewing(Lease(h, s.Of(h).mine.epoch + 1, Some(s.Clock(h) + 1800)), s.cell.value.version, s.cell.value.lease);
  }

  /** A host that ends its build deletes the lease if it names the host, and leaves it otherwise. */
  lemma ReleaseAlone(s: State, h: nat)
    requires s.Of(h).Holds()
    ensures var t := Run(s, [Finish(h), Act(h), Act(h), Act(h)]);
      && t.Of(h).Idle?
      && t.cell == if s.cell.Some? && s.cell.value.lease.holder == h then None else s.cell
  {
    RunFour(s, Finish(h), Act(h), Act(h), Act(h));
  }

  // ---- lost races ----

  /** How often the stored lease was written or deleted. */
  function Changes(s: State, steps: seq<Step>): nat {
    if steps == [] then 0
    else
      var rest := steps[..|steps| - 1];
      Changes(s, rest) + if Run(s, steps).cell == Run(s, rest).cell then 0 else 1
  }

  /** The host would take the lease but another got there first. */
  predicate LosesRace(s: State, h: nat) {
    match s.Of(h)
    case SawNone(_, _) => s.cell.Some?
    case Tested(_, at, version, cur) => (Expired(cur, at) || cur.holder == h) && !s.Unchanged(version)
    case _ => false
  }

  /** Each attempt so far was lost to a change of its own. */
  ghost predicate Lost(s: State, h: nat, changes: nat) {
    match s.Of(h)
    case Trying(n, _) => n <= 3 && n <= changes
    case SawNone(n, _) => n <= 3 && n + (if s.cell.None? then 0 else 1) <= changes
    case SawSome(n, _, version) => n <= 3 && n + (if s.Unchanged(version) then 0 else 1) <= changes
    case Tested(n, _, version, _) => n <= 3 && n + (if s.Unchanged(version) then 0 else 1) <= changes
    case _ => true
  }

  lemma StepLoses(s: State, step: Step, h: nat, changes: nat)
    requires Sane(s) && Lost(s, h, changes)
    ensures var t := Take(s, step); Lost(t, h, changes + if t.cell == s.cell then 0 else 1)
  {
    assert PhaseOK(s, h);
    if !step.Tick? && step.h != h { assert Take(s, step).Of(h) == s.Of(h); }
  }

  lemma {:induction false} RunLoses(s: State, steps: seq<Step>, h: nat)
    requires Sane(s) && s.Of(h).Idle?
    ensures Sane(Run(s, steps)) && Lost(Run(s, steps), h, Changes(s, steps))
  {
    if steps != [] {
      hide Take, Sane, Lost;
      var rest, last := steps[..|steps| - 1], steps[|steps| - 1];
      RunLoses(s, rest, h);
      TakeKeepsSane(Run(s, rest), last);
      StepLoses(Run(s, rest), last, h, Changes(s, rest));
    }
  }

  /** In any run, a host that gives up on a lost race has lost four, each to another write or deletion since it began. */
  lemma GivesUpAfterFour(s: State, before: seq<Step>, after: seq<Step>, h: nat)
    requires Initial(s) && Run(s, before).Of(h).Idle?
    ensures var a := Run(s, before);
      var b := Run(a, after);
      LosesRace(b, h) && Take(b, Act(h)).Of(h).Idle? ==> Changes(a, after) >= 4
  {
    RunKeepsSane(s, before);
    RunLoses(Run(s, before), after, h);
  }

  /** A host that builds goes on until it ends its build, whatever becomes of the lease and of its heartbeats. */
  lemma BuildsOn(s: State, step: Step, h: nat)
    requires s.Of(h).Holds() && step != Finish(h)
    ensures Take(s, step).Of(h).Holds()
  {
  }

  /** How many races the host has lost since it last began to acquire. */
  function RacesLost(s: State, steps: seq<Step>, h: nat): nat {
    if steps == [] then 0
    else
      var rest, last := steps[..|steps| - 1], steps[|steps| - 1];
      if last == Start(h) && Run(s, rest).Of(h).Idle? then 0
      else RacesLost(s, rest, h) + if last == Act(h) && LosesRace(Run(s, rest), h) then 1 else 0
  }

  ghost predicate Counted(s: State, h: nat, lost: nat) {
    match s.Of(h)
    case Trying(n, _) => n == lost <= 3
    case SawNone(n, _) => n == lost <= 3
    case SawSome(n, _, _) => n == lost <= 3
    case Tested(n, _, _, _) => n == lost <= 3
    case _ => true
  }

  lemma StepCounts(s: State, step: Step, h: nat, lost: nat)
    requires Counted(s, h, lost)
    ensures var now := if step == Start(h) && s.Of(h).Idle? then 0 else lost + if step == Act(h) && LosesRace(s, h) then 1 else 0;
            Counted(Take(s, step), h, now)
  {
    if !step.Tick? && step.h != h { assert Take(s, step).Of(h) == s.Of(h); }
  }

  lemma {:induction false} RunCounts(s: State, steps: seq<Step>, h: nat)
    requires Initial(s)
    ensures Counted(Run(s, steps), h, RacesLost(s, steps, h))
  {
    if steps != [] {
      hide Take, Counted, LosesRace;
      var rest, last := steps[..|steps| - 1], steps[|steps| - 1];
      RunCounts(s, rest, h);
      StepCounts(Run(s, rest), last, h, RacesLost(s, rest, h));
    } else {
      assert s.Of(h).Idle?;
    }
  }

  /** In any run, a host that loses a race gives up exactly if it is the fourth since it began to acquire, and tries again
      otherwise. */
  lemma FourthLossEnds(s: State, steps: seq<Step>, h: nat)
    requires Initial(s) && LosesRace(Run(s, steps), h)
    ensures var t := Take(Run(s, steps), Act(h));
      if RacesLost(s, steps, h) == 3 then t.Of(h).Idle? else t.Of(h).Trying? && RacesLost(s, steps, h) < 3
  {
    RunCounts(s, steps, h);
  }
}
