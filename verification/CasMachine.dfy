/** The read-modify-compare-and-swap loop over one versioned object, run by any number of callers at once.

    A cell holds a value and a version that is never used again. A call repeatedly reads the cell, applies its mutator to
    what it read, and writes the outcome only if the version is still the one it read (or, having read nothing, only if
    the cell is still empty). A run is any sequence of steps; a step a call is not ready for changes nothing. */
module CasMachine {
  import opened Wrappers

  datatype Cell<+V> = Empty | Holds(value: V, version: nat)
  {
    function Value(): Option<V> {
      if Empty? then None else Some(value)
    }

    function Version(): Option<nat> {
      if Empty? then None else Some(version)
    }
  }

  /** What a mutator answers: write a value, bail without writing, or an error. */
  datatype Outcome<+V> = Write(value: V) | Abort | Fail

  datatype Result = Committed(at: nat) | Aborted | Failed | Exhausted

  datatype Phase<+V> =
    | Reading(attempt: nat)
    | Read(attempt: nat, seen: Cell<V>)
    | Writing(attempt: nat, seen: Cell<V>, next: V)
    | Done(result: Result)

  /** A call in progress, with the two variables its mutator captures: the last value it was given, and the last
      it decided to write. */
  datatype Call<+V> = Call(phase: Phase<V>, lastSeen: Option<V>, lastWrite: Option<V>)

  /** history lists the committed values after the initial one, authors the call behind each. */
  datatype State<V> = State(initial: Option<V>, cell: Cell<V>, nextVersion: nat, history: seq<V>, authors: seq<nat>,
                            calls: map<nat, Call<V>>)
  {
    /** The value after the first k commits. */
    function ValueAt(k: nat): Option<V>
      requires k <= |history|
    {
      if k == 0 then initial else Some(history[k - 1])
    }
  }

  type Mutators<!V> = nat -> Option<V> -> Outcome<V>

  /** The steps of call c. A failed request is either retryable or fatal, and was not applied. */
  datatype Step = Begin(c: nat) | Get(c: nat) | GetFails(c: nat, retryable: bool) | Mutate(c: nat)
                | Put(c: nat) | PutFails(c: nat, retryable: bool)

  function Initial<V>(initial: Option<V>): State<V> {
    State(initial, if initial.None? then Empty else Holds(initial.value, 0), 1, [], [], map[])
  }

  function InPhase<V>(s: State<V>, c: nat, p: Phase<V>): State<V>
    requires c in s.calls
  {
    s.(calls := s.calls[c := s.calls[c].(phase := p)])
  }

  /** After a lost compare-and-swap: immediately again, until the retries are used up. */
  function NextAttempt<V>(attempt: nat, maxRetries: nat): Phase<V> {
    if attempt < maxRetries then Reading(attempt + 1) else Done(Exhausted)
  }

  function Take<V>(f: Mutators<V>, maxRetries: nat, s: State<V>, step: Step): State<V> {
    var c := step.c;
    if step.Begin? then
      if c in s.calls then s else s.(calls := s.calls[c := Call(Reading(0), None, None)])
    else if c !in s.calls then s
    else
      match (step, s.calls[c].phase)
      case (Get(_), Reading(a)) => InPhase(s, c, Read(a, s.cell))
      case (GetFails(_, retryable), Reading(a)) => if retryable then s else InPhase(s, c, Done(Failed))
      case (Mutate(_), Read(a, seen)) => Mutated(f, s, c, a, seen)
      case (Put(_), Writing(a, seen, next)) =>
        if s.cell.Version() == seen.Version() then Commit(s, c, next) else InPhase(s, c, NextAttempt(a, maxRetries))
      case (PutFails(_, retryable), Writing(a, seen, next)) =>
        InPhase(s, c, if retryable then Reading(a) else Done(Failed))
      case _ => s
  }

  function Mutated<V>(f: Mutators<V>, s: State<V>, c: nat, a: nat, seen: Cell<V>): State<V>
    requires c in s.calls
  {
    var call := s.calls[c];
    var lastSeen := if seen.Empty? then call.lastSeen else Some(seen.value);
    match f(c)(seen.Value())
    case Fail => s.(calls := s.calls[c := Call(Done(Failed), lastSeen, call.lastWrite)])
    case Abort => s.(calls := s.calls[c := Call(Done(Aborted), lastSeen, call.lastWrite)])
    case Write(v) => s.(calls := s.calls[c := Call(Writing(a, seen, v), lastSeen, Some(v))])
  }

  function Commit<V>(s: State<V>, c: nat, next: V): State<V>
    requires c in s.calls
  {
    State(s.initial, Holds(next, s.nextVersion), s.nextVersion + 1, s.history + [next], s.authors + [c],
          s.calls[c := s.calls[c].(phase := Done(Committed(|s.history|)))])
  }

  function Run<V>(f: Mutators<V>, maxRetries: nat, s: State<V>, steps: seq<Step>): State<V>
    decreases |steps|
  {
    if steps == [] then s else Take(f, maxRetries, Run(f, maxRetries, s, steps[..|steps| - 1]), steps[|steps| - 1])
  }

  // ---- what every step keeps ----

  /** What a call has seen was the committed value at some point, and still is if the version is unchanged. */
  ghost predicate SawCommitted<V>(s: State<V>, seen: Cell<V>) {
    && (seen.Empty? ==> s.initial.None?)
    && (s.cell.Empty? ==> seen.Empty?)
    && (seen.Holds? ==> seen.version < s.nextVersion)
    && (seen.Version() == s.cell.Version() ==> seen == s.cell)
    && exists k :: Current(s, k, seen.Value())
  }

  /** The value after the k-th commit was v. */
  ghost predicate Current<V>(s: State<V>, k: int, v: Option<V>) {
    0 <= k <= |s.history| && s.ValueAt(k) == v
  }

  /** The call aborted on the value after the k-th commit, and that is the last it saw. */
  ghost predicate AbortedOn<V>(f: Mutators<V>, s: State<V>, c: nat, call: Call<V>, k: int) {
    0 <= k <= |s.history| && f(c)(s.ValueAt(k)) == Abort && call.lastSeen == s.ValueAt(k)
  }

  ghost predicate CallOK<V>(f: Mutators<V>, s: State<V>, c: nat, call: Call<V>) {
    match call.phase
    case Reading(_) => c !in s.authors && (s.cell.Empty? ==> call.lastSeen.None?)
    case Read(_, seen) => c !in s.authors && SawCommitted(s, seen) && (seen.Empty? ==> call.lastSeen.None?)
    case Writing(_, seen, next) =>
      && c !in s.authors && SawCommitted(s, seen) && f(c)(seen.Value()) == Write(next)
      && call.lastWrite == Some(next) && call.lastSeen == seen.Value()
    case Done(Committed(k)) =>
      && k < |s.history| == |s.authors| && s.authors[k] == c
      && call.lastWrite == Some(s.history[k]) && call.lastSeen == s.ValueAt(k)
    case Done(Aborted) =>
      && c !in s.authors
      && exists k :: AbortedOn(f, s, c, call, k)
    case Done(_) => c !in s.authors
  }

  ghost predicate Lineage<V>(f: Mutators<V>, s: State<V>) {
    && |s.authors| == |s.history|
    && (forall k :: 0 <= k < |s.history| ==> Descends(f, s, k))
    && s.cell.Value() == s.ValueAt(|s.history|)
    && (s.cell.Holds? ==> s.cell.version < s.nextVersion)
  }

  ghost predicate Inv<V>(f: Mutators<V>, s: State<V>) {
    Lineage(f, s) && forall c :: c in s.calls ==> CallOK(f, s, c, s.calls[c])
  }

  lemma InitialInv<V>(f: Mutators<V>, initial: Option<V>)
    ensures Inv(f, Initial(initial))
  {
  }

  /** t is s after one more commit, of `next` by call c. */
  ghost predicate Extends<V>(s: State<V>, t: State<V>, c: nat, next: V) {
    && t.initial == s.initial && t.cell == Holds(next, s.nextVersion) && t.nextVersion == s.nextVersion + 1
    && t.history == s.history + [next] && t.authors == s.authors + [c]
  }

  lemma StillCurrent<V>(s: State<V>, t: State<V>, c: nat, next: V, k: nat)
    requires Extends(s, t, c, next) && k <= |s.history|
    ensures t.ValueAt(k) == s.ValueAt(k)
  {
  }

  lemma ExtendsKeepsSeen<V>(s: State<V>, t: State<V>, c: nat, next: V, seen: Cell<V>)
    requires Extends(s, t, c, next) && SawCommitted(s, seen)
    ensures SawCommitted(t, seen)
  {
    var k :| Current(s, k, seen.Value());
    StillCurrent(s, t, c, next, k);
    assert Current(t, k, seen.Value());
  }

  lemma OtherCallKeeps<V>(f: Mutators<V>, s: State<V>, t: State<V>, c: nat, next: V, d: nat, call: Call<V>)
    requires Extends(s, t, c, next) && CallOK(f, s, d, call) && d != c && |s.authors| == |s.history|
    ensures CallOK(f, t, d, call)
  {
    var p := call.phase;
    if p.Read? || p.Writing? {
      ExtendsKeepsSeen(s, t, c, next, p.seen);
    } else if p == Done(Aborted) {
      var k :| AbortedOn(f, s, d, call, k);
      StillCurrent(s, t, c, next, k);
      assert AbortedOn(f, t, d, call, k);
    } else if p.Done? && p.result.Committed? {
      StillCurrent(s, t, c, next, p.result.at);
    }
  }

  lemma LineageExtends<V>(f: Mutators<V>, s: State<V>, c: nat)
    requires Inv(f, s) && c in s.calls && s.calls[c].phase.Writing?
    requires s.cell.Version() == s.calls[c].phase.seen.Version()
    ensures Lineage(f, Commit(s, c, s.calls[c].phase.next))
  {
    var next := s.calls[c].phase.next;
    var t, n := Commit(s, c, next), |s.history|;
    hide CallOK;
    forall k | 0 <= k <= n ensures Descends(f, t, k) {
      if k < n { StillDescends(f, s, c, k); } else { NewestDescends(f, s, c); }
    }
    assert t.cell.Value() == Some(t.history[n]);
  }

  /** The k-th committed value is its author's mutator applied to the value before it, and its author is done. */
  ghost predicate Descends<V>(f: Mutators<V>, s: State<V>, k: nat)
    requires |s.authors| == |s.history|
  {
    && k < |s.history| && f(s.authors[k])(s.ValueAt(k)) == Write(s.history[k])
    && s.authors[k] in s.calls && s.calls[s.authors[k]].phase == Done(Committed(k))
  }

  lemma StillDescends<V>(f: Mutators<V>, s: State<V>, c: nat, k: nat)
    requires Inv(f, s) && c in s.calls && s.calls[c].phase.Writing? && k < |s.history|
    ensures Descends(f, Commit(s, c, s.calls[c].phase.next), k)
  {
    var next := s.calls[c].phase.next;
    assert CallOK(f, s, c, s.calls[c]);
    StillCurrent(s, Commit(s, c, next), c, next, k);
    assert Descends(f, s, k);
    assert s.authors[k] in s.authors;
  }

  lemma NewestDescends<V>(f: Mutators<V>, s: State<V>, c: nat)
    requires Inv(f, s) && c in s.calls && s.calls[c].phase.Writing?
    requires s.cell.Version() == s.calls[c].phase.seen.Version()
    ensures Descends(f, Commit(s, c, s.calls[c].phase.next), |s.history|)
  {
    var next := s.calls[c].phase.next;
    assert CallOK(f, s, c, s.calls[c]);
    StillCurrent(s, Commit(s, c, next), c, next, |s.history|);
  }

  lemma CommitKeepsInv<V>(f: Mutators<V>, s: State<V>, c: nat)
    requires Inv(f, s) && c in s.calls && s.calls[c].phase.Writing?
    requires s.cell.Version() == s.calls[c].phase.seen.Version()
    ensures Inv(f, Commit(s, c, s.calls[c].phase.next))
  {
    hide Lineage, CallOK;
    var next := s.calls[c].phase.next;
    var t := Commit(s, c, next);
    LineageExtends(f, s, c);
    SameLength(f, s);
    forall d | d in t.calls ensures CallOK(f, t, d, t.calls[d]) {
      if d == c { OwnCommit(f, s, c); } else { OtherCallKeeps(f, s, t, c, next, d, s.calls[d]); }
    }
  }

  lemma SameLength<V>(f: Mutators<V>, s: State<V>)
    requires Inv(f, s)
    ensures |s.authors| == |s.history|
  {
  }

  lemma OwnCommit<V>(f: Mutators<V>, s: State<V>, c: nat)
    requires Inv(f, s) && c in s.calls && s.calls[c].phase.Writing?
    requires s.cell.Version() == s.calls[c].phase.seen.Version()
    ensures var t := Commit(s, c, s.calls[c].phase.next); CallOK(f, t, c, t.calls[c])
  {
    var next := s.calls[c].phase.next;
    assert CallOK(f, s, c, s.calls[c]);
    StillCurrent(s, Commit(s, c, next), c, next, |s.history|);
  }

  /** s and t agree on everything but the calls in progress. */
  ghost predicate SameStore<V>(s: State<V>, t: State<V>) {
    s.initial == t.initial && s.cell == t.cell && s.nextVersion == t.nextVersion && s.history == t.history && s.authors == t.authors
  }

  lemma SameSeen<V>(s: State<V>, t: State<V>, seen: Cell<V>)
    requires SawCommitted(s, seen) && SameStore(s, t)
    ensures SawCommitted(t, seen)
  {
    var k :| Current(s, k, seen.Value());
    assert Current(t, k, seen.Value());
  }

  lemma SameCall<V>(f: Mutators<V>, s: State<V>, t: State<V>, d: nat, call: Call<V>)
    requires SameStore(s, t) && CallOK(f, s, d, call)
    ensures CallOK(f, t, d, call)
  {
    var p := call.phase;
    if p.Read? || p.Writing? {
      SameSeen(s, t, p.seen);
    } else if p == Done(Aborted) {
      var k :| AbortedOn(f, s, d, call, k);
      assert AbortedOn(f, t, d, call, k);
    }
  }

  ghost predicate Commits<V>(s: State<V>, step: Step) {
    step.Put? && step.c in s.calls && s.calls[step.c].phase.Writing? && s.cell.Version() == s.calls[step.c].phase.seen.Version()
  }

  /** A step that commits nothing touches only its own call. */
  lemma OnlyOwnCall<V>(f: Mutators<V>, maxRetries: nat, s: State<V>, step: Step)
    requires !Commits(s, step)
    ensures var t := Take(f, maxRetries, s, step);
            SameStore(s, t) && s.calls.Keys <= t.calls.Keys <= s.calls.Keys + {step.c}
            && forall d :: d in s.calls && d != step.c ==> t.calls[d] == s.calls[d]
  {
  }

  lemma OwnStep<V>(f: Mutators<V>, maxRetries: nat, s: State<V>, step: Step)
    requires Inv(f, s) && !Commits(s, step)
    ensures var t := Take(f, maxRetries, s, step); step.c in t.calls ==> CallOK(f, t, step.c, t.calls[step.c])
  {
    var t, c := Take(f, maxRetries, s, step), step.c;
    OnlyOwnCall(f, maxRetries, s, step);
    if c in s.calls {
      assert CallOK(f, s, c, s.calls[c]);
      SameCall(f, s, t, c, s.calls[c]);
      match (step, s.calls[c].phase)
      case (Get(_), Reading(a)) => assert Current(t, |t.history|, s.cell.Value());
      case (Mutate(_), Read(a, seen)) => MutateKeeps(f, s, c);
      case _ =>
    } else {
      forall k | 0 <= k < |s.authors| ensures s.authors[k] != c { assert Descends(f, s, k); }
    }
  }

  lemma MutateKeeps<V>(f: Mutators<V>, s: State<V>, c: nat)
    requires c in s.calls && s.calls[c].phase.Read? && CallOK(f, s, c, s.calls[c])
    ensures var t := Mutated(f, s, c, s.calls[c].phase.attempt, s.calls[c].phase.seen); CallOK(f, t, c, t.calls[c])
  {
    var seen := s.calls[c].phase.seen;
    var t := Mutated(f, s, c, s.calls[c].phase.attempt, seen);
    SameSeen(s, t, seen);
    if f(c)(seen.Value()).Abort? {
      var k :| Current(s, k, seen.Value());
      assert AbortedOn(f, t, c, t.calls[c], k);
    }
  }

  lemma TakeKeepsInv<V>(f: Mutators<V>, maxRetries: nat, s: State<V>, step: Step)
    requires Inv(f, s)
    ensures Inv(f, Take(f, maxRetries, s, step))
  {
    if Commits(s, step) {
      CommitKeepsInv(f, s, step.c);
    } else {
      OnlyOwnCall(f, maxRetries, s, step);
      OwnStep(f, maxRetries, s, step);
      LineageSame(f, maxRetries, s, step);
      OthersSame(f, maxRetries, s, step);
    }
  }

  lemma OthersSame<V>(f: Mutators<V>, maxRetries: nat, s: State<V>, step: Step)
    requires Inv(f, s) && !Commits(s, step)
    ensures var t := Take(f, maxRetries, s, step); forall d :: d in t.calls && d != step.c ==> CallOK(f, t, d, t.calls[d])
  {
    hide CallOK, Lineage;
    var t := Take(f, maxRetries, s, step);
    OnlyOwnCall(f, maxRetries, s, step);
    forall d | d in t.calls && d != step.c ensures CallOK(f, t, d, t.calls[d]) { SameCall(f, s, t, d, s.calls[d]); }
  }

  lemma LineageSame<V>(f: Mutators<V>, maxRetries: nat, s: State<V>, step: Step)
    requires Inv(f, s) && !Commits(s, step)
    ensures Lineage(f, Take(f, maxRetries, s, step))
  {
    var t := Take(f, maxRetries, s, step);
    OnlyOwnCall(f, maxRetries, s, step);
    forall k | 0 <= k < |s.history| ensures Descends(f, t, k) {
      assert Descends(f, s, k);
    }
  }

  // ---- whole runs ----

  lemma {:induction false} RunKeepsInv<V>(f: Mutators<V>, maxRetries: nat, initial: Option<V>, steps: seq<Step>)
    ensures Inv(f, Run(f, maxRetries, Initial(initial), steps))
    decreases |steps|
  {
    if steps == [] {
      InitialInv(f, initial);
    } else {
      RunKeepsInv(f, maxRetries, initial, steps[..|steps| - 1]);
      TakeKeepsInv(f, maxRetries, Run(f, maxRetries, Initial(initial), steps[..|steps| - 1]), steps[|steps| - 1]);
    }
  }

  /** Each committed value is its author's mutator applied to the value committed just before it, the cell holds
      the last of them, and no call commits twice. */
  ghost predicate Serialized<V>(f: Mutators<V>, s: State<V>) {
    && |s.authors| == |s.history|
    && (forall k :: 0 <= k < |s.history| ==> f(s.authors[k])(s.ValueAt(k)) == Write(s.history[k]))
    && (forall j, k :: 0 <= j < k < |s.history| ==> s.authors[j] != s.authors[k])
    && s.cell.Value() == s.ValueAt(|s.history|)
  }

  /** A call that reports a commit is the author of that one; one that ends any other way wrote nothing, and an
      abort was the mutator's answer to some committed value. */
  ghost predicate Accounted<V>(f: Mutators<V>, s: State<V>) {
    forall c :: c in s.calls && s.calls[c].phase.Done? ==>
      match s.calls[c].phase.result
      case Committed(k) => k < |s.authors| && s.authors[k] == c
      case Aborted => c !in s.authors && exists k :: AbortedOn(f, s, c, s.calls[c], k)
      case _ => c !in s.authors
  }

  lemma InvSerialized<V>(f: Mutators<V>, s: State<V>)
    requires Inv(f, s)
    ensures Serialized(f, s)
  {
    forall k | 0 <= k < |s.history| ensures f(s.authors[k])(s.ValueAt(k)) == Write(s.history[k]) { assert Descends(f, s, k); }
    forall j, k | 0 <= j < k < |s.history| ensures s.authors[j] != s.authors[k] {
      assert Descends(f, s, j) && Descends(f, s, k);
    }
  }

  lemma InvAccounted<V>(f: Mutators<V>, s: State<V>)
    requires Inv(f, s)
    ensures Accounted(f, s)
  {
    forall c | c in s.calls && s.calls[c].phase.Done? ensures CallOK(f, s, c, s.calls[c]) { }
  }

  /** No run loses an update, and every caller is told truly what became of its own. */
  lemma NoLostUpdate<V>(f: Mutators<V>, maxRetries: nat, initial: Option<V>, steps: seq<Step>)
    ensures Serialized(f, Run(f, maxRetries, Initial(initial), steps))
    ensures Accounted(f, Run(f, maxRetries, Initial(initial), steps))
  {
    RunKeepsInv(f, maxRetries, initial, steps);
    var s := Run(f, maxRetries, Initial(initial), steps);
    InvSerialized(f, s);
    InvAccounted(f, s);
  }

  // ---- calls that no one interferes with ----

  function AloneSteps(c: nat): seq<Step> {
    [Begin(c), Get(c), Mutate(c), Put(c)]
  }

  lemma {:induction false} RunAppend<V>(f: Mutators<V>, maxRetries: nat, s: State<V>, a: seq<Step>, b: seq<Step>)
    ensures Run(f, maxRetries, s, a + b) == Run(f, maxRetries, Run(f, maxRetries, s, a), b)
    decreases |b|
  {
    if b == [] {
      assert a + b == a;
    } else {
      assert (a + b)[..|a + b| - 1] == a + b[..|b| - 1];
      RunAppend(f, maxRetries, s, a, b[..|b| - 1]);
    }
  }

  lemma RunThree<V>(f: Mutators<V>, maxRetries: nat, s: State<V>, a: Step, b: Step, c: Step)
    ensures Run(f, maxRetries, s, [a, b, c]) == Take(f, maxRetries, Take(f, maxRetries, Take(f, maxRetries, s, a), b), c)
  {
    assert [a, b, c][..2] == [a, b] && [a, b][..1] == [a] && [a][..0] == [];
    assert Run(f, maxRetries, s, [a, b]) == Take(f, maxRetries, Run(f, maxRetries, s, [a]), b);
    assert Run(f, maxRetries, s, [a]) == Take(f, maxRetries, Run(f, maxRetries, s, []), a);
  }

  /** A call no one interferes with reads the cell, applies its mutator and commits the outcome. */
  lemma Undisturbed<V>(f: Mutators<V>, maxRetries: nat, s: State<V>, c: nat, v: V)
    requires c !in s.calls && f(c)(s.cell.Value()) == Write(v)
    ensures var t := Run(f, maxRetries, s, AloneSteps(c));
      && t.cell == Holds(v, s.nextVersion) && t.nextVersion == s.nextVersion + 1
      && t.initial == s.initial && t.history == s.history + [v]
      && t.calls.Keys == s.calls.Keys + {c} && forall d :: d in s.calls ==> t.calls[d] == s.calls[d]
  {
    assert AloneSteps(c) == [Begin(c), Get(c), Mutate(c)] + [Put(c)];
    RunAppend(f, maxRetries, s, [Begin(c), Get(c), Mutate(c)], [Put(c)]);
    RunThree(f, maxRetries, s, Begin(c), Get(c), Mutate(c));
    RunOne(f, maxRetries, Run(f, maxRetries, s, [Begin(c), Get(c), Mutate(c)]), Put(c));
    hide Run;
    FourTakes(f, maxRetries, s, c, v);
  }

  lemma FourTakes<V>(f: Mutators<V>, maxRetries: nat, s: State<V>, c: nat, v: V)
    requires c !in s.calls && f(c)(s.cell.Value()) == Write(v)
    ensures var t := Take(f, maxRetries, Take(f, maxRetries, Take(f, maxRetries, Take(f, maxRetries, s, Begin(c)), Get(c)), Mutate(c)), Put(c));
      && t.cell == Holds(v, s.nextVersion) && t.nextVersion == s.nextVersion + 1
      && t.initial == s.initial && t.history == s.history + [v]
      && t.calls.Keys == s.calls.Keys + {c} && forall d :: d in s.calls ==> t.calls[d] == s.calls[d]
  {
  }

  lemma RunOne<V>(f: Mutators<V>, maxRetries: nat, s: State<V>, a: Step)
    ensures Run(f, maxRetries, s, [a]) == Take(f, maxRetries, s, a)
  {
    assert [a][..0] == [];
  }

  // ---- how calls that do not commit end ----

  /** The attempts a call has spent so far, each on a commit of another since there were n; and it has some left. */
  ghost predicate Spent<V>(s: State<V>, maxRetries: nat, n: nat, call: Call<V>) {
    match call.phase
    case Reading(a) => a <= maxRetries && n + a <= |s.history|
    case Read(a, seen) => a <= maxRetries && n + a + Stale(s, seen) <= |s.history|
    case Writing(a, seen, _) => a <= maxRetries && n + a + Stale(s, seen) <= |s.history|
    case Done(Exhausted) => n + maxRetries + 1 <= |s.history|
    case Done(_) => n <= |s.history|
  }

  /** One commit more, if what was read is no longer there. */
  function Stale<V>(s: State<V>, seen: Cell<V>): nat {
    if s.cell.Version() == seen.Version() then 0 else 1
  }

  lemma CommitSpends<V>(f: Mutators<V>, s: State<V>, maxRetries: nat, n: nat, step: Step, c: nat)
    requires Inv(f, s) && Commits(s, step) && c in s.calls && step.c != c && Spent(s, maxRetries, n, s.calls[c])
    ensures var t := Take(f, maxRetries, s, step); c in t.calls && Spent(t, maxRetries, n, t.calls[c])
  {
    assert CallOK(f, s, c, s.calls[c]);
  }

  lemma StepSpends<V>(f: Mutators<V>, s: State<V>, maxRetries: nat, n: nat, step: Step, c: nat)
    requires Inv(f, s) && n <= |s.history| && (c in s.calls ==> Spent(s, maxRetries, n, s.calls[c]))
    ensures var t := Take(f, maxRetries, s, step); n <= |t.history| && (c in t.calls ==> Spent(t, maxRetries, n, t.calls[c]))
  {
    if Commits(s, step) {
      if step.c != c && c in s.calls {
        CommitSpends(f, s, maxRetries, n, step, c);
      }
    } else {
      OnlyOwnCall(f, maxRetries, s, step);
    }
  }

  lemma {:induction false} RunSpends<V>(f: Mutators<V>, s: State<V>, maxRetries: nat, steps: seq<Step>, c: nat)
    requires Inv(f, s) && c !in s.calls
    ensures var t := Run(f, maxRetries, s, steps);
      Inv(f, t) && |s.history| <= |t.history| && (c in t.calls ==> Spent(t, maxRetries, |s.history|, t.calls[c]))
    decreases |steps|
  {
    hide Take, Inv, Spent;
    if steps != [] {
      var rest, last := steps[..|steps| - 1], steps[|steps| - 1];
      RunSpends(f, s, maxRetries, rest, c);
      TakeKeepsInv(f, maxRetries, Run(f, maxRetries, s, rest), last);
      StepSpends(f, Run(f, maxRetries, s, rest), maxRetries, |s.history|, last, c);
    }
  }

  /** In any run, a call that gives up has lost each of its attempts, one more than its retries, to a commit of another since
      it began, and none of its own landed; and one that tries again has retries left. */
  lemma GivesUpAfterLosses<V>(f: Mutators<V>, maxRetries: nat, initial: Option<V>, before: seq<Step>, after: seq<Step>, c: nat)
    requires c !in Run(f, maxRetries, Initial(initial), before).calls
    ensures var s := Run(f, maxRetries, Initial(initial), before);
      var t := Run(f, maxRetries, s, after);
      c in t.calls && t.calls[c].phase == Done(Exhausted) ==>
        |t.history| >= |s.history| + maxRetries + 1 && c !in t.authors
    ensures var s := Run(f, maxRetries, Initial(initial), before);
      var t := Run(f, maxRetries, s, after);
      c in t.calls && t.calls[c].phase.Reading? ==>
        t.calls[c].phase.attempt <= maxRetries && |t.history| >= |s.history| + t.calls[c].phase.attempt
  {
    hide Run, Inv, CallOK;
    RunKeepsInv(f, maxRetries, initial, before);
    var s := Run(f, maxRetries, Initial(initial), before);
    RunSpends(f, s, maxRetries, after, c);
    var t := Run(f, maxRetries, s, after);
    if c in t.calls && t.calls[c].phase == Done(Exhausted) { EndedWithout(f, t, c); }
  }

  lemma EndedWithout<V>(f: Mutators<V>, t: State<V>, c: nat)
    requires Inv(f, t) && c in t.calls && t.calls[c].phase == Done(Exhausted)
    ensures c !in t.authors
  {
    assert CallOK(f, t, c, t.calls[c]);
  }

  /** A request of the call failed for good, or its mutator failed on a value that was committed. */
  ghost predicate Faulted<V>(f: Mutators<V>, s: State<V>, steps: seq<Step>, c: nat) {
    GetFails(c, false) in steps || PutFails(c, false) in steps || exists k :: FailedOn(f, s, c, k)
  }

  ghost predicate FailedOn<V>(f: Mutators<V>, s: State<V>, c: nat, k: int) {
    0 <= k <= |s.history| && f(c)(s.ValueAt(k)) == Fail
  }

  lemma FaultStays<V>(f: Mutators<V>, maxRetries: nat, s: State<V>, steps: seq<Step>, step: Step, c: nat)
    requires Faulted(f, s, steps, c)
    ensures Faulted(f, Take(f, maxRetries, s, step), steps + [step], c)
  {
    if exists k :: FailedOn(f, s, c, k) {
      var k :| FailedOn(f, s, c, k);
      HistoryGrows(f, maxRetries, s, step, k);
      assert FailedOn(f, Take(f, maxRetries, s, step), c, k);
    }
  }

  lemma HistoryGrows<V>(f: Mutators<V>, maxRetries: nat, s: State<V>, step: Step, k: nat)
    requires k <= |s.history|
    ensures var t := Take(f, maxRetries, s, step); k <= |t.history| && t.ValueAt(k) == s.ValueAt(k)
  {
  }

  lemma StepFaults<V>(f: Mutators<V>, maxRetries: nat, s: State<V>, steps: seq<Step>, step: Step, c: nat)
    requires Inv(f, s) && (c in s.calls && s.calls[c].phase == Done(Failed) ==> Faulted(f, s, steps, c))
    ensures var t := Take(f, maxRetries, s, step);
      c in t.calls && t.calls[c].phase == Done(Failed) ==> Faulted(f, t, steps + [step], c)
  {
    hide Take, Inv, Faulted;
    var t := Take(f, maxRetries, s, step);
    if c in t.calls && t.calls[c].phase == Done(Failed) {
      if c in s.calls && s.calls[c].phase == Done(Failed) {
        FaultStays(f, maxRetries, s, steps, step, c);
      } else {
        NewFault(f, maxRetries, s, steps, step, c);
      }
    }
  }

  lemma NewFault<V>(f: Mutators<V>, maxRetries: nat, s: State<V>, steps: seq<Step>, step: Step, c: nat)
    requires Inv(f, s) && !(c in s.calls && s.calls[c].phase == Done(Failed))
    requires var t := Take(f, maxRetries, s, step); c in t.calls && t.calls[c].phase == Done(Failed)
    ensures Faulted(f, Take(f, maxRetries, s, step), steps + [step], c)
  {
    var t := Take(f, maxRetries, s, step);
    assert (steps + [step])[|steps|] == step;
    if step.Mutate? {
      assert CallOK(f, s, c, s.calls[c]);
      var seen := s.calls[c].phase.seen;
      var k :| Current(s, k, seen.Value());
      assert FailedOn(f, t, c, k);
    }
  }

  /** In any run, a call ends in failure only if a request of its own failed for good or its mutator failed: errors that can be
      retried, and lost races, never end it so. */
  lemma {:induction false} FailsOnlyOnFaults<V>(f: Mutators<V>, maxRetries: nat, initial: Option<V>, steps: seq<Step>, c: nat)
    ensures var t := Run(f, maxRetries, Initial(initial), steps);
      c in t.calls && t.calls[c].phase == Done(Failed) ==> Faulted(f, t, steps, c)
    decreases |steps|
  {
    hide Take, Inv, Faulted;
    if steps != [] {
      var rest, last := steps[..|steps| - 1], steps[|steps| - 1];
      FailsOnlyOnFaults(f, maxRetries, initial, rest, c);
      RunKeepsInv(f, maxRetries, initial, rest);
      StepFaults(f, maxRetries, Run(f, maxRetries, Initial(initial), rest), rest, last, c);
      assert steps == rest + [last];
    }
  }

  /** The step is a conditional write of the call that finds another value than the one it read. */
  predicate LosesRace<V>(s: State<V>, step: Step, c: nat) {
    step == Put(c) && c in s.calls && s.calls[c].phase.Writing? && s.cell.Version() != s.calls[c].phase.seen.Version()
  }

  /** How many races the call has lost. */
  function Losses<V>(f: Mutators<V>, maxRetries: nat, s: State<V>, steps: seq<Step>, c: nat): nat
    decreases |steps|
  {
    if steps == [] then 0
    else
      var rest, last := steps[..|steps| - 1], steps[|steps| - 1];
      Losses(f, maxRetries, s, rest, c) + if LosesRace(Run(f, maxRetries, s, rest), last, c) then 1 else 0
  }

  /** Where a call is after this many lost races: it gives up on the loss that leaves no retry, and on no other account. */
  ghost predicate LossesAre<V>(s: State<V>, maxRetries: nat, c: nat, losses: nat) {
    if c !in s.calls then losses == 0
    else
      match s.calls[c].phase
      case Reading(a) => a == losses <= maxRetries
      case Read(a, _) => a == losses <= maxRetries
      case Writing(a, _, _) => a == losses <= maxRetries
      case Done(r) => if r.Exhausted? then losses == maxRetries + 1 else losses <= maxRetries
  }

  lemma StepCounts<V>(f: Mutators<V>, maxRetries: nat, s: State<V>, step: Step, c: nat, losses: nat)
    requires LossesAre(s, maxRetries, c, losses)
    ensures LossesAre(Take(f, maxRetries, s, step), maxRetries, c, losses + if LosesRace(s, step, c) then 1 else 0)
  {
    if Commits(s, step) {
      assert !LosesRace(s, step, c);
    } else {
      OnlyOwnCall(f, maxRetries, s, step);
    }
  }

  /** In any run, a call gives up exactly when it has lost one race more than it has retries, and until then it goes on. */
  lemma {:induction false} GivesUpExactly<V>(f: Mutators<V>, maxRetries: nat, initial: Option<V>, steps: seq<Step>, c: nat)
    ensures var s := Run(f, maxRetries, Initial(initial), steps);
      LossesAre(s, maxRetries, c, Losses(f, maxRetries, Initial(initial), steps, c))
    decreases |steps|
  {
    hide Take, LossesAre, LosesRace;
    if steps != [] {
      var rest, last := steps[..|steps| - 1], steps[|steps| - 1];
      GivesUpExactly(f, maxRetries, initial, rest, c);
      StepCounts(f, maxRetries, Run(f, maxRetries, Initial(initial), rest), last, c, Losses(f, maxRetries, Initial(initial), rest, c));
    } else {
      NotBegun<V>(initial, maxRetries, c);
    }
  }

  lemma NotBegun<V>(initial: Option<V>, maxRetries: nat, c: nat)
    ensures LossesAre(Initial(initial), maxRetries, c, 0)
  {
  }
}
