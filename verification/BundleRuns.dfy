/** Runs of the planner: any number of builds, removals, verdict batches and prunes racing on one advertisement
    list, each build cut from a list read earlier. */
module BundleRuns {
  import opened CasMachine
  import opened Entries
  import opened ListOps
  import Resolve
  import opened Retention
  import opened Strategies
  import opened Wrappers

  const MAX_RETRIES := 8

  /** One call on the list. A build resolved its base against `view`; a prune plans its windows from the entries. */
  datatype Op =
    | Build(strategy: string, slot: nat, view: seq<Entry>, key: string)
    | Remove(ids: seq<EntryId>)
    | Record(verdicts: seq<SkippedSlot>)
    | Prune(windows: seq<Entry> -> Windows)

  /** The entry a build publishes; none when the strategy is unknown or the slot is blocked. */
  function BuildEntry(tbl: Table, strategy: string, slot: nat, view: seq<Entry>, key: string): Option<Entry>
    requires Acyclic(tbl)
  {
    if strategy !in tbl then None
    else
      var s := tbl[strategy];
      match Resolve.BaseIdFor(s, slot, view, tbl)
      case Err(_) => None
      case Ok(baseId) => Some(Entry(Id(strategy, slot), key, strategy, s.kind, slot, baseId, slot, s.filter))
  }

  ghost function Mutator(strats: seq<Strategy>, op: Op, cur: Option<BundleList>): Outcome<BundleList>
    requires WellFormed(strats)
  {
    var tbl := ByName(strats);
    match op
    case Build(strategy, slot, view, key) =>
      var e := BuildEntry(tbl, strategy, slot, view, key);
      if e.None? then Fail else Upserted(cur, e.value)
    case Remove(ids) => Removed(cur, ids)
    case Record(vs) => Recorded(cur, vs)
    case Prune(windows) =>
      if cur.None? then Abort
      else
        var settled := cur.value.(skipped := Standing(cur.value.bundles, tbl, windows(cur.value.bundles), cur.value.skipped));
        Write(Defaulted(settled.(bundles := Select(settled.bundles, Retained(settled.bundles, strats)))))
  }

  /** The settle-and-prune mutator, run on what the compare-and-swap loop read. */
  method SettleAndPrune(strats: seq<Strategy>, windows: seq<Entry> -> Windows, cur: Option<BundleList>)
    returns (next: Outcome<BundleList>)
    requires WellFormed(strats) && (cur.Some? ==> Orderly(cur.value.bundles))
    ensures next == Mutator(strats, Prune(windows), cur)
  {
    if cur.None? { return Abort; }
    var byName := ByName(strats);
    var list := SettleSkipped(cur.value, byName, windows(cur.value.bundles));
    list := PruneRetention(list, strats, byName);
    next := Write(Defaulted(list));
  }

  // ---- the links of a list ----

  /** How an entry was cut: a full on nothing; an incremental on an earlier slot of its own chain, or on an ancestor
      strategy at or before its slot. */
  ghost predicate Cut(tbl: Table, e: Entry)
    requires Sound(tbl)
  {
    && e.Stamped() && e.strategy in tbl && e.kind == tbl[e.strategy].kind && e.filter == tbl[e.strategy].filter
    && match e.baseId
       case NoId => e.kind == Full
       case Id(strategy, slot) =>
         && e.kind == Incremental
         && ((strategy == e.strategy && tbl[strategy].chain && slot < e.slot)
             || (Ancestor(tbl, e.strategy, strategy) && slot <= e.slot))
  }

  ghost predicate Good(tbl: Table, es: seq<Entry>)
    requires Sound(tbl)
  {
    Orderly(es) && forall e :: e in es ==> Cut(tbl, e)
  }

  /** Whatever list a build looked at, however stale, the entry it publishes is properly cut. */
  lemma BuildIsCut(tbl: Table, strategy: string, slot: nat, view: seq<Entry>, key: string)
    requires Sound(tbl) && Good(tbl, view)
    ensures var e := BuildEntry(tbl, strategy, slot, view, key); e.Some? ==> Cut(tbl, e.value)
  {
    if strategy in tbl && tbl[strategy].kind != Full {
      Resolve.BaseIsEarlier(tbl[strategy], slot, view, tbl);
    }
  }

  /** What a build publishes, from whatever list it looked at: a full on nothing, an incremental on the one entry that its slot
      is cut on, and nothing when there is none. */
  lemma BuildsExactly(tbl: Table, strategy: string, slot: nat, view: seq<Entry>, key: string, e: Entry)
    requires Sound(tbl)
    ensures BuildEntry(tbl, strategy, slot, view, key) == Some(e) <==>
              && strategy in tbl && e.key == key && e.strategy == strategy && e.slot == slot && e.Stamped()
              && e.kind == tbl[strategy].kind && e.filter == tbl[strategy].filter
              && if e.kind == Full then e.baseId == NoId
                 else exists b :: Resolve.CutOn(tbl[strategy], slot, view, tbl, b) && b.id == e.baseId
  {
    hide Resolve.BaseFor, Resolve.CutOn;
    if strategy in tbl && tbl[strategy].kind != Full {
      var s := tbl[strategy];
      forall b ensures Resolve.BaseFor(s, slot, view, tbl) == Some(b) <==> Resolve.CutOn(s, slot, view, tbl, b) {
        Resolve.CutExactly(s, slot, view, tbl, b);
      }
    }
  }

  lemma PlaceKeepsGood(tbl: Table, es: seq<Entry>, e: Entry)
    requires Sound(tbl) && Good(tbl, es) && Cut(tbl, e)
    ensures Good(tbl, Place(es, e))
  {
    PlaceMeans(es, e);
  }

  lemma SelectKeepsGood(tbl: Table, es: seq<Entry>, ids: set<EntryId>)
    requires Sound(tbl) && Good(tbl, es)
    ensures Good(tbl, Select(es, ids))
  {
    Selected(es, ids);
  }

  ghost predicate GoodList(tbl: Table, l: Option<BundleList>)
    requires Sound(tbl)
  {
    l.Some? ==> Good(tbl, l.value.bundles)
  }

  /** A call that can only do good: a build publishes a properly cut entry. */
  ghost predicate Harmless(strats: seq<Strategy>, op: Op)
    requires WellFormed(strats)
  {
    ValidatedIsSound(strats);
    op.Build? ==> var e := BuildEntry(ByName(strats), op.strategy, op.slot, op.view, op.key); e.Some? ==> Cut(ByName(strats), e.value)
  }

  lemma MutatorKeepsGood(strats: seq<Strategy>, op: Op, cur: Option<BundleList>)
    requires WellFormed(strats) && Harmless(strats, op)
    requires Sound(ByName(strats)) && GoodList(ByName(strats), cur)
    ensures var r := Mutator(strats, op, cur); r.Write? ==> Good(ByName(strats), r.value.bundles)
  {
    var tbl := ByName(strats);
    match op
    case Build(strategy, slot, view, key) =>
      var e := BuildEntry(tbl, strategy, slot, view, key);
      if e.Some? { PlaceKeepsGood(tbl, if cur.None? then [] else cur.value.bundles, e.value); }
    case Remove(ids) =>
      if cur.Some? { WithoutMeans(cur.value.bundles, ids); WithoutOrderly(cur.value.bundles, ids); }
    case Record(_) =>
    case Prune(_) =>
      if cur.Some? { SelectKeepsGood(tbl, cur.value.bundles, Retained(cur.value.bundles, strats)); }
  }

  // ---- reachable lists ----

  ghost function Calls(strats: seq<Strategy>, ops: nat -> Op): Mutators<BundleList>
    requires WellFormed(strats)
  {
    (c: nat) => (cur: Option<BundleList>) => Mutator(strats, ops(c), cur)
  }

  ghost function After(strats: seq<Strategy>, ops: nat -> Op, initial: Option<BundleList>, steps: seq<Step>): State<BundleList>
    requires WellFormed(strats)
  {
    Run(Calls(strats, ops), MAX_RETRIES, Initial(initial), steps)
  }

  /** view is the entries of a list committed by state s, or the empty list a failed read falls back to. */
  ghost predicate Viewed(s: State<BundleList>, view: seq<Entry>) {
    view == [] || exists k :: 0 <= k <= |s.history| && s.ValueAt(k).Some? && s.ValueAt(k).value.bundles == view
  }

  /** Every build begins with a view of some list committed before. */
  ghost predicate Grounded(strats: seq<Strategy>, ops: nat -> Op, initial: Option<BundleList>, steps: seq<Step>)
    requires WellFormed(strats)
  {
    forall i :: 0 <= i < |steps| && steps[i].Begin? && ops(steps[i].c).Build? ==>
      Viewed(After(strats, ops, initial, steps[..i]), ops(steps[i].c).view)
  }

  ghost predicate AllGood(strats: seq<Strategy>, ops: nat -> Op, s: State<BundleList>)
    requires WellFormed(strats) && Sound(ByName(strats))
  {
    && (forall k :: 0 <= k <= |s.history| ==> GoodList(ByName(strats), s.ValueAt(k)))
    && (forall c :: c in s.calls ==> Harmless(strats, ops(c)))
  }

  lemma ViewedIsGood(strats: seq<Strategy>, ops: nat -> Op, s: State<BundleList>, view: seq<Entry>)
    requires WellFormed(strats) && Sound(ByName(strats)) && AllGood(strats, ops, s) && Viewed(s, view)
    ensures Good(ByName(strats), view)
  {
    if view != [] {
      var k :| 0 <= k <= |s.history| && s.ValueAt(k).Some? && s.ValueAt(k).value.bundles == view;
      assert GoodList(ByName(strats), s.ValueAt(k));
    }
  }

  lemma StepKeepsAllGood(strats: seq<Strategy>, ops: nat -> Op, s: State<BundleList>, step: Step)
    requires WellFormed(strats) && Sound(ByName(strats)) && AllGood(strats, ops, s) && Inv(Calls(strats, ops), s)
    requires step.Begin? && ops(step.c).Build? ==> Viewed(s, ops(step.c).view)
    ensures AllGood(strats, ops, Take(Calls(strats, ops), MAX_RETRIES, s, step))
  {
    var f, c := Calls(strats, ops), step.c;
    var t := Take(f, MAX_RETRIES, s, step);
    hide Inv, WellFormed, Sound, GoodList, Harmless, Mutator;
    if Commits(s, step) {
      CommitIsGood(strats, ops, s, c);
    } else {
      OnlyOwnCall(f, MAX_RETRIES, s, step);
      assert forall k :: 0 <= k <= |t.history| ==> t.ValueAt(k) == s.ValueAt(k);
      if c !in s.calls && step.Begin? { BeginIsHarmless(strats, ops, s, c); }
    }
  }

  lemma BeginIsHarmless(strats: seq<Strategy>, ops: nat -> Op, s: State<BundleList>, c: nat)
    requires WellFormed(strats) && Sound(ByName(strats)) && AllGood(strats, ops, s)
    requires ops(c).Build? ==> Viewed(s, ops(c).view)
    ensures Harmless(strats, ops(c))
  {
    var op := ops(c);
    if op.Build? {
      ViewedIsGood(strats, ops, s, op.view);
      BuildIsCut(ByName(strats), op.strategy, op.slot, op.view, op.key);
    }
  }

  lemma CommitIsGood(strats: seq<Strategy>, ops: nat -> Op, s: State<BundleList>, c: nat)
    requires WellFormed(strats) && Sound(ByName(strats)) && AllGood(strats, ops, s) && Inv(Calls(strats, ops), s)
    requires c in s.calls && s.calls[c].phase.Writing? && s.cell.Version() == s.calls[c].phase.seen.Version()
    ensures AllGood(strats, ops, Commit(s, c, s.calls[c].phase.next))
  {
    var f, next := Calls(strats, ops), s.calls[c].phase.next;
    var t, n := Commit(s, c, next), |s.history|;
    assert CallOK(f, s, c, s.calls[c]);
    assert Mutator(strats, ops(c), s.ValueAt(n)) == Write(next);
    assert GoodList(ByName(strats), s.ValueAt(n));
    MutatorKeepsGood(strats, ops(c), s.ValueAt(n));
    forall k | 0 <= k <= |t.history| ensures GoodList(ByName(strats), t.ValueAt(k)) {
      if k <= n { StillCurrent(s, t, c, next, k); }
    }
  }

  lemma {:induction false} ReachableGood(strats: seq<Strategy>, ops: nat -> Op, initial: Option<BundleList>, steps: seq<Step>)
    requires WellFormed(strats) && Sound(ByName(strats)) && GoodList(ByName(strats), initial)
    requires Grounded(strats, ops, initial, steps)
    ensures AllGood(strats, ops, After(strats, ops, initial, steps))
    decreases |steps|
  {
    if steps != [] {
      var rest, step := steps[..|steps| - 1], steps[|steps| - 1];
      forall i | 0 <= i < |rest| && rest[i].Begin? && ops(rest[i].c).Build?
        ensures Viewed(After(strats, ops, initial, rest[..i]), ops(rest[i].c).view)
      {
        assert rest[..i] == steps[..i] && rest[i] == steps[i];
      }
      ReachableGood(strats, ops, initial, rest);
      RunKeepsInv(Calls(strats, ops), MAX_RETRIES, initial, rest);
      StepKeepsAllGood(strats, ops, After(strats, ops, initial, rest), step);
    }
  }

  /** In every list reachable by any interleaving, each entry is properly cut and ids are unique; so retention may
      assume what it does of the list it prunes. */
  lemma EveryListIsGood(strats: seq<Strategy>, ops: nat -> Op, initial: Option<BundleList>, steps: seq<Step>, k: nat)
    requires WellFormed(strats) && Grounded(strats, ops, initial, steps)
    requires initial.Some? ==> Sound(ByName(strats)) && Good(ByName(strats), initial.value.bundles)
    ensures Sound(ByName(strats))
    ensures var s := After(strats, ops, initial, steps);
      k <= |s.history| && s.ValueAt(k).Some? ==>
        Good(ByName(strats), s.ValueAt(k).value.bundles)
        && FullsStandAlone(s.ValueAt(k).value.bundles, strats)
  {
    ValidatedIsSound(strats);
    ReachableGood(strats, ops, initial, steps);
    var s := After(strats, ops, initial, steps);
    if k <= |s.history| && s.ValueAt(k).Some? {
      GoodFullsStandAlone(strats, s.ValueAt(k).value.bundles);
    }
  }

  // ---- verdicts ----

  ghost predicate Keyed(l: Option<BundleList>) {
    l.Some? ==> OnePerKey(l.value.skipped)
  }

  lemma MutatorKeepsKeyed(strats: seq<Strategy>, op: Op, cur: Option<BundleList>)
    requires WellFormed(strats) && Keyed(cur)
    ensures var r := Mutator(strats, op, cur); r.Write? ==> OnePerKey(r.value.skipped)
  {
    hide OnePerKey, Retained, Select, Place, Without, PlaceVerdicts, Standing, BuildEntry;
    NoVerdicts();
    match op
    case Build(_, _, _, _) =>
    case Remove(_) =>
    case Record(vs) => VerdictsKeyed(if cur.None? then [] else cur.value.skipped, vs);
    case Prune(windows) =>
      if cur.Some? { StandingKeepsKeys(cur.value.bundles, ByName(strats), windows(cur.value.bundles), cur.value.skipped); }
  }

  lemma NoVerdicts()
    ensures OnePerKey([])
  {
  }

  /** In every list of every run, on whatever views builds go, there is one record per (strategy, slot, base), if there is
      in the list it starts from. */
  lemma {:induction false} EveryListIsKeyed(strats: seq<Strategy>, ops: nat -> Op, initial: Option<BundleList>, steps: seq<Step>, k: nat)
    requires WellFormed(strats) && Keyed(initial)
    requires k <= |After(strats, ops, initial, steps).history|
    ensures Keyed(After(strats, ops, initial, steps).ValueAt(k))
    decreases k
  {
    hide Mutator, OnePerKey, After, Serialized, Accounted, Calls;
    var s := After(strats, ops, initial, steps);
    StartsAs(strats, ops, initial, steps);
    if k > 0 {
      EveryListIsKeyed(strats, ops, initial, steps, k - 1);
      CommitIs(strats, ops, initial, steps, k - 1);
      MutatorKeepsKeyed(strats, ops(s.authors[k - 1]), s.ValueAt(k - 1));
    }
  }

  lemma {:induction false} StartsAs(strats: seq<Strategy>, ops: nat -> Op, initial: Option<BundleList>, steps: seq<Step>)
    requires WellFormed(strats)
    ensures After(strats, ops, initial, steps).initial == initial
    decreases |steps|
  {
    hide WellFormed, Mutator;
    if steps != [] { StartsAs(strats, ops, initial, steps[..|steps| - 1]); }
  }

  lemma CommitIs(strats: seq<Strategy>, ops: nat -> Op, initial: Option<BundleList>, steps: seq<Step>, k: nat)
    requires WellFormed(strats) && k < |After(strats, ops, initial, steps).history|
    ensures var s := After(strats, ops, initial, steps);
      |s.authors| == |s.history| && Mutator(strats, ops(s.authors[k]), s.ValueAt(k)) == Write(s.history[k])
  {
    hide WellFormed, Mutator, Accounted;
    var f := Calls(strats, ops);
    NoLostUpdate(f, MAX_RETRIES, initial, steps);
    var s := After(strats, ops, initial, steps);
    assert f(s.authors[k])(s.ValueAt(k)) == Write(s.history[k]);
  }

  lemma GoodFullsStandAlone(strats: seq<Strategy>, es: seq<Entry>)
    requires WellFormed(strats) && Sound(ByName(strats)) && Good(ByName(strats), es)
    ensures FullsStandAlone(es, strats)
  {
    ByNameFinds(strats);
    forall e, s | e in es && s in strats && s.name == e.strategy && s.kind == Full ensures e.baseId == NoId {
      var i :| 0 <= i < |strats| && strats[i] == s;
    }
  }

  /** A call on the list gives up only after nine others have committed since it began, and tries again eight times at most. */
  lemma GivesUpAfterNine(strats: seq<Strategy>, ops: nat -> Op, initial: Option<BundleList>, before: seq<Step>, after: seq<Step>, c: nat)
    requires WellFormed(strats) && c !in After(strats, ops, initial, before).calls
    ensures var s := After(strats, ops, initial, before);
      var t := Run(Calls(strats, ops), MAX_RETRIES, s, after);
      && t == After(strats, ops, initial, before + after)
      && (c in t.calls && t.calls[c].phase == Done(Exhausted) ==> |t.history| >= |s.history| + 9 && c !in t.authors)
      && (c in t.calls && t.calls[c].phase.Reading? ==> t.calls[c].phase.attempt <= 8)
  {
    hide Calls;
    GivesUpAfterLosses(Calls(strats, ops), MAX_RETRIES, initial, before, after, c);
    RunAppend(Calls(strats, ops), MAX_RETRIES, Initial(initial), before, after);
  }
}
