/** What a removal or prune tells its caller to delete.

    It tells so after the list itself has been updated, from what its last attempt read and decided. */
module Removals {
  import opened BundleRuns
  import opened CasMachine
  import opened Cron
  import opened Entries
  import opened ListOps
  import opened Retention
  import opened Strategies
  import opened Wrappers

  /** The keys returned when a removal or prune is done, from the variables its mutator captured: nothing after an
      error, and nothing unless it saw a list and decided to write one. */
  function Returned(call: Call<BundleList>): seq<string> {
    if call.phase == Done(Failed) || call.phase == Done(Exhausted) || call.lastSeen.None? || call.lastWrite.None? then []
    else RemovedKeys(call.lastSeen.value.bundles, call.lastWrite.value.bundles)
  }

  /** A call that commits returns exactly the keys in the list before its commit and absent from the list it wrote. */
  lemma CommitReturnsDifference(strats: seq<Strategy>, ops: nat -> Op, initial: Option<BundleList>, steps: seq<Step>, c: nat, key: string)
    requires WellFormed(strats) && (ops(c).Remove? || ops(c).Prune?)
    requires var s := After(strats, ops, initial, steps); c in s.calls && s.calls[c].phase.Done? && s.calls[c].phase.result.Committed?
    ensures var s := After(strats, ops, initial, steps);
      var k := s.calls[c].phase.result.at;
      && k < |s.history| && s.ValueAt(k).Some?
      && (key in Returned(s.calls[c]) <==>
            key != "" && HasKey(s.ValueAt(k).value.bundles, key) && !HasKey(s.history[k].bundles, key))
  {
    var f := Calls(strats, ops);
    RunKeepsInv(f, MAX_RETRIES, initial, steps);
    var s := After(strats, ops, initial, steps);
    var k := s.calls[c].phase.result.at;
    assert CallOK(f, s, c, s.calls[c]);
    assert Descends(f, s, k);
    assert Mutator(strats, ops(c), s.ValueAt(k)) == Write(s.history[k]);
    RemovedKeysMean(s.ValueAt(k).value.bundles, s.history[k].bundles, key);
  }

  /** What a removal last decided to write before it aborted had lost this key of the list it aborted on. */
  ghost predicate Lost(call: Call<BundleList>, aborted: Option<BundleList>, key: string) {
    && aborted.Some? && call.lastWrite.Some?
    && key != "" && HasKey(aborted.value.bundles, key) && !HasKey(call.lastWrite.value.bundles, key)
  }

  /** The removal's answer to the k-th list is to abort, and the keys it returns are exactly those it lost of it. */
  ghost predicate AbortsOn(strats: seq<Strategy>, op: Op, s: State<BundleList>, call: Call<BundleList>, k: nat)
    requires WellFormed(strats)
  {
    && k <= |s.history| && Mutator(strats, op, s.ValueAt(k)) == Abort
    && forall key :: key in Returned(call) <==> Lost(call, s.ValueAt(k), key)
  }

  /** A call that aborts wrote nothing, and there is one list it aborted on: the keys it returns are exactly those of that
      list that what it last failed to write did not hold. So every one of them is still some entry's key, and it
      returns none exactly if it never lost a write, or that write would have kept them all. */
  lemma AbortReturnsLiveKeys(strats: seq<Strategy>, ops: nat -> Op, initial: Option<BundleList>, steps: seq<Step>, c: nat)
    requires WellFormed(strats) && ops(c).Remove?
    requires var s := After(strats, ops, initial, steps); c in s.calls && s.calls[c].phase == Done(Aborted)
    ensures var s := After(strats, ops, initial, steps);
      c !in s.authors && exists k: nat :: AbortsOn(strats, ops(c), s, s.calls[c], k)
  {
    var f := Calls(strats, ops);
    RunKeepsInv(f, MAX_RETRIES, initial, steps);
    var s := After(strats, ops, initial, steps);
    var call := s.calls[c];
    assert CallOK(f, s, c, call);
    var k: nat :| AbortedOn(f, s, c, call, k);
    forall key ensures key in Returned(call) <==> Lost(call, s.ValueAt(k), key) {
      if call.lastSeen.Some? && call.lastWrite.Some? {
        RemovedKeysMean(call.lastSeen.value.bundles, call.lastWrite.value.bundles, key);
      }
    }
    assert AbortsOn(strats, ops(c), s, call, k);
  }

  // ---- a removal that reports a live key ----

  function OneFull(schedule: Schedule): seq<Strategy> {
    [Strategy("weekly", Full, "", schedule, 2, 0, false, "", 0, [])]
  }

  lemma OneFullIsWellFormed(schedule: Schedule)
    ensures WellFormed(OneFull(schedule))
  {
    var strats := OneFull(schedule);
    var tbl := ByName(strats);
    ByNameFinds(strats);
    assert strats[0].name == "weekly" && strats[0] in strats;
    assert HasDepth(tbl, "weekly", 0);
    forall n | n in tbl ensures n == "weekly" { assert tbl[n] == strats[0]; }
  }

  function Weekly(slot: nat, key: string): Entry {
    Entry(Id("weekly", slot), key, "weekly", Full, slot, NoId, slot, "")
  }

  function ListOf(es: seq<Entry>): BundleList {
    BundleList(MODE_ALL, BY_TOKEN, es, [])
  }

  /** Two callers remove the same entry and a third publishes another. */
  function RacingOps(): nat -> Op {
    (c: nat) => if c == 2 then Build("weekly", 2, [], "c") else Remove([Id("weekly", 0)])
  }

  /** Call 0 decides to remove an entry, loses its write to call 1, which removes it, and to call 2, which publishes
      another; on its second read nothing is left to remove. */
  function RacingSteps(): seq<Step> {
    FirstAttempt(0) + AloneSteps(1) + AloneSteps(2) + LostAttempt(0)
  }

  function FirstAttempt(c: nat): seq<Step> {
    [Begin(c), Get(c), Mutate(c)]
  }

  function LostAttempt(c: nat): seq<Step> {
    [Put(c), Get(c), Mutate(c)]
  }

  lemma Decides<V>(f: Mutators<V>, maxRetries: nat, s: State<V>, c: nat, v: V)
    requires c !in s.calls && f(c)(s.cell.Value()) == Write(v)
    ensures var t := Run(f, maxRetries, s, FirstAttempt(c));
      && t.cell == s.cell && t.nextVersion == s.nextVersion && t.calls.Keys == s.calls.Keys + {c}
      && t.calls[c].phase == Writing(0, s.cell, v) && t.calls[c].lastWrite == Some(v)
  {
    RunThree(f, maxRetries, s, Begin(c), Get(c), Mutate(c));
  }

  lemma LosesThenAborts<V>(f: Mutators<V>, maxRetries: nat, s: State<V>, c: nat)
    requires maxRetries > 0 && c in s.calls && s.calls[c].phase.Writing? && s.calls[c].phase.attempt == 0
    requires s.cell.Holds? && s.cell.Version() != s.calls[c].phase.seen.Version() && f(c)(s.cell.Value()) == Abort
    ensures var t := Run(f, maxRetries, s, LostAttempt(c));
      && t.cell == s.cell && c in t.calls
      && t.calls[c] == Call(Done(Aborted), s.cell.Value(), s.calls[c].lastWrite)
  {
    RunThree(f, maxRetries, s, Put(c), Get(c), Mutate(c));
  }

  /** After a lost write a removal that finds nothing left to remove still reports keys by what it failed to write:
      here the key of an entry published meanwhile, which the current list holds. */
  lemma StaleAbortReportsLiveKey(schedule: Schedule)
    ensures WellFormed(OneFull(schedule))
    ensures var s := After(OneFull(schedule), RacingOps(), Some(ListOf([Weekly(0, "a"), Weekly(1, "b")])), RacingSteps());
      && 0 in s.calls && s.calls[0].phase == Done(Aborted) && s.cell.Holds?
      && "c" in Returned(s.calls[0]) && HasKey(s.cell.value.bundles, "c")
  {
    OneFullIsWellFormed(schedule);
    var f := Calls(OneFull(schedule), RacingOps());
    var a, b, c := Weekly(0, "a"), Weekly(1, "b"), Weekly(2, "c");
    MutatorsOfRace(schedule, f);
    Race(f, ListOf([a, b]), ListOf([b]), ListOf([b, c]));
    RaceReports(b, c);
  }

  lemma RaceReports(b: Entry, c: Entry)
    requires b.key == "b" && c.key == "c"
    ensures "c" in RemovedKeys([b, c], [b]) && HasKey([b, c], "c")
  {
    assert c in [b, c];
    assert !HasKey([b], "c");
    RemovedKeysMean([b, c], [b], "c");
  }

  /** The race, whatever the three lists are. */
  lemma Race(f: Mutators<BundleList>, l0: BundleList, l1: BundleList, l2: BundleList)
    requires f(0)(Some(l0)) == Write(l1) && f(1)(Some(l0)) == Write(l1) && f(2)(Some(l1)) == Write(l2) && f(0)(Some(l2)) == Abort
    ensures var s := Run(f, MAX_RETRIES, Initial(Some(l0)), RacingSteps());
      && 0 in s.calls && s.calls[0] == Call(Done(Aborted), Some(l2), Some(l1)) && s.cell.Holds? && s.cell.value == l2
  {
    hide Run, Take;
    var s0 := Initial(Some(l0));
    var s1 := Run(f, MAX_RETRIES, s0, FirstAttempt(0));
    Decides(f, MAX_RETRIES, s0, 0, l1);
    var s2 := Run(f, MAX_RETRIES, s1, AloneSteps(1));
    Undisturbed(f, MAX_RETRIES, s1, 1, l1);
    var s3 := Run(f, MAX_RETRIES, s2, AloneSteps(2));
    Undisturbed(f, MAX_RETRIES, s2, 2, l2);
    LosesThenAborts(f, MAX_RETRIES, s3, 0);
    RaceIs(f, s0);
  }

  lemma RaceIs(f: Mutators<BundleList>, s: State<BundleList>)
    ensures Run(f, MAX_RETRIES, s, RacingSteps()) ==
      Run(f, MAX_RETRIES, Run(f, MAX_RETRIES, Run(f, MAX_RETRIES, Run(f, MAX_RETRIES, s, FirstAttempt(0)), AloneSteps(1)), AloneSteps(2)), LostAttempt(0))
  {
    hide Run;
    RunAppend(f, MAX_RETRIES, s, FirstAttempt(0) + AloneSteps(1) + AloneSteps(2), LostAttempt(0));
    RunAppend(f, MAX_RETRIES, s, FirstAttempt(0) + AloneSteps(1), AloneSteps(2));
    RunAppend(f, MAX_RETRIES, s, FirstAttempt(0), AloneSteps(1));
  }

  lemma RemoveOne(a: Entry, b: Entry, id: EntryId)
    requires b.id != id
    ensures Without([a, b], [id]) == if a.id == id then [b] else [a, b]
  {
    assert [a, b][..1] == [a] && [a][..0] == [];
    assert Without([a], [id]) == Without([], [id]) + (if a.id == id then [] else [a]);
  }

  lemma PlaceAfter(b: Entry, c: Entry)
    requires b.id != c.id
    ensures Place([b], c) == [b, c]
  {
    assert [b][1..] == [];
    assert Place([], c) == [c];
  }

  lemma BuildOfRace(schedule: Schedule)
    requires WellFormed(OneFull(schedule))
    ensures Acyclic(ByName(OneFull(schedule)))
    ensures BuildEntry(ByName(OneFull(schedule)), "weekly", 2, [], "c") == Some(Weekly(2, "c"))
  {
    ByNameFinds(OneFull(schedule));
    assert OneFull(schedule)[0].name == "weekly";
  }

  /** What the three calls answer to the lists they meet in the race. */
  lemma MutatorsOfRace(schedule: Schedule, f: Mutators<BundleList>)
    requires WellFormed(OneFull(schedule)) && f == Calls(OneFull(schedule), RacingOps())
    ensures var a, b, c := Weekly(0, "a"), Weekly(1, "b"), Weekly(2, "c");
      && f(0)(Some(ListOf([a, b]))) == Write(ListOf([b])) && f(1)(Some(ListOf([a, b]))) == Write(ListOf([b]))
      && f(2)(Some(ListOf([b]))) == Write(ListOf([b, c])) && f(0)(Some(ListOf([b, c]))) == Abort
  {
    hide ByName, WellFormed, Without, Place, BuildEntry;
    var a, b, c := Weekly(0, "a"), Weekly(1, "b"), Weekly(2, "c");
    RemoveOne(a, b, Id("weekly", 0));
    RemoveOne(b, c, Id("weekly", 0));
    PlaceAfter(b, c);
    BuildOfRace(schedule);
    var strats := OneFull(schedule);
    var first := Remove([Id("weekly", 0)]);
    assert RacingOps()(0) == first && RacingOps()(1) == first && RacingOps()(2) == Build("weekly", 2, [], "c");
    assert Mutator(strats, first, Some(ListOf([a, b]))) == Write(ListOf([b]));
    assert Mutator(strats, first, Some(ListOf([b, c]))) == Abort;
    assert Mutator(strats, Build("weekly", 2, [], "c"), Some(ListOf([b]))) == Write(ListOf([b, c]));
  }
}
