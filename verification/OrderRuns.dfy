/** When the documented rule for non-chain retention holds of every list that builds can make. */
module OrderRuns {
  import opened BundleLinks
  import opened BundleRuns
  import opened CasMachine
  import opened Cron
  import opened Entries
  import opened ListOps
  import Resolve
  import opened Retention
  import opened RetentionLaws
  import opened Strategies
  import opened Wrappers

  /** The names of a table whose order is wrong: top carries upper, and upper carries lower, which is listed first. */
  ghost predicate Names(tbl: Table, top: string, upper: string, lower: string)
    requires Sound(tbl)
  {
    && top in tbl && upper in tbl && lower in tbl
    && tbl[top].base == "" && tbl[upper].Loose() && tbl[lower].Loose()
    && Ancestor(tbl, upper, top) && Ancestor(tbl, lower, upper)
  }

  lemma NamesDiffer(tbl: Table, top: string, upper: string, lower: string)
    requires Sound(tbl) && Names(tbl, top, upper, lower)
    ensures top != upper && upper != lower && top != lower && Ancestor(tbl, lower, top) && tbl[top].kind == Full
  {
    AncestorBelow(tbl, upper, top);
    AncestorBelow(tbl, lower, upper);
    AncestorTrans(tbl, lower, upper, top);
  }

  /** Looking up from a strategy for the nearest entry finds e, when e's strategy is met before any other that has one. */
  lemma {:induction false} NearestIs(es: seq<Entry>, tbl: Table, name: string, slot: nat, e: Entry)
    requires Sound(tbl) && name in tbl && e in es && e.slot <= slot && (name == e.strategy || Ancestor(tbl, name, e.strategy))
    requires forall x :: x in es ==> x == e || (Ancestor(tbl, e.strategy, x.strategy) && x.strategy != e.strategy)
    ensures Resolve.Nearest(es, tbl, name, slot) == Some(e)
    decreases Depth(tbl, name)
  {
    Resolve.NewestIsNewest(es, name, slot, true);
    if name != e.strategy {
      AncestorBelow(tbl, name, e.strategy);
      DepthOfBase(tbl, name);
      forall x | x in es ensures x.strategy != name {
        if x != e { AncestorBelow(tbl, e.strategy, x.strategy); }
      }
      NearestIs(es, tbl, tbl[name].base, slot, e);
    }
  }

  /** A build of a non-chain strategy is cut on the entry its base links lead to first. */
  lemma LooseBuild(tbl: Table, name: string, slot: nat, view: seq<Entry>, e: Entry)
    requires Sound(tbl) && name in tbl && tbl[name].Loose() && e in view && e.slot <= slot && e.id == Id(e.strategy, e.slot)
    requires Ancestor(tbl, name, e.strategy)
    requires forall x :: x in view ==> x == e || (Ancestor(tbl, e.strategy, x.strategy) && x.strategy != e.strategy)
    ensures BuildEntry(tbl, name, slot, view, name) == Some(Sample(tbl, name, Incremental, slot, e.id))
  {
    DepthOfBase(tbl, name);
    NearestIs(view, tbl, tbl[name].base, slot, e);
  }

  lemma FullBuild(tbl: Table, name: string)
    requires Sound(tbl) && name in tbl && tbl[name].kind == Full
    ensures BuildEntry(tbl, name, 0, [], name) == Some(Sample(tbl, name, Full, 0, NoId))
  {
  }

  function Only(es: seq<Entry>): BundleList {
    BundleList(MODE_ALL, BY_TOKEN, es, [])
  }

  /** Three builds, each on the list the one before it left. */
  function ThreeBuilds(tbl: Table, top: string, upper: string, lower: string): nat -> Op
    requires top in tbl && upper in tbl && lower in tbl
  {
    var es := OrderSample(tbl, top, upper, lower);
    (c: nat) =>
      if c == 0 then Build(top, 0, [], top)
      else if c == 1 then Build(upper, 1, es[..1], upper)
      else Build(lower, 2, es[..2], lower)
  }

  function ThreeCalls(): seq<Step> {
    AloneSteps(0) + AloneSteps(1) + AloneSteps(2)
  }

  lemma BuildsAre(strats: seq<Strategy>, top: string, upper: string, lower: string)
    requires WellFormed(strats) && Sound(ByName(strats)) && Names(ByName(strats), top, upper, lower)
    ensures var tbl := ByName(strats);
      var ops, es := ThreeBuilds(tbl, top, upper, lower), OrderSample(tbl, top, upper, lower);
      && Mutator(strats, ops(0), None) == Write(Only(es[..1]))
      && Mutator(strats, ops(1), Some(Only(es[..1]))) == Write(Only(es[..2]))
      && Mutator(strats, ops(2), Some(Only(es[..2]))) == Write(Only(es))
  {
    hide Ancestor, HasDepth, ByName, WellFormed, BuildEntry;
    var tbl := ByName(strats);
    var es := OrderSample(tbl, top, upper, lower);
    NamesDiffer(tbl, top, upper, lower);
    assert es[..1] == [es[0]] && es[..2] == [es[0], es[1]];
    FullBuild(tbl, top);
    LooseBuild(tbl, upper, 1, es[..1], es[0]);
    LooseBuild(tbl, lower, 2, es[..2], es[1]);
    PlacedLast([], es[0]);
    PlacedLast(es[..1], es[1]);
    PlacedLast(es[..2], es[2]);
    assert [] + [es[0]] == es[..1] && es[..1] + [es[1]] == es[..2] && es[..2] + [es[2]] == es;
  }

  lemma PlacedLast(es: seq<Entry>, e: Entry)
    requires forall x :: x in es ==> x.id != e.id
    ensures Place(es, e) == es + [e]
  {
    PlaceFrom(es, e, |es|);
  }

  lemma CommitsAre(f: Mutators<BundleList>, l0: BundleList, l1: BundleList, l2: BundleList)
    requires f(0)(None) == Write(l0) && f(1)(Some(l0)) == Write(l1) && f(2)(Some(l1)) == Write(l2)
    ensures var s := Initial<BundleList>(None);
      && Run(f, MAX_RETRIES, s, AloneSteps(0)).initial == None && Run(f, MAX_RETRIES, s, AloneSteps(0)).history == [l0]
      && Run(f, MAX_RETRIES, s, AloneSteps(0) + AloneSteps(1)).initial == None
      && Run(f, MAX_RETRIES, s, AloneSteps(0) + AloneSteps(1)).history == [l0, l1]
      && Run(f, MAX_RETRIES, s, ThreeCalls()).initial == None && Run(f, MAX_RETRIES, s, ThreeCalls()).history == [l0, l1, l2]
  {
    hide Run, Take;
    var s0 := Initial<BundleList>(None);
    var s1 := Run(f, MAX_RETRIES, s0, AloneSteps(0));
    Undisturbed(f, MAX_RETRIES, s0, 0, l0);
    var s2 := Run(f, MAX_RETRIES, s1, AloneSteps(1));
    Undisturbed(f, MAX_RETRIES, s1, 1, l1);
    Undisturbed(f, MAX_RETRIES, s2, 2, l2);
    RunAppend(f, MAX_RETRIES, s0, AloneSteps(0), AloneSteps(1));
    RunAppend(f, MAX_RETRIES, s0, AloneSteps(0) + AloneSteps(1), AloneSteps(2));
    assert [] + [l0] == [l0] && [l0] + [l1] == [l0, l1] && [l0, l1] + [l2] == [l0, l1, l2];
  }

  lemma BeginsAt(i: nat)
    requires i < |ThreeCalls()| && ThreeCalls()[i].Begin?
    ensures (i == 0 && ThreeCalls()[i].c == 0 && ThreeCalls()[..i] == [])
            || (i == 4 && ThreeCalls()[i].c == 1 && ThreeCalls()[..i] == AloneSteps(0))
            || (i == 8 && ThreeCalls()[i].c == 2 && ThreeCalls()[..i] == AloneSteps(0) + AloneSteps(1))
  {
    var all := ThreeCalls();
    assert |all| == 12;
    assert all[..0] == [] && all[..4] == AloneSteps(0) && all[..8] == AloneSteps(0) + AloneSteps(1);
  }

  lemma ThreeGrounded(strats: seq<Strategy>, top: string, upper: string, lower: string)
    requires WellFormed(strats) && Sound(ByName(strats)) && Names(ByName(strats), top, upper, lower)
    ensures Grounded(strats, ThreeBuilds(ByName(strats), top, upper, lower), None, ThreeCalls())
    ensures var s := After(strats, ThreeBuilds(ByName(strats), top, upper, lower), None, ThreeCalls());
      |s.history| == 3 && s.history[2].bundles == OrderSample(ByName(strats), top, upper, lower)
  {
    hide Ancestor, HasDepth, ByName, WellFormed, Mutator, Run, AloneSteps, ThreeCalls;
    var tbl := ByName(strats);
    var ops, es := ThreeBuilds(tbl, top, upper, lower), OrderSample(tbl, top, upper, lower);
    BuildsAre(strats, top, upper, lower);
    CommitsAre(Calls(strats, ops), Only(es[..1]), Only(es[..2]), Only(es));
    forall i | 0 <= i < |ThreeCalls()| && ThreeCalls()[i].Begin? && ops(ThreeCalls()[i].c).Build?
      ensures Viewed(After(strats, ops, None, ThreeCalls()[..i]), ops(ThreeCalls()[i].c).view)
    {
      BeginsAt(i);
      var s := After(strats, ops, None, ThreeCalls()[..i]);
      if i == 4 { assert s.ValueAt(1).value.bundles == es[..1]; }
      if i == 8 { assert s.ValueAt(2).value.bundles == es[..2]; }
    }
  }

  /** Where the table lists a non-chain strategy before one it is based on, three builds on an empty store make a list of
      which the documented rule fails. */
  lemma WrongOrderIsReached(strats: seq<Strategy>) returns (ops: nat -> Op, steps: seq<Step>, es: seq<Entry>)
    requires WellFormed(strats) && !BasesComeFirst(strats)
    ensures Reached(strats, ops, None, steps, 3, es) && !LoosePromise(es, strats)
  {
    hide Ancestor, HasDepth, ByName, WellFormed, LoosePromise, BasesComeFirst, Grounded, After;
    ValidatedIsSound(strats);
    var i, j, top := WrongOrderIs(strats);
    NamesOf(strats, i, j, top);
    var tbl, upper, lower := ByName(strats), strats[j].name, strats[i].name;
    OrderCounterexample(strats, i, j, top);
    ThreeGrounded(strats, top, upper, lower);
    ops, steps, es := ThreeBuilds(tbl, top, upper, lower), ThreeCalls(), OrderSample(tbl, top, upper, lower);
  }

  lemma NamesOf(strats: seq<Strategy>, i: nat, j: nat, top: string)
    requires WellFormed(strats) && Sound(ByName(strats)) && WrongOrder(strats, i, j, top)
    ensures Names(ByName(strats), top, strats[j].name, strats[i].name)
  {
    hide Ancestor, HasDepth, ByName;
    ByNameFinds(strats);
  }

  /** The documented rule for non-chain strategies (of each, the two newest whose base is kept) holds of every list that any
      run on an empty store reaches, if and only if the table lists non-chain bases before the non-chain strategies built
      on them. */
  lemma OrderExactOverRuns(strats: seq<Strategy>)
    requires WellFormed(strats)
    ensures BasesComeFirst(strats) <==>
            forall ops, steps, k, es :: Reached(strats, ops, None, steps, k, es) ==> LoosePromise(es, strats)
  {
    hide LoosePromise, BasesComeFirst, Reached;
    if BasesComeFirst(strats) {
      forall ops, steps, k: nat, es | Reached(strats, ops, None, steps, k, es) ensures LoosePromise(es, strats) {
        EveryListKeepsPromise(strats, ops, None, steps, k, es);
      }
    } else {
      var ops, steps, es := WrongOrderIsReached(strats);
    }
  }

  function WrongTable(schedule: Schedule): seq<Strategy> {
    [Strategy("weekly", Full, "", schedule, 2, 0, false, "", 0, []),
     Strategy("hourly", Incremental, "daily", schedule, 0, 0, false, "", 0, []),
     Strategy("daily", Incremental, "weekly", schedule, 0, 0, false, "", 0, [])]
  }

  /** There are such tables, and validation accepts them. */
  lemma WrongTableExists(schedule: Schedule)
    ensures WellFormed(WrongTable(schedule)) && !BasesComeFirst(WrongTable(schedule))
  {
    hide ByName;
    var strats := WrongTable(schedule);
    var tbl := ByName(strats);
    ByNameFinds(strats);
    assert tbl[strats[0].name] == strats[0] && tbl[strats[1].name] == strats[1] && tbl[strats[2].name] == strats[2];
    assert HasDepth(tbl, "weekly", 0);
    assert HasDepth(tbl, "daily", 1);
    assert HasDepth(tbl, "hourly", 2);
    assert Acyclic(tbl);
    assert Ancestor(tbl, strats[1].name, strats[2].name);
  }
}
