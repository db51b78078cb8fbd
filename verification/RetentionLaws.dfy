/** The retention rule entry by entry, its idempotence, what readers see, and when the table's order matters. */
module RetentionLaws {
  import opened Entries
  import opened Strategies
  import opened Retention

  ghost function Chain(es: seq<Entry>, strats: seq<Strategy>): set<EntryId> {
    ChainUnder(es, ByName(strats), KeptFulls(es, strats))
  }

  /** What is kept when the turn of the i-th strategy comes. */
  ghost function KeptBefore(es: seq<Entry>, strats: seq<Strategy>, i: nat): set<EntryId>
    requires i <= |strats|
  {
    KeptWithLoose(es, strats[..i], Chain(es, strats))
  }

  lemma {:induction false} LooseGrows(es: seq<Entry>, strats: seq<Strategy>, i: nat, j: nat)
    requires i <= j <= |strats|
    ensures KeptBefore(es, strats, i) <= KeptBefore(es, strats, j)
    decreases j
  {
    if i < j {
      LooseGrows(es, strats, i, j - 1);
      assert strats[..j][..j - 1] == strats[..j - 1];
    }
  }

  lemma LooseTurn(es: seq<Entry>, strats: seq<Strategy>, i: nat)
    requires i < |strats|
    ensures KeptBefore(es, strats, i + 1) == KeptBefore(es, strats, i) + LooseOf(es, strats[i], KeptBefore(es, strats, i))
  {
    assert strats[..i + 1][..i] == strats[..i];
  }

  /** An id kept in the end is on the chain, or was kept in the turn of one non-chain strategy. */
  lemma {:induction false} KeptInTurn(es: seq<Entry>, strats: seq<Strategy>, j: nat, id: EntryId)
    requires j <= |strats| && id in KeptBefore(es, strats, j)
    ensures id in Chain(es, strats) ||
            exists i, e :: 0 <= i < j && strats[i].Loose() && e in Based(es, strats[i].name, KeptBefore(es, strats, i))
                           && e.id == id && id in LooseOf(es, strats[i], KeptBefore(es, strats, i))
  {
    if j > 0 {
      assert strats[..j][..j - 1] == strats[..j - 1];
      var before := KeptBefore(es, strats, j - 1);
      if id in before {
        KeptInTurn(es, strats, j - 1, id);
      } else {
        var e :| e in Based(es, strats[j - 1].name, before) && e.id == id;
      }
    }
  }

  lemma RetainedIsLast(es: seq<Entry>, strats: seq<Strategy>)
    ensures Retained(es, strats) == KeptBefore(es, strats, |strats|)
  {
    assert strats[..|strats|] == strats;
  }

  lemma OneStrategy(strats: seq<Strategy>, i: nat, t: Strategy)
    requires UniqueNames(strats) && i < |strats| && t in strats && t.name == strats[i].name
    ensures t == strats[i]
  {
    var j :| 0 <= j < |strats| && strats[j] == t;
  }

  /** A retained entry is on the chain, or its own strategy is non-chain and kept it in its turn. */
  lemma KeptSource(es: seq<Entry>, strats: seq<Strategy>, i: nat, e: Entry)
    requires Orderly(es) && UniqueNames(strats) && i < |strats| && e in es && e.strategy == strats[i].name
    requires e.id in Retained(es, strats)
    ensures e.id in Chain(es, strats) || (strats[i].Loose() && e.id in LooseOf(es, strats[i], KeptBefore(es, strats, i)))
  {
    RetainedIsLast(es, strats);
    KeptInTurn(es, strats, |strats|, e.id);
    if e.id !in Chain(es, strats) {
      var j, f :| 0 <= j < |strats| && strats[j].Loose() && f in Based(es, strats[j].name, KeptBefore(es, strats, j))
                  && f.id == e.id && f.id in LooseOf(es, strats[j], KeptBefore(es, strats, j));
      SameId(es, e, f);
      assert i == j;
    }
  }

  /** A chain entry belongs to a full strategy that keeps it, or to a chain strategy. */
  lemma ChainSource(es: seq<Entry>, strats: seq<Strategy>, i: nat, e: Entry)
    requires Orderly(es) && UniqueNames(strats) && i < |strats| && e in es && e.strategy == strats[i].name
    requires e.id in Chain(es, strats)
    ensures (strats[i].kind == Full && e.id in KeptFulls(es, strats)) || strats[i].ChainLink()
  {
    var tbl, fulls := ByName(strats), KeptFulls(es, strats);
    ByNameFinds(strats);
    if e.id in fulls {
      KeptFullsAreFulls(es, strats, e.id);
      var f, s :| f in es && s in strats && s.name == f.strategy && s.kind == Full && f.id == e.id;
      SameId(es, e, f);
      OneStrategy(strats, i, s);
    } else {
      var n: nat :| Reaches(es, tbl, fulls, e.id, n);
      var f :| f in es && f.id == e.id && OnChain(tbl, f);
      SameId(es, e, f);
    }
  }

  lemma ChainIsRetained(es: seq<Entry>, strats: seq<Strategy>)
    ensures Chain(es, strats) <= Retained(es, strats)
  {
    RetainedIsLast(es, strats);
    LooseGrows(es, strats, 0, |strats|);
  }

  /** An entry of a full strategy is retained when fewer than `keep` of that strategy's entries are newer. */
  lemma FullRule(es: seq<Entry>, strats: seq<Strategy>, i: nat, e: Entry)
    requires Orderly(es) && UniqueNames(strats) && i < |strats| && strats[i].kind == Full
    requires e in es && e.strategy == strats[i].name
    ensures e.id in Retained(es, strats) <==>
              |Newer(OfStrategy(es, e.strategy), e)| < if strats[i].keep > 0 then strats[i].keep else 2
  {
    ChainIsRetained(es, strats);
    FullKept(es, strats, i, e, |strats|);
    assert strats[..|strats|] == strats;
    if e.id in KeptFulls(es, strats) {
      ReachedInList(es, ByName(strats), KeptFulls(es, strats), e.id, 0);
    }
    if e.id in Retained(es, strats) {
      KeptSource(es, strats, i, e);
      ChainSource(es, strats, i, e);
    }
  }

  lemma {:induction false} FullKept(es: seq<Entry>, strats: seq<Strategy>, i: nat, e: Entry, n: nat)
    requires Orderly(es) && UniqueNames(strats) && i < |strats| && n <= |strats| && strats[i].kind == Full
    requires e in es && e.strategy == strats[i].name
    ensures e.id in KeptFulls(es, strats[..n]) <==>
            i < n && |Newer(OfStrategy(es, e.strategy), e)| < strats[i].EffectiveKeep()
  {
    if n > 0 {
      FullKept(es, strats, i, e, n - 1);
      assert strats[..n][..n - 1] == strats[..n - 1];
      FullTurn(es, strats[n - 1], e);
    }
  }

  /** A full strategy's turn keeps an entry only of its own, by rank. */
  lemma FullTurn(es: seq<Entry>, s: Strategy, e: Entry)
    requires Orderly(es) && e in es
    ensures e.id in Newest(OfStrategy(es, s.name), s.EffectiveKeep()) <==>
            e.strategy == s.name && |Newer(OfStrategy(es, e.strategy), e)| < s.EffectiveKeep()
  {
    if e.id in Newest(OfStrategy(es, s.name), s.EffectiveKeep()) {
      var f :| f in OfStrategy(es, s.name) && |Newer(OfStrategy(es, s.name), f)| < s.EffectiveKeep() && f.id == e.id;
      SameId(es, e, f);
    }
  }

  /** Base links lead from id through chain entries to a kept full. */
  ghost predicate LedToFull(es: seq<Entry>, strats: seq<Strategy>, id: EntryId) {
    exists n: nat :: Reaches(es, ByName(strats), KeptFulls(es, strats), id, n)
  }

  /** An entry of a chain strategy is retained when its base links lead through chain entries to a kept full. */
  lemma ChainRule(es: seq<Entry>, strats: seq<Strategy>, i: nat, e: Entry)
    requires Orderly(es) && UniqueNames(strats) && i < |strats| && strats[i].ChainLink()
    requires e in es && e.strategy == strats[i].name
    ensures e.id in Retained(es, strats) <==> LedToFull(es, strats, e.id)
  {
    ChainIsRetained(es, strats);
    if e.id in Retained(es, strats) {
      KeptSource(es, strats, i, e);
    }
    if LedToFull(es, strats, e.id) {
      LedIsChain(es, strats, e.id);
    }
  }

  /** The entry a chain entry is built on: listed, retained, and of a full or a chain strategy. */
  ghost predicate StandsOn(es: seq<Entry>, strats: seq<Strategy>, id: EntryId, b: Entry, j: nat) {
    && b in es && b.id == id && b.id in Retained(es, strats) && j < |strats| && strats[j].name == b.strategy
    && (strats[j].kind == Full || (strats[j].kind == Incremental && strats[j].chain))
  }

  /** Step by step: an entry of a chain strategy is retained exactly when it names a base, and that is an entry retained of a full
      or of a chain strategy. */
  lemma ChainStep(es: seq<Entry>, strats: seq<Strategy>, i: nat, e: Entry)
    requires Orderly(es) && UniqueNames(strats) && i < |strats| && strats[i].kind == Incremental && strats[i].chain
    requires e in es && e.strategy == strats[i].name
    ensures e.id in Retained(es, strats) <==> e.baseId != NoId && exists b, j :: StandsOn(es, strats, e.baseId, b, j)
  {
    hide Retained, KeptFulls, KeptBefore, ByName;
    ByNameFinds(strats);
    ChainIsRetained(es, strats);
    if e.id in Retained(es, strats) {
      KeptSource(es, strats, i, e);
      BaseOfChain(es, strats, i, e);
    }
    if e.baseId != NoId && exists b, j :: StandsOn(es, strats, e.baseId, b, j) {
      var b, j :| StandsOn(es, strats, e.baseId, b, j);
      KeptSource(es, strats, j, b);
      ChainStepReaches(es, ByName(strats), KeptFulls(es, strats), e);
    }
  }

  lemma BaseOfChain(es: seq<Entry>, strats: seq<Strategy>, i: nat, e: Entry)
    requires Orderly(es) && UniqueNames(strats) && i < |strats| && strats[i].ChainLink()
    requires e in es && e.strategy == strats[i].name && e.id in Chain(es, strats)
    ensures e.baseId != NoId && exists b, j :: StandsOn(es, strats, e.baseId, b, j)
  {
    hide Retained, KeptFulls, KeptBefore, ByName;
    var tbl, fulls := ByName(strats), KeptFulls(es, strats);
    ByNameFinds(strats);
    IdsAgree(es);
    ChainIsRetained(es, strats);
    var n: nat :| Reaches(es, tbl, fulls, e.id, n);
    if e.id in fulls { AmongFulls(es, strats, i, e); }
    var f :| f in es && f.id == e.id && OnChain(tbl, f) && Reaches(es, tbl, fulls, f.baseId, n - 1);
    assert f == e;
    ReachedInList(es, tbl, fulls, e.baseId, n - 1);
    if e.baseId in fulls {
      KeptFullsAreFulls(es, strats, e.baseId);
      var b, s :| b in es && s in strats && s.name == b.strategy && s.kind == Full && b.id == e.baseId;
      var j: nat :| j < |strats| && strats[j] == s;
      assert StandsOn(es, strats, e.baseId, b, j);
    } else {
      var b :| b in es && b.id == e.baseId && OnChain(tbl, b);
      var j: nat :| j < |strats| && strats[j] == tbl[b.strategy];
      assert StandsOn(es, strats, e.baseId, b, j);
    }
  }

  lemma AmongFulls(es: seq<Entry>, strats: seq<Strategy>, i: nat, e: Entry)
    requires Orderly(es) && UniqueNames(strats) && i < |strats| && e in es && e.strategy == strats[i].name
    requires e.id in KeptFulls(es, strats)
    ensures strats[i].kind == Full
  {
    hide KeptFulls;
    KeptFullsAreFulls(es, strats, e.id);
    var f, s :| f in es && s in strats && s.name == f.strategy && s.kind == Full && f.id == e.id;
    SameId(es, e, f);
    OneStrategy(strats, i, s);
  }

  lemma LedIsChain(es: seq<Entry>, strats: seq<Strategy>, id: EntryId)
    requires LedToFull(es, strats, id)
    ensures id in Chain(es, strats)
  {
    var n: nat :| Reaches(es, ByName(strats), KeptFulls(es, strats), id, n);
    ReachedInList(es, ByName(strats), KeptFulls(es, strats), id, n);
  }

  /** An entry of a non-chain strategy is retained when it is among the two newest of that strategy whose base
      was kept before the strategy's turn. */
  lemma LooseRule(es: seq<Entry>, strats: seq<Strategy>, i: nat, e: Entry)
    requires Orderly(es) && UniqueNames(strats) && i < |strats| && strats[i].Loose()
    requires e in es && e.strategy == strats[i].name
    ensures e.id in Retained(es, strats) <==> e.id in LooseOf(es, strats[i], KeptBefore(es, strats, i))
  {
    hide KeptWithLoose, Newest, ChainUnder, KeptFulls;
    RetainedIsLast(es, strats);
    LooseGrows(es, strats, i + 1, |strats|);
    LooseTurn(es, strats, i);
    if e.id in Retained(es, strats) {
      KeptSource(es, strats, i, e);
      if e.id in Chain(es, strats) {
        ChainSource(es, strats, i, e);
      }
    }
  }

  /** Counted out: its base was kept by then, and of the later entries of its strategy fewer than two had theirs kept. */
  lemma LooseCounted(es: seq<Entry>, strats: seq<Strategy>, i: nat, e: Entry)
    requires Orderly(es) && UniqueNames(strats) && i < |strats| && strats[i].kind == Incremental && !strats[i].chain
    requires e in es && e.strategy == strats[i].name
    ensures var before := KeptBefore(es, strats, i);
      e.id in Retained(es, strats) <==>
        && e.baseId != NoId && e.baseId in before
        && |set f | f in es && f.strategy == e.strategy && f.slot > e.slot && f.baseId != NoId && f.baseId in before| < 2
  {
    hide Retained, KeptBefore;
    var before := KeptBefore(es, strats, i);
    LooseRule(es, strats, i, e);
    var based := Based(es, strats[i].name, before);
    assert Newer(based, e) == set f | f in es && f.strategy == e.strategy && f.slot > e.slot && f.baseId != NoId && f.baseId in before;
    if e.id in LooseOf(es, strats[i], before) {
      var f :| f in based && |Newer(based, f)| < LOOSE_KEEP && f.id == e.id;
      IdsAgree(es);
    }
  }

  // ---- pruning a pruned list ----

  /** Taking the newest n of the newest n changes nothing. */
  lemma NewestAgain(es: set<Entry>, top: set<Entry>, n: nat)
    requires forall e, f :: e in es && f in es && e.id == f.id ==> e == f
    requires forall e :: e in top <==> e in es && e.id in Newest(es, n)
    ensures Newest(top, n) == Newest(es, n)
  {
    forall e | e in top ensures |Newer(top, e)| < n {
      var f :| f in es && |Newer(es, f)| < n && f.id == e.id;
      assert Newer(top, e) <= Newer(es, e);
      SubsetSize(Newer(top, e), Newer(es, e));
    }
    forall id | id in Newest(es, n) ensures id in Newest(top, n) {
      var e :| e in es && |Newer(es, e)| < n && e.id == id;
      assert e in top;
    }
  }

  lemma {:induction false} SubsetSize(a: set<Entry>, b: set<Entry>)
    requires a <= b
    ensures |a| <= |b|
  {
    if a != {} {
      var e :| e in a;
      SubsetSize(a - {e}, b - {e});
    }
  }

  lemma IdsAgree(es: seq<Entry>)
    requires Orderly(es)
    ensures forall e, f :: e in es && f in es && e.id == f.id ==> e == f
  {
    forall e, f | e in es && f in es && e.id == f.id ensures e == f { SameId(es, e, f); }
  }

  lemma FullAgain(es: seq<Entry>, strats: seq<Strategy>, k: nat)
    requires Orderly(es) && UniqueNames(strats) && k < |strats| && strats[k].kind == Full
    ensures var s, out := strats[k], Select(es, Retained(es, strats));
      Newest(OfStrategy(out, s.name), s.EffectiveKeep()) == Newest(OfStrategy(es, s.name), s.EffectiveKeep())
  {
    hide Retained, UniqueNames;
    var s, kept := strats[k], Retained(es, strats);
    var out := Select(es, kept);
    Selected(es, kept);
    IdsAgree(es);
    forall e ensures e in OfStrategy(out, s.name) <==>
                     e in OfStrategy(es, s.name) && e.id in Newest(OfStrategy(es, s.name), s.EffectiveKeep()) {
      if e in OfStrategy(es, s.name) { FullRule(es, strats, k, e); }
    }
    NewestAgain(OfStrategy(es, s.name), OfStrategy(out, s.name), s.EffectiveKeep());
  }

  lemma {:induction false} FullsAgain(es: seq<Entry>, strats: seq<Strategy>, n: nat)
    requires Orderly(es) && UniqueNames(strats) && n <= |strats|
    ensures KeptFulls(Select(es, Retained(es, strats)), strats[..n]) == KeptFulls(es, strats[..n])
  {
    hide Retained, Newest, UniqueNames, Orderly, Select;
    if n > 0 {
      FullsAgain(es, strats, n - 1);
      assert strats[..n][..n - 1] == strats[..n - 1];
      if strats[n - 1].kind == Full { FullAgain(es, strats, n - 1); }
    }
  }

  lemma {:induction false} ReachAgain(es: seq<Entry>, out: seq<Entry>, tbl: Table, from: set<EntryId>, id: EntryId, n: nat)
    requires Reaches(es, tbl, from, id, n)
    requires forall e :: e in out <==> e in es && (e.id in ChainUnder(es, tbl, from) || e in out)
    ensures Reaches(out, tbl, from, id, n)
    decreases n
  {
    if id !in from {
      var e :| e in es && e.id == id && OnChain(tbl, e) && Reaches(es, tbl, from, e.baseId, n - 1);
      ReachedInList(es, tbl, from, id, n);
      ReachAgain(es, out, tbl, from, e.baseId, n - 1);
      assert e in out;
    }
  }

  lemma {:induction false} ReachMonotone(es: seq<Entry>, out: seq<Entry>, tbl: Table, from: set<EntryId>, id: EntryId, n: nat)
    requires Reaches(out, tbl, from, id, n) && forall e :: e in out ==> e in es
    ensures Reaches(es, tbl, from, id, n)
    decreases n
  {
    if id !in from {
      var e :| e in out && e.id == id && OnChain(tbl, e) && Reaches(out, tbl, from, e.baseId, n - 1);
      ReachMonotone(es, out, tbl, from, e.baseId, n - 1);
    }
  }

  lemma ChainAgain(es: seq<Entry>, strats: seq<Strategy>)
    requires Orderly(es) && UniqueNames(strats)
    ensures Chain(Select(es, Retained(es, strats)), strats) == Chain(es, strats)
  {
    var kept, tbl, from := Retained(es, strats), ByName(strats), KeptFulls(es, strats);
    var out := Select(es, kept);
    Selected(es, kept);
    FullsAgain(es, strats, |strats|);
    assert strats[..|strats|] == strats;
    RetainedIsLast(es, strats);
    LooseGrows(es, strats, 0, |strats|);
    forall id ensures id in ChainUnder(es, tbl, from) <==> id in ChainUnder(out, tbl, from) {
      if id in ChainUnder(es, tbl, from) {
        var n: nat :| Reaches(es, tbl, from, id, n);
        ReachAgain(es, out, tbl, from, id, n);
        ReachedInList(out, tbl, from, id, n);
      }
      if id in ChainUnder(out, tbl, from) {
        var n: nat :| Reaches(out, tbl, from, id, n);
        ReachMonotone(es, out, tbl, from, id, n);
        ReachedInList(es, tbl, from, id, n);
      }
    }
  }

  lemma {:induction false} LooseAgain(es: seq<Entry>, strats: seq<Strategy>, i: nat)
    requires Orderly(es) && UniqueNames(strats) && i <= |strats|
    ensures KeptBefore(Select(es, Retained(es, strats)), strats, i) == KeptBefore(es, strats, i)
  {
    var kept := Retained(es, strats);
    var out := Select(es, kept);
    if i == 0 {
      ChainAgain(es, strats);
    } else {
      LooseAgain(es, strats, i - 1);
      LooseTurn(es, strats, i - 1);
      LooseTurn(out, strats, i - 1);
      if strats[i - 1].Loose() { LooseTurnAgain(es, strats, i - 1); }
    }
  }

  lemma LooseTurnAgain(es: seq<Entry>, strats: seq<Strategy>, i: nat)
    requires Orderly(es) && UniqueNames(strats) && i < |strats| && strats[i].Loose()
    ensures var out, before := Select(es, Retained(es, strats)), KeptBefore(es, strats, i);
            LooseOf(out, strats[i], before) == LooseOf(es, strats[i], before)
  {
    hide KeptWithLoose, Newest, ChainUnder, KeptFulls;
    var kept, name, before := Retained(es, strats), strats[i].name, KeptBefore(es, strats, i);
    var out := Select(es, kept);
    Selected(es, kept);
    IdsAgree(es);
    forall e ensures e in Based(out, name, before) <==>
                     e in Based(es, name, before) && e.id in Newest(Based(es, name, before), LOOSE_KEEP) {
      if e in Based(es, name, before) { LooseRule(es, strats, i, e); }
    }
    NewestAgain(Based(es, name, before), Based(out, name, before), LOOSE_KEEP);
  }

  lemma {:induction false} SelectAll(es: seq<Entry>, ids: set<EntryId>)
    requires forall e :: e in es ==> e.id in ids
    ensures Select(es, ids) == es
  {
    if es != [] {
      assert es == es[..|es| - 1] + [es[|es| - 1]];
      SelectAll(es[..|es| - 1], ids);
    }
  }

  /** Pruning a pruned list removes nothing more. */
  lemma PruneIdempotent(es: seq<Entry>, strats: seq<Strategy>)
    requires Orderly(es) && UniqueNames(strats)
    ensures var out := Select(es, Retained(es, strats)); Select(out, Retained(out, strats)) == out
  {
    var kept := Retained(es, strats);
    var out := Select(es, kept);
    LooseAgain(es, strats, |strats|);
    RetainedIsLast(es, strats);
    RetainedIsLast(out, strats);
    Selected(es, kept);
    SelectAll(out, kept);
  }

  // ---- what readers of the list see ----

  /** An entry a rendered list leaves out: an incremental whose base entry is gone. */
  predicate Orphan(e: Entry, ids: set<EntryId>) {
    e.kind == Incremental && e.baseId != NoId && e.baseId !in ids
  }

  function Unorphaned(es: seq<Entry>, ids: set<EntryId>, catchup: bool): seq<Entry> {
    if es == [] then []
    else
      var e := es[|es| - 1];
      Unorphaned(es[..|es| - 1], ids, catchup) + (if (catchup && e.kind == Full) || Orphan(e, ids) then [] else [e])
  }

  ghost predicate Ascending(es: seq<Entry>) {
    forall i, j :: 0 <= i < j < |es| ==> es[i].creationToken <= es[j].creationToken
  }

  /** The entries a clone (or, without fulls, a catch-up) is offered, in creation token order. */
  method NonOrphaned(list: seq<Entry>, catchup: bool) returns (out: seq<Entry>)
    ensures multiset(out) == multiset(Unorphaned(list, Ids(Elements(list)), catchup)) && Ascending(out)
  {
    var ids := {};
    for i := 0 to |list|
      invariant ids == Ids(Elements(list[..i]))
    {
      assert Elements(list[..i + 1]) == Elements(list[..i]) + {list[i]};
      ids := ids + {list[i].id};
    }
    assert list[..|list|] == list;
    out := [];
    for i := 0 to |list|
      invariant multiset(out) == multiset(Unorphaned(list[..i], ids, catchup)) && Ascending(out)
    {
      var e := list[i];
      UnorphanedStep(list, i, ids, catchup);
      if !((catchup && e.kind == Full) || Orphan(e, ids)) {
        out := InsertAscending(out, e);
      }
    }
  }

  lemma UnorphanedStep(list: seq<Entry>, i: nat, ids: set<EntryId>, catchup: bool)
    requires i < |list|
    ensures multiset(Unorphaned(list[..i + 1], ids, catchup)) == multiset(Unorphaned(list[..i], ids, catchup)) +
              (if (catchup && list[i].kind == Full) || Orphan(list[i], ids) then multiset{} else multiset{list[i]})
  {
    assert list[..i + 1][..i] == list[..i];
  }

  method InsertAscending(es: seq<Entry>, e: Entry) returns (out: seq<Entry>)
    requires Ascending(es)
    ensures Ascending(out) && multiset(out) == multiset(es) + multiset{e}
  {
    var k := |es|;
    while k > 0 && es[k - 1].creationToken > e.creationToken
      invariant 0 <= k <= |es|
      invariant forall j :: k <= j < |es| ==> es[j].creationToken > e.creationToken
    {
      k := k - 1;
    }
    InsertedAscending(es, e, k);
    InsertedSame(es, e, k);
    out := es[..k] + [e] + es[k..];
  }

  lemma InsertedSame(es: seq<Entry>, e: Entry, k: nat)
    requires k <= |es|
    ensures multiset(es[..k] + [e] + es[k..]) == multiset(es) + multiset{e}
  {
    assert es == es[..k] + es[k..];
  }

  lemma InsertedAscending(es: seq<Entry>, e: Entry, k: nat)
    requires Ascending(es) && k <= |es|
    requires k > 0 ==> es[k - 1].creationToken <= e.creationToken
    requires forall j :: k <= j < |es| ==> es[j].creationToken > e.creationToken
    ensures Ascending(es[..k] + [e] + es[k..])
  {
    var low, high := es[..k], es[k..];
    assert forall j :: 0 <= j < |low| ==> low[j].creationToken <= e.creationToken by {
      forall j | 0 <= j < |low| ensures low[j].creationToken <= e.creationToken { assert es[j].creationToken <= es[k - 1].creationToken; }
    }
    AscendingJoin(low, [e]);
    AscendingJoin(low + [e], high);
  }

  lemma AscendingJoin(a: seq<Entry>, b: seq<Entry>)
    requires Ascending(a) && Ascending(b)
    requires forall i, j :: 0 <= i < |a| && 0 <= j < |b| ==> a[i].creationToken <= b[j].creationToken
    ensures Ascending(a + b)
  {
  }

  lemma {:induction false} NoOrphans(es: seq<Entry>, ids: set<EntryId>)
    requires forall e :: e in es ==> !Orphan(e, ids)
    ensures Unorphaned(es, ids, false) == es
  {
    if es != [] {
      assert es == es[..|es| - 1] + [es[|es| - 1]];
      NoOrphans(es[..|es| - 1], ids);
    }
  }

  /** A clone is offered every entry of a pruned list. */
  lemma CloneDropsNothing(es: seq<Entry>, strats: seq<Strategy>, out: seq<Entry>)
    requires Orderly(es) && FullsStandAlone(es, strats) && out == Select(es, Retained(es, strats))
    ensures Unorphaned(out, Ids(Elements(out)), false) == out
  {
    RetainedIsBaseClosed(es, strats);
    forall e | e in out ensures !Orphan(e, Ids(Elements(out))) { assert e in Elements(out); }
    NoOrphans(out, Ids(Elements(out)));
  }

  // ---- the order of the table ----

  /** The documented rule for non-chain strategies: of each, the two newest whose base is kept. */
  ghost predicate LoosePromise(es: seq<Entry>, strats: seq<Strategy>) {
    forall i, e :: 0 <= i < |strats| && strats[i].Loose() && e in es && e.strategy == strats[i].name ==>
      (e.id in Retained(es, strats) <==> e.id in LooseOf(es, strats[i], Retained(es, strats)))
  }

  /** No non-chain strategy stands in the table before a non-chain strategy it is based on. */
  ghost predicate BasesComeFirst(strats: seq<Strategy>)
    requires Acyclic(ByName(strats))
  {
    forall i, j :: 0 <= i < j < |strats| && strats[i].Loose() && strats[j].Loose() ==>
      !Ancestor(ByName(strats), strats[i].name, strats[j].name)
  }

  /** The base of a non-chain entry belongs to a strategy above its own. */
  ghost predicate LinkedUp(es: seq<Entry>, strats: seq<Strategy>)
    requires Acyclic(ByName(strats))
  {
    && Orderly(es) && FullsStandAlone(es, strats)
    && forall i, e :: 0 <= i < |strats| && strats[i].Loose() && e in es && e.strategy == strats[i].name && e.baseId != NoId ==>
         Ancestor(ByName(strats), strats[i].name, e.baseId.strategy)
  }

  lemma OrderSuffices(es: seq<Entry>, strats: seq<Strategy>)
    requires WellFormed(strats) && LinkedUp(es, strats) && BasesComeFirst(strats)
    ensures LoosePromise(es, strats)
  {
    forall i, e | 0 <= i < |strats| && strats[i].Loose() && e in es && e.strategy == strats[i].name
      ensures e.id in Retained(es, strats) <==> e.id in LooseOf(es, strats[i], Retained(es, strats))
    {
      LooseRule(es, strats, i, e);
      LaterTurnsAddNoBase(es, strats, i);
    }
  }

  lemma LaterTurnsAddNoBase(es: seq<Entry>, strats: seq<Strategy>, i: nat)
    requires WellFormed(strats) && LinkedUp(es, strats) && BasesComeFirst(strats)
    requires i < |strats| && strats[i].Loose()
    ensures Based(es, strats[i].name, KeptBefore(es, strats, i)) == Based(es, strats[i].name, Retained(es, strats))
  {
    hide KeptWithLoose, Newest, ChainUnder, KeptFulls, ByName, HasDepth, Ancestor, FieldsOK;
    RetainedIsLast(es, strats);
    LooseGrows(es, strats, i, |strats|);
    forall e | e in Based(es, strats[i].name, Retained(es, strats)) ensures e.baseId in KeptBefore(es, strats, i) {
      BaseKeptEarlier(es, strats, i, e);
    }
  }

  lemma BaseKeptEarlier(es: seq<Entry>, strats: seq<Strategy>, i: nat, e: Entry)
    requires WellFormed(strats) && LinkedUp(es, strats) && BasesComeFirst(strats)
    requires i < |strats| && strats[i].Loose() && e in Based(es, strats[i].name, Retained(es, strats))
    ensures e.baseId in KeptBefore(es, strats, i)
  {
    hide KeptWithLoose, Newest, ChainUnder, KeptFulls, ByName, HasDepth, Ancestor, FieldsOK;
    RetainedIsLast(es, strats);
    KeptInTurn(es, strats, |strats|, e.baseId);
    ChainKept(es, strats, i);
    if e.baseId !in Chain(es, strats) {
      var j, b :| 0 <= j < |strats| && strats[j].Loose() && b in Based(es, strats[j].name, KeptBefore(es, strats, j))
                  && b.id == e.baseId && e.baseId in LooseOf(es, strats[j], KeptBefore(es, strats, j));
      assert b.Stamped();
      AncestorBelow(ByName(strats), strats[i].name, strats[j].name);
      assert j < i;
      LooseTurn(es, strats, j);
      LooseGrows(es, strats, j + 1, i);
    }
  }

  lemma ChainKept(es: seq<Entry>, strats: seq<Strategy>, i: nat)
    requires i <= |strats|
    ensures Chain(es, strats) <= KeptBefore(es, strats, i)
  {
    LooseGrows(es, strats, 0, i);
  }

  /** The top of a strategy's chain. */
  lemma {:induction false} TopOf(tbl: Table, n: string) returns (top: string)
    requires Acyclic(tbl) && n in tbl
    ensures top in tbl && tbl[top].base == "" && (top == n || Ancestor(tbl, n, top))
    decreases Depth(tbl, n)
  {
    if tbl[n].base == "" {
      top := n;
    } else {
      DepthOfBase(tbl, n);
      top := TopOf(tbl, tbl[n].base);
    }
  }

  function Sample(tbl: Table, name: string, kind: Kind, slot: nat, base: EntryId): Entry
    requires name in tbl
  {
    Entry(Id(name, slot), name, name, kind, slot, base, slot, tbl[name].filter)
  }

  /** A full, an entry built on it, and one built on that. */
  function OrderSample(tbl: Table, top: string, upper: string, lower: string): seq<Entry>
    requires top in tbl && upper in tbl && lower in tbl
  {
    [Sample(tbl, top, Full, 0, NoId), Sample(tbl, upper, Incremental, 1, Id(top, 0)), Sample(tbl, lower, Incremental, 2, Id(upper, 1))]
  }

  lemma NewestOfOne(es: set<Entry>, e: Entry, n: nat)
    requires es == {e} && n > 0
    ensures e.id in Newest(es, n)
  {
    assert Newer(es, e) == {};
  }

  /** The strategies of a failing list: one based on another that is listed after it, and the top of their chain. */
  ghost predicate WrongOrder(strats: seq<Strategy>, i: nat, j: nat, top: string)
    requires Acyclic(ByName(strats))
  {
    && i < j < |strats| && strats[i].Loose() && strats[j].Loose()
    && Ancestor(ByName(strats), strats[i].name, strats[j].name)
    && top in ByName(strats) && ByName(strats)[top].base == "" && Ancestor(ByName(strats), strats[j].name, top)
  }

  lemma WrongOrderIs(strats: seq<Strategy>) returns (i: nat, j: nat, top: string)
    requires WellFormed(strats) && !BasesComeFirst(strats)
    ensures WrongOrder(strats, i, j, top)
  {
    i, j :| 0 <= i < j < |strats| && strats[i].Loose() && strats[j].Loose() &&
            Ancestor(ByName(strats), strats[i].name, strats[j].name);
    ByNameFinds(strats);
    assert strats[j] in strats && FieldsOK(ByName(strats), strats[j]);
    top := TopOf(ByName(strats), strats[j].name);
  }

  lemma SampleIsOrderly(tbl: Table, top: string, upper: string, lower: string)
    requires top in tbl && upper in tbl && lower in tbl && top != upper && upper != lower && top != lower
    ensures var es := OrderSample(tbl, top, upper, lower);
      Orderly(es) && forall e :: e in es <==> e == es[0] || e == es[1] || e == es[2]
  {
  }

  /** The table and the entries of the sample are as the planner has them. */
  lemma SampleIsLinked(strats: seq<Strategy>, i: nat, j: nat, top: string)
    requires WellFormed(strats) && WrongOrder(strats, i, j, top)
    ensures var tbl := ByName(strats);
      && UniqueNames(strats) && strats[i].name in tbl && strats[j].name in tbl
      && strats[i].name != strats[j].name && strats[i].name != top && strats[j].name != top
      && LinkedUp(OrderSample(tbl, top, strats[j].name, strats[i].name), strats)
  {
    hide ByName, HasDepth, Orderly, Ancestor;
    var tbl := ByName(strats);
    ByNameFinds(strats);
    assert strats[j] in strats && strats[i] in strats;
    var r :| 0 <= r < |strats| && strats[r] == tbl[top];
    assert FieldsOK(tbl, strats[r]) && FieldsOK(tbl, strats[j]);
    AncestorBelow(tbl, strats[i].name, strats[j].name);
    AncestorBelow(tbl, strats[j].name, top);
    SampleIsOrderly(tbl, top, strats[j].name, strats[i].name);
  }

  /** The full of the sample is kept, and so is the entry on it, at its strategy's turn. */
  lemma UpperIsKept(strats: seq<Strategy>, i: nat, j: nat, top: string)
    requires WellFormed(strats) && WrongOrder(strats, i, j, top)
    requires strats[i].name in ByName(strats) && strats[j].name in ByName(strats)
    ensures var es := OrderSample(ByName(strats), top, strats[j].name, strats[i].name);
      es[0].id in Chain(es, strats) && es[1].id in Retained(es, strats)
  {
    hide KeptWithLoose, Newest, ChainUnder, KeptFulls, ByName, HasDepth, Ancestor;
    var tbl := ByName(strats);
    ByNameFinds(strats);
    SampleIsLinked(strats, i, j, top);
    var es := OrderSample(tbl, top, strats[j].name, strats[i].name);
    var r :| 0 <= r < |strats| && strats[r] == tbl[top];
    assert FieldsOK(tbl, strats[r]);
    assert es[0] in es && es[1] in es;
    FullSampleKept(es, strats, r, es[0]);
    ChainKept(es, strats, j);
    assert Based(es, strats[j].name, KeptBefore(es, strats, j)) == {es[1]};
    NewestOfOne({es[1]}, es[1], LOOSE_KEEP);
    LooseRule(es, strats, j, es[1]);
  }

  lemma OrderCounterexample(strats: seq<Strategy>, i: nat, j: nat, top: string)
    requires WellFormed(strats) && WrongOrder(strats, i, j, top)
    ensures var tbl := ByName(strats);
      && strats[i].name in tbl && strats[j].name in tbl
      && var es := OrderSample(tbl, top, strats[j].name, strats[i].name);
         LinkedUp(es, strats) && !LoosePromise(es, strats)
  {
    hide KeptWithLoose, Newest, ChainUnder, KeptFulls, ByName, HasDepth, Ancestor, FieldsOK;
    var lower := strats[i].name;
    SampleIsLinked(strats, i, j, top);
    UpperIsKept(strats, i, j, top);
    var es := OrderSample(ByName(strats), top, strats[j].name, lower);
    var b, s := es[1], es[2];
    assert b in es && s in es;
    assert Based(es, lower, Retained(es, strats)) == {s};
    NewestOfOne({s}, s, LOOSE_KEEP);
    UpperNotYetKept(es, strats, i, j, b);
    assert Based(es, lower, KeptBefore(es, strats, i)) == {};
    NewestOfNone(LOOSE_KEEP);
    LooseRule(es, strats, i, s);
  }

  lemma NewestOfNone(n: nat)
    ensures Newest({}, n) == {}
  {
  }

  lemma FullSampleKept(es: seq<Entry>, strats: seq<Strategy>, r: nat, f: Entry)
    requires Orderly(es) && UniqueNames(strats) && r < |strats| && strats[r].kind == Full
    requires f in es && f.strategy == strats[r].name && forall e :: e in es && e.strategy == f.strategy ==> e == f
    ensures f.id in Chain(es, strats)
  {
    assert Newer(OfStrategy(es, f.strategy), f) == {};
    FullKept(es, strats, r, f, |strats|);
    assert strats[..|strats|] == strats;
    ReachedInList(es, ByName(strats), KeptFulls(es, strats), f.id, 0);
  }

  /** Before its own turn a non-chain strategy has nothing kept. */
  lemma UpperNotYetKept(es: seq<Entry>, strats: seq<Strategy>, i: nat, j: nat, b: Entry)
    requires Orderly(es) && UniqueNames(strats) && i <= j < |strats| && strats[j].Loose()
    requires b in es && b.strategy == strats[j].name
    ensures b.id !in KeptBefore(es, strats, i)
  {
    if b.id in KeptBefore(es, strats, i) {
      IdsAgree(es);
      KeptInTurn(es, strats, i, b.id);
      if b.id in Chain(es, strats) {
        ChainSource(es, strats, j, b);
      }
    }
  }

  /** The documented rule for non-chain strategies holds of every list of properly linked entries exactly when
      the table lists non-chain bases before the non-chain strategies built on them. */
  lemma OrderExact(strats: seq<Strategy>)
    requires WellFormed(strats)
    ensures BasesComeFirst(strats) <==> forall es :: LinkedUp(es, strats) ==> LoosePromise(es, strats)
  {
    if BasesComeFirst(strats) {
      forall es | LinkedUp(es, strats) ensures LoosePromise(es, strats) { OrderSuffices(es, strats); }
    } else {
      var i, j, top := WrongOrderIs(strats);
      OrderCounterexample(strats, i, j, top);
    }
  }

  /** Offered are, as often as they are listed, the entries that are not fulls (for catch-up) and whose base, if they are
      incrementals with one, is listed too. */
  lemma OfferedExactly(es: seq<Entry>, catchup: bool, e: Entry)
    ensures multiset(Unorphaned(es, Ids(Elements(es)), catchup))[e] ==
            if (catchup && e.kind == Full)
               || (e.kind == Incremental && e.baseId != NoId && forall b :: b in es ==> b.id != e.baseId)
            then 0 else multiset(es)[e]
  {
    assert e.baseId in Ids(Elements(es)) <==> exists b :: b in es && b.id == e.baseId by {
      if exists b :: b in es && b.id == e.baseId {
        var b :| b in es && b.id == e.baseId;
        assert b in Elements(es);
      }
    }
    OfferedCounts(es, Ids(Elements(es)), catchup, e);
  }

  lemma {:induction false} OfferedCounts(es: seq<Entry>, ids: set<EntryId>, catchup: bool, e: Entry)
    ensures multiset(Unorphaned(es, ids, catchup))[e] ==
            if (catchup && e.kind == Full) || (e.kind == Incremental && e.baseId != NoId && e.baseId !in ids) then 0 else multiset(es)[e]
  {
    if es != [] {
      OfferedCounts(es[..|es| - 1], ids, catchup, e);
      assert es == es[..|es| - 1] + [es[|es| - 1]];
    }
  }
}
