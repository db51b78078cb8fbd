/** Retention: which entries a pass keeps, and what a kept list guarantees its readers. */
module Retention {
  import opened Entries
  import opened Strategies

  // ---- the newest n ----

  ghost function Newer(es: set<Entry>, e: Entry): set<Entry> {
    set f | f in es && f.slot > e.slot
  }

  /** The ids of the entries that fewer than n others are newer than. */
  ghost function Newest(es: set<Entry>, n: nat): set<EntryId> {
    set e | e in es && |Newer(es, e)| < n :: e.id
  }

  ghost predicate NewestFirst(es: seq<Entry>) {
    forall i, j :: 0 <= i < j < |es| ==> es[i].slot > es[j].slot
  }

  lemma {:induction false} PrefixSize(es: seq<Entry>, i: nat)
    requires NewestFirst(es) && i <= |es|
    ensures |Elements(es[..i])| == i
  {
    hide NewestFirst;
    if i > 0 {
      PrefixSize(es, i - 1);
      FreshInPrefix(es, i - 1);
      ElementsStep(es, i - 1);
    }
  }

  lemma ElementsStep(es: seq<Entry>, i: nat)
    requires i < |es|
    ensures Elements(es[..i + 1]) == Elements(es[..i]) + {es[i]}
  {
    assert es[..i + 1] == es[..i] + [es[i]];
  }

  lemma FreshInPrefix(es: seq<Entry>, i: nat)
    requires NewestFirst(es) && i < |es|
    ensures es[i] !in Elements(es[..i])
  {
    assert forall k :: 0 <= k < i ==> es[k].slot > es[i].slot;
  }

  lemma NewerIsPrefix(es: seq<Entry>, i: nat)
    requires NewestFirst(es) && i < |es|
    ensures |Newer(Elements(es), es[i])| == i
  {
    PrefixSize(es, i);
    forall f ensures f in Newer(Elements(es), es[i]) <==> f in Elements(es[..i]) {
      if f in Newer(Elements(es), es[i]) {
        var k :| 0 <= k < |es| && es[k] == f;
        assert k < i;
      }
    }
    assert Newer(Elements(es), es[i]) == Elements(es[..i]);
  }

  /** Sorting entries of distinct slots newest first. */
  method SortNewestFirst(es: seq<Entry>) returns (out: seq<Entry>)
    requires forall i, j :: 0 <= i < j < |es| ==> es[i].slot != es[j].slot
    ensures NewestFirst(out) && Elements(out) == Elements(es)
  {
    out := [];
    for i := 0 to |es|
      invariant NewestFirst(out) && Elements(out) == Elements(es[..i])
    {
      var k := 0;
      while k < |out| && out[k].slot > es[i].slot
        invariant 0 <= k <= |out|
        invariant forall j :: 0 <= j < k ==> out[j].slot > es[i].slot
      {
        k := k + 1;
      }
      InsertKeeps(es, i, out, k);
      out := out[..k] + [es[i]] + out[k..];
    }
    assert es[..|es|] == es;
  }

  lemma InsertKeeps(es: seq<Entry>, i: nat, out: seq<Entry>, k: nat)
    requires i < |es| && k <= |out| && NewestFirst(out) && Elements(out) == Elements(es[..i])
    requires forall a, b :: 0 <= a < b < |es| ==> es[a].slot != es[b].slot
    requires forall j :: 0 <= j < k ==> out[j].slot > es[i].slot
    requires k < |out| ==> out[k].slot <= es[i].slot
    ensures var r := out[..k] + [es[i]] + out[k..]; NewestFirst(r) && Elements(r) == Elements(es[..i + 1])
  {
    var r := out[..k] + [es[i]] + out[k..];
    assert es[..i + 1] == es[..i] + [es[i]];
    assert out == out[..k] + out[k..];
    forall j | 0 <= j < |out| ensures out[j].slot != es[i].slot {
      assert out[j] in Elements(es[..i]);
    }
    forall j | k <= j < |out| ensures out[j].slot < es[i].slot {
      if j > k { assert out[k].slot > out[j].slot; }
    }
    assert forall e :: e in r <==> e in out || e == es[i];
    assert forall e :: e in out <==> e in Elements(es[..i]);
  }

  method TakeNewest(cands: seq<Entry>, n: nat) returns (ids: set<EntryId>)
    requires forall i, j :: 0 <= i < j < |cands| ==> cands[i].slot != cands[j].slot
    ensures ids == Newest(Elements(cands), n)
  {
    var sorted := SortNewestFirst(cands);
    ids := {};
    var k := 0;
    while k < n && k < |sorted|
      invariant 0 <= k <= |sorted| && (k <= n)
      invariant ids == Leading(sorted, k)
    {
      ids := ids + {sorted[k].id};
      k := k + 1;
    }
    LeadingAreNewest(sorted, n, k);
  }

  ghost function Leading(es: seq<Entry>, k: nat): set<EntryId>
    requires k <= |es|
  {
    set j | 0 <= j < k :: es[j].id
  }

  lemma LeadingAreNewest(sorted: seq<Entry>, n: nat, k: nat)
    requires NewestFirst(sorted) && k <= n && k <= |sorted| && (k == n || k == |sorted|)
    ensures Leading(sorted, k) == Newest(Elements(sorted), n)
  {
    var es := Elements(sorted);
    forall id ensures id in Leading(sorted, k) <==> id in Newest(es, n) {
      if id in Leading(sorted, k) {
        var j :| 0 <= j < k && sorted[j].id == id;
        NewerIsPrefix(sorted, j);
        assert sorted[j] in es;
      }
      if id in Newest(es, n) {
        var e :| e in es && |Newer(es, e)| < n && e.id == id;
        var j :| 0 <= j < |sorted| && sorted[j] == e;
        NewerIsPrefix(sorted, j);
      }
    }
  }

  lemma SameStrategySlots(es: seq<Entry>, name: string)
    requires Orderly(es) && forall e :: e in es ==> e.strategy == name
    ensures forall i, j :: 0 <= i < j < |es| ==> es[i].slot != es[j].slot
  {
    forall i, j | 0 <= i < j < |es| ensures es[i].slot != es[j].slot {
      assert es[i] in es && es[j] in es;
    }
  }

  // ---- fulls ----

  ghost function KeptFulls(es: seq<Entry>, strats: seq<Strategy>): set<EntryId> {
    if strats == [] then {}
    else
      var s := strats[|strats| - 1];
      KeptFulls(es, strats[..|strats| - 1]) +
      (if s.kind == Full then Newest(OfStrategy(es, s.name), s.EffectiveKeep()) else {})
  }

  method KeepFulls(es: seq<Entry>, strats: seq<Strategy>) returns (kept: set<EntryId>)
    requires Orderly(es)
    ensures kept == KeptFulls(es, strats)
  {
    kept := {};
    for i := 0 to |strats|
      invariant kept == KeptFulls(es, strats[..i])
    {
      assert strats[..i + 1][..i] == strats[..i];
      var s := strats[i];
      if s.kind == Full {
        var fulls := EntriesOfStrategy(es, s.name);
        forall e | e in fulls ensures e.strategy == s.name { assert e in Elements(fulls); }
        SameStrategySlots(fulls, s.name);
        var newest := TakeNewest(fulls, s.EffectiveKeep());
        kept := kept + newest;
      }
    }
    assert strats[..|strats|] == strats;
  }

  // ---- the chain under the kept fulls ----

  predicate OnChain(tbl: Table, e: Entry) {
    e.baseId != NoId && e.strategy in tbl && tbl[e.strategy].ChainLink()
  }

  /** Following base links through at most n chain entries leads from id into `from`. */
  ghost predicate Reaches(es: seq<Entry>, tbl: Table, from: set<EntryId>, id: EntryId, n: nat)
    decreases n
  {
    id in from || (n > 0 && exists e :: e in es && e.id == id && OnChain(tbl, e) && Reaches(es, tbl, from, e.baseId, n - 1))
  }

  /** The ids whose chain of base links leads into `from`. */
  ghost function ChainUnder(es: seq<Entry>, tbl: Table, from: set<EntryId>): set<EntryId> {
    set id | id in from + Ids(Elements(es)) && exists n: nat :: Reaches(es, tbl, from, id, n)
  }

  lemma ChainStepReaches(es: seq<Entry>, tbl: Table, from: set<EntryId>, e: Entry)
    requires e in es && OnChain(tbl, e) && e.baseId in ChainUnder(es, tbl, from)
    ensures e.id in ChainUnder(es, tbl, from)
  {
    var n: nat :| Reaches(es, tbl, from, e.baseId, n);
    assert Reaches(es, tbl, from, e.id, n + 1);
    assert e in Elements(es);
  }

  /** A set that holds `from` and is closed under chain links holds everything that reaches `from`. */
  lemma {:induction false} ClosedHoldsReach(es: seq<Entry>, tbl: Table, from: set<EntryId>, kept: set<EntryId>, id: EntryId, n: nat)
    requires from <= kept && Reaches(es, tbl, from, id, n)
    requires forall e :: e in es && OnChain(tbl, e) && e.baseId in kept ==> e.id in kept
    ensures id in kept
    decreases n
  {
    if id !in from {
      var e :| e in es && e.id == id && OnChain(tbl, e) && Reaches(es, tbl, from, e.baseId, n - 1);
      ClosedHoldsReach(es, tbl, from, kept, e.baseId, n - 1);
    }
  }

  /** Passes over the list, in whatever order it is in, until one adds nothing. */
  method CloseChain(es: seq<Entry>, tbl: Table, from: set<EntryId>) returns (kept: set<EntryId>)
    ensures kept == ChainUnder(es, tbl, from)
  {
    kept := from;
    forall id | id in from ensures id in ChainUnder(es, tbl, from) { assert Reaches(es, tbl, from, id, 0); }
    var changed := true;
    while changed
      invariant from <= kept <= ChainUnder(es, tbl, from)
      invariant !changed ==> forall e :: e in es && OnChain(tbl, e) && e.baseId in kept ==> e.id in kept
      decreases ChainUnder(es, tbl, from) - kept, changed
    {
      changed := false;
      ghost var start := kept;
      for i := 0 to |es|
        invariant start <= kept <= ChainUnder(es, tbl, from)
        invariant changed ==> start < kept
        invariant !changed ==> kept == start
        invariant !changed ==> forall j :: 0 <= j < i && OnChain(tbl, es[j]) && es[j].baseId in kept ==> es[j].id in kept
      {
        var e := es[i];
        if e.id !in kept && OnChain(tbl, e) && e.baseId in kept {
          ChainStepReaches(es, tbl, from, e);
          kept := kept + {e.id};
          changed := true;
        }
      }
    }
    forall id | id in ChainUnder(es, tbl, from) ensures id in kept {
      var n: nat :| Reaches(es, tbl, from, id, n);
      ClosedHoldsReach(es, tbl, from, kept, id, n);
    }
  }

  // ---- non-chain incrementals ----

  const LOOSE_KEEP := 2

  /** The entries of a strategy whose base is among `kept`. */
  ghost function Based(es: seq<Entry>, name: string, kept: set<EntryId>): set<Entry> {
    set e | e in es && e.strategy == name && e.baseId != NoId && e.baseId in kept
  }

  /** The two newest entries of a non-chain incremental strategy whose base is among `kept`. */
  ghost function LooseOf(es: seq<Entry>, s: Strategy, kept: set<EntryId>): set<EntryId> {
    if s.Loose() then Newest(Based(es, s.name, kept), LOOSE_KEEP) else {}
  }

  /** What is kept once the non-chain strategies of a leading part of the table have had their turn, in table order. */
  ghost function KeptWithLoose(es: seq<Entry>, strats: seq<Strategy>, chain: set<EntryId>): set<EntryId> {
    if strats == [] then chain
    else
      var before := KeptWithLoose(es, strats[..|strats| - 1], chain);
      before + LooseOf(es, strats[|strats| - 1], before)
  }

  method KeepLoose(es: seq<Entry>, strats: seq<Strategy>, chain: set<EntryId>) returns (kept: set<EntryId>)
    requires Orderly(es)
    ensures kept == KeptWithLoose(es, strats, chain)
  {
    kept := chain;
    for i := 0 to |strats|
      invariant kept == KeptWithLoose(es, strats[..i], chain)
    {
      assert strats[..i + 1][..i] == strats[..i];
      var s := strats[i];
      if s.Loose() {
        var cands := Candidates(es, s.name, kept);
        var newest := TakeNewest(cands, LOOSE_KEEP);
        kept := kept + newest;
      }
    }
    assert strats[..|strats|] == strats;
  }

  method Candidates(es: seq<Entry>, name: string, kept: set<EntryId>) returns (cands: seq<Entry>)
    requires Orderly(es)
    ensures Elements(cands) == Based(es, name, kept)
    ensures forall i, j :: 0 <= i < j < |cands| ==> cands[i].slot != cands[j].slot
  {
    var mine := EntriesOfStrategy(es, name);
    forall e | e in mine ensures e.strategy == name && e in es { assert e in Elements(mine); }
    SameStrategySlots(mine, name);
    cands := [];
    for i := 0 to |mine|
      invariant forall e :: e in cands <==> e in mine[..i] && e.baseId != NoId && e.baseId in kept
      invariant forall a, b :: 0 <= a < b < |cands| ==> cands[a].slot != cands[b].slot
    {
      assert mine[..i + 1] == mine[..i] + [mine[i]];
      if mine[i].baseId != NoId && mine[i].baseId in kept {
        forall a | 0 <= a < |cands| ensures cands[a].slot != mine[i].slot { assert cands[a] in mine[..i]; }
        cands := cands + [mine[i]];
      }
    }
    assert mine[..|mine|] == mine;
    forall e ensures e in Elements(cands) <==> e in Based(es, name, kept) {
      if e in Based(es, name, kept) { assert e in OfStrategy(es, name); assert e in Elements(mine); }
    }
  }

  // ---- the rule ----

  ghost function Retained(es: seq<Entry>, strats: seq<Strategy>): set<EntryId> {
    KeptWithLoose(es, strats, ChainUnder(es, ByName(strats), KeptFulls(es, strats)))
  }

  /** The entries whose id is in ids, in list order. */
  function Select(es: seq<Entry>, ids: set<EntryId>): seq<Entry> {
    if es == [] then []
    else Select(es[..|es| - 1], ids) + (if es[|es| - 1].id in ids then [es[|es| - 1]] else [])
  }

  /** Removes the entries beyond the retention set; everything else about the list stays. */
  method PruneRetention(cur: BundleList, strats: seq<Strategy>, byName: Table) returns (out: BundleList)
    requires Orderly(cur.bundles) && byName == ByName(strats)
    ensures out == cur.(bundles := Select(cur.bundles, Retained(cur.bundles, strats)))
  {
    var kept := KeepFulls(cur.bundles, strats);
    kept := CloseChain(cur.bundles, byName, kept);
    kept := KeepLoose(cur.bundles, strats, kept);
    var bundles := [];
    for i := 0 to |cur.bundles|
      invariant bundles == Select(cur.bundles[..i], kept)
    {
      assert cur.bundles[..i + 1][..i] == cur.bundles[..i];
      if cur.bundles[i].id in kept {
        bundles := bundles + [cur.bundles[i]];
      }
    }
    assert cur.bundles[..|cur.bundles|] == cur.bundles;
    out := BundleList(cur.mode, cur.heuristic, bundles, cur.skipped);
  }

  // ---- what retention promises ----

  lemma {:induction false} Selected(es: seq<Entry>, ids: set<EntryId>)
    ensures forall e :: e in Select(es, ids) <==> e in es && e.id in ids
    ensures Orderly(es) ==> Orderly(Select(es, ids))
  {
    if es != [] {
      var rest := es[..|es| - 1];
      Selected(rest, ids);
      assert es == rest + [es[|es| - 1]];
      if Orderly(es) {
        forall e | e in rest ensures e in es && e.id != es[|es| - 1].id {
          var j :| 0 <= j < |rest| && rest[j] == e;
          assert es[j] == e;
        }
      }
    }
  }

  /** A full has no base link. */
  ghost predicate FullsStandAlone(es: seq<Entry>, strats: seq<Strategy>) {
    forall e, s :: e in es && s in strats && s.name == e.strategy && s.kind == Full ==> e.baseId == NoId
  }

  /** Every entry in `kept` has its base in `kept`. */
  ghost predicate BaseClosed(es: seq<Entry>, kept: set<EntryId>) {
    forall e :: e in es && e.id in kept && e.baseId != NoId ==> e.baseId in kept
  }

  lemma {:induction false} KeptFullsAreFulls(es: seq<Entry>, strats: seq<Strategy>, id: EntryId)
    requires id in KeptFulls(es, strats)
    ensures exists e, s :: e in es && s in strats && s.name == e.strategy && s.kind == Full && e.id == id
  {
    var s := strats[|strats| - 1];
    if id in KeptFulls(es, strats[..|strats| - 1]) {
      KeptFullsAreFulls(es, strats[..|strats| - 1], id);
      var e, t :| e in es && t in strats[..|strats| - 1] && t.name == e.strategy && t.kind == Full && e.id == id;
      assert t in strats;
    } else {
      var e :| e in OfStrategy(es, s.name) && e.id == id;
      assert s in strats;
    }
  }

  lemma SameId(es: seq<Entry>, e: Entry, f: Entry)
    requires Orderly(es) && e in es && f in es && e.id == f.id
    ensures e == f
  {
    var i :| 0 <= i < |es| && es[i] == e;
    var j :| 0 <= j < |es| && es[j] == f;
  }

  lemma ChainIsBaseClosed(es: seq<Entry>, strats: seq<Strategy>)
    requires Orderly(es) && FullsStandAlone(es, strats)
    ensures BaseClosed(es, ChainUnder(es, ByName(strats), KeptFulls(es, strats)))
  {
    var tbl, fulls := ByName(strats), KeptFulls(es, strats);
    var chain := ChainUnder(es, tbl, fulls);
    forall e | e in es && e.id in chain && e.baseId != NoId ensures e.baseId in chain {
      var n: nat :| Reaches(es, tbl, fulls, e.id, n);
      if e.id in fulls {
        KeptFullHasNoBase(es, strats, e);
      } else {
        var f :| f in es && f.id == e.id && OnChain(tbl, f) && Reaches(es, tbl, fulls, f.baseId, n - 1);
        SameId(es, e, f);
        ReachedInList(es, tbl, fulls, e.baseId, n - 1);
      }
    }
  }

  lemma KeptFullHasNoBase(es: seq<Entry>, strats: seq<Strategy>, e: Entry)
    requires Orderly(es) && FullsStandAlone(es, strats) && e in es && e.id in KeptFulls(es, strats)
    ensures e.baseId == NoId
  {
    KeptFullsAreFulls(es, strats, e.id);
    var f, s :| f in es && s in strats && s.name == f.strategy && s.kind == Full && f.id == e.id;
    SameId(es, e, f);
  }

  lemma ReachedInList(es: seq<Entry>, tbl: Table, from: set<EntryId>, id: EntryId, n: nat)
    requires Reaches(es, tbl, from, id, n)
    ensures id in ChainUnder(es, tbl, from)
  {
    if id !in from {
      var e :| e in es && e.id == id;
      assert e in Elements(es);
    }
  }

  lemma {:induction false} LooseIsBaseClosed(es: seq<Entry>, strats: seq<Strategy>, chain: set<EntryId>)
    requires Orderly(es) && BaseClosed(es, chain)
    ensures BaseClosed(es, KeptWithLoose(es, strats, chain))
  {
    if strats != [] {
      LooseIsBaseClosed(es, strats[..|strats| - 1], chain);
      var before, s := KeptWithLoose(es, strats[..|strats| - 1], chain), strats[|strats| - 1];
      forall e | e in es && e.id in LooseOf(es, s, before) && e.baseId != NoId ensures e.baseId in before {
        var f :| f in Based(es, s.name, before) && f.id == e.id;
        SameId(es, e, f);
      }
    }
  }

  /** The retained entries are closed under base links: retention leaves no orphan behind. */
  lemma RetainedIsBaseClosed(es: seq<Entry>, strats: seq<Strategy>)
    requires Orderly(es) && FullsStandAlone(es, strats)
    ensures BaseClosed(es, Retained(es, strats))
    ensures BaseClosed(Select(es, Retained(es, strats)), Ids(Elements(Select(es, Retained(es, strats)))))
  {
    ChainIsBaseClosed(es, strats);
    LooseIsBaseClosed(es, strats, ChainUnder(es, ByName(strats), KeptFulls(es, strats)));
    RetainedAreListed(es, strats);
    var kept := Retained(es, strats);
    var out := Select(es, kept);
    Selected(es, kept);
    forall e | e in out && e.baseId != NoId ensures e.baseId in Ids(Elements(out)) {
      var b :| b in es && b.id == e.baseId;
      assert b in Elements(out);
    }
  }

  /** Only ids of list entries are retained. */
  lemma RetainedAreListed(es: seq<Entry>, strats: seq<Strategy>)
    ensures forall id :: id in Retained(es, strats) ==> exists e :: e in es && e.id == id
  {
    var chain := ChainUnder(es, ByName(strats), KeptFulls(es, strats));
    forall id | id in chain ensures exists e :: e in es && e.id == id {
      if id in KeptFulls(es, strats) {
        KeptFullsAreFulls(es, strats, id);
      } else {
        var e :| e in Elements(es) && e.id == id;
      }
    }
    LooseAreListed(es, strats, chain);
  }

  lemma {:induction false} LooseAreListed(es: seq<Entry>, strats: seq<Strategy>, chain: set<EntryId>)
    requires forall id :: id in chain ==> exists e :: e in es && e.id == id
    ensures forall id :: id in KeptWithLoose(es, strats, chain) ==> exists e :: e in es && e.id == id
  {
    if strats != [] {
      LooseAreListed(es, strats[..|strats| - 1], chain);
      var before, s := KeptWithLoose(es, strats[..|strats| - 1], chain), strats[|strats| - 1];
      forall id | id in LooseOf(es, s, before) ensures exists e :: e in es && e.id == id {
        var f :| f in Based(es, s.name, before) && f.id == id;
      }
    }
  }
}
