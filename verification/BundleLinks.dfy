/** Walking base links through a list: where a walk goes and where it ends. */
module BundleLinks {
  import opened BundleRuns
  import opened CasMachine
  import opened Entries
  import opened Retention
  import opened RetentionLaws
  import opened Strategies
  import opened Wrappers

  ghost predicate Lists(es: seq<Entry>, id: EntryId) {
    exists e :: e in es && e.id == id
  }

  /** The listed entry of an id. */
  ghost function Lookup(es: seq<Entry>, id: EntryId): (e: Entry)
    requires Lists(es, id)
    ensures e in es && e.id == id
  {
    var e :| e in es && e.id == id;
    e
  }

  /** A base link goes to an earlier slot, or at the same slot to a strategy nearer the root. */
  ghost predicate Before(tbl: Table, a: Entry, b: Entry)
    requires Sound(tbl)
  {
    a.strategy in tbl && b.strategy in tbl
    && (a.slot < b.slot || (a.slot == b.slot && Depth(tbl, a.strategy) < Depth(tbl, b.strategy)))
  }

  lemma LinkGoesBefore(tbl: Table, es: seq<Entry>, e: Entry)
    requires Sound(tbl) && Good(tbl, es) && e in es && Lists(es, e.baseId)
    ensures var b := Lookup(es, e.baseId);
      Before(tbl, b, e) && b.creationToken <= e.creationToken && b.filter == e.filter && e.kind == Incremental
  {
    var b := Lookup(es, e.baseId);
    assert Cut(tbl, e) && Cut(tbl, b);
    if b.strategy != e.strategy { AncestorBelow(tbl, e.strategy, b.strategy); }
    if Ancestor(tbl, e.strategy, b.strategy) { AncestorBelow(tbl, e.strategy, b.strategy); }
  }

  /** The entries met by following base links from e for as long as they are listed. */
  ghost function Walk(tbl: Table, es: seq<Entry>, e: Entry): (w: seq<Entry>)
    requires Sound(tbl) && Good(tbl, es) && e in es
    ensures w != [] && w[0] == e
    decreases e.slot, Depth(tbl, (assert Cut(tbl, e); e.strategy))
  {
    assert Cut(tbl, e);
    if Lists(es, e.baseId) then LinkGoesBefore(tbl, es, e); [e] + Walk(tbl, es, Lookup(es, e.baseId)) else [e]
  }

  /** A walk strictly descends, so it never meets an entry twice; its creation tokens never rise; it stays in one
      filter family; and it ends at a full or at an entry whose base has left the list. */
  lemma {:induction false} WalkDescends(tbl: Table, es: seq<Entry>, e: Entry)
    requires Sound(tbl) && Good(tbl, es) && e in es
    ensures var w := Walk(tbl, es, e);
      && (forall x :: x in w ==> x in es && x.filter == e.filter && x.creationToken <= e.creationToken)
      && (forall i, j :: 0 <= i < j < |w| ==> Before(tbl, w[j], w[i]) && w[i] != w[j] && w[j].creationToken <= w[i].creationToken)
      && (w[|w| - 1].kind == Full || (w[|w| - 1].kind == Incremental && !Lists(es, w[|w| - 1].baseId)))
    decreases e.slot, Depth(tbl, (assert Cut(tbl, e); e.strategy))
  {
    assert Cut(tbl, e);
    if Lists(es, e.baseId) {
      LinkGoesBefore(tbl, es, e);
      var b := Lookup(es, e.baseId);
      WalkDescends(tbl, es, b);
      var w, rest := Walk(tbl, es, e), Walk(tbl, es, b);
      assert w == [e] + rest;
      forall j | 0 <= j < |rest| ensures Before(tbl, rest[j], e) && rest[j] != e && rest[j].creationToken <= e.creationToken {
        assert rest[j] in rest;
        if j > 0 { assert Before(tbl, rest[j], rest[0]); }
      }
    }
  }

  /** After a prune every walk ends at a full. */
  lemma PrunedWalkEndsAtFull(strats: seq<Strategy>, es: seq<Entry>, e: Entry)
    requires WellFormed(strats) && Sound(ByName(strats)) && Good(ByName(strats), es)
    requires e in Select(es, Retained(es, strats))
    ensures Good(ByName(strats), Select(es, Retained(es, strats)))
    ensures var w := Walk(ByName(strats), Select(es, Retained(es, strats)), e); w[|w| - 1].kind == Full
  {
    var tbl, out := ByName(strats), Select(es, Retained(es, strats));
    SelectKeepsGood(tbl, es, Retained(es, strats));
    GoodFullsStandAlone(strats, es);
    RetainedIsBaseClosed(es, strats);
    WalkDescends(tbl, out, e);
    var w := Walk(tbl, out, e);
    var last := w[|w| - 1];
    assert last in w && Cut(tbl, last);
    if last.kind == Incremental { BaseIsListed(tbl, out, last); }
  }

  lemma BaseIsListed(tbl: Table, es: seq<Entry>, e: Entry)
    requires Sound(tbl) && Cut(tbl, e) && e in es && e.kind == Incremental && BaseClosed(es, Ids(Elements(es)))
    ensures Lists(es, e.baseId)
  {
    assert e in Elements(es) && e.id in Ids(Elements(es));
    var b :| b in Elements(es) && b.id == e.baseId;
  }

  /** The links of a good list lead up the strategy table, which is what the retention rule of non-chain strategies
      asks of a list. */
  lemma GoodIsLinkedUp(strats: seq<Strategy>, es: seq<Entry>)
    requires WellFormed(strats) && Sound(ByName(strats)) && Good(ByName(strats), es)
    ensures LinkedUp(es, strats)
  {
    var tbl := ByName(strats);
    ByNameFinds(strats);
    GoodFullsStandAlone(strats, es);
    forall i, e | 0 <= i < |strats| && strats[i].Loose() && e in es && e.strategy == strats[i].name && e.baseId != NoId
      ensures Ancestor(tbl, strats[i].name, e.baseId.strategy)
    {
      assert Cut(tbl, e);
    }
  }

  // ---- reachable lists ----

  /** The list after k commits of a run in which builds see lists committed before. */
  ghost predicate Reached(strats: seq<Strategy>, ops: nat -> Op, initial: Option<BundleList>, steps: seq<Step>, k: nat, es: seq<Entry>)
    requires WellFormed(strats)
  {
    && Grounded(strats, ops, initial, steps)
    && (initial.Some? ==> Sound(ByName(strats)) && Good(ByName(strats), initial.value.bundles))
    && var s := After(strats, ops, initial, steps);
       k <= |s.history| && s.ValueAt(k).Some? && s.ValueAt(k).value.bundles == es
  }

  lemma ReachedIsGood(strats: seq<Strategy>, ops: nat -> Op, initial: Option<BundleList>, steps: seq<Step>, k: nat, es: seq<Entry>)
    requires WellFormed(strats) && Reached(strats, ops, initial, steps, k, es)
    ensures Sound(ByName(strats)) && Good(ByName(strats), es)
  {
    EveryListIsGood(strats, ops, initial, steps, k);
  }

  /** The walks of every reachable list, from the first commit to the last: they strictly descend, never raise the token,
      stay in one family, and end at a full or at an entry whose base has left the list. */
  lemma EveryWalkDescends(strats: seq<Strategy>, ops: nat -> Op, initial: Option<BundleList>, steps: seq<Step>, k: nat,
                          es: seq<Entry>, e: Entry)
    requires WellFormed(strats) && Reached(strats, ops, initial, steps, k, es) && e in es
    ensures Sound(ByName(strats)) && Good(ByName(strats), es)
    ensures var w := Walk(ByName(strats), es, e);
      && (forall x :: x in w ==> x in es && x.filter == e.filter && x.creationToken <= e.creationToken)
      && (forall i, j :: 0 <= i < j < |w| ==>
            Before(ByName(strats), w[j], w[i]) && w[i] != w[j] && w[j].creationToken <= w[i].creationToken)
      && (w[|w| - 1].kind == Full || (w[|w| - 1].kind == Incremental && !Lists(es, w[|w| - 1].baseId)))
  {
    ReachedIsGood(strats, ops, initial, steps, k, es);
    WalkDescends(ByName(strats), es, e);
  }

  lemma PruneCommits(strats: seq<Strategy>, ops: nat -> Op, initial: Option<BundleList>, steps: seq<Step>, k: nat)
    requires WellFormed(strats)
    requires var s := After(strats, ops, initial, steps); k < |s.authors| && ops(s.authors[k]).Prune?
    ensures var s := After(strats, ops, initial, steps);
      k < |s.history| && s.ValueAt(k).Some?
      && s.history[k].bundles == Select(s.ValueAt(k).value.bundles, Retained(s.ValueAt(k).value.bundles, strats))
  {
    var f := Calls(strats, ops);
    NoLostUpdate(f, MAX_RETRIES, initial, steps);
    var s := After(strats, ops, initial, steps);
    assert f(s.authors[k])(s.ValueAt(k)) == Write(s.history[k]);
    assert Mutator(strats, ops(s.authors[k]), s.ValueAt(k)) == Write(s.history[k]);
  }

  /** In the list a prune commits, in any run, every walk ends at a full. */
  lemma EveryPruneEndsAtFulls(strats: seq<Strategy>, ops: nat -> Op, initial: Option<BundleList>, steps: seq<Step>, k: nat,
                              es: seq<Entry>, e: Entry)
    requires WellFormed(strats) && Reached(strats, ops, initial, steps, k + 1, es) && e in es
    requires var s := After(strats, ops, initial, steps); k < |s.authors| && ops(s.authors[k]).Prune?
    ensures Sound(ByName(strats)) && Good(ByName(strats), es)
    ensures var w := Walk(ByName(strats), es, e); w[|w| - 1].kind == Full
  {
    hide Good, Sound, Retained, Select, After;
    PruneCommits(strats, ops, initial, steps, k);
    var before := After(strats, ops, initial, steps).ValueAt(k).value.bundles;
    ReachedIsGood(strats, ops, initial, steps, k, before);
    PrunedWalkEndsAtFull(strats, before, e);
  }

  /** Of a table that lists non-chain bases first, every prune of every run keeps the documented rule for non-chain
      strategies: of each, the two newest whose base is kept. */
  lemma EveryListKeepsPromise(strats: seq<Strategy>, ops: nat -> Op, initial: Option<BundleList>, steps: seq<Step>, k: nat,
                              es: seq<Entry>)
    requires WellFormed(strats) && Reached(strats, ops, initial, steps, k, es) && BasesComeFirst(strats)
    ensures LoosePromise(es, strats)
  {
    hide Good, Sound, LoosePromise, BasesComeFirst, LinkedUp;
    ReachedIsGood(strats, ops, initial, steps, k, es);
    GoodIsLinkedUp(strats, es);
    OrderSuffices(es, strats);
  }
}
