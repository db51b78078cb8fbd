/** The lists that are served: one filter family at a time, in creation token order.

    Entries of different families never link to each other, so each family stands by itself. */
module Families {
  import opened BundleLinks
  import opened BundleRuns
  import opened Entries
  import opened Retention
  import opened RetentionLaws
  import opened Strategies
  import opened Wrappers

  function OfFamily(es: seq<Entry>, filter: string): seq<Entry> {
    if es == [] then []
    else
      var e := es[|es| - 1];
      OfFamily(es[..|es| - 1], filter) + (if e.filter == filter then [e] else [])
  }

  /** The entries of one family; only the empty filter and blob:none are known. */
  method FamilyFilter(list: seq<Entry>, filter: string) returns (r: Option<seq<Entry>>)
    ensures r.None? <==> filter != "" && filter != "blob:none"
    ensures r.Some? ==> multiset(r.value) == multiset(OfFamily(list, filter)) && Ascending(r.value)
  {
    if filter != "" && filter != BLOB_NONE { return None; }
    var out := [];
    for i := 0 to |list|
      invariant multiset(out) == multiset(OfFamily(list[..i], filter)) && Ascending(out)
    {
      assert list[..i + 1][..i] == list[..i];
      if list[i].filter == filter { out := InsertAscending(out, list[i]); }
    }
    assert list[..|list|] == list;
    r := Some(out);
  }

  lemma {:induction false} OfFamilyIs(es: seq<Entry>, filter: string)
    ensures forall e :: e in OfFamily(es, filter) <==> e in es && e.filter == filter
  {
    if es != [] {
      OfFamilyIs(es[..|es| - 1], filter);
      assert es == es[..|es| - 1] + [es[|es| - 1]];
    }
  }

  /** What a pruned list serves of a family stands by itself: with every incremental comes the entry it builds on, in
      the same family and with a creation token no greater, so a client that takes the bundles by token has it. */
  lemma FamilyIsClosed(strats: seq<Strategy>, es: seq<Entry>, filter: string, served: seq<Entry>, e: Entry)
    requires WellFormed(strats) && Sound(ByName(strats)) && Good(ByName(strats), es)
    requires multiset(served) == multiset(OfFamily(Select(es, Retained(es, strats)), filter)) && Ascending(served)
    requires e in served && e.kind == Incremental
    ensures Lists(served, e.baseId)
    ensures Lookup(served, e.baseId).filter == e.filter && Lookup(served, e.baseId).creationToken <= e.creationToken
    ensures Before(ByName(strats), Lookup(served, e.baseId), e)
  {
    var tbl, out := ByName(strats), Select(es, Retained(es, strats));
    var family := OfFamily(out, filter);
    SelectKeepsGood(tbl, es, Retained(es, strats));
    OfFamilyIs(out, filter);
    InBoth(served, family, e);
    GoodFullsStandAlone(strats, es);
    RetainedIsBaseClosed(es, strats);
    assert Cut(tbl, e);
    assert e in Elements(out);
    var b :| b in Elements(out) && b.id == e.baseId;
    assert Lists(out, e.baseId);
    LinkGoesBefore(tbl, out, e);
    var base := Lookup(out, e.baseId);
    InBoth(family, served, base);
    OnlyOne(served, family, out, base, Lookup(served, e.baseId));
  }

  lemma InBoth(a: seq<Entry>, b: seq<Entry>, e: Entry)
    requires multiset(a) == multiset(b) && e in a
    ensures e in b
  {
    assert e in multiset(a);
  }

  lemma OnlyOne(served: seq<Entry>, family: seq<Entry>, out: seq<Entry>, a: Entry, b: Entry)
    requires multiset(served) == multiset(family) && (forall e :: e in family ==> e in out) && Orderly(out)
    requires a in out && b in served && a.id == b.id
    ensures a == b
  {
    InBoth(served, family, b);
  }
}
