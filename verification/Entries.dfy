/** Bundle list entries and the advertisement list that holds them. */
module Entries {
  import opened Strategies

  /** An entry is named by its strategy and slot; NoId is the empty base link of a full. */
  datatype EntryId = NoId | Id(strategy: string, slot: nat)

  datatype Entry = Entry(id: EntryId, key: string, strategy: string, kind: Kind, creationToken: nat,
                         baseId: EntryId, slot: nat, filter: string)
  {
    /** Id and creation token are functions of the strategy and slot. */
    predicate Stamped() {
      id == Id(strategy, slot) && creationToken == slot
    }
  }

  datatype SkippedSlot = SkippedSlot(strategy: string, slot: nat, baseId: EntryId, reason: string)

  datatype BundleList = BundleList(mode: string, heuristic: string, bundles: seq<Entry>, skipped: seq<SkippedSlot>)

  /** The slots each strategy should have an entry for. */
  type Windows = map<string, seq<nat>>

  predicate HasEntry(es: seq<Entry>, strategy: string, slot: nat) {
    exists e :: e in es && e.strategy == strategy && e.slot == slot
  }

  ghost function Elements(es: seq<Entry>): set<Entry> {
    set e | e in es
  }

  ghost function Ids(es: set<Entry>): set<EntryId> {
    set e | e in es :: e.id
  }

  /** No two positions hold the same id, and every entry is stamped. */
  ghost predicate Orderly(es: seq<Entry>) {
    && (forall i, j :: 0 <= i < j < |es| ==> es[i].id != es[j].id)
    && (forall e :: e in es ==> e.Stamped())
  }

  ghost function OfStrategy(es: seq<Entry>, name: string): set<Entry> {
    set e | e in es && e.strategy == name
  }

  method EntriesOfStrategy(es: seq<Entry>, name: string) returns (out: seq<Entry>)
    ensures Elements(out) == OfStrategy(es, name)
    ensures Orderly(es) ==> Orderly(out)
  {
    out := [];
    for i := 0 to |es|
      invariant forall e :: e in out <==> e in es[..i] && e.strategy == name
      invariant Orderly(es) ==> Orderly(out)
    {
      assert es[..i + 1] == es[..i] + [es[i]];
      if es[i].strategy == name {
        if Orderly(es) { AppendFresh(es, i, out); }
        out := out + [es[i]];
      }
    }
    assert es[..|es|] == es;
  }

  lemma AppendFresh(es: seq<Entry>, i: nat, out: seq<Entry>)
    requires i < |es| && Orderly(es) && Orderly(out) && forall e :: e in out ==> e in es[..i]
    ensures Orderly(out + [es[i]])
  {
    forall k | 0 <= k < |out| ensures out[k].id != es[i].id {
      assert out[k] in es[..i];
    }
  }
}
