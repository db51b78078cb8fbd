/** The mutators behind the advertisement list: publish, remove, record verdicts, settle and prune. */
module ListOps {
  import opened CasMachine
  import opened Entries
  import opened Resolve
  import opened Retention
  import opened Strategies
  import opened Wrappers

  const MODE_ALL := "all"
  const BY_TOKEN := "creationToken"

  // ---- publish ----

  /** The list with the entry in the place of the one of the same id, or at the end. */
  function Place(es: seq<Entry>, e: Entry): seq<Entry> {
    if es == [] then [e]
    else if es[0].id == e.id then [e] + es[1..]
    else [es[0]] + Place(es[1..], e)
  }

  function Defaulted(l: BundleList): BundleList {
    l.(mode := if l.mode == "" then MODE_ALL else l.mode, heuristic := if l.heuristic == "" then BY_TOKEN else l.heuristic)
  }

  function Fresh(): BundleList {
    BundleList(MODE_ALL, BY_TOKEN, [], [])
  }

  /** Publishing and pruning fill in a mode and an order that are missing, and keep those that are there. */
  lemma HeaderFilled(cur: Option<BundleList>, e: Entry)
    ensures var r := Upserted(cur, e);
      && r.Write?
      && r.value.mode == (if cur.None? || cur.value.mode == "" then "all" else cur.value.mode)
      && r.value.heuristic == (if cur.None? || cur.value.heuristic == "" then "creationToken" else cur.value.heuristic)
      && r.value.skipped == if cur.None? then [] else cur.value.skipped
    ensures cur.Some? ==> Defaulted(cur.value).mode == Upserted(cur, e).value.mode
                          && Defaulted(cur.value).heuristic == Upserted(cur, e).value.heuristic
                          && Defaulted(cur.value).bundles == cur.value.bundles && Defaulted(cur.value).skipped == cur.value.skipped
  {
    hide Place;
  }

  method UpsertEntry(cur: Option<BundleList>, e: Entry) returns (next: Outcome<BundleList>)
    ensures next == Upserted(cur, e)
  {
    var list := if cur.None? then Fresh() else Defaulted(cur.value);
    var es := list.bundles;
    var i := 0;
    while i < |es| && es[i].id != e.id
      invariant 0 <= i <= |es|
      invariant forall j :: 0 <= j < i ==> es[j].id != e.id
    {
      i := i + 1;
    }
    PlaceFrom(es, e, i);
    next := Write(list.(bundles := if i < |es| then es[i := e] else es + [e]));
  }

  lemma {:induction false} PlaceFrom(es: seq<Entry>, e: Entry, i: nat)
    requires i <= |es| && (forall j :: 0 <= j < i ==> es[j].id != e.id) && (i < |es| ==> es[i].id == e.id)
    ensures Place(es, e) == if i < |es| then es[i := e] else es + [e]
  {
    if i > 0 {
      var first, rest := es[0], es[1..];
      assert Place(es, e) == [first] + Place(rest, e);
      hide Place;
      forall j | 0 <= j < i - 1 ensures rest[j].id != e.id { assert rest[j] == es[j + 1]; }
      PlaceFrom(rest, e, i - 1);
      if i < |es| {
        assert es[i := e] == [first] + rest[i - 1 := e];
      } else {
        assert es + [e] == [first] + (rest + [e]);
      }
    }
  }

  function Upserted(cur: Option<BundleList>, e: Entry): Outcome<BundleList> {
    var list := if cur.None? then Fresh() else Defaulted(cur.value);
    Write(list.(bundles := Place(list.bundles, e)))
  }

  lemma {:induction false} PlaceMembers(es: seq<Entry>, e: Entry)
    requires Orderly(es)
    ensures forall f :: f in Place(es, e) <==> f == e || (f in es && f.id != e.id)
  {
    if es != [] {
      var rest := es[1..];
      assert es == [es[0]] + rest;
      assert forall k :: 0 <= k < |rest| ==> rest[k] == es[k + 1];
      PlaceMembers(rest, e);
      if es[0].id == e.id {
        forall f | f in rest ensures f.id != e.id { var k :| 0 <= k < |rest| && rest[k] == f; }
      }
    }
  }

  /** Publishing puts the entry in, takes no other id out, and keeps ids unique. */
  lemma {:induction false} PlaceMeans(es: seq<Entry>, e: Entry)
    requires Orderly(es) && e.Stamped()
    ensures forall f :: f in Place(es, e) <==> f == e || (f in es && f.id != e.id)
    ensures Orderly(Place(es, e))
  {
    PlaceMembers(es, e);
    if es != [] && es[0].id != e.id {
      var rest := es[1..];
      assert forall k :: 0 <= k < |rest| ==> rest[k] == es[k + 1];
      PlaceMeans(rest, e);
      forall f | f in Place(rest, e) ensures f.id != es[0].id {
        if f != e { var k :| 0 <= k < |rest| && rest[k] == f; }
      }
    }
  }

  // ---- remove ----

  function Without(es: seq<Entry>, ids: seq<EntryId>): seq<Entry> {
    if es == [] then []
    else Without(es[..|es| - 1], ids) + (if es[|es| - 1].id in ids then [] else [es[|es| - 1]])
  }

  lemma {:induction false} WithoutMeans(es: seq<Entry>, ids: seq<EntryId>)
    ensures forall e :: e in Without(es, ids) <==> e in es && e.id !in ids
    ensures |Without(es, ids)| <= |es|
    ensures |Without(es, ids)| == |es| <==> forall e :: e in es ==> e.id !in ids
  {
    if es != [] {
      WithoutMeans(es[..|es| - 1], ids);
      assert es == es[..|es| - 1] + [es[|es| - 1]];
    }
  }

  lemma {:induction false} WithoutOrderly(es: seq<Entry>, ids: seq<EntryId>)
    requires Orderly(es)
    ensures Orderly(Without(es, ids))
  {
    if es != [] {
      var rest, last := es[..|es| - 1], es[|es| - 1];
      WithoutOrderly(rest, ids);
      WithoutMeans(rest, ids);
      forall e | e in Without(rest, ids) ensures e.id != last.id && e.Stamped() {
        var j :| 0 <= j < |rest| && rest[j] == e;
        assert es[j] == e && e in es;
      }
      assert last in es;
      OneMoreOrderly(Without(rest, ids), last);
    }
  }

  lemma OneMoreOrderly(es: seq<Entry>, e: Entry)
    requires Orderly(es) && e.Stamped() && forall x :: x in es ==> x.id != e.id
    ensures Orderly(es + [e])
  {
  }

  function Removed(cur: Option<BundleList>, ids: seq<EntryId>): Outcome<BundleList> {
    if cur.None? then Abort
    else
      var kept := Without(cur.value.bundles, ids);
      if |kept| == |cur.value.bundles| then Abort else Write(cur.value.(bundles := kept))
  }

  method RemoveEntries(cur: Option<BundleList>, ids: seq<EntryId>) returns (next: Outcome<BundleList>)
    ensures next == Removed(cur, ids)
  {
    if cur.None? { return Abort; }
    var es := cur.value.bundles;
    var drop := {};
    for i := 0 to |ids|
      invariant forall id :: id in drop <==> id in ids[..i]
    {
      drop := drop + {ids[i]};
    }
    assert ids[..|ids|] == ids;
    var kept := [];
    for i := 0 to |es|
      invariant kept == Without(es[..i], ids)
    {
      assert es[..i + 1][..i] == es[..i];
      if es[i].id !in drop { kept := kept + [es[i]]; }
    }
    assert es[..|es|] == es;
    if |kept| == |es| { return Abort; }
    next := Write(BundleList(cur.value.mode, cur.value.heuristic, kept, cur.value.skipped));
  }

  /** The object keys the caller deletes: those of `prior` that `next` no longer holds. */
  function RemovedKeys(prior: seq<Entry>, next: seq<Entry>): seq<string> {
    if prior == [] then []
    else
      var e := prior[|prior| - 1];
      RemovedKeys(prior[..|prior| - 1], next) + (if e.key != "" && (forall f :: f in next ==> f.key != e.key) then [e.key] else [])
  }

  method CollectRemoved(prior: seq<Entry>, next: seq<Entry>) returns (keys: seq<string>)
    ensures keys == RemovedKeys(prior, next)
  {
    var newKeys := {};
    for i := 0 to |next|
      invariant forall k :: k in newKeys <==> exists j :: 0 <= j < i && next[j].key == k
    {
      newKeys := newKeys + {next[i].key};
    }
    assert forall k :: k in newKeys <==> exists f :: f in next && f.key == k;
    keys := [];
    for i := 0 to |prior|
      invariant keys == RemovedKeys(prior[..i], next)
    {
      assert prior[..i + 1][..i] == prior[..i];
      if prior[i].key != "" && prior[i].key !in newKeys { keys := keys + [prior[i].key]; }
    }
    assert prior[..|prior|] == prior;
  }

  ghost predicate HasKey(es: seq<Entry>, key: string) {
    exists e :: e in es && e.key == key
  }

  lemma {:induction false} RemovedKeysMean(prior: seq<Entry>, next: seq<Entry>, key: string)
    ensures key in RemovedKeys(prior, next) <==> key != "" && HasKey(prior, key) && !HasKey(next, key)
  {
    if prior != [] {
      var rest, last := prior[..|prior| - 1], prior[|prior| - 1];
      assert prior == rest + [last];
      RemovedKeysMean(rest, next, key);
      if HasKey(prior, key) {
        var e :| e in prior && e.key == key;
      }
      if HasKey(rest, key) {
        var e :| e in rest && e.key == key;
        assert e in prior;
      }
      if last.key == key { assert last in prior; }
    }
  }

  // ---- verdicts ----

  predicate SameKey(a: SkippedSlot, b: SkippedSlot) {
    a.strategy == b.strategy && a.slot == b.slot && a.baseId == b.baseId
  }

  function PlaceVerdict(vs: seq<SkippedSlot>, v: SkippedSlot): seq<SkippedSlot> {
    if vs == [] then [v]
    else if SameKey(vs[0], v) then [v] + vs[1..]
    else [vs[0]] + PlaceVerdict(vs[1..], v)
  }

  function PlaceVerdicts(vs: seq<SkippedSlot>, added: seq<SkippedSlot>): seq<SkippedSlot> {
    if added == [] then vs else PlaceVerdict(PlaceVerdicts(vs, added[..|added| - 1]), added[|added| - 1])
  }

  function Recorded(cur: Option<BundleList>, added: seq<SkippedSlot>): Outcome<BundleList> {
    var list := if cur.None? then Fresh() else cur.value;
    Write(list.(skipped := PlaceVerdicts(list.skipped, added)))
  }

  method RecordVerdicts(cur: Option<BundleList>, added: seq<SkippedSlot>) returns (next: Outcome<BundleList>)
    ensures next == Recorded(cur, added)
  {
    var list := if cur.None? then Fresh() else cur.value;
    var vs := list.skipped;
    for n := 0 to |added|
      invariant vs == PlaceVerdicts(list.skipped, added[..n])
    {
      assert added[..n + 1][..n] == added[..n];
      vs := PutVerdict(vs, added[n]);
    }
    assert added[..|added|] == added;
    next := Write(list.(skipped := vs));
  }

  method PutVerdict(vs: seq<SkippedSlot>, v: SkippedSlot) returns (out: seq<SkippedSlot>)
    ensures out == PlaceVerdict(vs, v)
  {
    var i := 0;
    while i < |vs| && !SameKey(vs[i], v)
      invariant 0 <= i <= |vs|
      invariant forall j :: 0 <= j < i ==> !SameKey(vs[j], v)
    {
      i := i + 1;
    }
    PlaceVerdictFrom(vs, v, i);
    out := if i < |vs| then vs[i := v] else vs + [v];
  }

  lemma {:induction false} PlaceVerdictFrom(vs: seq<SkippedSlot>, v: SkippedSlot, i: nat)
    requires i <= |vs| && (forall j :: 0 <= j < i ==> !SameKey(vs[j], v)) && (i < |vs| ==> SameKey(vs[i], v))
    ensures PlaceVerdict(vs, v) == if i < |vs| then vs[i := v] else vs + [v]
  {
    hide SameKey;
    if i > 0 {
      var rest := vs[1..];
      PlaceVerdictFrom(rest, v, i - 1);
      if i < |vs| {
        assert vs[i := v] == [vs[0]] + rest[i - 1 := v];
      } else {
        assert vs + [v] == [vs[0]] + (rest + [v]);
      }
    } else if vs != [] {
      assert vs[0 := v] == [v] + vs[1..];
    }
  }

  /** A verdict is final for a strategy, a slot and the base it was made on. */
  ghost function KeyOf(v: SkippedSlot): (string, nat, EntryId) {
    (v.strategy, v.slot, v.baseId)
  }

  ghost predicate OnePerKey(vs: seq<SkippedSlot>) {
    forall i, j :: 0 <= i < j < |vs| ==> KeyOf(vs[i]) != KeyOf(vs[j])
  }

  lemma TailKeys(vs: seq<SkippedSlot>)
    requires OnePerKey(vs) && vs != []
    ensures OnePerKey(vs[1..]) && forall w :: w in vs[1..] ==> !SameKey(w, vs[0]) && !SameKey(vs[0], w)
    ensures forall w :: w in vs <==> w == vs[0] || w in vs[1..]
  {
    var rest := vs[1..];
    assert vs == [vs[0]] + rest;
    assert forall k :: 0 <= k < |rest| ==> rest[k] == vs[k + 1];
    forall w | w in rest ensures !SameKey(w, vs[0]) && !SameKey(vs[0], w) { var k :| 0 <= k < |rest| && rest[k] == w; }
  }

  lemma {:induction false} PlaceVerdictMeans(vs: seq<SkippedSlot>, v: SkippedSlot)
    requires OnePerKey(vs)
    ensures forall w :: w in PlaceVerdict(vs, v) <==> w == v || (w in vs && !SameKey(w, v))
  {
    if vs != [] {
      TailKeys(vs);
      PlaceVerdictMeans(vs[1..], v);
    }
  }

  lemma {:induction false} PlaceVerdictUnique(vs: seq<SkippedSlot>, v: SkippedSlot)
    requires OnePerKey(vs)
    ensures OnePerKey(PlaceVerdict(vs, v))
  {
    if vs != [] {
      TailKeys(vs);
      var out := PlaceVerdict(vs[1..], v);
      PlaceVerdictUnique(vs[1..], v);
      PlaceVerdictMeans(vs[1..], v);
      if !SameKey(vs[0], v) {
        forall j | 0 <= j < |out| ensures !SameKey(vs[0], out[j]) { assert out[j] in out; }
      }
    }
  }

  /** Verdicts are final per (strategy, slot, base): of a batch the last record of a key stands, records of other
      keys stay, and no key has two records. */
  lemma {:induction false} VerdictsKeyed(vs: seq<SkippedSlot>, added: seq<SkippedSlot>)
    requires OnePerKey(vs)
    ensures OnePerKey(PlaceVerdicts(vs, added))
    ensures forall w :: w in PlaceVerdicts(vs, added) <==> LastOfKey(added, w) || (w in vs && NoneOfKey(added, w))
  {
    if added != [] {
      var init, last := added[..|added| - 1], added[|added| - 1];
      VerdictsKeyed(vs, init);
      PlaceVerdictMeans(PlaceVerdicts(vs, init), last);
      PlaceVerdictUnique(PlaceVerdicts(vs, init), last);
      assert added == init + [last];
      forall w ensures w in PlaceVerdicts(vs, added) <==> LastOfKey(added, w) || (w in vs && NoneOfKey(added, w)) {
        LastOfKeyStep(init, last, w);
      }
    }
  }

  ghost predicate LastOfKey(added: seq<SkippedSlot>, w: SkippedSlot) {
    exists i :: 0 <= i < |added| && added[i] == w && forall j :: i < j < |added| ==> KeyOf(added[j]) != KeyOf(w)
  }

  ghost predicate NoneOfKey(added: seq<SkippedSlot>, w: SkippedSlot) {
    forall j :: 0 <= j < |added| ==> KeyOf(added[j]) != KeyOf(w)
  }

  lemma LastOfKeyStep(init: seq<SkippedSlot>, last: SkippedSlot, w: SkippedSlot)
    ensures LastOfKey(init + [last], w) <==> w == last || (LastOfKey(init, w) && !SameKey(w, last))
    ensures NoneOfKey(init + [last], w) <==> NoneOfKey(init, w) && !SameKey(w, last)
  {
    var added := init + [last];
    if LastOfKey(added, w) && w != last {
      var i :| 0 <= i < |added| && added[i] == w && forall j :: i < j < |added| ==> KeyOf(added[j]) != KeyOf(w);
      assert init[i] == w;
      assert KeyOf(added[|init|]) != KeyOf(w);
      forall j | i < j < |init| ensures KeyOf(init[j]) != KeyOf(w) { assert added[j] == init[j]; }
    }
    if w == last { assert added[|init|] == w; }
    if LastOfKey(init, w) && !SameKey(w, last) {
      var i :| 0 <= i < |init| && init[i] == w && forall j :: i < j < |init| ==> KeyOf(init[j]) != KeyOf(w);
      assert added[i] == w;
    }
    if NoneOfKey(added, w) {
      assert KeyOf(added[|init|]) != KeyOf(w);
      forall j | 0 <= j < |init| ensures KeyOf(init[j]) != KeyOf(w) { assert added[j] == init[j]; }
    }
  }

  // ---- settle ----

  /** A record stands while its slot is configured, unbuilt and in the window, and its base link is still what the
      slot would be cut on (or the slot is blocked). */
  predicate Stands(es: seq<Entry>, tbl: Table, windows: Windows, v: SkippedSlot)
    requires Acyclic(tbl)
  {
    && v.strategy in tbl
    && !HasEntry(es, v.strategy, v.slot)
    && v.strategy in windows && v.slot in windows[v.strategy]
    && (BaseIdFor(tbl[v.strategy], v.slot, es, tbl).Ok? ==> BaseIdFor(tbl[v.strategy], v.slot, es, tbl).value == v.baseId)
  }

  /** In terms of the list and the table: the strategy is configured, its window has the slot, no entry is listed for it, and
      whatever the slot would now be cut on (nothing, for a full) is what the verdict was made on. */
  lemma StandsExactly(es: seq<Entry>, tbl: Table, windows: Windows, v: SkippedSlot)
    requires Sound(tbl)
    ensures Stands(es, tbl, windows, v) <==>
              && v.strategy in tbl
              && (v.strategy in windows && exists i :: 0 <= i < |windows[v.strategy]| && windows[v.strategy][i] == v.slot)
              && (forall e :: e in es ==> e.strategy != v.strategy || e.slot != v.slot)
              && if tbl[v.strategy].kind == Full then v.baseId == NoId
                 else forall b :: CutOn(tbl[v.strategy], v.slot, es, tbl, b) ==> b.id == v.baseId
  {
    hide BaseFor, CutOn;
    if v.strategy in tbl && tbl[v.strategy].kind != Full {
      forall b ensures BaseFor(tbl[v.strategy], v.slot, es, tbl) == Some(b) <==> CutOn(tbl[v.strategy], v.slot, es, tbl, b) {
        CutExactly(tbl[v.strategy], v.slot, es, tbl, b);
      }
    }
  }

  function Standing(es: seq<Entry>, tbl: Table, windows: Windows, vs: seq<SkippedSlot>): seq<SkippedSlot>
    requires Acyclic(tbl)
  {
    if vs == [] then []
    else Standing(es, tbl, windows, vs[..|vs| - 1]) + (if Stands(es, tbl, windows, vs[|vs| - 1]) then [vs[|vs| - 1]] else [])
  }

  lemma StandingStep(es: seq<Entry>, tbl: Table, windows: Windows, rest: seq<SkippedSlot>, last: SkippedSlot)
    requires Acyclic(tbl)
    ensures Standing(es, tbl, windows, rest + [last]) ==
            Standing(es, tbl, windows, rest) + (if Stands(es, tbl, windows, last) then [last] else [])
  {
    hide Stands;
    assert (rest + [last])[..|rest|] == rest;
  }

  lemma {:induction false} StandingCounts(es: seq<Entry>, tbl: Table, windows: Windows, vs: seq<SkippedSlot>, v: SkippedSlot)
    requires Acyclic(tbl)
    ensures multiset(Standing(es, tbl, windows, vs))[v] == if Stands(es, tbl, windows, v) then multiset(vs)[v] else 0
  {
    hide Stands, Standing;
    if vs != [] {
      var rest, last := vs[..|vs| - 1], vs[|vs| - 1];
      assert vs == rest + [last];
      StandingCounts(es, tbl, windows, rest, v);
      StandingStep(es, tbl, windows, rest, last);
    } else {
      StandingNothing(es, tbl, windows);
    }
  }

  lemma StandingNothing(es: seq<Entry>, tbl: Table, windows: Windows)
    requires Acyclic(tbl)
    ensures Standing(es, tbl, windows, []) == []
  {
  }

  /** a is b with some items left out. */
  predicate Subsequence<T(==)>(a: seq<T>, b: seq<T>) {
    if a == [] || b == [] then a == []
    else Subsequence(a, b[..|b| - 1]) || (a[|a| - 1] == b[|b| - 1] && Subsequence(a[..|a| - 1], b[..|b| - 1]))
  }

  lemma SubsequenceGrows(a: seq<SkippedSlot>, b: seq<SkippedSlot>, v: SkippedSlot)
    requires Subsequence(a, b)
    ensures Subsequence(a, b + [v]) && Subsequence(a + [v], b + [v])
  {
    assert (b + [v])[..|b|] == b && (a + [v])[..|a|] == a;
  }

  /** Exactly the records that stand are kept, as often and in the order they were. */
  lemma {:induction false} StandingMeans(es: seq<Entry>, tbl: Table, windows: Windows, vs: seq<SkippedSlot>)
    requires Acyclic(tbl)
    ensures forall v :: multiset(Standing(es, tbl, windows, vs))[v] == if Stands(es, tbl, windows, v) then multiset(vs)[v] else 0
    ensures Subsequence(Standing(es, tbl, windows, vs), vs)
  {
    hide Stands, Standing, Subsequence;
    forall v ensures multiset(Standing(es, tbl, windows, vs))[v] == if Stands(es, tbl, windows, v) then multiset(vs)[v] else 0 {
      StandingCounts(es, tbl, windows, vs, v);
    }
    StandingInOrder(es, tbl, windows, vs);
  }

  lemma {:induction false} StandingInOrder(es: seq<Entry>, tbl: Table, windows: Windows, vs: seq<SkippedSlot>)
    requires Acyclic(tbl)
    ensures Subsequence(Standing(es, tbl, windows, vs), vs)
  {
    hide Stands, Standing, Subsequence;
    if vs == [] {
      StandingNothing(es, tbl, windows);
      NothingSubsequence(vs);
    } else {
      var rest, last := vs[..|vs| - 1], vs[|vs| - 1];
      assert vs == rest + [last];
      StandingInOrder(es, tbl, windows, rest);
      StandingStep(es, tbl, windows, rest, last);
      var kept := Standing(es, tbl, windows, rest);
      assert kept + [] == kept;
      SubsequenceGrows(kept, rest, last);
    }
  }

  /** Settling does not bring two records of one key. */
  lemma {:induction false} StandingKeepsKeys(es: seq<Entry>, tbl: Table, windows: Windows, vs: seq<SkippedSlot>)
    requires Acyclic(tbl) && OnePerKey(vs)
    ensures OnePerKey(Standing(es, tbl, windows, vs))
    ensures forall w :: w in Standing(es, tbl, windows, vs) ==> w in vs
  {
    hide Stands, Standing, Acyclic;
    if vs == [] {
      StandingNothing(es, tbl, windows);
    } else {
      var rest, last := vs[..|vs| - 1], vs[|vs| - 1];
      assert vs == rest + [last];
      StandingKeepsKeys(es, tbl, windows, rest);
      StandingStep(es, tbl, windows, rest, last);
      var kept := Standing(es, tbl, windows, rest);
      forall i | 0 <= i < |kept| ensures !SameKey(kept[i], last) {
        assert kept[i] in rest;
        var k :| 0 <= k < |rest| && rest[k] == kept[i];
        assert vs[k] == kept[i];
      }
    }
  }

  lemma NothingSubsequence(b: seq<SkippedSlot>)
    ensures Subsequence([], b)
  {
  }

  /** The comment's rule: a record is dropped only if its strategy is configured and it no longer stands; records of
      strategies gone from the configuration are left alone. */
  predicate ShouldStay(es: seq<Entry>, tbl: Table, windows: Windows, v: SkippedSlot)
    requires Acyclic(tbl)
  {
    v.strategy !in tbl || Stands(es, tbl, windows, v)
  }

  /** The rule is missed exactly for the records of strategies that are not configured: of those that should stay, they
      are the ones that go; and nothing stays that should not. */
  lemma SettlingMissesGoneStrategies(es: seq<Entry>, tbl: Table, windows: Windows, vs: seq<SkippedSlot>, v: SkippedSlot)
    requires Acyclic(tbl) && v in vs
    ensures ShouldStay(es, tbl, windows, v) && v !in Standing(es, tbl, windows, vs) <==> v.strategy !in tbl
    ensures v in Standing(es, tbl, windows, vs) ==> ShouldStay(es, tbl, windows, v)
  {
    StandingMeans(es, tbl, windows, vs);
    assert multiset(vs)[v] > 0;
    assert v in Standing(es, tbl, windows, vs) <==> multiset(Standing(es, tbl, windows, vs))[v] > 0;
  }

  method SettleSkipped(cur: BundleList, tbl: Table, windows: Windows) returns (next: BundleList)
    requires Acyclic(tbl)
    ensures next == cur.(skipped := Standing(cur.bundles, tbl, windows, cur.skipped))
  {
    if |cur.skipped| == 0 { return cur; }
    var keep := [];
    for i := 0 to |cur.skipped|
      invariant keep == Standing(cur.bundles, tbl, windows, cur.skipped[..i])
    {
      assert cur.skipped[..i + 1][..i] == cur.skipped[..i];
      var v := cur.skipped[i];
      if v.strategy !in tbl { continue; }
      var built := EntryAt(cur.bundles, v.strategy, v.slot);
      if built.Some? { continue; }
      if v.strategy !in windows || v.slot !in windows[v.strategy] { continue; }
      var wantBase := BaseIdFor(tbl[v.strategy], v.slot, cur.bundles, tbl);
      if wantBase.Ok? && wantBase.value != v.baseId { continue; }
      keep := keep + [v];
    }
    assert cur.skipped[..|cur.skipped|] == cur.skipped;
    next := cur.(skipped := keep);
  }

  method EntryAt(es: seq<Entry>, strategy: string, slot: nat) returns (r: Option<Entry>)
    ensures r.Some? ==> r.value in es && r.value.strategy == strategy && r.value.slot == slot
    ensures r.Some? <==> HasEntry(es, strategy, slot)
  {
    for i := 0 to |es|
      invariant forall j :: 0 <= j < i ==> !(es[j].strategy == strategy && es[j].slot == slot)
    {
      if es[i].strategy == strategy && es[i].slot == slot { return Some(es[i]); }
    }
    r := None;
  }
}
