/** The weighted cache: a list of entries, newest first, an index into it by key, and the running weight. */
module Lru {
  import opened Wrappers

  datatype Entry<+V> = Entry(key: string, weight: nat, val: V)

  function Weight<V>(list: seq<Entry<V>>): nat {
    if list == [] then 0 else Weight(list[..|list| - 1]) + list[|list| - 1].weight
  }

  /** Where the entry of this key is, or the length of the list. */
  function Position<V>(list: seq<Entry<V>>, key: string): (p: nat)
    ensures p <= |list|
    ensures p < |list| ==> list[p].key == key
    ensures forall i :: 0 <= i < p ==> list[i].key != key
  {
    if list == [] || list[0].key == key then 0 else 1 + Position(list[1..], key)
  }

  /** The list without the entry of this key. */
  function Without<V>(list: seq<Entry<V>>, key: string): seq<Entry<V>> {
    var p := Position(list, key);
    if p < |list| then list[..p] + list[p + 1..] else list
  }

  /** Drops entries from the back until the rest is within budget. */
  function Fitting<V>(list: seq<Entry<V>>, max: nat): seq<Entry<V>> {
    if list == [] || Weight(list) <= max then list else Fitting(list[..|list| - 1], max)
  }

  function Found<V>(list: seq<Entry<V>>, key: string): Option<Entry<V>> {
    var p := Position(list, key);
    if p < |list| then Some(list[p]) else None
  }

  /** The list after a lookup: a hit moves to the front. */
  function AfterGet<V>(list: seq<Entry<V>>, key: string): seq<Entry<V>> {
    var e := Found(list, key);
    if e.None? then list else [e.value] + Without(list, key)
  }

  /** The list after a store: the old entry of the key goes; the new one goes to the front unless it could never fit;
      and the back gives way. */
  function AfterPut<V>(list: seq<Entry<V>>, max: nat, e: Entry<V>): seq<Entry<V>> {
    if e.weight > max then Without(list, e.key) else Fitting([e] + Without(list, e.key), max)
  }

  ghost predicate Distinct<V(!new)>(list: seq<Entry<V>>) {
    forall i, j :: 0 <= i < j < |list| ==> list[i].key != list[j].key
  }

  // ---- the cache object ----

  ghost predicate Indexes<V(!new)>(items: map<string, Entry<V>>, list: seq<Entry<V>>) {
    && (forall k :: k in items ==> items[k].key == k && items[k] in list)
    && (forall e :: e in list ==> e.key in items && items[e.key] == e)
  }

  class Cache<V(!new)> {
    const max: nat
    var cur: int
    var list: seq<Entry<V>>
    var items: map<string, Entry<V>>

    /** The index and the list are in bijection, and the running weight is the list's and within budget. */
    ghost predicate Valid()
      reads this
    {
      Distinct(list) && Indexes(items, list) && cur == Weight(list) <= max
    }

    constructor (maxWeight: nat)
      ensures Valid() && list == [] && max == maxWeight
    {
      max, cur, list, items := maxWeight, 0, [], map[];
    }

    method Get(key: string) returns (val: Option<V>)
      requires Valid()
      modifies this
      ensures Valid() && list == AfterGet(old(list), key)
      ensures val == match Found(old(list), key) case None => None case Some(e) => Some(e.val)
    {
      FoundIndexed(items, list, key);
      if key !in items { return None; }
      var e := items[key];
      MovedToFront(items, list, e);
      list := [e] + Without(list, key);
      val := Some(e.val);
    }

    method Put(key: string, weight: nat, val: V)
      requires Valid()
      modifies this
      ensures Valid() && list == AfterPut(old(list), max, Entry(key, weight, val))
    {
      if key in items {
        Removed(items, list, key);
        cur := cur - items[key].weight;
        list := Without(list, key);
        items := items - {key};
      } else {
        NothingRemoved(items, list, key);
      }
      if weight > max { return; }
      var e := Entry(key, weight, val);
      Added(items, list, e);
      list := [e] + list;
      items := items[key := e];
      cur := cur + weight;
      ghost var all := list;
      while cur > max
        invariant Distinct(list) && Indexes(items, list) && cur == Weight(list)
        invariant Fitting(list, max) == Fitting(all, max)
        decreases |list|
      {
        if |list| == 0 { break; }
        var back := list[|list| - 1];
        Evicted(items, list);
        list := list[..|list| - 1];
        items := items - {back.key};
        cur := cur - back.weight;
      }
    }
  }

  // ---- lists and their index ----

  lemma {:induction false} WeightInTwo<V(!new)>(a: seq<Entry<V>>, b: seq<Entry<V>>)
    ensures Weight(a + b) == Weight(a) + Weight(b)
  {
    if b == [] {
      assert a + b == a;
    } else {
      var n := |b| - 1;
      WeightInTwo(a, b[..n]);
      assert (a + b)[..|a| + n] == a + b[..n] && (a + b)[|a| + n] == b[n];
    }
  }

  lemma WeightOne<V(!new)>(e: Entry<V>)
    ensures Weight([e]) == e.weight
  {
    assert [e][..0] == [];
  }

  lemma FrontWeight<V(!new)>(e: Entry<V>, list: seq<Entry<V>>)
    ensures Weight([e] + list) == e.weight + Weight(list)
  {
    WeightInTwo([e], list);
    WeightOne(e);
  }

  lemma SplitWeight<V(!new)>(list: seq<Entry<V>>, p: nat)
    requires p < |list|
    ensures Weight(list) == Weight(list[..p]) + list[p].weight + Weight(list[p + 1..])
  {
    hide Weight;
    assert list == (list[..p] + [list[p]]) + list[p + 1..];
    WeightInTwo(list[..p] + [list[p]], list[p + 1..]);
    WeightInTwo(list[..p], [list[p]]);
    WeightOne(list[p]);
  }

  lemma WithoutWeight<V(!new)>(list: seq<Entry<V>>, key: string)
    ensures var p := Position(list, key);
      Weight(list) == Weight(Without(list, key)) + (if p < |list| then list[p].weight else 0)
  {
    hide Weight, Position;
    var p := Position(list, key);
    if p < |list| {
      SplitWeight(list, p);
      WeightInTwo(list[..p], list[p + 1..]);
    }
  }

  lemma WithoutDistinct<V(!new)>(list: seq<Entry<V>>, key: string)
    requires Distinct(list)
    ensures Distinct(Without(list, key))
  {
    hide Position;
  }

  lemma WithoutIs<V(!new)>(list: seq<Entry<V>>, key: string)
    requires Distinct(list)
    ensures Distinct(Without(list, key))
    ensures forall e :: e in Without(list, key) <==> e in list && e.key != key
  {
    hide Position;
    var p, less := Position(list, key), Without(list, key);
    WithoutDistinct(list, key);
    if p < |list| {
      forall i | 0 <= i < |less| ensures less[i] == (if i < p then list[i] else list[i + 1]) && less[i].key != key { }
      forall e | e in list && e.key != key ensures e in less {
        var i :| 0 <= i < |list| && list[i] == e;
        assert less[if i < p then i else i - 1] == e;
      }
    } else {
      forall e | e in list ensures e.key != key { }
    }
  }

  lemma FoundIs<V(!new)>(list: seq<Entry<V>>, key: string)
    ensures Found(list, key).Some? ==> Found(list, key).value in list && Found(list, key).value.key == key
    ensures Found(list, key).None? ==> forall e :: e in list ==> e.key != key
  {
    hide Position;
  }

  lemma FoundIndexed<V(!new)>(items: map<string, Entry<V>>, list: seq<Entry<V>>, key: string)
    requires Indexes(items, list)
    ensures Found(list, key) == if key in items then Some(items[key]) else None
  {
    hide Found;
    FoundIs(list, key);
  }

  lemma FrontDistinct<V(!new)>(e: Entry<V>, list: seq<Entry<V>>)
    requires Distinct(list) && forall f :: f in list ==> f.key != e.key
    ensures Distinct([e] + list)
  {
    forall j | 0 <= j < |list| ensures list[j].key != e.key { assert list[j] in list; }
  }

  lemma MovedToFront<V(!new)>(items: map<string, Entry<V>>, list: seq<Entry<V>>, e: Entry<V>)
    requires Distinct(list) && Indexes(items, list) && e in list
    ensures var moved := [e] + Without(list, e.key); Distinct(moved) && Indexes(items, moved) && Weight(moved) == Weight(list)
  {
    hide Without, Weight, Distinct, Position;
    WithoutIs(list, e.key);
    FrontDistinct(e, Without(list, e.key));
    FoundIndexed(items, list, e.key);
    WithoutWeight(list, e.key);
    FrontWeight(e, Without(list, e.key));
  }

  lemma Removed<V(!new)>(items: map<string, Entry<V>>, list: seq<Entry<V>>, key: string)
    requires Distinct(list) && Indexes(items, list) && key in items
    ensures var less := Without(list, key);
      Distinct(less) && Indexes(items - {key}, less) && Weight(less) == Weight(list) - items[key].weight
  {
    hide Without, Weight, Distinct, Position;
    WithoutIs(list, key);
    FoundIndexed(items, list, key);
    WithoutWeight(list, key);
  }

  lemma NothingRemoved<V(!new)>(items: map<string, Entry<V>>, list: seq<Entry<V>>, key: string)
    requires Indexes(items, list) && key !in items
    ensures Without(list, key) == list
  {
    FoundIndexed(items, list, key);
  }

  lemma Added<V(!new)>(items: map<string, Entry<V>>, list: seq<Entry<V>>, e: Entry<V>)
    requires Distinct(list) && Indexes(items, list) && e.key !in items
    ensures Distinct([e] + list) && Indexes(items[e.key := e], [e] + list) && Weight([e] + list) == Weight(list) + e.weight
  {
    hide Distinct, Weight;
    FrontWeight(e, list);
    FrontDistinct(e, list);
  }

  lemma Evicted<V(!new)>(items: map<string, Entry<V>>, list: seq<Entry<V>>)
    requires Distinct(list) && Indexes(items, list) && list != []
    ensures Distinct(list[..|list| - 1]) && Indexes(items - {list[|list| - 1].key}, list[..|list| - 1])
  {
    var rest, last := list[..|list| - 1], list[|list| - 1];
    assert list == rest + [last];
  }

  // ---- what a store leaves ----

  /** Entry i and everything newer are together within budget. */
  predicate Fits<V>(list: seq<Entry<V>>, max: nat, i: nat)
    requires i < |list|
  {
    Weight(list[..i + 1]) <= max
  }

  lemma WeightMonotone<V(!new)>(list: seq<Entry<V>>, n: nat)
    requires n <= |list|
    ensures Weight(list[..n]) <= Weight(list)
  {
    hide Weight;
    WeightInTwo(list[..n], list[n..]);
    assert list[..n] + list[n..] == list;
  }

  /** What fits is a prefix, and an entry is in it exactly if it and everything newer are together within budget. */
  lemma {:induction false} FittingExactly<V(!new)>(list: seq<Entry<V>>, max: nat)
    ensures var kept := Fitting(list, max);
      && |kept| <= |list| && kept == list[..|kept|] && Weight(kept) <= max
      && forall i :: 0 <= i < |list| ==> (i < |kept| <==> Fits(list, max, i))
  {
    if list == [] || Weight(list) <= max {
      forall i | 0 <= i < |list| ensures Fits(list, max, i) { WeightMonotone(list, i + 1); }
      assert list[..|list|] == list;
    } else {
      var rest := list[..|list| - 1];
      FittingExactly(rest, max);
      forall i | 0 <= i < |list| ensures i < |Fitting(list, max)| <==> Fits(list, max, i) {
        if i < |rest| {
          assert Fits(rest, max, i) <==> i < |Fitting(rest, max)|;
          assert rest[..i + 1] == list[..i + 1];
        } else {
          assert list[..i + 1] == list;
        }
      }
    }
  }

  // ---- runs ----

  datatype Call<+V> = Get(key: string) | Put(entry: Entry<V>)

  function Next<V>(list: seq<Entry<V>>, max: nat, call: Call<V>): seq<Entry<V>> {
    match call
    case Get(key) => AfterGet(list, key)
    case Put(e) => AfterPut(list, max, e)
  }

  function Run<V>(list: seq<Entry<V>>, max: nat, calls: seq<Call<V>>): seq<Entry<V>> {
    if calls == [] then list else Next(Run(list, max, calls[..|calls| - 1]), max, calls[|calls| - 1])
  }

  /** The entry last stored under the key. */
  function LastPut<V>(calls: seq<Call<V>>, key: string): Option<Entry<V>> {
    if calls == [] then None
    else if calls[|calls| - 1].Put? && calls[|calls| - 1].entry.key == key then Some(calls[|calls| - 1].entry)
    else LastPut(calls[..|calls| - 1], key)
  }

  ghost predicate Sound<V(!new)>(list: seq<Entry<V>>, max: nat) {
    Distinct(list) && Weight(list) <= max
  }

  lemma NextIs<V(!new)>(list: seq<Entry<V>>, max: nat, call: Call<V>)
    requires Sound(list, max)
    ensures Sound(Next(list, max, call), max)
    ensures call.Get? ==> forall e :: e in Next(list, max, call) <==> e in list
    ensures call.Put? ==> forall e :: e in Next(list, max, call) ==> e == call.entry || (e in list && e.key != call.entry.key)
  {
    match call
    case Get(key) => GetIs(list, max, key);
    case Put(e) => PutIs(list, max, e);
  }

  lemma GetIs<V(!new)>(list: seq<Entry<V>>, max: nat, key: string)
    requires Sound(list, max)
    ensures Sound(AfterGet(list, key), max)
    ensures forall e :: e in AfterGet(list, key) <==> e in list
  {
    hide Without, Weight, Distinct, Position;
    FoundIs(list, key);
    if Found(list, key).Some? {
      var e := Found(list, key).value;
      WithoutIs(list, key);
      WithoutWeight(list, key);
      FrontWeight(e, Without(list, key));
      FrontDistinct(e, Without(list, key));
      forall f | f in list && f.key == key ensures f == e { Same(list, e, f); }
    }
  }

  lemma Same<V(!new)>(list: seq<Entry<V>>, e: Entry<V>, f: Entry<V>)
    requires Distinct(list) && e in list && f in list && e.key == f.key
    ensures e == f
  {
  }

  lemma PutIs<V(!new)>(list: seq<Entry<V>>, max: nat, e: Entry<V>)
    requires Sound(list, max)
    ensures Sound(AfterPut(list, max, e), max)
    ensures forall f :: f in AfterPut(list, max, e) ==> f == e || (f in list && f.key != e.key)
    ensures e.weight <= max ==> AfterPut(list, max, e) != [] && AfterPut(list, max, e)[0] == e
  {
    hide Without, Weight, Distinct, Position, Fitting;
    WithoutIs(list, e.key);
    var less := Without(list, e.key);
    WithoutWeight(list, e.key);
    if e.weight <= max {
      FrontDistinct(e, less);
      FrontFits(e, less, max);
      PrefixIs([e] + less, max);
    }
  }

  lemma FrontFits<V(!new)>(e: Entry<V>, list: seq<Entry<V>>, max: nat)
    requires e.weight <= max
    ensures Fitting([e] + list, max) != [] && Fitting([e] + list, max)[0] == e
  {
    hide Weight, Fitting;
    var all := [e] + list;
    FittingExactly(all, max);
    assert all[..1] == [e];
    WeightOne(e);
    assert Fits(all, max, 0);
  }

  lemma PrefixIs<V(!new)>(list: seq<Entry<V>>, max: nat)
    requires Distinct(list)
    ensures Sound(Fitting(list, max), max) && forall f :: f in Fitting(list, max) ==> f in list
  {
    hide Weight, Fitting;
    FittingExactly(list, max);
  }

  /** After any calls: keys are distinct, the weight is within budget, and every entry is the last one stored under
      its key, so a hit returns the value stored last. */
  lemma {:induction false} HitsAreCurrent<V(!new)>(max: nat, calls: seq<Call<V>>)
    ensures var list := Run([], max, calls);
      Sound(list, max) && forall e :: e in list ==> LastPut(calls, e.key) == Some(e)
  {
    if calls == [] {
      assert |Run<V>([], max, [])| == 0;
    } else {
      hide Sound, Next;
      var rest, call := calls[..|calls| - 1], calls[|calls| - 1];
      HitsAreCurrent(max, rest);
      NextIs(Run([], max, rest), max, call);
      forall e | e in Run([], max, calls) ensures LastPut(calls, e.key) == Some(e) { }
    }
  }

  /** The weight a call brings in front of other entries: of what it stores, or of what it finds. */
  function Touched<V>(list: seq<Entry<V>>, call: Call<V>): nat {
    match call
    case Put(e) => e.weight
    case Get(key) => if Found(list, key).Some? then Found(list, key).value.weight else 0
  }

  function AllTouched<V>(list: seq<Entry<V>>, max: nat, calls: seq<Call<V>>): nat {
    if calls == [] then 0
    else
      var rest := calls[..|calls| - 1];
      AllTouched(list, max, rest) + Touched(Run(list, max, rest), calls[|calls| - 1])
  }

  function KeyOf<V>(call: Call<V>): string {
    if call.Get? then call.key else call.entry.key
  }

  /** e is in the list, with at most this weight ahead of it. */
  ghost predicate Ahead<V(!new)>(list: seq<Entry<V>>, e: Entry<V>, weight: nat) {
    exists i :: At(list, e, weight, i)
  }

  ghost predicate At<V(!new)>(list: seq<Entry<V>>, e: Entry<V>, weight: nat, i: int) {
    0 <= i < |list| && list[i] == e && Weight(list[..i]) <= weight
  }

  lemma InFront<V(!new)>(list: seq<Entry<V>>, e: Entry<V>, weight: nat, f: Entry<V>)
    requires Ahead(list, e, weight) && f.key != e.key
    ensures Ahead([f] + Without(list, f.key), e, weight + f.weight)
  {
    hide Weight, Position;
    var i :| At(list, e, weight, i);
    var j := StillAhead(list, f.key, i);
    var less := Without(list, f.key);
    FrontWeight(f, less[..j]);
    assert ([f] + less)[..j + 1] == [f] + less[..j];
    assert At([f] + less, e, weight + f.weight, j + 1);
  }

  lemma StillAhead<V(!new)>(list: seq<Entry<V>>, key: string, i: nat) returns (j: nat)
    requires i < |list| && list[i].key != key
    ensures var less := Without(list, key);
      j < |less| && less[j] == list[i] && Weight(less[..j]) <= Weight(list[..i])
  {
    hide Weight, Position;
    var p, less := Position(list, key), Without(list, key);
    if i < p {
      j := i;
      assert less[..j] == list[..i];
    } else {
      j := i - 1;
      SplitWeight(list[..i], p);
      WeightInTwo(list[..p], list[p + 1..i]);
      assert list[..i][..p] == list[..p] && list[..i][p + 1..] == list[p + 1..i];
      assert less[..j] == list[..p] + list[p + 1..i];
    }
  }

  lemma FitsStill<V(!new)>(list: seq<Entry<V>>, max: nat, e: Entry<V>, weight: nat)
    requires Ahead(list, e, weight) && weight + e.weight <= max
    ensures Ahead(Fitting(list, max), e, weight)
  {
    hide Weight, Fitting;
    var i :| At(list, e, weight, i);
    FittingExactly(list, max);
    assert list[..i + 1] == list[..i] + [e];
    WeightInTwo(list[..i], [e]);
    WeightOne(e);
    var kept := Fitting(list, max);
    assert Fits(list, max, i);
    assert kept[..i] == list[..i];
    assert At(kept, e, weight, i);
  }

  lemma NextKeeps<V(!new)>(list: seq<Entry<V>>, max: nat, call: Call<V>, e: Entry<V>, weight: nat)
    requires Sound(list, max) && Ahead(list, e, weight) && KeyOf(call) != e.key
    requires weight + Touched(list, call) + e.weight <= max
    ensures Ahead(Next(list, max, call), e, weight + Touched(list, call))
  {
    hide Weight, Without, Position, Fitting, Ahead;
    match call
    case Get(key) =>
      FoundIs(list, key);
      if Found(list, key).Some? { InFront(list, e, weight, Found(list, key).value); }
    case Put(f) =>
      InFront(list, e, weight, f);
      FitsStill([f] + Without(list, f.key), max, e, weight + f.weight);
  }

  /** A stored value is not evicted before the entries touched since then, with it, outweigh the budget. */
  lemma {:induction false} KeptWhileRecent<V(!new)>(list: seq<Entry<V>>, max: nat, e: Entry<V>, calls: seq<Call<V>>)
    requires Sound(list, max) && e.weight + AllTouched(AfterPut(list, max, e), max, calls) <= max
    requires forall i :: 0 <= i < |calls| ==> KeyOf(calls[i]) != e.key
    ensures var now := Run(AfterPut(list, max, e), max, calls);
      Sound(now, max) && Ahead(now, e, AllTouched(AfterPut(list, max, e), max, calls))
  {
    hide Weight, AfterPut, Sound, Next, At;
    var start := AfterPut(list, max, e);
    PutIs(list, max, e);
    if calls == [] {
      FirstAhead(start, e);
    } else {
      var rest, call := calls[..|calls| - 1], calls[|calls| - 1];
      assert KeyOf(call) != e.key;
      forall i | 0 <= i < |rest| ensures KeyOf(rest[i]) != e.key { assert rest[i] == calls[i]; }
      KeptWhileRecent(list, max, e, rest);
      NextIs(Run(start, max, rest), max, call);
      NextKeeps(Run(start, max, rest), max, call, e, AllTouched(start, max, rest));
    }
  }

  lemma FirstAhead<V(!new)>(list: seq<Entry<V>>, e: Entry<V>)
    requires list != [] && list[0] == e
    ensures Ahead(list, e, 0)
  {
    assert At(list, e, 0, 0);
  }

  // ---- references stamped with a revision ----

  datatype RevStamped = RevStamped(revision: nat, sha: string)

  function RefKey(repo: string, ref: string): string {
    repo + ['\0'] + ref
  }

  lemma {:induction false} RefKeyInjective(repoA: string, refA: string, repoB: string, refB: string)
    requires '\0' !in repoA && '\0' !in repoB && RefKey(repoA, refA) == RefKey(repoB, refB)
    ensures repoA == repoB && refA == refB
  {
    var a, b := RefKey(repoA, refA), RefKey(repoB, refB);
    if repoA == "" || repoB == "" {
      assert a[0] == b[0];
      assert repoA == "" && repoB == "";
      assert a[1..] == refA && b[1..] == refB;
    } else {
      assert a[0] == repoA[0] && b[0] == repoB[0];
      assert a[1..] == RefKey(repoA[1..], refA) && b[1..] == RefKey(repoB[1..], refB);
      RefKeyInjective(repoA[1..], refA, repoB[1..], refB);
      assert repoA == [repoA[0]] + repoA[1..] && repoB == [repoB[0]] + repoB[1..];
    }
  }

  class RefCache {
    const l: Cache<RevStamped>

    constructor (maxEntries: nat)
      ensures fresh(l) && l.Valid() && l.list == [] && l.max == maxEntries
    {
      l := new Cache<RevStamped>(maxEntries);
    }

    method Get(repo: string, ref: string, rev: nat) returns (sha: Option<string>)
      requires l.Valid()
      modifies l
      ensures l.Valid() && l.list == AfterGet(old(l.list), RefKey(repo, ref))
      ensures sha == RefHit(old(l.list), repo, ref, rev)
    {
      var v := l.Get(RefKey(repo, ref));
      if v.None? || v.value.revision != rev { return None; }
      sha := Some(v.value.sha);
    }

    method Put(repo: string, ref: string, rev: nat, sha: string)
      requires l.Valid()
      modifies l
      ensures l.Valid() && l.list == AfterPut(old(l.list), l.max, RefEntry(repo, ref, rev, sha))
    {
      l.Put(RefKey(repo, ref), 1, RevStamped(rev, sha));
    }
  }

  function RefHit(list: seq<Entry<RevStamped>>, repo: string, ref: string, rev: nat): Option<string> {
    var e := Found(list, RefKey(repo, ref));
    if e.None? || e.value.val.revision != rev then None else Some(e.value.val.sha)
  }

  function RefEntry(repo: string, ref: string, rev: nat, sha: string): Entry<RevStamped> {
    Entry(RefKey(repo, ref), 1, RevStamped(rev, sha))
  }

  datatype RefCall = RefGet(repo: string, ref: string) | RefPut(repo: string, ref: string, rev: nat, sha: string)

  function AsCalls(calls: seq<RefCall>): seq<Call<RevStamped>> {
    seq(|calls|, i requires 0 <= i < |calls| =>
      match calls[i]
      case RefGet(repo, ref) => Get(RefKey(repo, ref))
      case RefPut(repo, ref, rev, sha) => Put(RefEntry(repo, ref, rev, sha)))
  }

  /** What was last stored for the reference: its revision and value. */
  function LastRef(calls: seq<RefCall>, repo: string, ref: string): Option<RevStamped> {
    if calls == [] then None
    else
      match calls[|calls| - 1]
      case RefPut(r, f, rev, sha) =>
        if r == repo && f == ref then Some(RevStamped(rev, sha)) else LastRef(calls[..|calls| - 1], repo, ref)
      case RefGet(_, _) => LastRef(calls[..|calls| - 1], repo, ref)
  }

  lemma {:induction false} LastRefIsLastPut(calls: seq<RefCall>, repo: string, ref: string)
    requires '\0' !in repo && forall i :: 0 <= i < |calls| ==> '\0' !in calls[i].repo
    ensures match LastPut(AsCalls(calls), RefKey(repo, ref))
            case None => LastRef(calls, repo, ref) == None
            case Some(e) => LastRef(calls, repo, ref) == Some(e.val)
  {
    if calls != [] {
      var rest, call := calls[..|calls| - 1], calls[|calls| - 1];
      LastRefIsLastPut(rest, repo, ref);
      assert AsCalls(calls)[..|calls| - 1] == AsCalls(rest);
      if call.RefPut? && RefKey(call.repo, call.ref) == RefKey(repo, ref) {
        RefKeyInjective(call.repo, call.ref, repo, ref);
      }
    }
  }

  /** A lookup at a revision hits only if the reference was last stored at that very revision, and then returns the
      value stored, whatever was looked up, stored and evicted in between. */
  lemma HitsOnlyAtRevision(max: nat, calls: seq<RefCall>, repo: string, ref: string, rev: nat, sha: string)
    requires '\0' !in repo && forall i :: 0 <= i < |calls| ==> '\0' !in calls[i].repo
    requires RefHit(Run([], max, AsCalls(calls)), repo, ref, rev) == Some(sha)
    ensures LastRef(calls, repo, ref) == Some(RevStamped(rev, sha))
  {
    HitsAreCurrent(max, AsCalls(calls));
    FoundIs(Run([], max, AsCalls(calls)), RefKey(repo, ref));
    LastRefIsLastPut(calls, repo, ref);
  }
}
