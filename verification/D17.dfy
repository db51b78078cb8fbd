/** The fallback tracker: who fetched the bundle list lately, and who has had a full clone without it. */
module D17 {
  const LIST_FETCH_TTL := 3600
  const FALLBACK_GAP := 6 * 3600
  const ENTRY_TTL := FALLBACK_GAP
  const CAP := 100_000

  /** The zero instant, which means "never"; every real instant is later. */
  const NEVER := 0

  datatype Key = Key(repo: string, principal: string)

  datatype Entry = Entry(listFetch: int, fallback: int)

  datatype Tracker = Tracker(entries: map<Key, Entry>, order: seq<Key>)

  function Latest(e: Entry): int {
    if e.fallback > e.listFetch then e.fallback else e.listFetch
  }

  // ---- what each call does ----

  /** Drops the oldest keys until there is room for one more. */
  function Evicted(t: Tracker): Tracker
    decreases |t.order|
  {
    if |t.order| > 0 && |t.entries| >= CAP then Evicted(Tracker(t.entries - {t.order[0]}, t.order[1..])) else t
  }

  function Recorded(t: Tracker, k: Key, now: int): Tracker {
    if k in t.entries then t.(entries := t.entries[k := t.entries[k].(listFetch := now)])
    else
      var room := Evicted(t);
      Tracker(room.entries[k := Entry(now, NEVER)], room.order + [k])
  }

  predicate Allows(t: Tracker, k: Key, now: int) {
    && k in t.entries
    && now - t.entries[k].listFetch <= LIST_FETCH_TTL
    && (t.entries[k].fallback == NEVER || now - t.entries[k].fallback >= FALLBACK_GAP)
  }

  function Decided(t: Tracker, k: Key, now: int): Tracker {
    if Allows(t, k, now) then t.(entries := t.entries[k := t.entries[k].(fallback := now)]) else t
  }

  predicate Stale(e: Entry, now: int) {
    now - Latest(e) > ENTRY_TTL
  }

  function Listed(order: seq<Key>, keys: set<Key>): seq<Key> {
    if order == [] then []
    else Listed(order[..|order| - 1], keys) + (if order[|order| - 1] in keys then [order[|order| - 1]] else [])
  }

  function Swept(t: Tracker, now: int): Tracker {
    var live := map k | k in t.entries && !Stale(t.entries[k], now) :: t.entries[k];
    Tracker(live, Listed(t.order, live.Keys))
  }

  // ---- the tracker object ----

  class D17Tracker {
    var entries: map<Key, Entry>
    var order: seq<Key>

    ghost function State(): Tracker
      reads this
    {
      Tracker(entries, order)
    }

    constructor ()
      ensures State() == Tracker(map[], [])
    {
      entries := map[];
      order := [];
    }

    method RecordListFetch(repo: string, principal: string, now: int)
      modifies this
      ensures State() == Recorded(old(State()), Key(repo, principal), now)
    {
      var k := Key(repo, principal);
      if k !in entries {
        EvictIfNeeded();
        entries := entries[k := Entry(NEVER, NEVER)];
        order := order + [k];
      }
      entries := entries[k := entries[k].(listFetch := now)];
    }

    method EvictIfNeeded()
      modifies this
      ensures State() == Evicted(old(State()))
    {
      if |entries| < CAP { return; }
      while |order| > 0 && |entries| >= CAP
        invariant Evicted(State()) == Evicted(old(State()))
        decreases |order|
      {
        var oldest := order[0];
        order := order[1..];
        entries := entries - {oldest};
      }
    }

    /** Allows the fallback, and remembers it, when the list was fetched within the hour and no fallback within six. */
    method Decide(repo: string, principal: string, now: int) returns (allow: bool)
      modifies this
      ensures allow == Allows(old(State()), Key(repo, principal), now)
      ensures State() == Decided(old(State()), Key(repo, principal), now)
    {
      var k := Key(repo, principal);
      if k !in entries || now - entries[k].listFetch > LIST_FETCH_TTL {
        return false;
      }
      if entries[k].fallback != NEVER && now - entries[k].fallback < FALLBACK_GAP {
        return false;
      }
      entries := entries[k := entries[k].(fallback := now)];
      allow := true;
    }

    method Sweep(now: int)
      modifies this
      ensures State() == Swept(old(State()), now)
    {
      ghost var before := entries;
      entries := map k | k in entries && !Stale(entries[k], now) :: entries[k];
      var kept := [];
      for i := 0 to |order|
        invariant kept == Listed(order[..i], entries.Keys)
        invariant entries == (map k | k in before && !Stale(before[k], now) :: before[k]) && order == old(order)
      {
        assert order[..i + 1][..i] == order[..i];
        if order[i] in entries { kept := kept + [order[i]]; }
      }
      assert order[..|order|] == order;
      order := kept;
    }
  }

  // ---- runs ----

  datatype Call = Record(key: Key, now: int) | Decide(key: Key, now: int) | Sweep(now: int)

  function Next(t: Tracker, call: Call): Tracker {
    match call
    case Record(k, now) => Recorded(t, k, now)
    case Decide(k, now) => Decided(t, k, now)
    case Sweep(now) => Swept(t, now)
  }

  function Run(t: Tracker, calls: seq<Call>): Tracker {
    if calls == [] then t else Next(Run(t, calls[..|calls| - 1]), calls[|calls| - 1])
  }

  const EMPTY := Tracker(map[], [])

  ghost predicate TimeFlows(calls: seq<Call>) {
    && (forall i :: 0 <= i < |calls| ==> NEVER < calls[i].now)
    && (forall i, j :: 0 <= i < j < |calls| ==> calls[i].now <= calls[j].now)
  }

  // ---- order enumerates entries ----

  ghost predicate Enumerates(t: Tracker) {
    && (forall i, j :: 0 <= i < j < |t.order| ==> t.order[i] != t.order[j])
    && (forall k :: k in t.order <==> k in t.entries)
    && |t.entries| <= CAP
  }

  lemma {:induction false} ListedMeans(order: seq<Key>, keys: set<Key>)
    ensures forall k :: k in Listed(order, keys) <==> k in order && k in keys
    ensures (forall i, j :: 0 <= i < j < |order| ==> order[i] != order[j]) ==>
              forall i, j :: 0 <= i < j < |Listed(order, keys)| ==> Listed(order, keys)[i] != Listed(order, keys)[j]
  {
    if order != [] {
      ListedMeans(order[..|order| - 1], keys);
      assert order == order[..|order| - 1] + [order[|order| - 1]];
    }
  }

  lemma NothingListed(t: Tracker)
    requires Enumerates(t) && t.order == []
    ensures |t.entries| == 0
  {
    assert t.entries.Keys == {};
  }

  lemma TailListed(order: seq<Key>, k: Key)
    requires order != [] && forall i, j :: 0 <= i < j < |order| ==> order[i] != order[j]
    ensures k in order[1..] <==> k in order && k != order[0]
  {
    assert order == [order[0]] + order[1..];
    if k in order[1..] {
      var i :| 0 <= i < |order| - 1 && order[1..][i] == k;
      assert order[i + 1] == k;
    }
  }

  lemma DropOldest(t: Tracker)
    requires Enumerates(t) && t.order != []
    ensures Enumerates(Tracker(t.entries - {t.order[0]}, t.order[1..]))
  {
    var u := Tracker(t.entries - {t.order[0]}, t.order[1..]);
    assert u.entries.Keys == t.entries.Keys - {t.order[0]};
    KeysSize(u.entries.Keys, t.entries.Keys);
    forall k ensures k in u.order <==> k in u.entries { TailListed(t.order, k); }
  }

  lemma {:induction false} EvictedEnumerates(t: Tracker)
    requires Enumerates(t)
    ensures Enumerates(Evicted(t)) && |Evicted(t).entries| < CAP
    ensures forall k :: k in Evicted(t).entries ==> k in t.entries && Evicted(t).entries[k] == t.entries[k]
    decreases |t.order|
  {
    hide Enumerates;
    if t.order == [] {
      NothingListed(t);
    } else if |t.entries| >= CAP {
      DropOldest(t);
      EvictedEnumerates(Tracker(t.entries - {t.order[0]}, t.order[1..]));
    }
  }

  lemma SameKeysEnumerate(t: Tracker, u: Tracker)
    requires Enumerates(t) && u.order == t.order && u.entries.Keys == t.entries.Keys
    ensures Enumerates(u)
  {
    assert |u.entries| == |u.entries.Keys| == |t.entries|;
    forall k ensures k in u.entries <==> k in t.entries { assert k in u.entries.Keys <==> k in t.entries.Keys; }
  }

  lemma RecordedEnumerates(t: Tracker, k: Key, now: int)
    requires Enumerates(t)
    ensures Enumerates(Recorded(t, k, now))
  {
    if k in t.entries {
      SameKeysEnumerate(t, Recorded(t, k, now));
    } else {
      EvictedEnumerates(t);
      AppendEnumerates(Evicted(t), k, Entry(now, NEVER));
    }
  }

  lemma AppendEnumerates(t: Tracker, k: Key, e: Entry)
    requires Enumerates(t) && k !in t.entries && |t.entries| < CAP
    ensures Enumerates(Tracker(t.entries[k := e], t.order + [k]))
  {
    assert t.entries[k := e].Keys == t.entries.Keys + {k};
  }

  lemma SweptEnumerates(t: Tracker, now: int)
    requires Enumerates(t)
    ensures Enumerates(Swept(t, now))
  {
    var u := Swept(t, now);
    ListedMeans(t.order, u.entries.Keys);
    assert u.entries.Keys <= t.entries.Keys;
    KeysSize(u.entries.Keys, t.entries.Keys);
  }

  lemma NextEnumerates(t: Tracker, call: Call)
    requires Enumerates(t)
    ensures Enumerates(Next(t, call))
  {
    hide Enumerates, Recorded, Swept;
    match call
    case Record(k, now) => RecordedEnumerates(t, k, now);
    case Decide(k, now) =>
      assert Decided(t, k, now).entries.Keys == t.entries.Keys;
      SameKeysEnumerate(t, Decided(t, k, now));
    case Sweep(now) => SweptEnumerates(t, now);
  }

  lemma {:induction false} KeysSize(a: set<Key>, b: set<Key>)
    requires a <= b
    ensures |a| <= |b|
  {
    if a != {} {
      var k :| k in a;
      KeysSize(a - {k}, b - {k});
    }
  }

  /** After any calls the insertion order lists every tracked key once, and there are never more than the cap. */
  lemma {:induction false} OrderEnumerates(calls: seq<Call>)
    ensures Enumerates(Run(EMPTY, calls))
  {
    if calls != [] {
      OrderEnumerates(calls[..|calls| - 1]);
      NextEnumerates(Run(EMPTY, calls[..|calls| - 1]), calls[|calls| - 1]);
    }
  }

  // ---- one fallback in six hours ----

  /** The last time k was granted a fallback, or NEVER. */
  function LastGrant(calls: seq<Call>, k: Key): int {
    if calls == [] then NEVER
    else
      var call := calls[|calls| - 1];
      if call.Decide? && call.key == k && Allows(Run(EMPTY, calls[..|calls| - 1]), k, call.now) then call.now
      else LastGrant(calls[..|calls| - 1], k)
  }

  /** Making room for another key never pushed k out. */
  ghost predicate NotEvicted(calls: seq<Call>, k: Key) {
    forall i :: 0 <= i < |calls| && calls[i].Record? && calls[i].key !in Run(EMPTY, calls[..i]).entries ==>
      var t := Run(EMPTY, calls[..i]); k in t.entries ==> k in Evicted(t).entries
  }

  /** The tracker remembers k's last grant, or it is long enough ago not to matter. */
  ghost predicate Remembers(t: Tracker, k: Key, grant: int, now: int) {
    && (grant != NEVER && (k !in t.entries || t.entries[k].fallback != grant) ==> now - grant > FALLBACK_GAP)
    && (k in t.entries ==> t.entries[k].fallback == grant || t.entries[k].fallback == NEVER)
    && (k in t.entries ==> t.entries[k].listFetch <= now && t.entries[k].fallback <= now)
  }

  lemma NextRemembers(t: Tracker, call: Call, k: Key, grant: int, before: int)
    requires Enumerates(t) && Remembers(t, k, grant, before) && before <= call.now && NEVER < call.now
    requires call.Record? && call.key !in t.entries && k in t.entries ==> k in Evicted(t).entries
    ensures Remembers(Next(t, call), k, if call == Decide(k, call.now) && Allows(t, k, call.now) then call.now else grant, call.now)
  {
    if call.Record? { EvictedEnumerates(t); }
  }

  lemma {:induction false} RunRemembers(calls: seq<Call>, k: Key)
    requires TimeFlows(calls) && NotEvicted(calls, k)
    ensures Remembers(Run(EMPTY, calls), k, LastGrant(calls, k), if calls == [] then NEVER else calls[|calls| - 1].now)
  {
    if calls != [] {
      var rest, call := calls[..|calls| - 1], calls[|calls| - 1];
      assert TimeFlows(rest);
      forall i | 0 <= i < |rest| && rest[i].Record? && rest[i].key !in Run(EMPTY, rest[..i]).entries
        ensures var t := Run(EMPTY, rest[..i]); k in t.entries ==> k in Evicted(t).entries
      {
        assert rest[..i] == calls[..i] && rest[i] == calls[i];
      }
      RunRemembers(rest, k);
      OrderEnumerates(rest);
      NextRemembers(Run(EMPTY, rest), call, k, LastGrant(rest, k), if rest == [] then NEVER else rest[|rest| - 1].now);
    }
  }

  /** As long as the cap never pushes the key out, two grants to one (repo, principal) are at least six hours apart,
      whatever is recorded, decided and swept in between. */
  lemma GrantsSixHoursApart(calls: seq<Call>, k: Key, now: int)
    requires TimeFlows(calls + [Decide(k, now)]) && NotEvicted(calls, k)
    requires Allows(Run(EMPTY, calls), k, now) && LastGrant(calls, k) != NEVER
    ensures now - LastGrant(calls, k) >= 6 * 3600
  {
    var all := calls + [Decide(k, now)];
    assert forall i :: 0 <= i < |calls| ==> calls[i] == all[i];
    if calls != [] { assert all[|calls| - 1].now <= all[|calls|].now; }
    RunRemembers(calls, k);
  }

  // ---- sweeping is unobservable ----

  function WithoutSweeps(calls: seq<Call>): seq<Call> {
    if calls == [] then []
    else WithoutSweeps(calls[..|calls| - 1]) + (if calls[|calls| - 1].Sweep? then [] else [calls[|calls| - 1]])
  }

  /** From `now` on no call can tell the two apart at key k: both have it with the same list fetch and fallbacks that
      differ only by one too old to count, or only the unswept one has it, and too old to count. */
  ghost predicate Alike(a: Tracker, b: Tracker, k: Key, now: int) {
    if k in a.entries then
      && k in b.entries
      && a.entries[k].listFetch == b.entries[k].listFetch <= now
      && (a.entries[k].fallback == b.entries[k].fallback || (a.entries[k].fallback == NEVER && now - b.entries[k].fallback > FALLBACK_GAP))
    else k in b.entries ==> Stale(b.entries[k], now)
  }

  ghost predicate AllAlike(a: Tracker, b: Tracker, now: int) {
    forall k :: Alike(a, b, k, now)
  }

  /** The step never had to make room. */
  ghost predicate HadRoom(t: Tracker, call: Call) {
    call.Record? && call.key !in t.entries ==> |t.entries| < CAP
  }

  lemma NextAlike(a: Tracker, b: Tracker, call: Call, before: int)
    requires AllAlike(a, b, before) && before <= call.now && NEVER < call.now && HadRoom(a, call) && HadRoom(b, call)
    ensures AllAlike(Next(a, call), if call.Sweep? then b else Next(b, call), call.now)
    ensures call.Decide? ==> (Allows(a, call.key, call.now) <==> Allows(b, call.key, call.now))
  {
    var a', b' := Next(a, call), if call.Sweep? then b else Next(b, call);
    forall k ensures Alike(a', b', k, call.now) {
      assert Alike(a, b, k, before);
    }
    if call.Decide? { assert Alike(a, b, call.key, before); }
  }

  /** Neither the tracker that sweeps nor the one that never does ever had to make room. */
  ghost predicate AlwaysRoom(calls: seq<Call>) {
    forall i :: 0 <= i < |calls| ==>
      HadRoom(Run(EMPTY, calls[..i]), calls[i]) && HadRoom(Run(EMPTY, WithoutSweeps(calls[..i])), calls[i])
  }

  lemma RoomBefore(calls: seq<Call>)
    requires AlwaysRoom(calls) && calls != []
    ensures AlwaysRoom(calls[..|calls| - 1])
    ensures var rest := calls[..|calls| - 1];
      HadRoom(Run(EMPTY, rest), calls[|calls| - 1]) && HadRoom(Run(EMPTY, WithoutSweeps(rest)), calls[|calls| - 1])
  {
    hide Run, WithoutSweeps, HadRoom;
    var rest := calls[..|calls| - 1];
    forall i | 0 <= i < |rest|
      ensures HadRoom(Run(EMPTY, rest[..i]), rest[i]) && HadRoom(Run(EMPTY, WithoutSweeps(rest[..i])), rest[i])
    {
      assert rest[..i] == calls[..i] && rest[i] == calls[i];
    }
  }

  function Until(calls: seq<Call>): int {
    if calls == [] then NEVER else calls[|calls| - 1].now
  }

  lemma UnsweptStep(calls: seq<Call>)
    requires calls != []
    ensures var rest, call := calls[..|calls| - 1], calls[|calls| - 1];
      Run(EMPTY, WithoutSweeps(calls)) ==
      if call.Sweep? then Run(EMPTY, WithoutSweeps(rest)) else Next(Run(EMPTY, WithoutSweeps(rest)), call)
  {
    hide Next;
    var rest, call := calls[..|calls| - 1], calls[|calls| - 1];
    RunAppend(WithoutSweeps(rest), call);
    if call.Sweep? { assert WithoutSweeps(calls) == WithoutSweeps(rest) + [] == WithoutSweeps(rest); }
  }

  lemma RunAppend(calls: seq<Call>, call: Call)
    ensures Run(EMPTY, calls + [call]) == Next(Run(EMPTY, calls), call)
  {
    hide Next;
    assert (calls + [call])[..|calls|] == calls;
  }

  lemma {:induction false} RunAlike(calls: seq<Call>)
    requires TimeFlows(calls) && AlwaysRoom(calls)
    ensures AllAlike(Run(EMPTY, calls), Run(EMPTY, WithoutSweeps(calls)), Until(calls))
  {
    if calls != [] {
      hide AlwaysRoom, HadRoom, AllAlike;
      var rest, call := calls[..|calls| - 1], calls[|calls| - 1];
      RoomBefore(calls);
      RunAlike(rest);
      NextAlike(Run(EMPTY, rest), Run(EMPTY, WithoutSweeps(rest)), call, Until(rest));
      UnsweptStep(calls);
      assert Run(EMPTY, calls) == Next(Run(EMPTY, rest), call);
    } else {
      NothingAlike();
      assert calls == [];
    }
  }

  lemma NothingAlike()
    ensures AllAlike(Run(EMPTY, []), Run(EMPTY, WithoutSweeps([])), NEVER)
  {
  }

  /** Below the cap, sweeping changes no decision: the tracker that sweeps answers as one that never did. */
  lemma SweepUnobservable(calls: seq<Call>, k: Key, now: int)
    requires TimeFlows(calls + [Decide(k, now)]) && AlwaysRoom(calls)
    ensures Allows(Run(EMPTY, calls), k, now) <==> Allows(Run(EMPTY, WithoutSweeps(calls)), k, now)
  {
    var all := calls + [Decide(k, now)];
    assert forall i :: 0 <= i < |calls| ==> calls[i] == all[i];
    if calls != [] { assert all[|calls| - 1].now <= all[|calls|].now; }
    RunAlike(calls);
    assert Alike(Run(EMPTY, calls), Run(EMPTY, WithoutSweeps(calls)), k, Until(calls));
  }

  // ---- decisions, from the calls alone ----

  /** The last time k fetched the list, or NEVER. */
  function LastFetch(calls: seq<Call>, k: Key): int {
    if calls == [] then NEVER
    else
      var call := calls[|calls| - 1];
      if call.Record? && call.key == k then call.now else LastFetch(calls[..|calls| - 1], k)
  }

  /** The tracker knows k's last fetch, or it is so long ago that a sweep dropped it. */
  ghost predicate Knows(t: Tracker, k: Key, fetch: int, now: int) {
    if k in t.entries then t.entries[k].listFetch == fetch && fetch > 0 else fetch != NEVER ==> now - fetch > 6 * 3600
  }

  lemma NextKnows(t: Tracker, call: Call, k: Key, fetch: int, before: int)
    requires Enumerates(t) && Knows(t, k, fetch, before) && before <= call.now && NEVER < call.now
    requires call.Record? && call.key !in t.entries && k in t.entries ==> k in Evicted(t).entries
    ensures Knows(Next(t, call), k, if call == Record(k, call.now) then call.now else fetch, call.now)
  {
    if call.Record? { EvictedEnumerates(t); }
  }

  lemma NotEvictedBefore(calls: seq<Call>, k: Key)
    requires calls != [] && NotEvicted(calls, k)
    ensures NotEvicted(calls[..|calls| - 1], k)
    ensures var t, call := Run(EMPTY, calls[..|calls| - 1]), calls[|calls| - 1];
      call.Record? && call.key !in t.entries && k in t.entries ==> k in Evicted(t).entries
  {
    hide Run, Evicted;
    var rest := calls[..|calls| - 1];
    forall i | 0 <= i < |rest| && rest[i].Record? && rest[i].key !in Run(EMPTY, rest[..i]).entries
      ensures var t := Run(EMPTY, rest[..i]); k in t.entries ==> k in Evicted(t).entries
    {
      assert rest[..i] == calls[..i] && rest[i] == calls[i];
    }
  }

  lemma {:induction false} RunKnows(calls: seq<Call>, k: Key)
    requires TimeFlows(calls) && NotEvicted(calls, k)
    ensures Knows(Run(EMPTY, calls), k, LastFetch(calls, k), Until(calls))
  {
    if calls != [] {
      hide Next, NotEvicted, Knows, Enumerates;
      var rest, call := calls[..|calls| - 1], calls[|calls| - 1];
      NotEvictedBefore(calls, k);
      RunKnows(rest, k);
      OrderEnumerates(rest);
      NextKnows(Run(EMPTY, rest), call, k, LastFetch(rest, k), Until(rest));
    }
  }

  /** As long as the cap never pushes the key out, a fallback is granted if and only if the key fetched the list within the last
      hour and was granted none within the last six, whatever was swept, recorded and decided since. */
  lemma GrantedExactly(calls: seq<Call>, k: Key, now: int)
    requires TimeFlows(calls + [Decide(k, now)]) && NotEvicted(calls, k)
    ensures Allows(Run(EMPTY, calls), k, now) <==>
              && LastFetch(calls, k) != NEVER && now - LastFetch(calls, k) <= 3600
              && (LastGrant(calls, k) == NEVER || now - LastGrant(calls, k) >= 6 * 3600)
  {
    hide Run, NotEvicted, Enumerates, LastGrant, LastFetch;
    var all := calls + [Decide(k, now)];
    assert forall i :: 0 <= i < |calls| ==> calls[i] == all[i];
    if calls != [] { assert all[|calls| - 1].now <= all[|calls|].now; }
    RunRemembers(calls, k);
    RunKnows(calls, k);
    assert all[|calls|] == Decide(k, now);
    assert NEVER < all[|calls|].now;
    DecidedFrom(Run(EMPTY, calls), k, LastGrant(calls, k), LastFetch(calls, k), Until(calls), now);
  }

  lemma DecidedFrom(t: Tracker, k: Key, grant: int, fetch: int, before: int, now: int)
    requires Remembers(t, k, grant, before) && Knows(t, k, fetch, before) && before <= now
    ensures Allows(t, k, now) <==> fetch != NEVER && now - fetch <= 3600 && (grant == NEVER || now - grant >= 6 * 3600)
  {
  }

  /** How many keys must go before there is room for one more. */
  function Surplus(t: Tracker): nat {
    if |t.order| > 99_999 then |t.order| - 99_999 else 0
  }

  /** The tracker without its n oldest keys. */
  function Younger(t: Tracker, n: nat): Tracker
    requires n <= |t.order|
  {
    Tracker(map k | k in t.entries && k in t.order[n..] :: t.entries[k], t.order[n..])
  }

  /** Making room drops the oldest keys, as many as it takes to leave 99,999, and touches no other. */
  lemma {:induction false} EvictedExactly(t: Tracker)
    requires Enumerates(t)
    ensures Evicted(t) == Younger(t, Surplus(t))
    decreases |t.order|
  {
    hide Enumerates, Younger, Evicted;
    OrderCounts(t);
    EvictedStep(t);
    if |t.entries| >= CAP {
      var u := Tracker(t.entries - {t.order[0]}, t.order[1..]);
      DropOldest(t);
      OrderCounts(u);
      EvictedExactly(u);
      YoungerStill(t, Surplus(t));
    } else {
      AllListed(t);
    }
  }

  lemma EvictedStep(t: Tracker)
    ensures Evicted(t) == if |t.order| > 0 && |t.entries| >= CAP then Evicted(Tracker(t.entries - {t.order[0]}, t.order[1..])) else t
  {
  }

  lemma YoungerStill(t: Tracker, n: nat)
    requires Enumerates(t) && 1 <= n <= |t.order|
    ensures Younger(Tracker(t.entries - {t.order[0]}, t.order[1..]), n - 1) == Younger(t, n)
  {
    hide Enumerates;
    var u := Tracker(t.entries - {t.order[0]}, t.order[1..]);
    assert u.order[n - 1..] == t.order[n..];
    forall k | k in t.order[n..] ensures k in t.entries && k != t.order[0] { LaterListed(t, n, k); }
    assert Younger(u, n - 1).entries == Younger(t, n).entries;
  }

  lemma AllListed(t: Tracker)
    requires Enumerates(t)
    ensures t == Younger(t, 0)
  {
    assert t.order[0..] == t.order;
  }

  lemma LaterListed(t: Tracker, n: nat, k: Key)
    requires Enumerates(t) && 1 <= n <= |t.order| && k in t.order[n..]
    ensures k in t.entries && k != t.order[0]
  {
    var i :| 0 <= i < |t.order| - n && t.order[n..][i] == k;
    assert t.order[n + i] == k;
  }

  lemma OrderCounts(t: Tracker)
    requires Enumerates(t)
    ensures |t.order| == |t.entries|
  {
    SetCounts(t.order);
    assert t.entries.Keys == set k | k in t.order;
  }

  lemma {:induction false} SetCounts(order: seq<Key>)
    requires forall i, j :: 0 <= i < j < |order| ==> order[i] != order[j]
    ensures |set k | k in order| == |order|
  {
    if order != [] {
      var n := |order| - 1;
      SetCounts(order[..n]);
      assert order == order[..n] + [order[n]];
      assert (set k | k in order) == (set k | k in order[..n]) + {order[n]};
    }
  }
}
