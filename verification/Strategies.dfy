/** The bundle strategy table and its validation: named bases, an acyclic base graph, one filter per chain. */
module Strategies {
  import opened Cron

  datatype Kind = Full | Incremental | UnknownKind

  const BLOB_NONE := "blob:none"
  const DEFAULT_KEEP := 2

  datatype Strategy = Strategy(name: string, kind: Kind, base: string, schedule: Schedule, keep: int,
                               backfillMax: int, chain: bool, filter: string, minCommits: int, refs: seq<string>)
  {
    function EffectiveKeep(): nat {
      if keep > 0 then keep else DEFAULT_KEEP
    }

    predicate ChainLink() {
      kind == Incremental && chain
    }

    predicate Loose() {
      kind == Incremental && !chain
    }
  }

  type Table = map<string, Strategy>

  ghost predicate UniqueNames(strats: seq<Strategy>) {
    forall i, j :: 0 <= i < j < |strats| ==> strats[i].name != strats[j].name
  }

  function ByName(strats: seq<Strategy>): Table {
    if strats == [] then map[] else ByName(strats[..|strats| - 1])[strats[|strats| - 1].name := strats[|strats| - 1]]
  }

  /** Indexing a table of unique names by name loses nothing and adds nothing. */
  lemma {:induction false} ByNameFinds(strats: seq<Strategy>)
    requires UniqueNames(strats)
    ensures forall i :: 0 <= i < |strats| ==> strats[i].name in ByName(strats) && ByName(strats)[strats[i].name] == strats[i]
    ensures forall n :: n in ByName(strats) ==> ByName(strats)[n].name == n && ByName(strats)[n] in strats
  {
    if strats != [] {
      ByNameFinds(strats[..|strats| - 1]);
    }
  }

  // ---- the base graph ----

  /** The base links from n reach a strategy without a base after d steps. */
  ghost predicate HasDepth(tbl: Table, n: string, d: nat)
    decreases d
  {
    n in tbl && if tbl[n].base == "" then d == 0 else d > 0 && HasDepth(tbl, tbl[n].base, d - 1)
  }

  ghost predicate Acyclic(tbl: Table) {
    forall n :: n in tbl ==> exists d: nat :: HasDepth(tbl, n, d)
  }

  /** How many base links lie above a strategy. */
  ghost function Depth(tbl: Table, n: string): (d: nat)
    requires Acyclic(tbl) && n in tbl
    ensures HasDepth(tbl, n, d)
  {
    var d: nat :| HasDepth(tbl, n, d);
    d
  }

  lemma {:induction false} DepthUnique(tbl: Table, n: string, d: nat, e: nat)
    requires HasDepth(tbl, n, d) && HasDepth(tbl, n, e)
    ensures d == e
    decreases d
  {
    if tbl[n].base != "" {
      DepthUnique(tbl, tbl[n].base, d - 1, e - 1);
    }
  }

  /** A base is one link nearer the root. */
  lemma DepthOfBase(tbl: Table, n: string)
    requires Acyclic(tbl) && n in tbl && tbl[n].base != ""
    ensures tbl[n].base in tbl && Depth(tbl, tbl[n].base) == Depth(tbl, n) - 1
  {
    var d := Depth(tbl, n);
    assert HasDepth(tbl, tbl[n].base, d - 1);
    DepthUnique(tbl, tbl[n].base, d - 1, Depth(tbl, tbl[n].base));
  }

  /** a is reached from n by one or more base links. */
  ghost predicate Ancestor(tbl: Table, n: string, a: string)
    requires Acyclic(tbl)
    decreases if n in tbl then Depth(tbl, n) else 0
  {
    n in tbl && tbl[n].base != "" &&
    (DepthOfBase(tbl, n); tbl[n].base == a || Ancestor(tbl, tbl[n].base, a))
  }

  /** A chain shares one filter. */
  ghost predicate OneFilter(tbl: Table) {
    forall n :: n in tbl && tbl[n].base != "" ==> tbl[n].base in tbl && tbl[tbl[n].base].filter == tbl[n].filter
  }

  lemma {:induction false} AncestorBelow(tbl: Table, n: string, a: string)
    requires Acyclic(tbl) && Ancestor(tbl, n, a)
    ensures a in tbl && Depth(tbl, a) < Depth(tbl, n)
    ensures OneFilter(tbl) ==> tbl[a].filter == tbl[n].filter
    decreases Depth(tbl, n)
  {
    DepthOfBase(tbl, n);
    if tbl[n].base != a {
      AncestorBelow(tbl, tbl[n].base, a);
    }
  }

  lemma {:induction false} AncestorTrans(tbl: Table, n: string, a: string, b: string)
    requires Acyclic(tbl) && Ancestor(tbl, n, a) && Ancestor(tbl, a, b)
    ensures Ancestor(tbl, n, b)
    decreases Depth(tbl, n)
  {
    DepthOfBase(tbl, n);
    if tbl[n].base != a {
      AncestorTrans(tbl, tbl[n].base, a, b);
    }
  }

  // ---- validation ----

  ghost predicate FieldsOK(tbl: Table, s: Strategy) {
    && (s.kind == Full || (s.kind == Incremental && s.base != "" && s.base in tbl && s.keep == 0))
    && s.backfillMax >= 0 && s.minCommits >= 0
    && (s.filter == "" || s.filter == BLOB_NONE)
    && "" !in s.refs
  }

  ghost predicate WellFormed(strats: seq<Strategy>) {
    && UniqueNames(strats)
    && (forall s :: s in strats ==> s.name != "" && FieldsOK(ByName(strats), s))
    && Acyclic(ByName(strats))
    && OneFilter(ByName(strats))
  }

  ghost predicate AllNamed(strats: seq<Strategy>) {
    UniqueNames(strats) && forall i :: 0 <= i < |strats| ==> strats[i].name != ""
  }

  ghost predicate AllFieldsOK(strats: seq<Strategy>) {
    forall i :: 0 <= i < |strats| ==> FieldsOK(ByName(strats), strats[i])
  }

  ghost predicate AllWalksOK(strats: seq<Strategy>) {
    forall i :: 0 <= i < |strats| ==> WalkOK(ByName(strats), strats[i].name)
  }

  method IndexByName(strats: seq<Strategy>) returns (byName: Table, ok: bool)
    ensures ok <==> AllNamed(strats)
    ensures ok ==> byName == ByName(strats)
  {
    byName := map[];
    for i := 0 to |strats|
      invariant byName == ByName(strats[..i]) && AllNamed(strats[..i])
    {
      NameTaken(strats, i);
      if strats[i].name == "" || strats[i].name in byName {
        return byName, false;
      }
      byName := byName[strats[i].name := strats[i]];
    }
    assert strats[..|strats|] == strats;
    ok := true;
  }

  lemma NameTaken(strats: seq<Strategy>, i: nat)
    requires i < |strats| && AllNamed(strats[..i])
    ensures strats[i].name == "" || strats[i].name in ByName(strats[..i]) ==> !AllNamed(strats)
    ensures strats[i].name != "" && strats[i].name !in ByName(strats[..i]) ==>
              && AllNamed(strats[..i + 1])
              && ByName(strats[..i + 1]) == ByName(strats[..i])[strats[i].name := strats[i]]
  {
    var before, upto := strats[..i], strats[..i + 1];
    ByNameFinds(before);
    assert upto[..i] == before && upto[i] == strats[i];
    if strats[i].name in ByName(before) {
      var j :| 0 <= j < i && before[j] == ByName(before)[strats[i].name];
      assert strats[j].name == strats[i].name;
    }
  }

  method CheckFields(strats: seq<Strategy>, byName: Table) returns (ok: bool)
    requires byName == ByName(strats)
    ensures ok <==> AllFieldsOK(strats)
  {
    for i := 0 to |strats|
      invariant forall j :: 0 <= j < i ==> FieldsOK(byName, strats[j])
    {
      var s := strats[i];
      if s.kind == Incremental {
        if s.base == "" || s.base !in byName || s.keep != 0 { return false; }
      } else if s.kind != Full {
        return false;
      }
      if s.backfillMax < 0 || s.minCommits < 0 { return false; }
      if s.filter != "" && s.filter != BLOB_NONE { return false; }
      if "" in s.refs { return false; }
    }
    ok := true;
  }

  /** Walking from every strategy finds exactly the cycles and mixed filters of the base graph. */
  lemma WalksDecide(strats: seq<Strategy>)
    requires AllNamed(strats) && AllFieldsOK(strats)
    ensures AllWalksOK(strats) <==> WellFormed(strats)
  {
    var tbl := ByName(strats);
    hide FieldsOK, ByName;
    ByNameFinds(strats);
    if AllWalksOK(strats) {
      forall n | n in tbl
        ensures exists d: nat :: HasDepth(tbl, n, d)
        ensures tbl[n].base != "" ==> tbl[n].base in tbl && tbl[tbl[n].base].filter == tbl[n].filter
      {
        var i :| 0 <= i < |strats| && strats[i] == tbl[n];
        WalkShows(tbl, n);
      }
    }
    if WellFormed(strats) {
      forall i | 0 <= i < |strats| ensures WalkOK(tbl, strats[i].name) {
        var n := strats[i].name;
        OrderlyWalk(tbl, n, Depth(tbl, n));
      }
    }
  }

  lemma WalkShows(tbl: Table, n: string)
    requires WalkOK(tbl, n)
    ensures exists d: nat :: HasDepth(tbl, n, d)
    ensures n in tbl && (tbl[n].base != "" ==> tbl[n].base in tbl && tbl[tbl[n].base].filter == tbl[n].filter)
  {
    var d: nat :| HasDepth(tbl, n, d) && ChainFilter(tbl, n, d, tbl[n].filter);
    if d > 0 { assert HasDepth(tbl, tbl[n].base, d - 1); }
  }

  /** The strategies d base links up from n carry filter f. */
  ghost predicate ChainFilter(tbl: Table, n: string, d: nat, f: string)
    requires HasDepth(tbl, n, d)
    decreases d
  {
    d > 0 ==>
      (assert HasDepth(tbl, tbl[n].base, d - 1);
       tbl[tbl[n].base].filter == f && ChainFilter(tbl, tbl[n].base, d - 1, f))
  }

  /** The base links from n end, and every strategy on the way shares n's filter. */
  ghost predicate WalkOK(tbl: Table, n: string) {
    exists d: nat :: HasDepth(tbl, n, d) && ChainFilter(tbl, n, d, tbl[n].filter)
  }

  /** The base links from n lead after d steps to a strategy whose base is not in the table. */
  ghost predicate DanglesAt(tbl: Table, n: string, d: nat)
    decreases d
  {
    n in tbl && tbl[n].base != "" && if d == 0 then tbl[n].base !in tbl else DanglesAt(tbl, tbl[n].base, d - 1)
  }

  ghost predicate DangleFilter(tbl: Table, n: string, d: nat, f: string)
    requires DanglesAt(tbl, n, d)
    decreases d
  {
    d > 0 ==>
      (assert DanglesAt(tbl, tbl[n].base, d - 1);
       tbl[tbl[n].base].filter == f && DangleFilter(tbl, tbl[n].base, d - 1, f))
  }

  /** The walk from n comes to a base that is not there, every strategy on the way sharing n's filter. */
  ghost predicate WalkDangles(tbl: Table, n: string) {
    exists d: nat :: DanglesAt(tbl, n, d) && DangleFilter(tbl, n, d, tbl[n].filter)
  }

  lemma {:induction false} OrderlyWalk(tbl: Table, n: string, d: nat)
    requires OneFilter(tbl) && HasDepth(tbl, n, d)
    ensures ChainFilter(tbl, n, d, tbl[n].filter)
    decreases d
  {
    if d > 0 {
      OrderlyWalk(tbl, tbl[n].base, d - 1);
    }
  }

  /** The first strategies met on the walk from n. */
  ghost predicate Path(tbl: Table, n: string, path: seq<string>) {
    && path != [] && path[0] == n
    && (forall k :: 0 <= k < |path| ==> path[k] in tbl)
    && (forall k :: 0 <= k < |path| - 1 ==> path[k + 1] == tbl[path[k]].base != "")
  }

  lemma {:induction false} DepthOnPath(tbl: Table, n: string, path: seq<string>, d: nat, k: nat)
    requires Path(tbl, n, path) && HasDepth(tbl, n, d) && k < |path|
    ensures k <= d && HasDepth(tbl, path[k], d - k)
    ensures forall f :: ChainFilter(tbl, n, d, f) ==> ChainFilter(tbl, path[k], d - k, f) && (k > 0 ==> tbl[path[k]].filter == f)
  {
    if k > 0 {
      DepthOnPath(tbl, n, path, d, k - 1);
    }
  }

  lemma {:induction false} PathToRoot(tbl: Table, n: string, path: seq<string>, k: nat)
    requires Path(tbl, n, path) && tbl[path[|path| - 1]].base == "" && k < |path|
    requires forall i :: 0 <= i < |path| ==> tbl[path[i]].filter == tbl[n].filter
    ensures HasDepth(tbl, path[k], |path| - 1 - k) && ChainFilter(tbl, path[k], |path| - 1 - k, tbl[n].filter)
    decreases |path| - k
  {
    if k < |path| - 1 {
      PathToRoot(tbl, n, path, k + 1);
    }
  }

  lemma {:induction false} DangleOnPath(tbl: Table, n: string, path: seq<string>, d: nat, k: nat)
    requires Path(tbl, n, path) && DanglesAt(tbl, n, d) && k < |path|
    ensures k <= d && DanglesAt(tbl, path[k], d - k)
    ensures forall f :: DangleFilter(tbl, n, d, f) ==> DangleFilter(tbl, path[k], d - k, f) && (k > 0 ==> tbl[path[k]].filter == f)
  {
    if k > 0 {
      DangleOnPath(tbl, n, path, d, k - 1);
      assert path[(k - 1) + 1] == tbl[path[k - 1]].base;
      assert DanglesAt(tbl, path[k - 1], d - (k - 1));
    }
  }

  lemma {:induction false} PathDangles(tbl: Table, n: string, path: seq<string>, k: nat)
    requires Path(tbl, n, path) && k < |path|
    requires tbl[path[|path| - 1]].base != "" && tbl[path[|path| - 1]].base !in tbl
    requires forall i :: 0 <= i < |path| ==> tbl[path[i]].filter == tbl[n].filter
    ensures DanglesAt(tbl, path[k], |path| - 1 - k) && DangleFilter(tbl, path[k], |path| - 1 - k, tbl[n].filter)
    decreases |path| - k
  {
    if k < |path| - 1 {
      PathDangles(tbl, n, path, k + 1);
    }
  }

  lemma {:induction false} DangleUnique(tbl: Table, n: string, d: nat, e: nat)
    requires DanglesAt(tbl, n, d) && DanglesAt(tbl, n, e)
    ensures d == e
    decreases d
  {
    if d > 0 && e > 0 { DangleUnique(tbl, tbl[n].base, d - 1, e - 1); }
  }

  /** A walk that ends does not come to a base that is not there. */
  lemma {:induction false} EndsOrDangles(tbl: Table, n: string, d: nat, e: nat)
    requires HasDepth(tbl, n, d)
    ensures !DanglesAt(tbl, n, e)
    decreases d
  {
    if d > 0 && e > 0 { EndsOrDangles(tbl, tbl[n].base, d - 1, e - 1); }
  }

  lemma OneOutcome(tbl: Table, n: string)
    ensures !(WalkOK(tbl, n) && WalkDangles(tbl, n))
  {
    if WalkOK(tbl, n) && WalkDangles(tbl, n) {
      var d: nat :| HasDepth(tbl, n, d);
      var e: nat :| DanglesAt(tbl, n, e);
      EndsOrDangles(tbl, n, d, e);
    }
  }

  lemma RefusedOnCycle(tbl: Table, n: string, path: seq<string>)
    requires Path(tbl, n, path)
    requires exists k :: 0 <= k < |path| - 1 && path[k] == path[|path| - 1]
    ensures !WalkOK(tbl, n) && !WalkDangles(tbl, n)
  {
    forall d: nat ensures !HasDepth(tbl, n, d) { NoDepthOnCycle(tbl, n, path, d); }
    forall d: nat ensures !DanglesAt(tbl, n, d) { NoDangleOnCycle(tbl, n, path, d); }
  }

  lemma NoDangleOnCycle(tbl: Table, n: string, path: seq<string>, d: nat)
    requires Path(tbl, n, path)
    requires exists k :: 0 <= k < |path| - 1 && path[k] == path[|path| - 1]
    ensures !DanglesAt(tbl, n, d)
  {
    if DanglesAt(tbl, n, d) {
      var k :| 0 <= k < |path| - 1 && path[k] == path[|path| - 1];
      DangleOnPath(tbl, n, path, d, k);
      DangleOnPath(tbl, n, path, d, |path| - 1);
      DangleUnique(tbl, path[k], d - k, d - (|path| - 1));
    }
  }

  lemma RefusedOnFilter(tbl: Table, n: string, path: seq<string>)
    requires Path(tbl, n, path) && |path| > 1 && tbl[path[|path| - 1]].filter != tbl[n].filter
    ensures !WalkOK(tbl, n) && !WalkDangles(tbl, n)
  {
    forall d: nat | HasDepth(tbl, n, d) ensures !ChainFilter(tbl, n, d, tbl[n].filter) {
      DepthOnPath(tbl, n, path, d, |path| - 1);
    }
    forall d: nat | DanglesAt(tbl, n, d) ensures !DangleFilter(tbl, n, d, tbl[n].filter) {
      DangleOnPath(tbl, n, path, d, |path| - 1);
    }
  }

  lemma NoDepthOnCycle(tbl: Table, n: string, path: seq<string>, d: nat)
    requires Path(tbl, n, path)
    requires exists k :: 0 <= k < |path| - 1 && path[k] == path[|path| - 1]
    ensures !HasDepth(tbl, n, d)
  {
    if HasDepth(tbl, n, d) {
      var k :| 0 <= k < |path| - 1 && path[k] == path[|path| - 1];
      DepthOnPath(tbl, n, path, d, k);
      DepthOnPath(tbl, n, path, d, |path| - 1);
      DepthUnique(tbl, path[k], d - k, d - (|path| - 1));
    }
  }

  /** How one strategy's walk goes: to its end; refused, on a repeated name or a filter that differs from the start's;
      or to a base that is not in the table, whose filter the program then reads through a nil pointer. */
  datatype Walk = Ended | Refused | Dangled

  method WalkBases(tbl: Table, n: string) returns (w: Walk)
    requires n in tbl
    ensures w.Ended? <==> WalkOK(tbl, n)
    ensures w.Dangled? <==> WalkDangles(tbl, n)
  {
    hide WalkOK, WalkDangles, HasDepth;
    var seen := {n};
    var cur := n;
    ghost var path := [n];
    OneOutcome(tbl, n);
    while tbl[cur].base != ""
      invariant Path(tbl, n, path) && path[|path| - 1] == cur && seen <= tbl.Keys
      invariant forall m :: m in seen <==> m in path
      invariant forall i :: 0 <= i < |path| ==> tbl[path[i]].filter == tbl[n].filter
      decreases tbl.Keys - seen
    {
      var base := tbl[cur].base;
      ghost var longer := path + [base];
      if base in seen {
        ghost var k :| 0 <= k < |path| && path[k] == base;
        assert longer[k] == longer[|longer| - 1];
        RefusedOnCycle(tbl, n, longer);
        return Refused;
      }
      if base !in tbl {
        Dangling(tbl, n, path);
        return Dangled;
      }
      assert Path(tbl, n, longer);
      seen := seen + {base};
      cur := base;
      if tbl[n].filter != tbl[cur].filter {
        RefusedOnFilter(tbl, n, longer);
        return Refused;
      }
      path := longer;
    }
    Ending(tbl, n, path);
    w := Ended;
  }

  lemma Ending(tbl: Table, n: string, path: seq<string>)
    requires Path(tbl, n, path) && tbl[path[|path| - 1]].base == ""
    requires forall i :: 0 <= i < |path| ==> tbl[path[i]].filter == tbl[n].filter
    ensures WalkOK(tbl, n)
  {
    PathToRoot(tbl, n, path, 0);
  }

  lemma Dangling(tbl: Table, n: string, path: seq<string>)
    requires Path(tbl, n, path) && tbl[path[|path| - 1]].base != "" && tbl[path[|path| - 1]].base !in tbl
    requires forall i :: 0 <= i < |path| ==> tbl[path[i]].filter == tbl[n].filter
    ensures WalkDangles(tbl, n)
  {
    PathDangles(tbl, n, path, 0);
  }

  /** The first walk that does not end comes to a base that is not there. */
  ghost predicate FirstDangles(strats: seq<Strategy>, i: nat) {
    i < |strats| && WalkDangles(ByName(strats), strats[i].name)
    && forall j :: 0 <= j < i ==> WalkOK(ByName(strats), strats[j].name)
  }

  ghost predicate WalksPanic(strats: seq<Strategy>) {
    exists i: nat :: FirstDangles(strats, i)
  }

  method CheckWalks(strats: seq<Strategy>, byName: Table) returns (w: Walk)
    requires byName == ByName(strats) && AllNamed(strats)
    ensures w.Ended? <==> AllWalksOK(strats)
    ensures w.Dangled? <==> WalksPanic(strats)
  {
    hide ByName, WalkOK, WalkDangles;
    ByNameFinds(strats);
    for i := 0 to |strats|
      invariant forall j :: 0 <= j < i ==> WalkOK(byName, strats[j].name)
    {
      w := WalkBases(byName, strats[i].name);
      if !w.Ended? {
        StopsAt(strats, i);
        if w.Dangled? { assert FirstDangles(strats, i); }
        return;
      }
    }
    AllEnd(strats);
    w := Ended;
  }

  lemma StopsAt(strats: seq<Strategy>, i: nat)
    requires i < |strats| && !WalkOK(ByName(strats), strats[i].name)
    requires forall j :: 0 <= j < i ==> WalkOK(ByName(strats), strats[j].name)
    ensures WalksPanic(strats) <==> WalkDangles(ByName(strats), strats[i].name)
  {
    hide ByName, WalkOK, WalkDangles;
    if WalkDangles(ByName(strats), strats[i].name) { assert FirstDangles(strats, i); }
    if WalksPanic(strats) {
      var k: nat :| FirstDangles(strats, k);
      OneOutcome(ByName(strats), strats[k].name);
      assert k == i;
    }
  }

  lemma AllEnd(strats: seq<Strategy>)
    requires AllWalksOK(strats)
    ensures !WalksPanic(strats)
  {
    hide ByName, WalkOK, WalkDangles;
    if WalksPanic(strats) {
      var k: nat :| FirstDangles(strats, k);
      OneOutcome(ByName(strats), strats[k].name);
    }
  }

  datatype Verdict = Accepted | Rejected | Panicked

  /** Accepts exactly the well-formed tables; of the others it panics on exactly those whose names and fields are in
      order and whose first walk that does not end comes to a base that is not there, and rejects the rest. */
  method ValidateStrategies(strats: seq<Strategy>) returns (v: Verdict)
    ensures v.Accepted? <==> WellFormed(strats)
    ensures v.Panicked? <==> AllNamed(strats) && AllFieldsOK(strats) && WalksPanic(strats)
  {
    hide WalksPanic, AllNamed, AllFieldsOK, WellFormed, AllWalksOK;
    NotNamed(strats);
    var byName, named := IndexByName(strats);
    if !named { return Rejected; }
    var fields := CheckFields(strats, byName);
    if !fields { return Rejected; }
    WalksDecide(strats);
    var w := CheckWalks(strats, byName);
    v := match w case Ended => Accepted case Refused => Rejected case Dangled => Panicked;
  }

  lemma NotNamed(strats: seq<Strategy>)
    ensures WellFormed(strats) ==> AllNamed(strats) && AllFieldsOK(strats)
  {
  }

  /** Validation checks the bases of incrementals only, so what it panics on is a full that names a base not there. */
  lemma PanicNeedsUnknownFullBase(strats: seq<Strategy>)
    requires AllNamed(strats) && AllFieldsOK(strats) && WalksPanic(strats)
    ensures exists s :: s in strats && s.kind == Full && s.base != "" && forall t :: t in strats ==> t.name != s.base
  {
    hide FieldsOK;
    var tbl := ByName(strats);
    ByNameFinds(strats);
    var i: nat :| FirstDangles(strats, i);
    var d: nat :| DanglesAt(tbl, strats[i].name, d);
    var n := DangleEnd(tbl, strats[i].name, d);
    var s := tbl[n];
    var k :| 0 <= k < |strats| && strats[k] == s;
    BaseOfIncremental(tbl, s);
  }

  /** A caller's view of the base graph: following base links goes round in no cycle, so from each strategy it ends, at one
      without a base or with one that is not there. */
  ghost predicate NoCycles(tbl: Table) {
    forall n :: n in tbl ==> exists d: nat :: HasDepth(tbl, n, d) || DanglesAt(tbl, n, d)
  }

  /** Strategies agree in filter with their bases, as far as those are there. */
  ghost predicate BasesShareFilter(tbl: Table) {
    forall n :: n in tbl && tbl[n].base in tbl ==> tbl[tbl[n].base].filter == tbl[n].filter
  }

  lemma {:induction false} SharedUp(tbl: Table, n: string, d: nat)
    requires BasesShareFilter(tbl) && n in tbl
    ensures HasDepth(tbl, n, d) ==> ChainFilter(tbl, n, d, tbl[n].filter)
    ensures DanglesAt(tbl, n, d) ==> DangleFilter(tbl, n, d, tbl[n].filter)
    decreases d
  {
    if d > 0 && tbl[n].base in tbl { SharedUp(tbl, tbl[n].base, d - 1); }
  }

  /** Without cycles and mixed filters every walk either ends or dangles. */
  lemma EndsOrPanics(tbl: Table, n: string)
    requires NoCycles(tbl) && BasesShareFilter(tbl) && n in tbl
    ensures WalkOK(tbl, n) || WalkDangles(tbl, n)
  {
    var d: nat :| HasDepth(tbl, n, d) || DanglesAt(tbl, n, d);
    SharedUp(tbl, n, d);
  }

  /** Without cycles and mixed filters, validation of a table with names and fields in order panics if and only if some
      strategy names a base that is not in the table. */
  lemma PanicsExactly(strats: seq<Strategy>)
    requires AllNamed(strats) && NoCycles(ByName(strats)) && BasesShareFilter(ByName(strats))
    ensures WalksPanic(strats) <==> exists s :: s in strats && s.base != "" && s.base !in ByName(strats)
  {
    hide WalkOK, WalkDangles, NoCycles, BasesShareFilter, ByName;
    var tbl := ByName(strats);
    ByNameFinds(strats);
    if WalksPanic(strats) {
      UnknownBase(strats);
    }
    if exists s :: s in strats && s.base != "" && s.base !in tbl {
      var s :| s in strats && s.base != "" && s.base !in tbl;
      var k :| 0 <= k < |strats| && strats[k] == s;
      DanglesHere(tbl, s.name);
      forall i | 0 <= i < |strats| ensures WalkOK(tbl, strats[i].name) || WalkDangles(tbl, strats[i].name) {
        EndsOrPanics(tbl, strats[i].name);
      }
      LeastDangling(strats, k);
    }
  }

  lemma UnknownBase(strats: seq<Strategy>)
    requires AllNamed(strats) && WalksPanic(strats)
    ensures exists s :: s in strats && s.base != "" && s.base !in ByName(strats)
  {
    var tbl := ByName(strats);
    ByNameFinds(strats);
    var i: nat :| FirstDangles(strats, i);
    var d: nat :| DanglesAt(tbl, strats[i].name, d);
    var n := DangleEnd(tbl, strats[i].name, d);
  }

  lemma DanglesHere(tbl: Table, n: string)
    requires n in tbl && tbl[n].base != "" && tbl[n].base !in tbl
    ensures WalkDangles(tbl, n)
  {
    assert DanglesAt(tbl, n, 0) && DangleFilter(tbl, n, 0, tbl[n].filter);
  }

  lemma {:induction false} LeastDangling(strats: seq<Strategy>, k: nat)
    requires k < |strats| && WalkDangles(ByName(strats), strats[k].name)
    requires forall i :: 0 <= i < |strats| ==> WalkOK(ByName(strats), strats[i].name) || WalkDangles(ByName(strats), strats[i].name)
    ensures WalksPanic(strats)
    decreases k
  {
    hide WalkOK, WalkDangles, ByName;
    if j: nat :| j < k && WalkDangles(ByName(strats), strats[j].name) {
      LeastDangling(strats, j);
    } else {
      assert FirstDangles(strats, k);
    }
  }

  function UnknownBaseTable(schedule: Schedule): seq<Strategy> {
    [Strategy("weekly", Full, "gone", schedule, 2, 0, false, "", 0, [])]
  }

  /** The smallest table it panics on: one full strategy whose base is not there. */
  lemma ATablePanics(schedule: Schedule)
    ensures var strats := UnknownBaseTable(schedule); AllNamed(strats) && AllFieldsOK(strats) && WalksPanic(strats)
  {
    var strats := UnknownBaseTable(schedule);
    ByNameFinds(strats);
    var tbl := ByName(strats);
    assert strats[0].name in tbl && tbl["weekly"] == strats[0];
    assert "gone" !in tbl;
    DanglesHere(tbl, "weekly");
    assert FirstDangles(strats, 0);
  }

  lemma BaseOfIncremental(tbl: Table, s: Strategy)
    requires FieldsOK(tbl, s) && s.base !in tbl
    ensures s.kind == Full
  {
  }

  lemma {:induction false} DangleEnd(tbl: Table, n: string, d: nat) returns (end: string)
    requires DanglesAt(tbl, n, d)
    ensures end in tbl && tbl[end].base != "" && tbl[end].base !in tbl
    decreases d
  {
    if d == 0 { end := n; } else { end := DangleEnd(tbl, tbl[n].base, d - 1); }
  }

  /** The strategy at the top of s's chain. */
  method ChainRoot(tbl: Table, s: Strategy) returns (root: Strategy)
    requires Acyclic(tbl) && s.name in tbl && tbl[s.name] == s && OneFilter(tbl)
    requires forall n :: n in tbl ==> tbl[n].name == n
    ensures root.name in tbl && tbl[root.name] == root && root.base == "" && root.filter == s.filter
    ensures root == s || Ancestor(tbl, s.name, root.name)
  {
    root := s;
    while root.base != ""
      invariant root.name in tbl && tbl[root.name] == root && root.filter == s.filter
      invariant root == s || Ancestor(tbl, s.name, root.name)
      decreases Depth(tbl, root.name)
    {
      if root.base !in tbl { return; }
      DepthOfBase(tbl, root.name);
      if root != s { AncestorTrans(tbl, s.name, root.name, root.base); }
      root := tbl[root.base];
    }
  }

  /** What the rest of the planner relies on in a validated table. */
  ghost predicate Sound(tbl: Table) {
    && "" !in tbl && Acyclic(tbl) && OneFilter(tbl)
    && forall n :: n in tbl ==>
         tbl[n].name == n && (tbl[n].kind == Full || (tbl[n].kind == Incremental && tbl[n].base != ""))
  }

  lemma ValidatedIsSound(strats: seq<Strategy>)
    requires WellFormed(strats)
    ensures Sound(ByName(strats))
  {
    ByNameFinds(strats);
    forall n | n in ByName(strats)
      ensures n != "" && (ByName(strats)[n].kind == Full || (ByName(strats)[n].kind == Incremental && ByName(strats)[n].base != ""))
    {
      assert ByName(strats)[n] in strats;
      assert FieldsOK(ByName(strats), ByName(strats)[n]);
    }
  }

  // ---- accepted tables, without walks ----

  /** The fields of one strategy: a kind, no negative limits, a known filter, no empty reference pattern; of an incremental, no
      number of entries to keep. */
  ghost predicate FieldsInOrder(s: Strategy) {
    && (s.kind == Full || (s.kind == Incremental && s.keep == 0 && s.base != ""))
    && !(s.backfillMax < 0) && !(s.minCommits < 0)
    && (s.filter == "" || s.filter == "blob:none")
    && forall g :: g in s.refs ==> |g| > 0
  }

  /** The base of a strategy is listed, has its filter, and ranks below it. */
  ghost predicate BaseBelow(strats: seq<Strategy>, rank: map<string, nat>, s: Strategy) {
    exists b :: b in strats && b.name == s.base && b.filter == s.filter
                && b.name in rank && s.name in rank && rank[b.name] < rank[s.name]
  }

  ghost predicate Ranked(strats: seq<Strategy>, rank: map<string, nat>) {
    forall s :: s in strats && s.base != "" ==> BaseBelow(strats, rank, s)
  }

  /** A table is well formed if and only if names are distinct and not empty, fields are in order, and strategies can be ranked
      so that every base is one of the table, with the same filter and a lower rank. */
  lemma WellFormedExactly(strats: seq<Strategy>)
    ensures WellFormed(strats) <==>
              && (forall i, j :: 0 <= i < j < |strats| ==> strats[i].name != strats[j].name)
              && (forall s :: s in strats ==> s.name != "" && FieldsInOrder(s))
              && exists rank :: Ranked(strats, rank)
  {
    hide Ranked, FieldsInOrder, WellFormed;
    if WellFormed(strats) { DepthsRank(strats); }
    if UniqueNames(strats) && (forall s :: s in strats ==> s.name != "" && FieldsInOrder(s)) && exists rank :: Ranked(strats, rank) {
      var rank :| Ranked(strats, rank);
      RankedIsWellFormed(strats, rank);
    }
  }

  lemma DepthsRank(strats: seq<Strategy>)
    requires WellFormed(strats)
    ensures UniqueNames(strats) && forall s :: s in strats ==> s.name != "" && FieldsInOrder(s)
    ensures exists rank :: Ranked(strats, rank)
  {
    hide HasDepth, ByName;
    var tbl := ByName(strats);
    ByNameFinds(strats);
    var rank: map<string, nat> := map n | n in tbl :: Depth(tbl, n) as nat;
    forall s | s in strats ensures FieldsInOrder(s) && (s.base != "" ==> BaseBelow(strats, rank, s)) {
      var i :| 0 <= i < |strats| && strats[i] == s;
      assert FieldsOK(tbl, s);
      if s.base != "" {
        DepthOfBase(tbl, s.name);
        assert tbl[s.base] in strats && tbl[s.base].name == s.base;
      }
    }
    assert Ranked(strats, rank);
  }

  lemma RankedIsWellFormed(strats: seq<Strategy>, rank: map<string, nat>)
    requires UniqueNames(strats) && Ranked(strats, rank)
    requires forall s :: s in strats ==> s.name != "" && FieldsInOrder(s)
    ensures WellFormed(strats)
  {
    hide HasDepth, ByName, BaseBelow;
    var tbl := ByName(strats);
    ByNameFinds(strats);
    forall n | n in tbl ensures exists d: nat :: HasDepth(tbl, n, d) { RankedEnds(strats, rank, n); }
    forall s | s in strats ensures FieldsOK(tbl, s) && (s.base != "" ==> s.base in tbl && tbl[s.base].filter == s.filter) {
      if s.base != "" { BaseIsThere(strats, rank, s); }
    }
  }

  lemma BaseIsThere(strats: seq<Strategy>, rank: map<string, nat>, s: Strategy)
    requires UniqueNames(strats) && BaseBelow(strats, rank, s)
    ensures s.base in ByName(strats) && ByName(strats)[s.base].filter == s.filter
    ensures s.name in rank && s.base in rank && rank[s.base] < rank[s.name]
  {
    hide ByName;
    ByNameFinds(strats);
    var b :| b in strats && b.name == s.base && b.filter == s.filter
             && b.name in rank && s.name in rank && rank[b.name] < rank[s.name];
    var i :| 0 <= i < |strats| && strats[i] == b;
  }

  lemma {:induction false} RankedEnds(strats: seq<Strategy>, rank: map<string, nat>, n: string)
    requires UniqueNames(strats) && n in ByName(strats)
    requires Ranked(strats, rank)
    ensures exists d: nat :: HasDepth(ByName(strats), n, d)
    decreases if n in rank then rank[n] else 0
  {
    hide ByName;
    var tbl := ByName(strats);
    ByNameFinds(strats);
    if tbl[n].base == "" {
      assert HasDepth(tbl, n, 0);
    } else {
      BaseIsThere(strats, rank, tbl[n]);
      RankedEnds(strats, rank, tbl[n].base);
      var d: nat :| HasDepth(tbl, tbl[n].base, d);
      assert HasDepth(tbl, n, d + 1);
    }
  }
}
