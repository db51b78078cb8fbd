/** The index of checks: a projection of the status records, newest commit first, kept small by compaction. */
module ChecksIndex {
  import opened Wrappers
  import opened StringOrder
  import opened Sorting
  import opened Checks
  import C = CasMachine

  const SIZE_LIMIT := 262_144
  const HOT_WINDOW := 500

  datatype Context = Context(name: string, state: CheckState, updatedAt: string)

  datatype Row = Row(sha: string, state: CheckState, contexts: seq<Context>, updatedAt: string)

  datatype Status = Status(sha: string, context: string, state: CheckState, updatedAt: string)

  // ---- one row ----

  function ContextAt(cs: seq<Context>, name: string): (p: nat)
    ensures p <= |cs|
    ensures p < |cs| ==> cs[p].name == name
    ensures forall i :: 0 <= i < p ==> cs[i].name != name
  {
    if cs == [] || cs[0].name == name then 0 else 1 + ContextAt(cs[1..], name)
  }

  /** The contexts with this one in place of the one of its name, or after them all. */
  function Replaced(cs: seq<Context>, c: Context): seq<Context> {
    var p := ContextAt(cs, c.name);
    if p < |cs| then cs[p := c] else cs + [c]
  }

  function NameOf(c: Context): string {
    c.name
  }

  function StatesOf(cs: seq<Context>): seq<CheckState> {
    seq(|cs|, i requires 0 <= i < |cs| => cs[i].state)
  }

  ghost predicate DistinctNames(cs: seq<Context>) {
    forall i, j :: 0 <= i < j < |cs| ==> cs[i].name != cs[j].name
  }

  ghost predicate InNameOrder(cs: seq<Context>) {
    forall i, j :: 0 <= i < j < |cs| ==> Less(cs[i].name, cs[j].name)
  }

  lemma SortedByName(cs: seq<Context>)
    requires DistinctNames(cs)
    ensures InNameOrder(SortedBy(NameOf, cs))
    ensures forall c :: c in SortedBy(NameOf, cs) <==> c in cs
  {
    var sorted := SortedBy(NameOf, cs);
    SortedIs(NameOf, cs);
    SortedDistinct(NameOf, cs);
    forall i, j | 0 <= i < j < |sorted| ensures Less(sorted[i].name, sorted[j].name) {
      assert NameOf(sorted[i]) != NameOf(sorted[j]) && AtMost(NameOf(sorted[i]), NameOf(sorted[j]));
      LessTotal(sorted[i].name, sorted[j].name);
    }
  }

  lemma ReplacedIs(cs: seq<Context>, c: Context)
    requires DistinctNames(cs)
    ensures DistinctNames(Replaced(cs, c))
    ensures forall d :: d in Replaced(cs, c) <==> d == c || (d in cs && d.name != c.name)
  {
    hide ContextAt;
    var p, after := ContextAt(cs, c.name), Replaced(cs, c);
    assert after[p] == c;
    forall d | d in cs && d.name != c.name ensures d in after {
      var i :| 0 <= i < |cs| && cs[i] == d;
      assert after[i] == d;
    }
  }

  /** The contexts of a row after a report. */
  function WithContext(cs: seq<Context>, c: Context): seq<Context> {
    SortedBy(NameOf, Replaced(cs, c))
  }

  lemma WithContextIs(cs: seq<Context>, c: Context)
    requires InNameOrder(cs)
    ensures InNameOrder(WithContext(cs, c))
    ensures forall d :: d in WithContext(cs, c) <==> d == c || (d in cs && d.name != c.name)
  {
    hide Replaced, SortedBy;
    OrderDistinct(cs);
    ReplacedIs(cs, c);
    SortedByName(Replaced(cs, c));
  }

  lemma OrderDistinct(cs: seq<Context>)
    requires InNameOrder(cs)
    ensures DistinctNames(cs)
  {
    forall i, j | 0 <= i < j < |cs| ensures cs[i].name != cs[j].name { LessIrreflexive(cs[i].name); }
  }

  // ---- the index ----

  function RowAt(rows: seq<Row>, sha: string): (p: nat)
    ensures p <= |rows|
    ensures p < |rows| ==> rows[p].sha == sha
    ensures forall i :: 0 <= i < p ==> rows[i].sha != sha
  {
    if rows == [] || rows[0].sha == sha then 0 else 1 + RowAt(rows[1..], sha)
  }

  function RowAfter(rows: seq<Row>, st: Status): Row {
    var p, c := RowAt(rows, st.sha), Context(st.context, st.state, st.updatedAt);
    if p == |rows| then Row(st.sha, st.state, [c], st.updatedAt)
    else
      var cs := WithContext(rows[p].contexts, c);
      Row(rows[p].sha, Combined(StatesOf(cs)), cs, st.updatedAt)
  }

  /** The index after a report: its commit's row, with the context's state in it, comes first. */
  function Upserted(rows: seq<Row>, st: Status): seq<Row> {
    var p := RowAt(rows, st.sha);
    [RowAfter(rows, st)] + (if p == |rows| then rows else rows[..p] + rows[p + 1..])
  }

  function Shrunk(rows: seq<Row>, size: seq<Row> -> nat): seq<Row>
    decreases |rows|
  {
    if size(rows) > SIZE_LIMIT && |rows| > 0 then Shrunk(rows[..|rows| - 1], size) else rows
  }

  /** The index after compaction. */
  function Trimmed(rows: seq<Row>, size: seq<Row> -> nat): seq<Row> {
    Shrunk(if |rows| > HOT_WINDOW then rows[..HOT_WINDOW] else rows, size)
  }

  class IndexDoc {
    var shas: seq<Row>
    var version: nat

    constructor ()
      ensures shas == [] && version == 0
    {
      shas, version := [], 0;
    }

    method Upsert(st: Status)
      modifies this
      ensures shas == Upserted(old(shas), st) && version == old(version)
    {
      hide Combined, SortedBy, Less;
      var row := Context(st.context, st.state, st.updatedAt);
      var at := |shas|;
      for i := 0 to |shas|
        invariant at == |shas| && forall j :: 0 <= j < i ==> shas[j].sha != st.sha
      {
        if shas[i].sha == st.sha { at := i; break; }
      }
      FirstRow(shas, st.sha, at);
      if at == |shas| {
        shas := [Row(st.sha, st.state, [row], st.updatedAt)] + shas;
      } else {
        var entry := shas[at];
        var found, contexts := false, entry.contexts;
        var k := |contexts|;
        for i := 0 to |contexts|
          invariant !found && contexts == entry.contexts && k == |contexts|
          invariant forall j :: 0 <= j < i ==> contexts[j].name != row.name
        {
          if contexts[i].name == row.name { found, k := true, i; break; }
        }
        FirstContext(contexts, row.name, k);
        contexts := if found then contexts[k := row] else contexts + [row];
        contexts := SortedBy(NameOf, contexts);
        var state := CombinedState(StatesOf(contexts));
        var touched := Row(entry.sha, state, contexts, st.updatedAt);
        shas := [touched] + (shas[..at] + shas[at + 1..]);
      }
    }

    /** Cuts the index to the hot window and then, row by row from the oldest, to the size limit. */
    method Compact(size: seq<Row> -> nat) returns (trimmed: bool)
      modifies this
      ensures shas == Trimmed(old(shas), size) && trimmed == (shas != old(shas))
      ensures version == old(version) + if trimmed then 1 else 0
    {
      var before := shas;
      if size(shas) <= SIZE_LIMIT && |shas| <= HOT_WINDOW { return false; }
      trimmed := false;
      if |shas| > HOT_WINDOW {
        shas := shas[..HOT_WINDOW];
        trimmed := true;
      }
      while size(shas) > SIZE_LIMIT && |shas| > 0
        invariant Shrunk(shas, size) == Trimmed(before, size)
        invariant |shas| <= |before| && (trimmed <==> |shas| < |before|) && version == old(version)
        invariant |shas| == |before| ==> shas == before
        decreases |shas|
      {
        shas := shas[..|shas| - 1];
        trimmed := true;
      }
      if !trimmed { return; }
      version := version + 1;
    }
  }

  lemma FirstRow(rows: seq<Row>, sha: string, at: nat)
    requires at <= |rows| && (at < |rows| ==> rows[at].sha == sha) && forall j :: 0 <= j < at ==> rows[j].sha != sha
    ensures RowAt(rows, sha) == at
  {
    var p := RowAt(rows, sha);
  }

  lemma FirstContext(cs: seq<Context>, name: string, at: nat)
    requires at <= |cs| && (at < |cs| ==> cs[at].name == name) && forall j :: 0 <= j < at ==> cs[j].name != name
    ensures ContextAt(cs, name) == at
  {
    var p := ContextAt(cs, name);
  }

  /** Compaction keeps the longest run of newest rows that is within the window and the size limit. */
  lemma {:induction false} ShrunkIs(rows: seq<Row>, size: seq<Row> -> nat)
    ensures var kept := Shrunk(rows, size);
      && |kept| <= |rows| && kept == rows[..|kept|] && (kept == [] || size(kept) <= SIZE_LIMIT)
      && forall n :: |kept| < n <= |rows| ==> Oversized(rows, size, n)
    decreases |rows|
  {
    if size(rows) > SIZE_LIMIT && |rows| > 0 {
      var rest := rows[..|rows| - 1];
      ShrunkIs(rest, size);
      var kept := Shrunk(rows, size);
      forall n | |kept| < n <= |rows| ensures Oversized(rows, size, n) {
        if n == |rows| { assert rows[..n] == rows; } else { assert Oversized(rest, size, n) && rest[..n] == rows[..n]; }
      }
    } else {
      assert rows[..|rows|] == rows;
    }
  }

  predicate Oversized(rows: seq<Row>, size: seq<Row> -> nat, n: nat)
    requires n <= |rows|
  {
    size(rows[..n]) > 262_144
  }

  lemma TrimmedIs(rows: seq<Row>, size: seq<Row> -> nat)
    ensures var kept := Trimmed(rows, size);
      && |kept| <= |rows| && |kept| <= 500 && kept == rows[..|kept|] && (kept == [] || size(kept) <= 262_144)
      && forall n :: |kept| < n <= |rows| && n <= 500 ==> Oversized(rows, size, n)
  {
    hide Shrunk;
    var hot := if |rows| > HOT_WINDOW then rows[..HOT_WINDOW] else rows;
    ShrunkIs(hot, size);
    forall n | |Trimmed(rows, size)| < n <= |rows| && n <= HOT_WINDOW ensures Oversized(rows, size, n) {
      assert Oversized(hot, size, n) && hot[..n] == rows[..n];
    }
  }

  // ---- runs ----

  datatype Op = Update(st: Status) | Compaction

  function Next(rows: seq<Row>, size: seq<Row> -> nat, op: Op): seq<Row> {
    match op
    case Update(st) => Upserted(rows, st)
    case Compaction => Trimmed(rows, size)
  }

  function Run(size: seq<Row> -> nat, ops: seq<Op>): seq<Row> {
    if ops == [] then [] else Next(Run(size, ops[..|ops| - 1]), size, ops[|ops| - 1])
  }

  ghost predicate RowOK(r: Row) {
    r.contexts != [] && InNameOrder(r.contexts) && r.state == Combined(StatesOf(r.contexts))
  }

  ghost predicate Shaped(rows: seq<Row>) {
    && (forall i :: 0 <= i < |rows| ==> RowOK(rows[i]))
    && (forall i, j :: 0 <= i < j < |rows| ==> rows[i].sha != rows[j].sha)
  }

  lemma RowAfterOK(rows: seq<Row>, st: Status)
    requires Shaped(rows)
    ensures RowOK(RowAfter(rows, st)) && RowAfter(rows, st).sha == st.sha
    ensures Context(st.context, st.state, st.updatedAt) in RowAfter(rows, st).contexts
  {
    hide WithContext, RowAt, Combined;
    var p, c := RowAt(rows, st.sha), Context(st.context, st.state, st.updatedAt);
    if p < |rows| {
      assert RowOK(rows[p]);
      WithContextIs(rows[p].contexts, c);
    } else {
      OneState(c);
    }
  }

  lemma OneState(c: Context)
    ensures Combined(StatesOf([c])) == c.state
  {
    CombinedIsWorst(StatesOf([c]));
    assert StatesOf([c]) == [c.state];
  }

  lemma UpsertedShaped(rows: seq<Row>, st: Status)
    requires Shaped(rows)
    ensures Shaped(Upserted(rows, st))
  {
    hide RowOK, RowAfter, RowAt;
    var p, after := RowAt(rows, st.sha), Upserted(rows, st);
    RowAfterOK(rows, st);
    forall i | 1 <= i < |after| ensures after[i] == rows[if i <= p then i - 1 else i] && RowOK(after[i]) && after[i].sha != st.sha { }
    forall i, j | 0 <= i < j < |after| ensures after[i].sha != after[j].sha { }
  }

  lemma TrimmedShaped(rows: seq<Row>, size: seq<Row> -> nat)
    requires Shaped(rows)
    ensures Shaped(Trimmed(rows, size))
  {
    hide RowOK, Trimmed;
    TrimmedIs(rows, size);
  }

  /** After any reports and compactions, commits are listed once, each with its contexts sorted, named once and at
      least one, and its state is the worst of theirs. */
  lemma {:induction false} AlwaysShaped(size: seq<Row> -> nat, ops: seq<Op>)
    ensures Shaped(Run(size, ops))
  {
    if ops != [] {
      hide Shaped;
      var rest, op := ops[..|ops| - 1], ops[|ops| - 1];
      AlwaysShaped(size, rest);
      match op
      case Update(st) => UpsertedShaped(Run(size, rest), st);
      case Compaction => TrimmedShaped(Run(size, rest), size);
    } else {
      assert Run(size, ops) == [];
    }
  }

  // ---- newest report first ----

  function Dropping(shas: seq<string>, sha: string): seq<string> {
    if shas == [] then []
    else Dropping(shas[..|shas| - 1], sha) + (if shas[|shas| - 1] == sha then [] else [shas[|shas| - 1]])
  }

  /** The commits by their newest report, newest first. */
  function Recency(ops: seq<Op>): seq<string> {
    if ops == [] then []
    else
      var before := Recency(ops[..|ops| - 1]);
      match ops[|ops| - 1]
      case Update(st) => [st.sha] + Dropping(before, st.sha)
      case Compaction => before
  }

  function ShasOf(rows: seq<Row>): seq<string> {
    seq(|rows|, i requires 0 <= i < |rows| => rows[i].sha)
  }

  lemma {:induction false} DroppingSplits(a: seq<string>, b: seq<string>, sha: string)
    ensures Dropping(a + b, sha) == Dropping(a, sha) + Dropping(b, sha)
  {
    if b == [] {
      assert a + b == a;
    } else {
      var n := |b| - 1;
      DroppingSplits(a, b[..n], sha);
      assert (a + b)[..|a| + n] == a + b[..n] && (a + b)[|a| + n] == b[n];
    }
  }

  lemma {:induction false} DroppingAbsent(a: seq<string>, sha: string)
    requires sha !in a
    ensures Dropping(a, sha) == a
  {
    if a != [] { DroppingAbsent(a[..|a| - 1], sha); }
  }

  lemma DroppingOne(sha: string)
    ensures Dropping([sha], sha) == []
  {
    assert [sha][..0] == [];
  }

  lemma DroppingAt(shas: seq<string>, p: nat)
    requires p < |shas| && forall i :: 0 <= i < |shas| && i != p ==> shas[i] != shas[p]
    ensures Dropping(shas, shas[p]) == shas[..p] + shas[p + 1..]
  {
    hide Dropping;
    var sha, low, high := shas[p], shas[..p], shas[p + 1..];
    assert shas == low + ([sha] + high);
    DroppingSplits(low, [sha] + high, sha);
    DroppingSplits([sha], high, sha);
    DroppingOne(sha);
    DroppingAbsent(low, sha);
    DroppingAbsent(high, sha);
    assert [] + high == high;
  }

  lemma ShasOfTwo(a: seq<Row>, b: seq<Row>)
    ensures ShasOf(a + b) == ShasOf(a) + ShasOf(b)
  {
  }

  lemma ShasOfPart(rows: seq<Row>, p: nat)
    requires p <= |rows|
    ensures ShasOf(rows[..p]) == ShasOf(rows)[..p] && ShasOf(rows[p..]) == ShasOf(rows)[p..]
  {
  }

  lemma WithoutRow(rows: seq<Row>, p: nat)
    requires p < |rows|
    ensures ShasOf(rows[..p] + rows[p + 1..]) == ShasOf(rows)[..p] + ShasOf(rows)[p + 1..]
  {
    hide ShasOf;
    ShasOfTwo(rows[..p], rows[p + 1..]);
    ShasOfPart(rows, p);
    ShasOfPart(rows, p + 1);
  }

  lemma UpsertedShasOf(rows: seq<Row>, st: Status)
    requires Shaped(rows)
    ensures var p, shas := RowAt(rows, st.sha), ShasOf(rows);
      ShasOf(Upserted(rows, st)) == [st.sha] + (if p == |rows| then shas else shas[..p] + shas[p + 1..])
  {
    hide Shaped, RowAfter, RowAt, ShasOf;
    RowAfterOK(rows, st);
    var p, row := RowAt(rows, st.sha), RowAfter(rows, st);
    OneSha(row);
    if p == |rows| {
      ShasOfTwo([row], rows);
    } else {
      ShasOfTwo([row], rows[..p] + rows[p + 1..]);
      WithoutRow(rows, p);
    }
  }

  lemma OneSha(row: Row)
    ensures ShasOf([row]) == [row.sha]
  {
  }

  /** The commits of the index after a report are those before without the reported one, which comes first. */
  lemma UpsertedShas(rows: seq<Row>, st: Status)
    requires Shaped(rows)
    ensures ShasOf(Upserted(rows, st)) == [st.sha] + Dropping(ShasOf(rows), st.sha)
  {
    hide RowOK, Upserted, RowAt, Dropping;
    var p, shas := RowAt(rows, st.sha), ShasOf(rows);
    UpsertedShasOf(rows, st);
    if p == |rows| {
      DroppingAbsent(shas, st.sha);
    } else {
      DroppingAt(shas, p);
    }
  }

  ghost predicate Prefix(a: seq<string>, b: seq<string>) {
    |a| <= |b| && a == b[..|a|]
  }

  lemma DroppingPrefix(a: seq<string>, b: seq<string>, sha: string)
    requires Prefix(a, b)
    ensures Prefix([sha] + Dropping(a, sha), [sha] + Dropping(b, sha))
  {
    hide Dropping;
    DroppingSplits(a, b[|a|..], sha);
    assert a + b[|a|..] == b;
  }

  /** The index lists the commits of the newest reports, newest first: compaction only ever cuts off the oldest. */
  lemma {:induction false} NewestFirst(size: seq<Row> -> nat, ops: seq<Op>)
    ensures Prefix(ShasOf(Run(size, ops)), Recency(ops))
  {
    if ops != [] {
      hide Upserted, Trimmed, Dropping, Shaped, ShasOf;
      var rest, op := ops[..|ops| - 1], ops[|ops| - 1];
      var rows := Run(size, rest);
      NewestFirst(size, rest);
      match op
      case Update(st) =>
        AlwaysShaped(size, rest);
        UpsertedShas(rows, st);
        DroppingPrefix(ShasOf(rows), Recency(rest), st.sha);
      case Compaction =>
        TrimmedIs(rows, size);
        ShasCut(rows, |Trimmed(rows, size)|);
    } else {
      NoShas();
    }
  }

  lemma NoShas()
    ensures ShasOf([]) == []
  {
  }

  lemma ShasCut(rows: seq<Row>, n: nat)
    requires n <= |rows|
    ensures ShasOf(rows[..n]) <= ShasOf(rows)
  {
  }

  // ---- the index projects the records ----

  type Canon = map<string, map<string, CheckState>>

  function Statuses(canon: Canon, sha: string): map<string, CheckState> {
    if sha in canon then canon[sha] else map[]
  }

  /** The state last reported for every commit and context. */
  function Canonical(ops: seq<Op>): Canon {
    if ops == [] then map[]
    else
      var before := Canonical(ops[..|ops| - 1]);
      match ops[|ops| - 1]
      case Update(st) => before[st.sha := Statuses(before, st.sha)[st.context := st.state]]
      case Compaction => before
  }

  /** The commits some compaction has cut off. */
  function CutOff(size: seq<Row> -> nat, ops: seq<Op>): set<string> {
    if ops == [] then {}
    else
      var rest := ops[..|ops| - 1];
      CutOff(size, rest)
      + if ops[|ops| - 1].Compaction?
        then (set sha | sha in ShasOf(Run(size, rest)) && sha !in ShasOf(Run(size, ops)))
        else {}
  }

  ghost predicate SubMap(r: Row, canon: Canon) {
    forall c :: c in r.contexts ==> c.name in Statuses(canon, r.sha) && Statuses(canon, r.sha)[c.name] == c.state
  }

  ghost predicate Full(r: Row, canon: Canon) {
    forall n :: n in Statuses(canon, r.sha) ==> HasContext(r, n)
  }

  ghost predicate HasContext(r: Row, name: string) {
    exists c :: c in r.contexts && c.name == name
  }

  ghost predicate Projects(rows: seq<Row>, canon: Canon, cut: set<string>) {
    && (forall r :: r in rows ==> SubMap(r, canon) && (r.sha !in cut ==> Full(r, canon)))
    && (forall sha :: sha in canon && sha !in cut ==> sha in ShasOf(rows))
  }

  lemma OldRows(rows: seq<Row>, st: Status, r: Row)
    requires Shaped(rows) && r in Upserted(rows, st)
    ensures r == RowAfter(rows, st) || (r in rows && r.sha != st.sha)
  {
    hide RowOK, RowAfter, RowAt;
  }

  lemma NewRowContexts(rows: seq<Row>, st: Status, c: Context)
    requires Shaped(rows)
    ensures var p := RowAt(rows, st.sha);
      c in RowAfter(rows, st).contexts <==>
      c == Context(st.context, st.state, st.updatedAt) || (p < |rows| && c in rows[p].contexts && c.name != st.context)
  {
    hide WithContext, RowAt, Combined;
    var p := RowAt(rows, st.sha);
    if p < |rows| {
      assert RowOK(rows[p]);
      WithContextIs(rows[p].contexts, Context(st.context, st.state, st.updatedAt));
    }
  }

  lemma NewRowSubMap(rows: seq<Row>, st: Status, canon: Canon, cut: set<string>)
    requires Shaped(rows) && Projects(rows, canon, cut)
    ensures SubMap(RowAfter(rows, st), canon[st.sha := Statuses(canon, st.sha)[st.context := st.state]])
  {
    hide RowAfter, RowAt, Full, Shaped;
    var r, p := RowAfter(rows, st), RowAt(rows, st.sha);
    RowAfterOK(rows, st);
    forall c | c in r.contexts
      ensures c == Context(st.context, st.state, st.updatedAt)
              || (c.name != st.context && c.name in Statuses(canon, st.sha) && Statuses(canon, st.sha)[c.name] == c.state)
    {
      NewRowContexts(rows, st, c);
      if p < |rows| { assert SubMap(rows[p], canon); }
    }
  }

  lemma NewRowFull(rows: seq<Row>, st: Status, canon: Canon, cut: set<string>)
    requires Shaped(rows) && Projects(rows, canon, cut) && st.sha !in cut
    ensures Full(RowAfter(rows, st), canon[st.sha := Statuses(canon, st.sha)[st.context := st.state]])
  {
    hide RowAfter, RowAt, SubMap, Shaped;
    var r, p := RowAfter(rows, st), RowAt(rows, st.sha);
    RowAfterOK(rows, st);
    forall n | n in Statuses(canon, st.sha)[st.context := st.state] ensures HasContext(r, n) {
      if n == st.context {
        assert Context(st.context, st.state, st.updatedAt) in r.contexts;
      } else {
        assert st.sha in canon && st.sha in ShasOf(rows);
        RowThere(rows, st.sha);
        assert Full(rows[p], canon) && HasContext(rows[p], n);
        var c :| c in rows[p].contexts && c.name == n;
        NewRowContexts(rows, st, c);
      }
    }
  }

  lemma RowThere(rows: seq<Row>, sha: string)
    requires sha in ShasOf(rows)
    ensures RowAt(rows, sha) < |rows|
  {
    var i :| 0 <= i < |ShasOf(rows)| && ShasOf(rows)[i] == sha;
    assert rows[i].sha == sha;
  }

  lemma StillListed(rows: seq<Row>, st: Status, sha: string)
    requires Shaped(rows) && (sha == st.sha || sha in ShasOf(rows))
    ensures sha in ShasOf(Upserted(rows, st))
  {
    hide RowOK, RowAfter, RowAt;
    RowAfterOK(rows, st);
    var after, p := Upserted(rows, st), RowAt(rows, st.sha);
    if sha == st.sha {
      assert ShasOf(after)[0] == sha;
    } else {
      var i :| 0 <= i < |rows| && ShasOf(rows)[i] == sha;
      assert ShasOf(after)[if i < p then i + 1 else i] == sha;
    }
  }

  lemma ReportProjects(rows: seq<Row>, st: Status, canon: Canon, cut: set<string>)
    requires Shaped(rows) && Projects(rows, canon, cut)
    ensures Projects(Upserted(rows, st), canon[st.sha := Statuses(canon, st.sha)[st.context := st.state]], cut)
  {
    hide RowAfter, Upserted, Shaped, ShasOf;
    var after := canon[st.sha := Statuses(canon, st.sha)[st.context := st.state]];
    NewRowSubMap(rows, st, canon, cut);
    if st.sha !in cut { NewRowFull(rows, st, canon, cut); }
    RowAfterOK(rows, st);
    forall r | r in Upserted(rows, st) ensures SubMap(r, after) && (r.sha !in cut ==> Full(r, after)) { OldRows(rows, st, r); }
    forall sha | sha in after && sha !in cut ensures sha in ShasOf(Upserted(rows, st)) { StillListed(rows, st, sha); }
  }

  lemma {:induction false} AlwaysProjects(size: seq<Row> -> nat, ops: seq<Op>)
    ensures Projects(Run(size, ops), Canonical(ops), CutOff(size, ops))
  {
    if ops != [] {
      hide Upserted, Trimmed, Projects, Shaped, ShasOf, CutOff;
      var rest, op := ops[..|ops| - 1], ops[|ops| - 1];
      AlwaysProjects(size, rest);
      AlwaysShaped(size, rest);
      CutOffStep(size, ops);
      match op
      case Update(st) => ReportProjects(Run(size, rest), st, Canonical(rest), CutOff(size, rest));
      case Compaction =>
        TrimmedIs(Run(size, rest), size);
        CutProjects(Run(size, rest), Run(size, ops), Canonical(rest), CutOff(size, rest), CutOff(size, ops));
    } else {
      NothingProjects(CutOff(size, ops));
    }
  }

  lemma CutOffStep(size: seq<Row> -> nat, ops: seq<Op>)
    requires ops != []
    ensures var rest := ops[..|ops| - 1];
      && CutOff(size, rest) <= CutOff(size, ops)
      && if ops[|ops| - 1].Compaction?
         then forall sha :: sha in ShasOf(Run(size, rest)) && sha !in ShasOf(Run(size, ops)) ==> sha in CutOff(size, ops)
         else CutOff(size, rest) == CutOff(size, ops)
  {
    hide ShasOf, Run;
  }

  lemma NothingProjects(cut: set<string>)
    ensures Projects([], map[], cut)
  {
  }

  lemma CutProjects(rows: seq<Row>, kept: seq<Row>, canon: Canon, cut: set<string>, more: set<string>)
    requires Projects(rows, canon, cut) && kept <= rows && cut <= more
    requires forall sha :: sha in ShasOf(rows) && sha !in ShasOf(kept) ==> sha in more
    ensures Projects(kept, canon, more)
  {
    hide SubMap, Full, ShasOf;
    forall r | r in kept ensures r in rows { }
  }

  /** The states of all contexts last reported for a commit, in some order. */
  ghost predicate StatesListed(states: seq<CheckState>, statuses: map<string, CheckState>) {
    && (forall n :: n in statuses ==> statuses[n] in states)
    && (forall s :: s in states ==> exists n :: n in statuses && statuses[n] == s)
  }

  lemma RowRanks(r: Row, canon: Canon, states: seq<CheckState>)
    requires RowOK(r) && SubMap(r, canon) && StatesListed(states, Statuses(canon, r.sha))
    ensures StateRank(r.state) <= StateRank(Combined(states))
    ensures Full(r, canon) ==> r.state == Combined(states)
  {
    hide Combined, InNameOrder;
    var own := StatesOf(r.contexts);
    forall s | s in own ensures s in states {
      var i :| 0 <= i < |own| && own[i] == s;
      assert r.contexts[i] in r.contexts;
    }
    if Full(r, canon) {
      forall s | s in states ensures s in own {
        var n :| n in Statuses(canon, r.sha) && Statuses(canon, r.sha)[n] == s;
        assert HasContext(r, n);
        var c :| c in r.contexts && c.name == n;
        var i :| 0 <= i < |r.contexts| && r.contexts[i] == c;
        assert own[i] == s;
      }
    }
    assert own[0] in own;
    CombinedMonotone(own, states);
  }

  /** After any sequence of reports and compactions no row claims worse than the commit's true combined state, and the
      row of a commit that compaction has never cut off has exactly that state; such a commit always has a row. */
  lemma RowsNeverWorse(size: seq<Row> -> nat, ops: seq<Op>, r: Row, states: seq<CheckState>)
    requires r in Run(size, ops) && StatesListed(states, Statuses(Canonical(ops), r.sha))
    ensures StateRank(r.state) <= StateRank(Combined(states))
    ensures r.sha !in CutOff(size, ops) ==> r.state == Combined(states)
    ensures forall sha :: sha in Canonical(ops) && sha !in CutOff(size, ops) ==> sha in ShasOf(Run(size, ops))
  {
    hide Run, Canonical, CutOff, Combined, Full, SubMap, RowOK;
    AlwaysProjects(size, ops);
    AlwaysShaped(size, ops);
    var i :| 0 <= i < |Run(size, ops)| && Run(size, ops)[i] == r;
    assert RowOK(Run(size, ops)[i]);
    RowRanks(r, Canonical(ops), states);
  }

  // ---- records and index apart ----

  /** A report writes its record, and some time later its index update lands, or never; other reports and compactions
      come in between. */
  datatype Event = Wrote(st: Status) | Landed(st: Status) | Compacted

  /** The index updates and compactions, in the order they landed. */
  function Indexed(es: seq<Event>): seq<Op> {
    if es == [] then []
    else
      Indexed(es[..|es| - 1]) +
      match es[|es| - 1]
      case Wrote(_) => []
      case Landed(st) => [Update(st)]
      case Compacted => [Compaction]
  }

  /** The reports whose records were written, in that order. */
  function Recorded(es: seq<Event>): seq<Op> {
    if es == [] then []
    else Recorded(es[..|es| - 1]) + (if es[|es| - 1].Wrote? then [Update(es[|es| - 1].st)] else [])
  }

  /** What is indexed was written before. */
  ghost predicate Honest(es: seq<Event>) {
    forall i :: 0 <= i < |es| && es[i].Landed? ==> Wrote(es[i].st) in es[..i]
  }

  /** The records say of the commit's contexts. */
  function Truth(es: seq<Event>, sha: string): map<string, CheckState> {
    Statuses(Canonical(Recorded(es)), sha)
  }

  /** The state the last index update of this context carried. */
  function LastLanded(es: seq<Event>, sha: string, name: string): Option<CheckState> {
    var landed := Statuses(Canonical(Indexed(es)), sha);
    if name in landed then Some(landed[name]) else None
  }

  /** Whatever the order in which updates land and whichever are given up, a context of a row shows the state the last
      index update of it carried; so it shows what the record says if and only if that update was not overtaken. */
  lemma ShowsLastLanded(size: seq<Row> -> nat, es: seq<Event>, r: Row, c: Context)
    requires r in Run(size, Indexed(es)) && c in r.contexts
    ensures LastLanded(es, r.sha, c.name) == Some(c.state)
    ensures c.name in Truth(es, r.sha) ==>
              (c.state == Truth(es, r.sha)[c.name] <==> LastLanded(es, r.sha, c.name) == Some(Truth(es, r.sha)[c.name]))
  {
    hide Run, Canonical, CutOff, Full, Indexed, Recorded;
    AlwaysProjects(size, Indexed(es));
    assert SubMap(r, Canonical(Indexed(es)));
  }

  /** A row ranks worse than the commit's true combined state if and only if the last index update of one of its contexts
      carried a state worse than any the records say. */
  lemma RowWorseExactly(size: seq<Row> -> nat, es: seq<Event>, r: Row, states: seq<CheckState>)
    requires r in Run(size, Indexed(es)) && states != [] && StatesListed(states, Truth(es, r.sha))
    ensures StateRank(r.state) > StateRank(Combined(states)) <==>
            exists c :: c in r.contexts && forall s :: s in states ==> StateRank(c.state) > StateRank(s)
  {
    hide Run, Canonical, Indexed, Recorded, Combined, StatesListed;
    AlwaysShaped(size, Indexed(es));
    var i :| 0 <= i < |Run(size, Indexed(es))| && Run(size, Indexed(es))[i] == r;
    assert RowOK(Run(size, Indexed(es))[i]);
    WorstContext(r, states);
  }

  lemma WorstContext(r: Row, states: seq<CheckState>)
    requires RowOK(r) && states != []
    ensures StateRank(r.state) > StateRank(Combined(states)) <==>
            exists c :: c in r.contexts && forall s :: s in states ==> StateRank(c.state) > StateRank(s)
  {
    hide Combined, InNameOrder;
    var own := StatesOf(r.contexts);
    CombinedIsWorst(own);
    CombinedIsWorst(states);
    var i :| 0 <= i < |own| && own[i] == Combined(own);
    assert r.contexts[i] in r.contexts && r.contexts[i].state == r.state;
    forall c | c in r.contexts ensures StateRank(c.state) <= StateRank(r.state) {
      var k :| 0 <= k < |r.contexts| && r.contexts[k] == c;
      assert own[k] == c.state && own[k] in own;
    }
  }

  /** As long as no context of the row was overtaken, the row ranks no worse than the truth. */
  lemma CurrentRowsNeverWorse(size: seq<Row> -> nat, es: seq<Event>, r: Row, states: seq<CheckState>)
    requires r in Run(size, Indexed(es)) && StatesListed(states, Truth(es, r.sha))
    requires forall c :: c in r.contexts ==>
               c.name in Truth(es, r.sha) && LastLanded(es, r.sha, c.name) == Some(Truth(es, r.sha)[c.name])
    ensures StateRank(r.state) <= StateRank(Combined(states))
  {
    hide Run, Canonical, Indexed, Recorded, Combined, CutOff, Full;
    AlwaysShaped(size, Indexed(es));
    var i :| 0 <= i < |Run(size, Indexed(es))| && Run(size, Indexed(es))[i] == r;
    assert RowOK(Run(size, Indexed(es))[i]);
    forall c | c in r.contexts ensures c.state == Truth(es, r.sha)[c.name] { ShowsLastLanded(size, es, r, c); }
    assert SubMap(r, Canonical(Recorded(es)));
    RowRanks(r, Canonical(Recorded(es)), states);
  }

  /** Report a writes its record, b overwrites it and lands its index update, and only then a's lands. */
  function Overtaken(a: Status, b: Status): seq<Event> {
    [Wrote(a), Wrote(b), Landed(b), Landed(a)]
  }

  lemma RunOneMore(size: seq<Row> -> nat, ops: seq<Op>, op: Op)
    ensures Run(size, ops + [op]) == Next(Run(size, ops), size, op)
  {
    hide Next;
    assert (ops + [op])[..|ops|] == ops;
  }

  lemma RunTwo(size: seq<Row> -> nat, a: Op, b: Op)
    ensures Run(size, [a, b]) == Next(Next([], size, a), size, b) && Run(size, [a]) == Next([], size, a)
  {
    hide Next;
    RunOneMore(size, [], a);
    RunOneMore(size, [a], b);
    assert [] + [a] == [a] && [a] + [b] == [a, b];
  }

  lemma CanonicalTwo(a: Status, b: Status)
    requires a.sha == b.sha && a.context == b.context
    ensures Statuses(Canonical([Update(a), Update(b)]), a.sha) == map[a.context := b.state]
  {
    assert [Update(a), Update(b)][..1] == [Update(a)] && [Update(a)][..0] == [];
    assert Canonical([Update(a)]) == map[a.sha := map[a.context := a.state]];
  }

  lemma OvertakenIs(a: Status, b: Status)
    ensures Indexed(Overtaken(a, b)) == [Update(b), Update(a)] && Recorded(Overtaken(a, b)) == [Update(a), Update(b)]
  {
    var es := Overtaken(a, b);
    assert es[..3] == [Wrote(a), Wrote(b), Landed(b)] && es[..3][..2] == [Wrote(a), Wrote(b)];
    assert [Wrote(a), Wrote(b)][..1] == [Wrote(a)] && [Wrote(a)][..0] == [];
    assert Indexed([Wrote(a)]) == [] && Indexed([Wrote(a), Wrote(b)]) == [] && Indexed(es[..3]) == [Update(b)];
    assert Recorded([Wrote(a)]) == [Update(a)] && Recorded([Wrote(a), Wrote(b)]) == [Update(a), Update(b)];
    assert Recorded(es[..3]) == [Update(a), Update(b)];
  }

  /** Of one context, the overtaken report's state stays in the index: a failure there, while the record says success. */
  lemma OvertakenRowIsWorse(size: seq<Row> -> nat, a: Status, b: Status)
    requires a.sha == b.sha && a.context == b.context && a.state == Failure && b.state == Success
    ensures var es := Overtaken(a, b);
      && Honest(es) && Truth(es, a.sha) == map[a.context := Success]
      && |Run(size, Indexed(es))| == 1 && Run(size, Indexed(es))[0].sha == a.sha
      && Run(size, Indexed(es))[0].state == Failure
  {
    var es := Overtaken(a, b);
    hide Canonical, Run, Indexed, Recorded, Honest, StateRank, SortedBy, Combined;
    OvertakenIs(a, b);
    CanonicalTwo(a, b);
    RunTwo(size, Update(b), Update(a));
    OvertakenHonest(a, b);
    UpsertTwice(a, b);
  }

  lemma OvertakenHonest(a: Status, b: Status)
    ensures Honest(Overtaken(a, b))
  {
    var es := Overtaken(a, b);
    assert es[..2] == [Wrote(a), Wrote(b)] && es[..3] == [Wrote(a), Wrote(b), Landed(b)];
    assert es[..2][1] == Wrote(b) && es[..3][0] == Wrote(a);
  }

  lemma UpsertTwice(a: Status, b: Status)
    requires a.sha == b.sha && a.context == b.context
    ensures var rows := Upserted(Upserted([], b), a);
      |rows| == 1 && rows[0].sha == a.sha && rows[0].state == a.state
  {
    hide WithContext, Combined;
    var c, d := Context(b.context, b.state, b.updatedAt), Context(a.context, a.state, a.updatedAt);
    var rows := Upserted([], b);
    assert rows == [Row(b.sha, b.state, [c], b.updatedAt)];
    assert RowAt(rows, a.sha) == 0;
    SameNameReplaces(c, d);
    OneState(d);
  }

  lemma SameNameReplaces(c: Context, d: Context)
    requires c.name == d.name
    ensures WithContext([c], d) == [d]
  {
    hide SortedBy;
    assert ContextAt([c], d.name) == 0;
    assert Replaced([c], d) == [d];
    SortedOne(d);
  }

  lemma SortedOne(d: Context)
    ensures SortedBy(NameOf, [d]) == [d]
  {
    assert [d][1..] == [];
  }

  // ---- any number of writers ----

  const ATTEMPTS := 5

  /** What one writer puts for the index it read; a compaction that cuts nothing writes nothing. */
  ghost function Writes(size: seq<Row> -> nat, ops: nat -> Op): C.Mutators<seq<Row>> {
    (c: nat) => (cur: Option<seq<Row>>) =>
      match ops(c)
      case Update(st) => C.Write(Upserted(RowsOf(cur), st))
      case Compaction =>
        if cur.None? || Trimmed(cur.value, size) == cur.value then C.Abort else C.Write(Trimmed(cur.value, size))
  }

  function Authored(ops: nat -> Op, authors: seq<nat>): seq<Op> {
    seq(|authors|, i requires 0 <= i < |authors| => ops(authors[i]))
  }

  function RowsOf(cur: Option<seq<Row>>): seq<Row> {
    if cur.None? then [] else cur.value
  }

  lemma {:induction false} CommitsAreRun(size: seq<Row> -> nat, ops: nat -> Op, s: C.State<seq<Row>>, k: nat)
    requires C.Serialized(Writes(size, ops), s) && s.initial == None && k <= |s.history| == |s.authors|
    ensures RowsOf(s.ValueAt(k)) == Run(size, Authored(ops, s.authors[..k]))
    decreases k
  {
    hide Writes, Run, C.Serialized;
    if k == 0 {
      NoCommit(size, ops, s.authors);
    } else {
      CommitsAreRun(size, ops, s, k - 1);
      Written(size, ops, s, k - 1);
      NextCommit(size, ops, s.authors, k - 1, s.ValueAt(k - 1), s.history[k - 1]);
    }
  }

  lemma NoCommit(size: seq<Row> -> nat, ops: nat -> Op, authors: seq<nat>)
    ensures Run(size, Authored(ops, authors[..0])) == []
  {
  }

  lemma NextCommit(size: seq<Row> -> nat, ops: nat -> Op, authors: seq<nat>, k: nat, cur: Option<seq<Row>>, next: seq<Row>)
    requires k < |authors| && Writes(size, ops)(authors[k])(cur) == C.Write(next)
    requires RowsOf(cur) == Run(size, Authored(ops, authors[..k]))
    ensures next == Run(size, Authored(ops, authors[..k + 1]))
  {
    hide Upserted, Trimmed;
    var some := Authored(ops, authors[..k + 1]);
    assert some[..k] == Authored(ops, authors[..k]) && some[k] == ops(authors[k]);
  }

  lemma {:induction false} StartsEmpty(size: seq<Row> -> nat, ops: nat -> Op, steps: seq<C.Step>)
    ensures C.Run(Writes(size, ops), ATTEMPTS - 1, C.Initial(None), steps).initial == None
    decreases |steps|
  {
    if steps != [] { StartsEmpty(size, ops, steps[..|steps| - 1]); }
  }

  /** Reports and compactions that race on the index leave it as if those that committed had run one after another. */
  lemma RacesAreSequential(size: seq<Row> -> nat, ops: nat -> Op, steps: seq<C.Step>)
    ensures var s := C.Run(Writes(size, ops), ATTEMPTS - 1, C.Initial(None), steps);
      s.cell.Holds? ==> s.cell.value == Run(size, Authored(ops, s.authors)) && Shaped(s.cell.value)
                        && Prefix(ShasOf(s.cell.value), Recency(Authored(ops, s.authors)))
  {
    hide Writes, C.Serialized, C.Accounted, Shaped, Recency;
    var s := C.Run(Writes(size, ops), ATTEMPTS - 1, C.Initial(None), steps);
    C.NoLostUpdate(Writes(size, ops), ATTEMPTS - 1, None, steps);
    StartsEmpty(size, ops, steps);
    if s.cell.Holds? {
      LastCommit(size, ops, s);
      AlwaysShaped(size, Authored(ops, s.authors));
      NewestFirst(size, Authored(ops, s.authors));
    }
  }

  /** And an index update that is given up has lost five attempts to others. */
  lemma UpdateGivenUp(size: seq<Row> -> nat, ops: nat -> Op, steps: seq<C.Step>, c: nat)
    ensures var s := C.Run(Writes(size, ops), ATTEMPTS - 1, C.Initial(None), steps);
      c in s.calls && s.calls[c].phase == C.Done(C.Exhausted) ==> |s.history| >= 5 && c !in s.authors
    ensures var s := C.Run(Writes(size, ops), ATTEMPTS - 1, C.Initial(None), steps);
      c in s.calls && s.calls[c].phase.Reading? ==> s.calls[c].phase.attempt < 5
  {
    hide Writes;
    assert C.Run(Writes(size, ops), ATTEMPTS - 1, C.Initial(None), []) == C.Initial(None);
    C.GivesUpAfterLosses(Writes(size, ops), ATTEMPTS - 1, None, [], steps, c);
  }

  lemma LastCommit(size: seq<Row> -> nat, ops: nat -> Op, s: C.State<seq<Row>>)
    requires C.Serialized(Writes(size, ops), s) && s.initial == None && s.cell.Holds?
    ensures s.cell.value == Run(size, Authored(ops, s.authors))
  {
    hide Writes, Run, C.Serialized;
    CellIsLast(size, ops, s);
    CommitsAreRun(size, ops, s, |s.history|);
    assert s.authors[..|s.authors|] == s.authors;
  }

  lemma CellIsLast(size: seq<Row> -> nat, ops: nat -> Op, s: C.State<seq<Row>>)
    requires C.Serialized(Writes(size, ops), s)
    ensures |s.authors| == |s.history| && s.cell.Value() == s.ValueAt(|s.history|)
  {
    hide Writes;
  }

  lemma Written(size: seq<Row> -> nat, ops: nat -> Op, s: C.State<seq<Row>>, k: nat)
    requires C.Serialized(Writes(size, ops), s) && k < |s.history|
    ensures |s.authors| == |s.history| && Writes(size, ops)(s.authors[k])(s.ValueAt(k)) == C.Write(s.history[k])
  {
    hide Writes;
  }
}
