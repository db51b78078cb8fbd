/** The ls-refs response: the references any of the client's prefixes begins, found by binary search. */
module LsRefs {
  import opened Wrappers
  import opened StringOrder
  import opened PktLine
  import opened Sorting
  import opened Text

  datatype Ref = Ref(name: string, oid: string, peeled: string)

  datatype Snapshot = Snapshot(refs: seq<Ref>, headTarget: string, headOid: string)

  datatype Args = Args(symrefs: bool, peel: bool, unborn: bool, prefixes: seq<string>)

  predicate SortedRefs(refs: seq<Ref>) {
    forall i, j :: 0 <= i < j < |refs| ==> Less(refs[i].name, refs[j].name)
  }

  // ---- prefixes and order ----

  lemma {:induction false} PrefixNotBelow(n: string, p: string)
    requires HasPrefix(n, p)
    ensures !Less(n, p)
  {
    if p != "" && n != "" {
      assert n[..|p|][0] == n[0] && p[0] == n[..|p|][0];
      assert n[..|p|][1..] == n[1..][..|p| - 1];
      PrefixNotBelow(n[1..], p[1..]);
    }
  }

  lemma PrefixTail(s: string, p: string)
    requires s != "" && p != "" && s[0] == p[0]
    ensures HasPrefix(s[1..], p[1..]) ==> HasPrefix(s, p)
  {
    if HasPrefix(s[1..], p[1..]) { assert s[..|p|] == [s[0]] + s[1..][..|p| - 1]; }
  }

  /** When p comes before q and is no prefix of q, so does every string that p is a prefix of. */
  lemma {:induction false} PrefixedBelow(n: string, p: string, q: string)
    requires HasPrefix(n, p) && !HasPrefix(q, p) && AtMost(p, q)
    ensures Less(n, q)
  {
    if p != "" {
      assert n[..|p|][0] == n[0] && p[0] == n[..|p|][0];
      if p[0] == q[0] {
        assert n[..|p|][1..] == n[1..][..|p| - 1];
        PrefixTail(q, p);
        PrefixedBelow(n[1..], p[1..], q[1..]);
      }
    }
  }

  lemma PrefixTransitive(n: string, q: string, p: string)
    requires HasPrefix(n, q) && HasPrefix(q, p)
    ensures HasPrefix(n, p)
  {
    assert n[..|p|] == n[..|q|][..|p|];
  }

  /** Past the strings a prefix begins, there are no more of them. */
  lemma PrefixedContiguous(p: string, n: string, m: string)
    requires !HasPrefix(n, p) && Less(p, n) && Less(n, m)
    ensures !HasPrefix(m, p)
  {
    if HasPrefix(m, p) {
      LessAsymmetric(p, n);
      PrefixedBelow(m, p, n);
      LessAsymmetric(n, m);
    }
  }

  // ---- the plain filter ----

  predicate Matches(name: string, prefixes: seq<string>) {
    exists p :: p in prefixes && HasPrefix(name, p)
  }

  /** The references whose name some prefix begins, in the order of the snapshot. */
  function Filtered(refs: seq<Ref>, prefixes: seq<string>): seq<Ref> {
    if refs == [] then []
    else
      var last := refs[|refs| - 1];
      Filtered(refs[..|refs| - 1], prefixes) + (if Matches(last.name, prefixes) then [last] else [])
  }

  lemma {:induction false} FilteredInTwo(a: seq<Ref>, b: seq<Ref>, prefixes: seq<string>)
    ensures Filtered(a + b, prefixes) == Filtered(a, prefixes) + Filtered(b, prefixes)
  {
    hide Matches;
    if b == [] {
      assert a + b == a;
    } else {
      var n := |b| - 1;
      FilteredInTwo(a, b[..n], prefixes);
      assert (a + b)[..|a| + n] == a + b[..n] && (a + b)[|a| + n] == b[n];
    }
  }

  lemma FilteredOne(r: Ref, prefixes: seq<string>)
    ensures Filtered([r], prefixes) == if Matches(r.name, prefixes) then [r] else []
  {
    hide Matches;
    assert [r][..0] == [];
  }

  ghost predicate SameMatches(refs: seq<Ref>, a: seq<string>, b: seq<string>) {
    forall r :: r in refs ==> (Matches(r.name, a) <==> Matches(r.name, b))
  }

  lemma {:induction false} FilteredSame(refs: seq<Ref>, a: seq<string>, b: seq<string>)
    requires SameMatches(refs, a, b)
    ensures Filtered(refs, a) == Filtered(refs, b)
  {
    hide Matches;
    if refs != [] {
      forall r | r in refs[..|refs| - 1] ensures Matches(r.name, a) <==> Matches(r.name, b) { assert r in refs; }
      FilteredSame(refs[..|refs| - 1], a, b);
    }
  }

  lemma {:induction false} NoneFiltered(refs: seq<Ref>, prefixes: seq<string>)
    requires forall r :: r in refs ==> !Matches(r.name, prefixes)
    ensures Filtered(refs, prefixes) == []
  {
    hide Matches;
    if refs != [] {
      forall r | r in refs[..|refs| - 1] ensures !Matches(r.name, prefixes) { assert r in refs; }
      NoneFiltered(refs[..|refs| - 1], prefixes);
    }
  }

  /** The filter keeps exactly the references that match. */
  lemma {:induction false} FilteredExactly(refs: seq<Ref>, prefixes: seq<string>)
    ensures forall r :: r in Filtered(refs, prefixes) <==> r in refs && Matches(r.name, prefixes)
  {
    hide Matches;
    if refs != [] {
      FilteredExactly(refs[..|refs| - 1], prefixes);
      assert refs == refs[..|refs| - 1] + [refs[|refs| - 1]];
    }
  }

  /** The filter keeps the order, and names each reference once. */
  lemma {:induction false} FilteredSorted(refs: seq<Ref>, prefixes: seq<string>)
    requires SortedRefs(refs)
    ensures SortedRefs(Filtered(refs, prefixes))
  {
    hide Matches;
    if refs != [] {
      var rest := refs[..|refs| - 1];
      FilteredSorted(rest, prefixes);
      FilteredExactly(rest, prefixes);
      var kept := Filtered(rest, prefixes);
      forall i | 0 <= i < |kept| ensures Less(kept[i].name, refs[|refs| - 1].name) { assert kept[i] in rest; }
    }
  }

  // ---- one more prefix ----

  /** What has been written when the scan for prefix p stands at i: up to there the references that match, from there
      on those that matched before. */
  function Scanned(refs: seq<Ref>, before: seq<string>, p: string, i: nat): seq<Ref>
    requires i <= |refs|
  {
    Filtered(refs[..i], before + [p]) + Filtered(refs[i..], before)
  }

  lemma MatchesMore(name: string, before: seq<string>, p: string)
    ensures Matches(name, before + [p]) <==> Matches(name, before) || HasPrefix(name, p)
  {
    if Matches(name, before) {
      var q :| q in before && HasPrefix(name, q);
      assert q in before + [p];
    }
    if HasPrefix(name, p) { assert p in before + [p]; }
  }

  lemma SplitBefore(refs: seq<Ref>, before: seq<string>, p: string, i: nat)
    requires i < |refs|
    ensures Scanned(refs, before, p, i) ==
            Filtered(refs[..i], before + [p]) + (if Matches(refs[i].name, before) then [refs[i]] else []) + Filtered(refs[i + 1..], before)
  {
    hide Matches, Filtered;
    assert refs[i..] == [refs[i]] + refs[i + 1..];
    FilteredInTwo([refs[i]], refs[i + 1..], before);
    FilteredOne(refs[i], before);
  }

  lemma SplitAfter(refs: seq<Ref>, before: seq<string>, p: string, i: nat)
    requires i < |refs|
    ensures Scanned(refs, before, p, i + 1) ==
            Filtered(refs[..i], before + [p]) + (if Matches(refs[i].name, before + [p]) then [refs[i]] else []) + Filtered(refs[i + 1..], before)
  {
    hide Matches, Filtered;
    assert refs[..i + 1] == refs[..i] + [refs[i]];
    FilteredInTwo(refs[..i], [refs[i]], before + [p]);
    FilteredOne(refs[i], before + [p]);
  }

  /** A reference that p begins, or that p does not, and that matched before as it matches now, changes nothing. */
  lemma ScanPasses(refs: seq<Ref>, before: seq<string>, p: string, i: nat)
    requires i < |refs| && (!HasPrefix(refs[i].name, p) || Matches(refs[i].name, before))
    ensures Scanned(refs, before, p, i + 1) == Scanned(refs, before, p, i)
  {
    hide Matches;
    SplitBefore(refs, before, p, i);
    SplitAfter(refs, before, p, i);
    MatchesMore(refs[i].name, before, p);
  }

  /** A new match comes after everything the prefixes before it, none above p, have matched. */
  lemma ScanAdds(refs: seq<Ref>, before: seq<string>, p: string, i: nat)
    requires SortedRefs(refs) && i < |refs| && HasPrefix(refs[i].name, p) && !Matches(refs[i].name, before)
    requires forall q :: q in before ==> AtMost(q, p)
    ensures Scanned(refs, before, p, i + 1) == Scanned(refs, before, p, i) + [refs[i]]
  {
    SplitBefore(refs, before, p, i);
    SplitAfter(refs, before, p, i);
    MatchesMore(refs[i].name, before, p);
    forall r | r in refs[i + 1..] ensures !Matches(r.name, before) { LaterUnmatched(refs, before, p, i, r); }
    NoneFiltered(refs[i + 1..], before);
  }

  lemma LaterUnmatched(refs: seq<Ref>, before: seq<string>, p: string, i: nat, r: Ref)
    requires SortedRefs(refs) && i < |refs| && HasPrefix(refs[i].name, p) && !Matches(refs[i].name, before)
    requires r in refs[i + 1..] && forall q :: q in before ==> AtMost(q, p)
    ensures !Matches(r.name, before)
  {
    var k :| 0 <= k < |refs| - i - 1 && refs[i + 1..][k] == r;
    assert refs[i + 1 + k] == r && Less(refs[i].name, r.name);
    forall q | q in before ensures !HasPrefix(r.name, q) {
      if HasPrefix(r.name, q) {
        if HasPrefix(p, q) { PrefixTransitive(refs[i].name, p, q); assert false; }
        PrefixedBelow(r.name, q, p);
        LessTransitive(refs[i].name, r.name, p);
        PrefixNotBelow(refs[i].name, p);
      }
    }
  }

  ghost predicate NoneFrom(refs: seq<Ref>, p: string, i: nat) {
    forall k :: i <= k < |refs| ==> !HasPrefix(refs[k].name, p)
  }

  ghost predicate NoneBefore(refs: seq<Ref>, p: string, i: nat) {
    forall k :: 0 <= k < i <= |refs| ==> !HasPrefix(refs[k].name, p)
  }

  lemma ScanStarts(refs: seq<Ref>, before: seq<string>, p: string, lo: nat)
    requires lo <= |refs| && NoneBefore(refs, p, lo)
    ensures Scanned(refs, before, p, lo) == Filtered(refs, before)
  {
    hide Matches, HasPrefix, Filtered;
    forall r | r in refs[..lo] ensures Matches(r.name, before + [p]) <==> Matches(r.name, before) { MatchesMore(r.name, before, p); }
    FilteredSame(refs[..lo], before + [p], before);
    FilteredInTwo(refs[..lo], refs[lo..], before);
    assert refs[..lo] + refs[lo..] == refs;
  }

  lemma ScanEnds(refs: seq<Ref>, before: seq<string>, p: string, i: nat)
    requires i <= |refs| && NoneFrom(refs, p, i)
    ensures Scanned(refs, before, p, i) == Filtered(refs, before + [p])
  {
    hide Matches, HasPrefix, Filtered;
    forall r | r in refs[i..] ensures Matches(r.name, before + [p]) <==> Matches(r.name, before) { MatchesMore(r.name, before, p); }
    FilteredSame(refs[i..], before + [p], before);
    FilteredInTwo(refs[..i], refs[i..], before + [p]);
    assert refs[..i] + refs[i..] == refs;
  }

  // ---- the response ----

  function Itself(p: string): string {
    p
  }

  method LowerBound(refs: seq<Ref>, p: string) returns (lo: nat)
    requires SortedRefs(refs)
    ensures lo <= |refs|
    ensures forall i :: 0 <= i < lo ==> Less(refs[i].name, p)
    ensures forall i :: lo <= i < |refs| ==> !Less(refs[i].name, p)
  {
    lo := 0;
    var hi := |refs|;
    while lo < hi
      invariant lo <= hi <= |refs|
      invariant forall i :: 0 <= i < lo ==> Less(refs[i].name, p)
      invariant forall i :: hi <= i < |refs| ==> !Less(refs[i].name, p)
    {
      var mid := (lo + hi) / 2;
      if Less(refs[mid].name, p) {
        forall i | 0 <= i < mid ensures Less(refs[i].name, p) { LessTransitive(refs[i].name, refs[mid].name, p); }
        lo := mid + 1;
      } else {
        forall i | mid <= i < |refs| ensures !Less(refs[i].name, p) {
          if i > mid && Less(refs[i].name, p) { LessTransitive(refs[mid].name, refs[i].name, p); }
        }
        hi := mid;
      }
    }
  }

  function Line(oid: string, name: string, symrefTarget: string, peeled: string): string {
    oid + " " + name + (if symrefTarget != "" then " symref-target:" + symrefTarget else "")
    + (if peeled != "" then " peeled:" + peeled else "")
  }

  function RefLine(r: Ref, peel: bool): string {
    Line(r.oid, r.name, "", if peel && HasPrefix(r.name, "refs/tags/") && r.peeled != "" then r.peeled else "")
  }

  function RefLines(refs: seq<Ref>, peel: bool): seq<string> {
    seq(|refs|, i requires 0 <= i < |refs| => RefLine(refs[i], peel))
  }

  predicate Covers(p: string, headTarget: string) {
    HasPrefix("HEAD", p) || (headTarget != "" && HasPrefix(headTarget, p))
  }

  /** HEAD is there without prefixes, or when one covers HEAD itself or its target. */
  predicate HeadWanted(snap: Snapshot, args: Args) {
    args.prefixes == [] || exists p :: p in args.prefixes && Covers(p, snap.headTarget)
  }

  /** The reference of this name. */
  function Named(refs: seq<Ref>, name: string): Option<Ref> {
    if refs == [] then None
    else if refs[|refs| - 1].name == name then Some(refs[|refs| - 1])
    else Named(refs[..|refs| - 1], name)
  }

  lemma {:induction false} NamedAbsent(refs: seq<Ref>, name: string)
    requires forall r :: r in refs ==> r.name != name
    ensures Named(refs, name) == None
  {
    if refs != [] {
      assert refs[|refs| - 1] in refs;
      NamedAbsent(refs[..|refs| - 1], name);
    }
  }

  lemma {:induction false} NamedFound(refs: seq<Ref>, i: nat)
    requires SortedRefs(refs) && i < |refs|
    ensures Named(refs, refs[i].name) == Some(refs[i])
  {
    if i < |refs| - 1 {
      LessIrreflexive(refs[i].name);
      assert Less(refs[i].name, refs[|refs| - 1].name);
      NamedFound(refs[..|refs| - 1], i);
    }
  }

  method Get(refs: seq<Ref>, name: string) returns (found: Option<Ref>)
    requires SortedRefs(refs)
    ensures found == Named(refs, name)
    ensures found.Some? ==> found.value in refs && found.value.name == name
    ensures found.None? <==> forall r :: r in refs ==> r.name != name
  {
    var i := LowerBound(refs, name);
    if i < |refs| && refs[i].name == name {
      NamedFound(refs, i);
      return Some(refs[i]);
    }
    forall r | r in refs ensures r.name != name {
      var k :| 0 <= k < |refs| && refs[k] == r;
      LessIrreflexive(name);
      if k > i {
        assert Less(refs[i].name, r.name);
        LessTotal(refs[i].name, name);
      }
    }
    NamedAbsent(refs, name);
    found := None;
  }

  /** The value of the reference of this name, or "". */
  function OidOf(refs: seq<Ref>, name: string): string {
    match Named(refs, name)
    case None => ""
    case Some(r) => r.oid
  }

  /** The line for HEAD: its value with its target if asked for, "unborn" if that is asked for and it has no value. */
  function HeadLines(snap: Snapshot, args: Args): seq<string> {
    var oid := if snap.headOid == "" && snap.headTarget != "" then OidOf(snap.refs, snap.headTarget) else snap.headOid;
    var target := if args.symrefs then snap.headTarget else "";
    if !HeadWanted(snap, args) then []
    else if oid != "" then [Line(oid, "HEAD", target, "")]
    else if args.unborn && snap.headTarget != "" then [Line("unborn", "HEAD", target, "")]
    else []
  }

  /** The references the client is shown. */
  function Shown(snap: Snapshot, args: Args): seq<Ref> {
    if args.prefixes == [] then snap.refs else Filtered(snap.refs, args.prefixes)
  }

  /** The lines of the response: HEAD, then the references. */
  function Response(snap: Snapshot, args: Args): seq<string> {
    HeadLines(snap, args) + RefLines(Shown(snap, args), args.peel)
  }

  method HeadResponse(snap: Snapshot, args: Args) returns (lines: seq<string>)
    requires SortedRefs(snap.refs)
    ensures lines == HeadLines(snap, args)
  {
    var advertised := |args.prefixes| == 0;
    for i := 0 to |args.prefixes|
      invariant advertised <==> args.prefixes == [] || exists k :: 0 <= k < i && Covers(args.prefixes[k], snap.headTarget)
    {
      var p := args.prefixes[i];
      if p == "HEAD" || HasPrefix("HEAD", p) || (snap.headTarget != "" && HasPrefix(snap.headTarget, p)) {
        advertised := true;
      }
    }
    lines := [];
    if advertised {
      if snap.headTarget != "" {
        var oid := snap.headOid;
        if oid == "" {
          var target := Get(snap.refs, snap.headTarget);
          if target.Some? { oid := target.value.oid; }
        }
        if oid != "" {
          lines := [Line(oid, "HEAD", if args.symrefs then snap.headTarget else "", "")];
        } else if args.unborn {
          lines := [Line("unborn", "HEAD", if args.symrefs then snap.headTarget else "", "")];
        }
      } else if snap.headOid != "" {
        lines := [Line(snap.headOid, "HEAD", "", "")];
      }
    }
  }

  method LsRefs(snap: Snapshot, args: Args) returns (lines: seq<string>)
    requires SortedRefs(snap.refs)
    ensures lines == Response(snap, args)
  {
    hide Filtered, HeadLines, Matches, HasPrefix, Less, RefLine;
    lines := HeadResponse(snap, args);
    ghost var head := lines;
    var refs := snap.refs;
    if |args.prefixes| == 0 {
      for i := 0 to |refs|
        invariant lines == head + RefLines(refs[..i], args.peel)
      {
        lines := lines + [RefLine(refs[i], args.peel)];
      }
      assert refs[..|refs|] == refs;
      return;
    }
    var prefixes := SortedBy(Itself, args.prefixes);
    SortedIs(Itself, args.prefixes);
    var seen: set<string> := {};
    ghost var written: seq<Ref> := [];
    StartsEmpty(refs, prefixes);
    for k := 0 to |prefixes|
      invariant written == Filtered(refs, prefixes[..k])
      invariant lines == head + RefLines(written, args.peel)
      invariant SeenIs(seen, written)
    {
      var p := prefixes[k];
      ghost var before := prefixes[..k];
      assert prefixes[..k + 1] == before + [p];
      var lo := LowerBound(refs, p);
      NoneUnder(refs, p, lo);
      ScanStarts(refs, before, p, lo);
      var i := lo;
      while i < |refs|
        invariant lo <= i <= |refs|
        invariant written == Scanned(refs, before, p, i)
        invariant lines == head + RefLines(written, args.peel)
        invariant SeenIs(seen, written)
      {
        var name := refs[i].name;
        if !HasPrefix(name, p) {
          if Less(p, name) {
            NoneAbove(refs, p, i);
            break;
          }
          ScanPasses(refs, before, p, i);
          i := i + 1;
          continue;
        }
        SeenMeans(refs, before, p, i, seen, written);
        if name in seen {
          ScanPasses(refs, before, p, i);
          i := i + 1;
          continue;
        }
        ScanAdds(refs, before, p, i);
        seen := seen + {name};
        lines := lines + [RefLine(refs[i], args.peel)];
        written := written + [refs[i]];
        i := i + 1;
      }
      ScanEnds(refs, before, p, i);
    }
    assert prefixes[..|prefixes|] == prefixes;
    SameResponse(refs, prefixes, args.prefixes);
  }

  ghost predicate SeenIs(seen: set<string>, written: seq<Ref>) {
    forall name :: name in seen <==> exists r :: r in written && r.name == name
  }

  lemma StartsEmpty(refs: seq<Ref>, prefixes: seq<string>)
    ensures Filtered(refs, prefixes[..0]) == []
  {
    NoneFiltered(refs, prefixes[..0]);
  }

  lemma NoneUnder(refs: seq<Ref>, p: string, lo: nat)
    requires lo <= |refs| && forall i :: 0 <= i < lo ==> Less(refs[i].name, p)
    ensures NoneBefore(refs, p, lo)
  {
    forall k | 0 <= k < lo ensures !HasPrefix(refs[k].name, p) {
      if HasPrefix(refs[k].name, p) { PrefixNotBelow(refs[k].name, p); }
    }
  }

  lemma NoneAbove(refs: seq<Ref>, p: string, i: nat)
    requires SortedRefs(refs) && i < |refs| && !HasPrefix(refs[i].name, p) && Less(p, refs[i].name)
    ensures NoneFrom(refs, p, i)
  {
    forall k | i < k < |refs| ensures !HasPrefix(refs[k].name, p) {
      PrefixedContiguous(p, refs[i].name, refs[k].name);
    }
  }

  /** While the scan stands at a reference that p begins, its name has been seen exactly if it matched before. */
  lemma SeenMeans(refs: seq<Ref>, before: seq<string>, p: string, i: nat, seen: set<string>, written: seq<Ref>)
    requires SortedRefs(refs) && i < |refs| && written == Scanned(refs, before, p, i) && SeenIs(seen, written)
    ensures refs[i].name in seen <==> Matches(refs[i].name, before)
  {
    hide Matches, Less;
    FilteredExactly(refs[..i], before + [p]);
    FilteredExactly(refs[i..], before);
    assert refs[i] == refs[i..][0];
    if refs[i].name in seen {
      var r :| r in written && r.name == refs[i].name;
      OnceNamed(refs, i, r);
    }
  }

  lemma OnceNamed(refs: seq<Ref>, i: nat, r: Ref)
    requires SortedRefs(refs) && i < |refs| && r in refs && r.name == refs[i].name
    ensures r == refs[i] && r !in refs[..i]
  {
    LessIrreflexive(r.name);
    var k :| 0 <= k < |refs| && refs[k] == r;
    forall j | 0 <= j < i ensures refs[..i][j] != r { assert Less(refs[j].name, refs[i].name); }
  }

  lemma SameResponse(refs: seq<Ref>, a: seq<string>, b: seq<string>)
    requires forall q :: q in a <==> q in b
    ensures Filtered(refs, a) == Filtered(refs, b)
  {
    FilteredSame(refs, a, b);
  }

  // ---- what the response means ----

  /** Order and repetition of the prefixes do not matter: the references in the response are exactly those some prefix
      begins, each once, in the order of the snapshot. */
  lemma ResponseIsFilter(snap: Snapshot, args: Args)
    requires SortedRefs(snap.refs) && args.prefixes != []
    ensures var some := Filtered(snap.refs, args.prefixes);
      && Response(snap, args) == HeadLines(snap, args) + RefLines(some, args.peel)
      && SortedRefs(some)
      && (forall r :: r in some <==> r in snap.refs && exists p :: p in args.prefixes && HasPrefix(r.name, p))
  {
    FilteredSorted(snap.refs, args.prefixes);
    FilteredExactly(snap.refs, args.prefixes);
  }

  /** Filtering never hides HEAD from a client that is shown its target: if the reference HEAD points to is in the
      response, HEAD is its first line, with that reference's value. */
  lemma HeadWithTarget(snap: Snapshot, args: Args, i: nat)
    requires SortedRefs(snap.refs) && i < |snap.refs| && snap.refs[i].name == snap.headTarget != "" && snap.refs[i].oid != ""
    requires snap.headOid == "" || snap.headOid == snap.refs[i].oid
    requires args.prefixes == [] || snap.refs[i] in Filtered(snap.refs, args.prefixes)
    ensures Response(snap, args) != []
    ensures Response(snap, args)[0] == Line(snap.refs[i].oid, "HEAD", if args.symrefs then snap.headTarget else "", "")
  {
    NamedFound(snap.refs, i);
    FilteredExactly(snap.refs, args.prefixes);
    if args.prefixes != [] {
      var p :| p in args.prefixes && HasPrefix(snap.headTarget, p);
      assert Covers(p, snap.headTarget);
    }
  }

  /** What HEAD stands at: its own value or, when the snapshot has none, that of the reference it points to. */
  ghost predicate HeadAt(snap: Snapshot, value: string) {
    && value != ""
    && (|| snap.headOid == value
        || (snap.headOid == "" && snap.headTarget != "" && exists r :: r in snap.refs && r.name == snap.headTarget && r.oid == value))
  }

  /** No prefixes, or one that begins "HEAD" or the target. */
  ghost predicate HeadAsked(snap: Snapshot, args: Args) {
    args.prefixes == [] ||
    exists p :: p in args.prefixes && (p <= "HEAD" || (snap.headTarget != "" && p <= snap.headTarget))
  }

  /** The one line for HEAD: its value, or "unborn" for a client that asks for it when the target does not exist; then the
      target for a client that asks for it. */
  lemma HeadExactly(snap: Snapshot, args: Args, line: string)
    requires SortedRefs(snap.refs)
    ensures var target := if args.symrefs && snap.headTarget != "" then " symref-target:" + snap.headTarget else "";
      HeadLines(snap, args) == [line] <==>
        && HeadAsked(snap, args)
        && (|| (exists value :: HeadAt(snap, value) && line == value + " HEAD" + target)
            || ((forall value :: !HeadAt(snap, value)) && args.unborn && snap.headTarget != "" && line == "unborn HEAD" + target))
    ensures |HeadLines(snap, args)| <= 1
  {
    hide HasPrefix, HeadAt;
    AskedIsWanted(snap, args);
    var oid := if snap.headOid == "" && snap.headTarget != "" then OidOf(snap.refs, snap.headTarget) else snap.headOid;
    HeadValue(snap, oid);
    HeadLine(oid, if args.symrefs then snap.headTarget else "");
    HeadLine("unborn", if args.symrefs then snap.headTarget else "");
    assert "unborn" + " HEAD" == "unborn HEAD";
    assert HeadAt(snap, oid) <==> oid != "";
    var target := if args.symrefs && snap.headTarget != "" then " symref-target:" + snap.headTarget else "";
    var shown := if oid != "" then oid + " HEAD" + target else "unborn HEAD" + target;
    assert HeadLines(snap, args) == if HeadAsked(snap, args) && (oid != "" || (args.unborn && snap.headTarget != "")) then [shown] else [];
    assert [shown] == [line] <==> [shown][0] == line;
  }

  lemma HeadLine(oid: string, target: string)
    ensures Line(oid, "HEAD", target, "") == oid + " HEAD" + if target != "" then " symref-target:" + target else ""
  {
    assert oid + " " + "HEAD" == oid + " HEAD" by { assert " " + "HEAD" == " HEAD"; }
  }

  lemma AskedIsWanted(snap: Snapshot, args: Args)
    ensures HeadWanted(snap, args) <==> HeadAsked(snap, args)
  {
    forall p: string, s: string ensures HasPrefix(s, p) <==> p <= s { }
  }

  lemma HeadValue(snap: Snapshot, oid: string)
    requires SortedRefs(snap.refs)
    requires oid == if snap.headOid == "" && snap.headTarget != "" then OidOf(snap.refs, snap.headTarget) else snap.headOid
    ensures forall value :: HeadAt(snap, value) <==> value != "" && value == oid
  {
    if snap.headOid == "" && snap.headTarget != "" {
      if exists r :: r in snap.refs && r.name == snap.headTarget {
        var r :| r in snap.refs && r.name == snap.headTarget;
        var i :| 0 <= i < |snap.refs| && snap.refs[i] == r;
        NamedFound(snap.refs, i);
        forall x | x in snap.refs && x.name == snap.headTarget ensures x == r {
          var j :| 0 <= j < |snap.refs| && snap.refs[j] == x;
          NamedFound(snap.refs, j);
        }
      } else {
        NamedAbsent(snap.refs, snap.headTarget);
      }
    }
  }

  // ---- what a client reads ----

  function AllLined(lines: seq<string>): seq<string> {
    seq(|lines|, i requires 0 <= i < |lines| => Lined(lines[i]))
  }

  /** The words of a reference's line: value, name, and what it peels to if that is asked for. */
  function RefWords(r: Ref, peel: bool): seq<string> {
    [r.oid, r.name] + (if peel && HasPrefix(r.name, "refs/tags/") && r.peeled != "" then ["peeled:" + r.peeled] else [])
  }

  /** Values and names are words: not empty, and without white space. */
  ghost predicate Plain(r: Ref) {
    Word(r.oid) && Word(r.name) && (r.peeled == "" || Word("peeled:" + r.peeled))
  }

  lemma RefLineWords(r: Ref, peel: bool)
    requires Plain(r)
    ensures Fields(Lined(RefLine(r, peel))) == RefWords(r, peel)
  {
    hide Word, Fields, HasPrefix;
    var words := RefWords(r, peel);
    if |words| == 2 {
      JoinedTwo(r.oid, r.name);
      assert RefLine(r, peel) == Joined(words) by { assert r.oid + " " + r.name + "" + "" == r.oid + " " + r.name; }
    } else {
      JoinedThree(r.oid, r.name, "peeled:" + r.peeled);
      assert RefLine(r, peel) == r.oid + " " + r.name + "" + " peeled:" + r.peeled;
      assert " peeled:" + r.peeled == " " + ("peeled:" + r.peeled) by { assert " " + "peeled:" == " peeled:"; }
      assert RefLine(r, peel) == Joined(words);
    }
    LineEndsInWord(words);
    FieldsJoinedLine(words);
  }

  lemma {:induction false} LineEndsInWord(words: seq<string>)
    requires words != [] && forall w :: w in words ==> Word(w)
    ensures !EndsInNewline(Joined(words)) && Joined(words) != ""
  {
    if |words| == 1 {
      WordsHaveNoNewline(words[0]);
    } else {
      LineEndsInWord(words[1..]);
    }
  }

  /** The lines of references are the last of the response. */
  lemma RefLineAt(snap: Snapshot, args: Args, i: nat)
    requires i < |Shown(snap, args)|
    ensures var sent := AllLined(Response(snap, args)); var n := |sent| - |Shown(snap, args)|;
      n >= 0 && sent[n + i] == Lined(RefLine(Shown(snap, args)[i], args.peel)) && Shown(snap, args)[i] in snap.refs
  {
    hide Lined, RefLine, HeadLines, Matches, Filtered;
    FilteredExactly(snap.refs, args.prefixes);
    assert Shown(snap, args)[i] in Shown(snap, args);
  }

  lemma EnoughLines(snap: Snapshot, args: Args)
    ensures |AllLined(Response(snap, args))| >= |Shown(snap, args)|
  {
    hide Lined, RefLine, HeadLines, Filtered;
  }

  /** A client reads back exactly the lines of the response, and of the lines of references exactly their values and
      names and what they peel to. */
  lemma ResponseReadBack(snap: Snapshot, args: Args)
    requires AllFit(AllLined(Response(snap, args))) && forall r :: r in snap.refs ==> Plain(r)
    ensures var refs, sent := Shown(snap, args), AllLined(Response(snap, args));
      var read := PayloadsOf(EncodedPayloads(sent) + "0000");
      && read == Payloads(sent, None, "") && |read.out| >= |refs|
      && forall i :: 0 <= i < |refs| ==> Fields(read.out[|read.out| - |refs| + i]) == RefWords(refs[i], args.peel)
  {
    hide EncodedPayloads, PayloadsOf, Lined, RefLine, Fields, RefWords, Plain, Response, Shown, AllLined;
    var refs, sent := Shown(snap, args), AllLined(Response(snap, args));
    PayloadsRoundTrip(sent, "");
    assert EncodedPayloads(sent) + "0000" + "" == EncodedPayloads(sent) + "0000";
    EnoughLines(snap, args);
    forall i | 0 <= i < |refs| ensures Fields(sent[|sent| - |refs| + i]) == RefWords(refs[i], args.peel) {
      RefLineAt(snap, args, i);
      RefLineWords(refs[i], args.peel);
    }
  }
}
