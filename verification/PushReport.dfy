/** The report a push is answered with, plain or wrapped in side-band frames, and what a client reads from it. */
module PushReport {
  import opened Wrappers
  import opened StringOrder
  import opened PktLine
  import opened PushWire
  import opened Text

  datatype RefReport = RefReport(ref: string, ok: bool, reason: string)

  datatype Report = Report(unpackOK: bool, unpackMsg: string, refs: seq<RefReport>, sideband: bool)

  function UnpackLine(r: Report): string {
    if r.unpackOK then "unpack ok" else "unpack ng " + r.unpackMsg
  }

  function RefLine(ref: RefReport): string {
    if ref.ok then "ok " + ref.ref else "ng " + ref.ref + " " + ref.reason
  }

  function RefLines(refs: seq<RefReport>): seq<string> {
    if refs == [] then [] else RefLines(refs[..|refs| - 1]) + [Lined(RefLine(refs[|refs| - 1]))]
  }

  function Lines(r: Report): seq<string> {
    [Lined(UnpackLine(r))] + RefLines(r.refs)
  }

  /** The report before it is wrapped. */
  function Plain(r: Report): string
    requires AllFit(Lines(r))
  {
    EncodedPayloads(Lines(r)) + "0000"
  }

  function Wire(r: Report): string
    requires AllFit(Lines(r))
  {
    if r.sideband then Banded(BAND1, Plain(r)) + "0000" else Plain(r)
  }

  lemma {:induction false} EncodedInTwo(a: seq<string>, b: seq<string>)
    requires AllFit(a) && AllFit(b)
    ensures AllFit(a + b) && EncodedPayloads(a + b) == EncodedPayloads(a) + EncodedPayloads(b)
  {
    hide DataPkt;
    if a == [] {
      assert a + b == b;
    } else {
      EncodedInTwo(a[1..], b);
      assert (a + b)[1..] == a[1..] + b;
    }
  }

  lemma EncodedOne(p: string)
    requires |p| <= MAX_PAYLOAD
    ensures EncodedPayloads([p]) == DataPkt(p)
  {
    hide DataPkt;
    assert EncodedPayloads([p][1..]) == "";
  }

  lemma {:induction false} RefLinesPrefix(refs: seq<RefReport>, i: nat)
    requires i <= |refs|
    ensures |RefLines(refs)| == |refs| && RefLines(refs)[..i] == RefLines(refs[..i])
  {
    if i < |refs| {
      RefLinesPrefix(refs[..|refs| - 1], i);
      assert refs[..|refs| - 1][..i] == refs[..i];
    } else {
      assert refs[..i] == refs;
      if refs != [] { RefLinesPrefix(refs[..|refs| - 1], 0); }
    }
  }

  /** The report's bytes, or none when the program panics on a line that does not fit. */
  function Rendered(r: Report): Option<string> {
    if AllFit(Lines(r)) then Some(Wire(r)) else None
  }

  /** Writes the report line by line; a line that with its newline is longer than a frame may carry makes it panic, which
      is the outcome None. */
  method EncodeReport(r: Report) returns (out: Option<string>)
    ensures out == Rendered(r)
    ensures out.None? <==> exists line :: line in Lines(r) && |line| > MAX_PAYLOAD
  {
    hide DataPkt, RefLines, Lined, EncodedPayloads;
    var first := Lined(UnpackLine(r));
    assert Lines(r)[0] == first && first in Lines(r);
    if |first| > MAX_PAYLOAD { return None; }
    var inner := DataPkt(first);
    EncodedOne(first);
    NoLines(r.refs);
    assert [first] + [] == [first];
    for i := 0 to |r.refs|
      invariant AllFit([first] + RefLines(r.refs[..i])) && inner == EncodedPayloads([first] + RefLines(r.refs[..i]))
    {
      var line := Lined(RefLine(r.refs[i]));
      LineOf(r.refs, i);
      assert Lines(r)[i + 1] == line && line in Lines(r);
      if |line| > MAX_PAYLOAD { return None; }
      assert [first] + RefLines(r.refs[..i + 1]) == ([first] + RefLines(r.refs[..i])) + [line];
      EncodedOne(line);
      EncodedInTwo([first] + RefLines(r.refs[..i]), [line]);
      inner := inner + DataPkt(line);
    }
    assert r.refs[..|r.refs|] == r.refs;
    inner := inner + "0000";
    if !r.sideband { return Some(inner); }
    var banded := EncodeSideband(BAND1, inner);
    out := Some(banded + "0000");
  }

  // ---- which reports fit ----

  /** The length of a line as it is sent. */
  function SentLength(line: string): nat {
    |line| + if EndsInNewline(line) then 0 else 1
  }

  /** Every report fits exactly when its unpack line and each reference's line do: "ok" takes 3 bytes and a newline beside
      the name, "ng" takes 4 and a newline beside name and reason. */
  lemma FitsExactly(r: Report)
    ensures Rendered(r).Some? <==>
            SentLength(UnpackLine(r)) <= MAX_PAYLOAD && forall ref :: ref in r.refs ==> SentLength(RefLine(ref)) <= MAX_PAYLOAD
  {
    hide RefLines, UnpackLine, RefLine;
    assert Lines(r)[0] == Lined(UnpackLine(r)) && Lined(UnpackLine(r)) in Lines(r);
    forall i | 0 <= i < |r.refs| ensures |RefLines(r.refs)| == |r.refs| && Lines(r)[i + 1] == Lined(RefLine(r.refs[i])) {
      LineOf(r.refs, i);
    }
    NoLines(r.refs);
    RefLinesPrefix(r.refs, |r.refs|);
    if AllFit(Lines(r)) {
      forall ref | ref in r.refs ensures SentLength(RefLine(ref)) <= MAX_PAYLOAD {
        var i :| 0 <= i < |r.refs| && r.refs[i] == ref;
        assert Lines(r)[i + 1] in Lines(r);
      }
    }
    if SentLength(UnpackLine(r)) <= MAX_PAYLOAD && forall ref :: ref in r.refs ==> SentLength(RefLine(ref)) <= MAX_PAYLOAD {
      forall line | line in Lines(r) ensures |line| <= MAX_PAYLOAD {
        var i :| 0 <= i < |Lines(r)| && Lines(r)[i] == line;
        if i > 0 { assert r.refs[i - 1] in r.refs; }
      }
    }
  }

  /** So a bound a caller can keep: a failure message of at most 65,505 bytes, and names and reasons of at most 65,511
      together. */
  lemma ShortReportsFit(r: Report)
    requires r.unpackOK || |r.unpackMsg| <= 65_505
    requires forall ref :: ref in r.refs ==> |ref.ref| + |ref.reason| <= 65_511
    ensures Rendered(r).Some?
  {
    FitsExactly(r);
  }

  const MANAGED_PREFIX := "refs/pull/"
  const MANAGED_REASON := "rejected by rule 'pull-refs-managed'"

  /** The name of the given length that is only letters after its prefix. */
  function LongName(n: nat): string {
    MANAGED_PREFIX + seq(n, _ => 'a')
  }

  lemma NoPair(s: string, pair: string)
    requires |pair| == 2 && forall i :: 0 <= i < |s| - 1 ==> s[i] != pair[0] || s[i + 1] != pair[1]
    ensures !Contains(s, pair)
  {
    hide HasPrefix, Contains;
    if Contains(s, pair) { var i := ContainsPair(s, pair); }
  }

  /** A letter or a slash, and no slash follows another. */
  predicate Tame(s: string) {
    && (forall i :: 0 <= i < |s| ==> 'a' <= s[i] <= 'z' || s[i] == '/')
    && (forall i :: 0 <= i < |s| - 1 ==> s[i] != '/' || s[i + 1] != '/')
  }

  lemma TameIsGood(name: string)
    requires Tame(name) && |name| > 5 && name[..5] == "refs/" && name[|name| - 1] == 'a'
    ensures ValidRefName(name) && Word(name)
  {
    hide Contains;
    PlainHasNoSpace(name);
    NoPair(name, "..");
    NoPair(name, "@{");
    NoPair(name, "//");
    assert name[..1][0] == name[..5][0] == 'r' && "/"[0] == '/';
    var last := |name| - 1;
    assert name[last..][0] == 'a' && "/"[0] != 'a' && "."[0] != 'a';
    NotLock(name);
  }

  lemma LongNameIsGood(n: nat)
    requires n > 0
    ensures ValidRefName(LongName(n)) && Word(LongName(n)) && |LongName(n)| == 10 + n && LongName(n)[..10] == MANAGED_PREFIX
  {
    hide ValidRefName, Word;
    var name := LongName(n);
    forall i | 0 <= i < |name| ensures name[i] == (if i < 10 then MANAGED_PREFIX[i] else 'a') { }
    PrefixIsTame();
    assert name[..5] == MANAGED_PREFIX[..5] == "refs/";
    TameIsGood(name);
  }

  lemma PrefixIsTame()
    ensures Tame(MANAGED_PREFIX) && |MANAGED_PREFIX| == 10 && MANAGED_PREFIX[..5] == "refs/"
  {
  }

  lemma NotLock(name: string)
    requires name != "" && name[|name| - 1] == 'a'
    ensures !HasSuffix(name, ".lock")
  {
    if |name| >= 5 { assert name[|name| - 5..][4] == 'a' && ".lock"[4] == 'k'; }
  }

  /** The limit is not only the caller's to keep: a push is parsed whose references' names leave no room for the answer.
      Here a push to one managed reference, with a name of 65,500 bytes; it is refused for being managed, and the report
      that says so makes the program panic. */
  lemma ParsedPushPanicsReport(pack: string, sideband: bool, format: string)
    ensures var ref := LongName(65_490);
      var req := Request([Command("0", "0", ref)], [], [], pack, "");
      && AllFit(CommandLines(req.commands, req.capsRaw, false)) && AllFit(OptionLines(req.options, false))
      && ParsedPush(Sent(req, false), format) == Ok(req)
      && HasPrefix(ref, MANAGED_PREFIX)
      && Rendered(Report(true, "", [RefReport(ref, false, MANAGED_REASON)], sideband)).None?
  {
    hide ParsedPush, ValidRefName, NoSpace, Fields, Sent;
    var ref := LongName(65_490);
    LongNameIsGood(65_490);
    var c := Command("0", "0", ref);
    var req := Request([c], [], [], pack, "");
    ZeroIsWord();
    NoFields();
    assert CommandLines([c], "", false) == [CommandText(c) + ([NUL] + "") + ""];
    assert OptionLines([], false) == [];
    assert CommandOK(c) && FormatAgrees([], format);
    PushRoundTrip(req, false, format);
    var r := Report(true, "", [RefReport(ref, false, MANAGED_REASON)], sideband);
    FitsExactly(r);
    assert r.refs[0] in r.refs && |MANAGED_REASON| == 36;
  }

  lemma ZeroIsWord()
    ensures Word("0") && NUL !in "0"
  {
    PlainHasNoSpace("0");
  }

  lemma NoFields()
    ensures Fields("") == []
  {
  }

  lemma NoLines(refs: seq<RefReport>)
    ensures RefLines(refs[..0]) == []
  {
  }

  lemma LineOf(refs: seq<RefReport>, i: nat)
    requires i < |refs|
    ensures |RefLines(refs)| == |refs| && RefLines(refs)[i] == Lined(RefLine(refs[i]))
    ensures RefLines(refs[..i + 1]) == RefLines(refs[..i]) + [Lined(RefLine(refs[i]))]
  {
    hide Lined, RefLine;
    RefLinesPrefix(refs, i + 1);
    var some := refs[..i + 1];
    assert some[..i] == refs[..i] && some[i] == refs[i];
    assert RefLines(some) == RefLines(some[..i]) + [Lined(RefLine(some[i]))];
    RefLinesPrefix(refs[..i], i);
    assert RefLines(refs)[i] == RefLines(refs)[..i + 1][i];
  }

  // ---- what a client reads ----

  datatype Verdict = Accepted | Refused(reason: string)

  /** What the client is told: of the unpacking, and of each reference. */
  datatype Told = Told(unpack: Verdict, refs: seq<(string, Verdict)>)

  function Chomped(s: string): string {
    if EndsInNewline(s) then s[..|s| - 1] else s
  }

  function UpToSpace(s: string): nat {
    if s == "" || s[0] == ' ' then 0 else 1 + UpToSpace(s[1..])
  }

  function ReadUnpack(line: string): Option<Verdict> {
    if !HasPrefix(line, "unpack ") then None
    else Some(if line[7..] == "ok" then Accepted else Refused(line[7..]))
  }

  lemma UpToSpaceFits(s: string)
    ensures UpToSpace(s) <= |s|
  {
  }

  function ReadRef(line: string): Option<(string, Verdict)> {
    if HasPrefix(line, "ok ") then Some((line[3..], Accepted))
    else if HasPrefix(line, "ng ") then
      var n := (UpToSpaceFits(line[3..]); UpToSpace(line[3..]));
      if n == |line[3..]| then None else Some((line[3..][..n], Refused(line[3..][n + 1..])))
    else None
  }

  function ReadRefs(lines: seq<string>): Option<seq<(string, Verdict)>> {
    if lines == [] then Some([])
    else
      var most, last := ReadRefs(lines[..|lines| - 1]), ReadRef(Chomped(lines[|lines| - 1]));
      if most.None? || last.None? then None else Some(most.value + [last.value])
  }

  /** A report as section "Report Status" of gitprotocol-pack(5) has it: payloads up to a flush, the first about
      unpacking, the others one per reference. */
  function ReadReport(s: string): Option<Told> {
    var p := PayloadsOf(s);
    if p.error.Some? || p.out == [] then None
    else
      var unpack, refs := ReadUnpack(Chomped(p.out[0])), ReadRefs(p.out[1..]);
      if unpack.None? || refs.None? then None else Some(Told(unpack.value, refs.value))
  }

  /** What the server meant. */
  function Meant(ref: RefReport): (string, Verdict) {
    (ref.ref, if ref.ok then Accepted else Refused(ref.reason))
  }

  function AllMeant(refs: seq<RefReport>): seq<(string, Verdict)> {
    seq(|refs|, i requires 0 <= i < |refs| => Meant(refs[i]))
  }

  /** No message or name ends a line with a newline of its own, and names have no spaces. */
  predicate Readable(r: Report) {
    && (!r.unpackOK ==> !EndsInNewline(r.unpackMsg))
    && forall ref :: ref in r.refs ==> ReadableRef(ref)
  }

  predicate ReadableRef(ref: RefReport) {
    ' ' !in ref.ref && ref.ref != "" && (if ref.ok then !EndsInNewline(ref.ref) else !EndsInNewline(ref.reason))
  }

  lemma ChompedLined(s: string)
    requires !EndsInNewline(s)
    ensures Chomped(Lined(s)) == s
  {
    assert (s + "\n")[|s|..] == "\n" && (s + "\n")[..|s|] == s;
  }

  lemma {:induction false} UpToSpaceOf(a: string, b: string)
    requires ' ' !in a
    ensures UpToSpace(a + " " + b) == |a|
  {
    if a != "" {
      UpToSpaceOf(a[1..], b);
      assert (a + " " + b)[1..] == a[1..] + " " + b;
    }
  }

  lemma NoNewlineAfter(a: string, b: string)
    requires !EndsInNewline(b) && (b == "" ==> !EndsInNewline(a))
    ensures !EndsInNewline(a + b)
  {
    if b == "" { assert a + b == a; }
  }

  lemma OkRead(ref: string)
    ensures ReadRef("ok " + ref) == Some((ref, Accepted))
  {
    var line := "ok " + ref;
    assert line[..3] == "ok " && line[3..] == ref;
  }

  lemma NgRead(ref: string, reason: string)
    requires ' ' !in ref
    ensures ReadRef("ng " + ref + " " + reason) == Some((ref, Refused(reason)))
  {
    var line, after := "ng " + ref + " " + reason, ref + " " + reason;
    assert line[..3] == "ng " && line[3..] == after;
    assert "ok "[0] != line[..3][0];
    UpToSpaceOf(ref, reason);
    assert after[..|ref|] == ref && after[|ref| + 1..] == reason;
  }

  lemma RefLineRead(ref: RefReport)
    requires ReadableRef(ref)
    ensures ReadRef(Chomped(Lined(RefLine(ref)))) == Some(Meant(ref))
  {
    hide ReadRef, Lined, Chomped;
    if ref.ok {
      NoNewlineAfter("ok ", ref.ref);
      OkRead(ref.ref);
    } else {
      NoNewlineAfter("ng " + ref.ref + " ", ref.reason);
      NgRead(ref.ref, ref.reason);
    }
    ChompedLined(RefLine(ref));
  }

  lemma UnpackLineRead(r: Report)
    requires Readable(r)
    ensures ReadUnpack(Chomped(Lined(UnpackLine(r)))) == Some(if r.unpackOK then Accepted else Refused("ng " + r.unpackMsg))
  {
    var line := UnpackLine(r);
    if r.unpackOK {
      assert line[..7] == "unpack " && line[7..] == "ok";
    } else {
      NoNewlineAfter("unpack ng ", r.unpackMsg);
      assert line[..7] == "unpack " && line[7..] == "ng " + r.unpackMsg;
      assert line[7..][0] == 'n' && "ok"[0] == 'o';
    }
    ChompedLined(line);
  }

  lemma {:induction false} RefLinesRead(refs: seq<RefReport>)
    requires forall i :: 0 <= i < |refs| ==> ReadableRef(refs[i])
    ensures ReadRefs(RefLines(refs)) == Some(AllMeant(refs))
  {
    hide ReadRef, RefLine, Lined, Chomped, Meant, ReadableRef;
    if refs != [] {
      var rest, last := refs[..|refs| - 1], refs[|refs| - 1];
      RefLinesRead(rest);
      RefLineRead(last);
      assert RefLines(refs)[..|RefLines(rest)|] == RefLines(rest);
      assert AllMeant(refs) == AllMeant(rest) + [Meant(last)];
    }
  }

  lemma PlainRead(r: Report, tail: string)
    requires AllFit(Lines(r)) && Readable(r)
    ensures ReadReport(Plain(r) + tail) ==
            Some(Told(if r.unpackOK then Accepted else Refused("ng " + r.unpackMsg), AllMeant(r.refs)))
  {
    hide EncodedPayloads, PayloadsOf, ReadUnpack, ReadRefs, RefLines, UnpackLine, Lined, Chomped, ReadableRef;
    PayloadsRoundTrip(Lines(r), tail);
    UnpackLineRead(r);
    forall i | 0 <= i < |r.refs| ensures ReadableRef(r.refs[i]) { assert r.refs[i] in r.refs; }
    RefLinesRead(r.refs);
    assert Lines(r)[1..] == RefLines(r.refs);
  }

  /** Whatever the server decided, if the report can be written at all the client learns exactly that: with side bands,
      from band 1, while messages sent on band 2 before the report arrive as messages; without, directly. A failed
      unpacking reads "ng" and the message. */
  lemma ReportRoundTrip(r: Report, messages: string)
    requires Readable(r)
    ensures var told := Some(Told(if r.unpackOK then Accepted else Refused("ng " + r.unpackMsg), AllMeant(r.refs)));
      match Rendered(r)
      case None => exists line :: line in Lines(r) && |line| > MAX_PAYLOAD
      case Some(wire) =>
        if r.sideband then
          var bands := Unbanded(Banded(BAND2, messages) + wire);
          bands.error == None && bands.messages == messages && ReadReport(bands.payload) == told
        else ReadReport(wire) == told
  {
    hide Plain, ReadReport, Unbanded, Banded, AllMeant, Lines;
    if AllFit(Lines(r)) {
      PlainRead(r, "");
      assert Plain(r) + "" == Plain(r);
      UnbandedEnds();
      UnbandedBanded(BAND1, Plain(r), "0000");
      UnbandedBanded(BAND2, messages, Wire(r));
      assert Plain(r) + "" == Plain(r) && messages + "" == messages;
    }
  }
}
