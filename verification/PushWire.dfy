/** The receive-pack request and its report: commands, capabilities and options in, one line per reference out. */
module PushWire {
  import opened Wrappers
  import opened StringOrder
  import opened PktLine
  import opened Text

  // ---- the first line ----

  const NUL: char := '\0'

  function BeforeNul(s: string): string {
    s[..IndexOf(s, NUL)]
  }

  function AfterNul(s: string): string {
    var n := IndexOf(s, NUL);
    if n < |s| then s[n + 1..] else ""
  }

  function TrimNewlines(s: string): string {
    if s != "" && s[|s| - 1] == '\n' then TrimNewlines(s[..|s| - 1]) else s
  }

  // ---- reference names ----

  predicate BadByte(c: char) {
    c == ' ' || c == '~' || c == '^' || c == ':' || c == '?' || c == '*' || c == '[' || c == '\\' || c == 0x7F as char
    || c < 0x20 as char
  }

  predicate ValidRefName(name: string) {
    name == "HEAD" ||
    (&& HasPrefix(name, "refs/")
     && (forall i :: 0 <= i < |name| ==> !BadByte(name[i]))
     && !Contains(name, "..") && !Contains(name, "@{") && !Contains(name, "//")
     && !HasPrefix(name, "/") && !HasSuffix(name, "/") && !HasSuffix(name, ".") && !HasSuffix(name, ".lock"))
  }

  // ---- the request ----

  datatype Command = Command(old_: string, new_: string, ref: string)

  datatype Request = Request(commands: seq<Command>, caps: seq<string>, options: seq<string>, pack: string, capsRaw: string)

  datatype PushError = Protocol | InvalidRef

  datatype Parsed = Parsed(req: Request, rest: string)

  const NO_REQUEST := Request([], [], [], "", "")

  const OBJECT_FORMAT := "object-format="

  predicate FormatAgrees(caps: seq<string>, format: string) {
    forall c :: c in caps && HasPrefix(c, "object-format=") ==> c[|"object-format="|..] == format
  }

  method CheckObjectFormat(caps: seq<string>, format: string) returns (ok: bool)
    ensures ok <==> FormatAgrees(caps, format)
  {
    for i := 0 to |caps|
      invariant forall j :: 0 <= j < i && HasPrefix(caps[j], OBJECT_FORMAT) ==> caps[j][|OBJECT_FORMAT|..] == format
    {
      if HasPrefix(caps[i], OBJECT_FORMAT) && caps[i][|OBJECT_FORMAT|..] != format { return false; }
    }
    ok := true;
  }

  function ParsedCommand(text: string): Result<Command, PushError> {
    var fields := Fields(text);
    if |fields| != 3 then Err(Protocol)
    else if !ValidRefName(fields[2]) then Err(InvalidRef)
    else Ok(Command(fields[0], fields[1], fields[2]))
  }

  /** The request after one command line. The first brings the capabilities. */
  function WithLine(req: Request, first: bool, payload: string, format: string): Result<Request, PushError> {
    var raw := TrimNewlines(AfterNul(payload));
    var started := if first then req.(capsRaw := raw, caps := Fields(raw)) else req;
    if first && !FormatAgrees(started.caps, format) then Err(Protocol)
    else
      match ParsedCommand(TrimNewlines(BeforeNul(payload)))
      case Ok(c) => Ok(started.(commands := started.commands + [c]))
      case Err(e) => Err(e)
  }

  /** Command lines up to a flush. */
  function Commands(s: string, req: Request, first: bool, format: string): Result<Parsed, PushError>
    decreases |s|
  {
    DecodedShrinks(s);
    var r := Decoded(s);
    match r.outcome
    case Got(f) =>
      if f.kind.Flush? then Ok(Parsed(req, r.rest))
      else if !f.kind.Data? || f.payload == "" then Commands(r.rest, req, first, format)
      else
        (match WithLine(req, first, f.payload, format)
         case Ok(next) => Commands(r.rest, next, false, format)
         case Err(e) => Err(e))
    case _ => Err(Protocol)
  }

  /** Option lines up to a flush. */
  function Options(s: string, req: Request): Result<Parsed, PushError>
    decreases |s|
  {
    DecodedShrinks(s);
    var r := Decoded(s);
    match r.outcome
    case Got(f) =>
      if f.kind.Flush? then Ok(Parsed(req, r.rest))
      else Options(r.rest, if f.kind.Data? then req.(options := req.options + [TrimNewlines(f.payload)]) else req)
    case _ => Err(Protocol)
  }

  const PUSH_OPTIONS := "push-options"

  function ParsedPush(s: string, format: string): Result<Request, PushError> {
    match Commands(s, NO_REQUEST, true, format)
    case Err(e) => Err(e)
    case Ok(p) =>
      if PUSH_OPTIONS !in p.req.caps then Ok(p.req.(pack := p.rest))
      else
        match Options(p.rest, p.req)
        case Err(e) => Err(e)
        case Ok(q) => Ok(q.req.(pack := q.rest))
  }

  method ParsePushCommands(pr: PktReader, format: string) returns (out: Result<Request, PushError>)
    modifies pr
    ensures match Commands(old(pr.rest), NO_REQUEST, true, format)
            case Err(e) => out == Err(e)
            case Ok(p) =>
              if PUSH_OPTIONS !in p.req.caps then out == Ok(p.req) && pr.rest == p.rest
              else
                match Options(p.rest, p.req)
                case Err(e) => out == Err(e)
                case Ok(q) => out == Ok(q.req) && pr.rest == q.rest
  {
    hide Decoded, Fields, TrimNewlines, ValidRefName, FormatAgrees;
    var req, first := NO_REQUEST, true;
    while true
      invariant Commands(pr.rest, req, first, format) == Commands(old(pr.rest), NO_REQUEST, true, format)
      decreases |pr.rest|
    {
      DecodedShrinks(pr.rest);
      var next := pr.Next();
      if !next.Got? { return Err(Protocol); }
      var f := next.frame;
      if f.kind.Flush? { break; }
      if !f.kind.Data? || f.payload == "" { continue; }
      var text := TrimNewlines(BeforeNul(f.payload));
      if first {
        req := req.(capsRaw := TrimNewlines(AfterNul(f.payload)));
        req := req.(caps := Fields(req.capsRaw));
        var ok := CheckObjectFormat(req.caps, format);
        if !ok { return Err(Protocol); }
        first := false;
      }
      var fields := Fields(text);
      if |fields| != 3 { return Err(Protocol); }
      if !ValidRefName(fields[2]) { return Err(InvalidRef); }
      req := req.(commands := req.commands + [Command(fields[0], fields[1], fields[2])]);
    }
    if PUSH_OPTIONS in req.caps {
      ghost var p := Parsed(req, pr.rest);
      while true
        invariant Options(pr.rest, req) == Options(p.rest, p.req)
        decreases |pr.rest|
      {
        DecodedShrinks(pr.rest);
        var next := pr.Next();
        if !next.Got? { return Err(Protocol); }
        if next.frame.kind.Flush? { break; }
        if next.frame.kind.Data? { req := req.(options := req.options + [TrimNewlines(next.frame.payload)]); }
      }
    }
    out := Ok(req);
  }

  method ParsePushRequest(body: string, format: string) returns (out: Result<Request, PushError>)
    ensures out == ParsedPush(body, format)
  {
    hide Commands, Options;
    var pr := new PktReader(body);
    out := ParsePushCommands(pr, format);
    if out.Ok? { out := Ok(out.value.(pack := pr.rest)); }
  }

  // ---- what a client sends ----

  function CommandText(c: Command): string {
    c.old_ + " " + c.new_ + " " + c.ref
  }

  /** The payload of each command line: the first carries the capabilities after a NUL; clients may end lines with a
      newline or not. */
  function CommandLines(commands: seq<Command>, capsRaw: string, newline: bool): seq<string> {
    var end := if newline then "\n" else "";
    seq(|commands|, i requires 0 <= i < |commands| =>
      CommandText(commands[i]) + (if i == 0 then [NUL] + capsRaw else "") + end)
  }

  function OptionLines(options: seq<string>, newline: bool): seq<string> {
    seq(|options|, i requires 0 <= i < |options| => options[i] + (if newline then "\n" else ""))
  }

  /** The request as section "Reference Update Request and Packfile Transfer" of gitprotocol-pack(5) has it. */
  function Sent(req: Request, newline: bool): string
    requires AllFit(CommandLines(req.commands, req.capsRaw, newline)) && AllFit(OptionLines(req.options, newline))
  {
    EncodedPayloads(CommandLines(req.commands, req.capsRaw, newline)) + "0000"
    + (if "push-options" in req.caps then EncodedPayloads(OptionLines(req.options, newline)) + "0000" else "")
    + req.pack
  }

  predicate CommandOK(c: Command) {
    Word(c.old_) && Word(c.new_) && Word(c.ref) && ValidRefName(c.ref) && NUL !in c.old_ && NUL !in c.new_
  }

  /** What a client may ask: at least one command, with names that are valid and free of white space, capabilities
      that are those of its raw capability list, and options only if it announces them. */
  predicate Proper(req: Request, format: string) {
    && req.commands != [] && (forall c :: c in req.commands ==> CommandOK(c))
    && req.caps == Fields(req.capsRaw) && !EndsInNewline(req.capsRaw) && FormatAgrees(req.caps, format)
    && ("push-options" !in req.caps ==> req.options == [])
    && forall o :: o in req.options ==> !EndsInNewline(o)
  }

  // ---- the request arrives as it was sent ----

  lemma TrimOne(s: string, newline: bool)
    requires !EndsInNewline(s)
    ensures TrimNewlines(s + if newline then "\n" else "") == s
  {
    if newline { assert (s + "\n")[..|s|] == s; } else { assert s + "" == s; }
  }

  lemma SplitAtNul(a: string, b: string)
    requires NUL !in a
    ensures BeforeNul(a + [NUL] + b) == a && AfterNul(a + [NUL] + b) == b
    ensures BeforeNul(a) == a && AfterNul(a) == ""
  {
    IndexAfter(a, NUL, b);
    IndexAbsent(a, NUL);
    var s := a + [NUL] + b;
    assert s[..|a|] == a && s[|a| + 1..] == b && a[..|a|] == a;
  }

  lemma CommandFields(c: Command)
    requires Word(c.old_) && Word(c.new_) && Word(c.ref)
    ensures Fields(CommandText(c)) == [c.old_, c.new_, c.ref]
  {
    hide Word, Fields;
    var words := [c.old_, c.new_, c.ref];
    JoinedThree(c.old_, c.new_, c.ref);
    FieldsJoined(words);
  }

  lemma CommandTextPlain(c: Command)
    requires CommandOK(c)
    ensures NUL !in CommandText(c) && !EndsInNewline(CommandText(c)) && CommandText(c) != ""
  {
    WordsHaveNoNewline(c.ref);
    assert CommandText(c)[|CommandText(c)| - 1] == c.ref[|c.ref| - 1];
    ValidHasNoNul(c.ref);
  }

  lemma ValidHasNoNul(name: string)
    requires ValidRefName(name)
    ensures NUL !in name
  {
  }

  /** A command line is read back as the command, exactly when the name is valid and has no white space. */
  lemma CommandReadsBack(c: Command)
    requires Word(c.old_) && Word(c.new_)
    ensures ParsedCommand(CommandText(c)) == Ok(c) <==> ValidRefName(c.ref) && Word(c.ref)
  {
    hide Fields, Word, ValidRefName;
    if Word(c.ref) {
      CommandFields(c);
    } else {
      FieldsAreWords(CommandText(c));
    }
  }

  /** The validity rule alone does not see to that: it admits names with a no-break space, and a push to one is
      refused as a malformed command. */
  lemma ValidNameWithSpace(old_: string, new_: string)
    requires Word(old_) && Word(new_)
    ensures var ref := "refs/" + [0xC2 as char, 0xA0 as char];
      ValidRefName(ref) && ParsedCommand(CommandText(Command(old_, new_, ref))) != Ok(Command(old_, new_, ref))
  {
    var ref := "refs/" + [0xC2 as char, 0xA0 as char];
    assert SpaceWidth(ref[5..]) == 2;
    assert !NoSpace(ref);
    CommandReadsBack(Command(old_, new_, ref));
    NoBreakNameValid();
  }

  lemma ContainsPair(s: string, pair: string) returns (i: nat)
    requires |pair| == 2 && Contains(s, pair)
    ensures i + 1 < |s| && s[i] == pair[0] && s[i + 1] == pair[1]
  {
    i :| 0 <= i <= |s| - |pair| && HasPrefix(s[i..], pair);
    assert s[i..][0] == s[i] && s[i..][1] == s[i + 1];
    assert s[i..][..2] == pair;
    assert pair[0] == s[i..][..2][0] && pair[1] == s[i..][..2][1];
  }

  lemma NoBreakNameValid()
    ensures ValidRefName("refs/" + [0xC2 as char, 0xA0 as char])
  {
    var ref := "refs/" + [0xC2 as char, 0xA0 as char];
    assert ref[..5] == "refs/" && ref[6] == 0xA0 as char && |ref| == 7;
    if Contains(ref, "..") { var i := ContainsPair(ref, ".."); }
    if Contains(ref, "@{") { var i := ContainsPair(ref, "@{"); }
    if Contains(ref, "//") { var i := ContainsPair(ref, "//"); }
    assert ref[..1][0] == 'r' && "/"[0] == '/';
    assert ref[6..][0] == ref[2..][4] == ref[6];
    assert "/"[0] != ref[6] && "."[0] != ref[6] && ".lock"[4] != ref[6];
  }

  lemma FirstLineRead(req: Request, c: Command, capsRaw: string, newline: bool, format: string)
    requires CommandOK(c) && !EndsInNewline(capsRaw) && FormatAgrees(Fields(capsRaw), format)
    ensures WithLine(req, true, CommandText(c) + ([NUL] + capsRaw) + (if newline then "\n" else ""), format) ==
            Ok(req.(capsRaw := capsRaw, caps := Fields(capsRaw), commands := req.commands + [c]))
  {
    hide Fields, Word, ValidRefName, CommandText, FormatAgrees, BeforeNul, AfterNul, TrimNewlines, ParsedCommand;
    var end := if newline then "\n" else "";
    CommandTextPlain(c);
    CommandReadsBack(c);
    assert CommandText(c) + ([NUL] + capsRaw) + end == CommandText(c) + [NUL] + (capsRaw + end);
    SplitAtNul(CommandText(c), capsRaw + end);
    TrimOne(capsRaw, newline);
    TrimOne(CommandText(c), false);
    assert CommandText(c) + "" == CommandText(c);
  }

  lemma OtherLineRead(req: Request, c: Command, newline: bool, format: string)
    requires CommandOK(c)
    ensures WithLine(req, false, CommandText(c) + "" + (if newline then "\n" else ""), format) ==
            Ok(req.(commands := req.commands + [c]))
  {
    hide Fields, Word, ValidRefName, CommandText, BeforeNul, AfterNul, TrimNewlines, ParsedCommand;
    var end := if newline then "\n" else "";
    CommandTextPlain(c);
    CommandReadsBack(c);
    assert CommandText(c) + "" + end == CommandText(c) + end;
    SplitAtNul(CommandText(c) + end, "");
    TrimOne(CommandText(c), newline);
  }

  lemma FirstOfLines(lines: seq<string>, tail: string)
    requires AllFit(lines) && lines != []
    ensures EncodedPayloads(lines) + "0000" + tail == DataPkt(lines[0]) + (EncodedPayloads(lines[1..]) + "0000" + tail)
  {
    hide DataPkt;
  }

  lemma NoLines(lines: seq<string>, tail: string)
    requires lines == []
    ensures EncodedPayloads(lines) + "0000" + tail == "0000" + tail
  {
    assert "" + "0000" == "0000";
  }

  /** The lines carry these commands. */
  predicate LinesOf(lines: seq<string>, commands: seq<Command>, newline: bool) {
    && |lines| == |commands|
    && forall i :: 0 <= i < |lines| ==> CommandOK(commands[i]) && lines[i] == CommandText(commands[i]) + "" + (if newline then "\n" else "")
  }

  lemma LinesOfRest(lines: seq<string>, commands: seq<Command>, newline: bool)
    requires LinesOf(lines, commands, newline) && lines != []
    ensures LinesOf(lines[1..], commands[1..], newline)
  {
    hide CommandOK, CommandText;
    forall i | 0 <= i < |lines| - 1
      ensures CommandOK(commands[1..][i]) && lines[1..][i] == CommandText(commands[1..][i]) + "" + (if newline then "\n" else "")
    {
      assert commands[1..][i] == commands[i + 1] && lines[1..][i] == lines[i + 1];
    }
  }

  /** Lines of commands after the first, and their flush, add those commands. */
  lemma {:induction false} OtherLinesRead(req: Request, commands: seq<Command>, lines: seq<string>, newline: bool, tail: string, format: string)
    requires AllFit(lines) && LinesOf(lines, commands, newline)
    ensures Commands(EncodedPayloads(lines) + "0000" + tail, req, false, format) ==
            Ok(Parsed(req.(commands := req.commands + commands), tail))
    decreases |lines|
  {
    hide DataPkt, CommandOK, CommandText, WithLine, EncodedPayloads, Commands;
    if lines == [] {
      NoLines(lines, tail);
      FlushEndsCommands(req, false, tail, format);
      assert req.commands + commands == req.commands;
    } else {
      var next := req.(commands := req.commands + [commands[0]]);
      FirstOfLines(lines, tail);
      OtherLineRead(req, commands[0], newline, format);
      NotEmptyLine(commands[0], lines[0]);
      LineThenMore(req, next, false, lines[0], EncodedPayloads(lines[1..]) + "0000" + tail, format);
      LinesOfRest(lines, commands, newline);
      OtherLinesRead(next, commands[1..], lines[1..], newline, tail, format);
      assert next.commands + commands[1..] == req.commands + commands;
    }
  }

  lemma NotEmptyLine(c: Command, line: string)
    requires |line| >= |CommandText(c)|
    ensures line != ""
  {
  }

  lemma FlushEndsCommands(req: Request, first: bool, tail: string, format: string)
    ensures Commands("0000" + tail, req, first, format) == Ok(Parsed(req, tail))
  {
    hide Decoded, WithLine;
    DecodedEncoded(Frame(Flush, ""), tail);
  }

  lemma LineThenMore(req: Request, next: Request, first: bool, line: string, rest: string, format: string)
    requires |line| <= MAX_PAYLOAD && line != "" && WithLine(req, first, line, format) == Ok(next)
    ensures Commands(DataPkt(line) + rest, req, first, format) == Commands(rest, next, false, format)
  {
    hide Decoded, WithLine, DataPkt;
    DecodedEncoded(Frame(Data, line), rest);
  }

  predicate OptionsOf(lines: seq<string>, options: seq<string>, newline: bool) {
    && |lines| == |options|
    && forall i :: 0 <= i < |lines| ==> !EndsInNewline(options[i]) && lines[i] == options[i] + (if newline then "\n" else "")
  }

  lemma {:induction false} OptionLinesRead(req: Request, options: seq<string>, lines: seq<string>, newline: bool, tail: string)
    requires AllFit(lines) && OptionsOf(lines, options, newline)
    ensures Options(EncodedPayloads(lines) + "0000" + tail, req) == Ok(Parsed(req.(options := req.options + options), tail))
    decreases |lines|
  {
    hide DataPkt, TrimNewlines, EndsInNewline, EncodedPayloads, Options;
    if lines == [] {
      NoLines(lines, tail);
      FlushEndsOptions(req, tail);
      assert req.options + options == req.options;
    } else {
      var next := req.(options := req.options + [options[0]]);
      FirstOfLines(lines, tail);
      TrimOne(options[0], newline);
      OptionThenMore(req, lines[0], EncodedPayloads(lines[1..]) + "0000" + tail);
      OptionLinesRead(next, options[1..], lines[1..], newline, tail);
      assert next.options + options[1..] == req.options + options;
    }
  }

  lemma FlushEndsOptions(req: Request, tail: string)
    ensures Options("0000" + tail, req) == Ok(Parsed(req, tail))
  {
    hide Decoded;
    DecodedEncoded(Frame(Flush, ""), tail);
  }

  lemma OptionThenMore(req: Request, line: string, rest: string)
    requires |line| <= MAX_PAYLOAD
    ensures Options(DataPkt(line) + rest, req) == Options(rest, req.(options := req.options + [TrimNewlines(line)]))
  {
    hide Decoded, DataPkt, TrimNewlines;
    DecodedEncoded(Frame(Data, line), rest);
  }

  lemma CommandLinesRead(req: Request, newline: bool, tail: string, format: string)
    requires Proper(req, format) && AllFit(CommandLines(req.commands, req.capsRaw, newline))
    ensures Commands(EncodedPayloads(CommandLines(req.commands, req.capsRaw, newline)) + "0000" + tail, NO_REQUEST, true, format) ==
            Ok(Parsed(Request(req.commands, req.caps, [], "", req.capsRaw), tail))
  {
    hide DataPkt, CommandOK, CommandText, WithLine, Fields, FormatAgrees, EncodedPayloads, Commands, LinesOf;
    var lines, c := CommandLines(req.commands, req.capsRaw, newline), req.commands[0];
    FirstOfLines(lines, tail);
    assert c in req.commands;
    FirstLineRead(NO_REQUEST, c, req.capsRaw, newline, format);
    var next := Request([] + [c], req.caps, [], "", req.capsRaw);
    NotEmptyLine(c, lines[0]);
    LineThenMore(NO_REQUEST, next, true, lines[0], EncodedPayloads(lines[1..]) + "0000" + tail, format);
    OtherLines(req.commands, req.capsRaw, newline);
    OtherLinesRead(next, req.commands[1..], lines[1..], newline, tail, format);
    assert [] + [c] + req.commands[1..] == req.commands;
  }

  lemma OtherLines(commands: seq<Command>, capsRaw: string, newline: bool)
    requires commands != [] && forall c :: c in commands ==> CommandOK(c)
    ensures LinesOf(CommandLines(commands, capsRaw, newline)[1..], commands[1..], newline)
  {
    hide CommandOK, CommandText;
    forall i | 0 <= i < |commands| - 1 ensures CommandOK(commands[1..][i]) { assert commands[1..][i] in commands; }
  }

  /** A request as a client sends it parses back to the same commands, capabilities and options, and leaves exactly
      the pack. */
  lemma PushRoundTrip(req: Request, newline: bool, format: string)
    requires Proper(req, format)
    requires AllFit(CommandLines(req.commands, req.capsRaw, newline)) && AllFit(OptionLines(req.options, newline))
    ensures ParsedPush(Sent(req, newline), format) == Ok(req)
  {
    hide Commands, Options, EncodedPayloads, CommandLines, CommandOK, Fields, FormatAgrees;
    var text := EncodedPayloads(CommandLines(req.commands, req.capsRaw, newline));
    if PUSH_OPTIONS in req.caps {
      var lines := OptionLines(req.options, newline);
      var tail := EncodedPayloads(lines) + "0000" + req.pack;
      assert Sent(req, newline) == text + "0000" + tail;
      CommandLinesRead(req, newline, tail, format);
      OptionLinesRead(Request(req.commands, req.caps, [], "", req.capsRaw), req.options, lines, newline, req.pack);
      assert [] + req.options == req.options;
    } else {
      assert Sent(req, newline) == text + "0000" + req.pack;
      CommandLinesRead(req, newline, req.pack, format);
    }
  }

  /** A client that pushes from a shallow repository sends "shallow" lines first; the parser takes them for commands
      and refuses the push. */
  lemma ShallowPushRefused(oid: string, newline: bool, rest: string, format: string)
    requires Word(oid) && NUL !in oid && |oid| <= 64
    ensures ParsedPush(DataPkt("shallow " + oid + (if newline then "\n" else "")) + rest, format) == Err(Protocol)
  {
    hide Decoded, DataPkt, Fields, TrimNewlines, BeforeNul, AfterNul, Word, NoSpace;
    var text, end := "shallow " + oid, if newline then "\n" else "";
    DecodedEncoded(Frame(Data, text + end), rest);
    ShallowText(oid);
    assert NUL !in text + end;
    SplitAtNul(text + end, "");
    TrimOne(text, newline);
  }

  predicate ShallowOid(oid: string) {
    Word(oid) && NUL !in oid && |oid| <= 64
  }

  /** The lines by which a client says where its history is cut off. */
  function ShallowLines(oids: seq<string>, newline: bool): (lines: seq<string>)
    requires forall oid :: oid in oids ==> ShallowOid(oid)
    ensures AllFit(lines)
  {
    if oids == [] then []
    else
      assert ShallowOid(oids[0]);
      var line := "shallow " + oids[0] + (if newline then "\n" else "");
      assert |line| <= MAX_PAYLOAD;
      [line] + ShallowLines(oids[1..], newline)
  }

  /** A request preceded by any number of "shallow" lines, as gitprotocol-pack(5) allows, is parsed, and then to just what
      was sent, if and only if there are none; otherwise it is refused. */
  lemma ShallowPushExactly(oids: seq<string>, req: Request, newline: bool, format: string)
    requires (forall oid :: oid in oids ==> ShallowOid(oid)) && Proper(req, format)
    requires AllFit(CommandLines(req.commands, req.capsRaw, newline)) && AllFit(OptionLines(req.options, newline))
    ensures ParsedPush(EncodedPayloads(ShallowLines(oids, newline)) + Sent(req, newline), format) ==
            if oids == [] then Ok(req) else Err(Protocol)
  {
    hide ParsedPush, Sent, Proper, DataPkt, ShallowOid, CommandLines, OptionLines;
    var lines := ShallowLines(oids, newline);
    if oids == [] {
      PushRoundTrip(req, newline, format);
      assert EncodedPayloads(lines) + Sent(req, newline) == Sent(req, newline);
    } else {
      var rest := EncodedPayloads(lines[1..]) + Sent(req, newline);
      assert oids[0] in oids;
      assert EncodedPayloads(lines) + Sent(req, newline) == DataPkt(lines[0]) + rest;
      ShallowFirst(oids[0], newline, rest, format);
    }
  }

  lemma ShallowFirst(oid: string, newline: bool, rest: string, format: string)
    requires ShallowOid(oid)
    ensures |"shallow " + oid + (if newline then "\n" else "")| <= MAX_PAYLOAD
    ensures ParsedPush(DataPkt("shallow " + oid + (if newline then "\n" else "")) + rest, format) == Err(Protocol)
  {
    hide ParsedPush, DataPkt, Word;
    ShallowPushRefused(oid, newline, rest, format);
  }

  lemma ShallowText(oid: string)
    requires Word(oid)
    ensures var text := "shallow " + oid; |Fields(text)| == 2 && !EndsInNewline(text)
  {
    WordsHaveNoNewline(oid);
    var text := "shallow " + oid;
    assert text[|text| - 1] == oid[|oid| - 1] && oid[|oid| - 1] in oid;
    ShallowIsWord();
    hide Fields, Word;
    JoinedTwo("shallow", oid);
    assert "shallow" + " " + oid == text;
    FieldsJoined(["shallow", oid]);
  }

  lemma ShallowIsWord()
    ensures Word("shallow")
  {
    PlainHasNoSpace("shallow");
  }

  // ---- which names are taken ----

  predicate ForbiddenByte(b: int) {
    b <= 32 || b == 127 || b == 42 || b == 58 || b == 63 || b == 91 || b == 92 || b == 94 || b == 126
  }

  /** HEAD, or a name under refs/ without forbidden bytes, two dots or slashes in a row or a brace after an at sign, that ends
      neither in a slash, a dot nor ".lock". */
  ghost predicate Admissible(name: string) {
    name == "HEAD" ||
    (&& |name| >= 5 && name[0] == 'r' && name[1] == 'e' && name[2] == 'f' && name[3] == 's' && name[4] == '/'
     && (forall i :: 0 <= i < |name| ==> !ForbiddenByte(name[i] as int))
     && (forall i :: 0 < i < |name| ==>
           && !(name[i - 1] == '.' && name[i] == '.') && !(name[i - 1] == '/' && name[i] == '/')
           && !(name[i - 1] == '@' && name[i] == '{'))
     && name[|name| - 1] != '/' && name[|name| - 1] != '.'
     && !(name[|name| - 1] == 'k' && name[|name| - 2] == 'c' && name[|name| - 3] == 'o' && name[|name| - 4] == 'l'
          && name[|name| - 5] == '.'))
  }

  lemma PairExactly(s: string, pair: string)
    requires |pair| == 2
    ensures Contains(s, pair) <==> exists i :: 0 < i < |s| && s[i - 1] == pair[0] && s[i] == pair[1]
  {
    if Contains(s, pair) { var i := ContainsPair(s, pair); assert s[i + 1 - 1] == pair[0]; }
    if exists i :: 0 < i < |s| && s[i - 1] == pair[0] && s[i] == pair[1] {
      var i :| 0 < i < |s| && s[i - 1] == pair[0] && s[i] == pair[1];
      assert s[i - 1..][..2] == pair;
    }
  }

  lemma BytesExactly(c: char)
    ensures BadByte(c) <==> ForbiddenByte(c as int)
  {
  }

  lemma PrefixExactly(name: string)
    ensures HasPrefix(name, "refs/") <==>
              |name| >= 5 && name[0] == 'r' && name[1] == 'e' && name[2] == 'f' && name[3] == 's' && name[4] == '/'
  {
    if |name| >= 5 {
      assert name[..5] == [name[0], name[1], name[2], name[3], name[4]];
      assert "refs/" == ['r', 'e', 'f', 's', '/'];
    }
  }

  lemma SuffixesExactly(name: string)
    requires |name| >= 5
    ensures HasSuffix(name, "/") <==> name[|name| - 1] == '/'
    ensures HasSuffix(name, ".") <==> name[|name| - 1] == '.'
    ensures HasSuffix(name, ".lock") <==>
              name[|name| - 1] == 'k' && name[|name| - 2] == 'c' && name[|name| - 3] == 'o' && name[|name| - 4] == 'l' && name[|name| - 5] == '.'
  {
    var n := |name|;
    assert name[n - 1..] == [name[n - 1]];
    assert name[n - 5..] == [name[n - 5], name[n - 4], name[n - 3], name[n - 2], name[n - 1]];
    assert ".lock" == ['.', 'l', 'o', 'c', 'k'];
  }

  /** The rule takes exactly the admissible names. */
  lemma ValidNameExactly(name: string)
    ensures ValidRefName(name) <==> Admissible(name)
  {
    hide BadByte, ForbiddenByte, Contains, HasSuffix;
    if name != "HEAD" {
      PrefixExactly(name);
      if HasPrefix(name, "refs/") {
        SuffixesExactly(name);
        PairExactly(name, "..");
        PairExactly(name, "@{");
        PairExactly(name, "//");
        assert !HasPrefix(name, "/") by { assert name[..1][0] == 'r'; }
        forall c ensures BadByte(c) <==> ForbiddenByte(c as int) { BytesExactly(c); }
      }
    }
  }

  ghost predicate AllAdmissible(commands: seq<Command>) {
    forall c :: c in commands ==> Admissible(c.ref) && Word(c.old_) && Word(c.new_) && Word(c.ref)
  }

  lemma LineAdmissible(req: Request, first: bool, payload: string, format: string)
    requires AllAdmissible(req.commands)
    ensures match WithLine(req, first, payload, format) case Ok(next) => AllAdmissible(next.commands) case Err(_) => true
  {
    hide ValidRefName, Admissible, Word, Fields, TrimNewlines;
    var text := TrimNewlines(BeforeNul(payload));
    FieldsAreWords(text);
    if ParsedCommand(text).Ok? { ValidNameExactly(ParsedCommand(text).value.ref); }
  }

  lemma {:induction false} CommandsAdmissible(s: string, req: Request, first: bool, format: string)
    requires AllAdmissible(req.commands)
    ensures match Commands(s, req, first, format) case Ok(p) => AllAdmissible(p.req.commands) case Err(_) => true
    decreases |s|
  {
    hide AllAdmissible, WithLine, Decoded;
    DecodedShrinks(s);
    var r := Decoded(s);
    if r.outcome.Got? {
      var f := r.outcome.frame;
      if !f.kind.Flush? {
        if !f.kind.Data? || f.payload == "" {
          CommandsAdmissible(r.rest, req, first, format);
        } else {
          LineAdmissible(req, first, f.payload, format);
          if WithLine(req, first, f.payload, format).Ok? {
            CommandsAdmissible(r.rest, WithLine(req, first, f.payload, format).value, false, format);
          }
        }
      }
    }
  }

  lemma {:induction false} OptionsKeepCommands(s: string, req: Request)
    ensures match Options(s, req) case Ok(p) => p.req.commands == req.commands case Err(_) => true
    decreases |s|
  {
    hide Decoded;
    DecodedShrinks(s);
    var r := Decoded(s);
    if r.outcome.Got? && !r.outcome.frame.kind.Flush? {
      var f := r.outcome.frame;
      OptionsKeepCommands(r.rest, if f.kind.Data? then req.(options := req.options + [TrimNewlines(f.payload)]) else req);
    }
  }

  /** Whatever bytes a client sends, a push that is parsed names admissible references only, and its values and names have no
      white space. */
  lemma ParsedNamesAdmissible(s: string, format: string)
    ensures match ParsedPush(s, format) case Ok(req) => AllAdmissible(req.commands) case Err(_) => true
  {
    hide Commands, Options;
    assert AllAdmissible(NO_REQUEST.commands);
    CommandsAdmissible(s, NO_REQUEST, true, format);
    match Commands(s, NO_REQUEST, true, format)
    case Err(_) =>
    case Ok(p) => OptionsKeepCommands(p.rest, p.req);
  }

  /** Of words only: three of them are a command exactly if the last is admissible, and any other number is no command. */
  lemma CommandLineExactly(words: seq<string>)
    requires forall w :: w in words ==> Word(w)
    ensures ParsedCommand(Joined(words)) ==
            if |words| != 3 then Err(Protocol)
            else if Admissible(words[2]) then Ok(Command(words[0], words[1], words[2]))
            else Err(InvalidRef)
  {
    hide Fields, Word, Admissible, ValidRefName;
    FieldsJoined(words);
    if |words| == 3 { ValidNameExactly(words[2]); }
  }

  // ---- pushes of any names ----

  /** A command whose parts are words, the name admissible or not. */
  predicate Sayable(c: Command) {
    Word(c.old_) && Word(c.new_) && Word(c.ref) && NUL !in c.old_ && NUL !in c.new_ && NUL !in c.ref
  }

  /** As Proper, but for the validity of names. */
  predicate ProperButNames(req: Request, format: string) {
    && req.commands != [] && (forall c :: c in req.commands ==> Sayable(c))
    && req.caps == Fields(req.capsRaw) && !EndsInNewline(req.capsRaw) && FormatAgrees(req.caps, format)
    && ("push-options" !in req.caps ==> req.options == [])
    && forall o :: o in req.options ==> !EndsInNewline(o)
  }

  lemma SayableText(c: Command)
    requires Sayable(c)
    ensures NUL !in CommandText(c) && !EndsInNewline(CommandText(c)) && CommandText(c) != ""
    ensures ParsedCommand(CommandText(c)) == if Admissible(c.ref) then Ok(c) else Err(InvalidRef)
    ensures CommandOK(c) <==> Admissible(c.ref)
  {
    hide Fields, Admissible, ValidRefName;
    WordsHaveNoNewline(c.ref);
    assert CommandText(c)[|CommandText(c)| - 1] == c.ref[|c.ref| - 1];
    ValidNameExactly(c.ref);
    JoinedThree(c.old_, c.new_, c.ref);
    CommandLineExactly([c.old_, c.new_, c.ref]);
  }

  lemma BadFirstLine(req: Request, c: Command, capsRaw: string, newline: bool, format: string)
    requires Sayable(c) && !Admissible(c.ref) && !EndsInNewline(capsRaw) && FormatAgrees(Fields(capsRaw), format)
    ensures WithLine(req, true, CommandText(c) + ([NUL] + capsRaw) + (if newline then "\n" else ""), format) == Err(InvalidRef)
  {
    hide Fields, Word, Admissible, CommandText, FormatAgrees, BeforeNul, AfterNul, TrimNewlines, ParsedCommand, Sayable;
    var end := if newline then "\n" else "";
    SayableText(c);
    assert CommandText(c) + ([NUL] + capsRaw) + end == CommandText(c) + [NUL] + (capsRaw + end);
    SplitAtNul(CommandText(c), capsRaw + end);
    TrimOne(capsRaw, newline);
    TrimOne(CommandText(c), false);
    assert CommandText(c) + "" == CommandText(c);
  }

  lemma BadOtherLine(req: Request, c: Command, newline: bool, format: string)
    requires Sayable(c) && !Admissible(c.ref)
    ensures WithLine(req, false, CommandText(c) + "" + (if newline then "\n" else ""), format) == Err(InvalidRef)
  {
    hide Fields, Word, Admissible, CommandText, BeforeNul, AfterNul, TrimNewlines, ParsedCommand, Sayable;
    var end := if newline then "\n" else "";
    SayableText(c);
    assert CommandText(c) + "" + end == CommandText(c) + end;
    assert NUL !in CommandText(c) + end;
    SplitAtNul(CommandText(c) + end, "");
    TrimOne(CommandText(c), newline);
  }

  lemma BadLineEnds(req: Request, first: bool, line: string, rest: string, format: string, e: PushError)
    requires |line| <= MAX_PAYLOAD && line != "" && WithLine(req, first, line, format) == Err(e)
    ensures Commands(DataPkt(line) + rest, req, first, format) == Err(e)
  {
    hide Decoded, WithLine, DataPkt;
    DecodedEncoded(Frame(Data, line), rest);
  }

  ghost predicate SayableLines(lines: seq<string>, commands: seq<Command>, newline: bool) {
    && |lines| == |commands|
    && forall i :: 0 <= i < |lines| ==> Sayable(commands[i]) && lines[i] == CommandText(commands[i]) + "" + (if newline then "\n" else "")
  }

  lemma SayableRest(lines: seq<string>, commands: seq<Command>, newline: bool)
    requires SayableLines(lines, commands, newline) && lines != []
    ensures SayableLines(lines[1..], commands[1..], newline)
  {
    hide Sayable, CommandText;
    forall i | 0 <= i < |lines| - 1
      ensures Sayable(commands[1..][i]) && lines[1..][i] == CommandText(commands[1..][i]) + "" + (if newline then "\n" else "")
    {
      assert commands[1..][i] == commands[i + 1] && lines[1..][i] == lines[i + 1];
    }
  }

  ghost predicate SomeBad(commands: seq<Command>) {
    exists c :: c in commands && !Admissible(c.ref)
  }

  lemma BadRest(commands: seq<Command>)
    requires SomeBad(commands) && Admissible(commands[0].ref)
    ensures SomeBad(commands[1..])
  {
    hide Admissible;
    var c :| c in commands && !Admissible(c.ref);
    assert commands == [commands[0]] + commands[1..];
  }

  lemma {:induction false} BadLinesRefused(req: Request, commands: seq<Command>, lines: seq<string>, newline: bool, rest: string, format: string)
    requires AllFit(lines) && SayableLines(lines, commands, newline) && SomeBad(commands)
    ensures Commands(EncodedPayloads(lines) + "0000" + rest, req, false, format) == Err(InvalidRef)
    decreases |lines|
  {
    hide DataPkt, CommandOK, CommandText, WithLine, EncodedPayloads, Commands, Admissible, Sayable;
    var c, more := commands[0], EncodedPayloads(lines[1..]) + "0000" + rest;
    FirstOfLines(lines, rest);
    SayableText(c);
    NotEmptyLine(c, lines[0]);
    if Admissible(c.ref) {
      var next := req.(commands := req.commands + [c]);
      OtherLineRead(req, c, newline, format);
      LineThenMore(req, next, false, lines[0], more, format);
      SayableRest(lines, commands, newline);
      BadRest(commands);
      BadLinesRefused(next, commands[1..], lines[1..], newline, rest, format);
    } else {
      BadOtherLine(req, c, newline, format);
      BadLineEnds(req, false, lines[0], more, format, InvalidRef);
    }
  }

  lemma BadCommandsRefused(req: Request, newline: bool, tail: string, format: string)
    requires ProperButNames(req, format) && SomeBad(req.commands) && AllFit(CommandLines(req.commands, req.capsRaw, newline))
    ensures Commands(EncodedPayloads(CommandLines(req.commands, req.capsRaw, newline)) + "0000" + tail, NO_REQUEST, true, format) ==
            Err(InvalidRef)
  {
    hide DataPkt, CommandOK, CommandText, WithLine, Fields, FormatAgrees, EncodedPayloads, Commands, Admissible, Sayable, SayableLines;
    var lines, c := CommandLines(req.commands, req.capsRaw, newline), req.commands[0];
    var more := EncodedPayloads(lines[1..]) + "0000" + tail;
    FirstOfLines(lines, tail);
    assert c in req.commands;
    SayableText(c);
    NotEmptyLine(c, lines[0]);
    if Admissible(c.ref) {
      var next := NO_REQUEST.(capsRaw := req.capsRaw, caps := Fields(req.capsRaw), commands := NO_REQUEST.commands + [c]);
      FirstLineRead(NO_REQUEST, c, req.capsRaw, newline, format);
      LineThenMore(NO_REQUEST, next, true, lines[0], more, format);
      OtherSayableLines(req.commands, req.capsRaw, newline);
      BadRest(req.commands);
      BadLinesRefused(next, req.commands[1..], lines[1..], newline, tail, format);
    } else {
      BadFirstLine(NO_REQUEST, c, req.capsRaw, newline, format);
      BadLineEnds(NO_REQUEST, true, lines[0], more, format, InvalidRef);
    }
  }

  lemma OtherSayableLines(commands: seq<Command>, capsRaw: string, newline: bool)
    requires commands != [] && forall c :: c in commands ==> Sayable(c)
    ensures SayableLines(CommandLines(commands, capsRaw, newline)[1..], commands[1..], newline)
  {
    hide Sayable, CommandText;
    forall i | 0 <= i < |commands| - 1 ensures Sayable(commands[1..][i]) { assert commands[1..][i] in commands; }
  }

  /** A request of commands of three words each arrives as it was sent if all its names are admissible, and is otherwise
      refused for its names. */
  lemma PushTakenExactly(req: Request, newline: bool, format: string)
    requires ProperButNames(req, format)
    requires AllFit(CommandLines(req.commands, req.capsRaw, newline)) && AllFit(OptionLines(req.options, newline))
    ensures ParsedPush(Sent(req, newline), format) == if SomeBad(req.commands) then Err(InvalidRef) else Ok(req)
  {
    hide Commands, Options, EncodedPayloads, CommandLines, OptionLines, CommandOK, Fields, FormatAgrees, Admissible, Sayable;
    if SomeBad(req.commands) {
      var lines := OptionLines(req.options, newline);
      var tail := if PUSH_OPTIONS in req.caps then EncodedPayloads(lines) + "0000" + req.pack else req.pack;
      assert Sent(req, newline) == EncodedPayloads(CommandLines(req.commands, req.capsRaw, newline)) + "0000" + tail;
      BadCommandsRefused(req, newline, tail, format);
    } else {
      forall c | c in req.commands ensures CommandOK(c) { SayableText(c); }
      PushRoundTrip(req, newline, format);
    }
  }
}
