/** The pkt-line framing of the git wire, and side-band multiplexing over it. A char stands for a byte. */
module PktLine {
  import opened Wrappers
  import opened StringOrder

  const MAX_PAYLOAD := 65516
  const MAX_PKT_TOTAL := 65520

  datatype Kind = Data | Flush | Delim | ResponseEnd

  datatype Frame = Frame(kind: Kind, payload: string)

  datatype Error = TruncatedHeader | NotHex | ReservedLength | TooLong | TruncatedPayload | BadBand

  datatype Outcome = Eof | Bad(error: Error) | Got(frame: Frame)

  // ---- one frame ----

  function HexDigit(v: nat): char {
    "0123456789abcdef"[v % 16]
  }

  function Header(n: nat): string {
    [HexDigit(n / 4096), HexDigit(n / 256), HexDigit(n / 16), HexDigit(n)]
  }

  /** A data frame with exactly this payload. */
  function DataPkt(payload: string): string
    requires |payload| <= MAX_PAYLOAD
  {
    Header(|payload| + 4) + payload
  }

  /** The payload a line of text is sent as: with a newline, added when it has none. */
  function Lined(s: string): string {
    if EndsInNewline(s) then s else s + "\n"
  }

  /** A frame may be written: data within the limit, nothing else with a payload. */
  predicate Writable(f: Frame) {
    if f.kind.Data? then |f.payload| <= MAX_PAYLOAD else f.payload == ""
  }

  function Encoded(f: Frame): string
    requires Writable(f)
  {
    match f.kind
    case Data => DataPkt(f.payload)
    case Flush => "0000"
    case Delim => "0001"
    case ResponseEnd => "0002"
  }

  function HexValue(c: char): Option<nat> {
    if '0' <= c <= '9' then Some(c as nat - '0' as nat)
    else if 'a' <= c <= 'f' then Some(c as nat - 'a' as nat + 10)
    else if 'A' <= c <= 'F' then Some(c as nat - 'A' as nat + 10)
    else None
  }

  /** The number some hexadecimal digits, of either case, stand for. */
  function HexNumber(s: string): Option<nat> {
    if s == "" then Some(0)
    else
      var high, low := HexNumber(s[..|s| - 1]), HexValue(s[|s| - 1]);
      if high.None? || low.None? then None else Some(high.value * 16 + low.value)
  }

  method ParseHex4(b: string) returns (n: Option<nat>)
    ensures n == HexNumber(b)
  {
    var sum := 0;
    for i := 0 to |b|
      invariant HexNumber(b[..i]) == Some(sum)
    {
      assert b[..i + 1][..i] == b[..i];
      var v := HexValue(b[i]);
      if v.None? {
        NotHexNumber(b, i);
        return None;
      }
      sum := sum * 16 + v.value;
    }
    assert b[..|b|] == b;
    n := Some(sum);
  }

  lemma {:induction false} NotHexNumber(b: string, i: nat)
    requires i < |b| && HexValue(b[i]).None?
    ensures HexNumber(b).None?
  {
    if i < |b| - 1 { NotHexNumber(b[..|b| - 1], i); }
  }

  /** What reading one frame from the front of a stream gives, and what it leaves unread. */
  datatype Read = Read(outcome: Outcome, rest: string)

  function Decoded(s: string): Read {
    if s == "" then Read(Eof, "")
    else if |s| < 4 then Read(Bad(TruncatedHeader), "")
    else
      var n, rest := HexNumber(s[..4]), s[4..];
      if n.None? then Read(Bad(NotHex), rest)
      else if n.value == 0 then Read(Got(Frame(Flush, "")), rest)
      else if n.value == 1 then Read(Got(Frame(Delim, "")), rest)
      else if n.value == 2 then Read(Got(Frame(ResponseEnd, "")), rest)
      else if n.value == 3 then Read(Bad(ReservedLength), rest)
      else if n.value > MAX_PKT_TOTAL then Read(Bad(TooLong), rest)
      else if |rest| < n.value - 4 then Read(Bad(TruncatedPayload), "")
      else Read(Got(Frame(Data, rest[..n.value - 4])), rest[n.value - 4..])
  }

  lemma DecodedShrinks(s: string)
    ensures Decoded(s).outcome.Got? ==> |Decoded(s).rest| + 4 <= |s| && Writable(Decoded(s).outcome.frame)
  {
    hide HexNumber;
  }

  class PktReader {
    var rest: string

    constructor (s: string)
      ensures rest == s
    {
      rest := s;
    }

    /** Takes up to n bytes; `whole` says whether there were that many. */
    method ReadFull(n: nat) returns (bytes: string, whole: bool)
      modifies this
      ensures whole <==> |old(rest)| >= n
      ensures bytes + rest == old(rest) && (if whole then |bytes| == n else rest == "")
    {
      whole := |rest| >= n;
      var k := if whole then n else |rest|;
      bytes := rest[..k];
      rest := rest[k..];
    }

    method Next() returns (out: Outcome)
      modifies this
      ensures Read(out, rest) == Decoded(old(rest))
    {
      var before := rest;
      var header, whole := ReadFull(4);
      if !whole {
        assert before == header + "" == header;
        return if header == "" then Eof else Bad(TruncatedHeader);
      }
      assert before[..4] == header && before[4..] == rest;
      var n := ParseHex4(header);
      if n.None? { return Bad(NotHex); }
      match n.value {
        case 0 => return Got(Frame(Flush, ""));
        case 1 => return Got(Frame(Delim, ""));
        case 2 => return Got(Frame(ResponseEnd, ""));
        case 3 => return Bad(ReservedLength);
        case _ =>
      }
      if n.value > MAX_PKT_TOTAL { return Bad(TooLong); }
      var after := rest;
      var payload, all := ReadFull(n.value - 4);
      if !all { return Bad(TruncatedPayload); }
      assert after[..n.value - 4] == payload && after[n.value - 4..] == rest;
      out := Got(Frame(Data, payload));
    }
  }

  lemma HexNumberOne(s: string, c: char)
    ensures HexNumber(s + [c]) ==
            if HexNumber(s).None? || HexValue(c).None? then None else Some(HexNumber(s).value * 16 + HexValue(c).value)
  {
    assert (s + [c])[..|s|] == s;
  }

  lemma DigitValue(v: nat)
    ensures HexValue(HexDigit(v)) == Some(v % 16)
  {
    var d := v % 16;
    assert d < 16;
    assert HexDigit(v) == if d < 10 then '0' + d as char else 'a' + (d - 10) as char;
  }

  lemma HeaderParses(n: nat)
    requires n < 0x1_0000
    ensures HexNumber(Header(n)) == Some(n)
  {
    hide HexNumber, HexValue, HexDigit;
    var a, b, c, d := n / 4096, n / 256, n / 16, n;
    DigitValue(a); DigitValue(b); DigitValue(c); DigitValue(d);
    EmptyNumber();
    HexNumberOne([], HexDigit(a));
    HexNumberOne([] + [HexDigit(a)], HexDigit(b));
    HexNumberOne([] + [HexDigit(a)] + [HexDigit(b)], HexDigit(c));
    HexNumberOne([] + [HexDigit(a)] + [HexDigit(b)] + [HexDigit(c)], HexDigit(d));
    assert Header(n) == [] + [HexDigit(a)] + [HexDigit(b)] + [HexDigit(c)] + [HexDigit(d)];
    Nibbles(n);
  }

  lemma Nibbles(n: nat)
    requires n < 0x1_0000
    ensures (((n / 4096 % 16) * 16 + n / 256 % 16) * 16 + n / 16 % 16) * 16 + n % 16 == n
  {
    assert n / 16 / 16 == n / 256 && n / 256 / 16 == n / 4096;
  }

  lemma EmptyNumber()
    ensures HexNumber([]) == Some(0)
  {
  }

  /** Reading undoes writing, and takes nothing of what follows. */
  lemma DecodedEncoded(f: Frame, rest: string)
    requires Writable(f)
    ensures Decoded(Encoded(f) + rest) == Read(Got(f), rest)
  {
    hide HexNumber, HexDigit;
    var s := Encoded(f) + rest;
    match f.kind
    case Data =>
      var n := |f.payload| + 4;
      HeaderParses(n);
      assert s[..4] == Header(n) && s[4..] == f.payload + rest;
    case Flush => SpecialParses(0, '0'); assert s[..4] == "0000" && s[4..] == rest;
    case Delim => SpecialParses(1, '1'); assert s[..4] == "0001" && s[4..] == rest;
    case ResponseEnd => SpecialParses(2, '2'); assert s[..4] == "0002" && s[4..] == rest;
  }

  lemma SpecialParses(n: nat, c: char)
    requires n < 3 && c == '0' + n as char
    ensures HexNumber(['0', '0', '0', c]) == Some(n)
  {
    HeaderParses(n);
    assert HexDigit(n) == c;
    assert Header(n) == ['0', '0', '0', c];
  }

  // ---- streams of frames ----

  function EncodedAll(frames: seq<Frame>): string
    requires forall f :: f in frames ==> Writable(f)
  {
    if frames == [] then "" else Encoded(frames[0]) + EncodedAll(frames[1..])
  }

  datatype Stream = Stream(frames: seq<Frame>, end: Outcome)

  /** All the frames of a stream, up to its end or its first error. */
  function DecodedAll(s: string): Stream
    decreases |s|
  {
    DecodedShrinks(s);
    var r := Decoded(s);
    match r.outcome
    case Got(f) => var more := DecodedAll(r.rest); Stream([f] + more.frames, more.end)
    case end => Stream([], end)
  }

  lemma DecodedAllFirst(f: Frame, rest: string)
    requires Writable(f)
    ensures DecodedAll(Encoded(f) + rest) == Stream([f] + DecodedAll(rest).frames, DecodedAll(rest).end)
  {
    hide Decoded, Encoded;
    DecodedEncoded(f, rest);
  }

  lemma {:induction false} StreamRoundTrip(frames: seq<Frame>, tail: string)
    requires forall f :: f in frames ==> Writable(f)
    ensures DecodedAll(EncodedAll(frames) + tail) == Stream(frames + DecodedAll(tail).frames, DecodedAll(tail).end)
  {
    hide Decoded, DecodedAll, Encoded;
    if frames == [] {
      assert EncodedAll(frames) + tail == tail && frames + DecodedAll(tail).frames == DecodedAll(tail).frames;
    } else {
      var rest := EncodedAll(frames[1..]) + tail;
      assert EncodedAll(frames) + tail == Encoded(frames[0]) + rest;
      DecodedAllFirst(frames[0], rest);
      StreamRoundTrip(frames[1..], tail);
      assert frames + DecodedAll(tail).frames == [frames[0]] + (frames[1..] + DecodedAll(tail).frames);
    }
  }

  /** The reader inverts the writer: a stream of encoded frames decodes to those frames and a clean end. */
  lemma ReaderInverts(frames: seq<Frame>)
    requires forall f :: f in frames ==> Writable(f)
    ensures DecodedAll(EncodedAll(frames)) == Stream(frames, Eof)
  {
    StreamRoundTrip(frames, "");
    assert EncodedAll(frames) + "" == EncodedAll(frames) && frames + [] == frames;
  }

  lemma {:induction false} DecodedWritable(s: string)
    ensures forall f :: f in DecodedAll(s).frames ==> Writable(f)
    decreases |s|
  {
    DecodedShrinks(s);
    if Decoded(s).outcome.Got? { DecodedWritable(Decoded(s).rest); }
  }

  /** Only the case of the length digits is lost in reading: written again, a stream that ended cleanly has the same
      length and decodes to the same frames. */
  lemma {:induction false} RewriteKeepsLength(s: string)
    requires DecodedAll(s).end == Eof
    ensures (DecodedWritable(s); |EncodedAll(DecodedAll(s).frames)| == |s|)
    decreases |s|
  {
    DecodedWritable(s);
    hide Decoded, Encoded;
    DecodedShrinks(s);
    var r := Decoded(s);
    if r.outcome.Got? {
      RewriteKeepsLength(r.rest);
      DecodedWritable(r.rest);
      FrameLength(s);
      assert DecodedAll(s).frames[1..] == DecodedAll(r.rest).frames;
    } else {
      EndsWhole(s);
    }
  }

  lemma FrameLength(s: string)
    requires Decoded(s).outcome.Got?
    ensures Writable(Decoded(s).outcome.frame) && |Encoded(Decoded(s).outcome.frame)| + |Decoded(s).rest| == |s|
  {
    hide HexNumber, HexDigit;
  }

  lemma EndsWhole(s: string)
    ensures Decoded(s).outcome == Eof <==> s == ""
  {
    hide HexNumber;
  }

  // ---- reading to the first flush ----

  datatype Payloads = Payloads(out: seq<string>, error: Option<Error>, rest: string)

  /** The data payloads before the first flush or the end. */
  function PayloadsOf(s: string): Payloads
    decreases |s|
  {
    DecodedShrinks(s);
    var r := Decoded(s);
    match r.outcome
    case Eof => Payloads([], None, r.rest)
    case Bad(e) => Payloads([], Some(e), r.rest)
    case Got(f) =>
      if f.kind.Flush? then Payloads([], None, r.rest)
      else
        var more := PayloadsOf(r.rest);
        if f.kind.Data? then more.(out := [f.payload] + more.out) else more
  }

  method ReadAllPkts(pr: PktReader) returns (out: seq<string>, error: Option<Error>)
    modifies pr
    ensures Payloads(out, error, pr.rest) == PayloadsOf(old(pr.rest))
  {
    out := [];
    while true
      invariant PayloadsOf(old(pr.rest)) == PayloadsOf(pr.rest).(out := out + PayloadsOf(pr.rest).out)
      decreases |pr.rest|
    {
      DecodedShrinks(pr.rest);
      var before := out;
      var next := pr.Next();
      match next {
        case Eof => return out, None;
        case Bad(e) => return out, Some(e);
        case Got(f) =>
          if f.kind.Flush? { return out, None; }
          if f.kind.Data? {
            out := out + [f.payload];
            assert out + PayloadsOf(pr.rest).out == before + ([f.payload] + PayloadsOf(pr.rest).out);
          }
      }
    }
  }

  predicate AllFit(payloads: seq<string>) {
    forall p :: p in payloads ==> |p| <= MAX_PAYLOAD
  }

  /** Data frames, one for each payload. */
  function EncodedPayloads(payloads: seq<string>): string
    requires AllFit(payloads)
  {
    if payloads == [] then "" else DataPkt(payloads[0]) + EncodedPayloads(payloads[1..])
  }

  /** Payloads and a flush read back exactly, and what follows the flush is left unread. */
  lemma {:induction false} PayloadsRoundTrip(payloads: seq<string>, tail: string)
    requires AllFit(payloads)
    ensures PayloadsOf(EncodedPayloads(payloads) + "0000" + tail) == Payloads(payloads, None, tail)
  {
    hide Decoded, DataPkt;
    if payloads == [] {
      assert EncodedPayloads(payloads) + "0000" + tail == Encoded(Frame(Flush, "")) + tail;
      DecodedEncoded(Frame(Flush, ""), tail);
    } else {
      var rest := EncodedPayloads(payloads[1..]) + "0000" + tail;
      assert EncodedPayloads(payloads) + "0000" + tail == DataPkt(payloads[0]) + rest;
      DecodedEncoded(Frame(Data, payloads[0]), rest);
      PayloadsRoundTrip(payloads[1..], tail);
    }
  }

  // ---- side bands ----

  const CHUNK := MAX_PAYLOAD - 1

  function FirstChunk(payload: string): string {
    if |payload| > CHUNK then payload[..CHUNK] else payload
  }

  /** The frames that carry a payload on a band. */
  function Banded(band: char, payload: string): string
    decreases |payload|
  {
    if payload == "" then ""
    else
      var chunk := FirstChunk(payload);
      DataPkt([band] + chunk) + Banded(band, payload[|chunk|..])
  }

  method EncodeSideband(band: char, payload: string) returns (out: string)
    ensures out == Banded(band, payload)
  {
    hide Banded, HexDigit, Header;
    var left := payload;
    out := "";
    assert out + Banded(band, left) == Banded(band, payload);
    while left != ""
      invariant out + Banded(band, left) == Banded(band, payload)
      decreases |left|
    {
      var chunk := left;
      if |chunk| > MAX_PAYLOAD - 1 { chunk := chunk[..MAX_PAYLOAD - 1]; }
      var n := |chunk| + 5;
      BandedStep(out, band, left);
      out := out + (Header(n) + [band] + chunk);
      left := left[|chunk|..];
    }
    NothingBanded(band, out);
  }

  lemma NothingBanded(band: char, out: string)
    ensures out + Banded(band, "") == out
  {
  }

  lemma BandedStep(out: string, band: char, left: string)
    requires left != ""
    ensures var chunk := FirstChunk(left);
      out + (Header(|chunk| + 5) + [band] + chunk) + Banded(band, left[|chunk|..]) == out + Banded(band, left)
  {
    hide HexDigit, Header;
    var chunk := FirstChunk(left);
    assert Header(|chunk| + 5) + [band] + chunk == DataPkt([band] + chunk);
  }

  const BAND1: char := 1 as char
  const BAND2: char := 2 as char
  const BAND3: char := 3 as char

  datatype Bands = Bands(payload: string, messages: string, error: Option<Error>)

  /** What a receiver takes from the bands: band 1 is payload, bands 2 and 3 are messages. */
  function Unbanded(s: string): Bands
    decreases |s|
  {
    DecodedShrinks(s);
    var r := Decoded(s);
    match r.outcome
    case Eof => Bands("", "", None)
    case Bad(e) => Bands("", "", Some(e))
    case Got(f) =>
      if f.kind.Flush? then Bands("", "", None)
      else if !f.kind.Data? || f.payload == "" then Unbanded(r.rest)
      else if f.payload[0] == BAND1 || f.payload[0] == BAND2 || f.payload[0] == BAND3 then OnBand(f.payload[0], f.payload[1..], Unbanded(r.rest))
      else Bands("", "", Some(BadBand))
  }

  function OnBand(band: char, part: string, more: Bands): Bands {
    if band == BAND1 then more.(payload := part + more.payload) else more.(messages := part + more.messages)
  }

  /** more, with this payload and these messages taken before it. */
  function Before(payload: string, messages: string, more: Bands): Bands {
    Bands(payload + more.payload, messages + more.messages, more.error)
  }

  lemma BeforeOnBand(payload: string, messages: string, band: char, part: string, more: Bands)
    ensures Before(payload, messages, OnBand(band, part, more)) ==
            if band == BAND1 then Before(payload + part, messages, more) else Before(payload, messages + part, more)
  {
    assert (payload + part) + more.payload == payload + (part + more.payload);
    assert (messages + part) + more.messages == messages + (part + more.messages);
  }

  method SidebandDecode(data: string) returns (payload: string, messages: string, error: Option<Error>)
    ensures Bands(payload, messages, error) == Unbanded(data)
  {
    hide Decoded;
    var pr := new PktReader(data);
    payload, messages := "", "";
    while true
      invariant Before(payload, messages, Unbanded(pr.rest)) == Unbanded(data)
      decreases |pr.rest|
    {
      DecodedShrinks(pr.rest);
      ghost var more := Unbanded(Decoded(pr.rest).rest);
      var next := pr.Next();
      match next {
        case Eof => return payload, messages, None;
        case Bad(e) => return payload, messages, Some(e);
        case Got(f) =>
          if f.kind.Flush? { return payload, messages, None; }
          if f.kind.Data? && f.payload != "" {
            var part := f.payload[1..];
            if f.payload[0] == BAND1 {
              BeforeOnBand(payload, messages, BAND1, part, more);
              payload := payload + part;
            } else if f.payload[0] == BAND2 || f.payload[0] == BAND3 {
              BeforeOnBand(payload, messages, BAND2, part, more);
              messages := messages + part;
            } else {
              return payload, messages, Some(BadBand);
            }
          }
      }
    }
  }

  predicate IsBand(band: char) {
    band == BAND1 || band == BAND2 || band == BAND3
  }

  /** A payload of any length sent on a band arrives whole, on that band, before whatever follows. */
  lemma {:induction false} UnbandedBanded(band: char, payload: string, rest: string)
    requires IsBand(band)
    ensures Unbanded(Banded(band, payload) + rest) == OnBand(band, payload, Unbanded(rest))
    decreases |payload|
  {
    hide Decoded, DataPkt, OnBand;
    if payload == "" {
      assert Banded(band, payload) + rest == rest;
      NothingOnBand(band, Unbanded(rest));
    } else {
      var chunk := FirstChunk(payload);
      var left := payload[|chunk|..];
      var more := Banded(band, left) + rest;
      assert Banded(band, payload) + rest == DataPkt([band] + chunk) + more;
      DecodedEncoded(Frame(Data, [band] + chunk), more);
      UnbandedBanded(band, left, rest);
      assert ([band] + chunk)[1..] == chunk && payload == chunk + left;
      OnBandTwice(band, chunk, left, Unbanded(rest));
    }
  }

  lemma NothingOnBand(band: char, more: Bands)
    ensures OnBand(band, "", more) == more
  {
    assert "" + more.payload == more.payload && "" + more.messages == more.messages;
  }

  lemma OnBandTwice(band: char, a: string, b: string, more: Bands)
    ensures OnBand(band, a, OnBand(band, b, more)) == OnBand(band, a + b, more)
  {
    assert a + (b + more.payload) == (a + b) + more.payload && a + (b + more.messages) == (a + b) + more.messages;
  }

  /** The decoder inverts the encoder on band 1. */
  lemma SidebandRoundTrip(payload: string)
    ensures Unbanded(Banded(BAND1, payload)) == Bands(payload, "", None)
    ensures Unbanded(Banded(BAND1, payload) + "0000") == Bands(payload, "", None)
  {
    hide Decoded;
    UnbandedBanded(BAND1, payload, "");
    UnbandedBanded(BAND1, payload, "0000");
    assert Banded(BAND1, payload) + "" == Banded(BAND1, payload) && payload + "" == payload;
    UnbandedEnds();
  }

  lemma UnbandedEnds()
    ensures Unbanded("") == Bands("", "", None) && Unbanded("0000") == Bands("", "", None)
  {
    hide Decoded;
    DecodedNothing();
    DecodedEncoded(Frame(Flush, ""), "");
    assert "0000" + "" == "0000";
  }

  lemma DecodedNothing()
    ensures Decoded("") == Read(Eof, "")
  {
  }

  predicate BandFrame(band: char, f: Frame) {
    f.kind.Data? && 1 < |f.payload| && |f.payload| + 4 <= 65520 && f.payload[0] == band
  }

  /** How many chunks a payload of n bytes takes. */
  function Chunks(n: nat): nat {
    (n + CHUNK - 1) / CHUNK
  }

  lemma OneChunkLess(n: nat)
    requires n > 0
    ensures Chunks(n) == 1 + Chunks(if n > CHUNK then n - CHUNK else 0)
  {
  }

  /** The frames of a banded payload: all data on that band, none empty, none over 65520 bytes in all, and no more
      of them than the payload needs. */
  lemma {:induction false} BandedFrames(band: char, payload: string)
    ensures var s := DecodedAll(Banded(band, payload));
      s.end == Eof && |s.frames| == Chunks(|payload|) && forall f :: f in s.frames ==> BandFrame(band, f)
    decreases |payload|
  {
    hide Decoded, DataPkt, Chunks, BandFrame;
    if payload == "" {
      DecodedNothing();
      NoChunks();
    } else {
      var chunk := FirstChunk(payload);
      var left := payload[|chunk|..];
      BandedFrames(band, left);
      OneMoreFrame(band, chunk, left);
      OneChunkLess(|payload|);
      assert Banded(band, payload) == DataPkt([band] + chunk) + Banded(band, left);
    }
  }

  lemma NoChunks()
    ensures Chunks(0) == 0
  {
  }

  lemma OneMoreFrame(band: char, chunk: string, left: string)
    requires 0 < |chunk| <= CHUNK
    ensures var more := DecodedAll(Banded(band, left));
      DecodedAll(DataPkt([band] + chunk) + Banded(band, left)) == Stream([Frame(Data, [band] + chunk)] + more.frames, more.end)
    ensures BandFrame(band, Frame(Data, [band] + chunk))
  {
    hide Decoded, DataPkt, Banded;
    DecodedEncoded(Frame(Data, [band] + chunk), Banded(band, left));
  }

  // ---- what is refused ----

  /** Digits of either case, and nothing else, stand for their place in the row of digits. */
  lemma HexExactly(c: char, v: nat)
    ensures HexValue(c) == Some(v) <==> v < 16 && (c == "0123456789abcdef"[v] || c == "0123456789ABCDEF"[v])
  {
    var row, caps := "0123456789abcdef", "0123456789ABCDEF";
    assert row[10..] == "abcdef" && caps[10..] == "ABCDEF" && row[..10] == "0123456789" == caps[..10];
    if v < 10 { DigitAt(v); assert row[..10][v] == row[v] && caps[..10][v] == caps[v]; }
    if 10 <= v < 16 { LetterAt(v - 10); assert row[10..][v - 10] == row[v] && caps[10..][v - 10] == caps[v]; }
  }

  lemma DigitAt(v: nat)
    requires v < 10
    ensures "0123456789"[v] == ('0' as int + v) as char
  {
  }

  lemma LetterAt(v: nat)
    requires v < 6
    ensures "abcdef"[v] == ('a' as int + v) as char && "ABCDEF"[v] == ('A' as int + v) as char
  {
  }

  /** A stream is refused at once exactly when it is not empty and is shorter than a header or than the length its header says,
      or the header is no number, 3, or more than 65520. */
  lemma RefusedExactly(s: string)
    ensures Decoded(s).outcome.Bad? <==>
              s != "" && (|s| < 4 || HexNumber(s[..4]).None?
                          || (var n := HexNumber(s[..4]).value; n == 3 || n > 65520 || (n > 3 && |s| < n)))
    ensures Decoded(s).outcome.Eof? <==> s == ""
  {
    hide HexNumber;
  }

  /** A frame on any other band ends the transfer with an error, and nothing of it arrives. */
  lemma OtherBandEnds(band: char, part: string, rest: string)
    requires band != 1 as char && band != 2 as char && band != 3 as char && |part| + 1 <= MAX_PAYLOAD
    ensures Unbanded(DataPkt([band] + part) + rest) == Bands("", "", Some(BadBand))
  {
    hide Decoded, DataPkt;
    DecodedEncoded(Frame(Data, [band] + part), rest);
  }
}
