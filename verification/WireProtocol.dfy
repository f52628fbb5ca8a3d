/** The two ends of the serial protocol against each other: what one prints the other parses back, and a
    whole request, answered by the host, ends in the kernel's task. */
module WireProtocol {
  import opened Word
  import opened Text
  import opened HexCodec
  import opened AiTask
  import opened SerialTransport
  import opened SerialFraming
  import opened AiBridge
  import opened HostBridge

  predicate NoDelimiter(s: string) {
    forall i :: 0 <= i < |s| ==> !Delimiter(s[i])
  }

  lemma PlainField(s: string)
    requires NoDelimiter(s)
    ensures '|' !in s && '\n' !in s && NUL !in s && IsAscii(s)
  {
  }

  lemma HexIsPlain(text: string, value: nat, digits: nat)
    ensures NoDelimiter(HexText(text)) && NoDelimiter(HexNumber(value, digits))
    ensures |HexText(text)| == 2 * |text|
  {
    HexTextPlain(text);
    NumberPlain(value, digits);
  }

  // ---------------------------------------------------------------- kernel to host

  // A frame as the host receives it: the newline cut off.
  function Line(frame: string): string {
    if frame == "" then "" else frame[..|frame| - 1]
  }

  lemma NothingToStrip(s: string)
    requires s != "" && s[|s| - 1] != '\n' && s[|s| - 1] != '\r'
    ensures StripEnd(s) == s
  {
  }

  lemma SplitSix(a: string, b: string, c: string, d: string, e: string, f: string)
    requires '|' !in a && '|' !in b && '|' !in c && '|' !in d && '|' !in e && '|' !in f
    ensures Split(a + "|" + (b + "|" + (c + "|" + (d + "|" + (e + "|" + f)))), '|') == [a, b, c, d, e, f]
  {
    SplitWhole(f, '|');
    SplitField(e, f, '|');
    SplitField(d, e + "|" + f, '|');
    SplitField(c, d + "|" + (e + "|" + f), '|');
    SplitField(b, c + "|" + (d + "|" + (e + "|" + f)), '|');
    SplitField(a, b + "|" + (c + "|" + (d + "|" + (e + "|" + f))), '|');
  }

  lemma SplitThree(a: string, b: string, c: string)
    requires '|' !in a && '|' !in b && '|' !in c
    ensures Split(a + "|" + (b + "|" + c), '|') == [a, b, c]
  {
    SplitWhole(c, '|');
    SplitField(b, c, '|');
    SplitField(a, b + "|" + c, '|');
  }

  // The request line, bracketed as its fields are split off.
  lemma RequestLine(id8: string, code2: string, prompt: string, profile: string)
    ensures "HNAI1|REQ|" + id8 + "|" + code2 + "|" + prompt + "|" + profile
            == "HNAI1" + "|" + ("REQ" + "|" + (id8 + "|" + (code2 + "|" + (prompt + "|" + profile))))
  {
    var four := prompt + "|" + profile;
    var three := code2 + "|" + four;
    var two := id8 + "|" + three;
    assert "HNAI1|REQ|" + id8 + "|" + code2 + "|" + prompt + "|" + profile
           == "HNAI1|REQ|" + id8 + "|" + code2 + "|" + four;
    assert "HNAI1|REQ|" + id8 + "|" + code2 + "|" + four == "HNAI1|REQ|" + id8 + "|" + three;
    assert "HNAI1|REQ|" + id8 + "|" + three == "HNAI1|REQ|" + two;
    assert "HNAI1|REQ|" == "HNAI1" + "|" + ("REQ" + "|");
    assert "HNAI1" + "|" + ("REQ" + "|") + two == "HNAI1" + "|" + ("REQ" + "|" + two);
  }

  // A prompt and profile the kernel can send and the host accepts.
  ghost predicate Sendable(h: Host, t: TaskView) {
    && t.profile.Some?
    && IsAscii(t.input) && |t.input| <= 159 && !Blank(h, t.input)
    && IsAscii(CStr(t.profile.value)) && |CStr(t.profile.value)| <= 512
  }

  lemma HexReads(text: string)
    requires IsAscii(text)
    ensures |HexText(text)| % 2 == 0 && Decode(HexText(text)) == Some(text)
  {
    HexTextPlain(text);
    hide HexText;
    assert IsBytes(text);
    DecodeEncode(text);
  }

  lemma FieldDecodes(h: Host, text: string, limit: nat)
    requires IsAscii(text) && |text| <= limit
    ensures DecodeHex(h, HexText(text), limit) == Ok(text)
  {
    hide HexText, Decode;
    HexReads(text);
    hide IsAscii;
  }

  lemma WordReads(id: u32, code: byte)
    ensures NumberFrom(HexNumber(id, 8)) == Some(id) && NumberFrom(HexNumber(code, 2)) == Some(code)
  {
    WordFits(id);
    WordFits(code);
    NumberReads(id, 8);
    NumberReads(code, 2);
  }

  lemma RequestText(t: TaskView)
    requires t.profile.Some?
    ensures Line(RequestFrame(t)) ==
            "HNAI1|REQ|" + HexNumber(t.id, 8) + "|" + HexNumber(TypeCode(t.kind), 2) + "|" + HexText(t.input)
            + "|" + HexText(CStr(t.profile.value))
    ensures RequestFrame(t) == Line(RequestFrame(t)) + "\n"
  {
    hide HexText, HexNumber, TypeCode, CStr;
  }

  lemma RequestFields(h: Host, t: TaskView)
    requires Sendable(h, t)
    ensures var line := Line(RequestFrame(t));
            && |line| <= 8192 && IsAscii(line)
            && Split(StripEnd(line), '|') ==
               ["HNAI1", "REQ", HexNumber(t.id, 8), HexNumber(TypeCode(t.kind), 2),
                HexText(t.input), HexText(CStr(t.profile.value))]
  {
    var line := Line(RequestFrame(t));
    var id8, code2 := HexNumber(t.id, 8), HexNumber(TypeCode(t.kind), 2);
    var hex, tail := HexText(t.input), HexText(CStr(t.profile.value));
    RequestText(t);
    HexIsPlain(t.input, t.id, 8);
    HexIsPlain(CStr(t.profile.value), TypeCode(t.kind), 2);
    hide HexText, HexNumber, TypeCode, RequestFrame, Line, CStr, NoDelimiter, Split, StripEnd;
    PlainField(id8);
    PlainField(code2);
    PlainField(hex);
    PlainField(tail);
    RequestLine(id8, code2, hex, tail);
    LineIsAscii(id8, code2, hex, tail);
    NothingToStrip(line);
    SplitSix("HNAI1", "REQ", id8, code2, hex, tail);
  }

  lemma FieldsParse(h: Host, line: string, fields: seq<string>, id: nat, code: nat, prompt: string, profile: string)
    requires |line| <= 8192 && IsAscii(line) && Split(StripEnd(line), '|') == fields && |fields| == 6
    requires fields[0] == "HNAI1" && fields[1] == "REQ" && |fields[2]| == 8 && |fields[3]| == 2
    requires NumberFrom(fields[2]) == Some(id) && NumberFrom(fields[3]) == Some(code)
    requires DecodeHex(h, fields[4], 512) == Ok(prompt) && DecodeHex(h, fields[5], 512) == Ok(profile)
    requires !Blank(h, prompt)
    ensures ParseRequest(h, line) == Ok(Request(HexNumber(id, 8), code, prompt, profile))
  {
    hide HexNumber, NumberFrom, DecodeHex, Split, StripEnd, IsAscii, Blank;
  }

  /** The host reads back exactly what the kernel sent: id, type, prompt and profile. */
  lemma RequestRoundTrip(h: Host, t: TaskView)
    requires Sendable(h, t)
    ensures ParseRequest(h, Line(RequestFrame(t))) ==
            Ok(Request(HexNumber(t.id, 8), TypeCode(t.kind), t.input, CStr(t.profile.value)))
  {
    var profile := CStr(t.profile.value);
    hide HexText, HexNumber, NumberFrom, DecodeHex, TypeCode, RequestFrame, Line, CStr, Split, StripEnd,
         IsAscii, Blank, ParseRequest;
    RequestFields(h, t);
    WordReads(t.id, TypeCode(t.kind));
    FieldDecodes(h, t.input, 512);
    FieldDecodes(h, profile, 512);
    var line, id8, code2 := Line(RequestFrame(t)), HexNumber(t.id, 8), HexNumber(TypeCode(t.kind), 2);
    var prompt', profile' := HexText(t.input), HexText(profile);
    var fields := ["HNAI1", "REQ", id8, code2, prompt', profile'];
    assert fields[2] == id8 && fields[3] == code2 && fields[4] == prompt' && fields[5] == profile';
    FieldsParse(h, line, fields, t.id, TypeCode(t.kind), t.input, profile);
  }

  lemma LineIsAscii(id8: string, code2: string, hex: string, tail: string)
    requires NoDelimiter(id8) && NoDelimiter(code2) && NoDelimiter(hex) && NoDelimiter(tail)
    requires |id8| == 8 && |code2| == 2 && |hex| <= 318 && |tail| <= 1024
    ensures var line := "HNAI1|REQ|" + id8 + "|" + code2 + "|" + hex + "|" + tail;
            IsAscii(line) && |line| <= 8192 && line[|line| - 1] != '\n' && line[|line| - 1] != '\r'
  {
    PlainField(id8);
    PlainField(code2);
    PlainField(hex);
    PlainField(tail);
    var line := "HNAI1|REQ|" + id8 + "|" + code2 + "|" + hex + "|" + tail;
    if tail == "" {
      assert line[|line| - 1] == '|';
    } else {
      assert line[|line| - 1] == tail[|tail| - 1] && !Delimiter(tail[|tail| - 1]);
    }
  }

  /** A submitted key is recovered exactly by the host, when it has 8 to 256 ASCII characters. */
  lemma KeyRoundTrip(h: Host, key: string)
    requires IsAscii(key) && 8 <= |key| <= 256
    ensures ParseApiKey(h, Line(KeyFrame(key))) == Ok(key)
    ensures KEY_PREFIX <= Line(KeyFrame(key)) && KeyFrame(key) == Line(KeyFrame(key)) + "\n"
  {
    var hex, line := HexText(key), Line(KeyFrame(key));
    HexIsPlain(key, 0, 0);
    PlainField(hex);
    FieldDecodes(h, key, 256);
    hide HexText, DecodeHex;
    assert line == "HNAI1|KEY|" + hex;
    assert line == "HNAI1" + "|" + ("KEY" + "|" + hex);
    assert line[|line| - 1] == hex[|hex| - 1] && !Delimiter(hex[|hex| - 1]);
    NothingToStrip(line);
    SplitThree("HNAI1", "KEY", hex);
    assert IsAscii(line);
  }

  // ---------------------------------------------------------------- host to kernel

  // The text that survives the way to the kernel.
  function Delivered(text: string): string {
    CStr(Take(AsciiReplaced(text), 900))
  }

  lemma AsciiSurvives(text: string)
    requires IsAscii(text) && NUL !in text
    ensures Delivered(text) == Take(text, 900)
  {
    assert AsciiReplaced(text) == text;
    CStrWhole(Take(text, 900));
  }

  /** Of a text without NULs at most 900 characters arrive, each as it is or as a question mark. */
  lemma DeliveredShows(text: string)
    requires NUL !in text
    ensures var seen := Delivered(text);
            && |seen| == Min(|text|, 900)
            && forall i :: 0 <= i < |seen| ==> seen[i] == if text[i] as int < 128 then text[i] else '?'
  {
    var shown := Take(AsciiReplaced(text), 900);
    forall i | 0 <= i < |shown| ensures shown[i] != NUL {
      assert text[i] in text;
    }
    assert NUL !in shown;
    hide AsciiReplaced, CStr;
    CStrWhole(shown);
  }

  lemma ResponseText(id: u32, ok: bool, text: string)
    ensures var frame, hex := ResponseFrame(HexNumber(id, 8), ok, text), HexText(Take(AsciiReplaced(text), 900));
            && frame == Line(frame) + "\n"
            && |Line(frame)| == 21 + |hex|
            && Line(frame)[..10] == RESPONSE && Line(frame)[10..18] == HexNumber(id, 8)
            && Line(frame)[18] == '|' && Line(frame)[19] == (if ok then 'S' else 'E')
            && Line(frame)[20] == '|' && Line(frame)[21..] == hex
  {
    hide HexText, HexNumber, Take, AsciiReplaced;
    var hex, id8 := EncodeHex(text), HexNumber(id, 8);
    assert Line(ResponseFrame(id8, ok, text)) == "HNAI1|RES|" + id8 + "|" + (if ok then "S" else "E") + "|" + hex;
  }

  /** The kernel's parse of a host response gives the first 900 characters of its text, cut at a NUL:
      DONE if the host says so, ERROR otherwise. */
  lemma ResponseRoundTrip(id: u32, ok: bool, text: string)
    ensures var line := Line(ResponseFrame(HexNumber(id, 8), ok, text));
            && ParseText(line, id) == Some(Reply(ok, Delivered(text)))
            && 21 <= |line| <= 1821
            && (IsAscii(text) && NUL !in text ==> Delivered(text) == Take(text, 900))
  {
    var sent := Take(AsciiReplaced(text), 900);
    var line := Line(ResponseFrame(HexNumber(id, 8), ok, text));
    ResponseText(id, ok, text);
    HexIsPlain(sent, 0, 0);
    PlainField(HexText(sent));
    CStrWhole(HexText(sent));
    assert IsBytes(sent);
    DecodeEncode(sent);
    WordReads(id, 0);
    assert Take(sent, 1023) == sent;
    if IsAscii(text) && NUL !in text {
      AsciiSurvives(text);
    }
    hide HexText, HexNumber, NumberFrom, Decode, CStr, ResponseFrame, Line;
  }

  predicate OneLine(s: string) {
    '\n' !in s && '\r' !in s
  }

  lemma OneLineConcat(a: string, b: string)
    requires OneLine(a) && OneLine(b)
    ensures OneLine(a + b)
  {
  }

  lemma ResponseIsOneLine(id: u32, ok: bool, text: string)
    ensures OneLine(Line(ResponseFrame(HexNumber(id, 8), ok, text)))
  {
    var hex, id8, status := EncodeHex(text), HexNumber(id, 8), if ok then "S" else "E";
    HexIsPlain(Take(AsciiReplaced(text), 900), id, 8);
    assert OneLine(hex) && OneLine(id8) && OneLine(status) && OneLine("HNAI1|RES|") && OneLine("|");
    hide HexText, HexNumber, Take, AsciiReplaced, OneLine, NoDelimiter;
    OneLineConcat("HNAI1|RES|", id8);
    OneLineConcat("HNAI1|RES|" + id8, "|");
    OneLineConcat("HNAI1|RES|" + id8 + "|", status);
    OneLineConcat("HNAI1|RES|" + id8 + "|" + status, "|");
    OneLineConcat("HNAI1|RES|" + id8 + "|" + status + "|", hex);
    assert Line(ResponseFrame(id8, ok, text)) == "HNAI1|RES|" + id8 + "|" + status + "|" + hex;
  }

  // Reading one whole line off the queue parses it.
  lemma {:induction false} DrainLine(p: Port, read: string, rest: string, id: u32)
    requires PortInv(p) && p.line[..p.length] == read && p.queue == rest + "\n"
    requires OneLine(rest) && |read| + |rest| <= 2303
    ensures Holds(Drain(p, id).0.line, read + rest)
    ensures Drain(p, id).1 == ParseLine(Drain(p, id).0.line, id)
    decreases |rest|
  {
    DrainUnfold(p, id);
    var c, next := p.queue[0], p.(queue := p.queue[1..]);
    FeedKeeps(next, c);
    if rest == "" {
      NewlineHolds(next);
      Unit(read);
      assert next.queue == "";
      DrainUnfold(Feed(next, c), id);
      hide ParseLine, PortInv, Feed, Drain;
      LoneLine(p, id);
    } else {
      assert c == rest[0] && next.queue == rest[1..] + "\n";
      var fed := Feed(next, c);
      assert fed.line[..fed.length] == read + [c];
      assert read + rest == read + [c] + rest[1..];
      assert Drain(p, id) == Drain(fed, id);
      hide ParseLine, PortInv, Feed, Drain, Holds;
      DrainLine(fed, read + [c], rest[1..], id);
    }
  }

  lemma LoneLine(p: Port, id: u32)
    requires PortInv(p) && p.queue == "\n"
    ensures var fed := Feed(p.(queue := ""), '\n');
            Drain(p, id) == (fed, ParseLine(fed.line, id))
  {
    hide ParseLine;
  }

  // The host's answer to a sendable request.
  lemma HostAnswers(h: Host, n: nat, key: string, t: TaskView)
    requires t.kind != NoTask && Sendable(h, t)
    ensures HandleFrame(h, n, Line(RequestFrame(t)), key) ==
            match h.provider(n, t.input, CStr(t.profile.value), key)
            case Ok(output) => ResponseFrame(HexNumber(t.id, 8), true, output)
            case Fail(message) => ResponseFrame(HexNumber(t.id, 8), false, message)
  {
    RequestRoundTrip(h, t);
    hide HexNumber, RequestFrame, ParseRequest, ResponseFrame, Line, Sendable, CStr;
  }

  // The kernel reads one whole response between two lines.
  lemma KernelReads(p: Port, id: u32, ok: bool, text: string)
    requires PortInv(p) && p.queue == "" && p.length == 0
    ensures Drain(Receive(p, ResponseFrame(HexNumber(id, 8), ok, text)), id).1 == Some(Reply(ok, Delivered(text)))
  {
    var frame := ResponseFrame(HexNumber(id, 8), ok, text);
    var line := Line(frame);
    ResponseRoundTrip(id, ok, text);
    ResponseIsOneLine(id, ok, text);
    ResponseText(id, ok, text);
    ReceiveKeeps(p, frame);
    hide ResponseFrame, HexText, HexNumber, Take, AsciiReplaced, Receive, Line, Delivered, PortInv;
    var q := Receive(p, frame);
    Unit(frame);
    assert q.line[..0] == "" && q.queue == line + "\n";
    DrainLine(q, "", line, id);
    Unit(line);
    hide Drain, ParseLine, ParseText;
    ParseIsPure(Drain(q, id).0.line, line, id);
  }

  /** End to end: when the host handles the request of a running task and the kernel reads the response
      between two lines, the task ends DONE with the provider's text (its first 900 characters), or ERROR
      with the provider's message. */
  lemma EndToEnd(h: Host, n: nat, key: string, b: BridgeView)
    requires PortInv(b.port) && b.port.queue == "" && b.port.length == 0
    requires Listening(b) && b.task.kind == HnLang && Sendable(h, b.task)
    ensures var answer := h.provider(n, b.task.input, CStr(b.task.profile.value), key);
            var bytes := HandleFrame(h, n, Line(RequestFrame(b.task)), key);
            var text := Delivered(match answer case Ok(output) => output case Fail(message) => message);
            && Poll(b, bytes, true).1
            && Poll(b, bytes, true).0.task ==
               WithOutput(b.task, text).(status := if answer.Ok? then Done else Error)
  {
    var answer := h.provider(n, b.task.input, CStr(b.task.profile.value), key);
    HostAnswers(h, n, key, b.task);
    KernelReads(b.port, b.task.id, answer.Ok?, match answer case Ok(output) => output case Fail(message) => message);
    hide HandleFrame, ResponseFrame, HexNumber, Receive, Line, Delivered, RequestFrame, Sendable, PortInv, Drain,
         Copied, CStr;
  }

  // ---------------------------------------------------------------- frames as they stand on the wire

  /** A request for the prompt "hi" with the profile "p", and the answer "ok" to it. */
  lemma ExampleFrames()
    ensures RequestFrame(TaskView(26, HnLang, "hi", Some("p"), Pending, "")) ==
            "HNAI1|REQ|" + "0000001A" + "|" + "06" + "|" + "6869" + "|" + "70" + "\n"
    ensures ResponseFrame("0000001A", true, "ok") == "HNAI1|RES|" + "0000001A" + "|" + "S" + "|" + "6F6B" + "\n"
    ensures KeyFrame("sk") == "HNAI1|KEY|" + "736B" + "\n"
  {
    ExampleNumbers();
    ExampleTexts();
    CStrWhole("p");
    assert |"ok"| == 2 && AsciiReplaced("ok") == "ok";
    hide HexText, HexNumber, CStr;
  }

  lemma ExampleNumbers()
    ensures HexNumber(26, 8) == "0000001A" && HexNumber(6, 2) == "06"
  {
    ZeroDigits(6);
    assert HexNumber(1, 7) == HexNumber(0, 6) + "1";
    assert HexNumber(26, 8) == HexNumber(1, 7) + "A";
    assert HexNumber(0, 1) == HexNumber(0, 0) + "0";
    assert HexNumber(6, 2) == HexNumber(0, 1) + "6";
  }

  lemma {:induction false} ZeroDigits(n: nat)
    ensures HexNumber(0, n) == seq(n, _ => '0')
  {
    if n > 0 {
      ZeroDigits(n - 1);
      assert seq(n, _ => '0') == seq(n - 1, _ => '0') + ['0'];
    }
  }

  lemma ExampleTexts()
    ensures HexText("hi") == "6869" && HexText("p") == "70" && HexText("ok") == "6F6B" && HexText("sk") == "736B"
  {
    TwoLetters('h', 'i');
    TwoLetters('o', 'k');
    TwoLetters('s', 'k');
    assert "p"[1..] == "";
    assert HexText("p") == HexByte('p') + HexText("");
    hide HexText;
  }

  lemma TwoLetters(a: char, b: char)
    ensures HexText([a, b]) == HexByte(a) + HexByte(b)
  {
    assert [a, b][1..] == [b] && [b][1..] == "";
    assert HexText([b]) == HexByte(b) + HexText("");
    hide HexByte;
  }
}
