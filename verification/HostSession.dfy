/** The host's session as the kernel sees it: which key the provider is called with, and what is sent back. */
module HostSession {
  import opened Text
  import opened HexCodec
  import opened AiTask
  import opened SerialTransport
  import opened HostBridge
  import opened WireProtocol

  // ---------------------------------------------------------------- the key

  // The key of the last accepted key frame, or the one from before.
  function LastKey(h: Host, lines: seq<string>, before: string): string {
    if lines == [] then before
    else
      var last := lines[|lines| - 1];
      if "HNAI1|KEY|" <= last && ParseApiKey(h, last).Ok? then ParseApiKey(h, last).value
      else LastKey(h, lines[..|lines| - 1], before)
  }

  lemma {:induction false} LastKeyFirst(h: Host, line: string, rest: seq<string>, before: string)
    ensures LastKey(h, [line] + rest, before) == LastKey(h, rest, LastKey(h, [line], before))
  {
    var lines := [line] + rest;
    if rest == [] {
      assert lines == [line];
    } else {
      assert lines[..|lines| - 1] == [line] + rest[..|rest| - 1];
      hide ParseApiKey;
      LastKeyFirst(h, line, rest[..|rest| - 1], before);
    }
  }

  lemma LineKey(h: Host, s: Session, line: string)
    ensures HandleLine(h, s, line).key == LastKey(h, [line], s.key)
  {
    assert [line][..0] == [];
    hide ParseApiKey, HandleFrame, ResponseFrame;
  }

  /** After any frames the session's key is that of the last accepted key frame: no other frame, and no refused
      key, changes it. */
  lemma {:induction false} KeyIsLastAccepted(h: Host, s: Session, lines: seq<string>)
    ensures HandleLines(h, s, lines).key == LastKey(h, lines, s.key)
    decreases |lines|
  {
    if lines != [] {
      assert lines == [lines[0]] + lines[1..];
      LineKey(h, s, lines[0]);
      LastKeyFirst(h, lines[0], lines[1..], s.key);
      hide HandleLine, LastKey;
      KeyIsLastAccepted(h, HandleLine(h, s, lines[0]), lines[1..]);
    }
  }

  // ---------------------------------------------------------------- what is sent

  // How every answer begins: the header, the id and the status.
  function AnswerHead(id: string, ok: bool): string {
    "HNAI1|RES|" + id + "|" + (if ok then "S" else "E") + "|"
  }

  lemma AnswerBegins(id: string, ok: bool, text: string)
    ensures AnswerHead(id, ok) <= ResponseFrame(id, ok, text)
  {
    hide EncodeHex;
  }

  /** A key frame with an unreadable, short or long key leaves key and count alone, and is answered by one frame
      with id 00000000 and status E. */
  lemma RefusedKeyAnswered(h: Host, s: Session, line: string)
    requires "HNAI1|KEY|" <= line && ParseApiKey(h, line).Fail?
    ensures HandleLine(h, s, line) ==
            s.(sent := s.sent + ResponseFrame("00000000", false, ParseApiKey(h, line).message))
    ensures AnswerHead("00000000", false) <= ResponseFrame("00000000", false, ParseApiKey(h, line).message)
  {
    AnswerBegins("00000000", false, ParseApiKey(h, line).message);
    hide ParseApiKey, ResponseFrame, AnswerHead;
  }

  /** A request the host cannot read is answered, without calling the provider, by one frame with id 00000000 and
      status E. */
  lemma UnreadableAnswered(h: Host, s: Session, line: string)
    requires !("HNAI1|KEY|" <= line) && ParseRequest(h, line).Fail?
    ensures HandleLine(h, s, line).sent == s.sent + ResponseFrame("00000000", false, ParseRequest(h, line).message)
    ensures HandleLine(h, s, line).key == s.key
    ensures AnswerHead("00000000", false) <= ResponseFrame("00000000", false, ParseRequest(h, line).message)
  {
    AnswerBegins("00000000", false, ParseRequest(h, line).message);
    hide ParseRequest, ResponseFrame, AnswerHead;
  }

  /** A request is only read from an ASCII line of six fields with the protocol's header, an id of eight and a type
      of two characters, and a prompt that is not blank; hexadecimal prompts and profiles have at most 512 bytes. */
  lemma RequestNeeds(h: Host, line: string)
    requires ParseRequest(h, line).Ok?
    ensures |line| <= 8192 && IsAscii(line)
    ensures var fields, r := Split(StripEnd(line), '|'), ParseRequest(h, line).value;
            && |fields| == 6 && fields[0] == "HNAI1" && fields[1] == "REQ" && |fields[2]| == 8 && |fields[3]| == 2
            && !Blank(h, r.prompt)
            && (Decode(fields[4]).Some? ==> |Decode(fields[4]).value| <= 512)
            && (Decode(fields[5]).Some? ==> |Decode(fields[5]).value| <= 512)
            && (NumberFrom(fields[2]).Some? ==> r.id == HexNumber(NumberFrom(fields[2]).value, 8))
            && (NumberFrom(fields[3]).Some? ==> r.kind == NumberFrom(fields[3]).value)
  {
    hide Decode, NumberFrom, HexNumber, Split, StripEnd, IsAscii, Blank;
  }

  /** A key is only taken from an ASCII line of three fields with the protocol's header; a plain hexadecimal field is a
      key exactly when it holds 8 to 256 bytes. */
  lemma KeyNeeds(h: Host, line: string)
    ensures var fields := Split(StripEnd(line), '|');
            && (ParseApiKey(h, line).Ok? ==>
                  IsAscii(line) && |fields| == 3 && fields[0] == "HNAI1" && fields[1] == "KEY" && |fields[2]| % 2 == 0)
            && (IsAscii(line) && |fields| == 3 && fields[0] == "HNAI1" && fields[1] == "KEY"
                && Decode(fields[2]).Some? && IsAscii(Decode(fields[2]).value) ==>
                  (ParseApiKey(h, line).Ok? <==> 8 <= |Decode(fields[2]).value| <= 256)
                  && (ParseApiKey(h, line).Ok? ==> ParseApiKey(h, line).value == Decode(fields[2]).value))
  {
    var fields := Split(StripEnd(line), '|');
    if |fields| == 3 {
      DecodesExactly(fields[2]);
    }
    hide Decode, Split, StripEnd, IsAscii;
  }

  /** Returns and newlines at the end of a key or of a request that fits do not matter. */
  lemma ReturnIgnored(h: Host, line: string)
    ensures ParseApiKey(h, line + "\r") == ParseApiKey(h, line)
    ensures |line| < 8192 ==> ParseRequest(h, line + "\r") == ParseRequest(h, line)
  {
    var more := line + "\r";
    assert more[..|more| - 1] == line;
    assert StripEnd(more) == StripEnd(line);
    ReturnIsAscii(line);
    hide IsAscii, StripEnd, DecodeHex, NumberFrom, HexNumber, Split, Blank;
  }

  lemma ReturnIsAscii(line: string)
    ensures IsAscii(line + "\r") == IsAscii(line)
  {
    var more := line + "\r";
    assert forall i :: 0 <= i < |line| ==> more[i] == line[i];
  }

  /** A request of a type other than 1 to 7 is answered under its own id with status E, and the provider is not
      called. */
  lemma UnsupportedAnswered(h: Host, n: nat, line: string, key: string)
    requires ParseRequest(h, line).Ok? && !(1 <= ParseRequest(h, line).value.kind <= 7)
    ensures HandleFrame(h, n, line, key) ==
            ResponseFrame(ParseRequest(h, line).value.id, false, "unsupported task type")
  {
    hide ParseRequest, ResponseFrame;
  }

  /** When more than 8192 bytes are pending they are thrown away, answered by one frame with id 00000000 and status
      E, and the session stays as it is. */
  lemma OverflowAnswered(h: Host, s: Session, chunk: string)
    requires |s.pending| + |chunk| > 8192
    ensures Serve(h, s, chunk) ==
            Session("", s.key, s.sent + ResponseFrame("00000000", false, "frame too large"), s.handled)
    ensures AnswerHead("00000000", false) <= ResponseFrame("00000000", false, "frame too large")
  {
    AnswerBegins("00000000", false, "frame too large");
    hide ResponseFrame, AnswerHead, HandleLines, Lines, Unfinished;
  }

  // ---------------------------------------------------------------- a key, then a request

  lemma KeyLineFits(key: string)
    requires IsAscii(key) && |key| <= 256
    ensures '\n' !in Line(KeyFrame(key)) && |Line(KeyFrame(key))| <= 522
    ensures KeyFrame(key) == Line(KeyFrame(key)) + "\n"
  {
    HexIsPlain(key, 0, 0);
    PlainField(HexText(key));
    hide HexText;
    assert Line(KeyFrame(key)) == "HNAI1|KEY|" + HexText(key);
  }

  lemma RequestLineFits(h: Host, t: TaskView)
    requires Sendable(h, t)
    ensures '\n' !in Line(RequestFrame(t)) && |Line(RequestFrame(t))| <= 1365
    ensures RequestFrame(t) == Line(RequestFrame(t)) + "\n"
    ensures !("HNAI1|KEY|" <= Line(RequestFrame(t)))
  {
    var profile := CStr(t.profile.value);
    RequestText(t);
    HexIsPlain(t.input, t.id, 8);
    HexIsPlain(profile, TypeCode(t.kind), 2);
    var id8, code2, hex, tail := HexNumber(t.id, 8), HexNumber(TypeCode(t.kind), 2), HexText(t.input), HexText(profile);
    PlainField(id8);
    PlainField(code2);
    PlainField(hex);
    PlainField(tail);
    hide HexText, HexNumber, RequestFrame, TypeCode, CStr, Blank, IsAscii, Line, NoDelimiter;
    var line := Line(RequestFrame(t));
    assert line == "HNAI1|REQ|" + id8 + "|" + code2 + "|" + hex + "|" + tail;
    assert line[6] == 'R';
  }

  lemma TwoLines(a: string, b: string)
    requires '\n' !in a && '\n' !in b
    ensures Split(a + "\n" + (b + "\n"), '\n') == [a, b, ""]
    ensures Lines(a + "\n" + (b + "\n")) == [a, b] && Unfinished(a + "\n" + (b + "\n")) == ""
  {
    SplitWhole("", '\n');
    SplitField(b, "", '\n');
    Unit(b + "\n");
    SplitField(a, b + "\n", '\n');
    hide Split;
    assert [a] + ([b] + [""]) == [a, b, ""];
    assert [a, b, ""][..2] == [a, b];
  }

  lemma TwoFit(a: string, b: string)
    requires '\n' !in a && '\n' !in b && |a| <= 7168 && |b| <= 7168
    ensures FramesFit(a + "\n" + (b + "\n"))
  {
    TwoLines(a, b);
  }

  lemma TwoHandled(h: Host, s: Session, a: string, b: string)
    ensures HandleLines(h, s, [a, b]) == HandleLine(h, HandleLine(h, s, a), b)
  {
    assert [a, b][1..] == [b] && [b][1..] == [];
    hide HandleLine;
    var t := HandleLine(h, s, a);
    assert HandleLines(h, s, [a, b]) == HandleLines(h, t, [b]) == HandleLines(h, HandleLine(h, t, b), []);
  }

  // The provider's answer, as the frame that carries it back.
  function AnswerFrame(h: Host, n: nat, t: TaskView, profile: string, key: string): string {
    match h.provider(n, t.input, profile, key)
    case Ok(output) => ResponseFrame(HexNumber(t.id, 8), true, output)
    case Fail(message) => ResponseFrame(HexNumber(t.id, 8), false, message)
  }

  /** In every session, a key of 8 to 256 ASCII characters and then a sendable request, in any pieces of at most
      1024 bytes: the provider is called once, with the request's prompt and profile and this key, its answer goes
      back in one frame with the request's id, and the key stays. */
  lemma KeyThenRequest(h: Host, s: Session, key: string, t: TaskView, chunks: seq<string>)
    requires s.pending == "" && IsAscii(key) && 8 <= |key| <= 256 && t.kind != NoTask && Sendable(h, t)
    requires Concat(chunks) == KeyFrame(key) + RequestFrame(t)
    requires forall i :: 0 <= i < |chunks| ==> |chunks[i]| <= 1024
    ensures ServeAll(h, s, chunks) ==
            Session("", key, s.sent + AnswerFrame(h, s.handled, t, CStr(t.profile.value), key), s.handled + 1)
  {
    var k, r := Line(KeyFrame(key)), Line(RequestFrame(t));
    KeyLineFits(key);
    RequestLineFits(h, t);
    KeyRoundTrip(h, key);
    HostAnswers(h, s.handled, key, t);
    hide KeyFrame, RequestFrame, Line, Sendable, IsAscii, CStr, ResponseFrame, HexNumber, ParseApiKey, HandleFrame;
    TwoFit(k, r);
    TwoLines(k, r);
    hide Lines, Unfinished, FramesFit;
    ServeIndependentOfChunks(h, s, chunks);
    TwoHandled(h, s, k, r);
    hide HandleLines;
  }

  /** The same for a request alone: the provider is called with the session's key. */
  lemma RequestUsesKey(h: Host, s: Session, t: TaskView)
    requires t.kind != NoTask && Sendable(h, t)
    ensures HandleLine(h, s, Line(RequestFrame(t))) ==
            s.(sent := s.sent + AnswerFrame(h, s.handled, t, CStr(t.profile.value), s.key), handled := s.handled + 1)
  {
    RequestLineFits(h, t);
    HostAnswers(h, s.handled, s.key, t);
    hide RequestFrame, Line, Sendable, CStr, ResponseFrame, HexNumber, HandleFrame;
  }
}
