/** The host's end of the serial protocol: field codecs, request and key parsing, response frames, and
    the receive loop that cuts the byte stream into frames. */
module HostBridge {
  import opened Text
  import opened HexCodec

  datatype Result<+T> = Ok(value: T) | Fail(message: string)

  // What the host leaves to its runtime and to the provider: decoding bytes above 127, what its number
  // and hex readers accept beyond plain hexadecimal digits, white space above 127, and the n-th answer.
  datatype Host = Host(
    utf8: string -> string,
    lenientId: string -> Option<string>,
    lenientType: string -> Option<int>,
    lenientBytes: string -> Option<string>,
    wideSpace: char -> bool,
    provider: (nat, string, string, string) -> Result<string>)

  datatype Request = Request(id: string, kind: int, prompt: string, profile: string)

  // ---------------------------------------------------------------- fields

  function DecodeHex(h: Host, value: string, limit: nat): Result<string> {
    if |value| % 2 == 1 then Fail("odd-length hex field")
    else
      var plain := Decode(value);
      var raw := if plain.Some? then plain else h.lenientBytes(value);
      if raw == None then Fail("invalid hex field")
      else if |raw.value| > limit then Fail("field exceeds protocol limit")
      else Ok(if IsAscii(raw.value) then raw.value else h.utf8(raw.value))
  }

  // Characters above 127 become question marks.
  function AsciiReplaced(s: string): string {
    seq(|s|, i requires 0 <= i < |s| => if s[i] as int < 128 then s[i] else '?')
  }

  function EncodeHex(value: string): string {
    HexText(Take(AsciiReplaced(value), 900))
  }

  function StripEnd(s: string): string {
    if s != [] && (s[|s| - 1] == '\r' || s[|s| - 1] == '\n') then StripEnd(s[..|s| - 1]) else s
  }

  predicate IsSpace(h: Host, c: char) {
    if c as int < 128 then 9 <= c as int <= 13 || 28 <= c as int <= 32 else h.wideSpace(c)
  }

  predicate Blank(h: Host, s: string) {
    forall i :: 0 <= i < |s| ==> IsSpace(h, s[i])
  }

  // ---------------------------------------------------------------- frames

  function ParseRequest(h: Host, line: string): Result<Request> {
    if |line| > 8192 then Fail("frame too large")
    else if !IsAscii(line) then Fail("frame must be ASCII")
    else
      var fields := Split(StripEnd(line), '|');
      if |fields| != 6 || fields[0] != "HNAI1" || fields[1] != "REQ" then Fail("invalid request frame")
      else if |fields[2]| != 8 || |fields[3]| != 2 then Fail("invalid request identifiers")
      else
        var number, code := NumberFrom(fields[2]), NumberFrom(fields[3]);
        var id := if number.Some? then Some(HexNumber(number.value, 8)) else h.lenientId(fields[2]);
        var kind := if code.Some? then Some(code.value as int) else h.lenientType(fields[3]);
        if id == None || kind == None then Fail("invalid request identifiers")
        else
          var prompt, profile := DecodeHex(h, fields[4], 512), DecodeHex(h, fields[5], 512);
          if prompt.Fail? then Fail(prompt.message)
          else if profile.Fail? then Fail(profile.message)
          else if Blank(h, prompt.value) then Fail("empty prompt")
          else Ok(Request(id.value, kind.value, prompt.value, profile.value))
  }

  function ResponseFrame(id: string, success: bool, text: string): string {
    "HNAI1|RES|" + id + "|" + (if success then "S" else "E") + "|" + EncodeHex(text) + "\n"
  }

  function ParseApiKey(h: Host, line: string): Result<string> {
    if !IsAscii(line) then Fail("key frame must be ASCII")
    else
      var fields := Split(StripEnd(line), '|');
      if |fields| != 3 || fields[0] != "HNAI1" || fields[1] != "KEY" then Fail("invalid key frame")
      else
        var key := DecodeHex(h, fields[2], 256);
        if key.Ok? && |key.value| < 8 then Fail("API key is too short") else key
  }

  function HandleFrame(h: Host, n: nat, line: string, key: string): string {
    match ParseRequest(h, line)
    case Fail(message) => ResponseFrame("00000000", false, message)
    case Ok(r) =>
      if !(1 <= r.kind <= 7) then ResponseFrame(r.id, false, "unsupported task type")
      else
        match h.provider(n, r.prompt, r.profile, key)
        case Ok(output) => ResponseFrame(r.id, true, output)
        case Fail(message) => ResponseFrame(r.id, false, message)
  }

  // ---------------------------------------------------------------- the receive loop

  const KEY_PREFIX := "HNAI1|KEY|"

  // The unfinished frame, the session's key, what was sent to the kernel, and the frames handled.
  datatype Session = Session(pending: string, key: string, sent: string, handled: nat)

  function HandleLine(h: Host, s: Session, line: string): (r: Session)
    ensures r.pending == s.pending
  {
    if KEY_PREFIX <= line then
      match ParseApiKey(h, line)
      case Ok(key) => s.(key := key)
      case Fail(message) => s.(sent := s.sent + ResponseFrame("00000000", false, message))
    else s.(sent := s.sent + HandleFrame(h, s.handled, line, s.key), handled := s.handled + 1)
  }

  function HandleLines(h: Host, s: Session, lines: seq<string>): Session
    decreases |lines|
  {
    if lines == [] then s else HandleLines(h, HandleLine(h, s, lines[0]), lines[1..])
  }

  function Serve(h: Host, s: Session, chunk: string): Session {
    var pending := s.pending + chunk;
    if |pending| > 8192
    then s.(pending := "", sent := s.sent + ResponseFrame("00000000", false, "frame too large"))
    else HandleLines(h, s.(pending := ""), Lines(pending)).(pending := Unfinished(pending))
  }

  function ServeAll(h: Host, s: Session, chunks: seq<string>): Session
    decreases |chunks|
  {
    if chunks == [] then s else ServeAll(h, Serve(h, s, chunks[0]), chunks[1..])
  }

  // ---------------------------------------------------------------- the loop does not depend on chunks

  lemma CutLine(line: string, rest: string)
    requires '\n' !in line
    ensures Lines(line + "\n" + rest) == [line] + Lines(rest)
    ensures Unfinished(line + "\n" + rest) == Unfinished(rest)
  {
    SplitField(line, rest, '\n');
  }

  lemma NoLine(s: string)
    requires '\n' !in s
    ensures Lines(s) == [] && Unfinished(s) == s
  {
    SplitWhole(s, '\n');
  }

  lemma UnfinishedHasNoNewline(s: string)
    ensures '\n' !in Unfinished(s)
  {
    SplitJoins(s, '\n');
  }

  // Cutting a stream again behind its unfinished line.
  lemma LinesAppend(a: string, c: string)
    ensures Lines(a + c) == Lines(a) + Lines(Unfinished(a) + c)
    ensures Unfinished(a + c) == Unfinished(Unfinished(a) + c)
  {
    var p, q, u := Split(a, '\n'), Split(c, '\n'), Unfinished(a);
    SplitAppend(a, c, '\n');
    SplitAppend(u, c, '\n');
    UnfinishedHasNoNewline(a);
    SplitWhole(u, '\n');
    hide Split;
    GlueLast(p, u, q);
    var g := Glue([u], q);
    hide Glue;
    AllButLast(p[..|p| - 1], g);
  }

  lemma GlueLast(p: seq<string>, u: string, q: seq<string>)
    requires |p| > 0 && |q| > 0 && u == p[|p| - 1]
    ensures Glue(p, q) == p[..|p| - 1] + Glue([u], q)
  {
    assert [u][..0] == [];
    Unit([u + q[0]]);
    Assoc(p[..|p| - 1], [u + q[0]], q[1..]);
  }

  lemma AllButLast(a: seq<string>, b: seq<string>)
    requires |b| > 0
    ensures (a + b)[..|a + b| - 1] == a + b[..|b| - 1] && (a + b)[|a + b| - 1] == b[|b| - 1]
  {
  }

  lemma {:induction false} HandleLinesAppend(h: Host, s: Session, a: seq<string>, b: seq<string>)
    ensures HandleLines(h, s, a + b) == HandleLines(h, HandleLines(h, s, a), b)
    decreases |a|
  {
    if a == [] {
      assert a + b == b;
    } else {
      assert (a + b)[0] == a[0] && (a + b)[1..] == a[1..] + b;
      HandleLinesAppend(h, HandleLine(h, s, a[0]), a[1..], b);
    }
  }

  // Handling frames neither reads nor writes the unfinished one.
  lemma {:induction false} HandleLinesPending(h: Host, s: Session, lines: seq<string>, pending: string)
    ensures HandleLines(h, s.(pending := pending), lines) == HandleLines(h, s, lines).(pending := pending)
    decreases |lines|
  {
    if lines != [] {
      assert HandleLine(h, s.(pending := pending), lines[0]) == HandleLine(h, s, lines[0]).(pending := pending);
      hide HandleLine;
      HandleLinesPending(h, HandleLine(h, s, lines[0]), lines[1..], pending);
    }
  }

  function Concat(chunks: seq<string>): string {
    if chunks == [] then "" else chunks[0] + Concat(chunks[1..])
  }

  // Every frame of a stream, the unfinished one included, has at most 7168 bytes.
  ghost predicate FramesFit(stream: string) {
    forall i :: 0 <= i < |Split(stream, '\n')| ==> |Split(stream, '\n')[i]| <= 7168
  }

  lemma FramesFitPrefix(a: string, b: string)
    requires FramesFit(a + b)
    ensures FramesFit(a) && |Unfinished(a)| <= 7168
  {
    SplitAppend(a, b, '\n');
    var p, q := Split(a, '\n'), Split(b, '\n');
    forall i | 0 <= i < |p| ensures |p[i]| <= 7168 {
      assert i < |p| - 1 ==> Split(a + b, '\n')[i] == p[i];
      assert Split(a + b, '\n')[|p| - 1] == p[|p| - 1] + q[0];
    }
  }

  // The session after a stream: its complete frames handled in order, the rest pending.
  function Served(h: Host, s: Session, stream: string): Session {
    HandleLines(h, s.(pending := ""), Lines(stream)).(pending := Unfinished(stream))
  }

  lemma ServeContinues(h: Host, s: Session, before: string, chunk: string)
    requires FramesFit(before) && |chunk| <= 1024
    ensures Serve(h, Served(h, s, before), chunk) == Served(h, s, before + chunk)
  {
    var t := Served(h, s, before);
    var done := HandleLines(h, s.(pending := ""), Lines(before));
    var more := Lines(Unfinished(before) + chunk);
    assert |Unfinished(before)| <= 7168;
    LinesAppend(before, chunk);
    HandleLinesAppend(h, s.(pending := ""), Lines(before), more);
    HandleLinesPending(h, s.(pending := ""), Lines(before), "");
    hide HandleLines, Lines, Unfinished, FramesFit;
    assert t.(pending := "") == done;
  }

  lemma {:induction false} ServeAllContinues(h: Host, s: Session, before: string, chunks: seq<string>)
    requires FramesFit(before + Concat(chunks))
    requires forall i :: 0 <= i < |chunks| ==> |chunks[i]| <= 1024
    ensures ServeAll(h, Served(h, s, before), chunks) == Served(h, s, before + Concat(chunks))
    decreases |chunks|
  {
    if chunks == [] {
      Unit(before);
    } else {
      FramesFitPrefix(before, Concat(chunks));
      ServeContinues(h, s, before, chunks[0]);
      Assoc(before, chunks[0], Concat(chunks[1..]));
      hide Serve, Served, FramesFit;
      ServeAllContinues(h, s, before + chunks[0], chunks[1..]);
    }
  }

  /** The host handles exactly the newline split of the stream, however it is cut into pieces of at most
      1024 bytes, when every frame has at most 7168 bytes. */
  lemma ServeIndependentOfChunks(h: Host, s: Session, chunks: seq<string>)
    requires s.pending == "" && FramesFit(Concat(chunks))
    requires forall i :: 0 <= i < |chunks| ==> |chunks[i]| <= 1024
    ensures ServeAll(h, s, chunks) ==
            HandleLines(h, s, Lines(Concat(chunks))).(pending := Unfinished(Concat(chunks)))
  {
    NoLine("");
    Unit(Concat(chunks));
    assert FramesFit("") by { FramesFitPrefix("", Concat(chunks)); }
    assert Served(h, s, "") == s;
    ServeAllContinues(h, s, "", chunks);
  }

  class Server {
    const host: Host
    var pending: string
    var key: string
    var sent: string
    var handled: nat

    ghost function View(): Session
      reads this
    {
      Session(pending, key, sent, handled)
    }

    constructor (host: Host, key: string)
      ensures this.host == host && View() == Session("", key, "", 0)
    {
      this.host := host;
      pending, this.key, sent, handled := "", key, "", 0;
    }

    method HandleOne(line: string)
      modifies this
      ensures View() == HandleLine(host, old(View()), line)
    {
      hide ParseApiKey, HandleFrame, ResponseFrame;
      if KEY_PREFIX <= line {
        var parsed := ParseApiKey(host, line);
        match parsed {
          case Ok(key) => this.key := key;
          case Fail(message) => sent := sent + ResponseFrame("00000000", false, message);
        }
        return;
      }
      sent := sent + HandleFrame(host, handled, line, key);
      handled := handled + 1;
    }

    // One received piece: appended, thrown away if too much is pending, else cut at its newlines.
    method Receive(chunk: string)
      modifies this
      ensures View() == Serve(host, old(View()), chunk)
    {
      hide HandleLine, ResponseFrame, Lines, Unfinished, HandleLines;
      pending := pending + chunk;
      if |pending| > 8192 {
        sent := sent + ResponseFrame("00000000", false, "frame too large");
        pending := "";
        return;
      }
      ghost var target := Served(host, View(), pending);
      while '\n' in pending
        invariant Served(host, View(), pending) == target
        decreases |pending|
      {
        var cut := 0;
        while pending[cut] != '\n'
          invariant cut < |pending| && '\n' !in pending[..cut] && '\n' in pending
          decreases |pending| - cut
        {
          cut := cut + 1;
        }
        var line, rest := pending[..cut], pending[cut + 1..];
        assert pending == line + "\n" + rest;
        ServedCut(host, View(), line, rest);
        pending := rest;
        HandleOne(line);
      }
      NoLine(pending);
      HandleNothing(host, View().(pending := ""));
    }
  }

  lemma HandleNothing(h: Host, s: Session)
    ensures HandleLines(h, s, []) == s
  {
  }

  lemma ServedCut(h: Host, s: Session, line: string, rest: string)
    requires '\n' !in line
    ensures Served(h, HandleLine(h, s.(pending := rest), line), rest) == Served(h, s, line + "\n" + rest)
  {
    CutLine(line, rest);
    hide Lines, Unfinished, ParseApiKey, HandleFrame, ResponseFrame;
    var s0 := s.(pending := "");
    assert HandleLine(h, s.(pending := rest), line).(pending := "") == HandleLine(h, s0, line);
    assert ([line] + Lines(rest))[1..] == Lines(rest);
  }
}
