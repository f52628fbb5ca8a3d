/** The kernel's end of the serial protocol: an interrupt-fed ring, a line assembler whose buffer is
    never cleared, and the parser of response lines. */
module SerialTransport {
  import opened Word
  import opened Text
  import opened Ring
  import opened HexCodec
  import opened AiTask

  const RESPONSE := "HNAI1|RES|"
  const REQUEST := "HNAI1|REQ|"
  const KEY := "HNAI1|KEY|"

  // ---------------------------------------------------------------- the specification

  // The queued bytes, the line buffer, how much of it the current line fills, and the drop counter.
  datatype Port = Port(queue: string, line: string, length: nat, dropped: u32)

  ghost predicate PortInv(p: Port) {
    && |p.line| == 2304 && p.length <= 2303 && p.line[2303] == NUL
    && |p.queue| <= 4095
  }

  const QUIET := Port("", seq(2304, _ => NUL), 0, 0)

  function Push(p: Port, c: char): Port {
    if |p.queue| == 4095 then p.(dropped := Wrap(p.dropped + 1)) else p.(queue := p.queue + [c])
  }

  function Receive(p: Port, bytes: string): (r: Port)
    ensures r.line == p.line && r.length == p.length
    decreases |bytes|
  {
    if bytes == [] then p else Receive(Push(p, bytes[0]), bytes[1..])
  }

  // One byte into the line buffer: a return is skipped, a newline ends the line, and a line that fills
  // the buffer is thrown away.
  function Feed(p: Port, c: char): Port
    requires |p.line| == 2304 && p.length < 2304
  {
    if c == '\r' then p
    else if c == '\n' then p.(line := p.line[p.length := NUL], length := 0)
    else if p.length + 1 < 2304 then p.(line := p.line[p.length := c], length := p.length + 1)
    else p.(length := 0)
  }

  // A response accepted for a task: done or failed, and the text it carries.
  datatype Reply = Reply(ok: bool, text: string)

  // The parser reads the whole buffer, also behind the end of the line.
  function ParseLine(line: string, id: u32): Option<Reply>
    requires |line| == 2304
  {
    if line[..10] == RESPONSE && NumberFrom(line[10..18]) == Some(id) && line[18] == '|' && line[20] == '|'
    then
      match Decode(CStr(line[21..]))
      case None => None
      case Some(text) => Some(Reply(line[19] == 'S', CStr(Take(text, 1023))))
    else None
  }

  // One byte taken off the queue, and the reply it completes.
  function Accept(p: Port, c: char, id: u32): (r: (Port, Option<Reply>))
    requires |p.line| == 2304 && p.length < 2304
    ensures |r.0.line| == 2304 && r.0.length < 2304 && r.0.queue == p.queue
  {
    var fed := Feed(p, c);
    (fed, if c == '\n' then ParseLine(fed.line, id) else None)
  }

  // Reading the queue until a line answers the task or the queue is empty.
  function Drain(p: Port, id: u32): (r: (Port, Option<Reply>))
    requires |p.line| == 2304 && p.length < 2304
    ensures |r.0.line| == 2304 && r.0.length < 2304
    decreases |p.queue|
  {
    if p.queue == [] then (p, None)
    else
      var (fed, reply) := Accept(p.(queue := p.queue[1..]), p.queue[0], id);
      if reply.Some? then (fed, reply) else Drain(fed, id)
  }

  function Answered(t: TaskView, reply: Option<Reply>): TaskView {
    match reply
    case None => t
    case Some(r) => WithOutput(t, r.text).(status := if r.ok then Done else Error)
  }

  function RequestHead(id: u32, kind: TaskType): string {
    REQUEST + HexNumber(id, 8) + "|" + HexNumber(TypeCode(kind), 2) + "|"
  }

  function ProfileField(profile: Option<string>): string {
    if profile.Some? then HexText(CStr(profile.value)) else ""
  }

  // The request line the kernel sends.
  function RequestFrame(t: TaskView): string {
    RequestHead(t.id, t.kind) + HexText(t.input) + "|" + ProfileField(t.profile) + "\n"
  }

  function KeyFrame(key: string): string {
    KEY + HexText(key) + "\n"
  }

  // ---------------------------------------------------------------- parsing step by step

  lemma {:induction false} NoNumberFrom(text: string, n: nat)
    requires n <= |text| && NumberFrom(text[..n]) == None
    ensures NumberFrom(text) == None
  {
    if n == |text| {
      assert text[..n] == text;
    } else {
      assert text[..|text| - 1][..n] == text[..n];
      NoNumberFrom(text[..|text| - 1], n);
    }
  }

  lemma EightDigitsFit(n: nat)
    requires n <= 8
    ensures Power16(n) <= 0x1_0000_0000
  {
    assert Power16(2) == 256 && Power16(4) == 65536 && Power16(6) == 0x100_0000;
    assert Power16(8) == 0x1_0000_0000;
    if n == 7 { assert 16 * Power16(7) == Power16(8); }
  }

  lemma DrainStep(p: Port, c: char, id: u32)
    requires |p.line| == 2304 && p.length < 2304
    ensures Drain(p.(queue := [c] + p.queue), id) ==
            var (fed, reply) := Accept(p, c, id); if reply.Some? then (fed, reply) else Drain(fed, id)
  {
    assert ([c] + p.queue)[1..] == p.queue;
    hide Accept;
  }

  lemma EmptyCStr(s: string)
    ensures CStr(s) == "" <==> At(s, 0) == NUL
  {
  }

  lemma DrainNothing(p: Port, id: u32)
    requires |p.line| == 2304 && p.length < 2304
    ensures p.queue == [] ==> Drain(p, id) == (p, None)
  {
  }

  lemma DecodeStep(payload: string, i: nat)
    requires i < |payload|
    ensures i + 1 == |payload| ==> Decode(payload[i..]) == None
    ensures i + 1 < |payload| ==>
              var high, low := HexValue(payload[i]), HexValue(payload[i + 1]);
              Decode(payload[i..]) == if high < 0 || low < 0 then None
                                      else Follow([(high * 16 + low) as char], Decode(payload[i + 2..]))
  {
    if i + 1 < |payload| {
      assert payload[i..][2..] == payload[i + 2..];
    }
  }

  lemma DecodeNothing()
    ensures Decode("") == Some("")
  {
  }

  lemma TakeGrows(text: string, c: char)
    ensures |text| < 1023 ==> Take(text + [c], 1023) == Take(text, 1023) + [c]
    ensures |text| >= 1023 ==> Take(text + [c], 1023) == Take(text, 1023)
    ensures |Take(text, 1023)| == 1023 <==> |text| >= 1023
  {
  }

  // Writing behind what is already written of a frame.
  ghost function Append(before: string, frame: string, piece: string): (r: string)
    ensures r == frame + piece && before + frame + piece == before + r
  {
    frame + piece
  }

  // A word shifted right by a number of hexadecimal digits.
  function ShiftRight(value: nat, digits: nat): nat {
    if digits == 0 then value else ShiftRight(value, digits - 1) / 16
  }

  lemma TypeDigits(code: byte)
    ensures HexByte(code as char) == HexNumber(code, 2)
  {
    var c := code as char;
    assert c as int == code && code % 256 == code && code / 16 % 16 == code / 16;
    hide HexDigit;
    assert HexNumber(code, 2) == HexNumber(code / 16, 1) + [HexDigit(code % 16)];
    assert HexNumber(code / 16, 1) == HexNumber(code / 16 / 16, 0) + [HexDigit(code / 16 % 16)];
  }

  function Follow(text: string, rest: Option<string>): Option<string> {
    match rest case None => None case Some(r) => Some(text + r)
  }

  lemma FollowNothing(rest: Option<string>)
    ensures Follow("", rest) == rest
  {
    if rest.Some? {
      assert "" + rest.value == rest.value;
    }
  }

  lemma FollowStep(text: string, c: char, rest: Option<string>)
    ensures Follow(text, Follow([c], rest)) == Follow(text + [c], rest)
  {
    if rest.Some? {
      assert text + ([c] + rest.value) == text + [c] + rest.value;
    }
  }

  lemma BufferText(buffer: string, text: string)
    requires |text| < |buffer| && buffer[..|text|] == text && buffer[|text|] == NUL
    ensures CStr(buffer) == CStr(text)
  {
    var n := |CStr(text)|;
    assert buffer[..n] == text[..n];
    CStrUnique(buffer, n);
  }

  // ---------------------------------------------------------------- the transport

  class Transport {
    const rx: array<char>
    var head: nat
    var tail: nat
    var dropped: u32
    const line: array<char>
    var lineLength: nat
    const decoded: array<char>
    var ready: bool
    // The bytes written to the wire, in order.
    var sent: string

    ghost predicate Valid()
      reads this, line
    {
      && rx.Length == 4096 && line.Length == 2304 && decoded.Length == 1024
      && rx != line && rx != decoded && line != decoded
      && InRing(4096, head, tail)
      && lineLength < 2304 && line[2303] == NUL
    }

    ghost function View(): Port
      requires Valid()
      reads this, line, rx
    {
      Port(Contents(rx[..], head, tail), line[..], lineLength, dropped)
    }

    constructor ()
      ensures Valid() && ready && sent == ""
      ensures View() == QUIET
      ensures fresh(rx) && fresh(line) && fresh(decoded)
    {
      rx := new char[4096](_ => NUL);
      line := new char[2304](_ => NUL);
      decoded := new char[1024](_ => NUL);
      head, tail, dropped, lineLength, ready, sent := 0, 0, 0, 0, true, "";
    }

    method PushRx(c: char)
      requires Valid()
      modifies `head, `dropped, rx
      ensures Valid() && View() == Push(old(View()), c)
    {
      var next := (head + 1) % 4096;
      AfterIsModulo(4096, head);
      FullWhenNextTaken(rx[..], head, tail);
      if next == tail {
        dropped := Wrap(dropped + 1);
        return;
      }
      ghost var cells := rx[..];
      PushAppends(cells, head, tail, c);
      rx[head] := c;
      assert rx[..] == cells[head := c];
      head := next;
    }

    method PopRx() returns (found: bool, c: char)
      requires Valid()
      modifies `tail
      ensures Valid()
      ensures found == (old(View()).queue != [])
      ensures if found then old(View()) == View().(queue := [c] + View().queue) else View() == old(View())
    {
      FullWhenNextTaken(rx[..], head, tail);
      if tail == head {
        return false, NUL;
      }
      AfterIsModulo(4096, tail);
      PopTakesFirst(rx[..], head, tail);
      found, c := true, rx[tail];
      tail := (tail + 1) % 4096;
    }

    // Takes every byte the receiver holds; also the interrupt handler.
    method CaptureRx(available: string)
      requires Valid()
      modifies `head, `dropped, rx
      ensures Valid() && View() == Receive(old(View()), available)
    {
      var i := 0;
      while i < |available|
        invariant i <= |available| && Valid()
        invariant Receive(View(), available[i..]) == Receive(old(View()), available)
      {
        hide Push, Contents;
        assert available[i..][1..] == available[i + 1..];
        PushRx(available[i]);
        i := i + 1;
      }
      assert available[i..] == [];
    }

    static method ParseU32(text: string) returns (ok: bool, value: u32)
      requires |text| == 8
      ensures ok == NumberFrom(text).Some?
      ensures ok ==> NumberFrom(text) == Some(value)
    {
      value := 0;
      var i := 0;
      while i < 8
        invariant i <= 8 && NumberFrom(text[..i]) == Some(value)
      {
        var digit := HexValue(text[i]);
        assert text[..i + 1][..i] == text[..i];
        if digit < 0 {
          NoNumberFrom(text, i + 1);
          assert text[..8] == text;
          return false, 0;
        }
        NumberBound(text[..i + 1]);
        EightDigitsFit(i + 1);
        value := value * 16 + digit;
        i := i + 1;
      }
      assert text[..8] == text;
      return true, value;
    }

    // `encoded` is the memory from a pointer on; it holds a NUL.
    method DecodeText(encoded: string) returns (ok: bool)
      requires Valid() && NUL in encoded
      modifies decoded
      ensures ok == Decode(CStr(encoded)).Some?
      ensures ok ==> CStr(decoded[..]) == CStr(Take(Decode(CStr(encoded)).value, 1023))
    {
      hide Decode, HexValue, Take, Valid;
      ghost var payload := CStr(encoded);
      ghost var text := "";
      var i, output := 0, 0;
      assert payload[0..] == payload;
      FollowNothing(Decode(payload));
      assert decoded.Length == 1024 && Take("", 1023) == "" by { WithinBuffers(); }
      while encoded[i] != NUL
        invariant i <= |payload| < |encoded| && decoded.Length == 1024
        invariant output == |Take(text, 1023)| <= 1023 && decoded[..output] == Take(text, 1023)
        invariant Decode(payload) == Follow(text, Decode(payload[i..]))
        decreases |payload| - i
      {
        DecodeStep(payload, i);
        if encoded[i + 1] == NUL {
          return false;
        }
        var high, low := HexValue(encoded[i]), HexValue(encoded[i + 1]);
        if high < 0 || low < 0 {
          return false;
        }
        ghost var c := (high * 16 + low) as char;
        FollowStep(text, c, Decode(payload[i + 2..]));
        TakeGrows(text, c);
        if output + 1 < 1024 {
          decoded[output] := (high * 16 + low) as char;
          output := output + 1;
        }
        text := text + [c];
        i := i + 2;
      }
      assert payload[i..] == "" && Decode("") == Some("") by { DecodeNothing(); }
      assert text + "" == text;
      decoded[output] := NUL;
      BufferText(decoded[..], Take(text, 1023));
      return true;
    }

    lemma WithinBuffers()
      requires Valid()
      ensures decoded.Length == 1024 && Take("", 1023) == ""
    {
    }

    method PrefixMatches(prefix: string) returns (matches: bool)
      requires Valid() && |prefix| <= 2304
      ensures matches == (line[..|prefix|] == prefix)
    {
      var index := 0;
      while index < |prefix|
        invariant index <= |prefix| && line[..index] == prefix[..index]
      {
        if line[index] != prefix[index] {
          return false;
        }
        index := index + 1;
      }
      return true;
    }

    method ParseResponse(task: Task) returns (accepted: bool)
      requires Valid() && task.Valid() && Apart(task)
      modifies decoded, task`status, task.output
      ensures var reply := ParseLine(line[..], task.id);
              accepted == reply.Some? && task.View() == Answered(old(task.View()), reply)
    {
      var matches := PrefixMatches(RESPONSE);
      if !matches {
        return false;
      }
      var ok, id := ParseU32(line[10..18]);
      if !ok || line[18] != '|' || line[20] != '|' || id != task.id {
        return false;
      }
      assert line[21..][2282] == NUL;
      var decodes := DecodeText(line[21..]);
      if !decodes {
        return false;
      }
      CStrWhole(CStr(decoded[..]));
      task.SetOutput(decoded[..]);
      task.status := if line[19] == 'S' then Done else Error;
      return true;
    }

    // Puts one byte in the line buffer; a newline hands the line to the parser.
    method TakeByte(c: char, task: Task) returns (answered: bool)
      requires Valid() && task.Valid() && Apart(task)
      modifies `lineLength, line, decoded, task`status, task.output
      ensures Valid()
      ensures var (port, reply) := Accept(old(View()), c, task.id);
              && View() == port && answered == reply.Some?
              && task.View() == Answered(old(task.View()), reply)
    {
      hide Contents, ParseLine, CStr, WithOutput;
      answered := false;
      if c == '\n' {
        line[lineLength] := NUL;
        lineLength := 0;
        answered := ParseResponse(task);
      } else if c != '\r' {
        if lineLength + 1 < 2304 {
          line[lineLength] := c;
          lineLength := lineLength + 1;
        } else {
          lineLength := 0;
        }
      }
    }

    // Captures what the receiver holds, then reads lines until one answers the task.
    method Poll(task: Task, available: string) returns (answered: bool)
      requires Valid() && task.Valid() && Apart(task)
      modifies `head, `tail, `dropped, `lineLength, rx, line, decoded, task`status, task.output
      ensures Valid()
      ensures !ready ==> !answered && View() == old(View()) && task.View() == old(task.View())
      ensures ready ==>
                var (port, reply) := Drain(Receive(old(View()), available), task.id);
                && View() == port && answered == reply.Some?
                && task.View() == Answered(old(task.View()), reply)
    {
      hide Contents, ParseLine, CStr, WithOutput, Accept, Drain;
      if !ready {
        return false;
      }
      CaptureRx(available);
      ghost var start := View();
      DrainNothing(start, task.id);
      var found, c := PopRx();
      while found
        invariant Valid() && ready
        invariant task.View() == old(task.View())
        invariant found ==> Drain(View().(queue := [c] + View().queue), task.id) == Drain(start, task.id)
        invariant !found ==> (View(), None) == Drain(start, task.id)
        decreases |View().queue|, found
      {
        DrainStep(View(), c, task.id);
        answered := TakeByte(c, task);
        if answered {
          return true;
        }
        DrainNothing(View(), task.id);
        found, c := PopRx();
      }
      return false;
    }

    method WriteText(text: string)
      modifies `sent
      ensures sent == old(sent) + CStr(text)
    {
      var i := 0;
      while At(text, i) != NUL
        invariant i <= |text| && NUL !in text[..i]
        invariant sent == old(sent) + text[..i]
        decreases |text| - i
      {
        sent := sent + [text[i]];
        i := i + 1;
      }
      CStrUnique(text, i);
    }

    method WriteHexByte(c: char)
      modifies `sent
      ensures sent == old(sent) + HexByte(c)
    {
      sent := sent + [HexDigit(c as int % 256 / 16)];
      sent := sent + [HexDigit(c as int % 16)];
    }

    method WriteHexText(text: Option<string>)
      modifies `sent
      ensures sent == old(sent) + ProfileField(text)
    {
      if text == None {
        return;
      }
      ghost var whole := CStr(text.value);
      var i := 0;
      while At(text.value, i) != NUL
        invariant i <= |whole|
        invariant sent + HexText(whole[i..]) == old(sent) + HexText(whole)
        decreases |whole| - i
      {
        assert whole[i..][0] == text.value[i] && whole[i..][1..] == whole[i + 1..];
        WriteHexByte(text.value[i]);
        i := i + 1;
      }
      assert whole[i..] == [];
    }

    method WriteHexU32(value: u32)
      modifies `sent
      ensures sent == old(sent) + HexNumber(value, 8)
    {
      var shift := 8;
      while shift > 0
        invariant 0 <= shift <= 8
        invariant sent == old(sent) + HexNumber(ShiftRight(value, shift), 8 - shift)
      {
        hide HexDigit;
        shift := shift - 1;
        sent := sent + [HexDigit(ShiftRight(value, shift) % 16)];
      }
    }

    method WriteIds(id: u32, kind: TaskType)
      modifies `sent
      ensures sent == old(sent) + RequestHead(id, kind)
    {
      CStrWhole(REQUEST);
      TypeDigits(TypeCode(kind));
      hide HexByte, HexNumber, HexDigit, CStr, TypeCode;
      WriteText(REQUEST);
      WriteHexU32(id);
      ghost var head := Append(old(sent), REQUEST, HexNumber(id, 8));
      sent := sent + "|";
      head := Append(old(sent), head, "|");
      WriteHexByte(TypeCode(kind) as char);
      head := Append(old(sent), head, HexNumber(TypeCode(kind), 2));
      sent := sent + "|";
      head := Append(old(sent), head, "|");
    }

    // Sends a request unless the input is empty.
    method Send(task: Task) returns (ok: bool)
      requires task.Valid()
      modifies `sent
      ensures ok == (ready && task.View().input != "")
      ensures sent == if ok then old(sent) + RequestFrame(task.View()) else old(sent)
    {
      if !ready || task.input[0] == NUL {
        return false;
      }
      assert task.View().input != "";
      hide HexText, CStr, RequestHead;
      WriteIds(task.id, task.kind);
      WriteHexText(Some(task.input[..]));
      ghost var frame := Append(old(sent), RequestHead(task.id, task.kind), HexText(CStr(task.input[..])));
      sent := sent + "|";
      frame := Append(old(sent), frame, "|");
      WriteHexText(task.profile);
      frame := Append(old(sent), frame, ProfileField(task.profile));
      sent := sent + "\n";
      frame := Append(old(sent), frame, "\n");
      return true;
    }

    method SendApiKey(key: string) returns (ok: bool)
      modifies `sent
      ensures ok == (ready && CStr(key) != "")
      ensures sent == if ok then old(sent) + KeyFrame(CStr(key)) else old(sent)
    {
      hide HexText, CStr;
      EmptyCStr(key);
      if !ready || At(key, 0) == NUL {
        return false;
      }
      CStrWhole(KEY);
      WriteText(KEY);
      WriteHexText(Some(key));
      ghost var head := Append(old(sent), KEY, HexText(CStr(key)));
      sent := sent + "\n";
      head := Append(old(sent), head, "\n");
      return true;
    }

    // The task's memory is not the transport's.
    ghost predicate Apart(task: Task) {
      {task.input, task.output} !! {rx, line, decoded}
    }
  }
}
