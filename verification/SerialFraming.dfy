/** Framing of the serial stream: what the kernel parses does not depend on how the bytes arrive, and,
    but for one line length, a line's parse depends on the line alone. */
module SerialFraming {
  import opened Word
  import opened Text
  import opened HexCodec
  import opened SerialTransport

  // ---------------------------------------------------------------- a line in the buffer

  // The buffer holds the line, and the NUL that ended it.
  ghost predicate Holds(buffer: string, line: string) {
    |buffer| == 2304 && |line| <= 2303 && buffer[..|line|] == line && buffer[|line|] == NUL
  }

  // The first nineteen characters of a response to `id`.
  predicate Header(line: string, id: u32) {
    |line| >= 19 && line[..10] == RESPONSE && NumberFrom(line[10..18]) == Some(id) && line[18] == '|'
  }

  // A response as a function of the line alone.
  function ParseText(line: string, id: u32): Option<Reply> {
    if Header(line, id) && |line| >= 21 && line[20] == '|' then
      match Decode(CStr(line[21..]))
      case None => None
      case Some(text) => Some(Reply(line[19] == 'S', CStr(Take(text, 1023))))
    else None
  }

  lemma {:induction false} NulIsNoDigit(s: string, i: nat)
    requires i < |s| && s[i] == NUL
    ensures NumberFrom(s) == None
  {
    if i < |s| - 1 {
      NulIsNoDigit(s[..|s| - 1], i);
    }
  }

  lemma ShortLineRejected(buffer: string, line: string, id: u32)
    requires Holds(buffer, line) && |line| < 19
    ensures ParseLine(buffer, id) == None
  {
    var n := |line|;
    if n < 10 {
      assert buffer[..10][n] == NUL && RESPONSE[n] != NUL;
    } else if n < 18 {
      assert buffer[10..18][n - 10] == NUL;
      NulIsNoDigit(buffer[10..18], n - 10);
    }
  }

  lemma SameTail(buffer: string, line: string)
    requires Holds(buffer, line) && |line| >= 21
    ensures CStr(buffer[21..]) == CStr(line[21..])
  {
    BufferText(buffer[21..], line[21..]);
  }

  /** The parser's answer is a function of the line, unless the line has exactly 19 characters. */
  lemma ParseIsPure(buffer: string, line: string, id: u32)
    requires Holds(buffer, line) && |line| != 19
    ensures ParseLine(buffer, id) == ParseText(line, id)
  {
    if |line| < 19 {
      ShortLineRejected(buffer, line, id);
    } else {
      assert buffer[..10] == line[..10] && buffer[10..18] == line[10..18] && buffer[18] == line[18];
      if |line| >= 21 {
        SameTail(buffer, line);
      }
    }
  }

  // A buffer whose line is followed by given left-over bytes.
  function Stale(line: string, rest: string): string
    requires |line| + 1 + |rest| <= 2304
  {
    line + [NUL] + rest + seq(2304 - (|line| + 1 + |rest|), _ => NUL)
  }

  lemma StaleAnswer(line: string, id: u32)
    requires |line| == 19 && Header(line, id)
    ensures Holds(Stale(line, "|"), line) && Holds(Stale(line, ""), line)
    ensures ParseLine(Stale(line, "|"), id).Some? && ParseLine(Stale(line, ""), id) == None
  {
    var one, none := Stale(line, "|"), Stale(line, "");
    assert one[..10] == line[..10] == none[..10] && one[10..18] == line[10..18] == none[10..18];
    CStrUnique(one[21..], 0);
    assert one[20] == '|' && none[20] == NUL;
  }

  /** Two buffers holding the same line always parse alike exactly when the line is not a bare
      19-character header for the task: that one is completed by bytes of an earlier line. */
  lemma ParseDependsOnLineAlone(line: string, id: u32)
    requires |line| <= 2303
    ensures (forall a, b :: Holds(a, line) && Holds(b, line) ==> ParseLine(a, id) == ParseLine(b, id))
            <==> !(|line| == 19 && Header(line, id))
  {
    if |line| == 19 && Header(line, id) {
      StaleAnswer(line, id);
    } else {
      forall a, b | Holds(a, line) && Holds(b, line)
        ensures ParseLine(a, id) == ParseLine(b, id)
      {
        if |line| != 19 {
          ParseIsPure(a, line, id);
          ParseIsPure(b, line, id);
        } else {
          NoHeaderNoReply(a, line, id);
          NoHeaderNoReply(b, line, id);
        }
      }
    }
  }

  /** Whatever the buffer holds, only a line with the task's own header is answered, and an answer succeeds exactly
      when the line has at least 21 characters and status S. */
  lemma NoHeaderNoReply(buffer: string, line: string, id: u32)
    requires Holds(buffer, line)
    ensures ParseLine(buffer, id).Some? ==> Header(line, id)
    ensures ParseLine(buffer, id).Some? ==> (ParseLine(buffer, id).value.ok <==> |line| >= 21 && line[19] == 'S')
    ensures ParseLine(buffer, id).Some? && |line| >= 21 ==> ParseText(line, id) == ParseLine(buffer, id)
  {
    if |line| < 19 {
      ShortLineRejected(buffer, line, id);
    } else {
      assert buffer[..10] == line[..10] && buffer[10..18] == line[10..18] && buffer[18] == line[18];
      if |line| != 19 {
        ParseIsPure(buffer, line, id);
      }
    }
  }

  // ---------------------------------------------------------------- runs of the receiver

  // Bytes arrive by interrupt, or while a poll for task `id` captures them.
  datatype Arrival = Interrupt(bytes: string) | Polled(id: u32, bytes: string)

  // The port with its history: the bytes the ring accepted, those read from it, and the finished lines.
  datatype Receiver = Receiver(port: Port, accepted: string, consumed: string, lines: seq<string>)

  const FRESH := Receiver(QUIET, "", "", [])

  // The bytes a poll reads, and the lines it finishes.
  function Reads(p: Port, id: u32): string
    requires |p.line| == 2304 && p.length < 2304
    decreases |p.queue|
  {
    if p.queue == [] then ""
    else
      var (fed, reply) := Accept(p.(queue := p.queue[1..]), p.queue[0], id);
      [p.queue[0]] + if reply.Some? then "" else Reads(fed, id)
  }

  function Finishes(p: Port, id: u32): seq<string>
    requires |p.line| == 2304 && p.length < 2304
    decreases |p.queue|
  {
    if p.queue == [] then []
    else
      var (fed, reply) := Accept(p.(queue := p.queue[1..]), p.queue[0], id);
      (if p.queue[0] == '\n' then [p.line[..p.length]] else [])
      + if reply.Some? then [] else Finishes(fed, id)
  }

  function Arrive(r: Receiver, a: Arrival): (s: Receiver)
    requires |r.port.line| == 2304 && r.port.length < 2304
    ensures |s.port.line| == 2304 && s.port.length < 2304
  {
    var port := Receive(r.port, a.bytes);
    var accepted := r.accepted + port.queue[Min(|r.port.queue|, |port.queue|)..];
    match a
    case Interrupt(_) => Receiver(port, accepted, r.consumed, r.lines)
    case Polled(id, _) =>
      Receiver(Drain(port, id).0, accepted, r.consumed + Reads(port, id), r.lines + Finishes(port, id))
  }

  // What the buffer keeps of a line: every 2304th character empties it and is lost itself.
  function Kept(line: string): string {
    line[|line| / 2304 * 2304..]
  }

  function AllKept(lines: seq<string>): seq<string> {
    seq(|lines|, i requires 0 <= i < |lines| => Kept(lines[i]))
  }

  // The line buffer and the finished lines are the split of what was read.
  ghost predicate Framed(p: Port, consumed: string, lines: seq<string>) {
    && lines == AllKept(Lines(WithoutReturns(consumed)))
    && p.length <= |p.line|
    && p.line[..p.length] == Kept(Unfinished(WithoutReturns(consumed)))
  }

  ghost predicate Inv(r: Receiver) {
    && PortInv(r.port)
    && r.accepted == r.consumed + r.port.queue
    && Framed(r.port, r.consumed, r.lines)
  }

  lemma KeptStep(line: string, c: char)
    ensures |Kept(line)| < 2304
    ensures Kept(line + [c]) == if |Kept(line)| + 1 < 2304 then Kept(line) + [c] else ""
  {
    var n := |line| / 2304;
    assert |line| == n * 2304 + |line| % 2304;
    if |line| % 2304 + 1 < 2304 {
      assert (|line| + 1) / 2304 == n;
    } else {
      assert |line| + 1 == (n + 1) * 2304;
    }
  }

  lemma KeptWhole(line: string)
    ensures |line| <= 2303 ==> Kept(line) == line
  {
  }

  lemma AllKeptGrows(lines: seq<string>, line: string)
    ensures AllKept(lines + [line]) == AllKept(lines) + [Kept(line)]
  {
  }

  lemma ReturnsStep(consumed: string, c: char)
    ensures WithoutReturns(consumed + [c]) == if c == '\r' then WithoutReturns(consumed) else WithoutReturns(consumed) + [c]
  {
    WithoutReturnsAppend(consumed, [c]);
    assert [c][1..] == "" && WithoutReturns("") == "";
    assert [c] + "" == [c] && WithoutReturns(consumed) + "" == WithoutReturns(consumed);
  }

  lemma FeedFrames(p: Port, c: char, consumed: string, lines: seq<string>)
    requires PortInv(p) && Framed(p, consumed, lines)
    ensures Framed(Feed(p, c), consumed + [c], if c == '\n' then lines + [p.line[..p.length]] else lines)
  {
    hide WithoutReturns, Lines, Unfinished, Kept, AllKept;
    ReturnsStep(consumed, c);
    if c == '\n' {
      NewlineFrames(p, consumed, lines);
    } else if c != '\r' {
      LetterFrames(p, c, consumed, lines);
    }
  }

  lemma NewlineFrames(p: Port, consumed: string, lines: seq<string>)
    requires PortInv(p) && Framed(p, consumed, lines)
    ensures Framed(Feed(p, '\n'), consumed + ['\n'], lines + [p.line[..p.length]])
  {
    hide WithoutReturns, Lines, Unfinished, Kept, AllKept;
    var s := WithoutReturns(consumed);
    ReturnsStep(consumed, '\n');
    LinesStep(s, '\n');
    KeptWhole("");
    AllKeptGrows(Lines(s), Unfinished(s));
  }

  lemma LetterFrames(p: Port, c: char, consumed: string, lines: seq<string>)
    requires PortInv(p) && Framed(p, consumed, lines) && c != '\n' && c != '\r'
    ensures Framed(Feed(p, c), consumed + [c], lines)
  {
    hide WithoutReturns, Lines, Unfinished, Kept, AllKept;
    var s := WithoutReturns(consumed);
    ReturnsStep(consumed, c);
    LinesStep(s, c);
    KeptStep(Unfinished(s), c);
    if p.length + 1 < 2304 {
      assert p.line[p.length := c][..p.length + 1] == p.line[..p.length] + [c];
    }
  }

  lemma FeedKeeps(p: Port, c: char)
    requires PortInv(p)
    ensures PortInv(Feed(p, c)) && Feed(p, c).queue == p.queue
  {
  }

  // A poll reads a prefix of the queue.
  lemma {:induction false} DrainReads(p: Port, id: u32)
    requires PortInv(p)
    ensures PortInv(Drain(p, id).0) && p.queue == Reads(p, id) + Drain(p, id).0.queue
    decreases |p.queue|
  {
    if p.queue != [] {
      var c, rest := p.queue[0], p.(queue := p.queue[1..]);
      var (fed, reply) := Accept(rest, c, id);
      FeedKeeps(rest, c);
      ReadsStep(p, id);
      hide PortInv, Accept;
      if reply == None {
        DrainReads(fed, id);
      }
      Assoc([c], if reply.Some? then "" else Reads(fed, id), Drain(p, id).0.queue);
      Unit([c]);
    }
  }

  // One byte of a poll keeps the framing.
  lemma AcceptFrames(p: Port, id: u32, consumed: string, lines: seq<string>)
    requires PortInv(p) && p.queue != [] && Framed(p, consumed, lines)
    ensures var c := p.queue[0];
            var fed := Accept(p.(queue := p.queue[1..]), c, id).0;
            && PortInv(fed) && fed.queue == p.queue[1..]
            && Framed(fed, consumed + [c], if c == '\n' then lines + [p.line[..p.length]] else lines)
  {
    var c, rest := p.queue[0], p.(queue := p.queue[1..]);
    FeedKeeps(rest, c);
    SameFrame(p, rest, consumed, lines);
    hide Framed;
    FeedFrames(rest, c, consumed, lines);
  }

  // The lines a poll finishes are those that what it reads completes.
  lemma {:induction false} DrainFrames(p: Port, id: u32, consumed: string, lines: seq<string>)
    requires PortInv(p) && Framed(p, consumed, lines)
    ensures Framed(Drain(p, id).0, consumed + Reads(p, id), lines + Finishes(p, id))
    decreases |p.queue|
  {
    if p.queue == [] {
      Unit(consumed);
      Unit(lines);
    } else {
      var c := p.queue[0];
      var (fed, reply) := Accept(p.(queue := p.queue[1..]), c, id);
      AcceptFrames(p, id, consumed, lines);
      hide Framed, PortInv, Accept, WithoutReturns;
      DrainJoins(p, id, consumed, lines, fed, reply);
      if reply == None {
        DrainFrames(fed, id, consumed + [c], if c == '\n' then lines + [p.line[..p.length]] else lines);
      } else {
        Unit(if c == '\n' then lines + [p.line[..p.length]] else lines);
      }
    }
  }

  lemma SameFrame(p: Port, q: Port, consumed: string, lines: seq<string>)
    requires p.line == q.line && p.length == q.length && Framed(p, consumed, lines)
    ensures Framed(q, consumed, lines)
  {
  }

  lemma ReadsStep(p: Port, id: u32)
    requires |p.line| == 2304 && p.length < 2304 && p.queue != []
    ensures var (fed, reply) := Accept(p.(queue := p.queue[1..]), p.queue[0], id);
            && Reads(p, id) == [p.queue[0]] + (if reply.Some? then "" else Reads(fed, id))
            && Finishes(p, id) == (if p.queue[0] == '\n' then [p.line[..p.length]] else [])
                                  + (if reply.Some? then [] else Finishes(fed, id))
  {
    hide Accept;
  }

  // The histories of one byte and of the rest of the poll, joined.
  lemma DrainJoins(p: Port, id: u32, consumed: string, lines: seq<string>, fed: Port, reply: Option<Reply>)
    requires |p.line| == 2304 && p.length < 2304 && p.queue != []
    requires (fed, reply) == Accept(p.(queue := p.queue[1..]), p.queue[0], id)
    ensures reply.Some? ==> consumed + Reads(p, id) == consumed + [p.queue[0]]
    ensures reply == None ==> consumed + Reads(p, id) == consumed + [p.queue[0]] + Reads(fed, id)
    ensures var lines' := if p.queue[0] == '\n' then lines + [p.line[..p.length]] else lines;
            lines + Finishes(p, id) == lines' + if reply.Some? then [] else Finishes(fed, id)
  {
    ReadsStep(p, id);
    hide Accept, Reads, Finishes;
    var c := p.queue[0];
    var now := if c == '\n' then [p.line[..p.length]] else [];
    Assoc(consumed, [c], if reply.Some? then "" else Reads(fed, id));
    Unit(consumed + [c]);
    Assoc(lines, now, if reply.Some? then [] else Finishes(fed, id));
    Unit(lines);
  }

  /** The ring takes as many of the bytes as it has room for, and counts the rest as dropped. */
  lemma {:induction false} ReceiveKeeps(p: Port, bytes: string)
    requires PortInv(p)
    ensures PortInv(Receive(p, bytes)) && p.queue <= Receive(p, bytes).queue
    ensures Receive(p, bytes).queue == p.queue + Take(bytes, 4095 - |p.queue|)
    ensures Receive(p, bytes).dropped == Wrap(p.dropped + |bytes| - |Take(bytes, 4095 - |p.queue|)|)
    ensures |p.queue| + |bytes| <= 4095 ==> Receive(p, bytes).queue == p.queue + bytes
    decreases |bytes|
  {
    if bytes == [] {
      WrapSmall(p.dropped);
    } else {
      ReceiveKeeps(Push(p, bytes[0]), bytes[1..]);
      if |p.queue| < 4095 {
        assert p.queue + [bytes[0]] + Take(bytes[1..], 4094 - |p.queue|) == p.queue + Take(bytes, 4095 - |p.queue|);
      } else {
        WrapAdd(p.dropped + 1, |bytes[1..]|);
      }
      hide Wrap;
    }
  }

  lemma ReceiveFrames(r: Receiver, bytes: string)
    requires Inv(r)
    ensures var port := Receive(r.port, bytes);
            var accepted := r.accepted + port.queue[Min(|r.port.queue|, |port.queue|)..];
            && PortInv(port) && accepted == r.consumed + port.queue
            && Framed(port, r.consumed, r.lines)
            && accepted == r.accepted + Take(bytes, 4095 - |r.port.queue|)
  {
    ReceiveKeeps(r.port, bytes);
    hide PortInv, Take, WithoutReturns;
    var port := Receive(r.port, bytes);
    var added := port.queue[|r.port.queue|..];
    assert r.port.queue + added == port.queue;
    Assoc(r.consumed, r.port.queue, added);
    SameFrame(r.port, port, r.consumed, r.lines);
  }

  lemma ArriveKeeps(r: Receiver, a: Arrival)
    requires Inv(r)
    ensures Inv(Arrive(r, a))
    ensures Arrive(r, a).accepted == r.accepted + Take(a.bytes, 4095 - |r.port.queue|)
    ensures |r.port.queue| + |a.bytes| <= 4095 ==> Arrive(r, a).accepted == r.accepted + a.bytes
  {
    hide Framed, WithoutReturns, Receive, Drain, Reads, Finishes;
    ReceiveFrames(r, a.bytes);
    var port := Receive(r.port, a.bytes);
    if a.Polled? {
      DrainReads(port, a.id);
      DrainFrames(port, a.id, r.consumed, r.lines);
      Assoc(r.consumed, Reads(port, a.id), Drain(port, a.id).0.queue);
    }
  }

  function ArriveAll(r: Receiver, arrivals: seq<Arrival>): Receiver
    requires |r.port.line| == 2304 && r.port.length < 2304
    decreases |arrivals|
  {
    if arrivals == [] then r else ArriveAll(Arrive(r, arrivals[0]), arrivals[1..])
  }

  // All bytes that arrived, in order.
  function Received(arrivals: seq<Arrival>): string {
    if arrivals == [] then "" else arrivals[0].bytes + Received(arrivals[1..])
  }

  // No arrival meets a ring too full for it.
  ghost predicate NoDrop(r: Receiver, arrivals: seq<Arrival>)
    requires |r.port.line| == 2304 && r.port.length < 2304
    decreases |arrivals|
  {
    arrivals == [] ||
    (|r.port.queue| + |arrivals[0].bytes| <= 4095 && NoDrop(Arrive(r, arrivals[0]), arrivals[1..]))
  }

  lemma {:induction false} ArriveAllKeeps(r: Receiver, arrivals: seq<Arrival>)
    requires Inv(r)
    ensures Inv(ArriveAll(r, arrivals))
    ensures NoDrop(r, arrivals) ==> ArriveAll(r, arrivals).accepted == r.accepted + Received(arrivals)
    decreases |arrivals|
  {
    if arrivals == [] {
      Unit(r.accepted);
    } else {
      ArriveKeeps(r, arrivals[0]);
      ArriveAllKeeps(Arrive(r, arrivals[0]), arrivals[1..]);
      hide Arrive, PortInv, Framed;
      Assoc(r.accepted, arrivals[0].bytes, Received(arrivals[1..]));
    }
  }

  lemma FreshInv()
    ensures Inv(FRESH)
  {
    assert WithoutReturns("") == "" && Split("", '\n') == [""];
    assert QUIET.line[..0] == "";
  }

  /** Framing does not depend on chunking: however interrupts and polls interleave, and whatever bytes come, what was
      accepted is what was read and what is still queued, the finished lines are the complete lines of what was read
      without returns, and the buffer holds the unfinished rest; of a line of more than 2303 characters what is
      behind the last multiple of 2304 is left. As long as no arrival meets a ring too full for it, everything
      received is accepted. */
  lemma FramingIndependentOfChunks(arrivals: seq<Arrival>)
    ensures var r := ArriveAll(FRESH, arrivals);
            && r.consumed + r.port.queue == r.accepted
            && r.lines == AllKept(Lines(WithoutReturns(r.consumed)))
            && r.port.length <= |r.port.line|
            && r.port.line[..r.port.length] == Kept(Unfinished(WithoutReturns(r.consumed)))
            && (NoDrop(FRESH, arrivals) ==> r.accepted == Received(arrivals))
  {
    FreshInv();
    ArriveAllKeeps(FRESH, arrivals);
    hide ArriveAll, Received, NoDrop, WithoutReturns;
    assert "" + Received(arrivals) == Received(arrivals);
  }

  /** In particular lines that fit the buffer are finished as they are. */
  lemma FittingLinesWhole(lines: seq<string>)
    requires forall i :: 0 <= i < |lines| ==> |lines[i]| <= 2303
    ensures AllKept(lines) == lines
  {
    forall i | 0 <= i < |lines| ensures AllKept(lines)[i] == lines[i] {
      KeptWhole(lines[i]);
    }
  }

  /** In every run the bytes that were not accepted are counted, modulo 2^32. */
  lemma {:induction false} DropsCounted(r: Receiver, arrivals: seq<Arrival>)
    requires Inv(r)
    ensures |ArriveAll(r, arrivals).accepted| - |r.accepted| <= |Received(arrivals)|
    ensures ArriveAll(r, arrivals).port.dropped ==
            Wrap(r.port.dropped + (|Received(arrivals)| - (|ArriveAll(r, arrivals).accepted| - |r.accepted|)))
    decreases |arrivals|
  {
    hide Arrive, Framed, Wrap, NoDrop, Take;
    if arrivals == [] {
      WrapSmall(r.port.dropped);
      assert |Received(arrivals)| - (|ArriveAll(r, arrivals).accepted| - |r.accepted|) == 0;
    } else {
      var next := Arrive(r, arrivals[0]);
      ArriveDrops(r, arrivals[0]);
      ArriveKeeps(r, arrivals[0]);
      DropsCounted(next, arrivals[1..]);
      assert |Received(arrivals)| == |arrivals[0].bytes| + |Received(arrivals[1..])|;
      assert ArriveAll(r, arrivals) == ArriveAll(next, arrivals[1..]);
      hide ArriveAll, Received;
      var now := |arrivals[0].bytes| - (|next.accepted| - |r.accepted|);
      var later := |Received(arrivals[1..])| - (|ArriveAll(r, arrivals).accepted| - |next.accepted|);
      LossesAdd(r.port.dropped, next.port.dropped, ArriveAll(r, arrivals).port.dropped, now, later,
                |Received(arrivals)| - (|ArriveAll(r, arrivals).accepted| - |r.accepted|));
    }
  }

  lemma LossesAdd(before: u32, between: u32, after: u32, now: int, later: int, all: int)
    requires between == Wrap(before + now) && after == Wrap(between + later) && all == now + later
    ensures after == Wrap(before + all)
  {
    WrapAdd(before + now, later);
    hide Wrap;
  }

  lemma ArriveDrops(r: Receiver, a: Arrival)
    requires Inv(r)
    ensures |Arrive(r, a).accepted| - |r.accepted| <= |a.bytes|
    ensures Arrive(r, a).port.dropped == Wrap(r.port.dropped + (|a.bytes| - (|Arrive(r, a).accepted| - |r.accepted|)))
  {
    ReceiveKeeps(r.port, a.bytes);
    ReceiveFrames(r, a.bytes);
    if a.Polled? {
      DrainDrops(Receive(r.port, a.bytes), a.id);
    }
    hide Wrap, Framed, Receive, Drain, Reads, Finishes, PortInv;
  }

  lemma {:induction false} DrainDrops(p: Port, id: u32)
    requires |p.line| == 2304 && p.length < 2304
    ensures Drain(p, id).0.dropped == p.dropped
    decreases |p.queue|
  {
    if p.queue != [] {
      var (fed, reply) := Accept(p.(queue := p.queue[1..]), p.queue[0], id);
      hide ParseLine;
      if reply == None { DrainDrops(fed, id); }
    }
  }

  /** Two runs that read all they accepted parsed the same lines if they accepted the same bytes, and so if they
      received the same bytes and dropped none. */
  lemma SameBytesSameLines(one: seq<Arrival>, other: seq<Arrival>)
    requires ArriveAll(FRESH, one).port.queue == "" && ArriveAll(FRESH, other).port.queue == ""
    requires || ArriveAll(FRESH, one).accepted == ArriveAll(FRESH, other).accepted
             || (NoDrop(FRESH, one) && NoDrop(FRESH, other) && Received(one) == Received(other))
    ensures ArriveAll(FRESH, one).lines == ArriveAll(FRESH, other).lines
  {
    FramingIndependentOfChunks(one);
    FramingIndependentOfChunks(other);
    hide ArriveAll, Received, NoDrop, WithoutReturns, Lines, Unfinished, AllKept, Kept;
    var r, s := ArriveAll(FRESH, one), ArriveAll(FRESH, other);
    assert r.consumed + "" == r.consumed && s.consumed + "" == s.consumed;
  }

  /** For any bytes at all, the buffer index stays in bounds and the buffer keeps its last NUL. */
  lemma BufferInBounds(arrivals: seq<Arrival>)
    ensures var p := ArriveAll(FRESH, arrivals).port;
            |p.line| == 2304 && p.length <= 2303 && p.line[2303] == NUL && |p.queue| <= 4095
  {
    FreshInv();
    ArriveAllKeeps(FRESH, arrivals);
  }
}
