/** A response on its way to the kernel, cut anywhere into interrupts and polls. */
module WireDelivery {
  import opened Word
  import opened Text
  import opened HexCodec
  import opened AiTask
  import opened SerialTransport
  import opened SerialFraming
  import opened AiBridge
  import opened HostBridge
  import opened WireProtocol

  // Events that only bring bytes.
  predicate Carries(e: Event) {
    e.PollEvent? || e.InterruptEvent?
  }

  predicate AllCarry(es: seq<Event>) {
    forall i :: 0 <= i < |es| ==> Carries(es[i])
  }

  function Carried(es: seq<Event>): string
    requires AllCarry(es)
  {
    if es == [] then "" else es[0].bytes + Carried(es[1..])
  }

  // A running task whose answer line is partly in the line buffer, partly queued, and partly still to come.
  ghost predicate Awaiting(b: BridgeView, t: TaskView, line: string, rest: string) {
    && PortInv(b.port) && b.task == t && Listening(b) && b.port.length <= |line|
    && b.port.line[..b.port.length] + b.port.queue + rest == line + "\n"
  }

  lemma Pieces(read: string, queue: string, rest: string, line: string)
    requires read + queue + rest == line + "\n" && |read| <= |line|
    ensures read == line[..|read|]
    ensures rest != "" ==> |read| + |queue| <= |line| && queue == line[|read|..|read| + |queue|]
    ensures rest == "" ==> queue == line[|read|..] + "\n"
  {
    var whole := line + "\n";
    assert read == whole[..|read|];
    assert queue == whole[|read|..|read| + |queue|];
    if rest != "" {
      assert |whole| == |read| + |queue| + |rest|;
    } else {
      assert read + queue == whole by { Unit(read + queue); }
    }
  }

  // Bytes with no newline among them only fill the line buffer.
  lemma {:induction false} DrainPart(p: Port, read: string, id: u32)
    requires PortInv(p) && p.line[..p.length] == read && OneLine(p.queue) && |read| + |p.queue| <= 2303
    ensures var (q, reply) := Drain(p, id);
            PortInv(q) && reply == None && q.queue == "" && q.line[..q.length] == read + p.queue
    decreases |p.queue|
  {
    DrainUnfold(p, id);
    if p.queue == "" {
      Unit(read);
      DrainNothing(p, id);
    } else {
      var c, next := p.queue[0], p.(queue := p.queue[1..]);
      FeedKeeps(next, c);
      var fed := Feed(next, c);
      assert fed.line[..fed.length] == read + [c];
      assert Drain(p, id) == Drain(fed, id);
      assert read + p.queue == read + [c] + next.queue;
      hide ParseLine, PortInv, Feed, Drain;
      DrainPart(fed, read + [c], id);
    }
  }

  lemma SliceOneLine(line: string, i: nat, j: nat)
    requires OneLine(line) && i <= j <= |line|
    ensures OneLine(line[i..j])
  {
  }

  lemma InterruptBrings(w: World, bytes: string, t: TaskView, line: string, rest: string)
    requires Wired(w) && Awaiting(w.bridge, t, line, bytes + rest) && |line| <= 2303
    ensures Awaiting(Happen(w, InterruptEvent(bytes)).bridge, t, line, rest)
  {
    var p := w.bridge.port;
    assert |p.queue| + |bytes| <= |line| + 1;
    ReceiveKeeps(p, bytes);
    hide PortInv, Receive;
    var read := p.line[..p.length];
    Assoc(read + p.queue, bytes, rest);
    Assoc(read, p.queue, bytes);
  }

  // What a poll finds queued: the next piece behind what the line buffer holds.
  lemma PollFinds(w: World, bytes: string, t: TaskView, line: string, rest: string, read: string, q: Port)
    requires Wired(w) && Awaiting(w.bridge, t, line, bytes + rest) && |line| <= 2303
    requires read == w.bridge.port.line[..w.bridge.port.length] && q == Receive(w.bridge.port, bytes)
    ensures PortInv(q) && q.line[..q.length] == read && |read| <= |line| && q.length == |read|
    ensures read == line[..|read|]
    ensures rest != "" ==> |read| + |q.queue| <= |line| && q.queue == line[|read|..|read| + |q.queue|]
    ensures rest == "" ==> q.queue == line[|read|..] + "\n"
    ensures read + q.queue + rest == line + "\n"
    ensures var (after, reply) := Drain(q, t.id);
            Happen(w, PollEvent(bytes)).bridge == w.bridge.(port := after, task := Answered(t, reply))
  {
    var p := w.bridge.port;
    assert |p.queue| + |bytes| <= |line| + 1;
    ReceiveKeeps(p, bytes);
    hide PortInv, Receive, Drain, Answered;
    Assoc(read + p.queue, bytes, rest);
    Assoc(read, p.queue, bytes);
    Pieces(read, q.queue, rest, line);
  }

  lemma LastPollBrings(w: World, bytes: string, t: TaskView, line: string)
    requires Wired(w) && Awaiting(w.bridge, t, line, bytes)
    requires OneLine(line) && 21 <= |line| <= 2303
    ensures Happen(w, PollEvent(bytes)).bridge.task == Answered(t, ParseText(line, t.id))
  {
    var read, q := w.bridge.port.line[..w.bridge.port.length], Receive(w.bridge.port, bytes);
    Unit(bytes);
    hide PortInv, Receive, Happen, Drain, ParseLine, ParseText, OneLine, Holds, Answered, Awaiting, Wired;
    PollFinds(w, bytes, t, line, "", read, q);
    SliceOneLine(line, |read|, |line|);
    DrainLine(q, read, line[|read|..], t.id);
    assert read + line[|read|..] == line;
    ParseIsPure(Drain(q, t.id).0.line, line, t.id);
  }

  lemma EarlyPollBrings(w: World, bytes: string, t: TaskView, line: string, rest: string)
    requires Wired(w) && Awaiting(w.bridge, t, line, bytes + rest) && rest != ""
    requires OneLine(line) && |line| <= 2303
    ensures Awaiting(Happen(w, PollEvent(bytes)).bridge, t, line, rest)
  {
    var read, q := w.bridge.port.line[..w.bridge.port.length], Receive(w.bridge.port, bytes);
    hide PortInv, Receive, Happen, Drain, ParseLine, OneLine, Wired;
    PollFinds(w, bytes, t, line, rest, read, q);
    SliceOneLine(line, |read|, |read| + |q.queue|);
    DrainPart(q, read, t.id);
    Unit(read + q.queue);
  }

  lemma {:induction false} NothingSubmitted(es: seq<Event>)
    requires AllCarry(es)
    ensures Submits(es) == 0
  {
    if es != [] {
      NothingSubmitted(es[1..]);
    }
  }

  lemma AnswerSettles(t: TaskView, reply: Option<Reply>)
    requires reply.Some?
    ensures Settled(Answered(t, reply).status)
  {
  }

  // Whatever pieces the line comes in, the task is answered by it or still waiting for a poll.
  lemma {:induction false} PiecesArrive(w: World, es: seq<Event>, t: TaskView, line: string)
    requires Wired(w) && AllCarry(es) && Awaiting(w.bridge, t, line, Carried(es))
    requires OneLine(line) && 21 <= |line| <= 2303 && ParseText(line, t.id).Some?
    ensures Run(w, es).bridge.task == Answered(t, ParseText(line, t.id)) || Awaiting(Run(w, es).bridge, t, line, "")
    decreases |es|
  {
    if es != [] {
      var e, rest := es[0], Carried(es[1..]);
      hide Awaiting, Happen, ParseText, Answered, OneLine;
      if e.InterruptEvent? {
        InterruptBrings(w, e.bytes, t, line, rest);
        PiecesArrive(Happen(w, e), es[1..], t, line);
      } else {
        if rest == "" {
          Unit(e.bytes);
          LastPollBrings(w, e.bytes, t, line);
          NothingSubmitted(es[1..]);
          AnswerSettles(t, ParseText(line, t.id));
          SettledStays(Happen(w, e), es[1..]);
        } else {
          EarlyPollBrings(w, e.bytes, t, line, rest);
          PiecesArrive(Happen(w, e), es[1..], t, line);
        }
      }
    }
  }

  lemma {:induction false} RunLast(w: World, es: seq<Event>, e: Event)
    requires Wired(w)
    ensures Run(w, es + [e]) == Happen(Run(w, es), e)
    decreases |es|
  {
    hide Happen, Wired;
    if es == [] {
      assert [] + [e] == [e] && [e][1..] == [];
    } else {
      assert (es + [e])[0] == es[0] && (es + [e])[1..] == es[1..] + [e];
      RunLast(Happen(w, es[0]), es[1..], e);
    }
  }

  lemma LineArrives(w: World, es: seq<Event>, t: TaskView, line: string)
    requires Wired(w) && AllCarry(es) && Awaiting(w.bridge, t, line, Carried(es))
    requires OneLine(line) && 21 <= |line| <= 2303 && ParseText(line, t.id).Some?
    ensures Run(w, es + [PollEvent("")]).bridge.task == Answered(t, ParseText(line, t.id))
  {
    var v := Run(w, es);
    RunLast(w, es, PollEvent(""));
    PiecesArrive(w, es, t, line);
    AnswerSettles(t, ParseText(line, t.id));
    hide Awaiting, ParseText, Answered, OneLine, Wired;
    if v.bridge.task == Answered(t, ParseText(line, t.id)) {
      hide Run;
      var none: seq<Event> := [];
      assert [PollEvent("")][1..] == none && Submits([PollEvent("")]) == Submits(none) == 0;
      SettledStays(v, [PollEvent("")]);
      LoneEvent(v, PollEvent(""));
    } else {
      hide Run, Happen;
      LastPollBrings(v, "", t, line);
    }
  }

  lemma LoneEvent(w: World, e: Event)
    requires Wired(w)
    ensures Run(w, [e]) == Happen(w, e)
  {
    assert [e][1..] == [];
  }

  /** End to end, for every cut: when the host handles the request of a running task, and its response comes in
      any pieces by any interrupts and polls, the next poll leaves the task DONE with the provider's text (its
      first 900 characters), or ERROR with the provider's message. */
  lemma EndToEndInPieces(h: Host, n: nat, key: string, w: World, es: seq<Event>)
    requires Wired(w) && PortInv(w.bridge.port) && w.bridge.port.queue == "" && w.bridge.port.length == 0
    requires Listening(w.bridge) && w.bridge.task.kind == HnLang && Sendable(h, w.bridge.task)
    requires AllCarry(es) && Carried(es) == HandleFrame(h, n, Line(RequestFrame(w.bridge.task)), key)
    ensures var t := w.bridge.task;
            var answer := h.provider(n, t.input, CStr(t.profile.value), key);
            var text := Delivered(match answer case Ok(output) => output case Fail(message) => message);
            Run(w, es + [PollEvent("")]).bridge.task ==
            WithOutput(t, text).(status := if answer.Ok? then Done else Error)
  {
    hide HandleFrame, ResponseFrame, HexNumber, Line, Delivered, RequestFrame, Copied, CStr, Run,
         ParseText, OneLine, Wired, IsAscii, Blank;
    var t := w.bridge.task;
    assert t.profile.Some?;
    hide Sendable;
    var answer := h.provider(n, t.input, CStr(t.profile.value), key);
    var text := match answer case Ok(output) => output case Fail(message) => message;
    HostAnswers(h, n, key, t);
    var line := Line(ResponseFrame(HexNumber(t.id, 8), answer.Ok?, text));
    ResponseLine(t.id, answer.Ok?, text, line);
    AwaitsAll(w, t, line);
    hide PortInv, Awaiting, Listening;
    LineArrives(w, es, t, line);
  }

  lemma ResponseLine(id: u32, ok: bool, text: string, line: string)
    requires line == Line(ResponseFrame(HexNumber(id, 8), ok, text))
    ensures ResponseFrame(HexNumber(id, 8), ok, text) == line + "\n"
    ensures OneLine(line) && 21 <= |line| <= 1821 && ParseText(line, id) == Some(Reply(ok, Delivered(text)))
  {
    hide ResponseFrame, HexNumber, Line, Delivered, ParseText, OneLine, HexText, Take, AsciiReplaced;
    ResponseRoundTrip(id, ok, text);
    ResponseIsOneLine(id, ok, text);
    ResponseText(id, ok, text);
  }

  lemma AwaitsAll(w: World, t: TaskView, line: string)
    requires PortInv(w.bridge.port) && w.bridge.port.queue == "" && w.bridge.port.length == 0
    requires Listening(w.bridge) && w.bridge.task == t
    ensures Awaiting(w.bridge, t, line, line + "\n")
  {
    assert w.bridge.port.line[..0] == "";
  }
}
