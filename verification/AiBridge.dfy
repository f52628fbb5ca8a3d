/** The AI bridge: task ids, the two providers, submit, poll and cancel; and what holds over every run
    with answers that may come late. */
module AiBridge {
  import opened Word
  import opened Text
  import opened HexCodec
  import opened AiTask
  import opened SerialTransport
  import opened SerialFraming

  // ---------------------------------------------------------------- the specification

  datatype Provider = SerialBridge | LocalStub

  datatype BridgeView = BridgeView(task: TaskView, next: u32, last: Provider, port: Port, sent: string)

  function Failed(t: TaskView, message: string): TaskView {
    WithOutput(t, message).(status := Error)
  }

  // The serial provider's submit: the task and what is sent.
  function SubmitSerial(t: TaskView, ready: bool): (TaskView, string, bool) {
    if t.status == Empty then (t, "", false)
    else if t.kind == HnLang && t.profile == None then
      (Failed(t, "HNLang profile missing; request denied."), "", false)
    else if !(ready && t.input != "") then (Failed(t, "AI transport send failed."), "", false)
    else (t.(status := Running), RequestFrame(t), true)
  }

  predicate Settled(status: TaskStatus) {
    status == Done || status == Cancelled || status == Error
  }

  function SubmitStub(t: TaskView): (TaskView, bool) {
    if t.status == Empty || Settled(t.status) then (t, false)
    else if t.kind == HnLang && t.profile == None then
      (Failed(t, "AI Stub: HNLang language profile is required."), false)
    else (t.(status := Pending), true)
  }

  function StubText(kind: TaskType): string {
    match kind
    case Help => "AI Stub: Future HNMos assistant will help with system tasks, scripts, and diagnostics."
    case SysInfo => "AI Stub: Kernel status summary is available. Real AI runtime is not enabled yet."
    case StatusReport => "AI Stub: provider active. Real AI runtime is not enabled yet."
    case Assembly =>
      "AI Stub: AI assembly plan ready. Kernel snapshot observed; external actions remain gated."
    case Sync =>
      "AI Stub: Kernel-owned CPU/RAM/framebuffer checkpoint executed; external actions remain gated."
    case HnLang => "AI Stub: HNlang AI task accepted as a placeholder. No model executed."
    case _ => "AI Stub: deterministic placeholder response. Real AI runtime is not enabled yet."
  }

  function PollStub(t: TaskView): (TaskView, bool) {
    if t.status == Empty || Settled(t.status) then (t, false)
    else (WithOutput(t, StubText(t.kind)).(status := Done), true)
  }

  function Chosen(kind: TaskType): Provider {
    if kind == HnLang then SerialBridge else LocalStub
  }

  // The task as it is handed to its provider.
  function Composed(id: u32, kind: TaskType, input: Option<string>, contract: string): TaskView {
    Prepared(id, kind, input).(profile := if kind == HnLang then Some(contract) else None)
  }

  function Submit(b: BridgeView, kind: TaskType, input: Option<string>, contract: string, ready: bool)
    : (BridgeView, bool)
  {
    var t := Composed(b.next, kind, input, contract);
    var (task, frame, ok) := if kind == HnLang then SubmitSerial(t, ready)
                             else var (u, accepted) := SubmitStub(t); (u, "", accepted);
    (b.(task := task, next := Wrap(b.next + 1), last := Chosen(kind), sent := b.sent + frame), ok)
  }

  function Poll(b: BridgeView, bytes: string, ready: bool): (BridgeView, bool)
    requires |b.port.line| == 2304 && b.port.length < 2304
  {
    if b.last == LocalStub then var (t, done) := PollStub(b.task); (b.(task := t), done)
    else if b.task.status != Running || !ready then (b, false)
    else
      var (port, reply) := Drain(Receive(b.port, bytes), b.task.id);
      (b.(port := port, task := Answered(b.task, reply)), reply.Some?)
  }

  function Cancel(b: BridgeView): (BridgeView, bool) {
    if b.task.status != Running && b.task.status != Pending then (b, false)
    else (b.(task := WithOutput(b.task, "AI request cancelled locally.").(status := Cancelled)), true)
  }

  // ---------------------------------------------------------------- the bridge

  class Bridge {
    const task: Task
    const transport: Transport
    var next: u32
    var last: Provider

    ghost predicate Valid()
      reads this, transport, transport.line
    {
      task.Valid() && transport.Valid() && transport.Apart(task)
    }

    ghost function View(): BridgeView
      requires Valid()
      reads this, task, task.input, task.output, transport, transport.line, transport.rx
    {
      BridgeView(task.View(), next, last, transport.View(), transport.sent)
    }

    constructor ()
      ensures Valid() && transport.ready && fresh(task) && fresh(transport)
      ensures View() == BridgeView(NO_TASK, 1, LocalStub, QUIET, "")
    {
      transport := new Transport();
      task := new Task();
      last := LocalStub;
      next := 1;
    }

    method SubmitToSerial() returns (ok: bool)
      requires Valid()
      modifies task`status, task.output, transport`sent
      ensures Valid()
      ensures var (t, frame, sent) := SubmitSerial(old(task.View()), transport.ready);
              ok == sent && View() == old(View()).(task := t, sent := old(transport.sent) + frame)
    {
      hide CStr, RequestFrame, Copied;
      Unit(transport.sent);
      if task.status == Empty {
        return false;
      }
      if task.kind == HnLang && task.profile == None {
        task.status := Error;
        task.SetOutput("HNLang profile missing; request denied.");
        return false;
      }
      ok := transport.Send(task);
      if !ok {
        task.status := Error;
        task.SetOutput("AI transport send failed.");
        return;
      }
      task.status := Running;
    }

    method SubmitToStub() returns (ok: bool)
      requires Valid()
      modifies task`status, task.output
      ensures Valid()
      ensures var (t, accepted) := SubmitStub(old(task.View()));
              ok == accepted && View() == old(View()).(task := t)
    {
      hide CStr, Transport.View, Copied;
      if task.status == Empty || Settled(task.status) {
        return false;
      }
      if task.kind == HnLang && task.profile == None {
        task.status := Error;
        task.SetOutput("AI Stub: HNLang language profile is required.");
        return false;
      }
      task.status := Pending;
      return true;
    }

    method PollStubTask() returns (done: bool)
      requires Valid()
      modifies task`status, task.output
      ensures Valid()
      ensures var (t, finished) := PollStub(old(task.View()));
              done == finished && View() == old(View()).(task := t)
    {
      hide CStr, Transport.View, Copied, StubText;
      if task.status == Empty || Settled(task.status) {
        return false;
      }
      task.status := Running;
      task.SetOutput(StubText(task.kind));
      task.status := Done;
      return true;
    }

    // `contract` is the language profile an HNLang task is sent with.
    method SubmitTask(kind: TaskType, input: Option<string>, contextFlags: u32, contract: string)
      returns (ok: bool)
      requires Valid()
      modifies this, task, task.input, task.output, transport`sent
      ensures Valid()
      ensures (View(), ok) == Submit(old(View()), kind, input, contract, transport.ready)
    {
      hide CStr, Transport.View, SubmitSerial, SubmitStub;
      Unit(transport.sent);
      task.Prepare(next, kind, input, contextFlags);
      if kind == HnLang {
        task.profile := Some(contract);
      }
      next := Wrap(next + 1);
      last := Chosen(kind);
      if kind == HnLang {
        ok := SubmitToSerial();
      } else {
        ok := SubmitToStub();
      }
    }

    method PollTask(available: string) returns (done: bool)
      requires Valid()
      modifies task`status, task.output, transport, transport.rx, transport.line, transport.decoded
      ensures Valid()
      ensures (View(), done) == Poll(old(View()), available, transport.ready)
    {
      hide CStr, Transport.View, PollStub, Drain, Receive, Copied;
      if last == LocalStub {
        done := PollStubTask();
      } else if task.status != Running {
        return false;
      } else {
        done := transport.Poll(task, available);
      }
    }

    method CancelTask() returns (cancelled: bool)
      requires Valid()
      modifies task`status, task.output
      ensures Valid()
      ensures (View(), cancelled) == Cancel(old(View()))
    {
      hide CStr, Transport.View, Copied;
      if task.status != Running && task.status != Pending {
        return false;
      }
      task.status := Cancelled;
      task.SetOutput("AI request cancelled locally.");
      return true;
    }
  }

  // ---------------------------------------------------------------- runs

  datatype Event =
    | SubmitEvent(kind: TaskType, input: Option<string>, contract: string)
    | CancelEvent
    | PollEvent(bytes: string)
    | InterruptEvent(bytes: string)

  // The bridge with the receiver's history; `mark` is how many lines were finished before the last submit.
  datatype World = World(bridge: BridgeView, receiver: Receiver, mark: nat)

  const BOOT := World(BridgeView(NO_TASK, 1, LocalStub, QUIET, ""), FRESH, 0)

  // The bridge's port is the receiver's.
  predicate Wired(w: World) {
    w.bridge.port == w.receiver.port && |w.receiver.port.line| == 2304 && w.receiver.port.length < 2304
  }

  predicate Listening(b: BridgeView) {
    b.last == SerialBridge && b.task.status == Running
  }

  function Happen(w: World, e: Event): (v: World)
    requires Wired(w)
    ensures Wired(v)
  {
    match e
    case SubmitEvent(kind, input, contract) =>
      World(Submit(w.bridge, kind, input, contract, true).0, w.receiver, |w.receiver.lines|)
    case CancelEvent => w.(bridge := Cancel(w.bridge).0)
    case InterruptEvent(bytes) =>
      var receiver := Arrive(w.receiver, Interrupt(bytes));
      w.(receiver := receiver, bridge := w.bridge.(port := receiver.port))
    case PollEvent(bytes) =>
      w.(bridge := Poll(w.bridge, bytes, true).0,
         receiver := if Listening(w.bridge) then Arrive(w.receiver, Polled(w.bridge.task.id, bytes))
                     else w.receiver)
  }

  function Run(w: World, es: seq<Event>): (v: World)
    requires Wired(w)
    ensures Wired(v)
    decreases |es|
  {
    if es == [] then w else Run(Happen(w, es[0]), es[1..])
  }

  function Submits(es: seq<Event>): nat {
    if es == [] then 0 else (if es[0].SubmitEvent? then 1 else 0) + Submits(es[1..])
  }

  // A finished line that reports success for a task and carries its output.
  ghost predicate Reports(line: string, t: TaskView) {
    && |line| >= 21 && line[19] == 'S' && Header(line, t.id)
    && ParseText(line, t.id) == Some(Reply(true, t.output))
  }

  // Serial tasks are exactly the HNLang ones; a done one was reported by a line finished since its submit.
  ghost predicate TaskInv(w: World) {
    var t := w.bridge.task;
    && w.mark <= |w.receiver.lines|
    && (t.status != Empty ==> (w.bridge.last == SerialBridge <==> t.kind == HnLang))
    && (t.status == Empty ==> w.bridge.last == LocalStub)
    && (w.bridge.last == SerialBridge && t.status == Done ==>
          exists i :: w.mark <= i < |w.receiver.lines| && Reports(w.receiver.lines[i], t))
  }

  // The text of an accepted reply is a C string that fits the task.
  lemma ReplyFits(buffer: string, id: u32)
    requires |buffer| == 2304 && ParseLine(buffer, id).Some?
    ensures var text := ParseLine(buffer, id).value.text; CStr(text) == text && |text| <= 1023
  {
    CStrWhole(ParseLine(buffer, id).value.text);
  }

  lemma AnsweredOutput(t: TaskView, reply: Reply)
    requires CStr(reply.text) == reply.text && |reply.text| <= 1023
    ensures Answered(t, Some(reply)).output == reply.text
  {
  }

  lemma NewlineHolds(p: Port)
    requires PortInv(p)
    ensures Holds(Feed(p, '\n').line, p.line[..p.length])
  {
    assert Feed(p, '\n').line[..p.length] == p.line[..p.length];
  }

  lemma AcceptReply(p: Port, c: char, id: u32)
    requires PortInv(p)
    ensures PortInv(Accept(p, c, id).0)
    ensures var (fed, reply) := Accept(p, c, id);
            reply.Some? ==> c == '\n' && Holds(fed.line, p.line[..p.length]) && ParseLine(fed.line, id) == reply
  {
    FeedKeeps(p, c);
    NewlineHolds(p);
    hide PortInv, Holds, ParseLine, Feed;
  }

  lemma DrainUnfold(p: Port, id: u32)
    requires |p.line| == 2304 && p.length < 2304
    ensures p.queue == [] ==> Drain(p, id).1 == None
    ensures p.queue != [] ==>
              var (fed, reply) := Accept(p.(queue := p.queue[1..]), p.queue[0], id);
              Drain(p, id) == if reply.Some? then (fed, reply) else Drain(fed, id)
  {
    hide Accept;
  }

  // A poll that is answered was answered by the last line it finished.
  lemma {:induction false} DrainReply(p: Port, id: u32)
    requires PortInv(p) && Drain(p, id).1.Some?
    ensures Finishes(p, id) != []
    ensures var line := Finishes(p, id)[|Finishes(p, id)| - 1];
            && Holds(Drain(p, id).0.line, line)
            && ParseLine(Drain(p, id).0.line, id) == Drain(p, id).1
    decreases |p.queue|
  {
    hide Accept, Feed, Holds, ParseLine, Drain, Finishes, Reads;
    DrainUnfold(p, id);
    var c, rest := p.queue[0], p.(queue := p.queue[1..]);
    var (fed, reply) := Accept(rest, c, id);
    ReadsStep(p, id);
    AcceptReply(rest, c, id);
    hide PortInv;
    var now := if c == '\n' then [p.line[..p.length]] else [];
    if reply == None {
      DrainReply(fed, id);
      LastOf(now, Finishes(fed, id));
    } else {
      Unit(now);
    }
  }

  lemma LastOf<T>(a: seq<T>, b: seq<T>)
    requires b != []
    ensures a + b != [] && (a + b)[|a + b| - 1] == b[|b| - 1]
  {
  }

  lemma ReplyReports(p: Port, t: TaskView)
    requires PortInv(p) && Drain(p, t.id).1.Some?
    ensures var reply, lines := Drain(p, t.id).1, Finishes(p, t.id);
            lines != [] && (reply.value.ok ==> Reports(lines[|lines| - 1], Answered(t, reply)))
  {
    hide Drain, Finishes, ParseLine, ParseText, Holds, CStr, Copied, Header;
    DrainReply(p, t.id);
    var buffer, lines, reply := Drain(p, t.id).0.line, Finishes(p, t.id), Drain(p, t.id).1;
    hide PortInv;
    NoHeaderNoReply(buffer, lines[|lines| - 1], t.id);
    ReplyFits(buffer, t.id);
    AnsweredOutput(t, reply.value);
  }

  // What a poll of a running serial task does to the world.
  lemma PollHappens(w: World, bytes: string)
    requires Wired(w) && Listening(w.bridge)
    ensures var v, t, p := Happen(w, PollEvent(bytes)), w.bridge.task, Receive(w.bridge.port, bytes);
            && v.mark == w.mark && v.bridge.last == SerialBridge
            && v.bridge.task == Answered(t, Drain(p, t.id).1)
            && v.receiver.lines == w.receiver.lines + Finishes(p, t.id)
  {
    hide Receive, Drain, Finishes, Reads, Copied;
  }

  // An answer keeps the invariant when the last line it finished reports it.
  lemma AnswerKeeps(w: World, v: World, added: seq<string>, reply: Option<Reply>)
    requires TaskInv(w) && Listening(w.bridge)
    requires v.mark == w.mark && v.bridge.last == SerialBridge && v.bridge.task == Answered(w.bridge.task, reply)
    requires v.receiver.lines == w.receiver.lines + added
    requires reply.Some? && reply.value.ok ==> added != [] && Reports(added[|added| - 1], v.bridge.task)
    ensures TaskInv(v)
  {
    hide Reports, Copied;
    if reply.Some? && reply.value.ok {
      LastOf(w.receiver.lines, added);
    }
  }

  lemma PollKeeps(w: World, bytes: string)
    requires SerialFraming.Inv(w.receiver) && Wired(w) && TaskInv(w) && Listening(w.bridge)
    ensures TaskInv(Happen(w, PollEvent(bytes)))
  {
    var t, p := w.bridge.task, Receive(w.bridge.port, bytes);
    ReceiveKeeps(w.bridge.port, bytes);
    hide SerialFraming.Inv, PortInv, Wired, Receive, Drain, Finishes, Reports, Happen, TaskInv, Listening, Answered;
    PollHappens(w, bytes);
    if Drain(p, t.id).1.Some? {
      ReplyReports(p, t);
    }
    AnswerKeeps(w, Happen(w, PollEvent(bytes)), Finishes(p, t.id), Drain(p, t.id).1);
  }

  lemma SubmitKeeps(w: World, kind: TaskType, input: Option<string>, contract: string)
    requires Wired(w)
    ensures TaskInv(Happen(w, SubmitEvent(kind, input, contract)))
  {
    hide Reports, Copied, RequestFrame, Wrap;
  }

  lemma QuietKeeps(w: World, e: Event)
    requires Wired(w)
    requires TaskInv(w) && (e.CancelEvent? || (e.PollEvent? && !Listening(w.bridge)))
    ensures TaskInv(Happen(w, e)) && Happen(w, e).receiver == w.receiver
  {
    hide Reports, Copied, StubText, Drain, Receive;
  }

  lemma InterruptKeeps(w: World, bytes: string)
    requires Wired(w)
    requires TaskInv(w)
    ensures TaskInv(Happen(w, InterruptEvent(bytes)))
  {
    hide Reports, Receive;
  }

  lemma HappenKeeps(w: World, e: Event)
    requires SerialFraming.Inv(w.receiver) && Wired(w) && TaskInv(w)
    ensures SerialFraming.Inv(Happen(w, e).receiver) && TaskInv(Happen(w, e))
  {
    match e
    case SubmitEvent(kind, input, contract) =>
      hide SerialFraming.Inv, TaskInv, Submit;
      SubmitKeeps(w, kind, input, contract);
    case CancelEvent =>
      hide SerialFraming.Inv, TaskInv, Happen;
      QuietKeeps(w, e);
    case InterruptEvent(bytes) =>
      ArriveKeeps(w.receiver, Interrupt(bytes));
      hide SerialFraming.Inv, TaskInv, Arrive;
      InterruptKeeps(w, bytes);
    case PollEvent(bytes) =>
      if Listening(w.bridge) {
        ArriveKeeps(w.receiver, Polled(w.bridge.task.id, bytes));
        PollKeeps(w, bytes);
        hide SerialFraming.Inv, TaskInv, Arrive, Drain, Receive;
      } else {
        hide SerialFraming.Inv, TaskInv, Happen;
        QuietKeeps(w, e);
      }
  }

  lemma {:induction false} RunKeeps(w: World, es: seq<Event>)
    requires SerialFraming.Inv(w.receiver) && Wired(w) && TaskInv(w)
    ensures SerialFraming.Inv(Run(w, es).receiver) && TaskInv(Run(w, es))
    decreases |es|
  {
    if es != [] {
      HappenKeeps(w, es[0]);
      hide SerialFraming.Inv, TaskInv, Happen;
      RunKeeps(Happen(w, es[0]), es[1..]);
    }
  }

  /** In every run a serial task is DONE only after a line finished since its submit carried its own id
      and status S, and its output is that line's decoded payload, cut at 1023 bytes and at its NUL. */
  lemma DoneOnlyByOwnLine(es: seq<Event>)
    ensures var w := Run(BOOT, es);
            w.bridge.task.kind == HnLang && w.bridge.task.status == Done ==>
              exists i :: w.mark <= i < |w.receiver.lines| && Reports(w.receiver.lines[i], w.bridge.task)
  {
    FreshInv();
    RunKeeps(BOOT, es);
    hide Run, Reports;
  }

  lemma HappenIds(w: World, e: Event)
    requires Wired(w)
    ensures var v := Happen(w, e);
            if e.SubmitEvent? then v.bridge.task.id == w.bridge.next && v.bridge.next == Wrap(w.bridge.next + 1)
            else v.bridge.task.id == w.bridge.task.id && v.bridge.next == w.bridge.next
  {
    hide Wrap, Arrive, Drain, Receive, Copied, StubText, RequestFrame;
  }

  // The current id and the id counter, followed through a run.
  function IdsAfter(id: u32, next: u32, es: seq<Event>): (u32, u32)
    decreases |es|
  {
    if es == [] then (id, next)
    else if es[0].SubmitEvent? then IdsAfter(next, Wrap(next + 1), es[1..])
    else IdsAfter(id, next, es[1..])
  }

  lemma {:induction false} RunIds(w: World, es: seq<Event>, v: World)
    requires Wired(w) && v == Run(w, es)
    ensures IdsAfter(w.bridge.task.id, w.bridge.next, es) == (v.bridge.task.id, v.bridge.next)
    decreases |es|
  {
    hide Happen, Wrap, Wired;
    if es != [] {
      HappenIds(w, es[0]);
      RunIds(Happen(w, es[0]), es[1..], v);
    }
  }

  lemma {:induction false} IdsCount(id: u32, next: u32, es: seq<Event>)
    requires next == Wrap(id + 1)
    ensures IdsAfter(id, next, es) == (Wrap(id + Submits(es)), Wrap(id + Submits(es) + 1))
    decreases |es|
  {
    if es == [] {
      WrapSmall(id);
    } else {
      IdsCount(if es[0].SubmitEvent? then next else id, if es[0].SubmitEvent? then Wrap(next + 1) else next, es[1..]);
      WrapAdd(id + 1, Submits(es[1..]));
      WrapAdd(id + 1, Submits(es[1..]) + 1);
      hide Wrap;
    }
  }

  /** With fewer than 2^32 submits the current task's id is the number of submits: ids are distinct, and
      none is the 0 that the host uses for requests it could not read. */
  lemma IdIsSubmitCount(es: seq<Event>, w: World)
    requires w == Run(BOOT, es) && Submits(es) < 0x1_0000_0000
    ensures w.bridge.task.id == Submits(es)
  {
    hide Run, IdsAfter, Wrap, Submits;
    WrapSmall(1);
    WrapSmall(Submits(es));
    IdsCount(0, 1, es);
    RunIds(BOOT, es, w);
  }

  /** DONE, ERROR and CANCELLED, and the output with them, stay until the next submit. */
  lemma {:induction false} SettledStays(w: World, es: seq<Event>)
    requires Wired(w)
    requires Settled(w.bridge.task.status) && Submits(es) == 0
    ensures Run(w, es).bridge.task == w.bridge.task
    decreases |es|
  {
    if es != [] {
      hide Arrive, Drain, Receive;
      SettledStays(Happen(w, es[0]), es[1..]);
    }
  }

  /** An answer to an older task is ignored: whatever is left in the buffer, a line whose header names any
      id from 0 up to the current one is not a reply to the current task. */
  lemma LateAnswerIgnored(es: seq<Event>, w: World, older: u32, buffer: string, line: string)
    requires w == Run(BOOT, es) && older < Submits(es) < 0x1_0000_0000
    requires Holds(buffer, line) && Header(line, older)
    ensures ParseLine(buffer, w.bridge.task.id) == None
  {
    IdIsSubmitCount(es, w);
    hide Run;
    NoHeaderNoReply(buffer, line, Submits(es));
  }

  lemma DrainNeedsHeader(p: Port, id: u32)
    requires PortInv(p) && forall i :: 0 <= i < |Finishes(p, id)| ==> !Header(Finishes(p, id)[i], id)
    ensures Drain(p, id).1 == None
  {
    assert |p.line| == 2304 && p.length < 2304;
    hide Finishes, Drain, ParseLine, ParseText, Header, Holds, PortInv;
    if Drain(p, id).1.Some? {
      DrainReply(p, id);
      var lines := Finishes(p, id);
      NoHeaderNoReply(Drain(p, id).0.line, lines[|lines| - 1], id);
    }
  }

  lemma PollNeedsHeader(w: World, bytes: string)
    requires SerialFraming.Inv(w.receiver) && Wired(w) && Listening(w.bridge)
    requires var lines := Finishes(Receive(w.bridge.port, bytes), w.bridge.task.id);
             forall i :: 0 <= i < |lines| ==> !Header(lines[i], w.bridge.task.id)
    ensures Happen(w, PollEvent(bytes)).bridge.task == w.bridge.task
  {
    ReceiveKeeps(w.bridge.port, bytes);
    hide Receive, PortInv, Framed, WithoutReturns, Arrive, Drain, Finishes, Header;
    DrainNeedsHeader(Receive(w.bridge.port, bytes), w.bridge.task.id);
  }

  /** In every run, a poll that finishes no line with the current task's header leaves the task as it was. */
  lemma OnlyOwnLinesAct(es: seq<Event>, w: World, bytes: string)
    requires w == Run(BOOT, es) && Listening(w.bridge)
    requires var lines := Finishes(Receive(w.bridge.port, bytes), w.bridge.task.id);
             forall i :: 0 <= i < |lines| ==> !Header(lines[i], w.bridge.task.id)
    ensures Happen(w, PollEvent(bytes)).bridge.task == w.bridge.task
  {
    FreshInv();
    RunKeeps(BOOT, es);
    hide Run, SerialFraming.Inv;
    PollNeedsHeader(w, bytes);
  }

  // ---------------------------------------------------------------- what the single events do

  lemma MessageKept(t: TaskView, message: string)
    requires NUL !in message && |message| <= 1023
    ensures WithOutput(t, message).output == message
  {
    CStrWhole(message);
  }

  lemma CancelMessage(t: TaskView)
    ensures WithOutput(t, "AI request cancelled locally.").output == "AI request cancelled locally."
  {
    var message := "AI request cancelled locally.";
    assert |message| == 29;
    assert NUL !in message;
    hide WithOutput;
    MessageKept(t, message);
  }

  lemma SendMessage(t: TaskView)
    ensures WithOutput(t, "AI transport send failed.").output == "AI transport send failed."
  {
    var message := "AI transport send failed.";
    assert |message| == 25;
    assert NUL !in message;
    hide WithOutput;
    MessageKept(t, message);
  }

  lemma CancelStep(w: World)
    requires Wired(w) && (w.bridge.task.status == Running || w.bridge.task.status == Pending)
    ensures var was, t := w.bridge.task, Happen(w, CancelEvent).bridge.task;
            && t.status == Cancelled && t.output == "AI request cancelled locally."
            && t.id == was.id && t.kind == was.kind && t.input == was.input && t.profile == was.profile
  {
    hide Copied;
    CancelMessage(w.bridge.task);
  }

  /** A running or pending task that is cancelled is CANCELLED, with the message as its output and its id, type and
      input kept, until the next submit: whatever bytes come after, an answer of its own included. */
  lemma CancelledForGood(w: World, es: seq<Event>)
    requires Wired(w) && Submits(es) == 0
    requires w.bridge.task.status == Running || w.bridge.task.status == Pending
    ensures var was, t := w.bridge.task, Run(w, [CancelEvent] + es).bridge.task;
            && t.status == Cancelled && t.output == "AI request cancelled locally."
            && t.id == was.id && t.kind == was.kind && t.input == was.input && t.profile == was.profile
  {
    hide Happen;
    CancelStep(w);
    assert ([CancelEvent] + es)[1..] == es;
    SettledStays(Happen(w, CancelEvent), es);
  }

  /** Cancelling anything else changes nothing. */
  lemma CancelNothing(w: World)
    requires Wired(w) && w.bridge.task.status != Running && w.bridge.task.status != Pending
    ensures Happen(w, CancelEvent) == w
  {
  }

  /** The call reports whether there was something to cancel. */
  lemma CancelReports(b: BridgeView)
    ensures Cancel(b).1 <==> b.task.status == Running || b.task.status == Pending
    ensures Cancel(b).0.task.status == if Cancel(b).1 then Cancelled else b.task.status
  {
    hide Copied;
  }

  /** Submitting an HNLang task with some text starts it under the next id, and sends its request frame; without
      text it fails, and nothing is sent. */
  lemma SubmitStarts(w: World, input: Option<string>, contract: string)
    requires Wired(w)
    ensures var b, text := Happen(w, SubmitEvent(HnLang, input, contract)).bridge, Copied(input, 160);
            && b.task.id == w.bridge.next && b.task.kind == HnLang
            && b.task.input == text && b.task.profile == Some(contract)
            && b.next == Wrap(w.bridge.next + 1) && b.last == SerialBridge && b.port == w.bridge.port
            && if text != "" then
                 && b.task.status == Running && b.task.output == ""
                 && b.sent == w.bridge.sent + RequestFrame(b.task)
               else
                 b.task.status == Error && b.task.output == "AI transport send failed." && b.sent == w.bridge.sent
  {
    hide Copied, Wrap, WithOutput;
    var t := Composed(w.bridge.next, HnLang, input, contract);
    Unit(w.bridge.sent);
    SendMessage(t);
    FrameIgnoresStatus(t);
    FailedKeeps(t, "AI transport send failed.");
    hide RequestFrame;
  }

  lemma FrameIgnoresStatus(t: TaskView)
    ensures RequestFrame(t.(status := Running)) == RequestFrame(t)
  {
    hide HexText, RequestHead, ProfileField;
  }

  lemma FailedKeeps(t: TaskView, message: string)
    ensures var f := Failed(t, message);
            && f.status == Error && f.output == WithOutput(t, message).output
            && f.id == t.id && f.kind == t.kind && f.input == t.input && f.profile == t.profile
  {
    hide Copied;
  }

  /** Any other task goes to the local stub: the next poll finishes it with its fixed text, whatever came over the
      wire, and nothing is sent or read. */
  lemma StubFinishes(w: World, kind: TaskType, input: Option<string>, contract: string, bytes: string)
    requires Wired(w) && kind != HnLang
    ensures var b := Run(w, [SubmitEvent(kind, input, contract), PollEvent(bytes)]).bridge;
            && b.task.id == w.bridge.next && b.task.kind == kind && b.task.input == Copied(input, 160)
            && b.task.status == Done && b.task.output == Copied(Some(StubText(kind)), 1024)
            && b.sent == w.bridge.sent && b.port == w.bridge.port && b.last == LocalStub
  {
    hide Copied, StubText, Wrap, Receive, Drain, Arrive, RequestFrame, Failed;
    var one, other := SubmitEvent(kind, input, contract), PollEvent(bytes);
    Unit(w.bridge.sent);
    var v := Happen(w, one);
    assert v.bridge.task == Composed(w.bridge.next, kind, input, contract);
    assert v.bridge.sent == w.bridge.sent && v.bridge.last == LocalStub && v.bridge.port == w.bridge.port;
    TwoEvents(w, one, other);
  }

  lemma TwoEvents(w: World, one: Event, other: Event)
    requires Wired(w)
    ensures Run(w, [one, other]) == Happen(Happen(w, one), other)
  {
    hide Happen, Wired;
    assert [one, other][1..] == [other] && [other][1..] == [];
    var v := Happen(w, one);
    assert Run(w, [one, other]) == Run(v, [other]) == Run(Happen(v, other), []);
  }
}
