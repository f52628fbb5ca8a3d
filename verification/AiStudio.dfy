/** The Studio screen's capture modes: at any time the keys go to the secret, to the prompt, or to the
    shortcuts. What the screen draws, and saving a finished draft while drawing, are not part of this model. */
module AiStudio {
  import opened Text
  import Ring
  import opened HexCodec
  import opened AiTask
  import opened SerialTransport
  import opened AiBridge
  import opened AiSession
  import Workspace
  import HostBridge
  import WireProtocol

  // ---------------------------------------------------------------- the specification

  datatype Button = Subscription | AddApiKey | Generate | Review | BuildRequest

  const BUTTONS := [Subscription, AddApiKey, Generate, Review, BuildRequest]

  datatype Key = BackspaceKey | EnterKey | OtherKey

  // Mouse events carry which of the five buttons the pointer is over.
  datatype UiEvent =
    | KeyDown(key: Key)
    | KeyChar(c: char)
    | MouseMove
    | MouseDown(left: bool, over: seq<bool>)
    | MouseUp(left: bool, over: seq<bool>)

  datatype StudioView = StudioView(
    session: SessionView, prompt: string, capturing: bool, pressed: Option<nat>, bridge: BridgeView)

  predicate Entering(s: StudioView) {
    s.session.status == EnteringApiKey
  }

  predicate Printable(c: char) {
    32 <= c as int <= 126
  }

  predicate WellFormed(e: UiEvent) {
    (e.MouseDown? || e.MouseUp?) ==> |e.over| == |BUTTONS|
  }

  // The button pressed is one of the five.
  predicate Pressable(s: StudioView) {
    s.pressed.Some? ==> s.pressed.value < |BUTTONS|
  }

  ghost predicate StudioInv(s: StudioView) {
    && SessionInv(s.session)
    && !(Entering(s) && s.capturing)
    && |s.prompt| <= 159
    && (forall i :: 0 <= i < |s.prompt| ==> Printable(s.prompt[i]))
  }

  // The last button the pointer is over.
  function LastOver(over: seq<bool>): (last: Option<nat>)
    ensures last.Some? ==> last.value < |over|
  {
    if over == [] then None
    else if over[|over| - 1] then Some(|over| - 1)
    else LastOver(over[..|over| - 1])
  }

  function GeneratePrompt(s: StudioView): StudioView {
    if s.bridge.task.status == Running then s
    else s.(session := if Entering(s) then OFFLINE else s.session, prompt := "", capturing := true)
  }

  function Activate(s: StudioView, b: Button): StudioView {
    match b
    case Subscription =>
      s.(capturing := false, session := SessionView("", SubscriptionOAuth, SubscriptionUnsupported))
    case AddApiKey => s.(capturing := false, session := SessionView("", ApiKey, EnteringApiKey))
    case Generate => GeneratePrompt(s)
    case _ => s
  }

  function SubmitPrompt(s: StudioView, contract: string, ready: bool): StudioView {
    if s.prompt == "" then s
    else if Workspace.DecidePath(Workspace.WriteHnlangDraft, Some(Workspace.DRAFT_PATH)) != Workspace.Allow then s
    else
      var (bridge, ok) := Submit(s.bridge, HnLang, Some(s.prompt), contract, ready);
      s.(bridge := bridge, capturing := s.capturing && !ok)
  }

  function SubmitSecret(s: StudioView, ready: bool): StudioView {
    var (session, frame) := SubmitKey(s.session, ready);
    s.(session := session, bridge := s.bridge.(sent := s.bridge.sent + frame))
  }

  function CapturePrompt(prompt: string, c: char): string {
    if Printable(c) && |prompt| + 1 < 160 then prompt + [c] else prompt
  }

  function ErasePrompt(prompt: string): string {
    if prompt == "" then "" else prompt[..|prompt| - 1]
  }

  function Shortcut(c: char): Option<Button> {
    if c == 'l' then Some(Subscription)
    else if c == 'k' then Some(AddApiKey)
    else if c == 'g' then Some(Generate)
    else if c == 'r' then Some(Review)
    else if c == 'b' then Some(BuildRequest)
    else None
  }

  function HandleKey(s: StudioView, key: Key, contract: string, ready: bool): (StudioView, bool) {
    if key == BackspaceKey && Entering(s) then (s.(session := Backspace(s.session)), true)
    else if key == BackspaceKey && s.capturing then (s.(prompt := ErasePrompt(s.prompt)), true)
    else if key == EnterKey && Entering(s) then (SubmitSecret(s, ready), true)
    else if key == EnterKey && s.capturing then (SubmitPrompt(s, contract, ready), true)
    else (s, false)
  }

  function HandleChar(s: StudioView, c: char): (StudioView, bool) {
    if Entering(s) then (s.(session := Capture(s.session, c)), true)
    else if s.capturing then (s.(prompt := CapturePrompt(s.prompt, c)), true)
    else if Shortcut(c).Some? then (Activate(s, Shortcut(c).value), true)
    else if c == 'x' then (s.(bridge := Cancel(s.bridge).0), true)
    else (s, false)
  }

  function HandleRelease(s: StudioView, over: seq<bool>): (StudioView, bool)
    requires |over| == |BUTTONS| && Pressable(s)
  {
    if s.pressed.Some? && over[s.pressed.value] then (Activate(s.(pressed := None), BUTTONS[s.pressed.value]), true)
    else (s.(pressed := None), false)
  }

  // The screen after an event, and whether it took it. `contract` is the profile a request is sent with.
  function Handle(s: StudioView, e: UiEvent, contract: string, ready: bool): (StudioView, bool)
    requires WellFormed(e) && Pressable(s)
  {
    match e
    case KeyDown(key) => HandleKey(s, key, contract, ready)
    case KeyChar(c) => HandleChar(s, c)
    case MouseMove => (s, false)
    case MouseDown(left, over) =>
      if left then (s.(pressed := LastOver(over)), LastOver(over).Some?) else (s, false)
    case MouseUp(left, over) => if left then HandleRelease(s, over) else (s, false)
  }

  function Left(s: StudioView): StudioView {
    s.(session := if Entering(s) then OFFLINE else s.session, pressed := None, capturing := false)
  }

  // ---------------------------------------------------------------- the screen

  class Studio {
    const session: Session
    const bridge: Bridge
    const prompt: array<char>
    var length: nat
    var capturing: bool
    var pressed: Option<nat>

    ghost predicate Valid()
      reads this, prompt, session, session.secret, bridge, bridge.task, bridge.transport, bridge.transport.line
    {
      && session.Valid() && bridge.Valid() && session.transport == bridge.transport
      && prompt.Length == 160 && length <= 159 && prompt[length] == NUL
      && (forall i :: 0 <= i < length ==> Printable(prompt[i]))
      && !(session.status == EnteringApiKey && capturing)
      && (pressed.Some? ==> pressed.value < |BUTTONS|)
      && prompt != session.secret
      && {prompt, session.secret} !! {bridge.task.input, bridge.task.output}
      && {prompt, session.secret} !! {bridge.transport.rx, bridge.transport.line, bridge.transport.decoded}
    }

    ghost function View(): (s: StudioView)
      requires Valid()
      reads this, prompt, session, session.secret
      reads bridge, bridge.task, bridge.task.input, bridge.task.output
      reads bridge.transport, bridge.transport.line, bridge.transport.rx
      ensures StudioInv(s) && Pressable(s)
    {
      StudioView(session.View(), prompt[..length], capturing, pressed, bridge.View())
    }

    constructor ()
      ensures Valid()
      ensures View() == StudioView(OFFLINE, "", false, None, BridgeView(NO_TASK, 1, LocalStub, QUIET, ""))
    {
      hide Bridge.View, SessionInv, AiSession.Buffer;
      var b := new Bridge();
      var s := new Session(b.transport);
      bridge := b;
      session := s;
      prompt := new char[160](_ => NUL);
      length, capturing, pressed := 0, false, None;
      new;
      assert prompt[..0] == "";
    }

    method StartPrompt()
      requires Valid()
      modifies this, prompt, session, session.secret
      ensures Valid() && View() == GeneratePrompt(old(View()))
    {
      hide Bridge.View, Bridge.Valid, SessionInv, AiSession.Buffer;
      if bridge.task.status == Running {
        assert bridge.View().task.status == Running by { TaskStatusInView(); }
        return;
      }
      assert bridge.View().task.status != Running by { TaskStatusInView(); }
      if session.status == EnteringApiKey {
        session.CancelSession();
      }
      prompt[0] := NUL;
      length := 0;
      capturing := true;
      assert prompt[..0] == "";
    }

    lemma TaskStatusInView()
      requires bridge.Valid()
      ensures bridge.View().task.status == bridge.task.status
    {
    }

    method SubmitCaptured(contract: string)
      requires Valid() && capturing
      modifies `capturing, bridge, bridge.task, bridge.task.input, bridge.task.output, bridge.transport`sent
      ensures Valid() && View() == SubmitPrompt(old(View()), contract, bridge.transport.ready)
    {
      hide Bridge.View, SessionInv, AiSession.Buffer, Submit, Workspace.DecidePath;
      if length == 0 {
        return;
      }
      var decision := Workspace.DecideOnPath(Workspace.WriteHnlangDraft, Some(Workspace.DRAFT_PATH));
      if decision != Workspace.Allow {
        return;
      }
      var ok := bridge.SubmitTask(HnLang, Some(prompt[..length]), 0, contract);
      if !ok {
        return;
      }
      capturing := false;
    }

    method ActivateButton(index: nat)
      requires Valid() && index < |BUTTONS|
      modifies this, prompt, session, session.secret
      ensures Valid() && View() == Activate(old(View()), BUTTONS[index])
    {
      hide Bridge.View, Bridge.Valid, SessionInv, AiSession.Buffer, GeneratePrompt;
      if index == 0 {
        capturing := false;
        session.BeginSubscriptionLogin();
      } else if index == 1 {
        capturing := false;
        session.BeginApiKey();
      } else if index == 2 {
        StartPrompt();
      }
    }

    method ErasePromptCharacter()
      requires Valid()
      modifies `length, prompt
      ensures Valid() && View() == old(View()).(prompt := ErasePrompt(old(View()).prompt))
    {
      hide SessionInv, AiSession.Buffer, Bridge.View;
      if length > 0 {
        length := length - 1;
        prompt[length] := NUL;
        assert prompt[..length] == old(prompt[..length])[..length];
      }
    }

    method SendSecret()
      requires Valid() && session.status == EnteringApiKey
      modifies session, session.secret, bridge.transport`sent
      ensures Valid() && View() == SubmitSecret(old(View()), bridge.transport.ready)
    {
      hide SessionInv, AiSession.Buffer, CStr, Ring.Contents, SubmitKey;
      session.SubmitApiKey();
    }

    method PressKey(key: Key, contract: string) returns (handled: bool)
      requires Valid()
      modifies this, prompt, session, session.secret
      modifies bridge, bridge.task, bridge.task.input, bridge.task.output, bridge.transport`sent
      ensures Valid()
      ensures (View(), handled) == HandleKey(old(View()), key, contract, bridge.transport.ready)
    {
      hide SessionInv, AiSession.Buffer, SubmitPrompt, Bridge.View, SubmitSecret;
      if key == BackspaceKey && session.status == EnteringApiKey {
        session.EraseCharacter();
        return true;
      }
      if key == BackspaceKey && capturing {
        ErasePromptCharacter();
        return true;
      }
      if key == EnterKey && session.status == EnteringApiKey {
        SendSecret();
        return true;
      }
      if key == EnterKey && capturing {
        SubmitCaptured(contract);
        return true;
      }
      return false;
    }

    method TypeCharacter(c: char) returns (handled: bool)
      requires Valid()
      modifies this, prompt, session, session.secret, bridge.task`status, bridge.task.output
      ensures Valid()
      ensures (View(), handled) == HandleChar(old(View()), c)
    {
      hide SessionInv, AiSession.Buffer, Bridge.View, Activate, Capture, Cancel;
      if session.status == EnteringApiKey {
        var taken := session.CaptureCharacter(c);
        return true;
      }
      if capturing {
        if c as int >= 32 && c as int <= 126 && length + 1 < 160 {
          prompt[length] := c;
          length := length + 1;
          prompt[length] := NUL;
          assert prompt[..length] == old(prompt[..length]) + [c];
        }
        return true;
      }
      if c == 'l' {
        ActivateButton(0);
        return true;
      }
      if c == 'k' {
        ActivateButton(1);
        return true;
      }
      if c == 'g' {
        ActivateButton(2);
        return true;
      }
      if c == 'r' {
        ActivateButton(3);
        return true;
      }
      if c == 'b' {
        ActivateButton(4);
        return true;
      }
      if c == 'x' {
        var cancelled := bridge.CancelTask();
        return true;
      }
      return false;
    }

    method PressMouse(over: seq<bool>) returns (handled: bool)
      requires Valid() && |over| == |BUTTONS|
      modifies `pressed
      ensures Valid()
      ensures View() == old(View()).(pressed := LastOver(over)) && handled == LastOver(over).Some?
    {
      hide SessionInv, Bridge.View, Bridge.Valid, AiSession.Buffer;
      pressed := None;
      var i := 0;
      while i < |over|
        invariant i <= |over| && pressed == LastOver(over[..i])
        invariant Valid() && View() == old(View()).(pressed := pressed)
      {
        assert over[..i + 1][..i] == over[..i];
        if over[i] {
          pressed := Some(i);
        }
        i := i + 1;
      }
      assert over[..i] == over;
      return pressed.Some?;
    }

    method ReleaseMouse(over: seq<bool>) returns (handled: bool)
      requires Valid() && |over| == |BUTTONS|
      modifies this, prompt, session, session.secret
      ensures Valid()
      ensures (View(), handled) == HandleRelease(old(View()), over)
    {
      hide SessionInv, Bridge.View, Bridge.Valid, AiSession.Buffer, Activate;
      var index := pressed;
      pressed := None;
      if index.Some? && over[index.value] {
        ActivateButton(index.value);
        return true;
      }
      return false;
    }

    method HandleEvent(e: UiEvent, contract: string) returns (handled: bool)
      requires Valid() && WellFormed(e)
      modifies this, prompt, session, session.secret
      modifies bridge, bridge.task, bridge.task.input, bridge.task.output, bridge.transport`sent
      ensures Valid()
      ensures (View(), handled) == Handle(old(View()), e, contract, bridge.transport.ready)
    {
      hide SessionInv, Bridge.View, Bridge.Valid, AiSession.Buffer, HandleKey, HandleChar, HandleRelease;
      match e
      case KeyDown(key) => handled := PressKey(key, contract);
      case KeyChar(c) => handled := TypeCharacter(c);
      case MouseMove => handled := false;
      case MouseDown(left, over) =>
        if left {
          handled := PressMouse(over);
        } else {
          handled := false;
        }
      case MouseUp(left, over) =>
        if left {
          handled := ReleaseMouse(over);
        } else {
          handled := false;
        }
    }

    method OnExit()
      requires Valid()
      modifies this, session, session.secret
      ensures Valid() && View() == Left(old(View()))
    {
      hide SessionInv, Bridge.View, Bridge.Valid, AiSession.Buffer;
      if session.status == EnteringApiKey {
        session.CancelSession();
      }
      pressed := None;
      capturing := false;
    }
  }

  // ---------------------------------------------------------------- runs

  // Between screen events the rest of the kernel may do anything to the bridge.
  datatype Step =
    | Ui(event: UiEvent, contract: string, ready: bool)
    | EnterScreen
    | LeaveScreen
    | Elsewhere(bridge: BridgeView)

  const START := StudioView(OFFLINE, "", false, None, BridgeView(NO_TASK, 1, LocalStub, QUIET, ""))

  predicate StepOk(step: Step) {
    step.Ui? ==> WellFormed(step.event)
  }

  function Happens(s: StudioView, step: Step): (r: StudioView)
    requires StepOk(step) && Pressable(s)
    ensures Pressable(r)
  {
    match step
    case Ui(e, contract, ready) => Handle(s, e, contract, ready).0
    case EnterScreen => s.(pressed := None)
    case LeaveScreen => Left(s)
    case Elsewhere(bridge) => s.(bridge := bridge)
  }

  lemma KeyKeeps(s: StudioView, key: Key, contract: string, ready: bool)
    requires StudioInv(s)
    ensures StudioInv(HandleKey(s, key, contract, ready).0)
  {
    hide Submit, Workspace.DecidePath, KeyFrame;
  }

  lemma CharKeeps(s: StudioView, c: char)
    requires StudioInv(s)
    ensures StudioInv(HandleChar(s, c).0)
  {
    hide Cancel;
  }

  lemma ReleaseKeeps(s: StudioView, over: seq<bool>)
    requires StudioInv(s) && Pressable(s) && |over| == |BUTTONS|
    ensures StudioInv(HandleRelease(s, over).0)
  {
  }

  lemma HappensKeeps(s: StudioView, step: Step)
    requires StepOk(step) && StudioInv(s) && Pressable(s)
    ensures StudioInv(Happens(s, step))
  {
    if step.Ui? {
      var e := step.event;
      match e
      case KeyDown(key) => KeyKeeps(s, key, step.contract, step.ready);
      case KeyChar(c) => CharKeeps(s, c);
      case MouseMove =>
      case MouseDown(left, over) =>
      case MouseUp(left, over) => if left { ReleaseKeeps(s, over); }
      hide HandleKey, HandleChar, HandleRelease;
    }
  }

  function Run(s: StudioView, steps: seq<Step>): (r: StudioView)
    requires Pressable(s) && forall i :: 0 <= i < |steps| ==> StepOk(steps[i])
    ensures Pressable(r)
    decreases |steps|
  {
    if steps == [] then s else Run(Happens(s, steps[0]), steps[1..])
  }

  lemma {:induction false} RunKeeps(s: StudioView, steps: seq<Step>)
    requires StudioInv(s) && Pressable(s) && forall i :: 0 <= i < |steps| ==> StepOk(steps[i])
    ensures StudioInv(Run(s, steps))
    decreases |steps|
  {
    if steps != [] {
      HappensKeeps(s, steps[0]);
      hide StudioInv, Happens;
      RunKeeps(Happens(s, steps[0]), steps[1..]);
    }
  }

  /** In every run, with any events and anything done to the bridge in between: the secret and the prompt are
      never captured at once, and outside key entry no secret is kept. */
  lemma NeverBothCaptured(steps: seq<Step>)
    requires forall i :: 0 <= i < |steps| ==> StepOk(steps[i])
    ensures var s := Run(START, steps);
            && !(Entering(s) && s.capturing)
            && (!Entering(s) ==> s.session.secret == "")
            && |s.session.secret| <= 191 && |s.prompt| <= 159
  {
    RunKeeps(START, steps);
    hide Run;
  }

  // ---------------------------------------------------------------- where the keys go

  predicate Typing(step: Step) {
    step.Ui? && (step.event.KeyChar? || step.event == KeyDown(BackspaceKey))
  }

  predicate AllTyping(keys: seq<Step>) {
    forall i :: 0 <= i < |keys| ==> StepOk(keys[i]) && Typing(keys[i])
  }

  // A line editor: a stack of the characters it accepts, never higher than its limit.
  function Edited(text: string, keys: seq<Step>, low: int, limit: nat): string
    decreases |keys|
  {
    if keys == [] then text
    else
      var next :=
        if !(keys[0].Ui? && keys[0].event.KeyChar?) then if text == "" then "" else text[..|text| - 1]
        else if low <= keys[0].event.c as int <= 126 && |text| < limit then text + [keys[0].event.c]
        else text;
      Edited(next, keys[1..], low, limit)
  }

  /** While a key is entered, typing edits the secret and changes nothing else: no character of it reaches
      the prompt, the bridge or the wire. */
  lemma {:induction false} SecretTyping(s: StudioView, keys: seq<Step>)
    requires StudioInv(s) && Pressable(s) && Entering(s) && AllTyping(keys)
    ensures Run(s, keys) == s.(session := s.session.(secret := Edited(s.session.secret, keys, 33, 191)))
    decreases |keys|
  {
    if keys != [] {
      HappensKeeps(s, keys[0]);
      SecretTyping(Happens(s, keys[0]), keys[1..]);
    }
  }

  /** While a prompt is entered, typing edits the prompt and changes nothing else. */
  lemma {:induction false} PromptTyping(s: StudioView, keys: seq<Step>)
    requires StudioInv(s) && Pressable(s) && s.capturing && AllTyping(keys)
    ensures Run(s, keys) == s.(prompt := Edited(s.prompt, keys, 32, 159))
    decreases |keys|
  {
    if keys != [] {
      HappensKeeps(s, keys[0]);
      PromptTyping(Happens(s, keys[0]), keys[1..]);
    }
  }

  lemma SessionInvStart()
    ensures SessionInv(START.session)
  {
  }

  lemma SecretIsAscii(s: SessionView)
    requires SessionInv(s)
    ensures IsAscii(s.secret) && |s.secret| <= 191
  {
  }

  lemma EnterSubmitsSecret(s: StudioView, contract: string)
    requires Pressable(s) && Entering(s)
    ensures var after := Handle(s, KeyDown(EnterKey), contract, true).0;
            && !Entering(after) && after.session.secret == ""
            && after.bridge == if |s.session.secret| < 8 then s.bridge
                               else s.bridge.(sent := s.bridge.sent + KeyFrame(s.session.secret))
  {
    hide KeyFrame;
    Unit(s.bridge.sent);
  }

  /** In every run, Enter during key entry wipes the secret; when it has 8 characters or more it goes out in
      one frame, from which the host reads back exactly the text that was typed. */
  lemma KeyReachesHost(steps: seq<Step>, s: StudioView, contract: string, h: HostBridge.Host)
    requires forall i :: 0 <= i < |steps| ==> StepOk(steps[i])
    requires s == Run(START, steps) && Entering(s)
    ensures var after, frame := Handle(s, KeyDown(EnterKey), contract, true).0, KeyFrame(s.session.secret);
            && !Entering(after) && after.session.secret == ""
            && after.bridge == (if |s.session.secret| < 8 then s.bridge
                                else s.bridge.(sent := s.bridge.sent + frame))
            && (|s.session.secret| >= 8 ==>
                  HostBridge.ParseApiKey(h, WireProtocol.Line(frame)) == HostBridge.Ok(s.session.secret))
  {
    hide Run, KeyFrame, HostBridge.ParseApiKey, WireProtocol.Line, Handle, SessionInv, IsAscii;
    SessionInvStart();
    RunKeeps(START, steps);
    SecretIsAscii(s.session);
    EnterSubmitsSecret(s, contract);
    if |s.session.secret| >= 8 {
      WireProtocol.KeyRoundTrip(h, s.session.secret);
    }
  }

  lemma PromptIsText(prompt: string)
    requires |prompt| <= 159 && forall i :: 0 <= i < |prompt| ==> Printable(prompt[i])
    ensures IsAscii(prompt) && Copied(Some(prompt), 160) == prompt
  {
    CStrWhole(prompt);
  }

  lemma EnterSubmitsPrompt(s: StudioView, contract: string, t: TaskView)
    requires StudioInv(s) && Pressable(s) && s.capturing && s.prompt != ""
    requires t == Composed(s.bridge.next, HnLang, Some(s.prompt), contract)
    ensures t.id == s.bridge.next && t.kind == HnLang && t.input == s.prompt && t.profile == Some(contract)
    ensures var after := Handle(s, KeyDown(EnterKey), contract, true).0;
            && !after.capturing && after.session == s.session
            && after.bridge.task == t.(status := Running)
            && after.bridge.sent == s.bridge.sent + RequestFrame(t)
  {
    PromptIsText(s.prompt);
    Workspace.DraftAllowed();
    hide RequestFrame, Workspace.DecidePath, Copied;
  }

  /** In every run, Enter during prompt entry with a prompt that is not blank starts a task under the next id,
      with a frame from which the host reads back that id, the prompt and the profile. */
  lemma PromptReachesHost(steps: seq<Step>, s: StudioView, contract: string, h: HostBridge.Host, t: TaskView)
    requires forall i :: 0 <= i < |steps| ==> StepOk(steps[i])
    requires s == Run(START, steps) && s.capturing && !HostBridge.Blank(h, s.prompt)
    requires IsAscii(CStr(contract)) && |CStr(contract)| <= 512
    requires t == Composed(s.bridge.next, HnLang, Some(s.prompt), contract)
    ensures var after := Handle(s, KeyDown(EnterKey), contract, true).0;
            && !after.capturing && after.bridge.task == t.(status := Running)
            && after.bridge.sent == s.bridge.sent + RequestFrame(t)
            && HostBridge.ParseRequest(h, WireProtocol.Line(RequestFrame(t))) ==
               HostBridge.Ok(HostBridge.Request(HexNumber(s.bridge.next, 8), 6, s.prompt, CStr(contract)))
  {
    hide Run, RequestFrame, HostBridge.ParseRequest, WireProtocol.Line, Composed, Copied, CStr;
    RunKeeps(START, steps);
    EnterSubmitsPrompt(s, contract, t);
    PromptIsText(s.prompt);
    hide Handle;
    WireProtocol.RequestRoundTrip(h, t);
  }

  /** Nothing but Enter puts anything on the wire. */
  lemma OnlyEnterSends(s: StudioView, e: UiEvent, contract: string, ready: bool)
    requires Pressable(s) && WellFormed(e) && e != KeyDown(EnterKey)
    ensures Handle(s, e, contract, ready).0.bridge.sent == s.bridge.sent
  {
    hide Copied;
  }

  // ---------------------------------------------------------------- the buttons and their letters

  function Letter(i: nat): char
    requires i < 5
  {
    if i == 0 then 'l' else if i == 1 then 'k' else if i == 2 then 'g' else if i == 3 then 'r' else 'b'
  }

  // The pointer is over one button.
  function Over(i: nat): seq<bool> {
    seq(5, j => j == i)
  }

  // The left button is pressed at one place and released at another.
  function Clicked(s: StudioView, i: nat, j: nat, contract: string, ready: bool): StudioView
    requires Pressable(s)
  {
    var down := Happens(s, Ui(MouseDown(true, Over(i)), contract, ready));
    Happens(down, Ui(MouseUp(true, Over(j)), contract, ready))
  }

  function Lettered(s: StudioView, c: char, contract: string, ready: bool): StudioView
    requires Pressable(s)
  {
    Happens(s, Ui(KeyChar(c), contract, ready))
  }

  lemma LastOverOne(i: nat)
    requires i < 5
    ensures LastOver(Over(i)) == Some(i)
  {
    BehindNone(Over(i), i, 5);
    assert Over(i)[..5] == Over(i);
  }

  lemma {:induction false} BehindNone(over: seq<bool>, i: nat, n: nat)
    requires i < n <= |over| && over[i] && forall j :: i < j < |over| ==> !over[j]
    ensures LastOver(over[..n]) == Some(i)
  {
    if n > i + 1 {
      BehindNone(over, i, n - 1);
      assert over[..n][..n - 1] == over[..n - 1];
    }
  }

  /** What a click on each button does, also while a key or a prompt is entered: the first two end the prompt and
      start a session of their kind with no secret, the third starts an empty prompt unless a task runs, and the
      last two change nothing here. */
  lemma ClickActs(s: StudioView, i: nat, contract: string, ready: bool)
    requires Pressable(s) && i < 5
    ensures var u := Clicked(s, i, i, contract, ready);
            && u.pressed == None && u.bridge == s.bridge
            && (i == 0 ==> u.session == SessionView("", SubscriptionOAuth, SubscriptionUnsupported))
            && (i == 1 ==> u.session == SessionView("", ApiKey, EnteringApiKey))
            && (i <= 1 ==> !u.capturing && u.prompt == s.prompt)
            && (i == 2 && s.bridge.task.status != Running ==>
                  u.capturing && u.prompt == "" && u.session == if Entering(s) then OFFLINE else s.session)
            && (i >= 3 || (i == 2 && s.bridge.task.status == Running) ==>
                  u.session == s.session && u.capturing == s.capturing && u.prompt == s.prompt)
  {
    LastOverOne(i);
    hide LastOver;
  }

  /** A press that is released anywhere else does nothing. */
  lemma ReleasedElsewhere(s: StudioView, i: nat, j: nat, contract: string, ready: bool)
    requires Pressable(s) && i < 5 && i != j
    ensures Clicked(s, i, j, contract, ready) == s.(pressed := None)
  {
    LastOverOne(i);
    hide LastOver;
  }

  /** While nothing is entered, a button's letter does what a click on it does. */
  lemma LetterIsClick(s: StudioView, i: nat, contract: string, ready: bool)
    requires Pressable(s) && !Entering(s) && !s.capturing && i < 5
    ensures Lettered(s, Letter(i), contract, ready).(pressed := None) == Clicked(s, i, i, contract, ready)
  {
    hide LastOver, Activate, Cancel;
    LastOverOne(i);
    UnpressActivates(s, BUTTONS[i]);
    if i == 0 {
    } else if i == 1 {
    } else if i == 2 {
    } else if i == 3 {
    }
  }

  lemma UnpressActivates(s: StudioView, b: Button)
    ensures Activate(s, b).(pressed := None) == Activate(s.(pressed := None), b)
  {
  }

  /** While nothing is entered, 'x' cancels the task if it is waiting or running, and any other character that is
      no button's letter is not taken. */
  lemma OtherLetters(s: StudioView, c: char, contract: string, ready: bool)
    requires Pressable(s) && !Entering(s) && !s.capturing && forall i :: 0 <= i < 5 ==> c != Letter(i)
    ensures var after, task := Lettered(s, c, contract, ready), s.bridge.task;
            after == if c == 'x' && (task.status == Running || task.status == Pending)
                     then s.(bridge := s.bridge.(task := task.(status := Cancelled,
                                                               output := "AI request cancelled locally.")))
                     else s
    ensures Handle(s, KeyChar(c), contract, ready).1 <==> c == 'x'
  {
    assert c != Letter(0) && c != Letter(1) && c != Letter(2) && c != Letter(3) && c != Letter(4);
    CancelValue(s.bridge);
    hide Cancel;
  }

  lemma CancelValue(b: BridgeView)
    ensures Cancel(b).0 ==
            if b.task.status == Running || b.task.status == Pending
            then b.(task := b.task.(status := Cancelled, output := "AI request cancelled locally."))
            else b
  {
    hide Copied;
    CancelMessage(b.task);
  }

  // ---------------------------------------------------------------- whole dialogues

  lemma {:induction false} RunConcat(s: StudioView, a: seq<Step>, b: seq<Step>)
    requires Pressable(s) && forall i :: 0 <= i < |a| ==> StepOk(a[i])
    requires forall i :: 0 <= i < |b| ==> StepOk(b[i])
    ensures forall i :: 0 <= i < |a + b| ==> StepOk((a + b)[i])
    ensures Run(s, a + b) == Run(Run(s, a), b)
    decreases |a|
  {
    hide Happens;
    if a == [] {
      assert a + b == b;
    } else {
      assert (a + b)[0] == a[0] && (a + b)[1..] == a[1..] + b;
      RunConcat(Happens(s, a[0]), a[1..], b);
    }
  }

  lemma RunOne(s: StudioView, step: Step)
    requires Pressable(s) && StepOk(step)
    ensures Run(s, [step]) == Happens(s, step)
  {
    assert [step][1..] == [];
    hide Happens;
  }

  // A letter, some typing, and Enter.
  function Dialogue(c: char, keys: seq<Step>, contract: string, ready: bool): seq<Step> {
    [Ui(KeyChar(c), contract, ready)] + keys + [Ui(KeyDown(EnterKey), contract, ready)]
  }

  lemma DialogueRuns(s: StudioView, c: char, keys: seq<Step>, contract: string, ready: bool)
    requires Pressable(s) && AllTyping(keys)
    ensures forall i :: 0 <= i < |Dialogue(c, keys, contract, ready)| ==> StepOk(Dialogue(c, keys, contract, ready)[i])
    ensures Run(s, Dialogue(c, keys, contract, ready)) ==
            Happens(Run(Lettered(s, c, contract, ready), keys), Ui(KeyDown(EnterKey), contract, ready))
  {
    var first, last := Ui(KeyChar(c), contract, ready), Ui(KeyDown(EnterKey), contract, ready);
    hide Happens, Run;
    RunConcat(s, [first], keys);
    RunConcat(s, [first] + keys, [last]);
    RunOne(s, first);
    RunOne(Run(Happens(s, first), keys), last);
  }

  /** From 'k' through any typing to Enter: the session ends waiting for the provider exactly when eight or more
      characters were left and the line is ready, and then their frame is all that was sent; else the key is
      invalid and nothing was sent. The secret is gone either way, and nothing else has changed. */
  lemma KeyDialogue(s: StudioView, keys: seq<Step>, contract: string, ready: bool)
    requires StudioInv(s) && Pressable(s) && !Entering(s) && !s.capturing && AllTyping(keys)
    ensures forall i :: 0 <= i < |Dialogue('k', keys, contract, ready)| ==>
              StepOk(Dialogue('k', keys, contract, ready)[i])
    ensures var key := Edited("", keys, 33, 191);
            var taken := |key| >= 8 && ready;
            Run(s, Dialogue('k', keys, contract, ready)) ==
            s.(session := SessionView("", ApiKey, if taken then WaitingProvider else InvalidKey),
               bridge := if taken then s.bridge.(sent := s.bridge.sent + KeyFrame(key)) else s.bridge)
  {
    var begun := Lettered(s, 'k', contract, ready);
    assert begun == s.(session := SessionView("", ApiKey, EnteringApiKey)) && StudioInv(begun);
    Unit(s.bridge.sent);
    hide Run, Edited, KeyFrame, StudioInv;
    DialogueRuns(s, 'k', keys, contract, ready);
    SecretTyping(begun, keys);
  }

  /** From 'g' through any typing to Enter on a ready line, with no task running: a prompt with some text is sent as
      the request of a new running task; an empty one is refused, and stays open. */
  lemma PromptDialogue(s: StudioView, keys: seq<Step>, contract: string)
    requires StudioInv(s) && Pressable(s) && !Entering(s) && !s.capturing && AllTyping(keys)
    requires s.bridge.task.status != Running
    ensures forall i :: 0 <= i < |Dialogue('g', keys, contract, true)| ==>
              StepOk(Dialogue('g', keys, contract, true)[i])
    ensures var prompt, u := Edited("", keys, 32, 159), Run(s, Dialogue('g', keys, contract, true));
            && u.prompt == prompt && u.session == s.session
            && (prompt == "" ==> u == s.(prompt := "", capturing := true))
            && (prompt != "" ==>
                  var t := Composed(s.bridge.next, HnLang, Some(prompt), contract);
                  && !u.capturing && u.bridge.task == t.(status := Running)
                  && t.id == s.bridge.next && t.input == prompt && t.profile == Some(contract)
                  && u.bridge.sent == s.bridge.sent + RequestFrame(t))
  {
    var begun := Lettered(s, 'g', contract, true);
    assert begun == s.(prompt := "", capturing := true) && StudioInv(begun);
    hide Run, Edited, RequestFrame, Composed, StudioInv, Submit, Happens, Handle;
    DialogueRuns(s, 'g', keys, contract, true);
    PromptTyping(begun, keys);
    var typed := Run(begun, keys);
    TypedKeeps(begun, keys);
    EnterHandles(typed, contract);
    if typed.prompt != "" {
      EnterSubmitsPrompt(typed, contract, Composed(s.bridge.next, HnLang, Some(typed.prompt), contract));
    }
  }

  lemma TypedKeeps(s: StudioView, keys: seq<Step>)
    requires StudioInv(s) && Pressable(s) && AllTyping(keys)
    ensures StudioInv(Run(s, keys))
  {
    RunKeeps(s, keys);
  }

  lemma EnterHandles(s: StudioView, contract: string)
    requires StudioInv(s) && Pressable(s) && s.capturing
    ensures Happens(s, Ui(KeyDown(EnterKey), contract, true)) == Handle(s, KeyDown(EnterKey), contract, true).0
    ensures s.prompt == "" ==> Handle(s, KeyDown(EnterKey), contract, true).0 == s
    ensures Handle(s, KeyDown(EnterKey), contract, true).0.prompt == s.prompt
  {
    hide Submit;
  }
}
