/** The spinlocked checkpoint layer as a state machine over machine-level steps of any number of
    processors on sequentially consistent memory. Increments are split into a read and a write, the
    release is a plain store, and a snapshot is copied word by word. */
module SyncCheckpoint {
  import opened Word

  // ---------------------------------------------------------------- the code of the operations

  // The words of the shared snapshot, and the ready flag. A word never written holds 0.
  datatype Field =
    | Sequence | StateFlags | CpuFences | RamFences | GpuFences
    | FreePages | HeapBytes | Width | Height | Depth | Ready

  type Words = map<Field, u32>

  function Get(words: Words, f: Field): u32 {
    if f in words then words[f] else 0
  }

  datatype Instruction =
    | Barrier
    | Read(f: Field)
    | WriteIncremented(f: Field)
    | Put(f: Field, value: u32)
    | Copy(f: Field)

  // What the page manager, the heap and the framebuffer report while the lock is held.
  datatype Readings = Readings(flags: u32, freePages: u32, heapBytes: u32, width: u32, height: u32, depth: u32)

  // The public operations. `gpu` says whether the framebuffer is available when the operation asks.
  datatype Operation =
    | Init(gpu: bool, readings: Readings)
    | CpuRamFence
    | GpuFence(gpu: bool)
    | FullFence(gpu: bool)
    | Capture(readings: Readings)
    | Checkpoint(gpu: bool, readings: Readings)
    | CheckpointUnread(gpu: bool)
    | IsReady

  function Increment(f: Field): seq<Instruction> {
    [Read(f), WriteIncremented(f)]
  }

  function CpuRamCode(): seq<Instruction> {
    [Barrier, Barrier] + Increment(CpuFences) + Increment(RamFences)
  }

  function GpuCode(gpu: bool): seq<Instruction> {
    if gpu then [Barrier] + Increment(GpuFences) else []
  }

  function FullCode(gpu: bool): seq<Instruction> {
    CpuRamCode() + GpuCode(gpu) + Increment(Sequence)
  }

  function ObserveCode(r: Readings): seq<Instruction> {
    [Put(StateFlags, r.flags), Put(FreePages, r.freePages), Put(HeapBytes, r.heapBytes),
     Put(Width, r.width), Put(Height, r.height), Put(Depth, r.depth)]
  }

  function CopyCode(): seq<Instruction> {
    [Copy(Sequence), Copy(StateFlags), Copy(CpuFences), Copy(RamFences), Copy(GpuFences),
     Copy(FreePages), Copy(HeapBytes), Copy(Width), Copy(Height), Copy(Depth)]
  }

  function ResetCode(r: Readings): seq<Instruction> {
    [Put(Sequence, 0), Put(StateFlags, r.flags), Put(CpuFences, 0), Put(RamFences, 0), Put(GpuFences, 0),
     Put(FreePages, 0), Put(HeapBytes, 0), Put(Width, 0), Put(Height, 0), Put(Depth, 0), Put(Ready, 1)]
  }

  // The instructions an operation runs between acquiring and releasing the lock.
  function Code(op: Operation): seq<Instruction> {
    match op
    case Init(gpu, r) => ResetCode(r) + FullCode(gpu) + ObserveCode(r) + CopyCode()
    case CpuRamFence => CpuRamCode()
    case GpuFence(gpu) => GpuCode(gpu)
    case FullFence(gpu) => FullCode(gpu)
    case Capture(r) => ObserveCode(r) + CopyCode()
    case Checkpoint(gpu, r) => FullCode(gpu) + ObserveCode(r) + CopyCode()
    case CheckpointUnread(gpu) => FullCode(gpu)
    case IsReady => [Copy(Ready)]
  }

  // Shared memory together with one processor's register and its private copy.
  datatype Local = Local(words: Words, register: u32, copy: Words)

  function Execute(l: Local, i: Instruction): Local {
    match i
    case Barrier => l
    case Read(f) => l.(register := Get(l.words, f))
    case WriteIncremented(f) => l.(words := l.words[f := Wrap(l.register + 1)])
    case Put(f, value) => l.(words := l.words[f := value])
    case Copy(f) => l.(copy := l.copy[f := Get(l.words, f)])
  }

  function ExecuteTo(l: Local, code: seq<Instruction>, k: nat): Local
    requires k <= |code|
  {
    if k == 0 then l else Execute(ExecuteTo(l, code, k - 1), code[k - 1])
  }

  // ---------------------------------------------------------------- the machine

  // The lock's code: save flags, disable interrupts, exchange, test, pause, compare, then the operation,
  // the releasing store, and the restored flags.
  datatype Point =
    | Idle | SaveFlags | DisableInterrupts | Exchange | Test(eax: u32) | Pause | Compare
    | Inside(k: nat) | RestoreFlags

  // `entry` remembers the interrupt flag at the call; the machine itself only uses `saved`.
  datatype Cpu = Cpu(
    point: Point, op: Operation, interrupts: bool, saved: bool, entry: bool, register: u32, copy: Words)

  // A finished operation and the copy it returned.
  datatype Finished = Finished(op: Operation, copy: Words)

  // `log` records the operations in the order of their releasing stores.
  datatype State = State(cpus: seq<Cpu>, lock: u32, words: Words, log: seq<Finished>)

  datatype Event = Call(cpu: nat, op: Operation) | Step(cpu: nat) | SetInterrupts(cpu: nat, on: bool)

  function StepCpu(s: State, i: nat): State
    requires i < |s.cpus|
  {
    var c := s.cpus[i];
    match c.point
    case Idle => s
    case SaveFlags => s.(cpus := s.cpus[i := c.(saved := c.interrupts, point := DisableInterrupts)])
    case DisableInterrupts => s.(cpus := s.cpus[i := c.(interrupts := false, point := Exchange)])
    case Exchange => s.(cpus := s.cpus[i := c.(point := Test(s.lock))], lock := 1)
    case Test(eax) => s.(cpus := s.cpus[i := c.(point := if eax == 0 then Inside(0) else Pause)])
    case Pause => s.(cpus := s.cpus[i := c.(point := Compare)])
    case Compare => s.(cpus := s.cpus[i := c.(point := if s.lock != 0 then Pause else Exchange)])
    case Inside(k) =>
      if k < |Code(c.op)| then
        var l := Execute(Local(s.words, c.register, c.copy), Code(c.op)[k]);
        s.(cpus := s.cpus[i := c.(point := Inside(k + 1), register := l.register, copy := l.copy)],
           words := l.words)
      else
        s.(cpus := s.cpus[i := c.(point := RestoreFlags)], lock := 0,
           log := s.log + [Finished(c.op, c.copy)])
    case RestoreFlags => s.(cpus := s.cpus[i := c.(interrupts := c.saved, point := Idle)])
  }

  function Next(s: State, e: Event): State {
    if e.cpu >= |s.cpus| then s
    else
      var c := s.cpus[e.cpu];
      match e
      case Step(i) => StepCpu(s, i)
      case Call(i, op) =>
        if c.point.Idle?
        then s.(cpus := s.cpus[i := Cpu(SaveFlags, op, c.interrupts, c.saved, c.interrupts, 0, map[])])
        else s
      case SetInterrupts(i, on) =>
        if c.point.Idle? then s.(cpus := s.cpus[i := c.(interrupts := on)]) else s
  }

  ghost function Run(s: State, es: seq<Event>): State
    decreases |es|
  {
    if es == [] then s else Run(Next(s, es[0]), es[1..])
  }

  // Any number of idle processors, the lock free, static memory zero.
  ghost predicate Initial(s: State) {
    && s.lock == 0 && s.words == map[] && s.log == []
    && forall i :: 0 <= i < |s.cpus| ==> s.cpus[i].point.Idle?
  }

  // ---------------------------------------------------------------- the sequential specification

  // An operation run alone on the shared words.
  function Alone(words: Words, op: Operation): Local {
    ExecuteTo(Local(words, 0, map[]), Code(op), |Code(op)|)
  }

  // The shared words after the logged operations have run one after another.
  function Replay(log: seq<Finished>): Words {
    if log == [] then map[] else Alone(Replay(log[..|log| - 1]), log[|log| - 1].op).words
  }

  // Each logged operation returned what it returns when run alone at its place in the log.
  ghost predicate Sequential(log: seq<Finished>) {
    forall j {:trigger log[j]} :: 0 <= j < |log| ==> log[j].copy == Alone(Replay(log[..j]), log[j].op).copy
  }

  // ---------------------------------------------------------------- the invariant

  // Between the winning exchange and the releasing store.
  predicate Holds(c: Cpu) {
    c.point == Test(0) || c.point.Inside?
  }

  // `h` is the processor holding the lock, or -1.
  ghost predicate HeldBy(s: State, h: int) {
    && -1 <= h < |s.cpus|
    && s.lock == (if h < 0 then 0 else 1)
    && forall i :: 0 <= i < |s.cpus| ==> (Holds(s.cpus[i]) <==> i == h)
  }

  // Per processor: where interrupts are off, which flags are saved, and what has been executed.
  ghost predicate CpuInv(c: Cpu, words: Words, base: Words) {
    && (!c.point.Idle? && !c.point.SaveFlags? && !c.point.DisableInterrupts? ==> !c.interrupts)
    && (!c.point.Idle? && !c.point.SaveFlags? ==> c.saved == c.entry)
    && (c.point.SaveFlags? || c.point.DisableInterrupts? ==> c.interrupts == c.entry)
    && (!c.point.Idle? && !c.point.Inside? && !c.point.RestoreFlags? ==> c.register == 0 && c.copy == map[])
    && (c.point.Inside? ==>
          c.point.k <= |Code(c.op)| &&
          Local(words, c.register, c.copy) == ExecuteTo(Local(base, 0, map[]), Code(c.op), c.point.k))
  }

  ghost predicate InvFor(s: State, h: int) {
    && HeldBy(s, h)
    && (forall i :: 0 <= i < |s.cpus| ==> CpuInv(s.cpus[i], s.words, Replay(s.log)))
    && (h < 0 || !s.cpus[h].point.Inside? ==> s.words == Replay(s.log))
    && Sequential(s.log)
  }

  ghost predicate Inv(s: State) {
    exists h :: InvFor(s, h)
  }

  // Replacing one processor by another keeps the others' invariants while the words do not change,
  // or change under a processor that alone is inside.
  lemma QuietKeeps(s: State, h: int, i: nat, c: Cpu)
    requires InvFor(s, h) && i < |s.cpus| && Holds(c) == Holds(s.cpus[i]) && c.point.Inside? == s.cpus[i].point.Inside?
    requires CpuInv(c, s.words, Replay(s.log))
    ensures InvFor(s.(cpus := s.cpus[i := c]), h)
  {
    hide CpuInv, Sequential, Replay;
  }

  lemma ExchangeKeeps(s: State, h: int, i: nat)
    requires InvFor(s, h) && i < |s.cpus| && s.cpus[i].point.Exchange?
    ensures InvFor(StepCpu(s, i), if s.lock == 0 then i else h)
  {
    hide Sequential, Replay, Code, Execute, ExecuteTo;
    assert CpuInv(s.cpus[i], s.words, Replay(s.log));
  }

  lemma EnterKeeps(s: State, h: int, i: nat)
    requires InvFor(s, h) && i < |s.cpus| && s.cpus[i].point == Test(0)
    ensures InvFor(StepCpu(s, i), h)
  {
    hide Sequential, Replay, Code, Execute;
    assert CpuInv(s.cpus[i], s.words, Replay(s.log));
  }

  lemma InsideKeeps(s: State, h: int, i: nat)
    requires InvFor(s, h) && i < |s.cpus| && s.cpus[i].point.Inside? && s.cpus[i].point.k < |Code(s.cpus[i].op)|
    ensures InvFor(StepCpu(s, i), h)
  {
    hide Sequential, Replay, Code, Execute;
    assert CpuInv(s.cpus[i], s.words, Replay(s.log));
    forall j | 0 <= j < |s.cpus| && j != i
      ensures CpuInv(s.cpus[j], StepCpu(s, i).words, Replay(s.log))
    {
      assert CpuInv(s.cpus[j], s.words, Replay(s.log));
    }
  }

  lemma LogGrows(log: seq<Finished>, done: Finished)
    requires Sequential(log) && done.copy == Alone(Replay(log), done.op).copy
    ensures Sequential(log + [done]) && Replay(log + [done]) == Alone(Replay(log), done.op).words
  {
    var log' := log + [done];
    assert log'[..|log|] == log;
    hide Alone, Replay;
    forall j | 0 <= j < |log'|
      ensures log'[j].copy == Alone(Replay(log'[..j]), log'[j].op).copy
    {
      assert log'[..j] == log[..j];
    }
  }

  lemma OperationDone(c: Cpu, words: Words, base: Words)
    requires CpuInv(c, words, base) && c.point == Inside(|Code(c.op)|)
    ensures Alone(base, c.op) == Local(words, c.register, c.copy)
  {
    hide Code, ExecuteTo;
  }

  lemma ReleaseKeeps(s: State, h: int, i: nat)
    requires InvFor(s, h) && i < |s.cpus| && s.cpus[i].point == Inside(|Code(s.cpus[i].op)|)
    ensures InvFor(StepCpu(s, i), -1)
  {
    hide Code, Execute, Replay, ExecuteTo, Sequential, Alone;
    var c, t := s.cpus[i], StepCpu(s, i);
    OperationDone(c, s.words, Replay(s.log));
    LogGrows(s.log, Finished(c.op, c.copy));
    assert t.words == Replay(t.log) && Sequential(t.log);
    forall j | 0 <= j < |s.cpus| && j != i
      ensures CpuInv(s.cpus[j], t.words, Replay(t.log))
    {
      assert CpuInv(s.cpus[j], s.words, Replay(s.log));
    }
  }

  lemma StepKeeps(s: State, i: nat)
    requires Inv(s) && i < |s.cpus|
    ensures Inv(StepCpu(s, i))
  {
    var h :| InvFor(s, h);
    var c := s.cpus[i];
    if c.point.Exchange? {
      ExchangeKeeps(s, h, i);
    } else if c.point == Test(0) {
      EnterKeeps(s, h, i);
    } else if c.point.Inside? {
      assert CpuInv(c, s.words, Replay(s.log));
      hide InvFor, StepCpu;
      if c.point.k < |Code(c.op)| {
        InsideKeeps(s, h, i);
      } else {
        ReleaseKeeps(s, h, i);
      }
    } else if !c.point.Idle? {
      var d := StepCpu(s, i).cpus[i];
      assert CpuInv(c, s.words, Replay(s.log));
      assert CpuInv(d, s.words, Replay(s.log)) by { hide Code, ExecuteTo, Replay; }
      hide InvFor;
      QuietKeeps(s, h, i, d);
    }
  }

  lemma NextKeeps(s: State, e: Event)
    requires Inv(s)
    ensures Inv(Next(s, e))
  {
    if e.cpu < |s.cpus| {
      if e.Step? {
        hide Inv, StepCpu;
        StepKeeps(s, e.cpu);
      } else if s.cpus[e.cpu].point.Idle? {
        var h :| InvFor(s, h);
        hide InvFor;
        QuietKeeps(s, h, e.cpu, Next(s, e).cpus[e.cpu]);
      }
    }
  }

  lemma {:induction false} RunKeeps(s: State, es: seq<Event>)
    requires Inv(s)
    ensures Inv(Run(s, es))
    decreases |es|
  {
    if es != [] {
      hide Inv, Next;
      NextKeeps(s, es[0]);
      RunKeeps(Next(s, es[0]), es[1..]);
    }
  }

  lemma InitialInv(s: State)
    requires Initial(s)
    ensures Inv(s)
  {
    assert InvFor(s, -1);
  }

  // ---------------------------------------------------------------- what every run guarantees

  /** Mutual exclusion: no two processors are between the winning exchange and the releasing store, the
      lock word is 1 exactly while one is, and that one has its interrupts off and its entry flag saved. */
  lemma MutualExclusion(s: State, es: seq<Event>)
    requires Initial(s)
    ensures var t := Run(s, es);
            && (forall i, j :: 0 <= i < j < |t.cpus| ==> !(Holds(t.cpus[i]) && Holds(t.cpus[j])))
            && (t.lock == 1 <==> exists i :: 0 <= i < |t.cpus| && Holds(t.cpus[i]))
            && t.lock <= 1
            && (forall i :: 0 <= i < |t.cpus| && Holds(t.cpus[i]) ==>
                  !t.cpus[i].interrupts && t.cpus[i].saved == t.cpus[i].entry)
  {
    InitialInv(s);
    RunKeeps(s, es);
    var t := Run(s, es);
    var h :| InvFor(t, h);
    hide Run, Replay, Sequential, Code, ExecuteTo;
    forall i | 0 <= i < |t.cpus| && Holds(t.cpus[i])
      ensures !t.cpus[i].interrupts && t.cpus[i].saved == t.cpus[i].entry
    {
      assert CpuInv(t.cpus[i], t.words, Replay(t.log));
    }
    if h >= 0 { assert Holds(t.cpus[h]); }
  }

  /** The step that ends an operation gives the processor the interrupt flag it had at the call. */
  lemma FlagsRestored(s: State, es: seq<Event>, i: nat)
    requires Initial(s)
    requires i < |Run(s, es).cpus| && Run(s, es).cpus[i].point.RestoreFlags?
    ensures var t := Run(s, es);
            Next(t, Step(i)).cpus[i].interrupts == t.cpus[i].entry && Next(t, Step(i)).cpus[i].point.Idle?
  {
    InitialInv(s);
    RunKeeps(s, es);
    var t := Run(s, es);
    hide Run, Replay;
    var h :| InvFor(t, h);
    assert CpuInv(t.cpus[i], t.words, Replay(t.log));
  }

  /** Every run is equivalent to the logged operations run one after another: while nobody is inside, the
      shared words are theirs, and each returned copy is the one its operation returns in that order. */
  lemma Linearizable(s: State, es: seq<Event>)
    requires Initial(s)
    ensures var t := Run(s, es);
            && Sequential(t.log)
            && (t.lock == 0 ==> t.words == Replay(t.log))
  {
    InitialInv(s);
    RunKeeps(s, es);
    hide Run, Replay, Sequential, CpuInv;
  }

  // ---------------------------------------------------------------- counters without wrap-around

  // How often each counter was incremented since the last Init.
  datatype Counts = Counts(sequence: nat, cpu: nat, ram: nat, gpu: nat) {
    function Plus(c: Counts): Counts {
      Counts(sequence + c.sequence, cpu + c.cpu, ram + c.ram, gpu + c.gpu)
    }

    ghost predicate Below(c: Counts) {
      sequence <= c.sequence && cpu <= c.cpu && ram <= c.ram && gpu <= c.gpu
    }
  }

  const NONE := Counts(0, 0, 0, 0)

  function Adds(op: Operation): Counts {
    match op
    case Init(gpu, _) => Counts(1, 1, 1, if gpu then 1 else 0)
    case CpuRamFence => Counts(0, 1, 1, 0)
    case GpuFence(gpu) => Counts(0, 0, 0, if gpu then 1 else 0)
    case FullFence(gpu) => Counts(1, 1, 1, if gpu then 1 else 0)
    case Capture(_) => NONE
    case Checkpoint(gpu, _) => Counts(1, 1, 1, if gpu then 1 else 0)
    case CheckpointUnread(gpu) => Counts(1, 1, 1, if gpu then 1 else 0)
    case IsReady => NONE
  }

  function Tally(log: seq<Finished>): Counts {
    if log == [] then NONE
    else
      var last := log[|log| - 1].op;
      (if last.Init? then NONE else Tally(log[..|log| - 1])).Plus(Adds(last))
  }

  // The four counters hold `c` modulo 2^32.
  ghost predicate Shows(words: Words, c: Counts) {
    && Get(words, Sequence) == Wrap(c.sequence)
    && Get(words, CpuFences) == Wrap(c.cpu)
    && Get(words, RamFences) == Wrap(c.ram)
    && Get(words, GpuFences) == Wrap(c.gpu)
  }

  // Running `code` adds `d` to the counters, whatever they held.
  ghost predicate CodeAdds(code: seq<Instruction>, d: Counts) {
    forall l: Local, c: Counts :: Shows(l.words, c) ==> Shows(ExecuteTo(l, code, |code|).words, c.Plus(d))
  }

  lemma {:induction false} ExecuteConcat(l: Local, a: seq<Instruction>, b: seq<Instruction>, k: nat)
    requires k <= |b|
    ensures ExecuteTo(l, a + b, |a| + k) == ExecuteTo(ExecuteTo(l, a, |a|), b, k)
  {
    if k == 0 {
      ExecutePrefix(l, a, b, |a|);
    } else {
      ExecuteConcat(l, a, b, k - 1);
      assert (a + b)[|a| + k - 1] == b[k - 1];
    }
  }

  lemma {:induction false} ExecutePrefix(l: Local, a: seq<Instruction>, b: seq<Instruction>, k: nat)
    requires k <= |a|
    ensures ExecuteTo(l, a + b, k) == ExecuteTo(l, a, k)
  {
    if k > 0 {
      ExecutePrefix(l, a, b, k - 1);
    }
  }

  lemma CodeAddsConcat(a: seq<Instruction>, b: seq<Instruction>, d: Counts, e: Counts)
    requires CodeAdds(a, d) && CodeAdds(b, e)
    ensures CodeAdds(a + b, d.Plus(e))
  {
    hide Shows, ExecuteTo;
    forall l: Local, c: Counts | Shows(l.words, c)
      ensures Shows(ExecuteTo(l, a + b, |a + b|).words, c.Plus(d.Plus(e)))
    {
      ExecuteConcat(l, a, b, |b|);
      var m := ExecuteTo(l, a, |a|);
      assert Shows(m.words, c.Plus(d));
      assert Shows(ExecuteTo(m, b, |b|).words, c.Plus(d).Plus(e));
      assert c.Plus(d).Plus(e) == c.Plus(d.Plus(e));
    }
  }

  function One(f: Field): Counts {
    match f
    case Sequence => Counts(1, 0, 0, 0)
    case CpuFences => Counts(0, 1, 0, 0)
    case RamFences => Counts(0, 0, 1, 0)
    case GpuFences => Counts(0, 0, 0, 1)
    case _ => NONE
  }

  lemma IncrementWrites(l: Local, f: Field)
    ensures ExecuteTo(l, Increment(f), |Increment(f)|).words == l.words[f := Wrap(Get(l.words, f) + 1)]
  {
    var code := Increment(f);
    var l1 := Execute(l, code[0]);
    assert ExecuteTo(l, code, 1) == l1;
    assert ExecuteTo(l, code, 2) == Execute(l1, code[1]);
  }

  lemma IncrementShows(words: Words, c: Counts, f: Field)
    requires Shows(words, c)
    ensures Shows(words[f := Wrap(Get(words, f) + 1)], c.Plus(One(f)))
  {
    WrapAdd(c.sequence, 1);
    WrapAdd(c.cpu, 1);
    WrapAdd(c.ram, 1);
    WrapAdd(c.gpu, 1);
    hide Wrap;
  }

  lemma IncrementAdds(f: Field)
    ensures CodeAdds(Increment(f), One(f))
  {
    hide ExecuteTo, Shows, Increment, One;
    forall l: Local, c: Counts | Shows(l.words, c)
      ensures Shows(ExecuteTo(l, Increment(f), |Increment(f)|).words, c.Plus(One(f)))
    {
      IncrementWrites(l, f);
      IncrementShows(l.words, c, f);
    }
  }

  // Instructions that leave the counters alone.
  predicate Silent(i: Instruction) {
    match i
    case Barrier => true
    case Read(_) => true
    case Copy(_) => true
    case Put(f, _) => One(f) == NONE
    case WriteIncremented(_) => false
  }

  lemma {:induction false} SilentAdds(code: seq<Instruction>)
    requires forall i :: 0 <= i < |code| ==> Silent(code[i])
    ensures CodeAdds(code, NONE)
  {
    forall l: Local, c: Counts | Shows(l.words, c)
      ensures Shows(ExecuteTo(l, code, |code|).words, c.Plus(NONE))
    {
      assert c.Plus(NONE) == c;
      SilentShows(l, code, |code|, c);
    }
  }

  lemma {:induction false} SilentShows(l: Local, code: seq<Instruction>, k: nat, c: Counts)
    requires k <= |code| && (forall i :: 0 <= i < |code| ==> Silent(code[i])) && Shows(l.words, c)
    ensures Shows(ExecuteTo(l, code, k).words, c)
  {
    if k > 0 {
      SilentShows(l, code, k - 1, c);
      hide Wrap;
    }
  }

  lemma FullAdds(gpu: bool)
    ensures CodeAdds(CpuRamCode(), Counts(0, 1, 1, 0))
    ensures CodeAdds(GpuCode(gpu), Counts(0, 0, 0, if gpu then 1 else 0))
    ensures CodeAdds(FullCode(gpu), Counts(1, 1, 1, if gpu then 1 else 0))
  {
    hide CodeAdds, Increment;
    SilentAdds([Barrier, Barrier]);
    SilentAdds([Barrier]);
    SilentAdds([]);
    IncrementAdds(CpuFences);
    IncrementAdds(RamFences);
    IncrementAdds(GpuFences);
    IncrementAdds(Sequence);
    CodeAddsConcat([Barrier, Barrier], Increment(CpuFences), NONE, One(CpuFences));
    CodeAddsConcat([Barrier, Barrier] + Increment(CpuFences), Increment(RamFences), One(CpuFences), One(RamFences));
    CodeAddsConcat([Barrier], Increment(GpuFences), NONE, One(GpuFences));
    CodeAddsConcat(CpuRamCode(), GpuCode(gpu), Counts(0, 1, 1, 0), Counts(0, 0, 0, if gpu then 1 else 0));
    CodeAddsConcat(CpuRamCode() + GpuCode(gpu), Increment(Sequence),
                   Counts(0, 1, 1, if gpu then 1 else 0), One(Sequence));
  }

  predicate PutsApart(code: seq<Instruction>) {
    && (forall i :: 0 <= i < |code| ==> code[i].Put?)
    && (forall i, j :: 0 <= i < j < |code| ==> code[i].f != code[j].f)
  }

  lemma {:induction false} PutsStore(l: Local, code: seq<Instruction>, k: nat)
    requires k <= |code| && PutsApart(code)
    ensures forall i :: 0 <= i < k ==> Get(ExecuteTo(l, code, k).words, code[i].f) == code[i].value
  {
    if k > 0 {
      PutsStore(l, code, k - 1);
    }
  }

  lemma {:induction false} CopiesTake(l: Local, code: seq<Instruction>, k: nat)
    requires k <= |code| && forall i :: 0 <= i < |code| ==> code[i].Copy?
    ensures ExecuteTo(l, code, k).words == l.words
    ensures forall i :: 0 <= i < k ==> Get(ExecuteTo(l, code, k).copy, code[i].f) == Get(l.words, code[i].f)
  {
    if k > 0 {
      CopiesTake(l, code, k - 1);
    }
  }

  // A full copy holds every word but the ready flag.
  ghost predicate Mirrors(copy: Words, words: Words) {
    forall f: Field :: f != Ready ==> Get(copy, f) == Get(words, f)
  }

  lemma CopyMirrors(l: Local)
    ensures var m := ExecuteTo(l, CopyCode(), |CopyCode()|); m.words == l.words && Mirrors(m.copy, l.words)
  {
    var code := CopyCode();
    CopiesTake(l, code, |code|);
    hide ExecuteTo;
    var m := ExecuteTo(l, code, |code|);
    forall f: Field | f != Ready ensures Get(m.copy, f) == Get(l.words, f) {
      var i :| 0 <= i < |code| && code[i] == Copy(f) by {
        match f {
          case Sequence => assert code[0] == Copy(f);
          case StateFlags => assert code[1] == Copy(f);
          case CpuFences => assert code[2] == Copy(f);
          case RamFences => assert code[3] == Copy(f);
          case GpuFences => assert code[4] == Copy(f);
          case FreePages => assert code[5] == Copy(f);
          case HeapBytes => assert code[6] == Copy(f);
          case Width => assert code[7] == Copy(f);
          case Height => assert code[8] == Copy(f);
          case Depth => assert code[9] == Copy(f);
          case Ready =>
        }
      }
    }
  }

  // The operations that hand a snapshot to the caller.
  predicate Snapshots(op: Operation) {
    op.Init? || op.Capture? || op.Checkpoint?
  }

  ghost predicate Reports(words: Words, r: Readings) {
    && Get(words, StateFlags) == r.flags && Get(words, FreePages) == r.freePages
    && Get(words, HeapBytes) == r.heapBytes && Get(words, Width) == r.width
    && Get(words, Height) == r.height && Get(words, Depth) == r.depth
  }

  lemma MirrorShows(copy: Words, words: Words, c: Counts, r: Readings)
    requires Mirrors(copy, words) && Shows(words, c) && Reports(words, r)
    ensures Shows(copy, c) && Reports(copy, r)
  {
    hide Wrap, Get;
  }

  lemma ObserveTakes(l: Local, r: Readings, c: Counts)
    requires Shows(l.words, c)
    ensures var m := ExecuteTo(l, ObserveCode(r), |ObserveCode(r)|); Shows(m.words, c) && Reports(m.words, r)
  {
    var code := ObserveCode(r);
    SilentShows(l, code, |code|, c);
    PutsStore(l, code, |code|);
    assert code[0].f == StateFlags && code[1].f == FreePages && code[2].f == HeapBytes;
    assert code[3].f == Width && code[4].f == Height && code[5].f == Depth;
    hide ExecuteTo, Shows;
  }

  lemma CaptureTakes(l: Local, before: seq<Instruction>, r: Readings, c: Counts)
    requires Shows(ExecuteTo(l, before, |before|).words, c)
    ensures var code := before + ObserveCode(r) + CopyCode();
            var m := ExecuteTo(l, code, |code|);
            Shows(m.words, c) && Shows(m.copy, c) && Reports(m.copy, r)
  {
    hide ExecuteTo, ObserveCode, CopyCode, Mirrors, Shows, Reports;
    var mid := ExecuteTo(l, before, |before|);
    var seen := ExecuteTo(mid, ObserveCode(r), |ObserveCode(r)|);
    ExecuteConcat(l, before, ObserveCode(r), |ObserveCode(r)|);
    ExecuteConcat(l, before + ObserveCode(r), CopyCode(), |CopyCode()|);
    ObserveTakes(mid, r, c);
    CopyMirrors(seen);
    MirrorShows(ExecuteTo(seen, CopyCode(), |CopyCode()|).copy, seen.words, c, r);
  }

  lemma ResetShows(l: Local, r: Readings)
    ensures Shows(ExecuteTo(l, ResetCode(r), |ResetCode(r)|).words, NONE)
  {
    var code := ResetCode(r);
    PutsStore(l, code, |code|);
    assert code[0].f == Sequence && code[2].f == CpuFences && code[3].f == RamFences && code[4].f == GpuFences;
    WrapSmall(0);
    hide ExecuteTo, Wrap;
  }

  /** Alone, an operation adds its own increments, after resetting the counters if it is Init; and its
      snapshot shows the counters it leaves and the readings it took. */
  lemma AloneAdds(words: Words, op: Operation, c: Counts)
    requires Shows(words, c)
    ensures var after := (if op.Init? then NONE else c).Plus(Adds(op));
            && Shows(Alone(words, op).words, after)
            && (Snapshots(op) ==> Shows(Alone(words, op).copy, after) && Reports(Alone(words, op).copy, op.readings))
  {
    var l := Local(words, 0, map[]);
    match op
    case Init(gpu, r) =>
      ResetShows(l, r);
      FullAdds(gpu);
      ExecuteConcat(l, ResetCode(r), FullCode(gpu), |FullCode(gpu)|);
      var mid := ExecuteTo(l, ResetCode(r), |ResetCode(r)|);
      assert Shows(ExecuteTo(mid, FullCode(gpu), |FullCode(gpu)|).words, NONE.Plus(Adds(op)));
      hide Shows, ExecuteTo, FullCode, ResetCode, ObserveCode, CopyCode, CodeAdds;
      CaptureTakes(l, ResetCode(r) + FullCode(gpu), r, NONE.Plus(Adds(op)));
    case CpuRamFence => FullAdds(false); hide Shows, ExecuteTo, CpuRamCode;
    case GpuFence(gpu) => FullAdds(gpu); hide Shows, ExecuteTo, GpuCode;
    case FullFence(gpu) => FullAdds(gpu); hide Shows, ExecuteTo, FullCode;
    case CheckpointUnread(gpu) => FullAdds(gpu); hide Shows, ExecuteTo, FullCode;
    case Capture(r) =>
      assert ExecuteTo(l, [], 0) == l;
      assert c.Plus(NONE) == c && [] + ObserveCode(r) == ObserveCode(r);
      hide Shows, ExecuteTo, ObserveCode, CopyCode;
      CaptureTakes(l, [], r, c);
    case Checkpoint(gpu, r) =>
      FullAdds(gpu);
      hide Shows, ExecuteTo, FullCode, ObserveCode, CopyCode;
      CaptureTakes(l, FullCode(gpu), r, c.Plus(Adds(op)));
    case IsReady =>
      SilentAdds([Copy(Ready)]);
      hide Shows, ExecuteTo;
  }

  lemma {:induction false} ReplayShows(log: seq<Finished>)
    ensures Shows(Replay(log), Tally(log))
  {
    if log == [] {
      WrapSmall(0);
    } else {
      var rest := log[..|log| - 1];
      ReplayShows(rest);
      hide Shows, Alone;
      AloneAdds(Replay(rest), log[|log| - 1].op, Tally(rest));
    }
  }

  lemma {:induction false} TallyOrdered(log: seq<Finished>)
    ensures Tally(log).cpu == Tally(log).ram && Tally(log).sequence <= Tally(log).cpu
  {
    if log != [] {
      TallyOrdered(log[..|log| - 1]);
    }
  }

  lemma {:induction false} TallyGrows(log: seq<Finished>, k: nat)
    requires k <= |log| && forall j :: k <= j < |log| ==> !log[j].op.Init?
    ensures Tally(log[..k]).Below(Tally(log))
  {
    if k == |log| {
      assert log[..k] == log;
    } else {
      var rest := log[..|log| - 1];
      TallyGrows(rest, k);
      assert rest[..k] == log[..k];
    }
  }

  /** No increment is lost, in any interleaving: while the lock is free the counters hold the number of
      increments of all finished operations since the last Init, modulo 2^32. */
  lemma NoIncrementLost(s: State, es: seq<Event>)
    requires Initial(s) && Run(s, es).lock == 0
    ensures Shows(Run(s, es).words, Tally(Run(s, es).log))
  {
    Linearizable(s, es);
    hide Run, Replay;
    ReplayShows(Run(s, es).log);
  }

  // What holds of a log entry that returned a snapshot.
  ghost predicate Consistent(log: seq<Finished>, j: nat)
    requires j < |log| && Snapshots(log[j].op)
  {
    var count := Tally(log[..j + 1]);
    && Shows(log[j].copy, count)
    && Get(log[j].copy, CpuFences) == Get(log[j].copy, RamFences)
    && count.cpu == count.ram && count.sequence <= count.cpu
    && Reports(log[j].copy, log[j].op.readings)
  }

  lemma LogConsistent(log: seq<Finished>, j: nat)
    requires Sequential(log) && j < |log| && Snapshots(log[j].op)
    ensures Consistent(log, j)
  {
    assert log[j].copy == Alone(Replay(log[..j]), log[j].op).copy;
    ReplayShows(log[..j]);
    hide Replay, Alone, Adds, Sequential, Reports;
    AloneAdds(Replay(log[..j]), log[j].op, Tally(log[..j]));
    assert log[..j + 1][..j] == log[..j];
    TallyOrdered(log[..j + 1]);
    ShowsPair(log[j].copy, Tally(log[..j + 1]));
    hide Shows;
  }

  lemma ShowsPair(words: Words, c: Counts)
    ensures Shows(words, c) && c.cpu == c.ram ==> Get(words, CpuFences) == Get(words, RamFences)
  {
  }

  /** Every snapshot returned in any run shows the true counts at its place in the log: as many CPU as RAM
      fences, no more sequence steps than fences; and exactly the readings taken under the same lock. */
  lemma SnapshotConsistent(s: State, es: seq<Event>, j: nat)
    requires Initial(s) && j < |Run(s, es).log| && Snapshots(Run(s, es).log[j].op)
    ensures Consistent(Run(s, es).log, j)
  {
    Linearizable(s, es);
    hide Run, Consistent;
    LogConsistent(Run(s, es).log, j);
  }

  ghost predicate Ordered(first: Words, second: Words) {
    && Get(first, Sequence) <= Get(second, Sequence)
    && Get(first, CpuFences) <= Get(second, CpuFences)
    && Get(first, RamFences) <= Get(second, RamFences)
    && Get(first, GpuFences) <= Get(second, GpuFences)
  }

  lemma ShowsOrdered(first: Words, second: Words, c: Counts, d: Counts)
    requires Shows(first, c) && Shows(second, d) && c.Below(d)
    requires d.sequence <= d.cpu == d.ram < 0x1_0000_0000 && d.gpu < 0x1_0000_0000
    ensures Ordered(first, second) && Get(second, Sequence) <= Get(second, CpuFences)
  {
  }

  lemma LogOrdered(log: seq<Finished>, i: nat, j: nat)
    requires Sequential(log) && i < j < |log| && Snapshots(log[i].op) && Snapshots(log[j].op)
    requires forall k :: i < k <= j ==> !log[k].op.Init?
    requires Tally(log[..j + 1]).cpu < 0x1_0000_0000 && Tally(log[..j + 1]).gpu < 0x1_0000_0000
    ensures Ordered(log[i].copy, log[j].copy) && Get(log[j].copy, Sequence) <= Get(log[j].copy, CpuFences)
  {
    hide Tally, Shows, Ordered, Sequential, Snapshots;
    LogConsistent(log, i);
    LogConsistent(log, j);
    var upto := log[..j + 1];
    var c, d := Tally(log[..i + 1]), Tally(upto);
    assert Shows(log[i].copy, c) && Shows(log[j].copy, d) && d.sequence <= d.cpu == d.ram;
    hide Consistent;
    assert c.Below(d) by {
      assert upto[..i + 1] == log[..i + 1];
      assert forall k :: i + 1 <= k < |upto| ==> upto[k] == log[k];
      TallyGrows(upto, i + 1);
    }
    ShowsOrdered(log[i].copy, log[j].copy, c, d);
  }

  /** Any two snapshots with no Init between them are ordered in every counter, as long as the later
      counts fit 32 bits. */
  lemma SnapshotsOrdered(s: State, es: seq<Event>, log: seq<Finished>, i: nat, j: nat)
    requires Initial(s) && log == Run(s, es).log
    requires i < j < |log| && Snapshots(log[i].op) && Snapshots(log[j].op)
    requires forall k :: i < k <= j ==> !log[k].op.Init?
    requires Tally(log[..j + 1]).cpu < 0x1_0000_0000 && Tally(log[..j + 1]).gpu < 0x1_0000_0000
    ensures Ordered(log[i].copy, log[j].copy) && Get(log[j].copy, Sequence) <= Get(log[j].copy, CpuFences)
  {
    Linearizable(s, es);
    LogOrdered(log, i, j);
  }

  // ---------------------------------------------------------------- the ready flag

  // Instructions that leave the ready flag alone.
  predicate Leaves(i: Instruction) {
    match i
    case WriteIncremented(f) => f != Ready
    case Put(f, _) => f != Ready
    case _ => true
  }

  ghost predicate AllLeave(code: seq<Instruction>) {
    forall i :: 0 <= i < |code| ==> Leaves(code[i])
  }

  lemma AllLeaveConcat(a: seq<Instruction>, b: seq<Instruction>)
    requires AllLeave(a) && AllLeave(b)
    ensures AllLeave(a + b)
  {
  }

  lemma IncrementLeaves(f: Field)
    requires f != Ready
    ensures AllLeave(Increment(f))
  {
  }

  lemma PartsLeave(gpu: bool, r: Readings)
    ensures AllLeave(CpuRamCode()) && AllLeave(GpuCode(gpu)) && AllLeave(FullCode(gpu))
    ensures AllLeave(ObserveCode(r)) && AllLeave(CopyCode()) && AllLeave(ObserveCode(r) + CopyCode())
  {
    assert AllLeave([Barrier, Barrier]) && AllLeave([Barrier]) && AllLeave([]);
    assert AllLeave(ObserveCode(r)) && AllLeave(CopyCode());
    IncrementLeaves(CpuFences);
    IncrementLeaves(RamFences);
    IncrementLeaves(GpuFences);
    IncrementLeaves(Sequence);
    hide AllLeave, Increment, ObserveCode, CopyCode;
    AllLeaveConcat([Barrier, Barrier], Increment(CpuFences));
    AllLeaveConcat([Barrier, Barrier] + Increment(CpuFences), Increment(RamFences));
    AllLeaveConcat([Barrier], Increment(GpuFences));
    AllLeaveConcat(CpuRamCode(), GpuCode(gpu));
    AllLeaveConcat(CpuRamCode() + GpuCode(gpu), Increment(Sequence));
    AllLeaveConcat(ObserveCode(r), CopyCode());
  }

  lemma {:induction false} ReadyLeft(l: Local, code: seq<Instruction>, k: nat)
    requires k <= |code| && AllLeave(code)
    ensures Get(ExecuteTo(l, code, k).words, Ready) == Get(l.words, Ready)
  {
    if k > 0 {
      ReadyLeft(l, code, k - 1);
      hide Wrap;
    }
  }

  lemma ResetReady(l: Local, r: Readings)
    ensures Get(ExecuteTo(l, ResetCode(r), |ResetCode(r)|).words, Ready) == 1
  {
    var reset := ResetCode(r);
    PutsStore(l, reset, |reset|);
    assert reset[10].f == Ready && reset[10].value == 1;
    hide ExecuteTo;
  }

  lemma InitReady(l: Local, op: Operation)
    requires op.Init?
    ensures Get(ExecuteTo(l, Code(op), |Code(op)|).words, Ready) == 1
  {
    var reset, full, seen := ResetCode(op.readings), FullCode(op.gpu), ObserveCode(op.readings) + CopyCode();
    PartsLeave(op.gpu, op.readings);
    assert Code(op) == reset + (full + seen) by {
      Assoc(reset, full, ObserveCode(op.readings));
      Assoc(reset, full + ObserveCode(op.readings), CopyCode());
      Assoc(full, ObserveCode(op.readings), CopyCode());
    }
    hide ResetCode, FullCode, ObserveCode, CopyCode, ExecuteTo, AllLeave, Code;
    AllLeaveConcat(full, seen);
    ResetReady(l, op.readings);
    ExecuteConcat(l, reset, full + seen, |full + seen|);
    ReadyLeft(ExecuteTo(l, reset, |reset|), full + seen, |full + seen|);
  }

  lemma Assoc(a: seq<Instruction>, b: seq<Instruction>, c: seq<Instruction>)
    ensures a + b + c == a + (b + c)
  {
  }

  lemma OthersLeave(op: Operation)
    requires !op.Init?
    ensures AllLeave(Code(op))
  {
    var gpu := if op.GpuFence? || op.FullFence? || op.Checkpoint? || op.CheckpointUnread? then op.gpu else false;
    var r := if op.Capture? || op.Checkpoint? then op.readings else Readings(0, 0, 0, 0, 0, 0);
    PartsLeave(gpu, r);
    assert AllLeave([Copy(Ready)]);
    hide AllLeave, FullCode, ObserveCode, CopyCode, CpuRamCode, GpuCode;
    AllLeaveConcat(FullCode(gpu), ObserveCode(r));
    AllLeaveConcat(FullCode(gpu) + ObserveCode(r), CopyCode());
  }

  lemma AloneReady(words: Words, op: Operation)
    ensures Get(Alone(words, op).words, Ready) == if op.Init? then 1 else Get(words, Ready)
  {
    var l := Local(words, 0, map[]);
    hide Code, ExecuteTo;
    if op.Init? {
      InitReady(l, op);
    } else {
      OthersLeave(op);
      ReadyLeft(l, Code(op), |Code(op)|);
    }
  }

  ghost predicate AnyInit(log: seq<Finished>) {
    exists k :: 0 <= k < |log| && log[k].op.Init?
  }

  lemma {:induction false} ReplayReady(log: seq<Finished>)
    ensures Get(Replay(log), Ready) == if AnyInit(log) then 1 else 0
  {
    if log != [] {
      var rest := log[..|log| - 1];
      ReplayReady(rest);
      AloneReady(Replay(rest), log[|log| - 1].op);
      assert forall k :: 0 <= k < |rest| ==> rest[k] == log[k];
      hide Alone;
    }
  }

  lemma ReadyRead(words: Words)
    ensures Get(Alone(words, IsReady).copy, Ready) == Get(words, Ready)
  {
    CopiesTake(Local(words, 0, map[]), Code(IsReady), 1);
  }

  /** In every run a ready question is answered with 1 exactly when an Init was finished before it, and else with 0. */
  lemma ReadyExactlyAfterInit(s: State, es: seq<Event>, j: nat)
    requires Initial(s) && j < |Run(s, es).log| && Run(s, es).log[j].op == IsReady
    ensures Get(Run(s, es).log[j].copy, Ready) == if AnyInit(Run(s, es).log[..j]) then 1 else 0
  {
    Linearizable(s, es);
    hide Run, Replay, Alone, AnyInit;
    var log := Run(s, es).log;
    assert log[j].copy == Alone(Replay(log[..j]), log[j].op).copy;
    ReadyRead(Replay(log[..j]));
    ReplayReady(log[..j]);
  }

  // ---------------------------------------------------------------- progress

  // So many steps of one processor while the others rest.
  function StepMany(s: State, i: nat, n: nat): (t: State)
    requires i < |s.cpus|
    ensures |t.cpus| == |s.cpus|
    decreases n
  {
    if n == 0 then s else StepMany(StepCpu(s, i), i, n - 1)
  }

  // How many of its own steps a processor in the lock's code is from being inside, when the lock is free.
  function Ahead(p: Point): nat {
    match p
    case SaveFlags => 4
    case DisableInterrupts => 3
    case Exchange => 2
    case Test(eax) => if eax == 0 then 1 else 5
    case Pause => 4
    case Compare => 3
    case _ => 0
  }

  lemma {:induction false} StepsAdd(s: State, i: nat, m: nat, n: nat)
    requires i < |s.cpus|
    ensures StepMany(s, i, m + n) == StepMany(StepMany(s, i, m), i, n)
    decreases m
  {
    hide Code, Execute;
    if m > 0 {
      StepsAdd(StepCpu(s, i), i, m - 1, n);
    }
  }

  /** A processor that finds the lock free is inside after at most five steps of its own, and has changed nothing but
      the lock. */
  lemma {:induction false} FreeLockTaken(s: State, i: nat)
    requires i < |s.cpus| && s.lock == 0
    requires !s.cpus[i].point.Idle? && !s.cpus[i].point.Inside? && !s.cpus[i].point.RestoreFlags?
    requires s.cpus[i].point != Test(0)
    ensures Ahead(s.cpus[i].point) <= 5
    ensures var t := StepMany(s, i, Ahead(s.cpus[i].point));
            && t.cpus[i].point == Inside(0) && t.cpus[i].op == s.cpus[i].op
            && t.lock == 1 && t.words == s.words && t.log == s.log
            && forall j :: 0 <= j < |s.cpus| && j != i ==> t.cpus[j] == s.cpus[j]
    decreases Ahead(s.cpus[i].point)
  {
    var u := StepCpu(s, i);
    if s.cpus[i].point.Exchange? {
      assert u.cpus[i].point == Test(0);
      assert StepMany(u, i, 1) == StepMany(StepCpu(u, i), i, 0);
    } else {
      FreeLockTaken(u, i);
    }
    hide Code, Execute;
  }

  lemma {:induction false} InsideFinishes(s: State, i: nat)
    requires i < |s.cpus| && s.cpus[i].point.Inside? && s.cpus[i].point.k <= |Code(s.cpus[i].op)|
    ensures var c := s.cpus[i]; var t := StepMany(s, i, |Code(c.op)| - c.point.k + 2);
            && t.cpus[i].point.Idle? && t.lock == 0
            && |t.log| == |s.log| + 1 && t.log[..|s.log|] == s.log && t.log[|s.log|].op == c.op
    decreases |Code(s.cpus[i].op)| - s.cpus[i].point.k
  {
    hide Code, Execute;
    var u := StepCpu(s, i);
    if s.cpus[i].point.k < |Code(s.cpus[i].op)| {
      InsideFinishes(u, i);
    } else {
      assert StepMany(u, i, 1) == StepMany(StepCpu(u, i), i, 0);
    }
  }

  /** Undisturbed, a processor that finds the lock free finishes its operation in a number of steps known beforehand,
      releases the lock and leaves its operation as the last of the log. */
  lemma FinishesAlone(s: State, i: nat)
    requires i < |s.cpus| && s.lock == 0
    requires !s.cpus[i].point.Idle? && !s.cpus[i].point.Inside? && !s.cpus[i].point.RestoreFlags?
    requires s.cpus[i].point != Test(0)
    ensures var c := s.cpus[i]; var t := StepMany(s, i, Ahead(c.point) + |Code(c.op)| + 2);
            && t.cpus[i].point.Idle? && t.lock == 0
            && |t.log| == |s.log| + 1 && t.log[..|s.log|] == s.log && t.log[|s.log|].op == c.op
  {
    hide StepMany, Code, StepCpu, Ahead;
    var c := s.cpus[i];
    FreeLockTaken(s, i);
    var t := StepMany(s, i, Ahead(c.point));
    InsideFinishes(t, i);
    StepsAdd(s, i, Ahead(c.point), |Code(c.op)| + 2);
  }
}
