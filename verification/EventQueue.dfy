/** The user interface's event queue: a ring of 128 slots that stamps accepted events with sequence
    numbers and counts the ones it drops. */
module EventQueue {
  import opened Word
  import opened Text
  import opened Ring

  datatype UiEvent = UiEvent(
    kind: nat, sequence: u32, x: u32, y: u32, dx: int, dy: int,
    key: u32, scancode: byte, button: byte, buttons: byte, character: char)

  const NO_EVENT := UiEvent(0, 0, 0, 0, 0, 0, 0, 0, 0, 0, NUL)

  // ---------------------------------------------------------------- the specification: a bounded FIFO

  datatype Queue = Queue(pending: seq<UiEvent>, next: u32, dropped: u32, recent: Option<UiEvent>)

  const EMPTY := Queue([], 0, 0, None)

  function Stamped(q: Queue, e: UiEvent): UiEvent {
    e.(sequence := q.next)
  }

  function Push(q: Queue, e: UiEvent): Queue {
    if |q.pending| == 127 then q.(dropped := Wrap(q.dropped + 1))
    else Queue(q.pending + [Stamped(q, e)], Wrap(q.next + 1), q.dropped, Some(Stamped(q, e)))
  }

  function Poll(q: Queue): (Queue, Option<UiEvent>) {
    if q.pending == [] then (q, None) else (q.(pending := q.pending[1..]), Some(q.pending[0]))
  }

  // ---------------------------------------------------------------- the ring

  class EventRing {
    const slots: array<UiEvent>
    var head: nat
    var tail: nat
    var sequence: u32
    var dropped: u32
    var last: UiEvent
    var hasRecent: bool

    ghost predicate Valid()
      reads this
    {
      slots.Length == 128 && InRing(128, head, tail)
    }

    ghost function View(): Queue
      requires Valid()
      reads this, slots
    {
      Queue(Contents(slots[..], head, tail), sequence, dropped, if hasRecent then Some(last) else None)
    }

    constructor ()
      ensures Valid() && View() == EMPTY && fresh(slots)
    {
      slots := new UiEvent[128](_ => NO_EVENT);
      head, tail, sequence, dropped, last, hasRecent := 0, 0, 0, 0, NO_EVENT, false;
    }

    method PushEvent(event: UiEvent) returns (accepted: bool)
      requires Valid()
      modifies this, slots
      ensures Valid() && View() == Push(old(View()), event)
      ensures accepted == (|old(View()).pending| < 127)
    {
      hide Wrap, Contents;
      var next := (head + 1) % 128;
      AfterIsModulo(128, head);
      FullWhenNextTaken(slots[..], head, tail);
      ContentsBound(slots[..], head, tail);
      if next == tail {
        dropped := Wrap(dropped + 1);
        return false;
      }
      ghost var cells := slots[..];
      var queued := event.(sequence := sequence);
      PushAppends(cells, head, tail, queued);
      sequence := Wrap(sequence + 1);
      slots[head] := queued;
      assert slots[..] == cells[head := queued];
      head := next;
      last := queued;
      hasRecent := true;
      return true;
    }

    method PollEvent() returns (event: Option<UiEvent>)
      requires Valid()
      modifies `tail
      ensures Valid() && (View(), event) == Poll(old(View()))
    {
      FullWhenNextTaken(slots[..], head, tail);
      if tail == head {
        return None;
      }
      AfterIsModulo(128, tail);
      PopTakesFirst(slots[..], head, tail);
      event := Some(slots[tail]);
      tail := (tail + 1) % 128;
    }

    method Recent() returns (event: Option<UiEvent>)
      requires Valid()
      ensures event == View().recent
    {
      return if hasRecent then Some(last) else None;
    }

    // The number of queued events, from the two indices alone.
    method PendingCount() returns (count: nat)
      requires Valid()
      ensures count == |View().pending|
    {
      return if head >= tail then head - tail else 128 - tail + head;
    }
  }

  lemma ContentsBound(cells: seq<UiEvent>, head: nat, tail: nat)
    requires InRing(|cells|, head, tail)
    ensures |Contents(cells, head, tail)| < |cells|
  {
  }

  // ---------------------------------------------------------------- runs

  datatype Call = Pushed(e: UiEvent) | Polled

  // The queue with its history: the events offered, those accepted, and those handed out.
  datatype World = World(queue: Queue, pushes: nat, accepted: seq<UiEvent>, polled: seq<UiEvent>)

  const BOOT := World(EMPTY, 0, [], [])

  function Next(w: World, c: Call): World {
    match c
    case Pushed(e) =>
      World(Push(w.queue, e), w.pushes + 1,
            if |w.queue.pending| == 127 then w.accepted else w.accepted + [Stamped(w.queue, e)], w.polled)
    case Polled =>
      var (queue, event) := Poll(w.queue);
      w.(queue := queue, polled := if event.Some? then w.polled + [event.value] else w.polled)
  }

  function Run(w: World, cs: seq<Call>): World
    decreases |cs|
  {
    if cs == [] then w else Run(Next(w, cs[0]), cs[1..])
  }

  ghost predicate Inv(w: World) {
    && w.accepted == w.polled + w.queue.pending
    && |w.queue.pending| <= 127
    && |w.accepted| <= w.pushes
    && w.queue.dropped == Wrap(w.pushes - |w.accepted|)
    && w.queue.next == Wrap(|w.accepted|)
    && (forall i :: 0 <= i < |w.accepted| ==> w.accepted[i].sequence == Wrap(i))
    && w.queue.recent == if w.accepted == [] then None else Some(w.accepted[|w.accepted| - 1])
  }

  lemma NextKeeps(w: World, c: Call)
    requires Inv(w)
    ensures Inv(Next(w, c))
  {
    WrapAdd(w.pushes - |w.accepted|, 1);
    WrapAdd(|w.accepted|, 1);
    hide Wrap;
    match c
    case Pushed(e) => Assoc(w.polled, w.queue.pending, [Stamped(w.queue, e)]);
    case Polled =>
      if w.queue.pending != [] {
        Assoc(w.polled, [w.queue.pending[0]], w.queue.pending[1..]);
        assert [w.queue.pending[0]] + w.queue.pending[1..] == w.queue.pending;
      }
  }

  lemma {:induction false} RunKeeps(w: World, cs: seq<Call>)
    requires Inv(w)
    ensures Inv(Run(w, cs))
    decreases |cs|
  {
    if cs != [] {
      NextKeeps(w, cs[0]);
      hide Inv, Next;
      RunKeeps(Next(w, cs[0]), cs[1..]);
    }
  }

  /** In every run the queue is a FIFO of capacity 127: events are handed out in the order of acceptance
      with consecutive sequence numbers, what is accepted and not handed out is pending, offers are
      accepted or dropped, and `recent` is the last one accepted. */
  lemma FirstInFirstOut(cs: seq<Call>)
    ensures var w := Run(BOOT, cs);
            && w.polled <= w.accepted && w.accepted[|w.polled|..] == w.queue.pending
            && |w.queue.pending| <= 127
            && (forall i :: 0 <= i < |w.accepted| ==> w.accepted[i].sequence == Wrap(i))
            && w.queue.dropped == Wrap(w.pushes - |w.accepted|)
            && w.queue.recent == if w.accepted == [] then None else Some(w.accepted[|w.accepted| - 1])
  {
    WrapSmall(0);
    RunKeeps(BOOT, cs);
    hide Run, Wrap;
  }

  // ---------------------------------------------------------------- what a queue of 127 places would do

  // How many events wait after some calls.
  function Waiting(cs: seq<Call>): (n: nat)
    ensures n <= 127
  {
    if cs == [] then 0
    else
      var n := Waiting(cs[..|cs| - 1]);
      if cs[|cs| - 1].Pushed? then if n < 127 then n + 1 else n
      else if n > 0 then n - 1 else n
  }

  // The events offered while there was a place.
  function Taken(cs: seq<Call>): seq<UiEvent> {
    if cs == [] then []
    else
      var most, last := cs[..|cs| - 1], cs[|cs| - 1];
      if last.Pushed? && Waiting(most) < 127 then Taken(most) + [last.e] else Taken(most)
  }

  // How many events were offered.
  function Offers(cs: seq<Call>): nat {
    if cs == [] then 0 else Offers(cs[..|cs| - 1]) + if cs[|cs| - 1].Pushed? then 1 else 0
  }

  // An offered event with its number: every other field is the caller's.
  predicate Numbers(taken: seq<UiEvent>, numbered: seq<UiEvent>) {
    |numbered| == |taken| &&
    forall i :: 0 <= i < |taken| ==>
      var e, f := numbered[i], taken[i];
      && e.sequence == Wrap(i)
      && e.kind == f.kind && e.x == f.x && e.y == f.y && e.dx == f.dx && e.dy == f.dy && e.key == f.key
      && e.scancode == f.scancode && e.button == f.button && e.buttons == f.buttons && e.character == f.character
  }

  ghost predicate Matches(w: World, cs: seq<Call>) {
    && Numbers(Taken(cs), w.accepted) && w.pushes == Offers(cs)
    && |w.queue.pending| == Waiting(cs)
  }

  lemma {:induction false} RunLast(w: World, cs: seq<Call>, c: Call)
    ensures Run(w, cs + [c]) == Next(Run(w, cs), c)
    decreases |cs|
  {
    hide Next;
    if cs == [] {
      assert [c][1..] == [];
    } else {
      assert (cs + [c])[0] == cs[0] && (cs + [c])[1..] == cs[1..] + [c];
      RunLast(Next(w, cs[0]), cs[1..], c);
    }
  }

  lemma NextMatches(w: World, cs: seq<Call>, c: Call)
    requires Inv(w) && Matches(w, cs)
    ensures Matches(Next(w, c), cs + [c])
  {
    assert (cs + [c])[..|cs + [c]| - 1] == cs;
    hide Wrap;
  }

  lemma {:induction false} RunMatches(cs: seq<Call>)
    ensures Matches(Run(BOOT, cs), cs)
  {
    if cs != [] {
      var most, c := cs[..|cs| - 1], cs[|cs| - 1];
      assert cs == most + [c];
      RunMatches(most);
      BootRunKeeps(most);
      hide Run, Matches, Next, Inv;
      NextMatches(Run(BOOT, most), most, c);
      RunLast(BOOT, most, c);
    }
  }

  /** Over every run the events handed out, followed by the pending ones, are the events offered while fewer than
      127 were waiting, in that order and in every field but the number; the others are counted as dropped. */
  lemma HandedOutAsOffered(cs: seq<Call>)
    ensures var w := Run(BOOT, cs);
            && Numbers(Taken(cs), w.polled + w.queue.pending) && |w.queue.pending| == Waiting(cs)
            && w.queue.dropped == Wrap(Offers(cs) - |Taken(cs)|)
  {
    hide Run, Wrap, Taken, Offers, Waiting, Numbers;
    RunMatches(cs);
    BootRunKeeps(cs);
    SameLength(Taken(cs), Run(BOOT, cs).accepted);
  }

  lemma SameLength(taken: seq<UiEvent>, numbered: seq<UiEvent>)
    requires Numbers(taken, numbered)
    ensures |numbered| == |taken|
  {
  }

  lemma BootRunKeeps(cs: seq<Call>)
    ensures Inv(Run(BOOT, cs))
  {
    WrapSmall(0);
    assert Inv(BOOT) by { hide Wrap; }
    hide Inv, Run;
    RunKeeps(BOOT, cs);
  }
}
