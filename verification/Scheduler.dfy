/** The task registry and the cooperative round-robin scheduler. */
module Scheduler {
  import opened Word

  datatype TaskState = Ready | Running | Blocked | Stopped

  datatype Task = Task(id: u32, name: string, state: TaskState, yieldCount: u32)

  const NO_TASK := Task(0, "", Stopped, 0)

  // ---------------------------------------------------------------- the specification

  datatype Table = Table(tasks: seq<Task>, current: nat, total: u32)

  // Tasks are never removed, so a task's id is its place.
  ghost predicate Numbered(tasks: seq<Task>) {
    |tasks| <= 8 && forall i :: 0 <= i < |tasks| ==> tasks[i].id == i + 1
  }

  predicate Active(t: Table) {
    t.current < |t.tasks|
  }

  // The task `offset` places after `start`, cyclically.
  function Place(n: nat, start: nat, offset: nat): nat
    requires start < n && offset <= n
  {
    if start + offset < n then start + offset else start + offset - n
  }

  // The first offset from `offset` on at which a task is ready; n + 1 if there is none.
  function FirstReady(tasks: seq<Task>, start: nat, offset: nat): (k: nat)
    requires start < |tasks| && 1 <= offset <= |tasks| + 1
    ensures offset <= k <= |tasks| + 1
    ensures k <= |tasks| ==> tasks[Place(|tasks|, start, k)].state == Ready
    ensures forall j :: offset <= j < k ==> tasks[Place(|tasks|, start, j)].state != Ready
    decreases |tasks| + 1 - offset
  {
    if offset > |tasks| then offset
    else if tasks[Place(|tasks|, start, offset)].state == Ready then offset
    else FirstReady(tasks, start, offset + 1)
  }

  function Demoted(t: Table): seq<Task>
    requires Active(t)
  {
    if t.tasks[t.current].state == Running
    then t.tasks[t.current := t.tasks[t.current].(state := Ready)]
    else t.tasks
  }

  function Promoted(task: Task): Task {
    task.(state := Running, yieldCount := Wrap(task.yieldCount + 1))
  }

  function Yield(t: Table): (u: Table)
    requires Active(t)
    ensures Active(u) && |u.tasks| == |t.tasks|
  {
    var tasks := Demoted(t);
    var k := FirstReady(tasks, t.current, 1);
    if k <= |tasks| then
      var i := Place(|tasks|, t.current, k);
      Table(tasks[i := Promoted(tasks[i])], i, Wrap(t.total + 1))
    else
      t.(tasks := tasks[t.current := tasks[t.current].(state := Running)])
  }

  // What happens between yields: tasks are added, or set to a state other than running.
  datatype Event = Yielded | Added(name: string) | Changed(id: u32, state: TaskState)

  function SetState(tasks: seq<Task>, id: u32, state: TaskState): seq<Task> {
    if 1 <= id <= |tasks| then tasks[id - 1 := tasks[id - 1].(state := state)] else tasks
  }

  function Register(tasks: seq<Task>, name: string): seq<Task> {
    if |tasks| >= 8 then tasks else tasks + [Task(|tasks| + 1, name, Ready, 0)]
  }

  function Next(t: Table, e: Event): (u: Table)
    requires Active(t)
    ensures Active(u)
  {
    match e
    case Yielded => Yield(t)
    case Added(name) => t.(tasks := Register(t.tasks, name))
    case Changed(id, state) => t.(tasks := SetState(t.tasks, id, state))
  }

  function Run(t: Table, es: seq<Event>): (u: Table)
    requires Active(t)
    ensures Active(u)
    decreases |es|
  {
    if es == [] then t else Run(Next(t, es[0]), es[1..])
  }

  // After initialisation: the idle task is ready, the user interface task runs.
  const INITIAL := Table([Task(1, "idle", Ready, 0), Task(2, "ui", Running, 0)], 1, 0)

  // ---------------------------------------------------------------- exactly one running task

  ghost predicate AtMostCurrentRuns(t: Table) {
    forall i :: 0 <= i < |t.tasks| && t.tasks[i].state == Running ==> i == t.current
  }

  ghost predicate OnlyCurrentRuns(t: Table) {
    forall i :: 0 <= i < |t.tasks| ==> (t.tasks[i].state == Running <==> i == t.current)
  }

  function SumCounts(tasks: seq<Task>): nat {
    if tasks == [] then 0 else SumCounts(tasks[..|tasks| - 1]) + tasks[|tasks| - 1].yieldCount
  }

  ghost predicate Inv(t: Table) {
    && Active(t)
    && Numbered(t.tasks)
    && AtMostCurrentRuns(t)
    && t.total == Wrap(SumCounts(t.tasks))
  }

  lemma {:induction false} SumSame(a: seq<Task>, b: seq<Task>)
    requires |a| == |b| && forall i :: 0 <= i < |a| ==> a[i].yieldCount == b[i].yieldCount
    ensures SumCounts(a) == SumCounts(b)
  {
    if a != [] {
      SumSame(a[..|a| - 1], b[..|b| - 1]);
    }
  }

  lemma {:induction false} SumUpdate(tasks: seq<Task>, i: nat, task: Task)
    requires i < |tasks|
    ensures SumCounts(tasks[i := task]) == SumCounts(tasks) - tasks[i].yieldCount + task.yieldCount
  {
    var last := |tasks| - 1;
    if i == last {
      assert tasks[i := task][..last] == tasks[..last];
    } else {
      assert tasks[i := task][..last] == tasks[..last][i := task];
      SumUpdate(tasks[..last], i, task);
    }
  }

  lemma DemotedKeeps(t: Table)
    requires Inv(t)
    ensures Numbered(Demoted(t)) && SumCounts(Demoted(t)) == SumCounts(t.tasks)
    ensures forall i :: 0 <= i < |t.tasks| ==> Demoted(t)[i].state != Running
  {
    SumSame(t.tasks, Demoted(t));
  }

  lemma CountOneMore(sum: int, count: int)
    ensures Wrap(Wrap(sum) + 1) == Wrap(sum - count + Wrap(count + 1))
  {
    WrapAdd(sum, 1);
    WrapAdd(count + 1, sum - count);
    hide Wrap;
  }

  lemma PromotedSum(tasks: seq<Task>, i: nat, total: u32)
    requires i < |tasks| && total == Wrap(SumCounts(tasks))
    ensures Wrap(total + 1) == Wrap(SumCounts(tasks[i := Promoted(tasks[i])]))
  {
    hide SumCounts, Wrap;
    SumUpdate(tasks, i, Promoted(tasks[i]));
    CountOneMore(SumCounts(tasks), tasks[i].yieldCount);
  }

  /** A yield leaves exactly one task running, at the current place, whatever states the others had. The task
      it runs was ready, or running and so demoted to ready, exactly when some task was; with none it resumes
      the current task as it is, blocked or stopped. */
  lemma YieldRunsOne(t: Table)
    requires Inv(t)
    ensures Inv(Yield(t)) && OnlyCurrentRuns(Yield(t))
    ensures Demoted(t)[Yield(t).current].state == Ready <==> SomeReady(Demoted(t))
    ensures !SomeReady(Demoted(t)) ==>
              Yield(t) == t.(tasks := t.tasks[t.current := t.tasks[t.current].(state := Running)])
  {
    var tasks := Demoted(t);
    DemotedKeeps(t);
    var k := FirstReady(tasks, t.current, 1);
    if k <= |tasks| {
      var i := Place(|tasks|, t.current, k);
      PromotedSum(tasks, i, t.total);
      hide SumCounts, FirstReady, Wrap;
      assert tasks[i].state == Ready;
    } else {
      SumSame(tasks, tasks[t.current := tasks[t.current].(state := Running)]);
      EveryPlace(tasks, t.current);
      hide SumCounts, FirstReady, Wrap;
    }
  }

  ghost predicate SomeReady(tasks: seq<Task>) {
    exists i :: 0 <= i < |tasks| && tasks[i].state == Ready
  }

  /** Of the ready tasks a yield runs the nearest behind the current one. */
  lemma YieldPicksNearest(t: Table, i: nat)
    requires Active(t) && i < |t.tasks| && Demoted(t)[i].state == Ready
    ensures var n, chosen := |t.tasks|, Yield(t).current;
            Demoted(t)[chosen].state == Ready && Distance(n, t.current, chosen) <= Distance(n, t.current, i)
  {
    var tasks, d := Demoted(t), Distance(|t.tasks|, t.current, i);
    assert Place(|tasks|, t.current, d) == i;
    assert FirstReady(tasks, t.current, 1) <= d;
  }

  /** From the start, with both tasks blocked, the next yield runs the blocked second one. */
  lemma BlockedTaskResumed()
    ensures var t := Run(INITIAL, [Changed(1, Blocked), Changed(2, Blocked)]);
            && t.current == 1 && t.tasks[1].state == Blocked && !SomeReady(Demoted(t))
            && Yield(t).current == 1 && Yield(t).tasks[1].state == Running
  {
    var es := [Changed(1, Blocked), Changed(2, Blocked)];
    var t := Next(Next(INITIAL, es[0]), es[1]);
    assert es[1..] == [es[1]] && es[1..][1..] == [];
    assert Run(INITIAL, es) == Run(Next(INITIAL, es[0]), es[1..]) == t;
  }

  // A search that finds nothing has looked at every task.
  lemma EveryPlace(tasks: seq<Task>, start: nat)
    requires start < |tasks| && FirstReady(tasks, start, 1) == |tasks| + 1
    ensures forall i :: 0 <= i < |tasks| ==> tasks[i].state != Ready
  {
    forall i | 0 <= i < |tasks| ensures tasks[i].state != Ready {
      var j := if i > start then i - start else i + |tasks| - start;
      assert Place(|tasks|, start, j) == i;
    }
  }

  // The environment never sets a task running.
  predicate Fair(e: Event) {
    e.Changed? ==> e.state != Running
  }

  lemma NextKeeps(t: Table, e: Event)
    requires Inv(t) && Fair(e)
    ensures Inv(Next(t, e))
  {
    match e
    case Yielded => YieldRunsOne(t);
    case Added(name) =>
      if |t.tasks| < 8 {
        var tasks := Register(t.tasks, name);
        assert tasks[..|tasks| - 1] == t.tasks;
      }
    case Changed(id, state) =>
      SumSame(t.tasks, SetState(t.tasks, id, state));
      hide SumCounts;
  }

  /** Over every run of yields, additions and state changes: ids stay distinct, no task but the current one
      runs, and the yield total is the sum of the tasks' yield counts modulo 2^32. */
  lemma {:induction false} RunKeeps(t: Table, es: seq<Event>)
    requires Inv(t) && forall i :: 0 <= i < |es| ==> Fair(es[i])
    ensures Inv(Run(t, es))
    decreases |es|
  {
    if es != [] {
      hide Inv, Next;
      NextKeeps(t, es[0]);
      RunKeeps(Next(t, es[0]), es[1..]);
    }
  }

  lemma InitialInv()
    ensures Inv(INITIAL) && OnlyCurrentRuns(INITIAL)
  {
    WrapSmall(0);
    var tasks := INITIAL.tasks;
    assert tasks[..1] == [tasks[0]] && tasks[..1][..0] == [];
    assert SumCounts(tasks[..1]) == 0;
  }

  // ---------------------------------------------------------------- no starvation

  // How many places the search goes from the current task to another, 1 to n.
  function Distance(n: nat, from: nat, to: nat): nat
    requires from < n && to < n
  {
    if to > from then to - from else to + n - from
  }

  /** A ready task is chosen, or the yield brings the current place strictly nearer to it. */
  lemma YieldApproaches(t: Table, target: nat)
    requires Active(t) && target < |t.tasks| && t.tasks[target].state == Ready
    ensures var u, n := Yield(t), |t.tasks|;
            && (u.current == target ==> u.tasks[target].state == Running)
            && (u.current != target ==> u.tasks[target].state == Ready)
            && (u.current != target ==> Distance(n, u.current, target) < Distance(n, t.current, target))
  {
    var tasks, n, d := Demoted(t), |t.tasks|, Distance(|t.tasks|, t.current, target);
    assert Place(n, t.current, d) == target && tasks[target].state == Ready;
    var k := FirstReady(tasks, t.current, 1);
    assert k <= d;
  }

  // The target is left alone, and no task is added.
  predicate Spares(e: Event, target: nat) {
    match e
    case Yielded => true
    case Added(_) => false
    case Changed(id, _) => id != target + 1
  }

  function CountYields(es: seq<Event>): nat {
    if es == [] then 0 else (if es[0].Yielded? then 1 else 0) + CountYields(es[1..])
  }

  /** No starvation: a ready task that is left alone is running after some prefix of any run with as many
      yields as its distance, whatever happens to the other tasks in between. */
  lemma {:induction false} ReadyTaskRuns(t: Table, es: seq<Event>, target: nat) returns (k: nat)
    requires Active(t) && target < |t.tasks| && t.tasks[target].state == Ready
    requires forall i :: 0 <= i < |es| ==> Spares(es[i], target)
    requires CountYields(es) >= Distance(|t.tasks|, t.current, target)
    ensures k <= |es|
    ensures var u := Run(t, es[..k]);
            u.current == target && |u.tasks| == |t.tasks| && u.tasks[target].state == Running
    decreases |es|
  {
    var u := Next(t, es[0]);
    if es[0].Yielded? {
      YieldApproaches(t, target);
    }
    hide Yield;
    assert es[..1][1..] == [];
    if u.current == target && es[0].Yielded? {
      assert Run(t, es[..1]) == u;
      k := 1;
    } else {
      var j := ReadyTaskRuns(u, es[1..], target);
      k := j + 1;
      assert es[..k][0] == es[0] && es[..k][1..] == es[1..][..j];
    }
  }

  /** In particular n yields are enough, n being the number of tasks. */
  lemma WithinOneRound(t: Table, target: nat)
    requires Active(t) && target < |t.tasks|
    ensures 1 <= Distance(|t.tasks|, t.current, target) <= |t.tasks|
  {
  }

  lemma {:induction false} NamesStay(t: Table, es: seq<Event>, i: nat)
    requires Active(t) && i < |t.tasks|
    ensures |Run(t, es).tasks| >= |t.tasks|
    ensures Run(t, es).tasks[i].id == t.tasks[i].id && Run(t, es).tasks[i].name == t.tasks[i].name
    decreases |es|
  {
    if es != [] {
      NameStays(t, es[0], i);
      hide Next;
      NamesStay(Next(t, es[0]), es[1..], i);
    }
  }

  lemma NameStays(t: Table, e: Event, i: nat)
    requires Active(t) && i < |t.tasks|
    ensures |Next(t, e).tasks| >= |t.tasks|
    ensures Next(t, e).tasks[i].id == t.tasks[i].id && Next(t, e).tasks[i].name == t.tasks[i].name
  {
    hide FirstReady, Place, Wrap;
  }

  /** An added task gets the next id and runs within one round of yields, unless it is set aside: with room in the
      table it is running after some prefix of any run with as many yields as there are tasks, itself included. */
  lemma AddedTaskRuns(t: Table, name: string, es: seq<Event>) returns (k: nat)
    requires Active(t) && |t.tasks| < 8
    requires forall i :: 0 <= i < |es| ==> Spares(es[i], |t.tasks|)
    requires CountYields(es) >= |t.tasks| + 1
    ensures k <= |es|
    ensures var u, target := Run(t, [Added(name)] + es[..k]), |t.tasks|;
            && u.current == target && |u.tasks| == |t.tasks| + 1
            && u.tasks[target].state == Running
            && u.tasks[target].name == name && u.tasks[target].id == |t.tasks| + 1
  {
    var v := Next(t, Added(name));
    assert v.tasks[|t.tasks|] == Task(|t.tasks| + 1, name, Ready, 0);
    WithinOneRound(v, |t.tasks|);
    hide Distance, Spares;
    k := ReadyTaskRuns(v, es, |t.tasks|);
    NamesStay(v, es[..k], |t.tasks|);
    assert ([Added(name)] + es[..k])[0] == Added(name) && ([Added(name)] + es[..k])[1..] == es[..k];
    hide Next;
  }

  /** A full table takes no more tasks. */
  lemma FullTableRefuses(t: Table, name: string)
    requires Active(t) && |t.tasks| >= 8
    ensures Next(t, Added(name)) == t
  {
  }

  // ---------------------------------------------------------------- fairness

  // Every task but the running current one is ready: nothing blocks.
  ghost predicate AllReady(t: Table) {
    && Active(t)
    && forall i :: 0 <= i < |t.tasks| ==> t.tasks[i].state == (if i == t.current then Running else Ready)
  }

  function YieldMany(t: Table, k: nat): (u: Table)
    requires Active(t)
    ensures Active(u) && |u.tasks| == |t.tasks|
    decreases k
  {
    if k == 0 then t else YieldMany(Yield(t), k - 1)
  }

  // How often a task has been chosen in k yields.
  function Visits(t: Table, target: nat, k: nat): nat
    requires Active(t)
    decreases k
  {
    if k == 0 then 0
    else (if Yield(t).current == target then 1 else 0) + Visits(Yield(t), target, k - 1)
  }

  lemma YieldAllReady(t: Table)
    requires AllReady(t)
    ensures AllReady(Yield(t)) && Yield(t).current == Place(|t.tasks|, t.current, 1)
    ensures forall i :: 0 <= i < |t.tasks| ==>
              Yield(t).tasks[i].yieldCount ==
              Wrap(t.tasks[i].yieldCount + if i == Yield(t).current then 1 else 0)
  {
    var tasks := Demoted(t);
    assert forall i :: 0 <= i < |tasks| ==> tasks[i].state == Ready;
    assert FirstReady(tasks, t.current, 1) == 1;
    forall i | 0 <= i < |t.tasks| {
      WrapSmall(t.tasks[i].yieldCount);
    }
    hide Wrap;
  }

  function Times(v: nat, n: nat): nat {
    if v == 0 then 0 else Times(v - 1, n) + n
  }

  lemma {:induction false} TimesApart(v: nat, w: nat, n: nat)
    requires v >= w + 2
    ensures Times(v, n) >= Times(w, n) + 2 * n
  {
    if v == w + 2 {
      assert Times(w + 2, n) == Times(w + 1, n) + n;
    } else {
      TimesApart(v - 1, w, n);
    }
  }

  lemma DistanceStep(n: nat, from: nat, to: nat)
    requires from < n && to < n
    ensures var d := Distance(n, from, to);
            && 1 <= d <= n && (Place(n, from, 1) == to <==> d == 1)
            && Distance(n, Place(n, from, 1), to) == if d == 1 then n else d - 1
  {
  }

  // The distance still to go, and the rounds already made, account for every yield.
  lemma {:induction false} VisitsCount(t: Table, target: nat, k: nat)
    requires AllReady(t) && target < |t.tasks|
    ensures Distance(|t.tasks|, YieldMany(t, k).current, target) + k ==
            Distance(|t.tasks|, t.current, target) + Times(Visits(t, target, k), |t.tasks|)
    decreases k
  {
    hide Distance, Place;
    if k > 0 {
      YieldAllReady(t);
      hide AllReady, Yield;
      DistanceStep(|t.tasks|, t.current, target);
      VisitsCount(Yield(t), target, k - 1);
    }
  }

  lemma VisitCounted(t: Table, target: nat, visits: nat)
    requires AllReady(t) && target < |t.tasks|
    ensures Wrap(Yield(t).tasks[target].yieldCount + visits) ==
            Wrap(t.tasks[target].yieldCount + (if Yield(t).current == target then 1 else 0) + visits)
  {
    YieldAllReady(t);
    hide Yield, Place, AllReady;
    WrapAdd(t.tasks[target].yieldCount + (if target == Yield(t).current then 1 else 0), visits);
    hide Wrap;
  }

  // A task's yield count grows by its visits.
  lemma {:induction false} VisitsCounted(t: Table, target: nat, k: nat)
    requires AllReady(t) && target < |t.tasks|
    ensures YieldMany(t, k).tasks[target].yieldCount == Wrap(t.tasks[target].yieldCount + Visits(t, target, k))
    decreases k
  {
    hide Yield, Place, Wrap;
    if k == 0 {
      WrapSmall(t.tasks[target].yieldCount);
    } else {
      YieldAllReady(t);
      hide AllReady;
      VisitCounted(t, target, Visits(Yield(t), target, k - 1));
      VisitsCounted(Yield(t), target, k - 1);
    }
  }

  /** While nothing blocks, over any number of consecutive yields the yield counts of any two tasks grow by
      amounts that differ by at most one. */
  lemma YieldsAreFair(t: Table, a: nat, b: nat, k: nat)
    requires AllReady(t) && a < |t.tasks| && b < |t.tasks|
    ensures -1 <= Visits(t, a, k) - Visits(t, b, k) <= 1
    ensures YieldMany(t, k).tasks[a].yieldCount == Wrap(t.tasks[a].yieldCount + Visits(t, a, k))
    ensures YieldMany(t, k).tasks[b].yieldCount == Wrap(t.tasks[b].yieldCount + Visits(t, b, k))
  {
    var u, n, v, w := YieldMany(t, k), |t.tasks|, Visits(t, a, k), Visits(t, b, k);
    VisitsCounted(t, a, k);
    VisitsCounted(t, b, k);
    VisitsCount(t, a, k);
    VisitsCount(t, b, k);
    WithinOneRound(t, a);
    WithinOneRound(t, b);
    WithinOneRound(u, a);
    WithinOneRound(u, b);
    hide Visits, YieldMany, Wrap, AllReady, Times, Distance;
    if v >= w + 2 {
      TimesApart(v, w, n);
    } else if w >= v + 2 {
      TimesApart(w, v, n);
    }
  }

  // ---------------------------------------------------------------- the registry and the scheduler

  class Registry {
    const tasks: array<Task>
    var total: nat
    var nextId: u32

    ghost predicate Valid()
      reads this, tasks
    {
      tasks.Length == 8 && total <= 8 && nextId == total + 1 && Numbered(tasks[..total])
    }

    constructor ()
      ensures Valid() && total == 0 && fresh(tasks)
    {
      tasks := new Task[8](_ => NO_TASK);
      total := 0;
      nextId := 1;
    }

    method RegisterTask(name: string) returns (id: u32)
      requires Valid()
      modifies `total, `nextId, tasks
      ensures Valid() && tasks[..total] == Register(old(tasks[..total]), name)
      ensures id == if old(total) < 8 then old(total) + 1 else 0
    {
      if total >= 8 {
        return 0;
      }
      ghost var before := tasks[..total];
      tasks[total] := Task(nextId, name, Ready, 0);
      id := nextId;
      total := total + 1;
      nextId := nextId + 1;
      assert tasks[..total] == before + [Task(id, name, Ready, 0)];
    }

    method IndexById(id: u32) returns (found: bool, index: nat)
      requires Valid()
      ensures found == (1 <= id <= total) && (found ==> index == id - 1)
    {
      index := 0;
      while index < total
        invariant index <= total && (id >= 1 ==> index <= id - 1)
      {
        if tasks[index].id == id {
          return true, index;
        }
        assert tasks[..total][index].id == index + 1;
        index := index + 1;
      }
      return false, 0;
    }

    method SetTaskState(id: u32, state: TaskState) returns (found: bool)
      requires Valid()
      modifies tasks
      ensures Valid() && tasks[..total] == SetState(old(tasks[..total]), id, state)
      ensures found == (1 <= id <= total)
    {
      ghost var before := tasks[..total];
      var i: nat;
      found, i := IndexById(id);
      if found {
        tasks[i] := tasks[i].(state := state);
        assert tasks[..total] == before[i := before[i].(state := state)];
      }
    }

    method IncrementYieldCount(id: u32) returns (found: bool)
      requires Valid()
      modifies tasks
      ensures Valid() && found == (1 <= id <= total)
      ensures tasks[..total] ==
              if found then old(tasks[..total])[id - 1 := old(tasks[..total])[id - 1].(
                yieldCount := Wrap(old(tasks[..total])[id - 1].yieldCount + 1))]
              else old(tasks[..total])
    {
      ghost var before := tasks[..total];
      var i: nat;
      found, i := IndexById(id);
      if found {
        tasks[i] := tasks[i].(yieldCount := Wrap(tasks[i].yieldCount + 1));
        assert tasks[..total] == before[i := before[i].(yieldCount := Wrap(before[i].yieldCount + 1))];
      }
    }
  }

  class Cooperative {
    const registry: Registry
    var current: nat
    var yieldTotal: u32

    ghost predicate Valid()
      reads this, registry, registry.tasks
    {
      registry.Valid() && current < registry.total
    }

    ghost function View(): Table
      requires Valid()
      reads this, registry, registry.tasks
    {
      Table(registry.tasks[..registry.total], current, yieldTotal)
    }

    constructor ()
      ensures Valid() && View() == INITIAL && fresh(registry) && fresh(registry.tasks)
    {
      registry := new Registry();
      current, yieldTotal := 0, 0;
      new;
      var idle := registry.RegisterTask("idle");
      var ui := registry.RegisterTask("ui");
      var found: bool;
      found, current := registry.IndexById(ui);
      found := registry.SetTaskState(ui, Running);
    }

    method AddTask(name: string) returns (id: u32)
      requires Valid()
      modifies registry, registry.tasks
      ensures Valid() && View() == Next(old(View()), Added(name))
    {
      id := registry.RegisterTask(name);
    }

    // Makes a ready task the current, running one and counts it.
    method Choose(index: nat)
      requires Valid() && index < registry.total
      modifies this, registry.tasks
      ensures Valid()
      ensures var tasks := old(View().tasks);
              View() == Table(tasks[index := Promoted(tasks[index])], index, Wrap(old(yieldTotal) + 1))
    {
      hide Wrap;
      ghost var tasks := View().tasks;
      var id := registry.tasks[index].id;
      assert id == tasks[index].id == index + 1;
      current := index;
      var ok := registry.SetTaskState(id, Running);
      ok := registry.IncrementYieldCount(id);
      yieldTotal := Wrap(yieldTotal + 1);
    }

    // The first ready task after `start`, made running and counted.
    method SelectTask(start: nat) returns (found: bool)
      requires Valid() && start == current
      modifies this, registry.tasks
      ensures Valid()
      ensures var tasks := old(View().tasks);
              var k := FirstReady(tasks, start, 1);
              && found == (k <= |tasks|)
              && (!found ==> View() == old(View()))
              && (found ==> var i := Place(|tasks|, start, k);
                            View() == Table(tasks[i := Promoted(tasks[i])], i, Wrap(old(yieldTotal) + 1)))
    {
      hide Wrap, Numbered, Promoted;
      ghost var tasks := View().tasks;
      var offset := 1;
      while offset <= registry.total
        invariant Valid() && View() == old(View())
        invariant 1 <= offset <= registry.total + 1
        invariant FirstReady(tasks, start, 1) == FirstReady(tasks, start, offset)
      {
        PlaceIsModulo(registry.total, start, offset);
        var index := (start + offset) % registry.total;
        if registry.tasks[index].state == Ready {
          assert tasks[index].state == Ready;
          Choose(index);
          return true;
        }
        assert tasks[index].state != Ready;
        offset := offset + 1;
      }
      return false;
    }

    // The current task, if it runs, is made ready.
    method Demote()
      requires Valid()
      modifies registry.tasks
      ensures Valid() && View() == old(View()).(tasks := Demoted(old(View())))
    {
      hide Wrap;
      var task := registry.tasks[current];
      assert task == View().tasks[current] && task.id == current + 1;
      if task.state == Running {
        var demoted := registry.SetTaskState(task.id, Ready);
      }
    }

    method YieldTask()
      requires Valid()
      modifies this, registry.tasks
      ensures Valid() && View() == Yield(old(View()))
    {
      hide Wrap, Promoted, Demoted, FirstReady, Place;
      var id := registry.tasks[current].id;
      assert id == View().tasks[current].id == current + 1;
      Demote();
      var found := SelectTask(current);
      if !found {
        var resumed := registry.SetTaskState(id, Running);
      }
    }
  }

  lemma PlaceIsModulo(n: nat, start: nat, offset: nat)
    requires start < n && offset <= n
    ensures (start + offset) % n == Place(n, start, offset)
  {
    if start + offset >= n {
      assert (start + offset - n + 1 * n) % n == start + offset - n;
    }
  }
}
