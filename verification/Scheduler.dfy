/** Scheduling as events on a ready queue and saved contexts: what the ring buffer, the
    task table and the register save and restore of an interrupt amount to. */
module Scheduler {
  import opened Words
  import opened Collections

  const MAX_TASK_NUMBER := 16
  const CPSR_MODE_USER := 0x10
  const STACK_SIZE := 0x1_0000
  const TASK_STACK_BASE_ADDRESS := 0x3FE_0000

  /** r0 to r12. */
  type Registers = s: seq<U32> | |s| == 13 witness [0, 0, 0, 0, 0, 0, 0, 0, 0, 0, 0, 0, 0]

  /** The registers a task sees: r0 to r12, sp, lr, pc and cpsr. */
  datatype Context = Context(r: Registers, sp: U32, lr: U32, pc: U32, cpsr: U32)

  /** What init_task writes for the task at index i of the task table. */
  function InitContext(entry: U32, i: nat): Context
    requires i < MAX_TASK_NUMBER
  {
    Context(seq(13, k requires 0 <= k < 13 => k), TASK_STACK_BASE_ADDRESS - STACK_SIZE * i, 0, entry, CPSR_MODE_USER)
  }

  /** ready: the ring buffer from buffer_start to buffer_end; saved: the task table up to
      task_count; cpu: the user registers; entries: the entry points tasks were made with. */
  datatype Kernel = Kernel(ready: seq<nat>, current: Option<nat>, saved: seq<Context>, cpu: Context,
                           running: bool, entries: seq<U32>)

  datatype Event =
    | Add(entry: U32, privileged: bool)       // add_task
    | Start                                   // start_scheduler
    | Interrupt(timer: bool)                  // an IRQ, with or without a call of schedule
    | Execute(instruction: Context -> Context)  // the current task executes

  /** ring_buffer_insert drops the task when 15 are in the ring. */
  function Insert(q: seq<nat>, t: nat): seq<nat> {
    if |q| < MAX_TASK_NUMBER - 1 then q + [t] else q
  }

  predicate InRange(k: Kernel) {
    && |k.saved| == |k.entries| <= MAX_TASK_NUMBER
    && (forall j :: 0 <= j < |k.ready| ==> k.ready[j] < |k.saved|)
    && (k.running <==> k.current.Some?)
    && (k.current.Some? ==> k.current.value < |k.saved|)
  }

  predicate Possible(k: Kernel, e: Event) {
    match e
    case Add(_, _) => true
    case Start => k.running || k.ready != []
    case Interrupt(_) => k.running
    case Execute(_) => k.running
  }

  function Schedule(k: Kernel): Kernel
    requires InRange(k) && k.running
  {
    var q := Insert(k.ready, k.current.value);
    k.(current := Some(q[0]), ready := q[1..])
  }

  function Step(k: Kernel, e: Event): Kernel
    requires InRange(k) && Possible(k, e)
  {
    match e
    case Add(entry, privileged) =>
      if !privileged || |k.saved| >= MAX_TASK_NUMBER then k
      else k.(saved := k.saved + [InitContext(entry, |k.saved|)], entries := k.entries + [entry],
              ready := Insert(k.ready, |k.saved|))
    case Start =>
      if k.running then k
      else k.(current := Some(k.ready[0]), ready := k.ready[1..], running := true, cpu := k.saved[k.ready[0]])
    case Interrupt(timer) =>
      var s := k.(saved := k.saved[k.current.value := k.cpu]);
      var s' := if timer then Schedule(s) else s;
      s'.(cpu := s'.saved[s'.current.value])
    case Execute(f) =>
      k.(cpu := f(k.cpu))
  }

  /** The kernel before the first add_task. */
  predicate Boot(k: Kernel) {
    k.ready == [] && k.current == None && k.saved == [] && k.entries == [] && !k.running
  }

  ghost function After(k: Kernel, events: seq<Event>): Kernel {
    if events == [] then k
    else
      var s := After(k, events[..|events| - 1]);
      var e := events[|events| - 1];
      if InRange(s) && Possible(s, e) then Step(s, e) else s
  }

  /** Each of the events is possible when it happens. */
  ghost predicate History(k: Kernel, events: seq<Event>) {
    events == [] ||
    (History(k, events[..|events| - 1]) && Possible(After(k, events[..|events| - 1]), events[|events| - 1]))
  }

  lemma {:induction false} OneMore(k: Kernel, events: seq<Event>, e: Event)
    requires InRange(After(k, events)) && Possible(After(k, events), e)
    ensures After(k, events + [e]) == Step(After(k, events), e)
    ensures History(k, events + [e]) <==> History(k, events)
  {
    assert (events + [e])[..|events|] == events;
  }

  // ------------------------------------------------------------ invariants

  ghost predicate NoDuplicates(k: Kernel) {
    && (forall i, j :: 0 <= i < j < |k.ready| ==> k.ready[i] != k.ready[j])
    && (k.current.Some? ==> k.current.value !in k.ready)
  }

  /** Every task made so far is current or ready. */
  ghost predicate NoneLost(k: Kernel) {
    forall t :: 0 <= t < |k.saved| ==> t in k.ready || k.current == Some(t)
  }

  function Held(k: Kernel): int {
    |k.ready| + if k.running then 1 else 0
  }

  ghost predicate Inv(k: Kernel) {
    && InRange(k) && NoDuplicates(k) && |k.ready| <= MAX_TASK_NUMBER - 1
    && (|k.saved| <= 15 ==> NoneLost(k) && Held(k) == |k.saved|)
    && (|k.saved| == 16 ==> Held(k) >= 15)
  }

  lemma {:induction false} InsertKeeps(q: seq<nat>, t: nat)
    requires t !in q && forall i, j :: 0 <= i < j < |q| ==> q[i] != q[j]
    ensures forall i, j :: 0 <= i < j < |Insert(q, t)| ==> Insert(q, t)[i] != Insert(q, t)[j]
    ensures forall x :: x in Insert(q, t) <==> x in q || (x == t && |q| < MAX_TASK_NUMBER - 1)
  {
  }

  lemma {:induction false} HeadAndTail(q: seq<nat>)
    requires q != [] && forall i, j :: 0 <= i < j < |q| ==> q[i] != q[j]
    ensures q[0] !in q[1..]
    ensures forall x :: x in q <==> x == q[0] || x in q[1..]
    ensures forall i, j :: 0 <= i < j < |q[1..]| ==> q[1..][i] != q[1..][j]
  {
    assert q == [q[0]] + q[1..];
  }

  lemma {:induction false} ScheduleKeepsInv(k: Kernel)
    requires Inv(k) && k.running
    ensures Inv(Schedule(k))
  {
    InsertKeeps(k.ready, k.current.value);
    HeadAndTail(Insert(k.ready, k.current.value));
  }

  lemma {:induction false} AddKeepsInv(k: Kernel, e: Event)
    requires Inv(k) && e.Add?
    ensures Inv(Step(k, e))
  {
    if |k.saved| !in k.ready {
      InsertKeeps(k.ready, |k.saved|);
    }
  }

  lemma {:induction false} StartKeepsInv(k: Kernel)
    requires Inv(k) && Possible(k, Start)
    ensures Inv(Step(k, Start))
  {
    if !k.running {
      HeadAndTail(k.ready);
    }
  }

  lemma {:induction false} StepKeepsInv(k: Kernel, e: Event)
    requires Inv(k) && Possible(k, e)
    ensures Inv(Step(k, e))
  {
    match e
    case Add(_, _) => AddKeepsInv(k, e);
    case Start => StartKeepsInv(k);
    case Interrupt(_) =>
      var s := k.(saved := k.saved[k.current.value := k.cpu]);
      assert Inv(s);
      ScheduleKeepsInv(s);
    case Execute(_) =>
  }

  lemma {:induction false} HistoryKeepsInv(k: Kernel, events: seq<Event>)
    requires Boot(k) && History(k, events)
    ensures Inv(After(k, events))
  {
    if events == [] {
    } else {
      HistoryKeepsInv(k, events[..|events| - 1]);
      StepKeepsInv(After(k, events[..|events| - 1]), events[|events| - 1]);
    }
  }

  // ---------------------------------------------------------- no task lost

  /** With at most 15 tasks, current_task and the ring are a duplicate-free arrangement of
      all tasks made so far, and current_task is never null once the scheduler runs. */
  lemma {:induction false} NoTaskLost(k: Kernel, events: seq<Event>)
    requires Boot(k) && History(k, events) && |After(k, events).saved| <= 15
    ensures var s := After(k, events);
      && NoDuplicates(s) && NoneLost(s)
      && (forall t :: t in s.ready || s.current == Some(t) ==> t < |s.saved|)
      && Held(s) == |s.saved| && (s.running <==> s.current.Some?)
  {
    HistoryKeepsInv(k, events);
  }

  lemma {:induction false} Below(n: nat) returns (all: set<nat>)
    ensures |all| == n && forall x: nat :: x in all <==> x < n
  {
    all := {};
    for i := 0 to n
      invariant |all| == i && forall x: nat :: x in all <==> x < i
    {
      all := all + {i};
    }
  }

  lemma {:induction false} SetOfSeq(q: seq<nat>) returns (all: set<nat>)
    ensures |all| <= |q| && forall x :: x in all <==> x in q
  {
    all := {};
    for i := 0 to |q|
      invariant |all| <= i && forall x :: x in all <==> x in q[..i]
    {
      assert q[..i + 1] == q[..i] + [q[i]];
      all := all + {q[i]};
    }
    assert q[..|q|] == q;
  }

  /** Fewer places than tasks: somebody is missing. */
  lemma {:induction false} SomeoneMissing(k: Kernel)
    requires k.running && k.current.Some? && |k.ready| + 1 < |k.saved|
    ensures !NoneLost(k)
  {
    if NoneLost(k) {
      var all := Below(|k.saved|);
      var there := SetOfSeq(k.ready + [k.current.value]);
      forall x | x in all ensures x in there { assert x in k.ready || k.current == Some(x); }
      CardinalityOfSubset(all, there);
    }
  }

  /** The bound of 15 is sharp: whenever schedule runs, every task is still there afterwards
      exactly if at most 15 were added. */
  lemma {:induction false} LostExactlyWithSixteen(k: Kernel, events: seq<Event>)
    requires Boot(k) && History(k, events) && After(k, events).running
    ensures var s := After(k, events);
      InRange(s) && (NoneLost(Step(s, Interrupt(true))) <==> |s.saved| <= 15)
  {
    HistoryKeepsInv(k, events);
    var s := After(k, events);
    StepKeepsInv(s, Interrupt(true));
    if |s.saved| == 16 {
      SomeoneMissing(Step(s, Interrupt(true)));
    }
  }

  /** n calls of add_task after boot. */
  function Adds(n: nat, entry: U32): seq<Event> {
    seq(n, _ => Add(entry, true))
  }

  lemma {:induction false} AfterAdds(k: Kernel, n: nat, entry: U32)
    requires Boot(k) && n <= MAX_TASK_NUMBER
    ensures History(k, Adds(n, entry))
    ensures var s := After(k, Adds(n, entry));
      && InRange(s) && !s.running && |s.saved| == n
      && |s.ready| == if n < MAX_TASK_NUMBER then n else MAX_TASK_NUMBER - 1
  {
    if n == 0 {
    } else {
      var before := Adds(n - 1, entry);
      AfterAdds(k, n - 1, entry);
      assert Adds(n, entry) == before + [Add(entry, true)];
      OneMore(k, before, Add(entry, true));
      HistoryKeepsInv(k, before);
      OneMoreAdded(After(k, before), n - 1, entry);
    }
  }

  lemma {:induction false} OneMoreAdded(k: Kernel, n: nat, entry: U32)
    requires Inv(k) && !k.running && |k.saved| == |k.ready| == n < MAX_TASK_NUMBER
    ensures var s := Step(k, Add(entry, true));
      && InRange(s) && !s.running && |s.saved| == n + 1
      && |s.ready| == if n + 1 < MAX_TASK_NUMBER then n + 1 else MAX_TASK_NUMBER - 1
  {
    AddKeepsInv(k, Add(entry, true));
  }

  /** Sixteen successful calls of add_task, a start, and one timer interrupt: a task is gone. */
  lemma {:induction false} SixteenTasksLoseOne(k: Kernel, entry: U32)
    requires Boot(k)
    ensures var events := Adds(16, entry) + [Start];
      && History(k, events) && |After(k, events).saved| == 16 && After(k, events).running
      && InRange(After(k, events)) && !NoneLost(Step(After(k, events), Interrupt(true)))
  {
    AfterAdds(k, 16, entry);
    OneMore(k, Adds(16, entry), Start);
    LostExactlyWithSixteen(k, Adds(16, entry) + [Start]);
  }

  // ------------------------------------------------------------ round robin

  /** How many of the events call schedule. */
  function Schedules(events: seq<Event>): nat {
    if events == [] then 0
    else Schedules(events[..|events| - 1]) + if events[|events| - 1] == Interrupt(true) then 1 else 0
  }

  lemma {:induction false} LastOfMore(events: seq<Event>, more: seq<Event>)
    requires more != []
    ensures var all, n := events + more, |more| - 1;
      && all != [] && all[..|all| - 1] == events + more[..n] && all[|all| - 1] == more[n]
  {
  }

  /** A further history, from a state that is not the first. */
  lemma {:induction false} AfterMore(k: Kernel, events: seq<Event>, more: seq<Event>)
    ensures After(k, events + more) == After(After(k, events), more)
    ensures History(k, events + more) ==> History(k, events) && History(After(k, events), more)
    decreases |more|
  {
    if more == [] {
      assert events + more == events;
    } else {
      LastOfMore(events, more);
      AfterMore(k, events, more[..|more| - 1]);
    }
  }

  lemma {:induction false} MovesUp(k: Kernel, e: Event, t: nat, p: nat)
    requires Inv(k) && Possible(k, e) && k.running && p < |k.ready| && k.ready[p] == t
    ensures Step(k, e).running && |k.saved| <= |Step(k, e).saved|
    ensures e != Interrupt(true) ==> p < |Step(k, e).ready| && Step(k, e).ready[p] == t
    ensures e == Interrupt(true) && p > 0 ==> p - 1 < |Step(k, e).ready| && Step(k, e).ready[p - 1] == t
    ensures e == Interrupt(true) && p == 0 ==> Step(k, e).current == Some(t)
  {
  }

  lemma {:induction false} OneStepCloser(m: Kernel, e: Event, t: nat, p: nat)
    requires Inv(m) && m.running && p < |m.ready| && m.ready[p] == t
    requires Possible(m, e) && (e == Interrupt(true) ==> p > 0)
    ensures Inv(Step(m, e)) && Step(m, e).running
    ensures var q := if e == Interrupt(true) then p - 1 else p;
      q < |Step(m, e).ready| && Step(m, e).ready[q] == t
  {
    MovesUp(m, e, t, p);
    StepKeepsInv(m, e);
  }

  lemma {:induction false} Waiting(s: Kernel, more: seq<Event>, t: nat, p: nat)
    requires Inv(s) && s.running && p < |s.ready| && s.ready[p] == t
    requires History(s, more) && Schedules(more) <= p
    ensures var s' := After(s, more);
      && Inv(s') && s'.running
      && p - Schedules(more) < |s'.ready| && s'.ready[p - Schedules(more)] == t
    decreases |more|
  {
    if more == [] {
    } else {
      var n := |more| - 1;
      var m := After(s, more[..n]);
      Waiting(s, more[..n], t, p);
      OneStepCloser(m, more[n], t, p - Schedules(more[..n]));
      assert After(s, more) == Step(m, more[n]);
    }
  }

  lemma {:induction false} TasksOnlyAdded(s: Kernel, more: seq<Event>)
    requires Inv(s) && History(s, more)
    ensures Inv(After(s, more)) && |s.saved| <= |After(s, more).saved|
    ensures more != [] ==> |After(s, more[..|more| - 1]).saved| <= |After(s, more).saved|
    decreases |more|
  {
    if more == [] {
    } else {
      var n := |more| - 1;
      TasksOnlyAdded(s, more[..n]);
      StepKeepsInv(After(s, more[..n]), more[n]);
    }
  }

  /** The task at position p of the ring becomes current at exactly the (p+1)-th call of
      schedule, and not before, whatever is added, executed or interrupted meanwhile. This
      holds even of 16 tasks, for those that are still in the ring. */
  lemma {:induction false} RoundRobin(k: Kernel, events: seq<Event>, more: seq<Event>, t: nat, p: nat)
    requires Boot(k) && History(k, events + more)
    requires var s := After(k, events); s.running && p < |s.ready| && s.ready[p] == t
    ensures Schedules(more) <= p ==> After(k, events + more).current != Some(t)
    ensures Schedules(more) == p + 1 && more[|more| - 1] == Interrupt(true) ==>
              After(k, events + more).current == Some(t)
  {
    AfterMore(k, events, more);
    HistoryKeepsInv(k, events);
    if Schedules(more) <= p {
      Waiting(After(k, events), more, t, p);
    } else if Schedules(more) == p + 1 && more[|more| - 1] == Interrupt(true) {
      FinalTurn(After(k, events), more, t, p);
    }
  }

  lemma {:induction false} FinalTurn(s: Kernel, more: seq<Event>, t: nat, p: nat)
    requires Inv(s) && s.running && p < |s.ready| && s.ready[p] == t && History(s, more)
    requires more != [] && Schedules(more) == p + 1 && more[|more| - 1] == Interrupt(true)
    ensures After(s, more).current == Some(t)
  {
    var before := more[..|more| - 1];
    Waiting(s, before, t, p);
    MovesUp(After(s, before), Interrupt(true), t, 0);
  }

  /** A task preempted while n tasks exist runs again at exactly the (n-1)-th further call
      of schedule; alone, it simply goes on. */
  lemma {:induction false} PreemptedTaskReturns(k: Kernel, events: seq<Event>, more: seq<Event>, t: nat)
    requires Boot(k) && History(k, events + [Interrupt(true)] + more)
    requires |After(k, events).saved| <= 15
    requires After(k, events).running && After(k, events).current == Some(t)
    ensures var n := |After(k, events).saved|;
            var s' := After(k, events + [Interrupt(true)] + more);
      && (n == 1 && more == [] ==> s'.current == Some(t))
      && (n > 1 && Schedules(more) < n - 1 ==> s'.current != Some(t))
      && (n > 1 && Schedules(more) == n - 1 && more[|more| - 1] == Interrupt(true) ==> s'.current == Some(t))
  {
    var once := events + [Interrupt(true)];
    AfterMore(k, once, more);
    HistoryKeepsInv(k, events);
    AfterMore(k, events, [Interrupt(true)]);
    OneMore(k, events, Interrupt(true));
    var n := |After(k, events).saved|;
    if n > 1 {
      RoundRobin(k, once, more, t, n - 2);
    }
  }

  // -------------------------------------------------------------- isolation

  /** The registers as task t would see them if it ran now. */
  function ContextOf(k: Kernel, t: nat): Context
    requires InRange(k) && t < |k.saved|
  {
    if k.current == Some(t) then k.cpu else k.saved[t]
  }

  /** The instructions task t itself executed during the events, in order. */
  ghost function Executed(k: Kernel, events: seq<Event>, t: nat): seq<Context -> Context> {
    if events == [] then []
    else
      var before := events[..|events| - 1];
      var e := events[|events| - 1];
      Executed(k, before, t) + if e.Execute? && After(k, before).current == Some(t) then [e.instruction] else []
  }

  ghost function Fold(instructions: seq<Context -> Context>, c: Context): Context {
    if instructions == [] then c
    else instructions[|instructions| - 1](Fold(instructions[..|instructions| - 1], c))
  }

  lemma {:induction false} FoldOneMore(fs: seq<Context -> Context>, f: Context -> Context, c: Context)
    ensures Fold(fs + [f], c) == f(Fold(fs, c))
  {
    assert (fs + [f])[..|fs|] == fs;
  }

  /** An event changes nobody's registers but those of the task that executes, and makes
      new tasks with their initial registers. */
  lemma {:induction false} OneStepIsolation(k: Kernel, e: Event, t: nat)
    requires Inv(k) && Possible(k, e) && Inv(Step(k, e)) && t < |Step(k, e).saved|
    ensures t < |k.saved| ==>
              && Step(k, e).entries[t] == k.entries[t]
              && ContextOf(Step(k, e), t) ==
                 if e.Execute? && k.current == Some(t) then e.instruction(ContextOf(k, t)) else ContextOf(k, t)
    ensures t >= |k.saved| ==> ContextOf(Step(k, e), t) == InitContext(Step(k, e).entries[t], t)
  {
    if e.Interrupt? {
      InterruptIsolation(k, e, t);
    }
  }

  lemma {:induction false} InterruptIsolation(k: Kernel, e: Event, t: nat)
    requires Inv(k) && Possible(k, e) && e.Interrupt? && Inv(Step(k, e)) && t < |k.saved|
    ensures |Step(k, e).saved| == |k.saved| && Step(k, e).entries == k.entries
    ensures ContextOf(Step(k, e), t) == ContextOf(k, t)
  {
  }

  // ------------------------------------------------- what add_task makes

  /** The contexts that calls of add_task put into the task table, in order, and the entry
      points they were given. */
  ghost function Made(k: Kernel, events: seq<Event>): seq<Context> {
    if events == [] then []
    else
      var before := events[..|events| - 1];
      var b, s := After(k, before), After(k, events);
      Made(k, before) + if |s.saved| > |b.saved| then [s.saved[|b.saved|]] else []
  }

  ghost function Given(k: Kernel, events: seq<Event>): seq<U32> {
    if events == [] then []
    else
      var before, e := events[..|events| - 1], events[|events| - 1];
      Given(k, before) + if e.Add? && |After(k, events).saved| > |After(k, before).saved| then [e.entry] else []
  }

  lemma {:induction false} StepMakes(k: Kernel, e: Event)
    requires Inv(k) && Possible(k, e)
    ensures var s := Step(k, e);
      if |s.saved| > |k.saved| then
        e.Add? && |s.saved| == |k.saved| + 1 <= 16 && s.entries == k.entries + [e.entry]
        && s.saved[|k.saved|] == InitContext(e.entry, |k.saved|)
      else |s.saved| == |k.saved| && s.entries == k.entries
  {
  }

  ghost predicate AsInitialised(made: seq<Context>, entries: seq<U32>) {
    |made| == |entries| <= 16 && forall i :: 0 <= i < |entries| ==> made[i] == InitContext(entries[i], i)
  }

  lemma {:induction false} OneMoreInitialised(made: seq<Context>, entries: seq<U32>, entry: U32)
    requires AsInitialised(made, entries) && |made| < 16
    ensures AsInitialised(made + [InitContext(entry, |made|)], entries + [entry])
  {
  }

  lemma {:induction false} MadeAre(k: Kernel, events: seq<Event>)
    requires Boot(k) && History(k, events)
    ensures var s := After(k, events);
      InRange(s) && Given(k, events) == s.entries && AsInitialised(Made(k, events), s.entries)
  {
    HistoryKeepsInv(k, events);
    if events == [] {
    } else {
      var before, e := events[..|events| - 1], events[|events| - 1];
      MadeAre(k, before);
      HistoryKeepsInv(k, before);
      StepMakes(After(k, before), e);
      if |After(k, events).saved| > |After(k, before).saved| {
        OneMoreInitialised(Made(k, before), After(k, before).entries, e.entry);
      } else {
        assert Made(k, before) + [] == Made(k, before) && Given(k, before) + [] == Given(k, before);
      }
    }
  }

  /** Every task starts at the entry point it was given, in user mode, with the numbers of the
      registers in the registers, and with a stack of 0x10000 bytes that no other task has. */
  lemma {:induction false} StacksApart(k: Kernel, events: seq<Event>, i: nat, j: nat)
    requires Boot(k) && History(k, events) && i < j < |After(k, events).saved|
    ensures |Given(k, events)| == |Made(k, events)| == |After(k, events).saved|
    ensures var a, b := Made(k, events)[i], Made(k, events)[j];
      && a.pc == Given(k, events)[i] && b.pc == Given(k, events)[j]
      && b.sp <= a.sp - 0x10000 && a.sp <= 0x3FE0000 && b.sp >= 0x10000
  {
    MadeAre(k, events);
    SpOf(Given(k, events)[i], i);
    SpOf(Given(k, events)[j], j);
    assert (j - i) * 0x10000 >= 0x10000;
  }

  lemma {:induction false} SpOf(entry: U32, i: nat)
    requires i < 16
    ensures InitContext(entry, i).sp == 0x3FE0000 - i * 0x10000
  {
  }

  lemma {:induction false} StartsAs(k: Kernel, events: seq<Event>, i: nat)
    requires Boot(k) && History(k, events) && i < |After(k, events).saved|
    ensures |Given(k, events)| == |Made(k, events)| == |After(k, events).saved|
    ensures var c := Made(k, events)[i];
      && c.pc == Given(k, events)[i] && c.sp == 0x3FE0000 - i * 0x10000 && c.lr == 0 && c.cpsr == 0x10
      && forall r :: 0 <= r <= 12 ==> c.r[r] == r
  {
    MadeAre(k, events);
    SpOf(Given(k, events)[i], i);
  }

  /** Each task's registers are at all times what its own instructions alone make of the
      registers add_task gave it, however often it was interrupted, switched away from
      and switched back to, and whatever the other tasks did. */
  lemma {:induction false} TaskIsolation(k: Kernel, events: seq<Event>, t: nat)
    requires Boot(k) && History(k, events) && t < |After(k, events).saved|
    ensures InRange(After(k, events)) && t < |Made(k, events)|
    ensures ContextOf(After(k, events), t) == Fold(Executed(k, events, t), Made(k, events)[t])
  {
    MadeAre(k, events);
    FoldOfExecuted(k, events, t);
  }

  lemma {:induction false} FoldOfExecuted(k: Kernel, events: seq<Event>, t: nat)
    requires Boot(k) && History(k, events) && t < |After(k, events).saved|
    ensures var s := After(k, events);
      && InRange(s) && t < MAX_TASK_NUMBER
      && ContextOf(s, t) == Fold(Executed(k, events, t), InitContext(s.entries[t], t))
  {
    HistoryKeepsInv(k, events);
    if events == [] {
    } else {
      var before := events[..|events| - 1];
      var e := events[|events| - 1];
      var b := After(k, before);
      HistoryKeepsInv(k, before);
      OneStepIsolation(b, e, t);
      if t < |b.saved| {
        FoldOfExecuted(k, before, t);
        if e.Execute? && b.current == Some(t) {
          FoldOneMore(Executed(k, before, t), e.instruction, InitContext(b.entries[t], t));
        } else {
          assert Executed(k, events, t) == Executed(k, before, t);
        }
      } else {
        NotYetMade(k, before, t);
      }
    }
  }

  lemma {:induction false} NotYetMade(k: Kernel, events: seq<Event>, t: nat)
    requires Boot(k) && History(k, events) && t >= |After(k, events).saved|
    ensures Executed(k, events, t) == []
  {
    if events == [] {
    } else {
      var before := events[..|events| - 1];
      HistoryKeepsInv(k, before);
      StepKeepsInv(After(k, before), events[|events| - 1]);
      NotYetMade(k, before, t);
    }
  }
}
