/** The scheduler's ring buffer and task table, and the register moves of the interrupt
    handler. Every operation does to this machine what its event does in Scheduler. */
module ContextSwitch {
  import opened Words
  import opened Collections
  import opened Scheduler

  const EPERMISSION := 1
  const ETOOMANYTASKS := 2
  const CPSR_IRQ := 0x92        // IRQ mode, interrupts disabled

  /** A `task_t *`. */
  datatype Pointer = Null | TaskAt(i: nat)

  /** A `task_t`: reg[0..12], sp, lr, pc, cpsr, one word each. */
  type TaskStruct = w: seq<U32> | |w| == 17 witness [0, 0, 0, 0, 0, 0, 0, 0, 0, 0, 0, 0, 0, 0, 0, 0, 0]

  function Decode(w: TaskStruct): Context {
    Context(w[..13], w[13], w[14], w[15], w[16])
  }

  function Count(start: nat, end: nat): nat
    requires start < MAX_TASK_NUMBER && end < MAX_TASK_NUMBER
  {
    (end + MAX_TASK_NUMBER - start) % MAX_TASK_NUMBER
  }

  /** The slot k places after buffer_start. */
  function Slot(start: nat, k: nat): nat {
    (start + k) % MAX_TASK_NUMBER
  }

  /** The ring from buffer_start to buffer_end holds the queue q. */
  ghost predicate RingHolds(ring: seq<Pointer>, start: nat, end: nat, q: seq<nat>) {
    && |ring| == MAX_TASK_NUMBER && start < MAX_TASK_NUMBER && end < MAX_TASK_NUMBER
    && |q| == Count(start, end)
    && forall k :: 0 <= k < |q| ==> ring[Slot(start, k)] == TaskAt(q[k])
  }

  lemma {:induction false} SlotsDiffer(start: nat, j: nat, k: nat)
    requires start < MAX_TASK_NUMBER && j < k < MAX_TASK_NUMBER
    ensures Slot(start, j) != Slot(start, k)
  {
  }

  lemma {:induction false} EndSlot(start: nat, end: nat)
    requires start < MAX_TASK_NUMBER && end < MAX_TASK_NUMBER
    ensures Count(start, end) < MAX_TASK_NUMBER && Slot(start, Count(start, end)) == end
    ensures Slot(end, 1) != start ==> Count(start, Slot(end, 1)) == Count(start, end) + 1
    ensures Slot(end, 1) == start <==> Count(start, end) == MAX_TASK_NUMBER - 1
  {
  }

  lemma {:induction false} StartSlot(start: nat, end: nat)
    requires start < MAX_TASK_NUMBER && end < MAX_TASK_NUMBER
    ensures start == end <==> Count(start, end) == 0
    ensures start != end ==> Count(Slot(start, 1), end) == Count(start, end) - 1
  {
  }

  lemma {:induction false} RingInsert(ring: seq<Pointer>, start: nat, end: nat, q: seq<nat>, t: nat)
    requires RingHolds(ring, start, end, q) && Slot(end, 1) != start
    ensures RingHolds(ring[end := TaskAt(t)], start, Slot(end, 1), q + [t])
  {
    EndSlot(start, end);
    forall k | 0 <= k < |q| ensures Slot(start, k) != end { SlotsDiffer(start, k, |q|); }
  }

  lemma {:induction false} RingRemove(ring: seq<Pointer>, start: nat, end: nat, q: seq<nat>)
    requires RingHolds(ring, start, end, q) && start != end
    ensures q != [] && ring[start] == TaskAt(q[0])
    ensures RingHolds(ring, Slot(start, 1), end, q[1..])
  {
    StartSlot(start, end);
    assert Slot(start, 0) == start;
    var q' := q[1..];
    forall k | 0 <= k < |q'| ensures ring[Slot(Slot(start, 1), k)] == TaskAt(q'[k]) {
      SlotOfSlot(start, k);
      assert ring[Slot(start, k + 1)] == TaskAt(q[k + 1]);
    }
  }

  lemma {:induction false} SlotOfSlot(start: nat, k: nat)
    ensures Slot(Slot(start, 1), k) == Slot(start, k + 1)
  {
  }

  class Machine {
    const tasks: array<TaskStruct>
    const ring: array<Pointer>
    var bufferStart: nat
    var bufferEnd: nat
    var taskCount: nat
    var isRunning: bool
    var current: Pointer
    var errno: int
    var clock: nat

    // user registers, and those banked for IRQ mode
    var r: Registers
    var sp: U32
    var lr: U32
    var pc: U32
    var cpsr: U32
    var lrIrq: U32
    var spsr: U32
    var irqStack: seq<U32>     // top first

    ghost var ready: seq<nat>
    ghost var entries: seq<U32>

    ghost function View(): Kernel
      reads this, tasks
      requires taskCount <= tasks.Length
    {
      Kernel(ready, if current.Null? then None else Some(current.i),
             seq(taskCount, i requires 0 <= i < taskCount && taskCount <= tasks.Length reads this, tasks => Decode(tasks[i])),
             Context(r, sp, lr, pc, cpsr), isRunning, entries)
    }

    ghost predicate Valid()
      reads this, tasks, ring
    {
      && tasks.Length == ring.Length == MAX_TASK_NUMBER
      && taskCount <= MAX_TASK_NUMBER
      && RingHolds(ring[..], bufferStart, bufferEnd, ready)
      && InRange(View())
    }

    /** The zero-initialised statics. */
    constructor ()
      ensures Valid() && Boot(View()) && irqStack == []
    {
      tasks := new TaskStruct[MAX_TASK_NUMBER];
      ring := new Pointer[MAX_TASK_NUMBER](i => Null);
      bufferStart, bufferEnd, taskCount, isRunning, current, errno, clock := 0, 0, 0, false, Null, 0, 0;
      r, sp, lr, pc, cpsr, lrIrq, spsr, irqStack := *, *, *, *, *, *, *, [];
      ready, entries := [], [];
    }

    // ------------------------------------------------------------ the ring

    method RingBufferInsert(task: nat)
      requires Valid()
      modifies this`bufferEnd, this`ready, ring
      ensures RingHolds(ring[..], bufferStart, bufferEnd, ready)
      ensures ready == Insert(old(ready), task)
    {
      EndSlot(bufferStart, bufferEnd);
      var newEnd := (bufferEnd + 1) % MAX_TASK_NUMBER;
      if newEnd != bufferStart {
        RingInsert(ring[..], bufferStart, bufferEnd, ready, task);
        ring[bufferEnd] := TaskAt(task);
        bufferEnd := newEnd;
        ready := ready + [task];
      }
    }

    method RingBufferRemove() returns (task: Pointer)
      requires RingHolds(ring[..], bufferStart, bufferEnd, ready)
      modifies this`bufferStart, this`ready
      ensures RingHolds(ring[..], bufferStart, bufferEnd, ready)
      ensures old(ready) == [] ==> task == Null && ready == []
      ensures old(ready) != [] ==> task == TaskAt(old(ready)[0]) && ready == old(ready)[1..]
    {
      StartSlot(bufferStart, bufferEnd);
      if bufferStart == bufferEnd {
        return Null;
      }
      RingRemove(ring[..], bufferStart, bufferEnd, ready);
      task := ring[bufferStart];
      bufferStart := (bufferStart + 1) % MAX_TASK_NUMBER;
      ready := ready[1..];
    }

    // ------------------------------------------------------------ add_task

    method InitTask(task: nat, entrypoint: U32, stackbase: U32)
      requires task < tasks.Length
      modifies tasks
      ensures tasks[task][..13] == seq(13, k requires 0 <= k < 13 => k)
      ensures tasks[task][13..] == [stackbase, 0, entrypoint, CPSR_MODE_USER]
      ensures forall i :: 0 <= i < tasks.Length && i != task ==> tasks[i] == old(tasks[i])
    {
      for i := 0 to 13
        invariant forall k :: 0 <= k < i ==> tasks[task][k] == k
        invariant forall i :: 0 <= i < tasks.Length && i != task ==> tasks[i] == old(tasks[i])
      {
        tasks[task] := tasks[task][i := i];
      }
      tasks[task] := tasks[task][13 := stackbase];
      tasks[task] := tasks[task][14 := 0];
      tasks[task] := tasks[task][14 := 0];
      tasks[task] := tasks[task][15 := entrypoint];
      tasks[task] := tasks[task][16 := CPSR_MODE_USER];
    }

    method AddTask(entrypoint: U32, privileged: bool) returns (code: int)
      requires Valid()
      modifies this, tasks, ring
      ensures Valid() && View() == Step(old(View()), Add(entrypoint, privileged))
      ensures !privileged || old(taskCount) >= 16 ==> View() == old(View())
      ensures privileged && old(taskCount) < 16 ==>
                && taskCount == old(taskCount) + 1
                && View().saved[old(taskCount)].pc == entrypoint
                && View().saved[old(taskCount)].sp == 0x3FE0000 - 0x10000 * old(taskCount)
      ensures code == if privileged && old(taskCount) < MAX_TASK_NUMBER then 0 else -1
      ensures errno == if !privileged then EPERMISSION
                       else if old(taskCount) >= MAX_TASK_NUMBER then ETOOMANYTASKS else old(errno)
    {
      if !privileged {
        errno := EPERMISSION;
        return -1;
      }
      if taskCount >= MAX_TASK_NUMBER {
        errno := ETOOMANYTASKS;
        return -1;
      }
      var stackbase := TASK_STACK_BASE_ADDRESS - STACK_SIZE * taskCount;
      InitTask(taskCount, entrypoint, stackbase);
      assert Decode(tasks[taskCount]) == InitContext(entrypoint, taskCount);
      assert View() == old(View());
      RingBufferInsert(taskCount);
      taskCount := taskCount + 1;
      entries := entries + [entrypoint];
      assert View().saved == old(View()).saved + [InitContext(entrypoint, taskCount - 1)];
      return 0;
    }

    // -------------------------------------------------- schedule and start

    method ScheduleTask()
      requires Valid() && isRunning
      modifies this`current, this`bufferStart, this`bufferEnd, this`ready, ring
      ensures Valid()
      ensures var q := Insert(old(ready), old(current).i); current == TaskAt(q[0]) && ready == q[1..]
    {
      RingBufferInsert(current.i);
      current := RingBufferRemove();
    }

    method LoadCurrentTaskState()
      requires Valid() && current.TaskAt?
      modifies this`r, this`sp, this`lr, this`pc, this`cpsr, this`spsr, this`lrIrq
      ensures Valid() && View() == old(View()).(cpu := View().saved[current.i])
    {
      var r0 := current.i;
      spsr := tasks[r0][16];
      r := tasks[r0][0..13];
      sp := tasks[r0][13];
      lr := tasks[r0][14];
      pc, cpsr := tasks[r0][15], spsr;
    }

    /** start_scheduler. Without a task it leaves a null current_task behind, and the load that
        follows goes through the null pointer: the fault. */
    method StartScheduler() returns (fault: bool)
      requires Valid()
      modifies this
      ensures fault <==> !old(isRunning) && old(ready) == []
      ensures !fault ==> Valid() && View() == Step(old(View()), Start)
      ensures !fault && !old(isRunning) ==> current == TaskAt(old(ready)[0]) && ready == old(ready)[1..]
      ensures fault ==> current.Null? && isRunning && ready == [] && taskCount == old(taskCount)
    {
      fault := false;
      if !isRunning {
        current := RingBufferRemove();
        isRunning := true;
        if current.Null? {
          return true;
        }
        LoadCurrentTaskState();
      }
    }

    // ------------------------------------------------------- the interrupt

    /** The IRQ stack holds r0 to r2 and lr as irq_handler pushed them. */
    method SaveCurrentTaskState()
      requires Valid() && current.TaskAt? && |irqStack| >= 4
      modifies tasks
      ensures Decode(tasks[current.i]) ==
              Context(irqStack[..3] + r[3..], sp, lr, (irqStack[3] - 4) % TWO_32, spsr)
      ensures forall i :: 0 <= i < tasks.Length && i != current.i ==> tasks[i] == old(tasks[i])
    {
      var r2 := current.i;
      tasks[r2] := tasks[r2][0 := irqStack[0]];
      tasks[r2] := tasks[r2][1 := irqStack[1]];
      tasks[r2] := tasks[r2][2 := irqStack[2]];
      for i := 3 to 13
        invariant forall k :: 0 <= k < i ==> tasks[r2][k] == if k < 3 then irqStack[k] else r[k]
        invariant forall i :: 0 <= i < tasks.Length && i != r2 ==> tasks[i] == old(tasks[i])
      {
        tasks[r2] := tasks[r2][i := r[i]];
      }
      ghost var low := tasks[r2][..13];
      assert low == irqStack[..3] + r[3..];
      tasks[r2] := tasks[r2][13 := sp];
      tasks[r2] := tasks[r2][14 := lr];
      tasks[r2] := tasks[r2][15 := (irqStack[3] - 4) % TWO_32];
      tasks[r2] := tasks[r2][16 := spsr];
      assert tasks[r2][..13] == low;
    }

    /** irq_handler_timer keeps r0 to r2 and lr for its caller and calls schedule. */
    method IrqHandlerTimer()
      requires Valid() && isRunning
      modifies this`r, this`lrIrq, this`irqStack, this`current, this`bufferStart, this`bufferEnd, this`ready, ring
      ensures Valid() && irqStack == old(irqStack)
      ensures var q := Insert(old(ready), old(current).i); current == TaskAt(q[0]) && ready == q[1..]
    {
      irqStack := [r[0], r[1], r[2], lrIrq] + irqStack;
      ScheduleTask();
      Clobber();
      r, lrIrq := r[0 := irqStack[0]][1 := irqStack[1]][2 := irqStack[2]], irqStack[3];
      irqStack := irqStack[4..];
    }

    /** handle_interrupt, by the bits of the status register: the packet handler, the timer
        and the clock, in this order. C code may change every low register and the banked
        link register, and leaves the stack as it found it. */
    method HandleInterrupt(pci3: bool, timer1: bool, timer3: bool)
      requires Valid() && isRunning
      modifies this`r, this`lrIrq, this`irqStack, this`current, this`bufferStart, this`bufferEnd, this`ready, this`clock, ring
      ensures Valid() && irqStack == old(irqStack)
      ensures timer1 ==>
        var q := Insert(old(ready), old(current).i); current == TaskAt(q[0]) && ready == q[1..]
      ensures !timer1 ==> current == old(current) && ready == old(ready)
      ensures clock == old(clock) + if timer3 then 1 else 0
    {
      if pci3 {
        Clobber();
      }
      if timer1 {
        IrqHandlerTimer();
      }
      if timer3 {
        clock := clock + 1;
      }
      Clobber();
    }

    /** What C code may do to the registers of the interrupted task and the banked lr. */
    method Clobber()
      modifies this`r, this`lrIrq
      ensures Valid() == old(Valid())
    {
      var anything: Registers := *;
      r := anything;
      lrIrq := *;
    }

    /** The processor takes an IRQ in user mode: it banks cpsr and the address four past the
        next instruction; then irq_handler pushes r0 to r2 and lr and saves the task. */
    method EnterIrq()
      requires Valid() && isRunning
      modifies this`lrIrq, this`spsr, this`cpsr, this`irqStack, tasks
      ensures Valid() && |irqStack| == |old(irqStack)| + 4 && irqStack[4..] == old(irqStack)
      ensures View().saved == old(View()).saved[current.i := old(View()).cpu]
    {
      ghost var cpu := View().cpu;
      lrIrq, spsr, cpsr := Add32(pc, 4), cpsr, CPSR_IRQ;
      irqStack := [r[0], r[1], r[2], lrIrq] + irqStack;
      SaveCurrentTaskState();
      assert irqStack[..3] + r[3..] == r;
      assert Decode(tasks[current.i]) == cpu;
    }

    /** irq_handler pops what it pushed and loads the current task. */
    method LeaveIrq()
      requires Valid() && current.TaskAt? && |irqStack| >= 4
      modifies this`r, this`sp, this`lr, this`pc, this`cpsr, this`spsr, this`lrIrq, this`irqStack
      ensures Valid() && View() == old(View()).(cpu := View().saved[current.i])
      ensures irqStack == old(irqStack)[4..]
    {
      r, lrIrq := r[0 := irqStack[0]][1 := irqStack[1]][2 := irqStack[2]], irqStack[3];
      irqStack := irqStack[4..];
      assert Valid() && View().saved == old(View()).saved;
      LoadCurrentTaskState();
    }

    /** irq_handler, from the exception to the resumption of current_task. */
    method IrqHandler(pci3: bool, timer1: bool, timer3: bool)
      requires Valid() && isRunning
      modifies this, tasks, ring
      ensures Valid() && View() == Step(old(View()), Interrupt(timer1))
      ensures irqStack == old(irqStack) && clock == old(clock) + if timer3 then 1 else 0
    {
      EnterIrq();
      ghost var saved := View().saved;
      HandleInterrupt(pci3, timer1, timer3);
      assert View().saved == saved;
      LeaveIrq();
    }

    /** One instruction of the current task. */
    method ExecuteInstruction(f: Context -> Context)
      requires Valid() && isRunning
      modifies this`r, this`sp, this`lr, this`pc, this`cpsr
      ensures Valid() && View() == Step(old(View()), Execute(f))
    {
      var c := f(Context(r, sp, lr, pc, cpsr));
      r, sp, lr, pc, cpsr := c.r, c.sp, c.lr, c.pc, c.cpsr;
    }
  }
}
