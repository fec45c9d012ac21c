/**
 * The kernel: a fixed table of MAX_TASKS task control blocks over four
 * statically sized stacks, task creation with a primed frame, the timer
 * ISR that switches tasks round-robin, the first dispatch, and the
 * monitor's watermark pass over the table.
 *
 * Stack pointers are offsets from the task's stack base: the pointer
 * `stack + k` of the header is the offset `k` here.
 */
module AsmOs {
  import opened Avr
  import opened RoundRobin
  import opened StackMonitor

  const MAX_TASKS := 4

  /** Sizes of stack0..stack3; stack4 sits beyond MAX_TASKS and is never bound. */
  const STACK_SIZES: seq<nat> := [128, 50, 128, 50]

  /** A task control block. `stack == null` for a slot no createTask has filled. */
  datatype Task = Task(sp: int, entry: word, stack: array?<byte>, stackSize: nat, highWaterMark: nat)

  /** A zero-initialised slot of the global table. */
  const EMPTY_TASK := Task(0, 0, null, 0, 0)

  /** The register file a never-run task starts from: all zero, SREG with I set. */
  const PRIMED_CONTEXT: Context := Context(ZeroRegisters(), SREG_I)

  function ZeroRegisters(): Registers { seq(32, _ => 0) }

  function PrimedFrame(pc: word): Frame
  {
    Frame(pc, PRIMED_CONTEXT)
  }

  function Sentinels(size: nat): seq<byte>
  {
    seq(size, _ => SENTINEL)
  }

  /** A stack of `size` bytes filled with the sentinel, with the frame `fr` at its top. */
  function FrameStack(size: nat, fr: Frame): seq<byte>
    requires size >= FRAME_BYTES
  {
    WriteFrame(Sentinels(size), size - 1, Encode(fr))
  }

  /** The stack createTask leaves behind for the entry point `pc`. */
  function PrimedStack(pc: word, size: nat): seq<byte>
    requires size >= FRAME_BYTES
  {
    FrameStack(size, PrimedFrame(pc))
  }

  /** The layout of a primed stack, byte by byte, from the top down. */
  function PrimedByte(pc: word, size: nat, a: nat): byte
  {
    if a == size - 1 then Lo(pc)
    else if a == size - 2 then Hi(pc)
    else if a == size - 3 then 0x00     // R0
    else if a == size - 4 then SREG_I   // SREG
    else if a >= size - FRAME_BYTES then 0x00  // R1..R31
    else SENTINEL
  }

  /** The bytes of a task's stack region (none for an empty slot). */
  function Contents(t: Task): seq<byte>
    requires t.stack == null || t.stackSize <= t.stack.Length
    reads t.stack
  {
    if t.stack == null then [] else t.stack[..t.stackSize]
  }

  /** A task after the monitor's pass: `highWaterMark` is what the scan of its region reports. */
  function Scanned(t: Task): Task
    requires t.stack == null || t.stackSize <= t.stack.Length
    reads t.stack
  {
    t.(highWaterMark := HighWaterMark(Contents(t)))
  }

  lemma PrimedFrameBytes(pc: word)
    ensures var f := Encode(PrimedFrame(pc));
      f[0] == Lo(pc) && f[1] == Hi(pc) && f[2] == 0x00 && f[3] == SREG_I
      && forall k :: 4 <= k < FRAME_BYTES ==> f[k] == 0x00
  {
  }

  /** A primed stack holds, from the top down: PC low, PC high, R0, SREG, R1..R31, then the sentinel. */
  lemma PrimedLayout(pc: word, size: nat)
    requires size >= FRAME_BYTES
    ensures |PrimedStack(pc, size)| == size
    ensures forall a :: 0 <= a < size ==> PrimedStack(pc, size)[a] == PrimedByte(pc, size, a)
  {
    PrimedFrameBytes(pc);
  }

  /**
   * The first dispatch: `sp + 33` is the R0 slot of a primed task, the 33
   * bytes skipped there are the primed register image, and the two bytes
   * `reti` pops next reassemble to the entry point, leaving the stack empty.
   */
  lemma StartOffset(pc: word, size: nat)
    requires size > FRAME_BYTES
    ensures var s, sp := PrimedStack(pc, size), size - FRAME_BYTES - 1;
      sp + REGISTER_BYTES == size - 3
      && ReadFrame(s, sp + REGISTER_BYTES, REGISTER_BYTES) == RegisterImage(PRIMED_CONTEXT)
      && Word(s[sp + REGISTER_BYTES + 1], s[sp + REGISTER_BYTES + 2]) == pc
      && sp + REGISTER_BYTES + 2 == size - 1
  {
    var s, sp := PrimedStack(pc, size), size - FRAME_BYTES - 1;
    var f := Encode(PrimedFrame(pc));
    ReadWritten(Sentinels(size), size - 1, f);
    ReadSplit(s, size - 1, 2, REGISTER_BYTES);
    assert ReadFrame(s, size - 1, FRAME_BYTES)[2..] == ReadFrame(s, size - 3, REGISTER_BYTES);
    assert f[2..] == RegisterImage(PRIMED_CONTEXT);
    WordSplit(pc);
  }

  /** The monitor reports exactly the 35 bytes of the primed frame for a task that never ran. */
  lemma PrimedWatermark(pc: word, size: nat)
    requires size >= FRAME_BYTES
    ensures HighWaterMark(PrimedStack(pc, size)) == FRAME_BYTES
  {
    var s := PrimedStack(pc, size);
    PrimedLayout(pc, size);
    WatermarkExact(s, size - FRAME_BYTES);
  }

  /**
   * Frame-shape equivalence: a task started from its primed frame (SP at the
   * top byte) and preempted at once is saved into exactly the bytes of the
   * primed frame, with its `sp` back at the primed value; the stack is then
   * the primed stack of the captured frame, which decodes back to it.
   */
  lemma PreemptedLooksPrimed(pc: word, size: nat, cpu: Cpu)
    requires size >= FRAME_BYTES && cpu.sp == size - 1
    ensures cpu.sp - FRAME_BYTES == size - FRAME_BYTES - 1
    ensures WriteFrame(PrimedStack(pc, size), cpu.sp, Encode(Saved(cpu))) == FrameStack(size, Saved(cpu))
    ensures Decode(ReadFrame(FrameStack(size, Saved(cpu)), size - 1, FRAME_BYTES)) == Saved(cpu)
  {
    var fr := Saved(cpu);
    WriteOver(Sentinels(size), size - 1, Encode(PrimedFrame(pc)), Encode(fr));
    ReadWritten(Sentinels(size), size - 1, Encode(fr));
    FrameRoundTrip(fr);
  }

  /**
   * The ISR's restore path on a stack createTask left behind: the pops and
   * `reti` from the primed `sp` start the task at its entry point with
   * R0..R31 zero, SREG = 0x80 and SP at the top byte of its stack.
   */
  lemma PrimedDispatch(pc: word, size: nat)
    requires size > FRAME_BYTES
    ensures ResumeFrom(PrimedStack(pc, size), size - FRAME_BYTES - 1) == Cpu(pc, PRIMED_CONTEXT, size - 1)
  {
    ReadWritten(Sentinels(size), size - 1, Encode(PrimedFrame(pc)));
    FrameRoundTrip(PrimedFrame(pc));
  }

  /** `memset(stack, 0xAA, stackSize)`. */
  method Fill(mem: array<byte>, v: byte)
    modifies mem
    ensures mem[..] == seq(mem.Length, _ => v)
  {
    for j := 0 to mem.Length
      invariant forall k :: 0 <= k < j ==> mem[k] == v
    {
      mem[j] := v;
    }
  }

  /**
   * createTask's byte writes: fill the buffer with the sentinel, then write
   * PC low, PC high, R0 = 0, SREG = 0x80 and R1..R31 = 0 through a
   * post-decremented pointer that starts at the top byte.
   */
  method PrimeStack(stack: array<byte>, entry: word) returns (sp: int)
    requires stack.Length > FRAME_BYTES
    modifies stack
    ensures sp == stack.Length - FRAME_BYTES - 1
    ensures stack[..] == PrimedStack(entry, stack.Length)
  {
    var size := stack.Length;
    sp := size - 1;
    Fill(stack, SENTINEL);

    ghost var base := Sentinels(size);
    ghost var f := Encode(PrimedFrame(entry));
    PrimedFrameBytes(entry);
    assert stack[..] == WriteFrame(base, size - 1, f[..0]);
    WritePrefix(base, size - 1, f, 0);
    sp := Push(stack, sp, Lo(entry));
    WritePrefix(base, size - 1, f, 1);
    sp := Push(stack, sp, Hi(entry));
    WritePrefix(base, size - 1, f, 2);
    sp := Push(stack, sp, 0x00);     // R0
    WritePrefix(base, size - 1, f, 3);
    sp := Push(stack, sp, SREG_I);   // SREG
    for i := 1 to 32
      invariant sp == size - 4 - i
      invariant stack[..] == WriteFrame(base, size - 1, f[..i + 3])
    {
      WritePrefix(base, size - 1, f, i + 3);
      sp := Push(stack, sp, 0x00);
    }
    assert f[..FRAME_BYTES] == f;
  }

  class Kernel {
    const tasks: array<Task>
    /** stack0..stack3 */
    const stacks: seq<array<byte>>
    var currentTask: nat
    var taskCount: nat

    /** Slot `k` is empty, or bound to its own stack and the full size of it. */
    ghost predicate Bound(t: Task, k: nat)
      requires k < |stacks|
    {
      (t.stack == null && t.stackSize == 0)
      || (t.stack == stacks[k] && t.stackSize == stacks[k].Length)
    }

    /** stack0..stack3: four distinct buffers of the configured sizes. */
    ghost predicate Arena()
    {
      |stacks| == MAX_TASKS
      && (forall k :: 0 <= k < MAX_TASKS ==> stacks[k].Length == STACK_SIZES[k])
      && (forall k, l :: 0 <= k < l < MAX_TASKS ==> stacks[k] != stacks[l])
    }

    ghost predicate Valid()
      reads this, tasks
    {
      tasks.Length == MAX_TASKS && Arena()
      && taskCount <= MAX_TASKS
      && (currentTask == 0 || currentTask < taskCount)
      && forall k :: 0 <= k < MAX_TASKS ==> Bound(tasks[k], k)
    }

    /** Slot `i` has a bound stack with a whole frame just above its saved `sp`. */
    ghost predicate Resumable(i: nat)
      requires i < tasks.Length
      reads this, tasks
    {
      tasks[i].stack != null && -1 <= tasks[i].sp && tasks[i].sp + FRAME_BYTES < tasks[i].stack.Length
    }

    /** The control block createTask writes into slot `k`. */
    function PrimedTask(entry: word, k: nat): Task
      requires k < |stacks| && k < |STACK_SIZES|
    {
      var size := STACK_SIZES[k];
      Task(size - FRAME_BYTES - 1, entry, stacks[k], size, size)
    }

    /** The static arena and a zero-initialised table. */
    constructor ()
      ensures Valid() && taskCount == 0 && currentTask == 0
      ensures fresh(tasks) && forall k :: 0 <= k < MAX_TASKS ==> fresh(stacks[k])
      ensures forall k :: 0 <= k < MAX_TASKS ==> tasks[k] == EMPTY_TASK
      ensures forall k :: 0 <= k < MAX_TASKS ==> stacks[k][..] == seq(STACK_SIZES[k], _ => 0)
    {
      var s0 := new byte[128](_ => 0);
      var s1 := new byte[50](_ => 0);
      var s2 := new byte[128](_ => 0);
      var s3 := new byte[50](_ => 0);
      stacks := [s0, s1, s2, s3];
      tasks := new Task[MAX_TASKS](_ => EMPTY_TASK);
      currentTask, taskCount := 0, 0;
    }

    /**
     * createTask: bind slot `taskIndex` to its stack, fill the stack with the
     * sentinel and write the primed frame below its top. `ok` is false when
     * the header prints its diagnostic instead; nothing changes then. A slot
     * used before is overwritten and counted again.
     */
    method CreateTask(entry: word, taskIndex: nat) returns (ok: bool)
      requires Valid()
      modifies this, tasks, if taskIndex < MAX_TASKS then {stacks[taskIndex]} else {}
      ensures Valid()
      ensures ok == (taskIndex < MAX_TASKS && old(taskCount) < MAX_TASKS)
      ensures currentTask == old(currentTask)
      ensures !ok ==> taskCount == old(taskCount) && tasks[..] == old(tasks[..])
      ensures ok ==> taskCount == old(taskCount) + 1
      ensures ok ==> tasks[..] == old(tasks[..])[taskIndex := PrimedTask(entry, taskIndex)]
      ensures ok ==> stacks[taskIndex][..] == PrimedStack(entry, STACK_SIZES[taskIndex])
      ensures ok ==> 0 <= tasks[taskIndex].sp < tasks[taskIndex].stackSize && Resumable(taskIndex)
      ensures forall k :: 0 <= k < MAX_TASKS && !(ok && k == taskIndex) ==> stacks[k][..] == old(stacks[k][..])
    {
      if taskIndex < MAX_TASKS && taskCount < MAX_TASKS {
        var stack := stacks[taskIndex];
        var size := STACK_SIZES[taskIndex];
        tasks[taskIndex] := Task(size - 1, entry, stack, size, size);
        var sp := PrimeStack(stack, entry);
        tasks[taskIndex] := tasks[taskIndex].(sp := sp);
        taskCount := taskCount + 1;
        ok := true;
      } else {
        ok := false;
      }
    }

    /**
     * TIMER1_COMPA_vect as one atomic step. The core pushes the return
     * address and clears I; the ISR pushes R0, SREG, R1..R31, stores SP in
     * the running task's block, selects the next task round-robin, loads its
     * `sp` and pops the same 33 values in mirror order; `reti` pops the
     * return address and sets I.
     */
    method Tick(cpu: Cpu) returns (next: Cpu)
      requires Valid() && taskCount > 0
      requires tasks[currentTask].stack != null
      requires FRAME_BYTES - 1 <= cpu.sp < tasks[currentTask].stackSize
      requires cpu.ctx.sreg & SREG_I != 0
      requires NextIndex(currentTask, taskCount) == currentTask
            || Resumable(NextIndex(currentTask, taskCount))
      modifies this, tasks, stacks[currentTask]
      ensures Valid()
      ensures taskCount == old(taskCount)
      ensures currentTask == NextIndex(old(currentTask), taskCount)
      ensures tasks[..] == old(tasks[..])[old(currentTask) := old(tasks[currentTask]).(sp := cpu.sp - FRAME_BYTES)]
      ensures stacks[old(currentTask)][..]
           == WriteFrame(old(stacks[currentTask][..]), cpu.sp, Encode(Saved(cpu)))
      ensures forall k :: 0 <= k < MAX_TASKS && k != old(currentTask) ==> stacks[k][..] == old(stacks[k][..])
      ensures Resumable(currentTask)
      ensures next == ResumeFrom(stacks[currentTask][..], tasks[currentTask].sp)
      ensures taskCount == 1 ==> next == cpu
    {
      ghost var out, before := currentTask, tasks[..];
      var mem: array<byte> := tasks[currentTask].stack;
      ghost var s := mem[..];
      var sp := Preempt(mem, cpu);
      sp := Switch(sp);
      assert Resumable(currentTask) by {
        if currentTask != out {
          assert tasks[currentTask] == before[currentTask];
        }
      }
      next := Dispatch(tasks[currentTask].stack, sp);
      if taskCount == 1 {
        SwitchIsTransparent(s, cpu);
      }
    }

    /**
     * The ISR's three C statements: store SP in the running task's block,
     * advance `currentTask` round-robin, and load the new task's `sp`.
     */
    method Switch(sp: int) returns (sp': int)
      requires Valid() && taskCount > 0
      modifies this, tasks
      ensures Valid()
      ensures taskCount == old(taskCount)
      ensures currentTask == NextIndex(old(currentTask), taskCount)
      ensures tasks[..] == old(tasks[..])[old(currentTask) := old(tasks[currentTask]).(sp := sp)]
      ensures sp' == tasks[currentTask].sp
    {
      tasks[currentTask] := tasks[currentTask].(sp := sp);
      currentTask := (currentTask + 1) % taskCount;
      sp' := tasks[currentTask].sp;
    }

    /**
     * StartOS: SP := sp + 33 skips the saved register image, and `reti`
     * pops the return address. The registers keep the caller's values; I is set.
     */
    method StartOS(regs: Context) returns (cpu: Cpu)
      requires Valid() && currentTask < MAX_TASKS && Resumable(currentTask)
      ensures var t := tasks[currentTask];
        cpu == Resume(Frame(Word(t.stack[t.sp + REGISTER_BYTES + 1], t.stack[t.sp + REGISTER_BYTES + 2]), regs),
                      t.sp + FRAME_BYTES)
      ensures var t := tasks[currentTask];
        t.sp == t.stackSize - FRAME_BYTES - 1 && t.stack[..] == PrimedStack(t.entry, t.stackSize)
        ==> cpu.pc == t.entry && cpu.sp == t.stackSize - 1
    {
      var t := tasks[currentTask];
      cpu := Reti(t.stack, t.sp + REGISTER_BYTES, regs);
      if t.sp == t.stackSize - FRAME_BYTES - 1 && t.stack[..] == PrimedStack(t.entry, t.stackSize) {
        StartOffset(t.entry, t.stackSize);
      }
    }

    /**
     * The watermark pass of the monitor task: for every index below
     * `taskCount`, scan its stack from the base and store `stackSize - used`.
     * Stack bytes are only read.
     */
    method ScanStacks()
      requires Valid()
      modifies tasks
      ensures Valid()
      ensures forall i :: 0 <= i < MAX_TASKS ==>
        tasks[i] == if i < taskCount then Scanned(old(tasks[i])) else old(tasks[i])
    {
      for i := 0 to taskCount
        invariant Valid()
        invariant forall k :: 0 <= k < MAX_TASKS ==>
          tasks[k] == if k < i then Scanned(old(tasks[k])) else old(tasks[k])
      {
        var t := tasks[i];
        var used := 0;
        if t.stack != null {
          used := ScanUsed(t.stack, t.stackSize);
        }
        assert used == FirstUsed(Contents(t)) && used <= t.stackSize by {
          FirstUsedBound(Contents(t));
        }
        tasks[i] := t.(highWaterMark := t.stackSize - used);
        assert Bound(tasks[i], i);
      }
    }
  }
}
