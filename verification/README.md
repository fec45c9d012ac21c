# ThinASM_OS kernel core in Dafny

ThinASM_OS is a small preemptive kernel for the ATmega328P, written as one header.
It has a fixed table of four task control blocks. Each block is bound to a statically sized stack (128, 50, 128 and 50 bytes).
`createTask` fills a stack with the sentinel byte `0xAA` and writes a primed interrupt frame just below the top of the stack.
The Timer1 compare-match ISR is naked. It pushes R0, SREG and R1..R31 onto the running task's stack, stores SP in that task's block and selects the next task round-robin (`(currentTask + 1) % taskCount`). It then loads that task's SP, pops the 33 registers in mirror order and executes `reti`.
`StartOS` skips the 33 register bytes of the first task's frame and uses `reti` to jump to its entry point.
A monitor task scans every registered stack from its base for the first byte that is no longer the sentinel. It reports the stack depth that implies, and the uptime as hours, minutes and seconds.

The model has four modules:

- `Avr` (`avr.dfy`) is the machine layer.
  - Bytes are `bv8` and the program counter is `bv16`.
  - The downward-growing stack is an `array<byte>` with post-decrement push and pre-increment pop.
  - The 35-byte interrupt frame (PC low, PC high, R0, SREG, R1..R31, in push order) is encoded and decoded.
  - It covers the hardware's interrupt entry and `reti`, including the SREG I flag.
  - It also has the ISR's push and pop sequences as loops, with the round trip between them.
- `RoundRobin` (`round_robin.dfy`) is the selection rule and what it guarantees over a lap of ticks.
- `StackMonitor` (`stack_monitor.dfy`) has the sentinel scan as a loop, the high-water mark it yields and the uptime split.
- `AsmOs` (`asm_os.dfy`) is the kernel.
  - Task blocks are a datatype.
  - The global table, the four stacks, `currentTask` and `taskCount` are the fields of the class `Kernel`.
  - Its methods are `createTask`, the ISR as one atomic `Tick`, `StartOS` and the monitor's watermark pass.

Stack pointers are offsets from the task's stack base: the C pointer `stack + k` is the offset `k`.
The time source, the serial port and the timer registers are left out (see below).

## Model

| member | source | states |
|---|---|---|
| Avr.WordSplit | ASM_OS.h:34-36 | splitting the 16-bit entry address into low and high bytes and joining them again gives back the address |
| Avr.InterruptFlagRoundTrip | ASM_OS.h:51-52 | the SREG saved by the ISR has I cleared by interrupt entry; `reti` setting I again restores the running task's SREG exactly, when I was set |
| Avr.RegistersRoundTrip | ASM_OS.h:50-124 | decoding the 33 bytes pushed for R0, SREG, R1..R31 gives back the same register file |
| Avr.ImageRoundTrip | ASM_OS.h:50-124 | every 33-byte image is the push image of the register file it decodes to |
| Avr.FrameRoundTrip | ASM_OS.h:48-128 | decoding an encoded 35-byte interrupt frame gives back the return address and the registers |
| Avr.BytesRoundTrip | ASM_OS.h:48-128 | every 35-byte frame is the encoding of the frame it decodes to, so the encoding is a bijection |
| Avr.Push | ASM_OS.h:35 | writes the byte at SP, changes no other byte and decrements SP |
| Avr.Pop | ASM_OS.h:91 | increments SP and reads the byte there, leaving memory unchanged |
| Avr.InterruptEntry | ASM_OS.h:48 | the hardware pushes the return address low byte first, so the low byte sits at the old SP and the high byte at the byte below it, and SP drops by 2 |
| Avr.SaveRegisters | ASM_OS.h:50-83 | the 33 pushes leave exactly the register image of R0, SREG, R1..R31 below SP and lower SP by 33 |
| Avr.RestoreRegisters | ASM_OS.h:91-124 | the mirror pops return the register file decoded from the 33 bytes above SP and raise SP by 33 |
| Avr.Reti | ASM_OS.h:127 | pops the high byte then the low byte of the return address, jumps there and sets I in SREG |
| Avr.Preempt | ASM_OS.h:48-83 | interrupt entry plus the ISR's pushes write exactly the frame of the interrupted CPU, with I cleared, below its SP; SP drops by 35 |
| Avr.Dispatch | ASM_OS.h:90-127 | the ISR's pops and `reti` resume the CPU state decoded from the frame just above SP |
| Avr.SwitchIsTransparent | ASM_OS.h:48-128 | saving a running CPU and dispatching from the same stack and SP gives back that CPU unchanged: pc, every register, SREG and SP |
| RoundRobin.NextIndex | ASM_OS.h:87 | the next index is below `taskCount`, and is the current index plus one, wrapping to 0 after the last |
| RoundRobin.AfterOffset | ASM_OS.h:87 | within one lap of ticks the rotation is a plain offset from the start, wrapped once |
| RoundRobin.AfterInRange | ASM_OS.h:87 | every index selected after any number of ticks is a registered index |
| RoundRobin.FullLapReturns | ASM_OS.h:87 | after `taskCount` ticks the starting task runs again |
| RoundRobin.LapVisitsOnce | ASM_OS.h:87 | no task is selected twice within one lap |
| RoundRobin.LapVisitsAll | ASM_OS.h:87 | every registered index is selected within one lap, so no task starves |
| RoundRobin.RegistrationOrder | ASM_OS.h:87 | started at slot 0, tasks run in index order |
| StackMonitor.FirstUsedSpec | ASM_OS.h:171-178 | the scan's `used` is the first non-sentinel byte from the base with only sentinels below it, or 0 when the whole region still holds the sentinel |
| StackMonitor.ScanUsed | ASM_OS.h:171-178 | the loop with `break` computes exactly that first non-sentinel offset |
| StackMonitor.WatermarkBounds | ASM_OS.h:179 | a non-empty region reports between 1 and its size |
| StackMonitor.WatermarkUntouched | ASM_OS.h:179 | a region that holds only the sentinel reports its full size |
| StackMonitor.WatermarkCoversDeepest | ASM_OS.h:179 | any byte still changed at offset `d` is covered: the report is at least `size - d` |
| StackMonitor.WatermarkExact | ASM_OS.h:179 | when the lowest changed byte is at offset `d`, the report is exactly `size - d` |
| StackMonitor.UptimeOf | ASM_OS.h:158-166 | hours, minutes and seconds recombine to the whole seconds of the millisecond clock, with minutes and seconds below 60; a 32-bit clock gives at most 1193 hours |
| StackMonitor.UptimeUnique | ASM_OS.h:158-166 | that split is the only one with minutes and seconds below 60 |
| AsmOs.PrimedLayout | ASM_OS.h:32-41 | a primed stack holds PC low, PC high, R0 = 0, SREG = 0x80 and R1..R31 = 0 from the top down, and the sentinel everywhere below |
| AsmOs.StartOffset | ASM_OS.h:130-140 | on a primed stack `sp + 33` is the R0 slot, the 33 skipped bytes are the primed register image, and the two bytes `reti` pops are the entry address, leaving SP at the top byte |
| AsmOs.PrimedWatermark | ASM_OS.h:32-41 | for a task that has never run, the monitor reports exactly the 35 bytes of its primed frame |
| AsmOs.PreemptedLooksPrimed | ASM_OS.h:35-41 | a task preempted with SP at the top byte of its primed stack is saved into exactly the bytes of the primed frame, leaves `sp` at the primed value, and its frame decodes back to the captured state, so the two frames have the same shape |
| AsmOs.PrimedDispatch | ASM_OS.h:34-41 | the ISR's pops and `reti` (lines 91-127), run from the `sp` createTask leaves, start a never-run task at its entry point with R0..R31 = 0, SREG = 0x80 and SP at the top byte of its stack; this is how every task but the first is first dispatched |
| AsmOs.Fill | ASM_OS.h:32 | every byte of the buffer holds the fill value |
| AsmOs.PrimeStack | ASM_OS.h:32-41 | the memset and the 35 post-decrement writes leave the primed stack, with the pointer 36 bytes below the end |
| AsmOs.Kernel.constructor | ASM_OS.h:11-22 | four distinct zeroed stacks of 128, 50, 128 and 50 bytes, an all-zero task table, and `currentTask == taskCount == 0` |
| AsmOs.Kernel.CreateTask | ASM_OS.h:24-46 | succeeds exactly when the index and the count are both below 4. On success the slot is bound to its stack, holds the entry and the full size as its watermark, and has an in-range `sp` from which the task can be resumed; its stack is the primed stack and the count rises by one. On failure nothing changes. Other slots and stacks never change |
| AsmOs.Kernel.Switch | ASM_OS.h:86-88 | the outgoing block gets the new `sp` and nothing else changes in the table. `currentTask` advances round-robin and the returned SP is the incoming task's saved `sp` |
| AsmOs.Kernel.Tick | ASM_OS.h:48-128 | the outgoing stack gains exactly the interrupted CPU's frame below its SP, and no other stack changes. Only the outgoing block's `sp` changes, `currentTask` advances round-robin and the result is the CPU state decoded from the incoming task's frame. With one task the interrupted CPU resumes unchanged |
| AsmOs.Kernel.StartOS | ASM_OS.h:130-141 | SP skips the 33 register bytes and `reti` jumps to the address stored above them with I set. For a freshly primed task that is its entry point, with SP at the top byte of its stack |
| AsmOs.Kernel.ScanStacks | ASM_OS.h:170-179 | every block below `taskCount` gets `highWaterMark` = size minus the first non-sentinel offset of its stack; every other block and every stack byte is unchanged |

## Left out

- Serial output, the `millis()` clock and the 5-second print cadence of the monitor (lines 149-195). The clock is a parameter of `UptimeOf`, and the watermark pass is `ScanStacks`.
- Timer1 configuration in `StartOS` (lines 133-139). The tick is the caller invoking `Tick`. Line 138 sets OCR1A to 125, while its comment says 250 for ~1 ms. With prescaler 64 at 16 MHz, 125 gives a tick of about 0.5 ms.
- `yield` (lines 143-147) is not modelled. On the ATmega328P, writing a one to a TIFR1 flag bit clears that flag. So `TIFR1 |= (1 << OCF1A)` never forces a tick. As written it does nothing, or it drops a compare match that arrived while interrupts were off. A task gives up the CPU only when the next timer tick arrives.
- `stack4` and the fifth entries of `stackSizes`/`stacks` (lines 15-18) are never reachable, because every index is checked against `MAX_TASKS = 4`.
- The cast of a function pointer to `uint16_t` (line 34) is not modelled: the entry point is a 16-bit word.
- Avr-gcc's convention that R1 holds zero in C code is not modelled. The kernel saves and restores R1 like every other register.
- AsmOs.Kernel.Tick requires the running task's SP to leave room for the 35-byte frame inside its own stack. It also requires the incoming slot to be bound and to hold a whole frame above its `sp`. The C code does not check either. An overflowing task writes outside its region, and a slot below `taskCount` that `createTask` never filled is dispatched from a null `sp`. This happens when indices are not registered as 0..n-1, or when one index is registered twice. Neither of those memory effects is modelled.
- AsmOs.Kernel.Tick does not model the stack bytes the compiled C statements of lines 86-88 use. They run on the outgoing task's stack after SP is stored. Avr-gcc compiles the 16-bit `%` of line 87 to a libgcc division call, whose return address is pushed just below the saved SP. So every task needs a few bytes of headroom beyond the 35-byte frame. Also, for a task preempted straight after it starts, the monitor reports more than the 35 bytes `AsmOs.PrimedWatermark` gives. The ensures states only the 35 frame bytes.
- AsmOs.Kernel.StartOS requires the current slot to hold a whole frame for the same reason.
- Tick treats the ISR as atomic. Preemption of task code at instruction granularity is reduced to the `Cpu` value handed to `Tick`.
- On the first dispatch of a never-run task, the restored SREG is the primed 0x80, so `out __SREG__` (line 123) sets I before `pop r0` and `reti`. A tick could nest in that window, and this is not modelled. A preempted frame holds SREG with I cleared by interrupt entry (lines 51-52, `Avr.Saved`), so its dispatch has no such window.
- AsmOs.Kernel.CreateTask returns `ok` where the header prints its diagnostic (line 44); the message text is not modelled.
- An empty slot's watermark is taken as 0. The monitor only scans indices below `taskCount`.
- Integer widths are not modelled (`uint8_t currentTask`, `uint16_t` sizes). Every value stays far below those widths with four tasks and stacks of at most 128 bytes.
