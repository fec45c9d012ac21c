/**
 * The slice of an AVR core that the kernel's context switch touches: a byte
 * stack that grows downward (SP names the next free byte), the register file
 * R0..R31 with the status register SREG, and a 16-bit program counter.
 *
 * A saved frame is described in PUSH ORDER: byte k of a frame whose first
 * byte was pushed at address `top` lives at address `top - k`.
 */
module Avr {

  type byte = bv8
  type word = bv16

  /** The 32 general-purpose registers R0..R31. */
  type Registers = r: seq<byte> | |r| == 32 witness seq(32, _ => 0 as byte)

  /** The register file the ISR saves: R0..R31 and SREG (33 bytes). */
  datatype Context = Context(r: Registers, sreg: byte)

  /** What a suspended task needs to resume: where and with which registers. */
  datatype Frame = Frame(pc: word, ctx: Context)

  /** The visible state of the running CPU; `sp` is an offset in the running task's stack. */
  datatype Cpu = Cpu(pc: word, ctx: Context, sp: int)

  const REGISTER_BYTES := 33   // R0, SREG, R1..R31
  const FRAME_BYTES := 35      // return address (2 bytes) + REGISTER_BYTES
  const SREG_I: byte := 0x80   // global interrupt enable bit

  function Lo(pc: word): byte { (pc & 0xFF) as byte }
  function Hi(pc: word): byte { (pc >> 8) as byte }
  function Word(hi: byte, lo: byte): word { ((hi as word) << 8) | (lo as word) }

  /** Hardware interrupt entry clears the I bit; `reti` sets it again. */
  function ClearI(s: byte): byte { s & 0x7F }
  function SetI(s: byte): byte { s | SREG_I }

  lemma WordSplit(pc: word)
    ensures Word(Hi(pc), Lo(pc)) == pc
  {
  }

  lemma SplitWord(hi: byte, lo: byte)
    ensures Hi(Word(hi, lo)) == hi && Lo(Word(hi, lo)) == lo
  {
  }

  /** An interrupt can only be taken while I is set, and then clearing and setting it is the identity. */
  lemma InterruptFlagRoundTrip(s: byte)
    requires s & SREG_I != 0
    ensures SetI(ClearI(s)) == s
  {
  }

  /** The 33 bytes the ISR pushes, in its push order: R0, SREG, R1, ..., R31. */
  function RegisterImage(ctx: Context): (img: seq<byte>)
    ensures |img| == REGISTER_BYTES
  {
    [ctx.r[0], ctx.sreg] + ctx.r[1..]
  }

  /** The register file the ISR's pops rebuild from a 33-byte image in push order. */
  function DecodeRegisters(img: seq<byte>): Context
    requires |img| == REGISTER_BYTES
  {
    Context([img[0]] + img[2..], img[1])
  }

  /** The 35 bytes of a suspended task, in push order: PC low, PC high, then the register image. */
  function Encode(fr: Frame): (f: seq<byte>)
    ensures |f| == FRAME_BYTES
  {
    [Lo(fr.pc), Hi(fr.pc)] + RegisterImage(fr.ctx)
  }

  function Decode(f: seq<byte>): Frame
    requires |f| == FRAME_BYTES
  {
    Frame(Word(f[1], f[0]), DecodeRegisters(f[2..]))
  }

  /** Restoring the 33 pushed bytes gives back every register and SREG. */
  lemma RegistersRoundTrip(ctx: Context)
    ensures DecodeRegisters(RegisterImage(ctx)) == ctx
  {
    assert [ctx.r[0]] + ctx.r[1..] == ctx.r;
  }

  /** Every 33-byte image is the image of the register file it decodes to. */
  lemma ImageRoundTrip(img: seq<byte>)
    requires |img| == REGISTER_BYTES
    ensures RegisterImage(DecodeRegisters(img)) == img
  {
    var ctx := DecodeRegisters(img);
    assert ctx.r[1..] == img[2..];
    assert RegisterImage(ctx) == [img[0], img[1]] + img[2..];
  }

  /** Save/restore mirror: decoding what was pushed gives back the PC and the whole context. */
  lemma FrameRoundTrip(fr: Frame)
    ensures Decode(Encode(fr)) == fr
  {
    var f := Encode(fr);
    WordSplit(fr.pc);
    assert f[2..] == RegisterImage(fr.ctx);
    RegistersRoundTrip(fr.ctx);
  }

  /** Any 35 bytes on a stack are the frame of exactly one (pc, context). */
  lemma BytesRoundTrip(f: seq<byte>)
    requires |f| == FRAME_BYTES
    ensures Encode(Decode(f)) == f
  {
    var fr := Decode(f);
    SplitWord(f[1], f[0]);
    ImageRoundTrip(f[2..]);
    assert Encode(fr) == [f[0], f[1]] + f[2..];
  }

  /** The frame `f` (push order) written downward from address `top` over the memory `s`. */
  function WriteFrame(s: seq<byte>, top: int, f: seq<byte>): (r: seq<byte>)
    requires top < |s| && top - |f| >= -1
    ensures |r| == |s|
  {
    seq(|s|, a requires 0 <= a < |s| => if top - |f| < a <= top then f[top - a] else s[a])
  }

  /** The `n` bytes below and at address `top`, in the order they were pushed. */
  function ReadFrame(s: seq<byte>, top: int, n: nat): (f: seq<byte>)
    requires top < |s| && top - n >= -1
    ensures |f| == n
  {
    seq(n, k requires 0 <= k < n => s[top - k])
  }

  lemma ReadWritten(s: seq<byte>, top: int, f: seq<byte>)
    requires top < |s| && top - |f| >= -1
    ensures ReadFrame(WriteFrame(s, top, f), top, |f|) == f
  {
  }

  lemma WriteSplit(s: seq<byte>, top: int, f: seq<byte>, g: seq<byte>)
    requires top < |s| && top - |f| - |g| >= -1
    ensures WriteFrame(WriteFrame(s, top, f), top - |f|, g) == WriteFrame(s, top, f + g)
  {
  }

  lemma WriteOne(s: seq<byte>, top: int, f: seq<byte>, b: byte)
    requires top < |s| && top - |f| - 1 >= -1
    ensures WriteFrame(s, top, f)[top - |f| := b] == WriteFrame(s, top, f + [b])
  {
  }

  lemma WriteOver(s: seq<byte>, top: int, f: seq<byte>, g: seq<byte>)
    requires top < |s| && top - |f| >= -1 && |g| == |f|
    ensures WriteFrame(WriteFrame(s, top, f), top, g) == WriteFrame(s, top, g)
  {
  }

  lemma ReadSplit(s: seq<byte>, top: int, m: nat, n: nat)
    requires top < |s| && top - m - n >= -1
    ensures ReadFrame(s, top, m + n) == ReadFrame(s, top, m) + ReadFrame(s, top - m, n)
  {
  }

  lemma WritePrefix(s: seq<byte>, top: int, f: seq<byte>, n: nat)
    requires top < |s| && top - |f| >= -1 && n < |f|
    ensures WriteFrame(s, top, f[..n])[top - n := f[n]] == WriteFrame(s, top, f[..n + 1])
  {
    WriteOne(s, top, f[..n], f[n]);
    assert f[..n] + [f[n]] == f[..n + 1];
  }

  /** The frame interrupt entry and the ISR's pushes save for the running CPU (I cleared by the core). */
  function Saved(cpu: Cpu): Frame
  {
    Frame(cpu.pc, cpu.ctx.(sreg := ClearI(cpu.ctx.sreg)))
  }

  /** The CPU the ISR's pops and `reti` produce from the frame just above `sp`. */
  function ResumeFrom(s: seq<byte>, sp: int): Cpu
    requires -1 <= sp && sp + FRAME_BYTES < |s|
  {
    Resume(Decode(ReadFrame(s, sp + FRAME_BYTES, FRAME_BYTES)), sp + FRAME_BYTES)
  }

  /**
   * A context switch is invisible to the task it preempts: the frame saved
   * at interrupt entry, once popped back and returned from, rebuilds the
   * same PC, registers, SREG and SP.
   */
  lemma SwitchIsTransparent(s: seq<byte>, cpu: Cpu)
    requires FRAME_BYTES - 1 <= cpu.sp < |s|
    requires cpu.ctx.sreg & SREG_I != 0
    ensures ResumeFrom(WriteFrame(s, cpu.sp, Encode(Saved(cpu))), cpu.sp - FRAME_BYTES) == cpu
  {
    ReadWritten(s, cpu.sp, Encode(Saved(cpu)));
    FrameRoundTrip(Saved(cpu));
    InterruptFlagRoundTrip(cpu.ctx.sreg);
  }

  /** `push`: store at SP, then decrement SP. */
  method Push(mem: array<byte>, sp: int, v: byte) returns (sp': int)
    requires 0 <= sp < mem.Length
    modifies mem
    ensures sp' == sp - 1
    ensures mem[..] == old(mem[..])[sp := v]
  {
    mem[sp] := v;
    sp' := sp - 1;
  }

  /** `pop`: increment SP, then load from SP. */
  method Pop(mem: array<byte>, sp: int) returns (sp': int, v: byte)
    requires -1 <= sp < mem.Length - 1
    ensures sp' == sp + 1 && v == mem[sp + 1]
  {
    sp' := sp + 1;
    v := mem[sp'];
  }

  /** Taking an interrupt: the core pushes the return address, low byte first. */
  method InterruptEntry(mem: array<byte>, sp: int, pc: word) returns (sp': int)
    requires 1 <= sp < mem.Length
    modifies mem
    ensures sp' == sp - 2
    ensures mem[..] == WriteFrame(old(mem[..]), sp, [Lo(pc), Hi(pc)])
  {
    ghost var s := mem[..];
    sp' := Push(mem, sp, Lo(pc));
    WriteOne(s, sp, [], Lo(pc));
    sp' := Push(mem, sp', Hi(pc));
    WriteOne(s, sp, [Lo(pc)], Hi(pc));
  }

  /**
   * The ISR's prologue: push R0, push SREG (through R0), push R1..R31.
   * The bytes written are exactly the register image of `ctx`.
   */
  method SaveRegisters(mem: array<byte>, sp: int, ctx: Context) returns (sp': int)
    requires REGISTER_BYTES - 1 <= sp < mem.Length
    modifies mem
    ensures sp' == sp - REGISTER_BYTES
    ensures mem[..] == WriteFrame(old(mem[..]), sp, RegisterImage(ctx))
  {
    ghost var s := mem[..];
    ghost var img := RegisterImage(ctx);
    sp' := Push(mem, sp, ctx.r[0]);
    WriteOne(s, sp, [], ctx.r[0]);
    sp' := Push(mem, sp', ctx.sreg);
    WriteOne(s, sp, [ctx.r[0]], ctx.sreg);
    assert img[..2] == [ctx.r[0], ctx.sreg];
    for i := 1 to 32
      invariant sp' == sp - 1 - i
      invariant mem[..] == WriteFrame(s, sp, img[..i + 1])
    {
      WriteOne(s, sp, img[..i + 1], ctx.r[i]);
      assert img[..i + 1] + [ctx.r[i]] == img[..i + 2];
      sp' := Push(mem, sp', ctx.r[i]);
    }
    assert img[..33] == img;
  }

  /**
   * The ISR's epilogue: pop R31..R1, pop SREG (through R0), pop R0 — the
   * mirror of SaveRegisters. Reads only; rebuilds the context from the image.
   */
  method RestoreRegisters(mem: array<byte>, sp: int) returns (sp': int, ctx: Context)
    requires -1 <= sp && sp + REGISTER_BYTES < mem.Length
    ensures sp' == sp + REGISTER_BYTES
    ensures ctx == DecodeRegisters(ReadFrame(mem[..], sp + REGISTER_BYTES, REGISTER_BYTES))
  {
    var r: seq<byte> := seq(32, _ => 0);
    var v: byte;
    sp' := sp;
    for i := 32 downto 1
      invariant |r| == 32
      invariant sp' == sp + 32 - i
      invariant forall j :: i <= j < 32 ==> r[j] == mem[sp + 32 - j]
    {
      sp', v := Pop(mem, sp');
      r := r[i := v];
    }
    var sreg: byte;
    sp', sreg := Pop(mem, sp');
    sp', v := Pop(mem, sp');
    r := r[0 := v];
    ctx := Context(r, sreg);
    ghost var img := ReadFrame(mem[..], sp + REGISTER_BYTES, REGISTER_BYTES);
    assert r == [img[0]] + img[2..];
  }

  /** The CPU a frame resumes to: `reti` sets I on top of the restored SREG. */
  function Resume(fr: Frame, sp: int): Cpu
  {
    Cpu(fr.pc, fr.ctx.(sreg := SetI(fr.ctx.sreg)), sp)
  }

  /** `reti`: pop the return address (high byte, then low byte) and set I. */
  method Reti(mem: array<byte>, sp: int, ctx: Context) returns (cpu: Cpu)
    requires -1 <= sp && sp + 2 < mem.Length
    ensures cpu == Resume(Frame(Word(mem[sp + 1], mem[sp + 2]), ctx), sp + 2)
  {
    var sp', hi := Pop(mem, sp);
    var lo: byte;
    sp', lo := Pop(mem, sp');
    cpu := Cpu(Word(hi, lo), ctx.(sreg := SetI(ctx.sreg)), sp');
  }

  /**
   * Everything that happens before the ISR's C statements: the core's
   * interrupt entry (return address pushed, I cleared) and the ISR's 33
   * pushes. The 35 bytes written are the frame of the interrupted CPU.
   */
  method Preempt(mem: array<byte>, cpu: Cpu) returns (sp: int)
    requires FRAME_BYTES - 1 <= cpu.sp < mem.Length
    modifies mem
    ensures sp == cpu.sp - FRAME_BYTES
    ensures mem[..] == WriteFrame(old(mem[..]), cpu.sp, Encode(Saved(cpu)))
  {
    ghost var s := mem[..];
    var masked := cpu.ctx.(sreg := ClearI(cpu.ctx.sreg));
    sp := InterruptEntry(mem, cpu.sp, cpu.pc);
    sp := SaveRegisters(mem, sp, masked);
    WriteSplit(s, cpu.sp, [Lo(cpu.pc), Hi(cpu.pc)], RegisterImage(masked));
  }

  /**
   * Everything after the ISR's C statements: the 33 pops in mirror order
   * and `reti`. The CPU resumes from the frame just above `sp`.
   */
  method Dispatch(mem: array<byte>, sp: int) returns (cpu: Cpu)
    requires -1 <= sp && sp + FRAME_BYTES < mem.Length
    ensures cpu == ResumeFrom(mem[..], sp)
  {
    var sp', ctx := RestoreRegisters(mem, sp);
    cpu := Reti(mem, sp', ctx);
    ReadSplit(mem[..], sp + FRAME_BYTES, 2, REGISTER_BYTES);
    assert ReadFrame(mem[..], sp + FRAME_BYTES, FRAME_BYTES)[2..]
        == ReadFrame(mem[..], sp + REGISTER_BYTES, REGISTER_BYTES);
  }
}
