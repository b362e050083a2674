// The real-mode trampoline: the kernel leaves 32-bit protected mode, calls a
// BIOS handler in real mode, and comes back. The machine has the visible and
// the hidden parts of its segment registers, and what an instruction relies on
// is the precondition of the method that stands for it: the trampoline
// verifies because every condition holds at every step.
module RealMode {
  import opened Words
  import opened Descriptors

  const STACK_TOP: nat := 0x2000
  const IF_BIT: nat := 0x200

  // CR0: the protection enable bit, and the other 31.
  datatype Control = Control(pe: bool, others: u31)
  type u31 = x: int | 0 <= x < 0x8000_0000

  function ControlImage(c: Control): u32 {
    var others: int := c.others;
    others * 2 + if c.pe then 1 else 0
  }

  // realmode_regs_t.
  datatype Regs = Regs(eax: u32, ebx: u32, ecx: u32, edx: u32, esi: u32, edi: u32, ebp: u32, ds: u16, es: u16,
                       eflags: u32)

  // The state block shared between the C code and the stub.
  datatype Block = Block(savedEsp: u32, savedGdtr: Table, savedIdtr: Table, ivt: Table, handler: u32, regs: Regs)

  datatype Cpu = Cpu(
    cr0: Control, eip: u32, esp: u32,
    eax: u32, ebx: u32, ecx: u32, edx: u32, esi: u32, edi: u32, ebp: u32, eflags: u32,
    cs: Segment, ds: Segment, es: Segment, fs: Segment, gs: Segment, ss: Segment,
    gdtr: Table, idtr: Table)
  {
    function StackPointer(): u32 {
      if ss.big then esp else esp % 0x1_0000
    }

    // The registers a handler sees.
    function Visible(): Regs {
      Regs(eax, ebx, ecx, edx, esi, edi, ebp, ds.sel, es.sel, eflags)
    }

    // The instruction stream goes on at a place in the stub: the program
    // counter has to agree, through whatever base CS has.
    predicate At(place: nat) {
      cs.base + eip == STUB_ADDR + place
    }

    // The state block can be addressed through CS in real mode.
    predicate BlockThroughCs() {
      !cr0.pe && cs.base + DATA_OFF == DATA_ADDR
    }

    // Flat 32-bit segments.
    predicate Flat() {
      cr0.pe && ds == es == fs == gs == ss == Segment(DATA32, 0, 0xFFFF_FFFF, true)
      && cs == Segment(CODE32, 0, 0xFFFF_FFFF, true)
    }
  }

  // Everything a BIOS handler leaves behind; the trampoline is proved for all
  // values. It returns in 16-bit real mode (CR0.PE clear, SS not a big segment)
  // and writes memory only below the kernel's stack pointer.
  datatype BiosEffect = BiosEffect(
    regs: Regs, cr0: Control, ds: Segment, es: Segment, fs: Segment, gs: Segment, ss: Segment, esp: u32,
    gdtr: Table, idtr: Table, masterMask: byte, slaveMask: byte, written: map<int, u16>)

  predicate InterruptFlag(eflags: u32) {
    eflags / IF_BIT % 2 == 1
  }

  function WithoutInterrupts(eflags: u32): (r: u32)
    ensures !InterruptFlag(r) && r / 0x200 % 2 == 0
    ensures r % 0x200 == eflags % 0x200 && r / 0x400 == eflags / 0x400
  {
    if InterruptFlag(eflags) then eflags - IF_BIT else eflags
  }

  // Two values of EFLAGS that differ at most in the six arithmetic flags: CF,
  // PF, AF, ZF, SF and OF, bits 0, 2, 4, 6, 7 and 11.
  predicate SameSystemFlags(a: u32, b: u32) {
    && a / 0x1000 == b / 0x1000 && a / 0x400 % 2 == b / 0x400 % 2
    && a / 0x200 % 2 == b / 0x200 % 2 && a / 0x100 % 2 == b / 0x100 % 2
    && a / 0x20 % 2 == b / 0x20 % 2 && a / 8 % 2 == b / 8 % 2 && a / 2 % 2 == b / 2 % 2
  }

  lemma SameInterrupts(a: u32, b: u32)
    requires SameSystemFlags(a, b)
    ensures InterruptFlag(a) == InterruptFlag(b)
  {
  }

  // EFLAGS after an instruction that leaves the arithmetic flags undefined:
  // any value that agrees in the others.
  function Disturbed(eflags: u32, wish: u32): (r: u32)
    ensures SameSystemFlags(eflags, r)
  {
    if SameSystemFlags(eflags, wish) then wish else eflags
  }

  // The values of EFLAGS that the two writes of CR0 come out with, as far as
  // they are possible. The trampoline is proved for all.
  datatype Undefined = Undefined(leaving: u32, entering: u32)

  // A write to the low half of a register.
  function LowHalf(reg: u32, value: u16): u32 {
    reg / 0x1_0000 * 0x1_0000 + value
  }

  lemma LowHalfIs(reg: u32, value: u16)
    ensures LowHalf(reg, value) % 0x1_0000 == value
  {
  }

  // A 64 KB limit and 16-bit size, as real mode needs them in every segment.
  predicate Small(s: Segment) {
    s.limit == 0xFFFF && !s.big
  }

  // A real-mode load: sixteen times the selector, the rest stays.
  function RealLoad(s: Segment, sel: u16): Segment {
    var base: int := sel * 0x10;
    Segment(sel, base, s.limit, s.big)
  }

  function Dword(memory: map<int, u16>, a: int): u32
    requires a in memory && a + 2 in memory
  {
    var low: int, high: int := memory[a], memory[a + 2];
    low + high * 0x1_0000
  }

  // Memory holds these values from an address on.
  ghost predicate Stacked(memory: map<int, u16>, sp: nat, values: seq<u32>) {
    forall i :: 0 <= i < |values| ==>
      sp + 4 * i in memory && sp + 4 * i + 2 in memory && Dword(memory, sp + 4 * i) == values[i]
  }

  // Memory written below an address, and kept from it on.
  function WrittenBelow(memory: map<int, u16>, written: map<int, u16>, bound: nat): map<int, u16> {
    (map a | a in written && a < bound :: written[a]) + (map a | a in memory && a >= bound :: memory[a])
  }

  // Memory kept from an address on.
  ghost predicate KeptFrom(before: map<int, u16>, after: map<int, u16>, bound: nat) {
    forall a :: a >= bound && a in before ==> a in after && after[a] == before[a]
  }

  lemma KeptTwice(before: map<int, u16>, between: map<int, u16>, after: map<int, u16>, low: nat, bound: nat)
    requires KeptFrom(before, between, bound) && KeptFrom(between, after, low) && low <= bound
    ensures KeptFrom(before, after, bound)
  {
  }

  lemma StackKept(memory: map<int, u16>, written: map<int, u16>, bound: nat, values: seq<u32>)
    requires Stacked(memory, bound, values)
    ensures Stacked(WrittenBelow(memory, written, bound), bound, values)
    ensures KeptFrom(memory, WrittenBelow(memory, written, bound), bound)
  {
  }

  lemma StackUntouched(before: map<int, u16>, after: map<int, u16>, bound: nat, values: seq<u32>)
    requires Stacked(before, bound, values)
    requires KeptFrom(before, after, bound)
    ensures Stacked(after, bound, values)
  {
    forall i | 0 <= i < |values|
      ensures bound + 4 * i in after && bound + 4 * i + 2 in after && Dword(after, bound + 4 * i) == values[i]
    {
      assert bound + 4 * i in before && Dword(before, bound + 4 * i) == values[i];
    }
  }

  lemma StackGrows(memory: map<int, u16>, sp: nat, v: u32, all: seq<u32>)
    requires sp >= 4 && |all| > 0 && all[0] == v && Stacked(memory, sp, all[1..])
    ensures Stacked(memory[sp - 4 := v % 0x1_0000][sp - 2 := v / 0x1_0000], sp - 4, all)
  {
    var after := memory[sp - 4 := v % 0x1_0000][sp - 2 := v / 0x1_0000];
    forall i | 0 <= i < |all|
      ensures sp - 4 + 4 * i in after && sp - 4 + 4 * i + 2 in after && Dword(after, sp - 4 + 4 * i) == all[i]
    {
      if i > 0 {
        assert sp + 4 * (i - 1) in memory && Dword(memory, sp + 4 * (i - 1)) == all[1..][i - 1];
      }
    }
  }

  lemma StackShrinks(memory: map<int, u16>, sp: nat, all: seq<u32>)
    requires |all| > 0 && Stacked(memory, sp, all)
    ensures sp in memory && sp + 2 in memory && Dword(memory, sp) == all[0]
    ensures Stacked(memory, sp + 4, all[1..])
  {
    assert sp + 4 * 0 in memory && Dword(memory, sp + 4 * 0) == all[0];
    forall i | 0 <= i < |all| - 1
      ensures sp + 4 + 4 * i in memory && sp + 4 + 4 * i + 2 in memory && Dword(memory, sp + 4 + 4 * i) == all[1..][i]
    {
      assert sp + 4 * (i + 1) in memory && Dword(memory, sp + 4 * (i + 1)) == all[i + 1];
    }
  }

  class Machine {
    var cpu: Cpu
    var masterMask: byte
    var slaveMask: byte
    var block: Block
    // Stack memory by linear address, in words, and the descriptor table.
    var memory: map<int, u16>
    const gdtAddr: u32
    const gdt: array<byte>
    // Whether SS:SP address a stack: a load of SS alone leaves them torn.
    ghost var stackReady: bool
    // The registers the BIOS handler was entered with, and its address.
    ghost var entered: Regs
    ghost var target: u32

    constructor (cpu: Cpu, block: Block, memory: map<int, u16>, gdtAddr: u32, gdt: array<byte>)
      ensures this.cpu == cpu && this.block == block && this.memory == memory
      ensures this.gdtAddr == gdtAddr && this.gdt == gdt && stackReady
    {
      this.cpu, this.block, this.memory, this.gdtAddr, this.gdt := cpu, block, memory, gdtAddr, gdt;
      masterMask, slaveMask, stackReady, entered, target := 0, 0, true, block.regs, 0;
    }

    // ---- Instructions -----------------------------------------------------

    method Push(v: u32)
      requires stackReady && cpu.StackPointer() >= 4
      modifies `cpu, `memory
      ensures cpu == old(cpu).(esp := old(cpu).esp - 4)
      ensures var a := old(cpu).ss.base + old(cpu.StackPointer()) - 4;
        memory == old(memory)[a := v % 0x1_0000][a + 2 := v / 0x1_0000]
    {
      var a := cpu.ss.base + cpu.StackPointer() - 4;
      memory := memory[a := v % 0x1_0000][a + 2 := v / 0x1_0000];
      cpu := cpu.(esp := cpu.esp - 4);
    }

    method Pop() returns (v: u32)
      requires stackReady && cpu.esp + 4 < 0x1_0000_0000
      requires cpu.ss.base + cpu.StackPointer() in memory && cpu.ss.base + cpu.StackPointer() + 2 in memory
      modifies `cpu
      ensures cpu == old(cpu).(esp := old(cpu).esp + 4)
      ensures v == Dword(memory, old(cpu).ss.base + old(cpu.StackPointer()))
    {
      v := Dword(memory, cpu.ss.base + cpu.StackPointer());
      cpu := cpu.(esp := cpu.esp + 4);
    }

    // Push and pop on the kernel's flat stack, whose contents are a list.
    // What lay above a bound before stays as it was.
    method PushFlat(v: u32, ghost all: seq<u32>, ghost before: map<int, u16>, ghost bound: nat)
      requires stackReady && cpu.Flat() && 4 <= cpu.esp <= bound && KeptFrom(before, memory, bound)
      requires |all| > 0 && all[0] == v && Stacked(memory, cpu.esp, all[1..])
      modifies `cpu, `memory
      ensures cpu == old(cpu).(esp := old(cpu).esp - 4) && Stacked(memory, cpu.esp, all)
      ensures KeptFrom(before, memory, bound)
    {
      hide Stacked;
      StackGrows(memory, cpu.esp, v, all);
      Push(v);
    }

    method PopFlat(ghost all: seq<u32>) returns (v: u32)
      requires stackReady && cpu.Flat() && |all| > 0 && Stacked(memory, cpu.esp, all)
      requires cpu.esp + 4 < 0x1_0000_0000
      modifies `cpu
      ensures cpu == old(cpu).(esp := old(cpu).esp + 4)
      ensures v == all[0] && Stacked(memory, cpu.esp, all[1..])
    {
      hide Stacked;
      StackShrinks(memory, cpu.esp, all);
      v := Pop();
    }

    method Cli()
      modifies `cpu
      ensures cpu == old(cpu).(eflags := WithoutInterrupts(old(cpu).eflags))
    {
      cpu := cpu.(eflags := WithoutInterrupts(cpu.eflags));
    }

    ghost predicate Selectable(sel: u16)
      reads `cpu
    {
      sel % 8 == 0 && sel + 7 <= cpu.gdtr.limit && cpu.gdtr.base == gdtAddr && sel + 8 <= gdt.Length
    }

    // mov ax, imm; mov ds, ax; ... mov ss, ax: all five data segments. The
    // stack is unusable until SP is reloaded.
    method LoadDataSegmentsProtected(sel: u16)
      requires cpu.cr0.pe && Selectable(sel)
      modifies `cpu, `stackReady
      ensures var s := Fetched(gdt[..], sel);
        cpu == old(cpu).(eax := LowHalf(old(cpu).eax, sel), ds := s, es := s, fs := s, gs := s, ss := s)
      ensures !stackReady
    {
      var s := Fetched(gdt[..], sel);
      cpu := cpu.(eax := LowHalf(cpu.eax, sel), ds := s, es := s, fs := s, gs := s, ss := s);
      stackReady := false;
    }

    method LoadDataSegmentsReal(sel: u16)
      requires !cpu.cr0.pe
      modifies `cpu, `stackReady
      ensures cpu == old(cpu).(
                       eax := LowHalf(old(cpu).eax, sel),
                       ds := RealLoad(old(cpu).ds, sel), es := RealLoad(old(cpu).es, sel),
                       fs := RealLoad(old(cpu).fs, sel), gs := RealLoad(old(cpu).gs, sel),
                       ss := RealLoad(old(cpu).ss, sel))
      ensures !stackReady
    {
      cpu := cpu.(
        eax := LowHalf(cpu.eax, sel),
        ds := RealLoad(cpu.ds, sel), es := RealLoad(cpu.es, sel), fs := RealLoad(cpu.fs, sel),
        gs := RealLoad(cpu.gs, sel), ss := RealLoad(cpu.ss, sel));
      stackReady := false;
    }

    // mov sp, imm and mov esp, m32, directly after a load of SS.
    method LoadSp(sp: u16)
      requires !cpu.ss.big
      modifies `cpu, `stackReady
      ensures cpu == old(cpu).(esp := LowHalf(old(cpu).esp, sp)) && stackReady
    {
      cpu, stackReady := cpu.(esp := LowHalf(cpu.esp, sp)), true;
    }

    method LoadEsp(esp: u32)
      requires cpu.ss.big
      modifies `cpu, `stackReady
      ensures cpu == old(cpu).(esp := esp) && stackReady
    {
      cpu, stackReady := cpu.(esp := esp), true;
    }

    // mov eax, cr0; and eax, ~1; mov cr0, eax. Real mode inherits the hidden
    // limits, so all of them have to be small by now. The AND sets the
    // arithmetic flags, and the MOV to CR0 leaves all six of them undefined.
    method LeaveProtectedMode(flags: u32)
      requires cpu.cr0.pe && !InterruptFlag(cpu.eflags)
      requires Small(cpu.cs) && Small(cpu.ds) && Small(cpu.es) && Small(cpu.fs) && Small(cpu.gs) && Small(cpu.ss)
      modifies `cpu
      ensures var c := old(cpu).cr0.(pe := false);
        cpu == old(cpu).(cr0 := c, eax := ControlImage(c), eflags := Disturbed(old(cpu).eflags, flags))
    {
      var c := cpu.cr0.(pe := false);
      cpu := cpu.(cr0 := c, eax := ControlImage(c), eflags := Disturbed(cpu.eflags, flags));
    }

    // mov eax, cr0; or eax, 1; mov cr0, eax: the same flags are undefined.
    method EnterProtectedMode(flags: u32)
      requires !cpu.cr0.pe && !InterruptFlag(cpu.eflags)
      modifies `cpu
      ensures var c := old(cpu).cr0.(pe := true);
        cpu == old(cpu).(cr0 := c, eax := ControlImage(c), eflags := Disturbed(old(cpu).eflags, flags))
    {
      var c := cpu.cr0.(pe := true);
      cpu := cpu.(cr0 := c, eax := ControlImage(c), eflags := Disturbed(cpu.eflags, flags));
    }

    // A far jump through a descriptor: the offset has to lie in the segment.
    method FarJumpProtected(sel: u16, offset: u32)
      requires cpu.cr0.pe && Selectable(sel) && offset <= LimitOf(Entry(gdt[..], sel))
      modifies `cpu
      ensures cpu == old(cpu).(cs := Fetched(gdt[..], sel), eip := offset)
    {
      cpu := cpu.(cs := Fetched(gdt[..], sel), eip := offset);
    }

    method FarJumpReal(sel: u16, offset: u16)
      requires !cpu.cr0.pe && offset <= cpu.cs.limit
      modifies `cpu
      ensures cpu == old(cpu).(cs := RealLoad(old(cpu).cs, sel), eip := offset)
    {
      cpu := cpu.(cs := RealLoad(cpu.cs, sel), eip := offset);
    }

    // pushf; call far [cs:handler]; and everything the BIOS does until its
    // iret brings control back behind the call.
    method CallBios(bios: BiosEffect, ghost values: seq<u32>)
      requires cpu.BlockThroughCs() && stackReady && cpu.StackPointer() >= 6
      requires cpu.ss.base + cpu.StackPointer() <= block.savedEsp && Stacked(memory, block.savedEsp, values)
      requires cpu.idtr == Table(0x3FF, 0) && masterMask == 0xFF && slaveMask == 0xFF
      modifies `cpu, `masterMask, `slaveMask, `memory, `stackReady, `entered, `target
      ensures entered == old(cpu).Visible() && target == block.handler
      ensures cpu.Visible() == bios.regs && !cpu.cr0.pe && !cpu.ss.big && !stackReady
      ensures cpu.cs == old(cpu).cs && cpu.eip == old(cpu).eip
      ensures Stacked(memory, block.savedEsp, values) && KeptFrom(old(memory), memory, block.savedEsp)
    {
      hide Stacked, WrittenBelow, KeptFrom;
      var r := bios.regs;
      entered, target := cpu.Visible(), block.handler;
      cpu := Cpu(bios.cr0.(pe := false), cpu.eip, bios.esp,
                 r.eax, r.ebx, r.ecx, r.edx, r.esi, r.edi, r.ebp, r.eflags,
                 cpu.cs, bios.ds.(sel := r.ds), bios.es.(sel := r.es), bios.fs, bios.gs, bios.ss.(big := false),
                 bios.gdtr, bios.idtr);
      masterMask, slaveMask, stackReady := bios.masterMask, bios.slaveMask, false;
      StackKept(memory, bios.written, block.savedEsp, values);
      memory := WrittenBelow(memory, bios.written, block.savedEsp);
    }

    // ---- The trampoline ---------------------------------------------------

    // The values the stub puts on the kernel's stack: EFLAGS, then PUSHAD's
    // image, above the return address of its caller.
    static ghost function Image(c: Cpu, ret: u32): seq<u32> {
      [c.eflags, c.edi, c.esi, c.ebp, c.esp, c.ebx, c.edx, c.ecx, c.eax, ret]
    }

    // A handler is entered with interrupts off and with the kernel's other
    // system flags; its arithmetic flags may be anything.
    static ghost predicate EntryFlags(kernel: u32, handler: u32) {
      !InterruptFlag(handler) && SameSystemFlags(WithoutInterrupts(kernel), handler)
    }

    // The kernel calls the stub: flat segments, the patched table loaded, a
    // stack above the stub's own, all interrupts masked.
    ghost predicate KernelCall(ret: u32)
      reads this, gdt
    {
      && cpu.Flat() && stackReady && cpu.At(0)
      && cpu.gdtr.base == gdtAddr && 39 <= cpu.gdtr.limit < gdt.Length && Patched(gdt[..])
      && 0x3_2000 + 36 <= cpu.esp < 0xFFFF_FFF0 && Stacked(memory, cpu.esp, [ret])
      && masterMask == 0xFF && slaveMask == 0xFF && block.ivt == Table(0x3FF, 0)
    }

    // Words pushed one after another, the last of them first.
    method PushWords(words: seq<u32>, ghost above: seq<u32>)
      requires stackReady && cpu.Flat() && cpu.esp >= 4 * |words| && Stacked(memory, cpu.esp, above)
      modifies `cpu, `memory
      ensures cpu == old(cpu).(esp := old(cpu).esp - 4 * |words|)
      ensures Stacked(memory, cpu.esp, words + above) && KeptFrom(old(memory), memory, old(cpu.esp))
    {
      assert KeptFrom(memory, memory, cpu.esp);
      hide Stacked, KeptFrom;
      ghost var c, all := cpu, words + above;
      assert all[|words|..] == above;
      for i := |words| downto 0
        invariant cpu == c.(esp := c.esp - 4 * (|words| - i)) && stackReady
        invariant Stacked(memory, cpu.esp, all[i..]) && KeptFrom(old(memory), memory, c.esp)
      {
        assert all[i..][1..] == all[i + 1..] && all[i..][0] == words[i];
        PushFlat(words[i], all[i..], old(memory), c.esp);
      }
      assert all[0..] == all;
    }

    // pushad; pushfd: EAX first, EFLAGS last.
    method PushAll(ghost ret: u32)
      requires stackReady && cpu.Flat() && cpu.esp >= 36 && Stacked(memory, cpu.esp, [ret])
      modifies `cpu, `memory
      ensures cpu == old(cpu).(esp := old(cpu).esp - 36)
      ensures Stacked(memory, cpu.esp, Image(old(cpu), ret)) && KeptFrom(old(memory), memory, old(cpu.esp))
    {
      hide Stacked, KeptFrom;
      ghost var c := cpu;
      var pushed := [cpu.eflags, cpu.edi, cpu.esi, cpu.ebp, cpu.esp, cpu.ebx, cpu.edx, cpu.ecx, cpu.eax];
      PushWords(pushed, [ret]);
      assert pushed + [ret] == Image(c, ret);
    }

    // Words popped one after another.
    method PopWords(n: nat, ghost all: seq<u32>) returns (words: seq<u32>)
      requires stackReady && cpu.Flat() && cpu.esp + 4 * n < 0x1_0000_0000
      requires n <= |all| && Stacked(memory, cpu.esp, all)
      modifies `cpu
      ensures cpu == old(cpu).(esp := old(cpu).esp + 4 * n)
      ensures words == all[..n]
    {
      hide Stacked;
      words := [];
      ghost var c := cpu;
      assert all[0..] == all;
      for i := 0 to n
        invariant cpu == c.(esp := c.esp + 4 * i) && stackReady
        invariant words == all[..i] && Stacked(memory, cpu.esp, all[i..])
      {
        assert all[i..][1..] == all[i + 1..] && all[i..][0] == all[i];
        var v := PopFlat(all[i..]);
        words := words + [v];
      }
    }

    // popfd; popad; ret. POPAD drops the image of ESP.
    method PopAll(ghost c: Cpu, ghost ret: u32)
      requires stackReady && cpu.Flat() && cpu.esp + 40 < 0x1_0000_0000
      requires Stacked(memory, cpu.esp, Image(c, ret))
      modifies `cpu
      ensures cpu == old(cpu).(
                       esp := old(cpu).esp + 40, eip := ret, eflags := c.eflags,
                       eax := c.eax, ebx := c.ebx, ecx := c.ecx, edx := c.edx, esi := c.esi, edi := c.edi, ebp := c.ebp)
    {
      hide Stacked;
      var l := PopWords(10, Image(c, ret));
      cpu := cpu.(eflags := l[0], edi := l[1], esi := l[2], ebp := l[3],
                  ebx := l[5], edx := l[6], ecx := l[7], eax := l[8], eip := l[9]);
    }

    // stub_start: save the 32-bit state, and jump to 16-bit protected mode.
    method SaveAndEnter16(ghost ret: u32, pm16: u16)
      requires KernelCall(ret) && pm16 < 0x400
      modifies `cpu, `memory, `block
      ensures cpu == old(cpu).(
                       esp := old(cpu).esp - 36, eflags := WithoutInterrupts(old(cpu).eflags),
                       cs := Segment(CODE16, STUB_ADDR, 0xFFFF, false), eip := pm16)
      ensures block == old(block).(savedEsp := cpu.esp, savedGdtr := cpu.gdtr, savedIdtr := cpu.idtr)
      ensures Stacked(memory, cpu.esp, Image(old(cpu), ret)) && KeptFrom(old(memory), memory, old(cpu.esp))
      ensures cpu.At(pm16)
    {
      hide Stacked, KeptFrom;
      PushAll(ret);
      Cli();
      block := block.(savedEsp := cpu.esp, savedGdtr := cpu.gdtr, savedIdtr := cpu.idtr);
      FarJumpProtected(CODE16, pm16);
    }

    // stub_pm16: small data segments, protection off, jump to real mode.
    method EnterReal(pm16: u16, realmode: u16, flags: u32)
      requires cpu.cr0.pe && cpu.At(pm16) && !InterruptFlag(cpu.eflags)
      requires cpu.cs == Segment(CODE16, STUB_ADDR, 0xFFFF, false)
      requires cpu.gdtr.base == gdtAddr && 39 <= cpu.gdtr.limit < gdt.Length && Patched(gdt[..])
      requires realmode < 0x400
      modifies `cpu, `stackReady
      ensures !cpu.cr0.pe && cpu.At(realmode) && !stackReady
      ensures cpu.cs == Segment(STUB_SEG, STUB_ADDR, 0xFFFF, false)
      ensures Small(cpu.ss) && cpu.esp == old(cpu).esp
      ensures !InterruptFlag(cpu.eflags) && SameSystemFlags(old(cpu).eflags, cpu.eflags)
    {
      hide SameSystemFlags, Disturbed, InterruptFlag;
      SameInterrupts(cpu.eflags, Disturbed(cpu.eflags, flags));
      LoadDataSegmentsProtected(DATA16);
      LeaveProtectedMode(flags);
      FarJumpReal(STUB_SEG, realmode);
    }

    // stub_realmode: a real-mode stack, the BIOS vector table, the requested
    // registers, and the call.
    method CallHandler(realmode: u16, bios: BiosEffect, ghost values: seq<u32>)
      requires !cpu.cr0.pe && cpu.At(realmode) && cpu.cs == Segment(STUB_SEG, STUB_ADDR, 0xFFFF, false) && Small(cpu.ss)
      requires block.ivt == Table(0x3FF, 0) && masterMask == 0xFF && slaveMask == 0xFF
      requires 0x3_2000 <= block.savedEsp && Stacked(memory, block.savedEsp, values)
      modifies `cpu, `masterMask, `slaveMask, `memory, `stackReady, `entered, `target
      ensures entered == block.regs.(eflags := old(cpu).eflags) && target == block.handler
      ensures cpu.Visible() == bios.regs && !cpu.cr0.pe && !cpu.ss.big
      ensures cpu.cs == old(cpu).cs
      ensures Stacked(memory, block.savedEsp, values) && KeptFrom(old(memory), memory, block.savedEsp)
    {
      hide Stacked, KeptFrom;
      LoadDataSegmentsReal(STUB_SEG);
      LoadSp(STACK_TOP);
      cpu := cpu.(idtr := block.ivt);
      var r := block.regs;
      cpu := cpu.(eax := r.eax, ebx := r.ebx, ecx := r.ecx, edx := r.edx, esi := r.esi, edi := r.edi, ebp := r.ebp);
      cpu := cpu.(es := RealLoad(cpu.es, r.es));
      cpu := cpu.(ds := RealLoad(cpu.ds, r.ds));
      CallBios(bios, values);
    }

    // pushfd; pop eax.
    method CopyEflags(ghost values: seq<u32>)
      requires stackReady && !cpu.ss.big && 4 <= cpu.esp % 0x1_0000 && cpu.esp + 4 < 0x1_0000_0000
      requires cpu.ss.base + cpu.esp % 0x1_0000 <= block.savedEsp && Stacked(memory, block.savedEsp, values)
      modifies `cpu, `memory
      ensures cpu == old(cpu).(eax := old(cpu).eflags)
      ensures Stacked(memory, block.savedEsp, values) && KeptFrom(old(memory), memory, block.savedEsp)
    {
      ghost var before := memory;
      Push(cpu.eflags);
      StackUntouched(before, memory, block.savedEsp, values);
      var v := Pop();
      cpu := cpu.(eax := v);
    }

    // The handler has returned: store its registers. EAX goes first, for AX is
    // needed to rebuild the stack.
    method Collect(ghost values: seq<u32>)
      requires cpu.BlockThroughCs() && !cpu.ss.big
      requires 0x3_2000 <= block.savedEsp && Stacked(memory, block.savedEsp, values)
      modifies `cpu, `memory, `stackReady, `block
      ensures block == old(block).(regs := old(cpu).Visible()) && !cpu.cr0.pe
      ensures Stacked(memory, block.savedEsp, values) && KeptFrom(old(memory), memory, block.savedEsp)
    {
      hide Stacked, KeptFrom;
      block := block.(regs := block.regs.(eax := cpu.eax));
      cpu := cpu.(eax := LowHalf(cpu.eax, STUB_SEG), ss := RealLoad(cpu.ss, STUB_SEG));
      LowHalfIs(cpu.esp, STACK_TOP);
      hide LowHalf;
      LoadSp(STACK_TOP);
      CopyEflags(values);
      StoreRest();
    }

    // EAX holds the flags; ES and DS go through AX.
    method StoreRest()
      modifies `cpu, `block
      ensures block == old(block).(regs := old(cpu).Visible().(eax := old(block).regs.eax, eflags := old(cpu).eax))
      ensures cpu == old(cpu).(eax := cpu.eax)
    {
      block := block.(regs := block.regs.(eflags := cpu.eax));
      block := block.(regs := block.regs.(
        ebx := cpu.ebx, ecx := cpu.ecx, edx := cpu.edx, esi := cpu.esi, edi := cpu.edi, ebp := cpu.ebp));
      cpu := cpu.(eax := LowHalf(cpu.eax, cpu.es.sel));
      block := block.(regs := block.regs.(es := cpu.es.sel));
      cpu := cpu.(eax := LowHalf(cpu.eax, cpu.ds.sel));
      block := block.(regs := block.regs.(ds := cpu.ds.sel));
    }

    // Interrupts off, the kernel's table loaded, protection on, and the jump
    // back to 32-bit protected mode.
    method Return32(pm32: u16, flags: u32)
      requires !cpu.cr0.pe && pm32 < 0x400
      requires block.savedGdtr.base == gdtAddr && 39 <= block.savedGdtr.limit < gdt.Length && Patched(gdt[..])
      modifies `cpu
      ensures cpu.cr0.pe && cpu.At(pm32) && !InterruptFlag(cpu.eflags) && cpu.gdtr == block.savedGdtr
      ensures cpu.cs == Segment(CODE32, 0, 0xFFFF_FFFF, true)
    {
      hide SameSystemFlags, Disturbed, InterruptFlag;
      Cli();
      cpu := cpu.(gdtr := block.savedGdtr);
      SameInterrupts(cpu.eflags, Disturbed(cpu.eflags, flags));
      EnterProtectedMode(flags);
      FarJumpProtected(CODE32, STUB_ADDR + pm32);
    }

    method CollectAndReturn(pm32: u16, flags: u32, ghost values: seq<u32>)
      requires cpu.BlockThroughCs() && pm32 < 0x400
      requires 0x3_2000 <= block.savedEsp && Stacked(memory, block.savedEsp, values)
      requires block.savedGdtr.base == gdtAddr && 39 <= block.savedGdtr.limit < gdt.Length && Patched(gdt[..])
      requires !cpu.ss.big
      modifies `cpu, `memory, `stackReady, `block
      ensures block == old(block).(regs := old(cpu).Visible())
      ensures cpu.cr0.pe && cpu.At(pm32) && !InterruptFlag(cpu.eflags) && cpu.gdtr == block.savedGdtr
      ensures cpu.cs == Segment(CODE32, 0, 0xFFFF_FFFF, true)
      ensures Stacked(memory, block.savedEsp, values) && KeptFrom(old(memory), memory, block.savedEsp)
    {
      hide Stacked, KeptFrom, InterruptFlag, Patched;
      Collect(values);
      Return32(pm32, flags);
    }

    // stub_pm32: flat segments, the kernel's stack and interrupt table, and
    // back to the caller.
    method RestoreKernel(pm32: u16, ghost c: Cpu, ghost ret: u32)
      requires cpu.cr0.pe && cpu.At(pm32) && cpu.cs == Segment(CODE32, 0, 0xFFFF_FFFF, true)
      requires cpu.gdtr.base == gdtAddr && 39 <= cpu.gdtr.limit < gdt.Length && Patched(gdt[..])
      requires block.savedEsp + 40 < 0x1_0000_0000 && Stacked(memory, block.savedEsp, Image(c, ret))
      modifies `cpu, `stackReady
      ensures cpu == old(cpu).(
                       esp := block.savedEsp + 40, eip := ret, eflags := c.eflags, idtr := block.savedIdtr,
                       eax := c.eax, ebx := c.ebx, ecx := c.ecx, edx := c.edx, esi := c.esi, edi := c.edi, ebp := c.ebp,
                       ds := cpu.ds, es := cpu.es, fs := cpu.fs, gs := cpu.gs, ss := cpu.ss)
      ensures cpu.Flat() && stackReady
    {
      hide Stacked;
      LoadDataSegmentsProtected(DATA32);
      LoadEsp(block.savedEsp);
      cpu := cpu.(idtr := block.savedIdtr);
      PopAll(c, ret);
    }

    // The whole stub, for every layout of its code (the offsets of its three
    // labels) and every behaviour of the BIOS. The handler sees the requested
    // registers, with interrupts off and the kernel's other system flags; its
    // own registers come back in the block, and the kernel's machine state and
    // stack are as they were, with the return address popped.
    method Trampoline(pm16: u16, realmode: u16, pm32: u16, bios: BiosEffect, undefined: Undefined, ghost ret: u32)
      requires pm16 < 0x400 && realmode < 0x400 && pm32 < 0x400
      requires KernelCall(ret)
      modifies `cpu, `masterMask, `slaveMask, `memory, `block, `stackReady, `entered, `target
      ensures entered == old(block).regs.(eflags := entered.eflags) && target == old(block).handler
      ensures EntryFlags(old(cpu).eflags, entered.eflags)
      ensures block.regs == bios.regs && block.ivt == old(block).ivt && block.handler == old(block).handler
      ensures cpu == old(cpu).(cr0 := cpu.cr0, eip := ret, esp := old(cpu).esp + 4)
      ensures cpu.Flat() && stackReady && KeptFrom(old(memory), memory, old(cpu.esp))
    {
      hide Stacked, Patched, KeptFrom, SameSystemFlags, WithoutInterrupts, InterruptFlag;
      ghost var c, m := cpu, memory;
      SaveAndEnter16(ret, pm16);
      ghost var m1 := memory;
      EnterReal(pm16, realmode, undefined.leaving);
      CallHandler(realmode, bios, Image(c, ret));
      KeptTwice(m, m1, memory, block.savedEsp, c.esp);
      ghost var m2 := memory;
      CollectAndReturn(pm32, undefined.entering, Image(c, ret));
      KeptTwice(m, m2, memory, block.savedEsp, c.esp);
      RestoreKernel(pm32, c, ret);
    }

    // ---- The C side -------------------------------------------------------

    // Between calls: flat segments, the patched table, the stub installed.
    ghost predicate Ready()
      reads this, gdt
    {
      && cpu.Flat() && stackReady
      && cpu.gdtr.base == gdtAddr && 39 <= cpu.gdtr.limit < gdt.Length && Patched(gdt[..])
      && 0x3_2000 + 40 <= cpu.esp < 0xFFFF_FFF0 && block.ivt == Table(0x3FF, 0)
    }

    // realmode_init, given the size of the stub and the table boot.asm set up.
    method Init(stubSize: nat) returns (ok: bool)
      requires cpu.Flat() && stackReady && cpu.gdtr.base == gdtAddr && cpu.gdtr.limit < gdt.Length
      requires gdt[..] == BOOT_GDT && 0x3_2000 + 40 <= cpu.esp < 0xFFFF_FFF0
      modifies `block, gdt
      ensures ok <==> 0 < stubSize <= DATA_ADDR - STUB_ADDR && cpu.gdtr.limit >= 39
      ensures ok ==> Ready()
    {
      hide Patched;
      if stubSize == 0 || stubSize > DATA_ADDR - STUB_ADDR {
        return false;
      }
      ok := PatchGdt(gdt, cpu.gdtr.limit);
      if ok {
        block := Block(0, Table(0, 0), Table(0, 0), Table(0x3FF, 0), 0, Regs(0, 0, 0, 0, 0, 0, 0, 0, 0, 0));
      }
    }

    // realmode_int. The handler comes from the BIOS vector table; the call is
    // refused when the trampoline is not ready or the vector is empty. The
    // handler is entered with exactly the requested registers, what it left
    // comes back, and the PIC masks, the kernel's machine state and its stack
    // are kept.
    method Int(vector: byte, regs: Regs, ready: bool, vectors: seq<u32>, ret: u32,
               pm16: u16, realmode: u16, pm32: u16, bios: BiosEffect, undefined: Undefined)
        returns (ok: bool, result: Regs)
      requires |vectors| == 0x100 && pm16 < 0x400 && realmode < 0x400 && pm32 < 0x400
      requires ready ==> Ready()
      modifies `cpu, `masterMask, `slaveMask, `memory, `block, `stackReady, `entered, `target
      ensures ok <==> ready && vectors[vector] != 0
      ensures !ok ==> result == regs && cpu == old(cpu) && memory == old(memory) && block == old(block)
      ensures ok ==> entered == regs.(eflags := entered.eflags) && target == vectors[vector]
      ensures ok ==> EntryFlags(old(cpu).eflags, entered.eflags)
      ensures ok ==> result == bios.regs && KeptFrom(old(memory), memory, old(cpu.esp))
      ensures masterMask == old(masterMask) && slaveMask == old(slaveMask)
      ensures ok ==> cpu == old(cpu).(cr0 := cpu.cr0, eip := ret) && cpu.cr0.pe && Ready()
    {
      assert KeptFrom(memory, memory, cpu.esp);
      hide Stacked, Patched, KeptFrom, EntryFlags;
      if !ready || vectors[vector] == 0 {
        return false, regs;
      }
      block := block.(handler := vectors[vector], regs := regs.(eflags := 0));
      var master, slave := masterMask, slaveMask;
      masterMask, slaveMask := 0xFF, 0xFF;
      assert Stacked(memory, cpu.esp, []) by { NothingStacked(memory, cpu.esp); }
      assert [ret][1..] == [];
      ghost var m, sp := memory, cpu.esp;
      PushFlat(ret, [ret], m, sp);
      ghost var m1 := memory;
      cpu := cpu.(eip := STUB_ADDR);
      Trampoline(pm16, realmode, pm32, bios, undefined, ret);
      KeptTwice(m, m1, memory, sp - 4, sp);
      masterMask, slaveMask := master, slave;
      return true, block.regs;
    }
  }

  lemma NothingStacked(memory: map<int, u16>, sp: nat)
    ensures Stacked(memory, sp, [])
  {
  }
}
