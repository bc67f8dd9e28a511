/**
 * The instruction set, byte by byte: what one step does to the registers, the stack words, the input and
 * the output, told from the opcode byte, the bytes behind it and the constants.
 */
module Opcodes {
  import opened Words
  import B = Bits
  import opened Outcomes
  import opened Programs
  import opened Machine
  import H = Heaps
  import A = Allocation
  import R = Registers
  import Refinement
  import F = Frames
  import C = Calls
  import References

  /** The step at `m.pc` finds opcode `op` at `j`, behind nothing but prefixes. */
  predicate At(p: Program, m: Vm, j: nat, op: Byte) {
    0 <= m.pc <= j < |p.code| && (forall i :: m.pc <= i < j ==> p.code[i] == 0xC4) && p.code[j] == op && op != 0xC4
  }

  /** The two bytes from `i` on, most significant first. */
  function Unsigned16(p: Program, i: nat): (u: nat)
    requires i + 2 <= |p.code|
    ensures u < 0x1_0000
  {
    var high: int, low: int := p.code[i], p.code[i + 1];
    256 * high + low
  }

  function Signed16(p: Program, i: nat): (s: int)
    requires i + 2 <= |p.code|
    ensures -0x8000 <= s < 0x8000
  {
    var u := Unsigned16(p, i);
    if u < 0x8000 then u else u - 0x1_0000
  }

  /** How many bytes name the variable: two behind a prefix. */
  function VarBytes(m: Vm, j: nat): nat {
    if j > m.pc then 2 else 1
  }

  /** The variable an ILOAD or ISTORE at `j` names. */
  function VarNamed(p: Program, m: Vm, j: nat): (v: nat)
    requires j + 1 + VarBytes(m, j) <= |p.code|
  {
    if j > m.pc then Unsigned16(p, j + 1) else p.code[j + 1]
  }

  /** The variable an IINC at `j` names: its two-byte index is signed. */
  function IncNamed(p: Program, m: Vm, j: nat): int
    requires j + 1 + VarBytes(m, j) <= |p.code|
  {
    if j > m.pc then Signed16(p, j + 1) else p.code[j + 1]
  }

  /** `n` words can be taken off the stack. */
  predicate Has(m: Vm, n: nat) {
    m.sp - n + 1 >= m.lv && m.sp - n + 1 >= 0
  }

  /** Some number of granted growths makes room for index `top`. */
  ghost predicate RoomFor(env: H.Env, size: nat, top: int) {
    exists k: nat :: R.Enough(env, size, top, k)
  }

  /** `r` is `m` with `w` on top; it fails only where the stack is full and cannot be grown. */
  ghost predicate Puts(env: H.Env, m: Vm, w: Word, r: Outcome<Vm>) {
    (r.Live? <==> RoomFor(env, |m.stack|, m.sp + 1)) &&
    if r.Live? then
      var m' := r.value;
      m' == m.(stack := m'.stack, sp := m.sp + 1) && 0 <= m'.sp < |m'.stack| && |m.stack| <= |m'.stack| &&
      m'.stack[m'.sp] == w && forall i :: 0 <= i < |m.stack| && i != m'.sp ==> m'.stack[i] == m.stack[i]
    else r == Destroyed
  }

  lemma PushPuts(env: H.Env, m: Vm, w: Word)
    requires m.sp >= -1
    ensures Puts(env, m, w, Push(env, m, w))
  {
    hide R.Enough;
    R.GrowSucceedsIff(env, m.stack, m.sp + 1);
    if Grow(env, m.stack, m.sp + 1).Live? { GrowPrefix(env, m.stack, m.sp + 1); }
  }

  lemma {:induction false} GrowPrefix(env: H.Env, stack: seq<Word>, top: int)
    requires Grow(env, stack, top).Live?
    ensures stack <= Grow(env, stack, top).value
    decreases top - |stack|
  {
    if top >= |stack| { GrowPrefix(env, Grown(env, stack), top); }
  }

  /** With room above the top, a push stays in the stack. */
  lemma PushInPlace(env: H.Env, m: Vm, w: Word)
    requires -1 <= m.sp < |m.stack| - 1
    ensures Push(env, m, w) == Live(m.(stack := m.stack[m.sp + 1 := w], sp := m.sp + 1))
  {
  }

  lemma {:induction false} OpcodeIs(code: seq<Byte>, pc: nat, j: nat)
    requires pc <= j < |code| && (forall i :: pc <= i < j ==> code[i] == WIDE) && code[j] != WIDE
    ensures OpcodeAt(code, pc) == j
    decreases j - pc
  {
    if pc < j { OpcodeIs(code, pc + 1, j); }
  }

  /** A step decodes what stands behind the opcode, and executes it. */
  lemma StepAt(env: H.Env, p: Program, m: Vm, j: nat, op: Byte)
    requires At(p, m, j, op)
    ensures var d := DecodeOp(p.code, op, j + 1, j > m.pc);
      Step(env, p, m) == if d.Live? then Exec(env, p, m.(pc := d.value.1), d.value.0) else d.PropagateFailure()
  {
    hide Decode, DecodeOp, Exec;
    OpcodeIs(p.code, m.pc, j);
    DecodeAt(p.code, m.pc, false);
  }

  /** An instruction without operands is executed with pc behind its opcode. */
  lemma PlainStep(env: H.Env, p: Program, m: Vm, j: nat, op: Byte, ins: Instr)
    requires At(p, m, j, op) && DecodeOp(p.code, op, j + 1, j > m.pc) == Live((ins, j + 1))
    ensures Step(env, p, m) == Exec(env, p, m.(pc := j + 1), ins)
  {
    hide DecodeOp, Exec;
    StepAt(env, p, m, j, op);
  }

  lemma PlainDecodes(code: seq<Byte>, pc: nat, wide: bool)
    requires pc <= |code|
    ensures DecodeOp(code, NOP, pc, wide) == Live((Nop, pc)) && DecodeOp(code, POP, pc, wide) == Live((Pop, pc))
    ensures DecodeOp(code, DUP, pc, wide) == Live((Dup, pc)) && DecodeOp(code, SWAP, pc, wide) == Live((Swap, pc))
    ensures DecodeOp(code, IADD, pc, wide) == Live((Iadd, pc)) && DecodeOp(code, ISUB, pc, wide) == Live((Isub, pc))
    ensures DecodeOp(code, IAND, pc, wide) == Live((Iand, pc)) && DecodeOp(code, IOR, pc, wide) == Live((Ior, pc))
  {
  }

  lemma PlainDecodesMore(code: seq<Byte>, pc: nat, wide: bool)
    requires pc <= |code|
    ensures DecodeOp(code, IN, pc, wide) == Live((In, pc)) && DecodeOp(code, OUT, pc, wide) == Live((Out, pc))
    ensures DecodeOp(code, ERR, pc, wide) == Live((Err, pc)) && DecodeOp(code, HALT, pc, wide) == Live((Halt, pc))
    ensures DecodeOp(code, IRETURN, pc, wide) == Live((Ireturn, pc))
    ensures DecodeOp(code, NEWARRAY, pc, wide) == Live((NewArray, pc)) && DecodeOp(code, GC, pc, wide) == Live((Gc, pc))
    ensures DecodeOp(code, IALOAD, pc, wide) == Live((Iaload, pc))
    ensures DecodeOp(code, IASTORE, pc, wide) == Live((Iastore, pc))
  {
  }

  /** NOP: pc alone moves. */
  lemma NopStep(env: H.Env, p: Program, m: Vm, j: nat)
    requires At(p, m, j, 0x00)
    ensures Step(env, p, m) == Live(m.(pc := j + 1))
  {
    hide DecodeOp, Step;
    PlainDecodes(p.code, j + 1, j > m.pc);
    PlainStep(env, p, m, j, NOP, Nop);
  }

  /** BIPUSH puts the byte behind it, sign-extended. */
  lemma BipushStep(env: H.Env, p: Program, m: Vm, j: nat)
    requires R.InRange(m) && At(p, m, j, 0x10) && j + 2 <= |p.code|
    ensures var b: int := p.code[j + 1];
      Puts(env, m.(pc := j + 2), if b < 128 then b else b - 256, Step(env, p, m))
  {
    hide Push, Puts, A.Bounded;
    StepAt(env, p, m, j, BIPUSH);
    ByteOverruns(p.code, j + 1);
    PushPuts(env, m.(pc := j + 2), SignedByte(p.code[j + 1]));
  }

  /** A two-byte operand that lies in the code. */
  lemma ShortIs(p: Program, i: nat)
    requires i + 2 <= |p.code|
    ensures ArgShort(p.code, i) == Live(Signed16(p, i)) && UnsignedShort(Signed16(p, i)) == Unsigned16(p, i)
  {
    ShortOverruns(p.code, i);
    ConversionsKeepBits(0, p.code[i], p.code[i + 1]);
  }

  /** LDC_W puts the constant whose unsigned index stands behind it. */
  lemma LdcWStep(env: H.Env, p: Program, m: Vm, j: nat)
    requires R.InRange(m) && At(p, m, j, 0x13) && j + 3 <= |p.code|
    ensures var i := Unsigned16(p, j + 1);
      if i < |p.consts| then Puts(env, m.(pc := j + 3), p.consts[i], Step(env, p, m))
      else Step(env, p, m) == Destroyed
  {
    hide Push, Puts, A.Bounded, Signed16, Unsigned16, ArgShort;
    StepAt(env, p, m, j, LDC_W);
    ShortIs(p, j + 1);
    var i := Unsigned16(p, j + 1);
    if i < |p.consts| { PushPuts(env, m.(pc := j + 3), p.consts[i]); }
  }

  lemma VarIs(p: Program, m: Vm, j: nat)
    requires j + 1 + VarBytes(m, j) <= |p.code|
    ensures VarIndex(p.code, j + 1, j > m.pc) == Live((IncNamed(p, m, j), j + 1 + VarBytes(m, j)))
    ensures -0x8000 <= IncNamed(p, m, j) < 0x8000 && UnsignedShort(IncNamed(p, m, j)) == VarNamed(p, m, j)
  {
    hide ArgShort, ArgByte, Signed16, Unsigned16;
    if j > m.pc { ShortIs(p, j + 1); } else { ByteOverruns(p.code, j + 1); }
  }

  /** ILOAD puts the variable it names. */
  lemma IloadStep(env: H.Env, p: Program, m: Vm, j: nat)
    requires R.InRange(m) && At(p, m, j, 0x15) && j + 1 + VarBytes(m, j) <= |p.code|
    ensures var v := VarNamed(p, m, j);
      if v >= m.nv then Step(env, p, m) == Destroyed
      else if m.lv + v >= |m.stack| then Step(env, p, m) == WildStack
      else Puts(env, m.(pc := j + 1 + VarBytes(m, j)), m.stack[m.lv + v], Step(env, p, m))
  {
    hide Push, Puts, A.Bounded, VarNamed, IncNamed, VarIndex, UnsignedShort;
    StepAt(env, p, m, j, ILOAD);
    VarIs(p, m, j);
    var v := VarNamed(p, m, j);
    if v < m.nv && m.lv + v < |m.stack| { PushPuts(env, m.(pc := j + 1 + VarBytes(m, j)), m.stack[m.lv + v]); }
  }

  /** ISTORE takes the top word and stores it in the variable it names. */
  lemma IstoreStep(env: H.Env, p: Program, m: Vm, j: nat)
    requires R.InRange(m) && At(p, m, j, 0x36) && j + 1 + VarBytes(m, j) <= |p.code|
    ensures var v := VarNamed(p, m, j);
      Step(env, p, m) ==
        if !Has(m, 1) || v >= m.nv then Destroyed
        else if m.lv + v >= |m.stack| then WildStack
        else Live(m.(pc := j + 1 + VarBytes(m, j), sp := m.sp - 1, stack := m.stack[m.lv + v := m.stack[m.sp]]))
  {
    hide A.Bounded, VarNamed, IncNamed, DecodeOp, Step;
    StoreDecodes(p, m, j);
    StepAt(env, p, m, j, ISTORE);
  }

  lemma StoreDecodes(p: Program, m: Vm, j: nat)
    requires j + 1 + VarBytes(m, j) <= |p.code|
    ensures DecodeOp(p.code, ISTORE, j + 1, j > m.pc) == Live((Istore(VarNamed(p, m, j)), j + 1 + VarBytes(m, j)))
  {
    hide VarNamed, IncNamed, VarIndex, UnsignedShort;
    VarIs(p, m, j);
  }

  /** IINC adds the signed byte behind the index to the variable, modulo 2^32. */
  lemma IincStep(env: H.Env, p: Program, m: Vm, j: nat)
    requires R.InRange(m) && At(p, m, j, 0x84) && j + 2 + VarBytes(m, j) <= |p.code|
    ensures var v := IncNamed(p, m, j);
      var b: int := p.code[j + 1 + VarBytes(m, j)];
      var r := Step(env, p, m);
      if v < 0 || v >= m.nv then r == Destroyed
      else if m.lv + v >= |m.stack| then r == WildStack
      else
        r.Live? && |r.value.stack| == |m.stack| &&
        var w := r.value.stack[m.lv + v];
        r == Live(m.(pc := j + 2 + VarBytes(m, j), stack := m.stack[m.lv + v := w])) &&
        Congruent(w, m.stack[m.lv + v] + if b < 128 then b else b - 256)
  {
    hide A.Bounded, VarNamed, IncNamed, DecodeOp, Step, Wrap, Congruent, SignedByte;
    IncDecodes(p, m, j);
    StepAt(env, p, m, j, IINC);
    var v, at := IncNamed(p, m, j), j + 1 + VarBytes(m, j);
    if 0 <= v < m.nv && m.lv + v < |m.stack| { WrapCongruent(m.stack[m.lv + v] + SignedByte(p.code[at])); }
  }

  lemma IncDecodes(p: Program, m: Vm, j: nat)
    requires j + 2 + VarBytes(m, j) <= |p.code|
    ensures var at := j + 1 + VarBytes(m, j);
      var b: int := p.code[at];
      SignedByte(b) == (if b < 128 then b else b - 256) &&
      DecodeOp(p.code, IINC, j + 1, j > m.pc) == Live((Iinc(IncNamed(p, m, j), SignedByte(b)), at + 1))
  {
    hide VarNamed, IncNamed, VarIndex, UnsignedShort, ArgByte;
    VarIs(p, m, j);
    ByteOverruns(p.code, j + 1 + VarBytes(m, j));
  }

  /** POP takes the top word away and changes no word. */
  lemma PopStep(env: H.Env, p: Program, m: Vm, j: nat)
    requires R.InRange(m) && At(p, m, j, 0x57)
    ensures Step(env, p, m) == if Has(m, 1) then Live(m.(pc := j + 1, sp := m.sp - 1)) else Destroyed
  {
    hide A.Bounded, DecodeOp, Step;
    PlainDecodes(p.code, j + 1, j > m.pc);
    PlainStep(env, p, m, j, POP, Pop);
  }

  /** DUP puts the word at sp once more; at -1 there is none, and nothing is checked. */
  lemma DupStep(env: H.Env, p: Program, m: Vm, j: nat)
    requires R.InRange(m) && At(p, m, j, 0x59)
    ensures if m.sp < 0 then Step(env, p, m) == WildStack
            else Puts(env, m.(pc := j + 1), m.stack[m.sp], Step(env, p, m))
  {
    hide A.Bounded, Push, Puts, DecodeOp, Step;
    PlainDecodes(p.code, j + 1, j > m.pc);
    PlainStep(env, p, m, j, DUP, Dup);
    if m.sp >= 0 { PushPuts(env, m.(pc := j + 1), m.stack[m.sp]); }
  }

  /** SWAP exchanges the two top words. */
  lemma SwapStep(env: H.Env, p: Program, m: Vm, j: nat)
    requires R.InRange(m) && At(p, m, j, 0x5F)
    ensures Step(env, p, m) ==
      if Has(m, 2) then
        Live(m.(pc := j + 1, stack := m.stack[m.sp - 1 := m.stack[m.sp]][m.sp := m.stack[m.sp - 1]]))
      else Destroyed
  {
    hide A.Bounded, Push, DecodeOp, Step;
    PlainDecodes(p.code, j + 1, j > m.pc);
    PlainStep(env, p, m, j, SWAP, Swap);
    if Has(m, 2) {
      var m2 := m.(pc := j + 1, sp := m.sp - 2);
      PushInPlace(env, m2, m.stack[m.sp]);
      PushInPlace(env, m2.(sp := m.sp - 1, stack := m.stack[m.sp - 1 := m.stack[m.sp]]), m.stack[m.sp - 1]);
    }
  }

  /** The two top words, the right one topmost, are replaced by one word. */
  predicate Replaces(m: Vm, j: nat, r: Outcome<Vm>) {
    if Has(m, 2) && m.sp < |m.stack| then
      r.Live? && |r.value.stack| == |m.stack| &&
      r.value == m.(pc := j + 1, sp := m.sp - 1, stack := m.stack[m.sp - 1 := r.value.stack[m.sp - 1]])
    else r == Destroyed
  }

  lemma BinaryStep(env: H.Env, p: Program, m: Vm, j: nat, op: Arith)
    requires R.InRange(m) && 0 <= j
    ensures var r := Binary(env, m.(pc := j + 1), op);
      Replaces(m, j, r) && (Has(m, 2) ==> r.value.stack[m.sp - 1] == Compute(op, m.stack[m.sp - 1], m.stack[m.sp]))
  {
    hide A.Bounded, Push, Compute;
    if Has(m, 2) {
      PushInPlace(env, m.(pc := j + 1, sp := m.sp - 2), Compute(op, m.stack[m.sp - 1], m.stack[m.sp]));
    }
  }

  /** IADD leaves the sum of the two top words modulo 2^32. */
  lemma IaddStep(env: H.Env, p: Program, m: Vm, j: nat)
    requires R.InRange(m) && At(p, m, j, 0x60)
    ensures var r := Step(env, p, m);
      Replaces(m, j, r) &&
      (Has(m, 2) ==>
        var a: int, b: int := m.stack[m.sp - 1], m.stack[m.sp];
        Congruent(r.value.stack[m.sp - 1], a + b))
  {
    hide Binary, Replaces, A.Bounded, Wrap, DecodeOp, Step, Congruent;
    PlainDecodes(p.code, j + 1, j > m.pc);
    PlainStep(env, p, m, j, IADD, Iadd);
    BinaryStep(env, p, m, j, Add);
    if Has(m, 2) {
      var a: int, b: int := m.stack[m.sp - 1], m.stack[m.sp];
      WrapCongruent(a + b);
    }
  }

  /** ISUB leaves the lower word minus the topmost one modulo 2^32. */
  lemma IsubStep(env: H.Env, p: Program, m: Vm, j: nat)
    requires R.InRange(m) && At(p, m, j, 0x64)
    ensures var r := Step(env, p, m);
      Replaces(m, j, r) &&
      (Has(m, 2) ==>
        var a: int, b: int := m.stack[m.sp - 1], m.stack[m.sp];
        Congruent(r.value.stack[m.sp - 1], a - b))
  {
    hide Binary, Replaces, A.Bounded, Wrap, DecodeOp, Step, Congruent;
    PlainDecodes(p.code, j + 1, j > m.pc);
    PlainStep(env, p, m, j, ISUB, Isub);
    BinaryStep(env, p, m, j, Sub);
    if Has(m, 2) {
      var a: int, b: int := m.stack[m.sp - 1], m.stack[m.sp];
      WrapCongruent(a - b);
    }
  }

  /** IAND and IOR, bit by bit. */
  lemma IandStep(env: H.Env, p: Program, m: Vm, j: nat, k: nat)
    requires R.InRange(m) && At(p, m, j, 0x7E)
    ensures var r := Step(env, p, m);
      Replaces(m, j, r) &&
      (Has(m, 2) ==>
        (B.BitOf(ToU32(r.value.stack[m.sp - 1]), k) == 1 <==>
          B.BitOf(ToU32(m.stack[m.sp - 1]), k) == 1 && B.BitOf(ToU32(m.stack[m.sp]), k) == 1))
  {
    hide Binary, Replaces, A.Bounded, Compute, DecodeOp, Step, B.BitOf, ToU32;
    PlainDecodes(p.code, j + 1, j > m.pc);
    PlainStep(env, p, m, j, IAND, Iand);
    BinaryStep(env, p, m, j, And);
    if Has(m, 2) { ComputeBits(m.stack[m.sp - 1], m.stack[m.sp], k); }
  }

  lemma IorStep(env: H.Env, p: Program, m: Vm, j: nat, k: nat)
    requires R.InRange(m) && At(p, m, j, 0xB0)
    ensures var r := Step(env, p, m);
      Replaces(m, j, r) &&
      (Has(m, 2) ==>
        (B.BitOf(ToU32(r.value.stack[m.sp - 1]), k) == 1 <==>
          B.BitOf(ToU32(m.stack[m.sp - 1]), k) == 1 || B.BitOf(ToU32(m.stack[m.sp]), k) == 1))
  {
    hide Binary, Replaces, A.Bounded, Compute, DecodeOp, Step, B.BitOf, ToU32;
    PlainDecodes(p.code, j + 1, j > m.pc);
    PlainStep(env, p, m, j, IOR, Ior);
    BinaryStep(env, p, m, j, Or);
    if Has(m, 2) { ComputeBits(m.stack[m.sp - 1], m.stack[m.sp], k); }
  }

  /** Where a branch at `j` leads: the offset counts from its opcode, and wraps at 16 bits three bytes early. */
  function Target(p: Program, j: nat): int
    requires j + 3 <= |p.code|
  {
    var s := Signed16(p, j + 1);
    j + s + if s - 3 < -0x8000 then 0x1_0000 else 0
  }

  /** A jump from `j` to `t` is refused below 0 and where the distance from behind the branch is the code's size. */
  predicate Refused(p: Program, j: nat, t: int) {
    t < 0 || t > 0x7FFF_FFFF || t - (j + 3) >= |p.code|
  }

  /** A branch at `j` that takes `n` operands, to its target if `taken`. */
  predicate Branches(p: Program, m: Vm, j: nat, n: nat, taken: bool, r: Outcome<Vm>)
    requires j + 3 <= |p.code|
  {
    r == if !Has(m, n) && n > 0 then Destroyed
         else if taken && Refused(p, j, Target(p, j)) then Destroyed
         else Live(m.(pc := if taken then Target(p, j) else j + 3, sp := m.sp - n))
  }

  lemma BranchDecodes(p: Program, j: nat, wide: bool)
    requires j + 3 <= |p.code|
    ensures var o := WrapShort(Signed16(p, j + 1) - 3);
      j + 3 + o == Target(p, j) && -0x8000 <= o < 0x8000 &&
      DecodeOp(p.code, IFEQ, j + 1, wide) == Live((Ifeq(o), j + 3)) &&
      DecodeOp(p.code, IFLT, j + 1, wide) == Live((Iflt(o), j + 3)) &&
      DecodeOp(p.code, ICMPEQ, j + 1, wide) == Live((Icmpeq(o), j + 3)) &&
      DecodeOp(p.code, GOTO, j + 1, wide) == Live((Goto(o), j + 3))
  {
    hide ArgShort, Signed16, Unsigned16;
    ShortIs(p, j + 1);
  }

  lemma JumpTo(p: Program, m: Vm, j: nat, taken: bool)
    requires j + 3 <= |p.code| && m.pc == j + 3
    ensures JumpIf(p, m, taken, WrapShort(Signed16(p, j + 1) - 3)) ==
      if taken && Refused(p, j, Target(p, j)) then Destroyed
      else Live(m.(pc := if taken then Target(p, j) else j + 3))
  {
    hide DecodeOp, Signed16;
    BranchDecodes(p, j, false);
  }

  /** IFEQ jumps exactly if the word it takes is 0. */
  lemma IfeqStep(env: H.Env, p: Program, m: Vm, j: nat)
    requires R.InRange(m) && At(p, m, j, 0x99) && j + 3 <= |p.code|
    ensures Branches(p, m, j, 1, 0 <= m.sp && m.stack[m.sp] == 0, Step(env, p, m))
  {
    hide A.Bounded, DecodeOp, Step, JumpIf, Jump, Target, Refused, WrapShort, Signed16;
    StepAt(env, p, m, j, IFEQ);
    BranchDecodes(p, j, j > m.pc);
    JumpTo(p, m.(pc := j + 3, sp := m.sp - 1), j, 0 <= m.sp && m.stack[m.sp] == 0);
  }

  /** IFLT jumps exactly if the word it takes is negative. */
  lemma IfltStep(env: H.Env, p: Program, m: Vm, j: nat)
    requires R.InRange(m) && At(p, m, j, 0x9B) && j + 3 <= |p.code|
    ensures Branches(p, m, j, 1, 0 <= m.sp && m.stack[m.sp] < 0, Step(env, p, m))
  {
    hide A.Bounded, DecodeOp, Step, JumpIf, Jump, Target, Refused, WrapShort, Signed16;
    StepAt(env, p, m, j, IFLT);
    BranchDecodes(p, j, j > m.pc);
    JumpTo(p, m.(pc := j + 3, sp := m.sp - 1), j, 0 <= m.sp && m.stack[m.sp] < 0);
  }

  /** ICMPEQ jumps exactly if the two words it takes are equal. */
  lemma IcmpeqStep(env: H.Env, p: Program, m: Vm, j: nat)
    requires R.InRange(m) && At(p, m, j, 0x9F) && j + 3 <= |p.code|
    ensures Branches(p, m, j, 2, 1 <= m.sp && m.stack[m.sp - 1] == m.stack[m.sp], Step(env, p, m))
  {
    hide A.Bounded, DecodeOp, Step, JumpIf, Jump, Target, Refused, WrapShort, Signed16;
    StepAt(env, p, m, j, ICMPEQ);
    BranchDecodes(p, j, j > m.pc);
    JumpTo(p, m.(pc := j + 3, sp := m.sp - 2), j, 1 <= m.sp && m.stack[m.sp - 1] == m.stack[m.sp]);
  }

  /** GOTO always jumps. */
  lemma GotoStep(env: H.Env, p: Program, m: Vm, j: nat)
    requires R.InRange(m) && At(p, m, j, 0xA7) && j + 3 <= |p.code|
    ensures Branches(p, m, j, 0, true, Step(env, p, m))
  {
    hide A.Bounded, DecodeOp, Step, JumpIf, Target, Refused, WrapShort, Signed16;
    StepAt(env, p, m, j, GOTO);
    BranchDecodes(p, j, j > m.pc);
    JumpTo(p, m.(pc := j + 3), j, true);
    JumpsAlways(p, m.(pc := j + 3), WrapShort(Signed16(p, j + 1) - 3));
  }

  lemma JumpsAlways(p: Program, m: Vm, offset: int)
    ensures JumpIf(p, m, true, offset) == Jump(p, m, offset)
  {
  }

  /** IN puts the next byte of input, or 0 at its end. */
  lemma InStep(env: H.Env, p: Program, m: Vm, j: nat)
    requires R.InRange(m) && At(p, m, j, 0xFC)
    ensures
      if m.input == [] then Puts(env, m.(pc := j + 1), 0, Step(env, p, m))
      else Puts(env, m.(pc := j + 1, input := m.input[1..]), m.input[0], Step(env, p, m))
  {
    hide A.Bounded, Push, Puts, DecodeOp, Step;
    PlainDecodesMore(p.code, j + 1, j > m.pc);
    PlainStep(env, p, m, j, IN, In);
    if m.input == [] { PushPuts(env, m.(pc := j + 1), 0); }
    else { PushPuts(env, m.(pc := j + 1, input := m.input[1..]), m.input[0]); }
  }

  /** OUT takes the top word and appends its low byte to the output. */
  lemma OutStep(env: H.Env, p: Program, m: Vm, j: nat)
    requires R.InRange(m) && At(p, m, j, 0xFD)
    ensures var r := Step(env, p, m);
      if !Has(m, 1) then r == Destroyed
      else
        r.Live? && |r.value.output| == |m.output| + 1 &&
        var b: int := r.value.output[|m.output|];
        r == Live(m.(pc := j + 1, sp := m.sp - 1, output := m.output + [b])) && (m.stack[m.sp] - b) % 256 == 0
  {
    hide A.Bounded, DecodeOp, Step;
    PlainDecodesMore(p.code, j + 1, j > m.pc);
    PlainStep(env, p, m, j, OUT, Out);
  }

  /** ERR, HALT and every byte that is no opcode raise a flag, and the run is over. */
  lemma EndStep(env: H.Env, p: Program, m: Vm, j: nat, op: Byte, n: nat)
    requires At(p, m, j, op)
    requires op !in {0x00, 0x10, 0x13, 0x15, 0x36, 0x57, 0x59, 0x5F, 0x60, 0x64, 0x7E, 0x84, 0x99, 0x9B, 0x9F, 0xA7}
    requires op !in {0xAC, 0xB0, 0xB6, 0xD1, 0xD2, 0xD3, 0xD4, 0xE1, 0xE2, 0xE3, 0xE4, 0xE5, 0xFC, 0xFD}
    ensures Step(env, p, m) == Live(if op == 0xFF then m.(pc := j + 1, halt := true) else m.(pc := j + 1, err := true))
    ensures Run(env, p, Step(env, p, m).value, n) == Step(env, p, m)
  {
    hide Step, Decode;
    StepAt(env, p, m, j, op);
    assert DecodeOp(p.code, op, j + 1, j > m.pc)
        == Live((if op == HALT then Halt else if op == ERR then Err else Invalid, j + 1));
  }

  /** A run goes on exactly while no flag is up and pc lies in the code. */
  lemma RunTurns(env: H.Env, p: Program, m: Vm, n: nat)
    ensures Run(env, p, m, n + 1) ==
      if m.err || m.halt || m.pc < 0 || m.pc >= |p.code| then Live(m)
      else if Step(env, p, m).Live? then Run(env, p, Step(env, p, m).value, n)
      else Step(env, p, m)
  {
    hide Step;
  }

  /** An instruction whose operands the code cuts off never completes. */
  lemma CutStep(env: H.Env, p: Program, m: Vm, j: nat, op: Byte, k: nat)
    requires R.InRange(m) && !Finished(p, m) && At(p, m, j, op)
    requires k < |Fetches(op, j > m.pc)| && j + 1 + Fetches(op, j > m.pc)[k] > |p.code|
    ensures Step(env, p, m) == Destroyed || Step(env, p, m) == WildCode
    ensures |p.code| < 0x7FFF_FFFE ==> Step(env, p, m) == Destroyed
  {
    hide Step, A.Bounded, Exec, DecodeOp, Fetches;
    StepAt(env, p, m, j, op);
    CutDecodes(p.code, op, j + 1, j > m.pc, k);
    if DecodeOp(p.code, op, j + 1, j > m.pc).Live? { CutExec(env, p, m.(pc := j + 1)); }
    if |p.code| < 0x7FFF_FFFE {
      R.SmallCodeReadsStayInside(env, p, m);
      assert p.code[j] != WIDE;
    }
  }

  lemma CutExec(env: H.Env, p: Program, m: Vm)
    requires m.sp < |m.stack|
    ensures Exec(env, p, m, IstoreCut) == Destroyed || Exec(env, p, m, IstoreCut) == WildCode
  {
  }

  lemma CutDecodes(code: seq<Byte>, op: Byte, pc: nat, wide: bool, k: nat)
    requires pc <= |code| < 0x8000_0000 && k < |Fetches(op, wide)| && pc + Fetches(op, wide)[k] > |code|
    ensures var r := DecodeOp(code, op, pc, wide); r == Destroyed || r == WildCode || r == Live((IstoreCut, pc))
  {
    hide ArgByte, ArgShort;
    ByteOverruns(code, pc);
    ShortOverruns(code, pc);
    if op == IINC {
      var n := if wide then 2 else 1;
      if pc + n <= |code| { ByteOverruns(code, pc + n); }
    }
  }

  /** NET instructions are where the model stops. */
  lemma NetStep(env: H.Env, p: Program, m: Vm, j: nat, op: Byte)
    requires At(p, m, j, op) && op in {0xE1, 0xE2, 0xE3, 0xE4, 0xE5}
    ensures Step(env, p, m) == Unmodelled
  {
    hide Step, Decode;
    StepAt(env, p, m, j, op);
  }

  /** The references the collector finds while `taken` words of `m` are off the stack. */
  ghost function RootsWithout(m: Vm, taken: nat): set<nat> {
    H.RootsOf(if 0 <= m.sp - taken <= |m.stack| then m.stack[..m.sp - taken] else [])
  }

  /** NEWARRAY takes the count, creates, and leaves the reference in the count's place. */
  lemma NewarrayStep(env: H.Env, p: Program, m: Vm, j: nat)
    requires R.InRange(m) && At(p, m, j, 0xD1)
    ensures Step(env, p, m) ==
      if !Has(m, 1) then Destroyed
      else
        var r := H.Create(env, m.heap, m.stack[m.sp], RootsWithout(m, 1));
        if r.Live? then Live(m.(pc := j + 1, heap := r.value.0, stack := m.stack[m.sp := r.value.1])) else Destroyed
  {
    hide A.Bounded, DecodeOp, Step, Push, H.Create, H.RootsOf;
    PlainDecodesMore(p.code, j + 1, j > m.pc);
    PlainStep(env, p, m, j, NEWARRAY, NewArray);
    if Has(m, 1) {
      var m1 := m.(pc := j + 1, sp := m.sp - 1);
      assert Roots(m1) == RootsWithout(m, 1);
      var r := H.Create(env, m.heap, m.stack[m.sp], RootsWithout(m, 1));
      if r.Live? { PushInPlace(env, m1.(heap := r.value.0), r.value.1); }
    }
  }

  /** IALOAD takes the reference from the top and the index below it, and leaves the element. */
  lemma IaloadStep(env: H.Env, p: Program, m: Vm, j: nat)
    requires R.InRange(m) && At(p, m, j, 0xD2)
    ensures Step(env, p, m) ==
      if !Has(m, 2) then Destroyed
      else
        var r := H.Get(m.heap, m.stack[m.sp], m.stack[m.sp - 1]);
        if r.Live? then Live(m.(pc := j + 1, sp := m.sp - 1, stack := m.stack[m.sp - 1 := r.value])) else Destroyed
  {
    hide A.Bounded, DecodeOp, Step, Push, H.Get;
    PlainDecodesMore(p.code, j + 1, j > m.pc);
    PlainStep(env, p, m, j, IALOAD, Iaload);
    if Has(m, 2) {
      var r := H.Get(m.heap, m.stack[m.sp], m.stack[m.sp - 1]);
      if r.Live? { PushInPlace(env, m.(pc := j + 1, sp := m.sp - 2), r.value); }
    }
  }

  /** IASTORE takes the reference from the top, the index below it, and the word below that. */
  lemma IastoreStep(env: H.Env, p: Program, m: Vm, j: nat)
    requires R.InRange(m) && At(p, m, j, 0xD3)
    ensures Step(env, p, m) ==
      if !Has(m, 3) then Destroyed
      else
        var r := H.Set(m.heap, m.stack[m.sp], m.stack[m.sp - 1], m.stack[m.sp - 2]);
        if r.Live? then Live(m.(pc := j + 1, sp := m.sp - 3, heap := r.value)) else Destroyed
  {
    hide A.Bounded, DecodeOp, Step, H.Set;
    PlainDecodesMore(p.code, j + 1, j > m.pc);
    PlainStep(env, p, m, j, IASTORE, Iastore);
  }

  /** GC collects with the words below the top. */
  lemma GcStep(env: H.Env, p: Program, m: Vm, j: nat)
    requires R.InRange(m) && At(p, m, j, 0xD4)
    ensures Step(env, p, m) ==
      var r := H.Gc(env, m.heap, RootsWithout(m, 0));
      if r.Live? then Live(m.(pc := j + 1, heap := r.value.0)) else Destroyed
  {
    hide A.Bounded, DecodeOp, Step, H.Gc, H.RootsOf;
    PlainDecodesMore(p.code, j + 1, j > m.pc);
    PlainStep(env, p, m, j, GC, Gc);
    assert Roots(m.(pc := j + 1)) == RootsWithout(m, 0);
  }

  /** The constant an INVOKEVIRTUAL at `j` names is an address whose four-byte header lies in the code. */
  predicate NamesMethod(p: Program, j: nat)
    requires j + 3 <= |p.code|
  {
    var s := Signed16(p, j + 1);
    0 <= s < |p.consts| && 0 <= p.consts[s] && p.consts[s] + 4 <= |p.code|
  }

  /** What a call at `j` leaves: the header's counts, the linkage words, zeroed locals, and all else as it was. */
  predicate Called(p: Program, m: Vm, j: nat, m': Vm)
    requires j + 3 <= |p.code| && NamesMethod(p, j)
  {
    var a: int := p.consts[Signed16(p, j + 1)];
    var args, locals := Unsigned16(p, a), Unsigned16(p, a + 2);
    var fp := m.sp + 1 + locals;
    m' == m.(pc := a + 4, sp := fp + 3, fp := fp, nv := args + locals, lv := m.sp + 1 - args, stack := m'.stack) &&
    0 <= m.sp + 1 <= |m.stack| && fp + 4 <= |m'.stack| && m'.stack[..m.sp + 1] == m.stack[..m.sp + 1] &&
    (forall i :: m.sp + 1 <= i < fp ==> m'.stack[i] == 0) &&
    m'.stack[fp] == Wrap(m.lv) && m'.stack[fp + 1] == Wrap(m.nv) && m'.stack[fp + 2] == Wrap(m.fp) &&
    m'.stack[fp + 3] == Wrap(j + 3)
  }

  lemma MethodIs(p: Program, j: nat)
    requires j + 3 <= |p.code|
    ensures Method(p, Signed16(p, j + 1)).Live? <==> NamesMethod(p, j)
    ensures NamesMethod(p, j) ==>
      var a: int := p.consts[Signed16(p, j + 1)];
      Method(p, Signed16(p, j + 1)) == Live((a, Unsigned16(p, a), Unsigned16(p, a + 2)))
  {
    hide ArgShort, Signed16, Unsigned16, UnsignedShort;
    var s := Signed16(p, j + 1);
    if 0 <= s < |p.consts| && 0 <= p.consts[s] < |p.code| {
      ShortOverruns(p.code, p.consts[s]);
      if p.consts[s] + 2 <= |p.code| {
        ShortIs(p, p.consts[s]);
        ShortOverruns(p.code, p.consts[s] + 2);
        if p.consts[s] + 4 <= |p.code| { ShortIs(p, p.consts[s] + 2); }
      }
    }
  }

  /**
   * INVOKEVIRTUAL: it succeeds exactly if the constant names a method whose header lies in the code, the
   * stack holds its arguments, and there is room for its locals and four linkage words.
   */
  lemma InvokevirtualStep(env: H.Env, p: Program, m: Vm, j: nat)
    requires R.InRange(m) && At(p, m, j, 0xB6) && j + 3 <= |p.code|
    ensures Step(env, p, m).Live? <==>
      NamesMethod(p, j) &&
      var a: int := p.consts[Signed16(p, j + 1)];
      Unsigned16(p, a) <= m.sp + 1 && RoomFor(env, |m.stack|, m.sp + Unsigned16(p, a + 2) + 4)
    ensures Step(env, p, m).Live? ==> Called(p, m, j, Step(env, p, m).value)
  {
    hide A.Bounded, DecodeOp, Step, InvokeMethod, Method, Signed16, Unsigned16, Wrap, RoomFor;
    StepAt(env, p, m, j, INVOKEVIRTUAL);
    CallDecodes(p, j, j > m.pc);
    MethodIs(p, j);
    var s := Signed16(p, j + 1);
    var m0 := m.(pc := j + 3);
    assert Step(env, p, m) == InvokeMethod(env, p, m0, s);
    if NamesMethod(p, j) {
      var a: int := p.consts[s];
      var args, locals := Unsigned16(p, a), Unsigned16(p, a + 2);
      if args <= m.sp + 1 {
        CallEffect(env, p, m0, s, args, locals);
      } else {
        TooFewArguments(env, p, m0, s);
      }
    } else {
      Refinement.InvokeNoMethod(env, p, m0, s);
    }
  }

  lemma CallDecodes(p: Program, j: nat, wide: bool)
    requires j + 3 <= |p.code|
    ensures DecodeOp(p.code, INVOKEVIRTUAL, j + 1, wide) == Live((Invoke(Signed16(p, j + 1)), j + 3))
  {
    hide ArgShort, Signed16;
    ShortIs(p, j + 1);
  }

  lemma CallEffect(env: H.Env, p: Program, m: Vm, s: int, args: nat, locals: nat)
    requires R.InRange(m) && Method(p, s).Live? && Method(p, s).value.1 == args && Method(p, s).value.2 == locals
    requires args <= m.sp + 1
    ensures var r := InvokeMethod(env, p, m, s);
      (r.Live? <==> RoomFor(env, |m.stack|, m.sp + locals + 4)) &&
      (r.Live? ==>
        var fp := m.sp + 1 + locals;
        fp + 4 <= |r.value.stack| && r.value.stack[..m.sp + 1] == m.stack[..m.sp + 1] &&
        (forall i :: m.sp + 1 <= i < fp ==> r.value.stack[i] == 0) &&
        r.value.stack[fp] == Wrap(m.lv) && r.value.stack[fp + 1] == Wrap(m.nv) &&
        r.value.stack[fp + 2] == Wrap(m.fp) && r.value.stack[fp + 3] == Wrap(m.pc) &&
        r.value == m.(pc := Method(p, s).value.0 + 4, sp := fp + 3, fp := fp, nv := args + locals,
                      lv := m.sp + 1 - args, stack := r.value.stack))
  {
    hide A.Bounded, InvokeMethod, Method, Wrap, R.Enough;
    var flat, link := m.stack[..m.sp + 1], [Wrap(m.lv), Wrap(m.nv), Wrap(m.fp), Wrap(m.pc)];
    Refinement.InvokeEffect(env, p, m, s, flat, link);
    R.GrowSucceedsIff(env, m.stack, m.sp + locals + 4);
    Refinement.GrowIsGrowCap(env, m.stack, m.sp + locals + 4);
    var r := InvokeMethod(env, p, m, s);
    if r.Live? {
      var all := flat + seq(locals, _ => 0) + link;
      assert r.value.stack[..|all|] == all;
      forall i | 0 <= i < |all| ensures r.value.stack[i] == all[i] {
        assert r.value.stack[..|all|][i] == all[i];
      }
      assert r.value.stack[..m.sp + 1] == flat;
    }
  }

  lemma TooFewArguments(env: H.Env, p: Program, m: Vm, s: int)
    requires R.InRange(m) && Method(p, s).Live? && Method(p, s).value.1 > m.sp + 1
    ensures InvokeMethod(env, p, m, s) == Destroyed
  {
    hide Push, Method, A.Bounded, Wrap;
    forall m0: Vm, w: Word | m0.sp >= -1
      ensures var r := Push(env, m0, w); r == Destroyed || (r.Live? && r.value.sp == m0.sp + 1)
    {
      PushMoves(env, m0, w);
    }
  }

  lemma PushMoves(env: H.Env, m: Vm, w: Word)
    requires m.sp >= -1
    ensures var r := Push(env, m, w); r == Destroyed || (r.Live? && r.value.sp == m.sp + 1)
  {
    hide Grow;
  }

  /** The registers a return restores: the four linkage words from fp up, and sp below the dropped variables. */
  predicate Returned(m: Vm, m': Vm) {
    0 <= m.sp < |m.stack| && 0 <= m.fp && m.fp + 4 <= |m.stack| &&
    var sp := m.fp - m.nv;
    m' == m.(pc := m.stack[m.fp + 3], fp := m.stack[m.fp + 2], nv := m.stack[m.fp + 1], lv := m.stack[m.fp],
             sp := sp, stack := m'.stack) &&
    0 <= sp < |m'.stack| && |m.stack| <= |m'.stack| && m'.stack[sp] == m.stack[m.sp] &&
    forall i :: 0 <= i < |m.stack| && i != sp ==> m'.stack[i] == m.stack[i]
  }

  /** The words above fp can be read, and are registers of this machine. */
  predicate Restorable(p: Program, m: Vm) {
    0 <= m.fp && m.fp >= m.lv && m.fp + 4 <= |m.stack| && m.fp - m.nv >= 0 &&
    0 <= m.stack[m.fp + 3] < |p.code| && 0 <= m.stack[m.fp + 2] < |m.stack| && 0 <= m.stack[m.fp + 1] &&
    0 <= m.stack[m.fp] < |m.stack|
  }

  /**
   * IRETURN keeps the top word, drops the frame from its variables on, and puts the word there. It
   * succeeds exactly if there is a word and the four above fp pass as registers.
   */
  lemma IreturnStep(env: H.Env, p: Program, m: Vm, j: nat)
    requires R.InRange(m) && At(p, m, j, 0xAC)
    ensures Step(env, p, m).Live? <==> Has(m, 1) && Restorable(p, m)
    ensures Step(env, p, m).Live? ==> Returned(m, Step(env, p, m).value)
  {
    hide A.Bounded, DecodeOp, Step, Push, ReturnWord;
    PlainDecodesMore(p.code, j + 1, j > m.pc);
    PlainStep(env, p, m, j, IRETURN, Ireturn);
    var m0 := m.(pc := j + 1);
    R.ReturnIs(env, p, m0);
    if Has(m, 1) && 0 <= m.fp && m.fp + 4 <= |m.stack| && m.fp - m.nv >= 0 {
      var sp, lv, nv, fp, pc := m.fp - 1 - m.nv, m.stack[m.fp], m.stack[m.fp + 1], m.stack[m.fp + 2], m.stack[m.fp + 3];
      PushInPlace(env, m0.(sp := sp, lv := lv, nv := nv, fp := fp, pc := pc), m.stack[m.sp]);
    }
  }

  /** The operands of the instruction at `j` lie in the code. */
  predicate Whole(p: Program, m: Vm, j: nat, op: Byte) {
    var reach := Fetches(op, j > m.pc);
    reach != [] ==> j + 1 + reach[|reach| - 1] <= |p.code|
  }

  /** How many words the opcode takes from the operands of its frame. */
  function Takes(p: Program, j: nat, op: Byte): nat {
    if op in {0x36, 0x57, 0x59, 0x99, 0x9B, 0xAC, 0xFD, 0xD1} then 1
    else if op in {0x5F, 0x60, 0x64, 0x7E, 0xB0, 0x9F, 0xD2} then 2
    else if op == 0xD3 then 3
    else if op == 0xB6 && j + 3 <= |p.code| && NamesMethod(p, j) then Unsigned16(p, p.consts[Signed16(p, j + 1)])
    else 0
  }

  /** The opcode decodes to an instruction that needs what it takes. */
  predicate NeedsTaken(p: Program, m: Vm, j: nat, op: Byte)
    requires j + 1 <= |p.code|
  {
    var d := DecodeOp(p.code, op, j + 1, j > m.pc);
    d.Live? && C.Needs(p, d.value.0) == Takes(p, j, op) && (d.value.0.Ireturn? <==> op == 0xAC)
  }

  lemma NeedsOf(p: Program, m: Vm, j: nat, op: Byte, ins: Instr)
    requires j + 1 <= |p.code| && DecodeOp(p.code, op, j + 1, j > m.pc) == Live((ins, j + 1))
    requires C.Needs(p, ins) == Takes(p, j, op) && (ins.Ireturn? <==> op == 0xAC)
    ensures NeedsTaken(p, m, j, op)
  {
    hide DecodeOp, C.Needs, Takes;
  }

  lemma PlainNeeds(p: Program, m: Vm, j: nat, op: Byte)
    requires j + 1 <= |p.code| && op in {NOP, POP, DUP, SWAP, IADD, ISUB, IAND, IOR}
    ensures NeedsTaken(p, m, j, op)
  {
    hide DecodeOp, NeedsTaken, NamesMethod, Unsigned16, Signed16, Method;
    PlainDecodes(p.code, j + 1, j > m.pc);
    if op == NOP { NeedsOf(p, m, j, NOP, Nop); }
    else if op == POP { NeedsOf(p, m, j, POP, Pop); }
    else if op == DUP { NeedsOf(p, m, j, DUP, Dup); }
    else if op == SWAP { NeedsOf(p, m, j, SWAP, Swap); }
    else if op == IADD { NeedsOf(p, m, j, IADD, Iadd); }
    else if op == ISUB { NeedsOf(p, m, j, ISUB, Isub); }
    else if op == IAND { NeedsOf(p, m, j, IAND, Iand); }
    else { NeedsOf(p, m, j, IOR, Ior); }
  }

  lemma EndNeeds(p: Program, m: Vm, j: nat, op: Byte)
    requires j + 1 <= |p.code| && op in {IRETURN, IN, OUT, ERR, HALT}
    ensures NeedsTaken(p, m, j, op)
  {
    hide DecodeOp, NeedsTaken, NamesMethod, Unsigned16, Signed16, Method;
    PlainDecodesMore(p.code, j + 1, j > m.pc);
    if op == IRETURN { NeedsOf(p, m, j, IRETURN, Ireturn); }
    else if op == IN { NeedsOf(p, m, j, IN, In); }
    else if op == OUT { NeedsOf(p, m, j, OUT, Out); }
    else if op == ERR { NeedsOf(p, m, j, ERR, Err); }
    else { NeedsOf(p, m, j, HALT, Halt); }
  }

  lemma HeapNeeds(p: Program, m: Vm, j: nat, op: Byte)
    requires j + 1 <= |p.code| && op in {NEWARRAY, IALOAD, IASTORE, GC}
    ensures NeedsTaken(p, m, j, op)
  {
    hide DecodeOp, NeedsTaken, NamesMethod, Unsigned16, Signed16, Method;
    PlainDecodesMore(p.code, j + 1, j > m.pc);
    if op == NEWARRAY { NeedsOf(p, m, j, NEWARRAY, NewArray); }
    else if op == IALOAD { NeedsOf(p, m, j, IALOAD, Iaload); }
    else if op == IASTORE { NeedsOf(p, m, j, IASTORE, Iastore); }
    else { NeedsOf(p, m, j, GC, Gc); }
  }

  lemma OperandNeeds(p: Program, m: Vm, j: nat, op: Byte)
    requires j + 1 <= |p.code| && Whole(p, m, j, op) && op in {BIPUSH, LDC_W, ILOAD, ISTORE, IINC, IFEQ, IFLT, ICMPEQ, GOTO}
    ensures NeedsTaken(p, m, j, op)
  {
    hide DecodeOp, Signed16, Unsigned16, VarNamed, IncNamed, WrapShort, SignedByte;
    var wide := j > m.pc;
    if op == BIPUSH { BipushDecodes(p, j, wide); }
    else if op == LDC_W { LdcDecodes(p, j, wide); }
    else if op == ILOAD { LoadDecodes(p, m, j); }
    else if op == ISTORE { StoreDecodes(p, m, j); }
    else if op == IINC { IncDecodes(p, m, j); }
    else { BranchDecodes(p, j, wide); }
  }

  lemma CallNeeds(p: Program, m: Vm, j: nat)
    requires j + 3 <= |p.code|
    ensures NeedsTaken(p, m, j, INVOKEVIRTUAL)
  {
    hide DecodeOp, Signed16, Unsigned16, NamesMethod, Method;
    CallDecodes(p, j, j > m.pc);
    MethodIs(p, j);
  }

  lemma AllNeeds(p: Program, m: Vm, j: nat, op: Byte)
    requires At(p, m, j, op) && Whole(p, m, j, op)
    ensures NeedsTaken(p, m, j, op)
  {
    hide DecodeOp, C.Needs, NamesMethod;
    if op in {NOP, POP, DUP, SWAP, IADD, ISUB, IAND, IOR} {
      PlainNeeds(p, m, j, op);
    } else if op in {IRETURN, IN, OUT, ERR, HALT} {
      EndNeeds(p, m, j, op);
    } else if op in {NEWARRAY, IALOAD, IASTORE, GC} {
      HeapNeeds(p, m, j, op);
    } else if op in {BIPUSH, LDC_W, ILOAD, ISTORE, IINC, IFEQ, IFLT, ICMPEQ, GOTO} {
      OperandNeeds(p, m, j, op);
    } else if op == INVOKEVIRTUAL {
      CallNeeds(p, m, j);
    } else {
      OtherDecodes(p.code, op, j + 1, j > m.pc);
      NetNeeds(p);
    }
  }

  lemma NetNeeds(p: Program)
    ensures C.Needs(p, Net) == 0 && C.Needs(p, Invalid) == 0
  {
  }

  lemma BipushDecodes(p: Program, j: nat, wide: bool)
    requires j + 2 <= |p.code|
    ensures DecodeOp(p.code, BIPUSH, j + 1, wide) == Live((Bipush(SignedByte(p.code[j + 1])), j + 2))
  {
    ByteOverruns(p.code, j + 1);
  }

  lemma LdcDecodes(p: Program, j: nat, wide: bool)
    requires j + 3 <= |p.code|
    ensures DecodeOp(p.code, LDC_W, j + 1, wide) == Live((LdcW(Unsigned16(p, j + 1)), j + 3))
  {
    hide ArgShort, Signed16, Unsigned16;
    ShortIs(p, j + 1);
  }

  lemma LoadDecodes(p: Program, m: Vm, j: nat)
    requires j + 1 + VarBytes(m, j) <= |p.code|
    ensures DecodeOp(p.code, ILOAD, j + 1, j > m.pc) == Live((Iload(VarNamed(p, m, j)), j + 1 + VarBytes(m, j)))
  {
    hide VarNamed, IncNamed, VarIndex, UnsignedShort;
    VarIs(p, m, j);
  }

  lemma OtherDecodes(code: seq<Byte>, op: Byte, pc: nat, wide: bool)
    requires pc <= |code|
    requires op !in {NOP, BIPUSH, LDC_W, ILOAD, ISTORE, POP, DUP, SWAP, IADD, ISUB, IAND, IOR, IINC, IFEQ, IFLT, ICMPEQ}
    requires op !in {GOTO, IRETURN, INVOKEVIRTUAL, IN, OUT, ERR, HALT, NEWARRAY, IALOAD, IASTORE, GC}
    ensures DecodeOp(code, op, pc, wide) == Live((Net, pc)) || DecodeOp(code, op, pc, wide) == Live((Invalid, pc))
  {
  }

  /**
   * The discipline by opcode: a step of the frame machine is undisciplined exactly if its frame holds fewer
   * operands than the byte says, or main returns.
   */
  lemma UndisciplinedIff(env: H.Env, p: Program, m: Vm, a: F.FrameVm, j: nat, op: Byte)
    requires Refinement.Encodes(p, m, a) && At(p, m, j, op) && Whole(p, m, j, op)
    ensures a.pc >= 0
    ensures F.Step(env, p, a) == Undisciplined <==>
      |a.Top().operands| < Takes(p, j, op) || (op == 0xAC && a.frames.Main?)
  {
    hide DecodeOp, Decode, C.Needs, F.Exec, Takes, Whole;
    Refinement.MovePc(p, m, a, 0);
    OpcodeIs(p.code, m.pc, j);
    DecodeAt(p.code, m.pc, false);
    AllNeeds(p, m, j, op);
    var d := DecodeOp(p.code, op, j + 1, j > m.pc);
    C.ExecNeeds(env, p, a.(pc := d.value.1), d.value.0);
  }
}
