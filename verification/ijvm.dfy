/** The processor in place: src/cpu.c and src/interpreter.c on a mutable stack and registers. */
module Ijvms {
  import opened Words
  import opened Outcomes
  import opened Programs
  import M = Machine
  import H = Heaps
  import R = Registers
  import opened ArrayMemories
  import A = Allocation
  import Scan
  import Startup

  /** What the interpreter does for opcode `op` once pc is past it. */
  ghost function AfterOpcode(env: H.Env, p: Program, m: M.Vm, op: Byte, wide: bool): Outcome<M.Vm>
    requires 0 <= m.pc <= |p.code|
  {
    var (ins, next) :- DecodeOp(p.code, op, m.pc, wide);
    M.Exec(env, p, m.(pc := next), ins)
  }

  /** The four linkage pushes of a call. */
  ghost function Linked(env: H.Env, m: M.Vm, oldPc: int): Outcome<M.Vm> {
    var m1 :- M.Push(env, m, Wrap(m.lv));
    var m2 :- M.Push(env, m1, Wrap(m.nv));
    var m3 :- M.Push(env, m2, Wrap(m.fp));
    M.Push(env, m3, Wrap(oldPc))
  }

  /** The callee's frame on top of its arguments. */
  ghost function FrameBuilt(env: H.Env, m: M.Vm, args: nat, locals: nat, oldPc: int): Outcome<M.Vm> {
    var m4 :- Linked(env, m.(sp := m.sp + locals), oldPc);
    Framed(m4, args, locals)
  }

  /** fp, nv and lv moved to the linkage on top, and the callee's locals zeroed. */
  ghost function Framed(m: M.Vm, args: nat, locals: nat): Outcome<M.Vm> {
    var fp := m.sp - 3;
    var lv := fp - (args + locals);
    if lv < 0 then Destroyed
    else if lv + args + locals > |m.stack| then WildStack
    else Live(m.(fp := fp, nv := args + locals, lv := lv, stack := M.Zeroed(m.stack, lv + args, locals)))
  }

  lemma InvokeIs(env: H.Env, p: Program, m: M.Vm, index: int)
    ensures M.InvokeMethod(env, p, m, index) ==
      if Method(p, index).IsFailure() then Method(p, index).PropagateFailure()
      else
        var (address, args, locals) := Method(p, index).value;
        FrameBuilt(env, m.(pc := address + 4), args, locals, m.pc)
  {
    hide M.Push, Method, Wrap;
  }

  /** A step in state `m` with the prefix flag equal to `wide`. */
  ghost function StepFrom(env: H.Env, p: Program, m: M.Vm, wide: bool): Outcome<M.Vm>
    requires m.pc >= 0
  {
    var (ins, next) :- Decode(p.code, m.pc, wide);
    M.Exec(env, p, m.(pc := next), ins)
  }

  lemma StepFromIs(env: H.Env, p: Program, m: M.Vm, wide: bool)
    requires m.pc >= 0
    ensures StepFrom(env, p, m, wide) ==
      if m.pc >= |p.code| then WildCode
      else if p.code[m.pc] == WIDE then StepFrom(env, p, m.(pc := m.pc + 1), true)
      else AfterOpcode(env, p, m.(pc := m.pc + 1), p.code[m.pc], wide)
  {
    hide M.Exec, DecodeOp;
  }

  lemma StepFromIsStep(env: H.Env, p: Program, m: M.Vm)
    requires m.pc >= 0
    ensures StepFrom(env, p, m, false) == M.Step(env, p, m)
  {
    hide M.Exec, Decode;
  }

  lemma RunUnfolds(env: H.Env, p: Program, m: M.Vm, n: nat)
    requires n > 0 && !M.Finished(p, m)
    ensures M.Run(env, p, m, n) ==
      var r := M.Step(env, p, m);
      if r.IsFailure() then r else M.Run(env, p, r.value, n - 1)
  {
    hide M.Step;
  }

  lemma RunEnds(env: H.Env, p: Program, m: M.Vm, n: nat)
    requires n == 0 || M.Finished(p, m)
    ensures M.Run(env, p, m, n) == Live(m)
  {
    hide M.Step;
  }

  lemma AfterArith(env: H.Env, p: Program, m: M.Vm, wide: bool)
    requires 0 <= m.pc <= |p.code|
    ensures AfterOpcode(env, p, m, NOP, wide) == Live(m)
    ensures AfterOpcode(env, p, m, IADD, wide) == M.Binary(env, m, M.Add)
    ensures AfterOpcode(env, p, m, ISUB, wide) == M.Binary(env, m, M.Sub)
    ensures AfterOpcode(env, p, m, IAND, wide) == M.Binary(env, m, M.And)
    ensures AfterOpcode(env, p, m, IOR, wide) == M.Binary(env, m, M.Or)
  {
    hide M.Binary;
  }

  lemma AfterControl(env: H.Env, p: Program, m: M.Vm, wide: bool)
    requires 0 <= m.pc <= |p.code|
    ensures AfterOpcode(env, p, m, IRETURN, wide) == M.ReturnWord(env, p, m)
    ensures AfterOpcode(env, p, m, ERR, wide) == Live(m.(err := true))
    ensures AfterOpcode(env, p, m, HALT, wide) == Live(m.(halt := true))
  {
    hide M.ReturnWord;
  }

  lemma AfterRest(env: H.Env, p: Program, m: M.Vm, op: Byte, wide: bool)
    requires 0 <= m.pc <= |p.code|
    requires op !in {NOP, BIPUSH, LDC_W, ILOAD, ISTORE, POP, DUP, SWAP, IADD, ISUB, IAND, IOR, IINC}
    requires op !in {IFEQ, IFLT, ICMPEQ, GOTO, IRETURN, INVOKEVIRTUAL, ERR, HALT} && op != OUT
    ensures AfterOpcode(env, p, m, op, wide) ==
      if op == IN then M.ReadByte(env, m)
      else if op == NEWARRAY then M.CreateArray(env, m)
      else if op == IALOAD then M.LoadElement(env, m)
      else if op == IASTORE then M.StoreElement(m)
      else if op == GC then M.CollectNow(env, m)
      else if op in {NETBIND, NETCONNECT, NETIN, NETOUT, NETCLOSE} then Unmodelled
      else Live(m.(err := true))
  {
    hide M.ReadByte, M.CreateArray, M.LoadElement, M.StoreElement, M.CollectNow;
  }

  /** `AfterOpcode`, one group of opcodes at a time. */
  lemma AfterPlain(env: H.Env, p: Program, m: M.Vm, op: Byte, ins: Instr, wide: bool)
    requires 0 <= m.pc <= |p.code| && DecodeOp(p.code, op, m.pc, wide) == Live((ins, m.pc))
    ensures AfterOpcode(env, p, m, op, wide) == M.Exec(env, p, m, ins)
  {
    hide M.Exec, DecodeOp;
  }

  lemma AfterPush(env: H.Env, p: Program, m: M.Vm, wide: bool)
    requires 0 <= m.pc <= |p.code|
    ensures var b := ArgByte(p.code, m.pc);
      AfterOpcode(env, p, m, BIPUSH, wide) ==
        if b.IsFailure() then b.PropagateFailure() else M.Push(env, m.(pc := m.pc + 1), SignedByte(b.value))
    ensures var s := ArgShort(p.code, m.pc);
      AfterOpcode(env, p, m, LDC_W, wide) ==
        if s.IsFailure() then s.PropagateFailure()
        else if GetConstant(p, UnsignedShort(s.value)).IsFailure() then Destroyed
        else M.Push(env, m.(pc := m.pc + 2), GetConstant(p, UnsignedShort(s.value)).value)
  {
  }

  lemma AfterIload(env: H.Env, p: Program, m: M.Vm, wide: bool)
    requires 0 <= m.pc <= |p.code|
    ensures var r := VarIndex(p.code, m.pc, wide);
      AfterOpcode(env, p, m, ILOAD, wide) ==
        if r.IsFailure() then r.PropagateFailure()
        else
          var m1 := m.(pc := r.value.1);
          var w := M.GetLocal(m1, UnsignedShort(r.value.0));
          if w.IsFailure() then w.PropagateFailure() else M.Push(env, m1, w.value)
  {
    hide M.Push, M.GetLocal;
  }

  lemma AfterIstore(env: H.Env, p: Program, m: M.Vm, wide: bool)
    requires 0 <= m.pc <= |p.code| && R.InRange(m)
    ensures var r := VarIndex(p.code, m.pc, wide);
      AfterOpcode(env, p, m, ISTORE, wide) ==
        if m.sp < m.lv || m.sp <= -1 then Destroyed
        else if r.IsFailure() then r.PropagateFailure()
        else M.SetLocal(m.(pc := r.value.1, sp := m.sp - 1), m.stack[m.sp], UnsignedShort(r.value.0))
  {
    hide M.SetLocal, A.Bounded;
  }

  lemma AfterIinc(env: H.Env, p: Program, m: M.Vm, wide: bool)
    requires 0 <= m.pc <= |p.code|
    ensures var r := VarIndex(p.code, m.pc, wide);
      AfterOpcode(env, p, m, IINC, wide) ==
        if r.IsFailure() then r.PropagateFailure()
        else if ArgByte(p.code, r.value.1).IsFailure() then ArgByte(p.code, r.value.1).PropagateFailure()
        else
          var (v, c) := (r.value.0, SignedByte(ArgByte(p.code, r.value.1).value));
          var m1 := m.(pc := r.value.1 + 1);
          var w := M.GetLocal(m1, v);
          if w.IsFailure() then w.PropagateFailure() else M.SetLocal(m1, Wrap(w.value + c), v)
  {
    hide M.SetLocal, M.GetLocal, Wrap;
  }

  lemma AfterSwap(env: H.Env, p: Program, m: M.Vm, wide: bool)
    requires 0 <= m.pc <= |p.code| && R.InRange(m)
    ensures AfterOpcode(env, p, m, SWAP, wide) ==
      if m.sp - 1 < m.lv || m.sp <= 0 then Destroyed
      else
        var m1 := M.Push(env, m.(sp := m.sp - 2), m.stack[m.sp]);
        if m1.IsFailure() then m1.PropagateFailure() else M.Push(env, m1.value, m.stack[m.sp - 1])
  {
    hide A.Bounded, M.Push;
    AfterPlain(env, p, m, SWAP, Swap, wide);
  }

  lemma AfterOut(env: H.Env, p: Program, m: M.Vm, wide: bool)
    requires 0 <= m.pc <= |p.code| && R.InRange(m)
    ensures AfterOpcode(env, p, m, OUT, wide) ==
      if m.sp < m.lv || m.sp <= -1 then Destroyed
      else Live(m.(sp := m.sp - 1, output := m.output + [ToU32(m.stack[m.sp]) % 256]))
  {
    hide A.Bounded, ToU32;
  }

  /** The operands a branch takes, and whether they make it jump. */
  lemma AfterBranch(env: H.Env, p: Program, m: M.Vm, op: Byte, wide: bool)
    requires 0 <= m.pc <= |p.code| && R.InRange(m) && (op == IFEQ || op == IFLT || op == ICMPEQ || op == GOTO)
    ensures var s := ArgShort(p.code, m.pc);
      var n := if op == GOTO then 0 else if op == ICMPEQ then 2 else 1;
      AfterOpcode(env, p, m, op, wide) ==
        if s.IsFailure() then s.PropagateFailure()
        else if n > 0 && (m.sp - n + 1 < m.lv || m.sp - n <= -2) then Destroyed
        else
          M.JumpIf(p, m.(pc := m.pc + 2, sp := m.sp - n),
            (op == GOTO || (op == IFEQ && m.stack[m.sp] == 0) || (op == IFLT && m.stack[m.sp] < 0) ||
             (op == ICMPEQ && m.stack[m.sp] == m.stack[m.sp - 1])), WrapShort(s.value - 3))
  {
    hide M.Jump, A.Bounded, WrapShort;
  }

  class Ijvm {
    const env: H.Env
    const prog: Program
    const memory: ArrayMemory
    var stack: array<Word>
    var pc: int
    var sp: int
    var fp: int
    var lv: int
    var nv: int
    var err: bool
    var halt: bool
    var nextWide: bool
    var input: seq<Byte>
    var output: seq<Byte>

    /** `init_stack`, `init_registers` and `init_cpu_flags`, given main's variable count and the stack size. */
    constructor (env: H.Env, prog: Program, input: seq<Byte>, vars: nat, size: nat)
      requires vars <= size
      ensures Sound() && !nextWide && fresh(this) && fresh(stack) && fresh(memory.Repr)
      ensures this.env == env && this.prog == prog
      ensures Abs() == M.Vm(Startup.Fresh(env, size, vars), 0, vars - 1, vars, 0, vars, false, false,
                            Startup.EMPTY_HEAP, input, [])
    {
      this.env, this.prog, this.input, output := env, prog, input, [];
      memory := new ArrayMemory(env);
      stack := new Word[size](i requires 0 <= i => if i < vars then 0 else env.junk(i));
      sp, lv, nv, fp, pc := vars - 1, 0, vars, vars, 0;
      err, halt, nextWide := false, false, false;
      new;
      assert stack[..] == Startup.Fresh(env, size, vars);
    }

    ghost predicate Sound()
      reads this`stack, memory, memory.Repr
    {
      memory.Valid() && memory.env == env && this !in memory.Repr && stack !in memory.Repr
    }

    ghost function Abs(): M.Vm
      reads this, stack, memory
    {
      M.Vm(stack[..], pc, sp, fp, lv, nv, err, halt, memory.State(), input, output)
    }

    /** The outcome and the state are what `s` says. */
    ghost predicate Did(r: Outcome<()>, s: Outcome<M.Vm>)
      reads this, stack, memory, memory.Repr
    {
      if s.Live? then r == Live(()) && Sound() && Abs() == s.value else r == s.PropagateFailure<()>()
    }

    /** `octuple_stack_size`. */
    method OctupleStackSize() returns (r: Outcome<()>)
      requires Sound()
      modifies this`stack
      ensures r.Live? <==> 0 < |old(stack[..])| * 32 <= TWO32 && env.grow(8 * |old(stack[..])|)
      ensures r.Live? || r == Destroyed
      ensures r.Live? ==> Sound() && fresh(stack)
      ensures r.Live? ==> Abs() == old(Abs()).(stack := M.Grown(env, old(stack[..])))
    {
      var n := stack.Length;
      if n * 4 * 8 > TWO32 || n == 0 {
        return Destroyed;
      }
      if !env.grow(8 * n) {
        return Destroyed;
      }
      var old', junk := stack, env.junk;
      var bigger := new Word[8 * n](i requires 0 <= i < 8 * n reads old' =>
        if i < old'.Length then old'[i] else junk(i));
      ghost var want := M.Grown(env, stack[..]);
      stack := bigger;
      assert stack[..] == want;
      r := Live(());
    }

    /** `stack_push`. */
    method StackPush(e: Word) returns (r: Outcome<()>)
      requires Sound() && sp >= -1
      modifies this`stack, this`sp, stack
      ensures Did(r, M.Push(env, old(Abs()), e)) && nextWide == old(nextWide)
      ensures r.Live? ==> sp == old(sp) + 1 < stack.Length
      ensures r.Live? ==> stack == old(stack) || fresh(stack)
    {
      sp := sp + 1;
      ghost var m := Abs();
      while sp >= stack.Length
        invariant Sound() && Abs() == m.(stack := stack[..]) && (stack == old(stack) || fresh(stack))
        invariant nextWide == old(nextWide) && old(stack[..]) == m.stack && sp == m.sp
        invariant M.Grow(env, old(stack[..]), sp) == M.Grow(env, stack[..], sp)
        decreases sp - stack.Length
      {
        ghost var s := stack[..];
        var _ :- OctupleStackSize();
      }
      stack[sp] := e;
      r := Live(());
    }

    /** `stack_pop`. */
    method StackPop() returns (r: Outcome<Word>)
      requires sp < stack.Length
      modifies this`sp
      ensures r == if old(sp) < lv || old(sp) <= -1 then Destroyed else Live(stack[old(sp)])
      ensures r.Live? ==> sp == old(sp) - 1
    {
      if sp < lv || sp <= -1 {
        return Destroyed;
      }
      sp := sp - 1;
      r := Live(stack[sp + 1]);
    }

    ghost predicate Ready()
      reads this, stack, memory, memory.Repr
    {
      Sound() && R.InRange(Abs()) && pc <= |prog.code|
    }

    twostate predicate Kept()
      reads this
    {
      nextWide == old(nextWide) && (stack == old(stack) || fresh(stack))
    }

    /** `get_arg_byte`. */
    method GetArgByte() returns (r: Outcome<Byte>)
      requires 0 <= pc
      modifies this`pc
      ensures r == ArgByte(prog.code, old(pc)) && (r.Live? ==> pc == old(pc) + 1 <= |prog.code|)
    {
      if GuardStops(prog.code, pc, 1) {
        return Destroyed;
      }
      if pc >= |prog.code| {
        return WildCode;
      }
      r := Live(prog.code[pc]);
      pc := pc + 1;
    }

    /** `get_arg_short`. */
    method GetArgShort() returns (r: Outcome<int>)
      requires 0 <= pc
      modifies this`pc
      ensures r == ArgShort(prog.code, old(pc)) && (r.Live? ==> pc == old(pc) + 2 <= |prog.code|)
    {
      if GuardStops(prog.code, pc, 2) {
        return Destroyed;
      }
      if pc + 2 > |prog.code| {
        return WildCode;
      }
      r := Live(SignedShort(prog.code[pc], prog.code[pc + 1]));
      pc := pc + 2;
    }

    /** The index operand of a variable instruction. */
    method GetVarIndex() returns (r: Outcome<int>)
      requires 0 <= pc
      modifies this`pc
      ensures match VarIndex(prog.code, old(pc), nextWide)
        case Live((v, next)) => r == Live(v) && pc == next
        case other => r == other.PropagateFailure<int>()
    {
      if nextWide {
        r := GetArgShort();
      } else {
        var b :- GetArgByte();
        r := Live(b);
      }
    }

    /** `get_local_variable`. */
    method GetLocalVariable(i: int) returns (r: Outcome<Word>)
      ensures r == M.GetLocal(Abs(), i)
    {
      if i < 0 || i >= nv {
        return Destroyed;
      }
      if !(0 <= lv + i < stack.Length) {
        return WildStack;
      }
      r := Live(stack[lv + i]);
    }

    /** `update_local_variable`. */
    method UpdateLocalVariable(w: Word, i: int) returns (r: Outcome<()>)
      requires Sound()
      modifies stack
      ensures Did(r, M.SetLocal(old(Abs()), w, i))
    {
      if i < 0 || i >= nv {
        return Destroyed;
      }
      if !(0 <= lv + i < stack.Length) {
        return WildStack;
      }
      stack[lv + i] := w;
      r := Live(());
    }

    /** `jump`. */
    method DoJump(offset: int) returns (r: Outcome<()>)
      requires Sound()
      modifies this`pc
      ensures Did(r, M.Jump(prog, old(Abs()), offset))
    {
      if Wrap(pc + offset) < 0 || offset >= |prog.code| {
        return Destroyed;
      }
      pc := pc + offset;
      r := Live(());
    }

    method ExecBipush() returns (r: Outcome<()>)
      requires Ready()
      modifies this, stack
      ensures Did(r, AfterOpcode(env, prog, old(Abs()), BIPUSH, old(nextWide))) && (r.Live? ==> Kept())
    {
      hide AfterOpcode, M.Exec, A.Bounded, DecodeOp, Wrap, WrapShort, M.Push;
      AfterPush(env, prog, Abs(), nextWide);
      var b :- GetArgByte();
      r := StackPush(SignedByte(b));
    }

    method ExecLdcW() returns (r: Outcome<()>)
      requires Ready()
      modifies this, stack
      ensures Did(r, AfterOpcode(env, prog, old(Abs()), LDC_W, old(nextWide))) && (r.Live? ==> Kept())
    {
      hide AfterOpcode, M.Exec, A.Bounded, DecodeOp, Wrap, WrapShort, M.Push;
      AfterPush(env, prog, Abs(), nextWide);
      var s :- GetArgShort();
      var w :- GetConstant(prog, UnsignedShort(s));
      r := StackPush(w);
    }

    method ExecIload() returns (r: Outcome<()>)
      requires Ready()
      modifies this, stack
      ensures Did(r, AfterOpcode(env, prog, old(Abs()), ILOAD, old(nextWide))) && (r.Live? ==> Kept())
    {
      hide AfterOpcode, M.Exec, A.Bounded, DecodeOp, Wrap, WrapShort, M.Push;
      AfterIload(env, prog, Abs(), nextWide);
      var v :- GetVarIndex();
      var w :- GetLocalVariable(UnsignedShort(v));
      r := StackPush(w);
    }

    /** The operand is popped before the index is fetched. */
    method ExecIstore() returns (r: Outcome<()>)
      requires Ready()
      modifies this, stack
      ensures Did(r, AfterOpcode(env, prog, old(Abs()), ISTORE, old(nextWide))) && (r.Live? ==> Kept())
    {
      hide AfterOpcode, M.Exec, A.Bounded, DecodeOp, Wrap, WrapShort, M.Push;
      AfterIstore(env, prog, Abs(), nextWide);
      var w :- StackPop();
      var v :- GetVarIndex();
      r := UpdateLocalVariable(w, UnsignedShort(v));
    }

    method ExecPop() returns (r: Outcome<()>)
      requires Ready()
      modifies this, stack
      ensures Did(r, AfterOpcode(env, prog, old(Abs()), POP, old(nextWide))) && (r.Live? ==> Kept())
    {
      AfterPlain(env, prog, Abs(), POP, Pop, nextWide);
      hide AfterOpcode, DecodeOp, A.Bounded;
      var _ :- StackPop();
      r := Live(());
    }

    /** Reads the word at sp without checking that there is one. */
    method ExecDup() returns (r: Outcome<()>)
      requires Ready()
      modifies this, stack
      ensures Did(r, AfterOpcode(env, prog, old(Abs()), DUP, old(nextWide))) && (r.Live? ==> Kept())
    {
      AfterPlain(env, prog, Abs(), DUP, Dup, nextWide);
      hide AfterOpcode, DecodeOp, A.Bounded, M.Push;
      if sp < 0 {
        return WildStack;
      }
      r := StackPush(stack[sp]);
    }

    /** Two pops, the topmost word first. */
    method PopPair() returns (r: Outcome<(Word, Word)>)
      requires Ready()
      modifies this`sp
      ensures if old(sp) - 1 < lv || old(sp) <= 0 then r == Destroyed
              else r == Live((stack[old(sp)], stack[old(sp) - 1])) && sp == old(sp) - 2
    {
      hide ArrayMemory.Valid, A.Bounded;
      var b :- StackPop();
      var a :- StackPop();
      r := Live((b, a));
    }

    method ExecSwap() returns (r: Outcome<()>)
      requires Ready()
      modifies this, stack
      ensures Did(r, AfterOpcode(env, prog, old(Abs()), SWAP, old(nextWide))) && (r.Live? ==> Kept())
    {
      hide ArrayMemory.Valid, AfterOpcode, DecodeOp, A.Bounded, M.Exec, M.Push;
      AfterSwap(env, prog, Abs(), nextWide);
      var pair :- PopPair();
      r := StackPush(pair.0);
      if r.Live? {
        r := StackPush(pair.1);
      }
    }

    /** IADD, ISUB, IAND and IOR differ in the operator alone. */
    method ExecBinary(op: M.Arith) returns (r: Outcome<()>)
      requires Ready()
      modifies this, stack
      ensures Did(r, M.Binary(env, old(Abs()), op)) && (r.Live? ==> Kept())
    {
      hide M.Push, M.Grow;
      var b :- StackPop();
      var a :- StackPop();
      r := StackPush(M.Compute(op, a, b));
    }

    method ExecIinc() returns (r: Outcome<()>)
      requires Ready()
      modifies this, stack
      ensures Did(r, AfterOpcode(env, prog, old(Abs()), IINC, old(nextWide))) && (r.Live? ==> Kept())
    {
      hide ArrayMemory.Valid, AfterOpcode, M.Exec, A.Bounded, DecodeOp, Wrap, WrapShort, M.Push;
      AfterIinc(env, prog, Abs(), nextWide);
      var v :- GetVarIndex();
      var c :- GetArgByte();
      var w :- GetLocalVariable(v);
      r := UpdateLocalVariable(Wrap(w + SignedByte(c)), v);
    }

    /** IFEQ and IFLT: the offset is fetched before the operand is popped. */
    method ExecIf(op: Byte) returns (r: Outcome<()>)
      requires Ready() && (op == IFEQ || op == IFLT)
      modifies this, stack
      ensures Did(r, AfterOpcode(env, prog, old(Abs()), op, old(nextWide))) && (r.Live? ==> Kept())
    {
      hide AfterOpcode, M.Exec, A.Bounded, DecodeOp, Wrap, WrapShort, M.Push;
      AfterBranch(env, prog, Abs(), op, nextWide);
      var s :- GetArgShort();
      var w :- StackPop();
      if (op == IFEQ && w == 0) || (op == IFLT && w < 0) {
        r := DoJump(WrapShort(s - 3));
      } else {
        r := Live(());
      }
    }

    method ExecIcmpeq() returns (r: Outcome<()>)
      requires Ready()
      modifies this, stack
      ensures Did(r, AfterOpcode(env, prog, old(Abs()), ICMPEQ, old(nextWide))) && (r.Live? ==> Kept())
    {
      hide AfterOpcode, M.Exec, A.Bounded, DecodeOp, Wrap, WrapShort, M.Push;
      AfterBranch(env, prog, Abs(), ICMPEQ, nextWide);
      var s :- GetArgShort();
      var b :- StackPop();
      var a :- StackPop();
      if a == b {
        r := DoJump(WrapShort(s - 3));
      } else {
        r := Live(());
      }
    }

    method ExecGoto() returns (r: Outcome<()>)
      requires Ready()
      modifies this, stack
      ensures Did(r, AfterOpcode(env, prog, old(Abs()), GOTO, old(nextWide))) && (r.Live? ==> Kept())
    {
      hide AfterOpcode, M.Exec, A.Bounded, DecodeOp, Wrap, WrapShort, M.Push;
      AfterBranch(env, prog, Abs(), GOTO, nextWide);
      var s :- GetArgShort();
      r := DoJump(WrapShort(s - 3));
    }

    /** The four pops of `exec_op_ireturn`. */
    method PopLinkage() returns (r: Outcome<()>)
      requires sp < stack.Length
      modifies this`sp, this`pc, this`fp, this`nv, this`lv
      ensures r == if old(sp) - 3 < old(lv) || old(sp) - 3 <= -1 then Destroyed else Live(())
      ensures r.Live? ==> sp == old(sp) - 4 && pc == stack[old(sp)] && fp == stack[old(sp) - 1]
      ensures r.Live? ==> nv == stack[old(sp) - 2] && lv == stack[old(sp) - 3]
    {
      pc :- StackPop();
      fp :- StackPop();
      nv :- StackPop();
      lv :- StackPop();
      r := Live(());
    }

    /** Returning trusts the four words above fp; what they restore is checked only afterwards. */
    method ExecIreturn() returns (r: Outcome<()>)
      requires Ready()
      modifies this, stack
      ensures Did(r, M.ReturnWord(env, prog, old(Abs()))) && (r.Live? ==> Kept())
    {
      hide ArrayMemory.Valid, M.Push, M.Grow, M.ReturnWord, A.Bounded;
      R.ReturnIs(env, prog, Abs());
      var word :- StackPop();
      var oldNv := nv;
      sp := fp + 3;
      if sp < lv {
        return Destroyed;
      }
      if sp >= stack.Length {
        return WildStack;
      }
      var _ :- PopLinkage();
      sp := sp - oldNv;
      if sp < -1 || sp >= stack.Length || pc < 0 || pc >= |prog.code| || fp < 0 || fp >= stack.Length ||
         nv < 0 || lv >= stack.Length || lv < 0 {
        return Destroyed;
      }
      r := StackPush(word);
    }

    /** The four linkage words go above the callee's locals, which are zeroed afterwards. */
    method PushLinkage(oldPc: int) returns (r: Outcome<()>)
      requires Sound() && sp >= -1
      modifies this, stack
      ensures Did(r, Linked(env, old(Abs()), oldPc)) && (r.Live? ==> Kept())
      ensures r.Live? ==> sp == old(sp) + 4 < stack.Length
    {
      hide M.Push, M.Grow, Wrap;
      var _ :- StackPush(Wrap(lv));
      var _ :- StackPush(Wrap(nv));
      var _ :- StackPush(Wrap(fp));
      r := StackPush(Wrap(oldPc));
    }

    /** The memset of the callee's locals. */
    method ZeroLocals(from: nat, n: nat)
      requires from + n <= stack.Length
      modifies stack
      ensures stack[..] == M.Zeroed(old(stack[..]), from, n)
    {
      forall i | from <= i < from + n {
        stack[i] := 0;
      }
      assert stack[..] == M.Zeroed(old(stack[..]), from, n);
    }

    /** Moving to the called method and reading its header. */
    method EnterMethod(index: int) returns (r: Outcome<(nat, nat)>)
      modifies this`pc
      ensures match Method(prog, index)
        case Live((address, args, locals)) => r == Live((args, locals)) && pc == address + 4
        case other => r == other.PropagateFailure<(nat, nat)>()
    {
      var offset :- GetConstant(prog, index);
      if offset < 0 || offset >= |prog.code| {
        return Destroyed;
      }
      pc := offset;
      var args :- GetArgShort();
      var locals :- GetArgShort();
      r := Live((UnsignedShort(args), UnsignedShort(locals)));
    }

    /** Reserving the callee's locals, linking, and moving fp, nv and lv. */
    method BuildFrame(numArgs: nat, numLocals: nat, oldPc: int) returns (r: Outcome<()>)
      requires Sound() && sp >= -1
      modifies this, stack
      ensures Did(r, FrameBuilt(env, old(Abs()), numArgs, numLocals, oldPc)) && (r.Live? ==> Kept())
    {
      hide M.Push, M.Grow, Linked, Framed, Wrap, M.Zeroed, ArrayMemory.Valid;
      sp := sp + numLocals;
      var _ :- PushLinkage(oldPc);
      r := MoveFrame(numArgs, numLocals);
    }

    method MoveFrame(numArgs: nat, numLocals: nat) returns (r: Outcome<()>)
      requires Sound() && sp < stack.Length
      modifies this`fp, this`nv, this`lv, stack
      ensures Did(r, Framed(old(Abs()), numArgs, numLocals)) && (r.Live? ==> Kept())
    {
      hide M.Zeroed, ArrayMemory.Valid;
      fp := sp - 3;
      nv := numArgs + numLocals;
      lv := fp - nv;
      if lv < 0 {
        return Destroyed;
      }
      ZeroLocals(lv + numArgs, numLocals);
      r := Live(());
    }

    /** `exec_op_invokevirtual` once the constant's index has been fetched. */
    method InvokeIndex(index: int) returns (r: Outcome<()>)
      requires Ready()
      modifies this, stack
      ensures Did(r, M.InvokeMethod(env, prog, old(Abs()), index)) && (r.Live? ==> Kept())
    {
      hide M.InvokeMethod, Method, FrameBuilt, A.Bounded;
      InvokeIs(env, prog, Abs(), index);
      var oldPc := pc;
      var header :- EnterMethod(index);
      r := BuildFrame(header.0, header.1, oldPc);
    }

    method ExecInvokevirtual() returns (r: Outcome<()>)
      requires Ready()
      modifies this, stack
      ensures Did(r, AfterOpcode(env, prog, old(Abs()), INVOKEVIRTUAL, old(nextWide))) && (r.Live? ==> Kept())
    {
      hide M.InvokeMethod, A.Bounded;
      var index :- GetArgShort();
      r := InvokeIndex(index);
    }

    /** A byte of input, or 0 at its end. */
    method ExecIn() returns (r: Outcome<()>)
      requires Ready()
      modifies this, stack
      ensures Did(r, M.ReadByte(env, old(Abs()))) && (r.Live? ==> Kept())
    {
      hide M.Push, M.Grow, A.Bounded;
      if input == [] {
        r := StackPush(0);
      } else {
        var c := input[0];
        input := input[1..];
        r := StackPush(c);
      }
    }

    method ExecOut() returns (r: Outcome<()>)
      requires Ready()
      modifies this, stack
      ensures Did(r, AfterOpcode(env, prog, old(Abs()), OUT, old(nextWide))) && (r.Live? ==> Kept())
    {
      hide AfterOpcode, M.Exec, DecodeOp, A.Bounded, ArrayMemory.Valid, ToU32;
      AfterOut(env, prog, Abs(), nextWide);
      var w :- StackPop();
      output := output + [ToU32(w) % 256];
      r := Live(());
    }

    ghost predicate RootsAreBelowTop()
      reads this, stack, memory
    {
      M.Roots(Abs()) == StackRoots(stack, sp)
    }

    lemma SameRoots()
      ensures RootsAreBelowTop()
    {
      if 0 <= sp <= stack.Length { assert stack[..][..sp] == stack[..sp]; }
    }

    method ExecNewarray() returns (r: Outcome<()>)
      requires Ready()
      modifies this, stack, memory.Repr
      ensures Did(r, M.CreateArray(env, old(Abs())))
      ensures r.Live? ==> Kept() && fresh(memory.Repr - old(memory.Repr))
    {
      hide M.Push, M.Grow, A.Bounded, H.Create, StackRoots, M.Roots;
      var count :- StackPop();
      SameRoots();
      var ref :- memory.CreateArray(count, stack, sp);
      r := StackPush(ref);
    }

    method ExecIaload() returns (r: Outcome<()>)
      requires Ready()
      modifies this, stack
      ensures Did(r, M.LoadElement(env, old(Abs()))) && (r.Live? ==> Kept())
    {
      hide M.Push, M.Grow, A.Bounded, H.Get;
      var ref :- StackPop();
      var i :- StackPop();
      var w :- memory.GetElement(ref, i);
      r := StackPush(w);
    }

    method ExecIastore() returns (r: Outcome<()>)
      requires Ready()
      modifies this, stack, memory.Repr
      ensures Did(r, M.StoreElement(old(Abs())))
      ensures r.Live? ==> Kept() && fresh(memory.Repr - old(memory.Repr))
    {
      hide ArrayMemory.Valid, A.Bounded, H.Set;
      var ref :- StackPop();
      var i :- StackPop();
      var w :- StackPop();
      r := memory.SetElement(ref, i, w);
    }

    method ExecGc() returns (r: Outcome<()>)
      requires Ready()
      modifies this, stack, memory.Repr
      ensures Did(r, M.CollectNow(env, old(Abs())))
      ensures r.Live? ==> Kept() && fresh(memory.Repr - old(memory.Repr))
    {
      hide A.Bounded, H.Gc, StackRoots, M.Roots;
      SameRoots();
      var _ :- memory.Collection(stack, sp);
      r := Live(());
    }

    method DispatchStack(op: Byte) returns (r: Outcome<()>)
      requires Ready() && op in {NOP, BIPUSH, LDC_W, ILOAD, ISTORE, POP, DUP, SWAP, IADD, ISUB, IAND, IOR, IINC}
      modifies this, stack
      ensures Did(r, AfterOpcode(env, prog, old(Abs()), op, old(nextWide))) && (r.Live? ==> Kept())
    {
      hide AfterOpcode, A.Bounded, M.Binary;
      AfterArith(env, prog, Abs(), nextWide);
      if op == NOP { r := Live(()); }
      else if op == BIPUSH { r := ExecBipush(); }
      else if op == LDC_W { r := ExecLdcW(); }
      else if op == ILOAD { r := ExecIload(); }
      else if op == ISTORE { r := ExecIstore(); }
      else if op == POP { r := ExecPop(); }
      else if op == DUP { r := ExecDup(); }
      else if op == SWAP { r := ExecSwap(); }
      else if op == IADD { r := ExecBinary(M.Add); }
      else if op == ISUB { r := ExecBinary(M.Sub); }
      else if op == IAND { r := ExecBinary(M.And); }
      else if op == IOR { r := ExecBinary(M.Or); }
      else { r := ExecIinc(); }
    }

    method DispatchControl(op: Byte) returns (r: Outcome<()>)
      requires Ready() && op in {IFEQ, IFLT, ICMPEQ, GOTO, IRETURN, INVOKEVIRTUAL, ERR, HALT}
      modifies this, stack
      ensures Did(r, AfterOpcode(env, prog, old(Abs()), op, old(nextWide))) && (r.Live? ==> Kept())
    {
      hide AfterOpcode, A.Bounded, M.ReturnWord;
      AfterControl(env, prog, Abs(), nextWide);
      if op == IFEQ || op == IFLT { r := ExecIf(op); }
      else if op == ICMPEQ { r := ExecIcmpeq(); }
      else if op == GOTO { r := ExecGoto(); }
      else if op == IRETURN { r := ExecIreturn(); }
      else if op == INVOKEVIRTUAL { r := ExecInvokevirtual(); }
      else {
        if op == ERR { err := true; } else { halt := true; }
        r := Live(());
      }
    }

    predicate InOtherGroups(op: Byte) {
      op in {NOP, BIPUSH, LDC_W, ILOAD, ISTORE, POP, DUP, SWAP, IADD, ISUB, IAND, IOR, IINC} ||
      op in {IFEQ, IFLT, ICMPEQ, GOTO, IRETURN, INVOKEVIRTUAL, ERR, HALT} || op == WIDE
    }

    /** Input, output, arrays, the network instructions the model stops at, and bytes that are no opcode. */
    method DispatchRest(op: Byte) returns (r: Outcome<()>)
      requires Ready() && !InOtherGroups(op)
      modifies this, stack, memory.Repr
      ensures Did(r, AfterOpcode(env, prog, old(Abs()), op, old(nextWide)))
      ensures r.Live? ==> Kept() && fresh(memory.Repr - old(memory.Repr))
    {
      hide AfterOpcode, A.Bounded, M.ReadByte, M.CreateArray, M.LoadElement, M.StoreElement, M.CollectNow;
      if op != OUT { AfterRest(env, prog, Abs(), op, nextWide); }
      if op == IN { r := ExecIn(); }
      else if op == OUT { r := ExecOut(); }
      else if op == NEWARRAY { r := ExecNewarray(); }
      else if op == IALOAD { r := ExecIaload(); }
      else if op == IASTORE { r := ExecIastore(); }
      else if op == GC { r := ExecGc(); }
      else if op == NETBIND || op == NETCONNECT || op == NETIN || op == NETOUT || op == NETCLOSE {
        r := Unmodelled;
      } else {
        err := true;
        r := Live(());
      }
    }

    /** `step`: WIDE sets the prefix flag and steps again, without looking for the end of code. */
    method Step() returns (r: Outcome<()>)
      requires Ready()
      modifies this, stack, memory.Repr
      ensures Did(r, StepFrom(env, prog, old(Abs()), old(nextWide)))
      ensures r.Live? ==> (stack == old(stack) || fresh(stack)) && fresh(memory.Repr - old(memory.Repr))
      ensures r.Live? && !old(nextWide) ==> !nextWide
      decreases |prog.code| - pc
    {
      hide AfterOpcode, StepFrom, A.Bounded;
      StepFromIs(env, prog, Abs(), nextWide);
      if pc >= |prog.code| {
        return WildCode;
      }
      var op := prog.code[pc];
      pc := pc + 1;
      if op == WIDE {
        nextWide := true;
        r := Step();
        nextWide := false;
      } else if op in {NOP, BIPUSH, LDC_W, ILOAD, ISTORE, POP, DUP, SWAP, IADD, ISUB, IAND, IOR, IINC} {
        r := DispatchStack(op);
      } else if op in {IFEQ, IFLT, ICMPEQ, GOTO, IRETURN, INVOKEVIRTUAL, ERR, HALT} {
        r := DispatchControl(op);
      } else {
        r := DispatchRest(op);
      }
    }

    /** `run`, cut off after at most `n` turns of its loop. */
    method Run(n: nat) returns (r: Outcome<()>)
      requires Sound() && R.InRange(Abs()) && !nextWide
      modifies this, stack, memory.Repr
      ensures Did(r, M.Run(env, prog, old(Abs()), n))
    {
      hide M.Step, M.Run, StepFrom, A.Bounded, R.InRange, ArrayMemory.Valid;
      var left := n;
      while left > 0 && !(pc < 0 || pc >= |prog.code| || err || halt)
        invariant 0 <= left <= n && Sound() && R.InRange(Abs()) && !nextWide
        invariant stack == old(stack) || fresh(stack)
        invariant fresh(memory.Repr - old(memory.Repr))
        invariant M.Run(env, prog, old(Abs()), n) == M.Run(env, prog, Abs(), left)
      {
        ghost var m := Abs();
        RunUnfolds(env, prog, m, left);
        StepFromIsStep(env, prog, m);
        var _ :- Step();
        R.StepKeepsRange(env, prog, m);
        left := left - 1;
      }
      RunEnds(env, prog, Abs(), left);
      r := Live(());
    }

    /** `init_ijvm` once the program is loaded. */
    static method Init(env: H.Env, prog: Program, input: seq<Byte>) returns (r: Outcome<Ijvm>)
      ensures match Startup.Boot(env, prog, input)
        case Live(m) => r.Live? && fresh(r.value) && r.value.Sound() && !r.value.nextWide && r.value.Abs() == m &&
          r.value.prog == prog && r.value.env == env && R.InRange(m)
        case other => r == other.PropagateFailure<Ijvm>()
    {
      var vars :- Scan.NumLocalVarsMain(prog);
      var size := Startup.PickStackSize(vars);
      if !env.grow(size) {
        return Destroyed;
      }
      var vm := new Ijvm(env, prog, input, vars, size);
      r := Live(vm);
    }
  }
}
