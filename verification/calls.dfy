/** Calls and returns on the frame machine, and what a matched pair leaves of the flat stack. */
module Calls {
  import opened Words
  import opened Outcomes
  import opened Programs
  import M = Machine
  import opened Frames
  import H = Heaps
  import R = Refinement

  /** The same frame with other operands and local values. */
  predicate SameFrame(f: Frame, g: Frame) {
    f.ret == g.ret && f.address == g.address && f.args == g.args && |f.locals| == |g.locals|
  }

  /** The same call stack, apart from the top frame's operands and local values. */
  predicate SameCalls(fs: Chain, gs: Chain) {
    fs.Main? == gs.Main? && (fs.Called? ==> fs.callers == gs.callers) && SameFrame(fs.top, gs.top)
  }

  /** The chain a call makes of the caller's chain. */
  predicate CallStep(p: Program, fs: Chain, gs: Chain, ret: int, index: int) {
    Method(p, index).Live? &&
    var (address, args, locals) := Method(p, index).value;
    var ops := fs.top.operands;
    args <= |ops| &&
    var passed := ops[|ops| - args..];
    gs == Called(fs.(top := fs.top.(operands := ops[..|ops| - args])),
                 Frame(passed + seq(locals, _ => 0), [], ret, address, passed))
  }

  /** The chain a return makes: the caller gets back the top word. */
  predicate ReturnStep(fs: Chain, gs: Chain) {
    fs.Called? && |fs.top.operands| > 0 &&
    gs == fs.callers.(top := fs.callers.top.(
      operands := fs.callers.top.operands + [fs.top.operands[|fs.top.operands| - 1]]))
  }

  predicate IsHeapOp(ins: Instr) {
    ins.NewArray? || ins.Gc? || ins.In? || ins.Out?
  }

  predicate IsElementOp(ins: Instr) {
    ins.Iaload? || ins.Iastore?
  }

  predicate IsPairOp(ins: Instr) {
    ins.Iadd? || ins.Isub? || ins.Iand? || ins.Ior?
  }

  predicate IsLocalOp(ins: Instr) {
    ins.Iload? || ins.Istore? || ins.IstoreCut? || ins.Iinc?
  }

  predicate IsBranch(ins: Instr) {
    ins.Ifeq? || ins.Iflt? || ins.Icmpeq? || ins.Goto?
  }

  /**
   * What the other instructions do to control: the call stack and pc stay, except that a branch may
   * add its offset to pc; and the instruction is undisciplined exactly when operands are missing.
   */
  ghost predicate Plain(env: H.Env, p: Program, a: FrameVm, ins: Instr) {
    var r := Exec(env, p, a, ins);
    (r.Live? ==> SameCalls(a.frames, r.value.frames) &&
                 (r.value.pc == a.pc || (IsBranch(ins) && r.value.pc == a.pc + ins.offset))) &&
    (r == Outcome.Undisciplined <==> |a.Top().operands| < Needs(p, ins))
  }

  lemma HeapIsPlain(env: H.Env, p: Program, a: FrameVm, ins: Instr)
    requires IsHeapOp(ins)
    ensures Plain(env, p, a, ins)
  {
    hide GrowCap, Method, H.Create, H.Gc, Size, Roots, ToU32;
  }

  lemma ElementIsPlain(env: H.Env, p: Program, a: FrameVm, ins: Instr)
    requires IsElementOp(ins)
    ensures Plain(env, p, a, ins)
  {
    hide GrowCap, Method, H.Get, H.Set, Size;
    if ins.Iastore? { StoreIsPlain(env, p, a); }
  }

  lemma StoreIsPlain(env: H.Env, p: Program, a: FrameVm)
    ensures Plain(env, p, a, Iastore)
  {
    hide GrowCap, Method, H.Get, H.Set, Size, Push;
  }

  lemma PairIsPlain(env: H.Env, p: Program, a: FrameVm, ins: Instr)
    requires IsPairOp(ins)
    ensures Plain(env, p, a, ins)
  {
    hide Binary, SameCalls;
    var op := if ins.Iadd? then M.Add else if ins.Isub? then M.Sub else if ins.Iand? then M.And else M.Or;
    BinaryShape(env, a, op);
  }

  lemma BinaryShape(env: H.Env, a: FrameVm, op: M.Arith)
    ensures var r := Binary(env, a, op);
      (r.Live? ==> SameCalls(a.frames, r.value.frames) && r.value.pc == a.pc) &&
      (r == Outcome.Undisciplined <==> |a.Top().operands| < 2)
  {
    hide GrowCap, M.Compute, Size;
  }

  lemma BranchIsPlain(env: H.Env, p: Program, a: FrameVm, ins: Instr)
    requires IsBranch(ins)
    ensures Plain(env, p, a, ins)
  {
    hide Method, Wrap;
  }

  lemma LocalIsPlain(env: H.Env, p: Program, a: FrameVm, ins: Instr)
    requires IsLocalOp(ins)
    ensures Plain(env, p, a, ins)
  {
    hide GrowCap, Method, Size, Wrap;
  }

  lemma OtherIsPlain(env: H.Env, p: Program, a: FrameVm, ins: Instr)
    requires !ins.Invoke? && !ins.Ireturn?
    requires !IsHeapOp(ins) && !IsElementOp(ins) && !IsPairOp(ins) && !IsBranch(ins) && !IsLocalOp(ins)
    ensures Plain(env, p, a, ins)
  {
    if ins.Swap? {
      SwapIsPlain(env, p, a);
    } else {
      hide GrowCap, Method, Size, Wrap;
    }
  }

  lemma SwapIsPlain(env: H.Env, p: Program, a: FrameVm)
    ensures Plain(env, p, a, Swap)
  {
    hide GrowCap, Method, Size;
  }

  lemma ExecIsPlain(env: H.Env, p: Program, a: FrameVm, ins: Instr)
    requires !ins.Invoke? && !ins.Ireturn?
    ensures Plain(env, p, a, ins)
  {
    hide Plain;
    if IsHeapOp(ins) { HeapIsPlain(env, p, a, ins); }
    else if IsElementOp(ins) { ElementIsPlain(env, p, a, ins); }
    else if IsPairOp(ins) { PairIsPlain(env, p, a, ins); }
    else if IsLocalOp(ins) { LocalIsPlain(env, p, a, ins); }
    else if IsBranch(ins) { BranchIsPlain(env, p, a, ins); }
    else { OtherIsPlain(env, p, a, ins); }
  }

  lemma CallShape(env: H.Env, p: Program, a: FrameVm, ins: Instr)
    requires ins.Invoke? || ins.Ireturn?
    ensures Exec(env, p, a, ins).Live? ==>
      var b := Exec(env, p, a, ins).value;
      if ins.Invoke? then CallStep(p, a.frames, b.frames, a.pc, ins.index) && b.pc == Method(p, ins.index).value.0 + 4
      else ReturnStep(a.frames, b.frames) && b.pc == a.frames.top.ret < |p.code|
    ensures Exec(env, p, a, ins) == Outcome.Undisciplined <==>
      |a.Top().operands| < Needs(p, ins) || (ins.Ireturn? && a.frames.Main?)
  {
    hide GrowCap, Method, Size;
  }

  /** Every live instruction either calls, returns, or leaves the call stack alone. */
  lemma ExecShape(env: H.Env, p: Program, a: FrameVm, ins: Instr)
    requires Exec(env, p, a, ins).Live?
    ensures var b := Exec(env, p, a, ins).value;
      if ins.Invoke? then CallStep(p, a.frames, b.frames, a.pc, ins.index) && b.pc == Method(p, ins.index).value.0 + 4
      else if ins.Ireturn? then ReturnStep(a.frames, b.frames) && b.pc == a.frames.top.ret < |p.code|
      else SameCalls(a.frames, b.frames)
  {
    hide Exec, CallStep, ReturnStep, SameCalls;
    if ins.Invoke? || ins.Ireturn? { CallShape(env, p, a, ins); } else { ExecIsPlain(env, p, a, ins); }
  }

  /** How many operands an instruction takes from its own frame. */
  function Needs(p: Program, ins: Instr): nat {
    match ins
    case Istore(_) => 1
    case IstoreCut => 1
    case Pop => 1
    case Dup => 1
    case Swap => 2
    case Iadd => 2
    case Isub => 2
    case Iand => 2
    case Ior => 2
    case Ifeq(_) => 1
    case Iflt(_) => 1
    case Icmpeq(_) => 2
    case Ireturn => 1
    case Invoke(i) => if Method(p, i).Live? then Method(p, i).value.1 else 0
    case Out => 1
    case NewArray => 1
    case Iaload => 2
    case Iastore => 3
    case _ => 0
  }

  /** The first operand's place: right above the linkage words, or above main's variables. */
  function OperandBase(fs: Chain): int {
    R.Fp(fs) + if fs.Called? then 4 else 0
  }

  /**
   * The discipline in terms of the registers: an instruction breaks it exactly when taking its
   * operands would bring sp below `fp + 3` in a method or `fp - 1` in main, or when main returns.
   */
  lemma DisciplineIsSpBound(env: H.Env, p: Program, m: M.Vm, a: FrameVm, ins: Instr)
    requires R.Encodes(p, m, a)
    ensures Exec(env, p, a, ins) == Outcome.Undisciplined <==>
      m.sp - Needs(p, ins) < OperandBase(a.frames) - 1 || (ins.Ireturn? && a.frames.Main?)
  {
    OperandsAboveBase(p, m, a);
    ExecNeeds(env, p, a, ins);
  }

  lemma OperandsAboveBase(p: Program, m: M.Vm, a: FrameVm)
    requires R.Encodes(p, m, a)
    ensures m.sp + 1 - OperandBase(a.frames) == |a.frames.top.operands|
  {
    hide R.Flat;
  }

  /**
   * Why the discipline is needed: `stack_pop` compares sp with lv. It hands out a word that is no
   * operand exactly when sp stands on a local or a linkage word of the top frame, and in a method
   * without operands that word is the return address.
   */
  lemma PopTakesNoOperandIff(p: Program, m: M.Vm, a: FrameVm)
    requires R.Encodes(p, m, a)
    ensures M.PopWord(m).Live? && PopWord(a) == Outcome.Undisciplined <==> m.lv <= m.sp < OperandBase(a.frames)
    ensures a.frames.Called? && a.frames.top.operands == [] ==>
      M.PopWord(m).Live? && M.PopWord(m).value.1 == Wrap(a.frames.top.ret)
  {
    OperandsAboveBase(p, m, a);
    if a.frames.Called? && a.frames.top.operands == [] {
      var low := R.Flat(a.frames.callers) + a.frames.top.locals;
      R.FlatUpTo(a.frames, low);
      assert m.stack[m.sp] == m.stack[..m.sp + 1][m.sp] == R.Flat(a.frames)[m.sp];
    }
  }

  lemma ExecNeeds(env: H.Env, p: Program, a: FrameVm, ins: Instr)
    ensures Exec(env, p, a, ins) == Outcome.Undisciplined <==>
      |a.Top().operands| < Needs(p, ins) || (ins.Ireturn? && a.frames.Main?)
  {
    hide Exec, Needs;
    if ins.Invoke? || ins.Ireturn? { CallShape(env, p, a, ins); } else { ExecIsPlain(env, p, a, ins); }
  }

  /** The part of the call stack up to depth `d`. */
  function Under(fs: Chain, d: nat): Chain
    requires 1 <= d <= Depth(fs)
  {
    if Depth(fs) == d then fs else Under(fs.callers, d)
  }

  /** The frame at depth `d`. */
  function FrameAt(fs: Chain, d: nat): Frame
    requires 1 <= d <= Depth(fs)
  {
    Under(fs, d).top
  }

  /** A step that ends above depth `d` leaves everything up to depth `d` alone, and the frame above it in place. */
  lemma StepKeepsUnder(fs: Chain, gs: Chain, p: Program, ret: int, index: int, d: nat)
    requires 1 <= d < Depth(fs) && d < Depth(gs)
    requires SameCalls(fs, gs) || ReturnStep(fs, gs) || CallStep(p, fs, gs, ret, index)
    ensures Under(gs, d) == Under(fs, d)
    ensures SameFrame(FrameAt(fs, d + 1), FrameAt(gs, d + 1))
  {
    if SameCalls(fs, gs) {
      assert Depth(fs) == Depth(gs);
    } else if ReturnStep(fs, gs) {
      assert Depth(gs) == Depth(fs) - 1 == Depth(fs.callers);
      assert SameCalls(fs.callers, gs);
      assert Under(fs, d) == Under(fs.callers, d) && Under(fs, d + 1) == Under(fs.callers, d + 1);
    } else {
      assert SameCalls(fs, gs.callers);
      assert Depth(gs.callers) == Depth(fs) == Depth(gs) - 1;
      assert Under(gs, d) == Under(gs.callers, d) && Under(gs, d + 1) == Under(gs.callers, d + 1);
    }
  }

  lemma StepShape(env: H.Env, p: Program, a: FrameVm)
    requires a.pc >= 0 && Step(env, p, a).Live?
    ensures var (ins, next) := Decode(p.code, a.pc, false).value;
      var b := Step(env, p, a).value;
      Decode(p.code, a.pc, false).Live? &&
      if ins.Invoke? then CallStep(p, a.frames, b.frames, next, ins.index) && b.pc == Method(p, ins.index).value.0 + 4
      else if ins.Ireturn? then ReturnStep(a.frames, b.frames) && b.pc == a.frames.top.ret < |p.code|
      else SameCalls(a.frames, b.frames)
  {
    hide Exec, CallStep, ReturnStep, SameCalls, Decode;
    var (ins, next) := Decode(p.code, a.pc, false).value;
    ExecShape(env, p, a.(pc := next), ins);
  }

  /** `n` steps from `a` never finish and never come down to depth `d`. */
  ghost predicate StaysAbove(env: H.Env, p: Program, a: FrameVm, n: nat, d: nat)
    decreases n
  {
    Depth(a.frames) > d && !Finished(p, a) && Step(env, p, a).Live? &&
    (n > 0 ==> StaysAbove(env, p, Step(env, p, a).value, n - 1, d))
  }

  lemma {:induction false} RunKeepsUnder(env: H.Env, p: Program, a: FrameVm, n: nat, d: nat) returns (b: FrameVm)
    requires d >= 1 && StaysAbove(env, p, a, n, d)
    ensures Depth(b.frames) > d && !Finished(p, b) && Step(env, p, b).Live?
    ensures Run(env, p, a, n) == Live(b) && Run(env, p, a, n + 1) == Step(env, p, b)
    ensures Under(b.frames, d) == Under(a.frames, d)
    ensures SameFrame(FrameAt(a.frames, d + 1), FrameAt(b.frames, d + 1))
    decreases n
  {
    hide Step, CallStep, ReturnStep, SameCalls, Decode, Under, Depth;
    if n == 0 {
      b := a;
    } else {
      var a1 := Step(env, p, a).value;
      StepShape(env, p, a);
      var (ins, next) := Decode(p.code, a.pc, false).value;
      StepKeepsUnder(a.frames, a1.frames, p, next, if ins.Invoke? then ins.index else 0, d);
      b := RunKeepsUnder(env, p, a1, n - 1, d);
    }
  }

  lemma ReturnLandsUnder(fs: Chain, gs: Chain, p: Program, ret: int, index: int, d: nat)
    requires 1 <= d == Depth(gs) < Depth(fs)
    requires SameCalls(fs, gs) || ReturnStep(fs, gs) || CallStep(p, fs, gs, ret, index)
    ensures ReturnStep(fs, gs) && fs.callers == Under(fs, d) && fs.top == FrameAt(fs, d + 1)
  {
    assert SameCalls(fs, gs) ==> Depth(fs) == Depth(gs);
  }

  /** The chain after a matched call and return: the caller's, with the arguments replaced by one word. */
  ghost predicate CallReplaced(fs: Chain, gs: Chain, args: nat, w: Word) {
    args <= |fs.top.operands| &&
    gs == fs.(top := fs.top.(operands := fs.top.operands[..|fs.top.operands| - args] + [w]))
  }

  /** At `a` a call with constant `index` is about to succeed; `next` is its return address. */
  ghost predicate CallsNow(env: H.Env, p: Program, a: FrameVm, index: int, next: nat) {
    !Finished(p, a) && Decode(p.code, a.pc, false) == Live((Invoke(index), next)) && Step(env, p, a).Live?
  }

  /** The call made at `a` returns with its `n + 1`st step: only then the depth of `a` is reached again. */
  ghost predicate ReturnsAfter(env: H.Env, p: Program, a: FrameVm, n: nat)
    requires a.pc >= 0 && Step(env, p, a).Live?
  {
    var a1 := Step(env, p, a).value;
    StaysAbove(env, p, a1, n, Depth(a.frames)) &&
    (Run(env, p, a1, n + 1).Live? ==> Depth(Run(env, p, a1, n + 1).value.frames) == Depth(a.frames))
  }

  lemma MatchedReturn(env: H.Env, p: Program, a: FrameVm, index: int, next: nat, n: nat)
      returns (b: FrameVm, c: FrameVm)
    requires CallsNow(env, p, a, index, next) && ReturnsAfter(env, p, a, n)
    ensures Run(env, p, a, n + 1) == Live(b) && Run(env, p, a, n + 2) == Live(c)
    ensures b.frames.top.operands != [] && Method(p, index).Live? && c.pc == next
    ensures CallReplaced(a.frames, c.frames, Method(p, index).value.1,
      b.frames.top.operands[|b.frames.top.operands| - 1])
  {
    hide Step, Decode, Under, Method;
    var d := Depth(a.frames);
    var a1 := Step(env, p, a).value;
    StepShape(env, p, a);
    b := RunKeepsUnder(env, p, a1, n, d);
    c := Step(env, p, b).value;
    StepShape(env, p, b);
    var (ins', next') := Decode(p.code, b.pc, false).value;
    ReturnLandsUnder(b.frames, c.frames, p, next', if ins'.Invoke? then ins'.index else 0, d);
    TopUnder(a1.frames);
  }

  lemma TopUnder(fs: Chain)
    requires fs.Called?
    ensures Depth(fs) >= 2 && Under(fs, Depth(fs) - 1) == fs.callers && FrameAt(fs, Depth(fs)) == fs.top
  {
    assert Depth(fs.callers) >= 1;
  }

  /**
   * Calls are balanced on the flat stack. From an INVOKEVIRTUAL to the return that first comes back
   * to its depth, however deeply other calls nest between, the caller's registers, locals and
   * operands below the arguments are as before, pc is behind the call, and the arguments have been
   * replaced by the word on top at the return.
   */
  lemma BalancedCall(env: H.Env, p: Program, m: M.Vm, a: FrameVm, index: int, next: nat, n: nat)
    requires R.Encodes(p, m, a) && CallsNow(env, p, a, index, next) && ReturnsAfter(env, p, a, n)
    ensures M.Run(env, p, m, n + 1).Live? && M.Run(env, p, m, n + 2).Live? && Method(p, index).Live?
    ensures var args := Method(p, index).value.1;
      var atReturn, after := M.Run(env, p, m, n + 1).value, M.Run(env, p, m, n + 2).value;
      after.lv == m.lv && after.nv == m.nv && after.fp == m.fp && after.pc == next &&
      after.sp == m.sp - args + 1 && 0 <= atReturn.sp < |atReturn.stack| &&
      0 <= after.sp < |after.stack| && after.sp <= |m.stack| &&
      after.stack[..after.sp] == m.stack[..after.sp] && after.stack[after.sp] == atReturn.stack[atReturn.sp]
  {
    hide CallsNow, ReturnsAfter, Run, M.Run, R.Flat, R.ReturnsIntoCode, Method;
    var b, c := MatchedReturn(env, p, a, index, next, n);
    R.RunSim(env, p, m, a, n + 1);
    R.RunSim(env, p, m, a, n + 2);
    var after := M.Run(env, p, m, n + 2).value;
    FlatReplaced(p, m, a, after, c, Method(p, index).value.1, b.frames.top.operands[|b.frames.top.operands| - 1]);
    TopWord(p, M.Run(env, p, m, n + 1).value, b);
  }

  lemma TopWord(p: Program, m: M.Vm, a: FrameVm)
    requires R.Encodes(p, m, a) && a.frames.top.operands != []
    ensures 0 <= m.sp < |m.stack| && m.stack[m.sp] == a.frames.top.operands[|a.frames.top.operands| - 1]
  {
    R.PopSim(p, m, a);
  }

  lemma FlatReplaced(p: Program, m: M.Vm, a: FrameVm, m': M.Vm, c: FrameVm, args: nat, w: Word)
    requires R.Encodes(p, m, a) && R.Encodes(p, m', c) && CallReplaced(a.frames, c.frames, args, w)
    ensures m'.lv == m.lv && m'.nv == m.nv && m'.fp == m.fp && m'.sp == m.sp - args + 1
    ensures 0 <= m'.sp < |m'.stack| && m'.sp <= |m.stack|
    ensures m'.stack[..m'.sp] == m.stack[..m'.sp] && m'.stack[m'.sp] == w
  {
    hide R.Flat;
    R.FlatPassed(a.frames, args);
    R.FlatPassed(c.frames, 1);
    var low := R.Flat(a.frames.(top := a.frames.top.(operands := a.frames.top.operands[..|a.frames.top.operands| - args])));
    assert c.frames.top.operands[..|c.frames.top.operands| - 1] == a.frames.top.operands[..|a.frames.top.operands| - args];
    assert m.stack[..|low|] == m.stack[..m.sp + 1][..|low|] == low;
    assert m'.stack[..|low|] == m'.stack[..m'.sp + 1][..|low|] == low;
    TopWord(p, m', c);
  }
}
