/** What holds of the registers and the stack for every program, disciplined or not. */
module Registers {
  import opened Words
  import opened Outcomes
  import opened Programs
  import opened Machine
  import H = Heaps
  import A = Allocation

  /** Every live state: registers are never negative and the top lies inside the stack. */
  ghost predicate InRange(m: Vm) {
    -1 <= m.sp < |m.stack| <= MAX_STACK && 0 <= m.pc && 0 <= m.fp && 0 <= m.lv && 0 <= m.nv &&
    A.Bounded(m.heap.slots)
  }

  /** Growing refines appending: old words stay, the new size fits, and the size limit is kept. */
  lemma {:induction false} GrowKeeps(env: H.Env, stack: seq<Word>, top: int)
    requires |stack| <= MAX_STACK && Grow(env, stack, top).Live?
    ensures stack <= Grow(env, stack, top).value
    ensures |Grow(env, stack, top).value| <= MAX_STACK
    ensures top >= |stack| ==> |stack| * 8 <= |Grow(env, stack, top).value|
    decreases top - |stack|
  {
    if top >= |stack| {
      GrowKeeps(env, Grown(env, stack), top);
    }
  }

  /** The capacity after `k` growths. */
  function Octupled(size: nat, k: nat): nat
    decreases k
  {
    if k == 0 then size else Octupled(8 * size, k - 1)
  }

  /** `k` growths in a row are within 2^30 words and granted. */
  predicate CanOctuple(env: H.Env, size: nat, k: nat) {
    forall j :: 0 < j <= k ==> Octupled(size, j) <= MAX_STACK && env.grow(Octupled(size, j))
  }

  /** `k` growths succeed and make room for `top`. */
  predicate Enough(env: H.Env, size: nat, top: int, k: nat) {
    top < Octupled(size, k) && CanOctuple(env, size, k)
  }

  lemma EnoughNext(env: H.Env, size: nat, top: int, k: nat)
    requires 8 * size <= MAX_STACK && env.grow(8 * size)
    ensures Enough(env, 8 * size, top, k) <==> Enough(env, size, top, k + 1)
  {
    assert Octupled(size, 1) == 8 * size;
    if Enough(env, size, top, k + 1) {
      forall j | 0 < j <= k ensures Octupled(8 * size, j) <= MAX_STACK && env.grow(Octupled(8 * size, j)) {
        assert Octupled(size, j + 1) == Octupled(8 * size, j);
      }
    }
    if Enough(env, 8 * size, top, k) {
      forall j | 0 < j <= k + 1 ensures Octupled(size, j) <= MAX_STACK && env.grow(Octupled(size, j)) {
        if j > 1 { assert Octupled(size, j) == Octupled(8 * size, j - 1); }
      }
    }
  }

  /** The grow loop succeeds exactly when some number of granted growths within the limit makes room. */
  lemma {:induction false} GrowSucceedsIff(env: H.Env, stack: seq<Word>, top: int)
    ensures Grow(env, stack, top).Live? <==> exists k: nat :: Enough(env, |stack|, top, k)
    decreases top - |stack|
  {
    hide Enough;
    var n := |stack|;
    if top < n {
      assert Enough(env, n, top, 0) by { EnoughAtOnce(env, n, top); }
    } else if n > 0 && 8 * n <= MAX_STACK && env.grow(8 * n) {
      GrowSucceedsIff(env, Grown(env, stack), top);
      forall k: nat ensures Enough(env, 8 * n, top, k) <==> Enough(env, n, top, k + 1) {
        EnoughNext(env, n, top, k);
      }
      TooSmall(env, n, top, 0);
      assert forall k: nat :: Enough(env, n, top, k) ==> k > 0 && Enough(env, 8 * n, top, k - 1);
    } else {
      forall k: nat ensures !Enough(env, n, top, k) {
        if n == 0 { ZeroStays(env, top, k); } else { TooSmall(env, n, top, k); }
      }
    }
  }

  lemma EnoughAtOnce(env: H.Env, size: nat, top: int)
    requires top < size
    ensures Enough(env, size, top, 0)
  {
  }

  lemma {:induction false} ZeroStays(env: H.Env, top: int, k: nat)
    requires top >= 0
    ensures Octupled(0, k) == 0 && !Enough(env, 0, top, k)
  {
    if k > 0 { ZeroStays(env, top, k - 1); }
  }

  lemma TooSmall(env: H.Env, size: nat, top: int, k: nat)
    requires top >= size && (k == 0 || 8 * size > MAX_STACK || !env.grow(8 * size))
    ensures !Enough(env, size, top, k)
  {
    if k > 0 {
      assert Octupled(size, 1) == 8 * size;
    }
  }

  lemma PushRange(env: H.Env, m: Vm, w: Word)
    requires -1 <= m.sp && |m.stack| <= MAX_STACK && Push(env, m, w).Live?
    ensures var m' := Push(env, m, w).value;
      m'.sp == m.sp + 1 < |m'.stack| <= MAX_STACK && m'.stack[m'.sp] == w &&
      m.stack[..if m.sp < |m.stack| then m.sp + 1 else |m.stack|] <= m'.stack &&
      |m.stack| <= |m'.stack| && m' == m.(stack := m'.stack, sp := m'.sp)
  {
    GrowKeeps(env, m.stack, m.sp + 1);
  }

  lemma InvokeRange(env: H.Env, p: Program, m: Vm, index: int)
    requires InRange(m)
    ensures InvokeMethod(env, p, m, index) != WildStack
    ensures InvokeMethod(env, p, m, index).Live? ==> InRange(InvokeMethod(env, p, m, index).value)
    ensures Method(p, index).Live? ==> m.sp + Method(p, index).value.2 + 4 < 0x8000_0000
  {
    hide Push, Grow, Method, A.Bounded, Wrap;
    if Method(p, index).Live? {
      var (address, args, locals) := Method(p, index).value;
      var m0 := m.(pc := address + 4, sp := m.sp + locals);
      var r1 := Push(env, m0, Wrap(m.lv));
      PushNeverWild(env, m0, Wrap(m.lv));
      if r1.Live? {
        PushRange(env, m0, Wrap(m.lv));
        PushNeverWild(env, r1.value, Wrap(m.nv));
        var r2 := Push(env, r1.value, Wrap(m.nv));
        if r2.Live? {
          PushRange(env, r1.value, Wrap(m.nv));
          PushNeverWild(env, r2.value, Wrap(m.fp));
          var r3 := Push(env, r2.value, Wrap(m.fp));
          if r3.Live? {
            PushRange(env, r2.value, Wrap(m.fp));
            PushNeverWild(env, r3.value, Wrap(m.pc));
            if Push(env, r3.value, Wrap(m.pc)).Live? {
              PushRange(env, r3.value, Wrap(m.pc));
            }
          }
        }
      }
    }
  }

  lemma PushNeverWild(env: H.Env, m: Vm, w: Word)
    requires -1 <= m.sp
    ensures Push(env, m, w).Live? || Push(env, m, w) == Destroyed
  {
  }

  lemma ReturnRange(env: H.Env, p: Program, m: Vm)
    requires InRange(m) && ReturnWord(env, p, m).Live?
    ensures InRange(ReturnWord(env, p, m).value)
  {
    hide Push, Grow;
    var (m0, word) := PopWord(m).value;
    var (m1, pc) := PopWord(m0.(sp := m.fp + 3)).value;
    var (m2, fp) := PopWord(m1).value;
    var (m3, nv) := PopWord(m2).value;
    var (m4, lv) := PopWord(m3).value;
    PushRange(env, m4.(sp := m4.sp - m.nv, pc := pc, fp := fp, nv := nv, lv := lv), word);
  }

  /** A return in closed form: whether its four linkage pops succeed is decided by the lowest one. */
  lemma ReturnIs(env: H.Env, p: Program, m: Vm)
    requires InRange(m)
    ensures ReturnWord(env, p, m) ==
      if PopWord(m).IsFailure() || m.fp + 3 < m.lv then Destroyed
      else if m.fp + 3 >= |m.stack| then WildStack
      else if m.fp < m.lv then Destroyed
      else
        var sp, lv, nv, fp, pc := m.fp - 1 - m.nv, m.stack[m.fp], m.stack[m.fp + 1], m.stack[m.fp + 2], m.stack[m.fp + 3];
        if sp < -1 || sp >= |m.stack| || pc < 0 || pc >= |p.code| || fp < 0 ||
           fp >= |m.stack| || nv < 0 || lv >= |m.stack| || lv < 0 then Destroyed
        else Push(env, m.(sp := sp, lv := lv, nv := nv, fp := fp, pc := pc), m.stack[m.sp])
  {
    hide Push, A.Bounded;
  }

  lemma CreateRange(env: H.Env, m: Vm)
    requires InRange(m) && CreateArray(env, m).Live?
    ensures InRange(CreateArray(env, m).value)
  {
    hide Push, Grow, H.Create, H.RootsOf;
    var (m1, count) := PopWord(m).value;
    var (heap, ref) := H.Create(env, m1.heap, count, Roots(m1)).value;
    var mid := A.CreateClaimsOneSlot(env, m1.heap, count, Roots(m1));
    PushRange(env, m1.(heap := heap), ref);
  }

  lemma CollectRange(env: H.Env, m: Vm)
    requires InRange(m) && CollectNow(env, m).Live?
    ensures InRange(CollectNow(env, m).value)
  {
    hide H.Gc, H.RootsOf;
    A.GcEvolves(env, m.heap, Roots(m));
    A.EvolvedIsBounded(Roots(m), m.heap, CollectNow(env, m).value.heap);
  }

  lemma ElementRange(env: H.Env, m: Vm)
    requires InRange(m)
    ensures LoadElement(env, m).Live? ==> InRange(LoadElement(env, m).value)
    ensures StoreElement(m).Live? ==> InRange(StoreElement(m).value)
  {
    hide Push, Grow, H.Get;
    var r := LoadElement(env, m);
    if r.Live? {
      var (m1, ref) := PopWord(m).value;
      var (m2, i) := PopWord(m1).value;
      PushRange(env, m2, H.Get(m2.heap, ref, i).value);
    }
  }

  lemma PushInRange(env: H.Env, m: Vm, w: Word)
    requires InRange(m)
    ensures Push(env, m, w).Live? ==> InRange(Push(env, m, w).value)
  {
    hide Grow;
    if Push(env, m, w).Live? { PushRange(env, m, w); }
  }

  lemma BinaryRange(env: H.Env, m: Vm, op: Arith)
    requires InRange(m) && Binary(env, m, op).Live?
    ensures InRange(Binary(env, m, op).value)
  {
    hide Push, Compute;
    var (m1, b) := PopWord(m).value;
    var (m2, a) := PopWord(m1).value;
    PushInRange(env, m2, Compute(op, a, b));
  }

  lemma SwapRange(env: H.Env, p: Program, m: Vm)
    requires InRange(m) && Exec(env, p, m, Swap).Live?
    ensures InRange(Exec(env, p, m, Swap).value)
  {
    hide Push;
    var (m1, b) := PopWord(m).value;
    var (m2, a) := PopWord(m1).value;
    PushInRange(env, m2, b);
    PushInRange(env, Push(env, m2, b).value, a);
  }

  lemma JumpRange(p: Program, m: Vm, taken: bool, offset: int)
    requires InRange(m) && m.pc < 0x8000_0000 && -0x8000 <= offset < 0x8000 && JumpIf(p, m, taken, offset).Live?
    ensures InRange(JumpIf(p, m, taken, offset).value) && JumpIf(p, m, taken, offset).value.pc < 0x8000_0000
  {
  }

  /** Offsets come from 16-bit operands. */
  predicate ShortOffset(ins: Instr) {
    ins.Ifeq? || ins.Iflt? || ins.Icmpeq? || ins.Goto? ==> -0x8000 <= ins.offset < 0x8000
  }

  lemma ExecRange(env: H.Env, p: Program, m: Vm, ins: Instr)
    requires InRange(m) && m.pc <= |p.code| && ShortOffset(ins) && Exec(env, p, m, ins).Live?
    ensures InRange(Exec(env, p, m, ins).value)
  {
    hide Push, InvokeMethod, ReturnWord, CreateArray, LoadElement, StoreElement, CollectNow, Binary;
    match ins
    case Bipush(w) => PushInRange(env, m, w);
    case LdcW(i) => PushInRange(env, m, GetConstant(p, i).value);
    case Iload(v) => PushInRange(env, m, GetLocal(m, v).value);
    case Dup => PushInRange(env, m, m.stack[m.sp]);
    case Swap => SwapRange(env, p, m);
    case Iadd => BinaryRange(env, m, Add);
    case Isub => BinaryRange(env, m, Sub);
    case Iand => BinaryRange(env, m, And);
    case Ior => BinaryRange(env, m, Or);
    case Ifeq(o) => var (m1, w) := PopWord(m).value; JumpRange(p, m1, w == 0, o);
    case Iflt(o) => var (m1, w) := PopWord(m).value; JumpRange(p, m1, w < 0, o);
    case Icmpeq(o) =>
      var (m1, b) := PopWord(m).value;
      var (m2, a) := PopWord(m1).value;
      JumpRange(p, m2, a == b, o);
    case Goto(o) => JumpRange(p, m, true, o);
    case Ireturn => ReturnRange(env, p, m);
    case Invoke(i) => InvokeRange(env, p, m, i);
    case In =>
      PushInRange(env, m, 0);
      if m.input != [] { PushInRange(env, m.(input := m.input[1..]), m.input[0]); }
    case NewArray => CreateRange(env, m);
    case Iaload => ElementRange(env, m);
    case Iastore => ElementRange(env, m);
    case Gc => CollectRange(env, m);
    case _ =>
  }

  lemma {:induction false} DecodeOffset(code: seq<Byte>, pc: nat, wide: bool)
    ensures Decode(code, pc, wide).Live? ==> ShortOffset(Decode(code, pc, wide).value.0)
    decreases |code| - pc
  {
    if pc < |code| && code[pc] == WIDE { DecodeOffset(code, pc + 1, true); }
  }

  lemma StepKeepsRange(env: H.Env, p: Program, m: Vm)
    requires InRange(m) && Step(env, p, m).Live?
    ensures InRange(Step(env, p, m).value)
  {
    hide Exec, Decode, A.Bounded;
    var (ins, next) := Decode(p.code, m.pc, false).value;
    DecodeOffset(p.code, m.pc, false);
    ExecRange(env, p, m.(pc := next), ins);
  }

  /** Every live state of every run keeps its registers in range. */
  lemma {:induction false} RunKeepsRange(env: H.Env, p: Program, m: Vm, n: nat)
    requires InRange(m) && Run(env, p, m, n).Live?
    ensures InRange(Run(env, p, m, n).value)
    decreases n
  {
    hide Step, A.Bounded;
    if n > 0 && !Finished(p, m) {
      StepKeepsRange(env, p, m);
      RunKeepsRange(env, p, Step(env, p, m).value, n - 1);
    }
  }

  /** Executing a decoded instruction reads code only for the header of a method. */
  lemma ExecReadsHeaders(env: H.Env, p: Program, m: Vm, ins: Instr)
    ensures Exec(env, p, m, ins) == WildCode <==>
      (ins.IstoreCut? && PopWord(m).Live?) || (ins.Invoke? && HeaderOverruns(p, ins.index))
  {
    hide Push, PopWord, GetLocal, SetLocal, JumpIf, Jump, InvokeMethod, ReturnWord, Binary, HeaderOverruns;
    hide CreateArray, LoadElement, StoreElement, CollectNow, ReadByte;
    if ins.Invoke? { CallReadsHeader(env, p, m, ins.index); }
  }

  lemma CallReadsHeader(env: H.Env, p: Program, m: Vm, index: int)
    ensures InvokeMethod(env, p, m, index) == WildCode <==> HeaderOverruns(p, index)
  {
    hide Push, Method, HeaderOverruns, Wrap;
    HeaderOverrunsIff(p, index);
  }

  /** A call's constant is the short behind its opcode. */
  lemma CallOperand(code: seq<Byte>, op: Byte, pc: nat, wide: bool)
    requires pc <= |code|
    ensures var r := DecodeOp(code, op, pc, wide);
      r.Live? && r.value.0.Invoke? ==>
        op == INVOKEVIRTUAL && pc + 2 <= |code| && r.value.0.index == SignedShort(code[pc], code[pc + 1])
    ensures op == INVOKEVIRTUAL && pc + 2 <= |code| < 0x8000_0000 ==>
      DecodeOp(code, op, pc, wide) == Live((Invoke(SignedShort(code[pc], code[pc + 1])), pc + 2))
  {
  }

  /** The one opcode fetch outside the code: nothing but WIDEs is left. */
  predicate OnlyWides(p: Program, pc: nat)
    requires pc <= |p.code|
  {
    OpcodeAt(p.code, pc) == |p.code|
  }

  /** An operand fetch outside the code; ISTORE first needs a word to pop. */
  predicate OperandOverruns(p: Program, m: Vm)
    requires 0 <= m.pc <= |p.code|
  {
    var j := OpcodeAt(p.code, m.pc);
    j < |p.code| && Overruns(p.code, j + 1, Fetches(p.code[j], j > m.pc)) && (p.code[j] == ISTORE ==> PopWord(m).Live?)
  }

  /** The header fetch of a call outside the code. */
  predicate CalledHeaderOverruns(p: Program, pc: nat)
    requires pc <= |p.code|
  {
    var j := OpcodeAt(p.code, pc);
    j + 3 <= |p.code| && p.code[j] == INVOKEVIRTUAL && HeaderOverruns(p, SignedShort(p.code[j + 1], p.code[j + 2]))
  }

  /**
   * When a step reads outside code memory, for every program: exactly if nothing but WIDEs is left, or a
   * guard before an operand or a method header adds past the largest `int`, wraps, and passes.
   */
  lemma CodeReadsStayInside(env: H.Env, p: Program, m: Vm)
    requires InRange(m) && !Finished(p, m)
    ensures Step(env, p, m) == WildCode <==>
      OnlyWides(p, m.pc) || OperandOverruns(p, m) || CalledHeaderOverruns(p, m.pc)
  {
    hide Exec, Decode, DecodeOp, Overruns, Fetches, HeaderOverruns, InRange, PopWord, SignedShort;
    var j := OpcodeAt(p.code, m.pc);
    DecodeAt(p.code, m.pc, false);
    if j < |p.code| {
      var op, wide := p.code[j], j > m.pc;
      OperandsOverrunIff(p.code, op, j + 1, wide);
      CallOperand(p.code, op, j + 1, wide);
      var d := DecodeOp(p.code, op, j + 1, wide);
      if d.Live? {
        ExecReadsHeaders(env, p, m.(pc := d.value.1), d.value.0);
        PopIgnoresPc(m, d.value.1);
        CutIsStore(p.code, op, j + 1, wide);
      }
    }
  }

  lemma PopIgnoresPc(m: Vm, pc: int)
    ensures PopWord(m.(pc := pc)).Live? == PopWord(m).Live?
  {
  }

  lemma CutIsStore(code: seq<Byte>, op: Byte, pc: nat, wide: bool)
    requires pc <= |code|
    ensures var r := DecodeOp(code, op, pc, wide);
      r.Live? && r.value.0.IstoreCut? ==> r == Live((IstoreCut, pc))
  {
  }

  lemma SmallNeverOverruns(code: seq<Byte>, at: nat, reach: seq<nat>)
    requires at <= |code| < 0x7FFF_FFFE
    requires forall k :: 0 <= k < |reach| ==> reach[k] <= 2 || (k > 0 && reach[k] <= reach[k - 1] + 2)
    ensures !Overruns(code, at, reach)
  {
    forall k | 0 <= k < |reach| && (forall i :: 0 <= i < k ==> at + reach[i] <= |code|)
      ensures at + reach[k] <= 0x7FFF_FFFF
    {
      if reach[k] > 2 { assert at + reach[k - 1] <= |code|; }
    }
  }

  /** No guard wraps in code of less than 2^31 - 2 bytes: there only a run of WIDEs up to the end reads outside. */
  lemma SmallCodeReadsStayInside(env: H.Env, p: Program, m: Vm)
    requires InRange(m) && !Finished(p, m) && |p.code| < 0x7FFF_FFFE
    ensures Step(env, p, m) == WildCode <==> forall i :: m.pc <= i < |p.code| ==> p.code[i] == WIDE
  {
    hide Step, InRange, PopWord, Overruns;
    CodeReadsStayInside(env, p, m);
    var j := OpcodeAt(p.code, m.pc);
    if j < |p.code| {
      assert p.code[j] != WIDE;
      SmallNeverOverruns(p.code, j + 1, Fetches(p.code[j], j > m.pc));
    }
    assert j == |p.code| <==> OnlyWides(p, m.pc);
    if CalledHeaderOverruns(p, m.pc) {
      var c := GetConstant(p, SignedShort(p.code[j + 1], p.code[j + 2])).value;
      SmallNeverOverruns(p.code, c, [2, 4]);
    }
  }

  /** In the largest code a BIPUSH in the last byte passes its guard and reads the byte behind. */
  lemma LargestCodeOverruns(env: H.Env, p: Program, m: Vm)
    requires InRange(m) && !Finished(p, m) && |p.code| == 0x7FFF_FFFF && m.pc == 0x7FFF_FFFE && p.code[m.pc] == BIPUSH
    ensures Step(env, p, m) == WildCode
  {
    hide Step, InRange, Overruns;
    CodeReadsStayInside(env, p, m);
    OneFetch(p.code, m.pc + 1, 1);
    assert OpcodeAt(p.code, m.pc) == m.pc;
    assert Fetches(BIPUSH, false) == [1];
  }
}
