/**
 * The virtual machine as a value: one flat word stack with four registers into it, stepped exactly
 * as src/cpu.c and src/interpreter.c do. Any access outside the allocated stack ends the run.
 */
module Machine {
  import opened Words
  import B = Bits
  import opened Outcomes
  import opened Programs
  import H = Heaps

  datatype Vm = Vm(
    stack: seq<Word>, pc: int, sp: int, fp: int, lv: int, nv: int, err: bool, halt: bool,
    heap: H.Heap, input: seq<Byte>, output: seq<Byte>)

  const MAX_STACK: int := 0x4000_0000

  /** The stack after one eightfold growth; the new words hold whatever the memory held. */
  function Grown(env: H.Env, stack: seq<Word>): (r: seq<Word>)
    ensures |r| == 8 * |stack| && stack <= r
  {
    stack + seq<Word>(7 * |stack|, i requires i >= 0 => env.junk(|stack| + i))
  }

  /** The grow loop of `stack_push`: eightfold until index `top` fits, up to 2^32 bytes. */
  function Grow(env: H.Env, stack: seq<Word>, top: int): (r: Outcome<seq<Word>>)
    ensures r.Live? ==> top < |r.value| && |stack| <= |r.value|
    ensures r.Live? || r == Destroyed
    decreases top - |stack|
  {
    if top < |stack| then Live(stack)
    else if |stack| * 4 * 8 > TWO32 || |stack| == 0 || !env.grow(8 * |stack|) then Destroyed
    else Grow(env, Grown(env, stack), top)
  }

  function Push(env: H.Env, m: Vm, w: Word): (r: Outcome<Vm>)
    ensures r.Local()
  {
    var stack :- Grow(env, m.stack, m.sp + 1);
    if m.sp + 1 < 0 then WildStack
    else Live(m.(stack := stack[m.sp + 1 := w], sp := m.sp + 1))
  }

  function PopWord(m: Vm): (r: Outcome<(Vm, Word)>)
    ensures r.Local()
  {
    if m.sp < m.lv || m.sp <= -1 then Destroyed
    else if m.sp >= |m.stack| then WildStack
    else Live((m.(sp := m.sp - 1), m.stack[m.sp]))
  }

  function GetLocal(m: Vm, i: int): (r: Outcome<Word>)
    ensures r.Local()
  {
    if i < 0 || i >= m.nv then Destroyed
    else if !(0 <= m.lv + i < |m.stack|) then WildStack
    else Live(m.stack[m.lv + i])
  }

  function SetLocal(m: Vm, w: Word, i: int): (r: Outcome<Vm>)
    ensures r.Local()
  {
    if i < 0 || i >= m.nv then Destroyed
    else if !(0 <= m.lv + i < |m.stack|) then WildStack
    else Live(m.(stack := m.stack[m.lv + i := w]))
  }

  /** `jump`: the upper check looks at the offset alone. */
  function Jump(p: Program, m: Vm, offset: int): (r: Outcome<Vm>)
    ensures r.Local()
  {
    if Wrap(m.pc + offset) < 0 || offset >= |p.code| then Destroyed
    else Live(m.(pc := m.pc + offset))
  }

  function JumpIf(p: Program, m: Vm, taken: bool, offset: int): (r: Outcome<Vm>)
    ensures r.Local()
  {
    if taken then Jump(p, m, offset) else Live(m)
  }

  datatype Arith = Add | Sub | And | Or

  function Compute(op: Arith, a: Word, b: Word): Word {
    match op
    case Add => Wrap(a + b)
    case Sub => Wrap(a - b)
    case And => Wrap(B.Bitwise(B.And, ToU32(a), ToU32(b)))
    case Or => Wrap(B.Bitwise(B.Or, ToU32(a), ToU32(b)))
  }

  /**
   * IADD is the sum and ISUB the difference modulo 2^32, and they undo each other; IAND and IOR work bit
   * by bit, and share out their operands' bits.
   */
  lemma ArithmeticLaws(a: Word, b: Word)
    ensures var x: int, y: int := a, b;
      Congruent(Compute(Add, a, b), x + y) && Congruent(Compute(Sub, a, b), x - y)
    ensures Compute(Add, Compute(Sub, a, b), b) == a && Compute(Sub, Compute(Add, a, b), b) == a
    ensures forall k: nat ::
      (B.BitOf(ToU32(Compute(And, a, b)), k) == 1 <==> B.BitOf(ToU32(a), k) == 1 && B.BitOf(ToU32(b), k) == 1) &&
      (B.BitOf(ToU32(Compute(Or, a, b)), k) == 1 <==> B.BitOf(ToU32(a), k) == 1 || B.BitOf(ToU32(b), k) == 1)
    ensures ToU32(Compute(And, a, b)) + ToU32(Compute(Or, a, b)) == ToU32(a) + ToU32(b)
    ensures ToU32(Compute(And, a, b)) <= ToU32(a) <= ToU32(Compute(Or, a, b))
  {
    hide Congruent, B.BitOf, B.Bitwise, ToU32, Wrap;
    SumsWrap(a, b);
    BitsShare(a, b);
    var x: int, y: int := a, b;
    WrapCongruent(x + y);
    WrapCongruent(x - y);
    forall k: nat
      ensures (B.BitOf(ToU32(Compute(And, a, b)), k) == 1 <==> B.BitOf(ToU32(a), k) == 1 && B.BitOf(ToU32(b), k) == 1)
      ensures (B.BitOf(ToU32(Compute(Or, a, b)), k) == 1 <==> B.BitOf(ToU32(a), k) == 1 || B.BitOf(ToU32(b), k) == 1)
    {
      ComputeBits(a, b, k);
    }
  }

  lemma ComputeBits(a: Word, b: Word, k: nat)
    ensures B.BitOf(ToU32(Compute(And, a, b)), k) == 1 <==> B.BitOf(ToU32(a), k) == 1 && B.BitOf(ToU32(b), k) == 1
    ensures B.BitOf(ToU32(Compute(Or, a, b)), k) == 1 <==> B.BitOf(ToU32(a), k) == 1 || B.BitOf(ToU32(b), k) == 1
  {
    hide B.Bitwise, B.Pow2, B.BitOf, ToU32, Wrap;
    var x, y := ToU32(a), ToU32(b);
    B.BitwiseBits(B.And, x, y, k);
    B.BitwiseBits(B.Or, x, y, k);
    Powers32();
    B.AndOrShare(32, x, y);
    UnsignedAgain(B.Bitwise(B.And, x, y));
    UnsignedAgain(B.Bitwise(B.Or, x, y));
  }

  lemma SumsWrap(a: Word, b: Word)
    ensures Compute(Add, Compute(Sub, a, b), b) == a && Compute(Sub, Compute(Add, a, b), b) == a
  {
    hide B.Bitwise;
  }

  lemma BitsShare(a: Word, b: Word)
    ensures ToU32(Compute(And, a, b)) + ToU32(Compute(Or, a, b)) == ToU32(a) + ToU32(b)
    ensures ToU32(Compute(And, a, b)) <= ToU32(a) <= ToU32(Compute(Or, a, b))
  {
    hide B.Bitwise, B.Pow2;
    Powers32();
    B.AndOrShare(32, ToU32(a), ToU32(b));
    UnsignedAgain(B.Bitwise(B.And, ToU32(a), ToU32(b)));
    UnsignedAgain(B.Bitwise(B.Or, ToU32(a), ToU32(b)));
  }

  lemma Powers32()
    ensures B.Pow2(32) == TWO32
  {
    assert B.Pow2(8) == 0x100;
    assert B.Pow2(16) == 0x1_0000;
    assert B.Pow2(24) == 0x100_0000;
  }

  function Binary(env: H.Env, m: Vm, op: Arith): (r: Outcome<Vm>)
    ensures r.Local()
  {
    var (m1, b) :- PopWord(m);
    var (m2, a) :- PopWord(m1);
    Push(env, m2, Compute(op, a, b))
  }

  function Zeroed(stack: seq<Word>, from: nat, n: nat): (r: seq<Word>)
    requires from + n <= |stack|
    ensures |r| == |stack|
    ensures forall i :: 0 <= i < |stack| ==> r[i] == if from <= i < from + n then 0 else stack[i]
  {
    stack[..from] + seq(n, _ => 0) + stack[from + n..]
  }

  /** `exec_op_invokevirtual`; on entry `pc` is the return address. */
  function InvokeMethod(env: H.Env, p: Program, m: Vm, index: int): (r: Outcome<Vm>)
    ensures r.Local() || r == WildCode
  {
    var (address, args, locals) :- Method(p, index);
    var m1 :- Push(env, m.(pc := address + 4, sp := m.sp + locals), Wrap(m.lv));
    var m2 :- Push(env, m1, Wrap(m.nv));
    var m3 :- Push(env, m2, Wrap(m.fp));
    var m4 :- Push(env, m3, Wrap(m.pc));
    var fp := m4.sp - 3;
    var lv := fp - (args + locals);
    if lv < 0 then Destroyed
    else if lv + args + locals > |m4.stack| then WildStack
    else Live(m4.(fp := fp, nv := args + locals, lv := lv, stack := Zeroed(m4.stack, lv + args, locals)))
  }

  /** `exec_op_ireturn`. */
  function ReturnWord(env: H.Env, p: Program, m: Vm): (r: Outcome<Vm>)
    ensures r.Local()
  {
    var (m0, word) :- PopWord(m);
    var (m1, pc) :- PopWord(m0.(sp := m.fp + 3));
    var (m2, fp) :- PopWord(m1);
    var (m3, nv) :- PopWord(m2);
    var (m4, lv) :- PopWord(m3);
    var sp := m4.sp - m.nv;
    if sp < -1 || sp >= |m.stack| || pc < 0 || pc >= |p.code| || fp < 0 || fp >= |m.stack| ||
       nv < 0 || lv >= |m.stack| || lv < 0 then Destroyed
    else Push(env, m4.(sp := sp, pc := pc, fp := fp, nv := nv, lv := lv), word)
  }

  /** The words `mark_arrays` looks at: everything below the top. */
  function BelowTop(m: Vm): seq<Word> {
    if 0 <= m.sp <= |m.stack| then m.stack[..m.sp] else []
  }

  ghost function Roots(m: Vm): set<nat> {
    H.RootsOf(BelowTop(m))
  }

  ghost function CreateArray(env: H.Env, m: Vm): (r: Outcome<Vm>)
    ensures r.Local()
  {
    var (m1, count) :- PopWord(m);
    var (heap, ref) :- H.Create(env, m1.heap, count, Roots(m1));
    Push(env, m1.(heap := heap), ref)
  }

  function LoadElement(env: H.Env, m: Vm): (r: Outcome<Vm>)
    ensures r.Local()
  {
    var (m1, ref) :- PopWord(m);
    var (m2, i) :- PopWord(m1);
    var w :- H.Get(m2.heap, ref, i);
    Push(env, m2, w)
  }

  function StoreElement(m: Vm): (r: Outcome<Vm>)
    ensures r.Local()
  {
    var (m1, ref) :- PopWord(m);
    var (m2, i) :- PopWord(m1);
    var (m3, w) :- PopWord(m2);
    var heap :- H.Set(m3.heap, ref, i, w);
    Live(m3.(heap := heap))
  }

  ghost function CollectNow(env: H.Env, m: Vm): (r: Outcome<Vm>)
    ensures r.Local()
  {
    var (heap, freed) :- H.Gc(env, m.heap, Roots(m));
    Live(m.(heap := heap))
  }

  function ReadByte(env: H.Env, m: Vm): (r: Outcome<Vm>)
    ensures r.Local()
  {
    if m.input == [] then Push(env, m, 0)
    else Push(env, m.(input := m.input[1..]), m.input[0])
  }

  /** One decoded instruction; on entry `pc` is past its operands. */
  ghost function Exec(env: H.Env, p: Program, m: Vm, ins: Instr): Outcome<Vm> {
    match ins
    case Nop => Live(m)
    case Bipush(w) => Push(env, m, w)
    case LdcW(i) => var w :- GetConstant(p, i); Push(env, m, w)
    case Iload(v) => var w :- GetLocal(m, v); Push(env, m, w)
    case Istore(v) => var (m1, w) :- PopWord(m); SetLocal(m1, w, v)
    case IstoreCut => var (m1, w) :- PopWord(m); WildCode
    case Pop => var (m1, w) :- PopWord(m); Live(m1)
    case Dup => if 0 <= m.sp < |m.stack| then Push(env, m, m.stack[m.sp]) else WildStack
    case Swap =>
      var (m1, b) :- PopWord(m);
      var (m2, a) :- PopWord(m1);
      var m3 :- Push(env, m2, b);
      Push(env, m3, a)
    case Iadd => Binary(env, m, Add)
    case Isub => Binary(env, m, Sub)
    case Iand => Binary(env, m, And)
    case Ior => Binary(env, m, Or)
    case Iinc(v, c) => var w :- GetLocal(m, v); SetLocal(m, Wrap(w + c), v)
    case Ifeq(o) => var (m1, w) :- PopWord(m); JumpIf(p, m1, w == 0, o)
    case Iflt(o) => var (m1, w) :- PopWord(m); JumpIf(p, m1, w < 0, o)
    case Icmpeq(o) =>
      var (m1, b) :- PopWord(m);
      var (m2, a) :- PopWord(m1);
      JumpIf(p, m2, a == b, o)
    case Goto(o) => Jump(p, m, o)
    case Ireturn => ReturnWord(env, p, m)
    case Invoke(i) => InvokeMethod(env, p, m, i)
    case In => ReadByte(env, m)
    case Out => var (m1, w) :- PopWord(m); Live(m1.(output := m1.output + [ToU32(w) % 256]))
    case Err => Live(m.(err := true))
    case Halt => Live(m.(halt := true))
    case NewArray => CreateArray(env, m)
    case Iaload => LoadElement(env, m)
    case Iastore => StoreElement(m)
    case Gc => CollectNow(env, m)
    case Net => Unmodelled
    case Invalid => Live(m.(err := true))
  }

  predicate Finished(p: Program, m: Vm) {
    m.pc < 0 || m.pc >= |p.code| || m.err || m.halt
  }

  ghost function Step(env: H.Env, p: Program, m: Vm): Outcome<Vm>
    requires m.pc >= 0
  {
    var (ins, next) :- Decode(p.code, m.pc, false);
    Exec(env, p, m.(pc := next), ins)
  }

  /** At most `n` turns of the loop in `run`. */
  ghost function Run(env: H.Env, p: Program, m: Vm, n: nat): Outcome<Vm>
    decreases n
  {
    if n == 0 || Finished(p, m) then Live(m)
    else
      var m1 :- Step(env, p, m);
      Run(env, p, m1, n - 1)
  }
}
