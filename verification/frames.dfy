/**
 * The abstract machine: a list of frame records instead of one flat stack. It ends `Undisciplined`
 * where a program would leave its own operand stack: an operand, an argument or a returned word is
 * missing, or main returns.
 */
module Frames {
  import opened Words
  import opened Outcomes
  import opened Programs
  import M = Machine
  import H = Heaps

  /**
   * `ret` is where the caller goes on, `address` the method, `args` the argument values as passed
   * (locals may change later). For main all three are empty.
   */
  datatype Frame = Frame(locals: seq<Word>, operands: seq<Word>, ret: int, address: U32, args: seq<Word>)

  datatype Chain = Main(top: Frame) | Called(callers: Chain, top: Frame)

  /** `cap` is the allocated stack size, which only matters for running out of memory. */
  datatype FrameVm = FrameVm(
    frames: Chain, cap: nat, pc: int, err: bool, halt: bool,
    heap: H.Heap, input: seq<Byte>, output: seq<Byte>)
  {
    function Top(): Frame { frames.top }

    function WithOperands(operands: seq<Word>): FrameVm {
      this.(frames := frames.(top := frames.top.(operands := operands)))
    }

    function WithLocals(locals: seq<Word>): FrameVm {
      this.(frames := frames.(top := frames.top.(locals := locals)))
    }
  }

  function Depth(fs: Chain): nat {
    if fs.Main? then 1 else Depth(fs.callers) + 1
  }

  /** The number of flat stack words the frames take: four linkage words per call. */
  function Size(fs: Chain): nat {
    (if fs.Main? then 0 else Size(fs.callers) + 4) + |fs.top.locals| + |fs.top.operands|
  }

  function GrowCap(env: H.Env, cap: nat, top: int): (r: Outcome<nat>)
    ensures r.Live? || r == Destroyed
    ensures r.Live? ==> top < r.value && cap <= r.value
    decreases top - cap
  {
    if top < cap then Live(cap)
    else if cap * 4 * 8 > TWO32 || cap == 0 || !env.grow(8 * cap) then Destroyed
    else GrowCap(env, 8 * cap, top)
  }

  function Push(env: H.Env, a: FrameVm, w: Word): Outcome<FrameVm> {
    var cap :- GrowCap(env, a.cap, Size(a.frames));
    Live(a.(cap := cap).WithOperands(a.Top().operands + [w]))
  }

  function PopWord(a: FrameVm): (r: Outcome<(FrameVm, Word)>)
    ensures r.Live? || r == Undisciplined
  {
    var ops := a.Top().operands;
    if ops == [] then Undisciplined
    else Live((a.WithOperands(ops[..|ops| - 1]), ops[|ops| - 1]))
  }

  function GetLocal(a: FrameVm, i: int): Outcome<Word> {
    if 0 <= i < |a.Top().locals| then Live(a.Top().locals[i]) else Destroyed
  }

  function SetLocal(a: FrameVm, w: Word, i: int): Outcome<FrameVm> {
    if 0 <= i < |a.Top().locals| then Live(a.WithLocals(a.Top().locals[i := w])) else Destroyed
  }

  function Jump(p: Program, a: FrameVm, offset: int): Outcome<FrameVm> {
    if Wrap(a.pc + offset) < 0 || offset >= |p.code| then Destroyed
    else Live(a.(pc := a.pc + offset))
  }

  function JumpIf(p: Program, a: FrameVm, taken: bool, offset: int): Outcome<FrameVm> {
    if taken then Jump(p, a, offset) else Live(a)
  }

  function Binary(env: H.Env, a: FrameVm, op: M.Arith): Outcome<FrameVm> {
    var (a1, y) :- PopWord(a);
    var (a2, x) :- PopWord(a1);
    Push(env, a2, M.Compute(op, x, y))
  }

  /** The arguments move from the caller's operands to the head of the callee's locals. */
  function InvokeMethod(env: H.Env, p: Program, a: FrameVm, index: int): Outcome<FrameVm> {
    var (address, args, locals) :- Method(p, index);
    var ops := a.Top().operands;
    if |ops| < args then Undisciplined
    else
      var cap :- GrowCap(env, a.cap, Size(a.frames) + locals + 3);
      var passed := ops[|ops| - args..];
      var callee := Frame(passed + seq(locals, _ => 0), [], a.pc, address, passed);
      var caller := a.WithOperands(ops[..|ops| - args]).frames;
      Live(a.(frames := Called(caller, callee), cap := cap, pc := address + 4))
  }

  function ReturnWord(env: H.Env, p: Program, a: FrameVm): Outcome<FrameVm> {
    var (a1, w) :- PopWord(a);
    if a.frames.Main? then Undisciplined
    else if a.Top().ret >= |p.code| then Destroyed
    else Push(env, a1.(frames := a.frames.callers, pc := a.Top().ret), w)
  }

  /** All locals and operands, oldest frame first. */
  function Data(fs: Chain): seq<Word> {
    (if fs.Main? then [] else Data(fs.callers)) + fs.top.locals + fs.top.operands
  }

  /** The words a collection looks at: all but the topmost one, be it an operand, linkage, or main's local. */
  function BelowTop(fs: Chain): seq<Word> {
    if fs.top.operands == [] && fs.Called? then Data(fs)
    else var d := Data(fs); if d == [] then [] else d[..|d| - 1]
  }

  ghost function Roots(a: FrameVm): set<nat> {
    H.RootsOf(BelowTop(a.frames))
  }

  ghost function CreateArray(env: H.Env, a: FrameVm): Outcome<FrameVm> {
    var (a1, count) :- PopWord(a);
    var (heap, ref) :- H.Create(env, a1.heap, count, Roots(a1));
    Push(env, a1.(heap := heap), ref)
  }

  function LoadElement(env: H.Env, a: FrameVm): Outcome<FrameVm> {
    var (a1, ref) :- PopWord(a);
    var (a2, i) :- PopWord(a1);
    var w :- H.Get(a2.heap, ref, i);
    Push(env, a2, w)
  }

  function StoreElement(a: FrameVm): Outcome<FrameVm> {
    var (a1, ref) :- PopWord(a);
    var (a2, i) :- PopWord(a1);
    var (a3, w) :- PopWord(a2);
    var heap :- H.Set(a3.heap, ref, i, w);
    Live(a3.(heap := heap))
  }

  ghost function CollectNow(env: H.Env, a: FrameVm): Outcome<FrameVm> {
    var (heap, freed) :- H.Gc(env, a.heap, Roots(a));
    Live(a.(heap := heap))
  }

  function ReadByte(env: H.Env, a: FrameVm): Outcome<FrameVm> {
    if a.input == [] then Push(env, a, 0)
    else Push(env, a.(input := a.input[1..]), a.input[0])
  }

  ghost function Exec(env: H.Env, p: Program, a: FrameVm, ins: Instr): Outcome<FrameVm> {
    match ins
    case Nop => Live(a)
    case Bipush(w) => Push(env, a, w)
    case LdcW(i) => var w :- GetConstant(p, i); Push(env, a, w)
    case Iload(v) => var w :- GetLocal(a, v); Push(env, a, w)
    case Istore(v) => var (a1, w) :- PopWord(a); SetLocal(a1, w, v)
    case IstoreCut => var (a1, w) :- PopWord(a); WildCode
    case Pop => var (a1, w) :- PopWord(a); Live(a1)
    case Dup => var (a1, w) :- PopWord(a); Push(env, a, w)
    case Swap =>
      var (a1, y) :- PopWord(a);
      var (a2, x) :- PopWord(a1);
      var a3 :- Push(env, a2, y);
      Push(env, a3, x)
    case Iadd => Binary(env, a, M.Add)
    case Isub => Binary(env, a, M.Sub)
    case Iand => Binary(env, a, M.And)
    case Ior => Binary(env, a, M.Or)
    case Iinc(v, c) => var w :- GetLocal(a, v); SetLocal(a, Wrap(w + c), v)
    case Ifeq(o) => var (a1, w) :- PopWord(a); JumpIf(p, a1, w == 0, o)
    case Iflt(o) => var (a1, w) :- PopWord(a); JumpIf(p, a1, w < 0, o)
    case Icmpeq(o) =>
      var (a1, y) :- PopWord(a);
      var (a2, x) :- PopWord(a1);
      JumpIf(p, a2, x == y, o)
    case Goto(o) => Jump(p, a, o)
    case Ireturn => ReturnWord(env, p, a)
    case Invoke(i) => InvokeMethod(env, p, a, i)
    case In => ReadByte(env, a)
    case Out => var (a1, w) :- PopWord(a); Live(a1.(output := a1.output + [ToU32(w) % 256]))
    case Err => Live(a.(err := true))
    case Halt => Live(a.(halt := true))
    case NewArray => CreateArray(env, a)
    case Iaload => LoadElement(env, a)
    case Iastore => StoreElement(a)
    case Gc => CollectNow(env, a)
    case Net => Unmodelled
    case Invalid => Live(a.(err := true))
  }

  predicate Finished(p: Program, a: FrameVm) {
    a.pc < 0 || a.pc >= |p.code| || a.err || a.halt
  }

  ghost function Step(env: H.Env, p: Program, a: FrameVm): Outcome<FrameVm>
    requires a.pc >= 0
  {
    var (ins, next) :- Decode(p.code, a.pc, false);
    Exec(env, p, a.(pc := next), ins)
  }

  ghost function Run(env: H.Env, p: Program, a: FrameVm, n: nat): Outcome<FrameVm>
    decreases n
  {
    if n == 0 || Finished(p, a) then Live(a)
    else
      var a1 :- Step(env, p, a);
      Run(env, p, a1, n - 1)
  }
}
