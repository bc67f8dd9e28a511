/** Code and constant memory, and the interpreter's reading of one instruction. */
module Programs {
  import opened Words
  import opened Outcomes

  const NOP: Byte := 0x00
  const BIPUSH: Byte := 0x10
  const LDC_W: Byte := 0x13
  const ILOAD: Byte := 0x15
  const ISTORE: Byte := 0x36
  const POP: Byte := 0x57
  const DUP: Byte := 0x59
  const SWAP: Byte := 0x5F
  const IADD: Byte := 0x60
  const ISUB: Byte := 0x64
  const IAND: Byte := 0x7E
  const IINC: Byte := 0x84
  const IFEQ: Byte := 0x99
  const IFLT: Byte := 0x9B
  const ICMPEQ: Byte := 0x9F
  const GOTO: Byte := 0xA7
  const IRETURN: Byte := 0xAC
  const IOR: Byte := 0xB0
  const INVOKEVIRTUAL: Byte := 0xB6
  const WIDE: Byte := 0xC4
  const NEWARRAY: Byte := 0xD1
  const IALOAD: Byte := 0xD2
  const IASTORE: Byte := 0xD3
  const GC: Byte := 0xD4
  const NETBIND: Byte := 0xE1
  const NETCONNECT: Byte := 0xE2
  const NETIN: Byte := 0xE3
  const NETOUT: Byte := 0xE4
  const NETCLOSE: Byte := 0xE5
  const IN: Byte := 0xFC
  const OUT: Byte := 0xFD
  const ERR: Byte := 0xFE
  const HALT: Byte := 0xFF

  /** The sizes are C `int`s. */
  datatype RawProgram = Program(code: seq<Byte>, consts: seq<Word>)
  type Program = p: RawProgram | |p.code| < 0x8000_0000 && |p.consts| < 0x2000_0000
    witness Program([], [])

  datatype Instr =
    | Nop
    | Bipush(value: Word)
    | LdcW(index: int)
    | Iload(v: int)
    | Istore(v: int)
    | IstoreCut      // its operand lies outside code memory, which shows after its pop
    | Pop
    | Dup
    | Swap
    | Iadd
    | Isub
    | Iand
    | Ior
    | Iinc(v: int, c: int)
    | Ifeq(offset: int)
    | Iflt(offset: int)
    | Icmpeq(offset: int)
    | Goto(offset: int)
    | Ireturn
    | Invoke(index: int)
    | In
    | Out
    | Err
    | Halt
    | NewArray
    | Iaload
    | Iastore
    | Gc
    | Net
    | Invalid

  /** The guard of an `n`-byte fetch; at the top of the `int` range its sum wraps, and it lets everything pass. */
  predicate GuardStops(code: seq<Byte>, pc: nat, n: nat) {
    Wrap(pc + n) > |code|
  }

  /** `get_arg_byte`. */
  function ArgByte(code: seq<Byte>, pc: nat): (r: Outcome<Byte>)
    ensures r.Live? || r == Destroyed || r == WildCode
    ensures r.Live? ==> pc < |code| && r.value == code[pc]
  {
    if GuardStops(code, pc, 1) then Destroyed
    else if pc < |code| then Live(code[pc])
    else WildCode
  }

  /** `get_arg_short`. */
  function ArgShort(code: seq<Byte>, pc: nat): (r: Outcome<int>)
    ensures r.Live? || r == Destroyed || r == WildCode
    ensures r.Live? ==> -0x8000 <= r.value < 0x8000 && pc + 2 <= |code|
  {
    if GuardStops(code, pc, 2) then Destroyed
    else if pc + 2 <= |code| then Live(SignedShort(code[pc], code[pc + 1]))
    else WildCode
  }

  /** The two-byte index of a WIDE variable instruction, or the one-byte index. */
  function VarIndex(code: seq<Byte>, pc: nat, wide: bool): (r: Outcome<(int, nat)>)
    ensures r.Live? ==> r.value.1 == pc + (if wide then 2 else 1) <= |code|
  {
    if wide then var v :- ArgShort(code, pc); Live((v, pc + 2))
    else var v :- ArgByte(code, pc); Live((v, pc + 1))
  }

  /** -3, because the offset counts from the opcode. */
  function Branch(code: seq<Byte>, pc: nat): Outcome<int> {
    var s :- ArgShort(code, pc);
    Live(WrapShort(s - 3))
  }

  /** The operands of opcode `op`, and the program counter after them. */
  function DecodeOp(code: seq<Byte>, op: Byte, pc: nat, wide: bool): (r: Outcome<(Instr, nat)>)
    requires pc <= |code|
    ensures r.Live? ==> pc <= r.value.1 <= |code|
    ensures r.Live? || r == Destroyed || r == WildCode
  {
    if op == NOP then Live((Nop, pc))
    else if op == BIPUSH then var b :- ArgByte(code, pc); Live((Bipush(SignedByte(b)), pc + 1))
    else if op == LDC_W then var s :- ArgShort(code, pc); Live((LdcW(UnsignedShort(s)), pc + 2))
    else if op == ILOAD then
      var (v, next) :- VarIndex(code, pc, wide); Live((Iload(UnsignedShort(v)), next))
    else if op == ISTORE then
      if VarIndex(code, pc, wide) == WildCode then Live((IstoreCut, pc))
      else var (v, next) :- VarIndex(code, pc, wide); Live((Istore(UnsignedShort(v)), next))
    else if op == POP then Live((Pop, pc))
    else if op == DUP then Live((Dup, pc))
    else if op == SWAP then Live((Swap, pc))
    else if op == IADD then Live((Iadd, pc))
    else if op == ISUB then Live((Isub, pc))
    else if op == IAND then Live((Iand, pc))
    else if op == IOR then Live((Ior, pc))
    else if op == IINC then
      var (v, next) :- VarIndex(code, pc, wide);
      var c :- ArgByte(code, next);
      Live((Iinc(v, SignedByte(c)), next + 1))
    else if op == IFEQ then var o :- Branch(code, pc); Live((Ifeq(o), pc + 2))
    else if op == IFLT then var o :- Branch(code, pc); Live((Iflt(o), pc + 2))
    else if op == ICMPEQ then var o :- Branch(code, pc); Live((Icmpeq(o), pc + 2))
    else if op == GOTO then var o :- Branch(code, pc); Live((Goto(o), pc + 2))
    else if op == IRETURN then Live((Ireturn, pc))
    else if op == INVOKEVIRTUAL then var s :- ArgShort(code, pc); Live((Invoke(s), pc + 2))
    else if op == IN then Live((In, pc))
    else if op == OUT then Live((Out, pc))
    else if op == ERR then Live((Err, pc))
    else if op == HALT then Live((Halt, pc))
    else if op == NEWARRAY then Live((NewArray, pc))
    else if op == IALOAD then Live((Iaload, pc))
    else if op == IASTORE then Live((Iastore, pc))
    else if op == GC then Live((Gc, pc))
    else if op == NETBIND || op == NETCONNECT || op == NETIN || op == NETOUT || op == NETCLOSE then Live((Net, pc))
    else Live((Invalid, pc))
  }

  /** Fetch at `pc`; WIDE fetches again with the prefix flag set and no check of the end of code. */
  function Decode(code: seq<Byte>, pc: nat, wide: bool): (r: Outcome<(Instr, nat)>)
    ensures r.Live? ==> pc < r.value.1 <= |code|
    decreases |code| - pc
  {
    if pc >= |code| then WildCode
    else if code[pc] == WIDE then Decode(code, pc + 1, true)
    else DecodeOp(code, code[pc], pc + 1, wide)
  }

  /** `get_constant`. */
  function GetConstant(p: Program, i: int): Outcome<Word> {
    if 0 <= i < |p.consts| then Live(p.consts[i]) else Destroyed
  }

  /** The header of the method a constant names: its address, argument and local counts. */
  function Method(p: Program, index: int): (r: Outcome<(nat, nat, nat)>)
    ensures r.Live? || r == Destroyed || r == WildCode
    ensures r.Live? ==> r.value.0 + 4 <= |p.code| && r.value.1 < 0x1_0000 && r.value.2 < 0x1_0000
  {
    var address :- GetConstant(p, index);
    if !(0 <= address < |p.code|) then Destroyed
    else
      var args :- ArgShort(p.code, address);
      var locals :- ArgShort(p.code, address + 2);
      Live((address, UnsignedShort(args), UnsignedShort(locals)))
  }

  /** The first byte from `pc` on that is no WIDE, or the end of code. */
  function OpcodeAt(code: seq<Byte>, pc: nat): (j: nat)
    requires pc <= |code|
    ensures pc <= j <= |code| && (forall i :: pc <= i < j ==> code[i] == WIDE) && (j < |code| ==> code[j] != WIDE)
    decreases |code| - pc
  {
    if pc < |code| && code[pc] == WIDE then OpcodeAt(code, pc + 1) else pc
  }

  lemma {:induction false} DecodeAt(code: seq<Byte>, pc: nat, wide: bool)
    requires pc <= |code|
    ensures var j := OpcodeAt(code, pc);
      Decode(code, pc, wide) == if j == |code| then WildCode else DecodeOp(code, code[j], j + 1, wide || j > pc)
    decreases |code| - pc
  {
    hide DecodeOp;
    if pc < |code| && code[pc] == WIDE {
      DecodeAt(code, pc + 1, true);
    }
  }

  /** How far behind its opcode each operand fetch of an instruction reaches. */
  function Fetches(op: Byte, wide: bool): seq<nat> {
    if op == BIPUSH then [1]
    else if op in {LDC_W, IFEQ, IFLT, ICMPEQ, GOTO, INVOKEVIRTUAL} then [2]
    else if op == ILOAD || op == ISTORE then [if wide then 2 else 1]
    else if op == IINC then if wide then [2, 3] else [1, 2]
    else []
  }

  /** Of the fetches from `at`, the first one that leaves the code reaches beyond the largest `int`. */
  predicate Overruns(code: seq<Byte>, at: nat, reach: seq<nat>) {
    exists k :: 0 <= k < |reach| && at + reach[k] > 0x7FFF_FFFF && forall i :: 0 <= i < k ==> at + reach[i] <= |code|
  }

  lemma ByteOverruns(code: seq<Byte>, pc: nat)
    requires pc <= |code| < 0x8000_0000
    ensures ArgByte(code, pc) == WildCode <==> pc + 1 > 0x7FFF_FFFF
    ensures ArgByte(code, pc).Live? <==> pc + 1 <= |code|
  {
  }

  lemma ShortOverruns(code: seq<Byte>, pc: nat)
    requires pc <= |code| < 0x8000_0000
    ensures ArgShort(code, pc) == WildCode <==> pc + 2 > 0x7FFF_FFFF
    ensures ArgShort(code, pc).Live? <==> pc + 2 <= |code|
  {
  }

  lemma OneFetch(code: seq<Byte>, at: nat, n: nat)
    ensures Overruns(code, at, [n]) <==> at + n > 0x7FFF_FFFF
  {
    assert at + n > 0x7FFF_FFFF ==> at + [n][0] > 0x7FFF_FFFF;
  }

  lemma TwoFetches(code: seq<Byte>, at: nat, n: nat, k: nat)
    ensures Overruns(code, at, [n, k]) <==> at + n > 0x7FFF_FFFF || (at + n <= |code| && at + k > 0x7FFF_FFFF)
  {
    var reach := [n, k];
    assert at + n > 0x7FFF_FFFF ==> at + reach[0] > 0x7FFF_FFFF;
    assert at + k > 0x7FFF_FFFF ==> at + reach[1] > 0x7FFF_FFFF;
  }

  /** An operand is read outside the code exactly where its guard wraps; ISTORE pops before that shows. */
  lemma OperandsOverrunIff(code: seq<Byte>, op: Byte, pc: nat, wide: bool)
    requires pc <= |code| < 0x8000_0000
    ensures var r := DecodeOp(code, op, pc, wide);
      r == WildCode || r == Live((IstoreCut, pc)) <==> Overruns(code, pc, Fetches(op, wide))
    ensures DecodeOp(code, op, pc, wide) == WildCode ==> op != ISTORE
    ensures DecodeOp(code, op, pc, wide) == Live((IstoreCut, pc)) ==> op == ISTORE
  {
    hide ArgByte, ArgShort, SignedByte, UnsignedShort, WrapShort, Overruns;
    ByteOverruns(code, pc);
    ShortOverruns(code, pc);
    OneFetch(code, pc, 1);
    OneFetch(code, pc, 2);
    if op == IINC { IncrementOverruns(code, pc, wide); }
    NoFetch(code, pc);
  }

  lemma NoFetch(code: seq<Byte>, at: nat)
    ensures !Overruns(code, at, [])
  {
  }

  lemma IncrementOverruns(code: seq<Byte>, pc: nat, wide: bool)
    requires pc <= |code| < 0x8000_0000
    ensures DecodeOp(code, IINC, pc, wide) == WildCode <==> Overruns(code, pc, Fetches(IINC, wide))
    ensures DecodeOp(code, IINC, pc, wide).Live? ==> DecodeOp(code, IINC, pc, wide).value.0.Iinc?
  {
    hide ArgByte, ArgShort, SignedByte, Overruns;
    var n := if wide then 2 else 1;
    ByteOverruns(code, pc);
    ShortOverruns(code, pc);
    TwoFetches(code, pc, n, n + 1);
    if pc + n <= |code| { ByteOverruns(code, pc + n); }
  }

  /** The header of the method a constant names runs out of the code past the largest `int`. */
  predicate HeaderOverruns(p: Program, index: int) {
    var c := GetConstant(p, index);
    c.Live? && 0 <= c.value < |p.code| && Overruns(p.code, c.value, [2, 4])
  }

  lemma HeaderOverrunsIff(p: Program, index: int)
    ensures Method(p, index) == WildCode <==> HeaderOverruns(p, index)
  {
    hide ArgShort, Overruns;
    var c := GetConstant(p, index);
    if c.Live? && 0 <= c.value < |p.code| {
      ShortOverruns(p.code, c.value);
      TwoFetches(p.code, c.value, 2, 4);
      if c.value + 2 <= |p.code| { ShortOverruns(p.code, c.value + 2); }
    }
  }
}
