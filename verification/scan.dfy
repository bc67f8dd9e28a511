/** The linear scan of main that sizes its variable area, and the start of the machine (src/init.c). */
module Scan {
  import opened Words
  import opened Outcomes
  import opened Programs

  /** The loop state of `get_num_local_vars_main`. */
  datatype State = State(i: nat, wide: bool, first: U32, vars: nat)

  const NO_METHOD: U32 := 0xFFFF_FFFF
  const START: State := State(0, false, NO_METHOD, 0)

  /** `get_code_byte` and `get_code_short` do not check their index. */
  function CodeByte(p: Program, i: nat): (r: Outcome<Byte>)
    ensures r.Live? || r == WildCode
  {
    if i < |p.code| then Live(p.code[i]) else WildCode
  }

  function CodeShort(p: Program, i: nat): (r: Outcome<int>)
    ensures r.Live? || r == WildCode
    ensures r.Live? ==> -0x8000 <= r.value < 0x8000
  {
    if i + 2 <= |p.code| then Live(SignedShort(p.code[i], p.code[i + 1])) else WildCode
  }

  predicate Stops(p: Program, s: State) {
    s.i >= |p.code| || s.i + 2 > s.first
  }

  function Max(a: int, b: int): int {
    if a > b then a else b
  }

  /** One turn of the loop. */
  function Turn(p: Program, s: State): (r: Outcome<State>)
    requires s.i < |p.code|
    ensures r.Live? ==> s.i < r.value.i && r.value.first <= s.first && s.vars <= r.value.vars
    ensures r.Live? && s.vars <= 0x8000 ==> r.value.vars <= 0x8000
  {
    var op := p.code[s.i];
    if op == WIDE then Live(s.(i := s.i + 1, wide := true))
    else if op == INVOKEVIRTUAL then
      var index :- CodeShort(p, s.i + 1);
      var address :- GetConstant(p, index);
      Live(s.(i := s.i + 3, first := if 0 < address < s.first && address < |p.code| then address else s.first))
    else if op == ISTORE || op == ILOAD || op == IINC then
      var index :- if s.wide then CodeShort(p, s.i + 1) else CodeByte(p, s.i + 1);
      Live(s.(i := s.i + (if s.wide then 3 else 2) + (if op == IINC then 1 else 0),
              wide := false, vars := Max(s.vars, index + 1)))
    else if op == BIPUSH then Live(s.(i := s.i + 2))
    else if op == GOTO || op == IFEQ || op == IFLT || op == ICMPEQ || op == LDC_W then Live(s.(i := s.i + 3))
    else Live(s.(i := s.i + 1))
  }

  function ScanFrom(p: Program, s: State): (r: Outcome<State>)
    ensures r.Live? ==> r.value.first <= s.first && s.vars <= r.value.vars
    ensures r.Live? && s.vars <= 0x8000 ==> r.value.vars <= 0x8000
    decreases |p.code| - s.i
  {
    if Stops(p, s) then Live(s)
    else
      var s1 :- Turn(p, s);
      ScanFrom(p, s1)
  }

  lemma ScanTurns(p: Program, s: State)
    requires !Stops(p, s)
    ensures ScanFrom(p, s) ==
      var r := Turn(p, s);
      if r.IsFailure() then r.PropagateFailure() else ScanFrom(p, r.value)
  {
    hide Turn;
  }

  lemma ScanEnds(p: Program, s: State)
    requires Stops(p, s)
    ensures ScanFrom(p, s) == Live(s)
  {
  }

  /** `get_num_local_vars_main`: never negative and at most 32768. */
  method NumLocalVarsMain(p: Program) returns (r: Outcome<nat>)
    ensures match ScanFrom(p, START)
      case Live(s) => r == Live(s.vars) && s.vars <= 0x8000
      case other => r == other.PropagateFailure<nat>()
  {
    hide ScanFrom, CodeShort, CodeByte;
    var i, nextWide, first, vars := 0, false, NO_METHOD, 0;
    while i < |p.code|
      invariant 0 <= i && 0 <= vars <= 0x8000 && 0 <= first <= NO_METHOD
      invariant ScanFrom(p, START) == ScanFrom(p, State(i, nextWide, first, vars))
      decreases |p.code| - i
    {
      var op := p.code[i];
      if i + 2 > first {
        break;
      }
      ScanTurns(p, State(i, nextWide, first, vars));
      if op == WIDE {
        nextWide := true;
      } else if op == INVOKEVIRTUAL {
        var index :- CodeShort(p, i + 1);
        var address :- GetConstant(p, index);
        if 0 < address < first && address < |p.code| {
          first := address;
        }
        i := i + 2;
      } else if op == ISTORE || op == ILOAD || op == IINC {
        var index;
        if nextWide {
          index :- CodeShort(p, i + 1);
          nextWide := false;
          i := i + 2;
        } else {
          index :- CodeByte(p, i + 1);
          i := i + 1;
        }
        if op == IINC {
          i := i + 1;
        }
        if index + 1 > vars {
          vars := index + 1;
        }
      } else if op == BIPUSH {
        i := i + 1;
      } else if op == GOTO || op == IFEQ || op == IFLT || op == ICMPEQ || op == LDC_W {
        i := i + 2;
      }
      i := i + 1;
    }
    ScanEnds(p, State(i, nextWide, first, vars));
    r := Live(vars);
  }

  predicate IsVariable(ins: Instr) {
    ins.Iload? || ins.Istore? || ins.Iinc?
  }

  /** The scan, started in `s`, looks at an instruction at `j` with its prefix flag equal to `wide`. */
  ghost predicate Visits(p: Program, s: State, j: nat, wide: bool)
    decreases |p.code| - s.i
  {
    !Stops(p, s) &&
    ((s.i == j && s.wide == wide) || (Turn(p, s).Live? && Visits(p, Turn(p, s).value, j, wide)))
  }

  /** The interpreter goes on behind this instruction, at once or after a call returns. */
  predicate FallsThrough(ins: Instr) {
    !ins.Goto? && !ins.Ireturn? && !ins.Halt? && !ins.Err? && !ins.Invalid?
  }

  predicate IsJump(ins: Instr) {
    ins.Goto? || ins.Ifeq? || ins.Iflt? || ins.Icmpeq?
  }

  /** A run of main ends at `t`, at once or with the instruction there. */
  predicate EndsAt(p: Program, t: nat) {
    t >= |p.code| || p.code[t] == HALT || p.code[t] == ERR
  }

  /** Main may go on at `t`: the scan has seen an instruction there, or the run ends there. */
  ghost predicate Landing(p: Program, t: nat) {
    Visits(p, START, t, false) || EndsAt(p, t)
  }

  /**
   * What is asked of the instruction the scan sees at `j`, `limit` being the first method's address:
   * it is not cut off, WIDE precedes only variable instructions, whose index is below 32768, main does
   * not run on into the method, and jumps go to where the scan has seen an instruction.
   */
  ghost predicate InstrOk(p: Program, limit: int, j: nat) {
    Decode(p.code, j, false).Live? &&
    var (ins, next) := Decode(p.code, j, false).value;
    next <= limit && (j < |p.code| && p.code[j] == WIDE ==> IsVariable(ins)) &&
    (IsVariable(ins) ==> 0 <= ins.v < 0x8000) &&
    (FallsThrough(ins) ==> next + 2 <= limit || EndsAt(p, next)) &&
    (IsJump(ins) && next + ins.offset >= 0 ==> Landing(p, next + ins.offset))
  }

  /** Main lies before the first method it calls, and each of its instructions is as `InstrOk` asks. */
  ghost predicate MainIsWellFormed(p: Program) {
    ScanFrom(p, START).Live? &&
    forall j: nat :: Visits(p, START, j, false) ==> InstrOk(p, ScanFrom(p, START).value.first, j)
  }

  /**
   * Scanner and interpreter agree on lengths: having decoded an instruction up to `next`, the scan
   * that stood at its start gets to `next` with a clear prefix flag, and looks there unless it is over;
   * and a variable the instruction names is counted.
   */
  lemma {:induction false} SameLength(p: Program, s: State, ins: Instr, next: nat) returns (s': State)
    requires !Stops(p, s) && ScanFrom(p, s).Live?
    requires Decode(p.code, s.i, s.wide) == Live((ins, next)) && next <= ScanFrom(p, s).value.first
    requires s.wide || p.code[s.i] == WIDE ==> IsVariable(ins)
    requires IsVariable(ins) ==> 0 <= ins.v < 0x8000
    ensures s'.i == next && !s'.wide && ScanFrom(p, s') == ScanFrom(p, s)
    ensures next < |p.code| && next + 2 <= ScanFrom(p, s).value.first ==> Visits(p, s, next, false)
    ensures IsVariable(ins) ==> ins.v < ScanFrom(p, s).value.vars
    decreases |p.code| - s.i
  {
    var s1 := Turn(p, s).value;
    if p.code[s.i] == WIDE {
      WideNeedsThree(p, s1.i, ins, next);
      s' := SameLength(p, s1, ins, next);
    } else {
      OneTurn(p, s, ins, next);
      s' := s1;
    }
  }

  lemma {:induction false} WideNeedsThree(p: Program, pc: nat, ins: Instr, next: nat)
    requires Decode(p.code, pc, true) == Live((ins, next)) && IsVariable(ins)
    ensures pc + 3 <= next
    decreases |p.code| - pc
  {
    if p.code[pc] == WIDE { WideNeedsThree(p, pc + 1, ins, next); }
  }

  lemma OneTurn(p: Program, s: State, ins: Instr, next: nat)
    requires s.i < |p.code| && p.code[s.i] != WIDE && Decode(p.code, s.i, s.wide) == Live((ins, next))
    requires s.wide ==> IsVariable(ins)
    requires IsVariable(ins) ==> 0 <= ins.v < 0x8000
    requires Turn(p, s).Live?
    ensures Turn(p, s).value.i == next && !Turn(p, s).value.wide
    ensures IsVariable(ins) ==> ins.v < Turn(p, s).value.vars
  {
  }

  /** A variable instruction of main names a variable the scan has counted. */
  lemma {:induction false} VisitedVariableIsCounted(p: Program, s: State, j: nat, ins: Instr, next: nat)
    requires Visits(p, s, j, false) && ScanFrom(p, s).Live?
    requires Decode(p.code, j, false) == Live((ins, next)) && next <= ScanFrom(p, s).value.first
    requires p.code[j] == WIDE ==> IsVariable(ins)
    requires IsVariable(ins) && 0 <= ins.v < 0x8000
    ensures ins.v < ScanFrom(p, s).value.vars
    decreases |p.code| - s.i
  {
    if s.i == j && !s.wide {
      var _ := SameLength(p, s, ins, next);
    } else {
      VisitedVariableIsCounted(p, Turn(p, s).value, j, ins, next);
    }
  }

  /** Where the interpreter goes on behind an instruction the scan has seen, the scan has looked too. */
  lemma {:induction false} VisitsNext(p: Program, s: State, j: nat, ins: Instr, next: nat)
    requires Visits(p, s, j, false) && ScanFrom(p, s).Live?
    requires Decode(p.code, j, false) == Live((ins, next))
    requires next < |p.code| && next + 2 <= ScanFrom(p, s).value.first
    requires p.code[j] == WIDE ==> IsVariable(ins)
    requires IsVariable(ins) ==> 0 <= ins.v < 0x8000
    ensures Visits(p, s, next, false)
    decreases |p.code| - s.i
  {
    if s.i == j && !s.wide {
      var _ := SameLength(p, s, ins, next);
    } else {
      VisitsNext(p, Turn(p, s).value, j, ins, next);
    }
  }

  /** The scan begins where the run does. */
  lemma StartLands(p: Program)
    ensures Landing(p, 0)
  {
  }

  /** The index a variable instruction at `j` names, read as the scan does. */
  predicate NamesVariable(p: Program, j: nat, wide: bool, v: int) {
    j < |p.code| && (p.code[j] == 0x15 || p.code[j] == 0x36 || p.code[j] == 0x84) &&
    if wide then j + 3 <= |p.code| && v == SignedShort(p.code[j + 1], p.code[j + 2])
    else j + 2 <= |p.code| && v == p.code[j + 1]
  }

  /** An INVOKEVIRTUAL at `j` names a method that starts at `t`, behind address 0 and inside the code. */
  predicate Calls(p: Program, j: nat, t: int) {
    j + 3 <= |p.code| && p.code[j] == 0xB6 &&
    var s := SignedShort(p.code[j + 1], p.code[j + 2]);
    0 <= s < |p.consts| && t == p.consts[s] && 0 < t < |p.code|
  }

  lemma TurnReads(p: Program, s: State)
    requires s.i < |p.code| && Turn(p, s).Live?
    ensures var t := Turn(p, s).value;
      (p.code[s.i] in {0x15, 0x36, 0x84} ==>
        exists v: int :: NamesVariable(p, s.i, s.wide, v) && t.vars == Max(s.vars, v + 1)) &&
      (p.code[s.i] !in {0x15, 0x36, 0x84} ==> t.vars == s.vars) &&
      (forall a: int :: Calls(p, s.i, a) ==> t.first == if a < s.first then a else s.first) &&
      (t.first != s.first ==> Calls(p, s.i, t.first))
  {
    var op := p.code[s.i];
    if op == 0x15 || op == 0x36 || op == 0x84 {
      var v: int := if s.wide then SignedShort(p.code[s.i + 1], p.code[s.i + 2]) else p.code[s.i + 1];
      assert NamesVariable(p, s.i, s.wide, v);
    }
  }

  /** Something the scan looks at names the last variable. */
  ghost predicate LastVariable(p: Program, s: State, vars: int) {
    exists j: nat, wide: bool :: Visits(p, s, j, wide) && NamesVariable(p, j, wide, vars - 1)
  }

  /** Something the scan looks at calls the method at `first`. */
  ghost predicate CallsFirst(p: Program, s: State, first: int) {
    exists j: nat, wide: bool :: Visits(p, s, j, wide) && Calls(p, j, first)
  }

  lemma VisitsLater(p: Program, s: State, j: nat, wide: bool)
    requires !Stops(p, s) && Turn(p, s).Live? && Visits(p, Turn(p, s).value, j, wide)
    ensures Visits(p, s, j, wide)
  {
    hide Turn;
  }

  lemma VisitsHere(p: Program, s: State)
    requires !Stops(p, s)
    ensures Visits(p, s, s.i, s.wide)
  {
    hide Turn;
  }

  lemma VisitsIff(p: Program, s: State, j: nat, wide: bool)
    ensures Visits(p, s, j, wide) <==>
      !Stops(p, s) && ((s.i == j && s.wide == wide) || (Turn(p, s).Live? && Visits(p, Turn(p, s).value, j, wide)))
  {
    hide Turn;
  }

  /**
   * What the scan returns is exact: one more than the greatest index named by a variable instruction it
   * looks at, and the least method start an INVOKEVIRTUAL it looks at names.
   */
  lemma {:induction false} ScanIsExact(p: Program, s: State)
    requires ScanFrom(p, s).Live?
    ensures var end := ScanFrom(p, s).value;
      (end.vars == s.vars || LastVariable(p, s, end.vars)) && (end.first == s.first || CallsFirst(p, s, end.first)) &&
      (forall j: nat, wide: bool, v: int :: Visits(p, s, j, wide) && NamesVariable(p, j, wide, v) ==> v < end.vars) &&
      (forall j: nat, wide: bool, t: int :: Visits(p, s, j, wide) && Calls(p, j, t) ==> end.first <= t) &&
      (end.i >= |p.code| || end.i + 2 > end.first)
    decreases |p.code| - s.i
  {
    hide Visits, Turn, NamesVariable, Calls, ScanFrom, Stops;
    if Stops(p, s) {
      ScanEnds(p, s);
      PastEnd(p, s);
      forall j: nat, wide: bool ensures !Visits(p, s, j, wide) { VisitsIff(p, s, j, wide); }
    } else {
      ScanTurns(p, s);
      NotPastEnd(p, s);
      var s1 := Turn(p, s).value;
      TurnReads(p, s);
      VisitsHere(p, s);
      VariableIsOne(p, s.i);
      ScanIsExact(p, s1);
      forall j: nat, wide: bool ensures Visits(p, s1, j, wide) ==> Visits(p, s, j, wide) {
        VisitsIff(p, s, j, wide);
      }
      forall j: nat, wide: bool | Visits(p, s, j, wide)
        ensures (j == s.i && wide == s.wide) || Visits(p, s1, j, wide)
      {
        VisitsIff(p, s, j, wide);
      }
    }
  }

  lemma PastEnd(p: Program, s: State)
    requires Stops(p, s)
    ensures s.i >= |p.code| || s.i + 2 > s.first
  {
  }

  lemma NotPastEnd(p: Program, s: State)
    requires !Stops(p, s)
    ensures s.i < |p.code|
  {
  }

  lemma VariableIsOne(p: Program, j: nat)
    ensures forall wide: bool, v: int, u: int :: NamesVariable(p, j, wide, v) && NamesVariable(p, j, wide, u) ==> u == v
    ensures forall wide: bool, v: int :: NamesVariable(p, j, wide, v) ==> j < |p.code| && p.code[j] in {0x15, 0x36, 0x84}
  {
  }

  /** From the start: no variables or one more than the last one named, and no method or the first one called. */
  lemma MainScanIsExact(p: Program)
    requires ScanFrom(p, START).Live?
    ensures var end := ScanFrom(p, START).value;
      (end.vars == 0 || LastVariable(p, START, end.vars)) &&
      (end.first == 0xFFFF_FFFF || CallsFirst(p, START, end.first)) &&
      (forall j: nat, wide: bool, v: int :: Visits(p, START, j, wide) && NamesVariable(p, j, wide, v) ==> v < end.vars) &&
      (forall j: nat, wide: bool, t: int :: Visits(p, START, j, wide) && Calls(p, j, t) ==> end.first <= t)
  {
    hide Visits, NamesVariable, Calls, ScanFrom;
    ScanIsExact(p, START);
  }

  lemma {:induction false} VisitedBelowFirst(p: Program, s: State, j: nat, wide: bool)
    requires Visits(p, s, j, wide)
    ensures s.i <= j && j + 2 <= s.first && j < |p.code|
    decreases |p.code| - s.i
  {
    hide Turn;
    if !(s.i == j && s.wide == wide) { VisitedBelowFirst(p, Turn(p, s).value, j, wide); }
  }

  /** Once the scan has looked at a call, it looks at nothing that starts in the called method or right before it. */
  lemma {:induction false} StopsBeforeCalled(
      p: Program, s: State, i: nat, wide: bool, t: int, j: nat, wide': bool)
    requires Visits(p, s, i, wide) && Calls(p, i, t) && Visits(p, s, j, wide') && i < j
    ensures j + 2 <= t
    decreases |p.code| - s.i
  {
    hide Turn, Calls;
    VisitedBelowFirst(p, s, i, wide);
    var s1 := Turn(p, s).value;
    if s.i == i && s.wide == wide {
      TurnReads(p, s);
      VisitedBelowFirst(p, s1, j, wide');
    } else {
      StopsBeforeCalled(p, s1, i, wide, t, j, wide');
    }
  }

  /** What the scan reads of the instruction at `j` is there: the index of a variable, the constant of a call. */
  predicate Readable(p: Program, j: nat, wide: bool) {
    j < |p.code| &&
    (p.code[j] in {0x15, 0x36, 0x84} ==> j + (if wide then 3 else 2) <= |p.code|) &&
    (p.code[j] == 0xB6 ==>
      j + 3 <= |p.code| && 0 <= SignedShort(p.code[j + 1], p.code[j + 2]) < |p.consts|)
  }

  lemma TurnLiveIff(p: Program, s: State)
    requires s.i < |p.code|
    ensures Turn(p, s).Live? <==> Readable(p, s.i, s.wide)
  {
  }

  /** The scan ends live exactly if all it looks at is readable. */
  lemma {:induction false} ScanLiveIff(p: Program, s: State)
    ensures ScanFrom(p, s).Live? <==> forall j: nat, wide: bool :: Visits(p, s, j, wide) ==> Readable(p, j, wide)
    decreases |p.code| - s.i
  {
    hide Visits, Turn, ScanFrom, Stops, Readable;
    if Stops(p, s) {
      ScanEnds(p, s);
      forall j: nat, wide: bool ensures !Visits(p, s, j, wide) { VisitsIff(p, s, j, wide); }
    } else {
      ScanTurns(p, s);
      NotPastEnd(p, s);
      TurnLiveIff(p, s);
      VisitsHere(p, s);
      if Turn(p, s).Live? {
        var s1 := Turn(p, s).value;
        ScanLiveIff(p, s1);
        forall j: nat, wide: bool
          ensures Visits(p, s, j, wide) <==> (s.i == j && s.wide == wide) || Visits(p, s1, j, wide)
        {
          VisitsIff(p, s, j, wide);
        }
      }
    }
  }
}
