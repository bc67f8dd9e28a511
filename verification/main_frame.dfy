/** Main's own accesses to its variables never fail, over whole disciplined runs. */
module MainFrame {
  import opened Words
  import opened Outcomes
  import opened Programs
  import opened Frames
  import opened Calls
  import opened Scan
  import opened Startup
  import M = Machine
  import H = Heaps
  import R = Refinement
  import Registers

  /** Where main stands: its pc, or the address at which the call it made will return. */
  function MainPc(a: FrameVm): int {
    if Depth(a.frames) <= 1 then a.pc else FrameAt(a.frames, 2).ret
  }

  /** Main has its `vars` variables and is over, or stands on something the scan has seen. */
  ghost predicate MainOnTrack(p: Program, a: FrameVm, vars: nat) {
    Depth(a.frames) >= 1 && |FrameAt(a.frames, 1).locals| == vars &&
    ((a.frames.Main? && Finished(p, a)) || (MainPc(a) >= 0 && Landing(p, MainPc(a))))
  }

  lemma TakenJump(p: Program, a: FrameVm, offset: int)
    requires Jump(p, a, offset).Live? && 0 <= a.pc <= |p.code| && -0x8000 <= offset < 0x8000
    ensures Jump(p, a, offset).value.pc == a.pc + offset >= 0
  {
  }

  /** Goto always jumps, and a jump never leaves pc negative. */
  lemma JumpPc(env: H.Env, p: Program, a: FrameVm, ins: Instr)
    requires Exec(env, p, a, ins).Live? && IsJump(ins) && 0 <= a.pc <= |p.code| && Registers.ShortOffset(ins)
    ensures var b := Exec(env, p, a, ins).value;
      (FallsThrough(ins) && b.pc == a.pc) || b.pc == a.pc + ins.offset >= 0
  {
    hide Wrap;
    forall fs: Chain | Jump(p, a.(frames := fs), ins.offset).Live?
      ensures Jump(p, a.(frames := fs), ins.offset).value.pc == a.pc + ins.offset >= 0
    {
      TakenJump(p, a.(frames := fs), ins.offset);
    }
  }

  /** Where an instruction that neither calls nor returns leaves pc and the flags. */
  lemma ExecPc(env: H.Env, p: Program, a: FrameVm, ins: Instr)
    requires Exec(env, p, a, ins).Live? && !ins.Invoke? && !ins.Ireturn?
    requires 0 <= a.pc <= |p.code| && Registers.ShortOffset(ins)
    ensures var b := Exec(env, p, a, ins).value;
      b.err || b.halt || (FallsThrough(ins) && b.pc == a.pc) || (IsJump(ins) && b.pc == a.pc + ins.offset >= 0)
    ensures ins.Halt? || ins.Err? ==> Exec(env, p, a, ins).value.err || Exec(env, p, a, ins).value.halt
  {
    hide Push, PopWord, GetLocal, SetLocal, Binary, CreateArray, LoadElement, StoreElement, CollectNow, ReadByte;
    hide Jump, JumpIf;
    if IsJump(ins) { JumpPc(env, p, a, ins); } else { ExecIsPlain(env, p, a, ins); }
  }

  /** The end instructions of main decode to themselves. */
  lemma EndsDecode(code: seq<Byte>, pc: nat)
    requires pc < |code| && (code[pc] == HALT || code[pc] == ERR)
    ensures Decode(code, pc, false) == Live((if code[pc] == HALT then Halt else Err, pc + 1))
  {
  }

  lemma MainStep(env: H.Env, p: Program, a: FrameVm, vars: nat)
    requires MainIsWellFormed(p) && MainOnTrack(p, a, vars) && !Finished(p, a)
    requires a.frames.Main? && Step(env, p, a).Live?
    ensures MainOnTrack(p, Step(env, p, a).value, vars)
  {
    hide Exec, Decode, ScanFrom, Visits, CallStep, ReturnStep;
    var b := Step(env, p, a).value;
    StepShape(env, p, a);
    var (ins, next) := Decode(p.code, a.pc, false).value;
    Registers.DecodeOffset(p.code, a.pc, false);
    if !Visits(p, START, a.pc, false) { EndsDecode(p.code, a.pc); }
    if ins.Invoke? {
      FallsOnTrack(p, a.pc, ins, next);
      MainCalls(p, a.frames, b.frames, next, ins.index);
    } else if ins.Ireturn? {
      ReturnNeedsCall(a.frames, b.frames);
    } else {
      if FallsThrough(ins) { FallsOnTrack(p, a.pc, ins, next); }
      ExecPc(env, p, a.(pc := next), ins);
    }
  }

  /** Falling through from a seen instruction lands on a seen one, because scan and run agree on its length. */
  lemma FallsOnTrack(p: Program, pc: nat, ins: Instr, next: nat)
    requires MainIsWellFormed(p) && Landing(p, pc) && pc < |p.code|
    requires Decode(p.code, pc, false) == Live((ins, next)) && FallsThrough(ins)
    ensures Landing(p, next)
  {
    hide Decode, ScanFrom, Visits;
    if !Visits(p, START, pc, false) {
      EndsDecode(p.code, pc);
    } else if !EndsAt(p, next) {
      VisitsNext(p, START, pc, ins, next);
    }
  }

  lemma MainCalls(p: Program, fs: Chain, gs: Chain, ret: int, index: int)
    requires fs.Main? && CallStep(p, fs, gs, ret, index)
    ensures Depth(gs) == 2 && FrameAt(gs, 2).ret == ret && FrameAt(gs, 1).locals == FrameAt(fs, 1).locals
  {
    hide Method;
    assert Depth(gs.callers) == 1 && Under(gs, 1) == gs.callers;
  }

  lemma ReturnNeedsCall(fs: Chain, gs: Chain)
    requires ReturnStep(fs, gs)
    ensures fs.Called?
  {
  }

  lemma MethodStep(env: H.Env, p: Program, a: FrameVm, vars: nat)
    requires MainOnTrack(p, a, vars) && !Finished(p, a) && a.frames.Called? && Step(env, p, a).Live?
    ensures MainOnTrack(p, Step(env, p, a).value, vars)
  {
    hide Exec, Decode, Landing, CallStep, ReturnStep, SameCalls, Method;
    var b := Step(env, p, a).value;
    StepShape(env, p, a);
    var (ins, next) := Decode(p.code, a.pc, false).value;
    var index := if ins.Invoke? then ins.index else 0;
    CalledIsDeep(a.frames);
    DepthPositive(b.frames);
    if Depth(b.frames) > 1 {
      StepKeepsUnder(a.frames, b.frames, p, next, index, 1);
    } else {
      ReturnLandsUnder(a.frames, b.frames, p, next, index, 1);
      ReturnKeepsLocals(a.frames, b.frames);
      StepReturnPc(env, p, a);
    }
  }

  lemma StepReturnPc(env: H.Env, p: Program, a: FrameVm)
    requires a.pc >= 0 && Step(env, p, a).Live? && ReturnStep(a.frames, Step(env, p, a).value.frames)
    ensures Step(env, p, a).value.pc == a.frames.top.ret
  {
    hide Exec, Decode, Method;
    StepShape(env, p, a);
  }

  lemma ReturnKeepsLocals(fs: Chain, gs: Chain)
    requires ReturnStep(fs, gs) && Depth(gs) == 1
    ensures Depth(fs) == 2 && FrameAt(gs, 1).locals == FrameAt(fs, 1).locals
  {
    DepthPositive(fs.callers);
    assert Depth(fs.callers) == 1 && Under(fs, 1) == fs.callers;
  }

  lemma CalledIsDeep(fs: Chain)
    requires fs.Called?
    ensures Depth(fs) >= 2
  {
    DepthPositive(fs.callers);
  }

  lemma DepthPositive(fs: Chain)
    ensures Depth(fs) >= 1
  {
  }

  lemma {:induction false} RunOnTrack(env: H.Env, p: Program, a: FrameVm, vars: nat, n: nat)
    requires MainIsWellFormed(p) && MainOnTrack(p, a, vars) && Run(env, p, a, n).Live?
    ensures MainOnTrack(p, Run(env, p, a, n).value, vars)
    decreases n
  {
    hide Step, MainOnTrack, MainIsWellFormed;
    if n > 0 && !Finished(p, a) {
      if a.frames.Main? { MainStep(env, p, a, vars); } else { MethodStep(env, p, a, vars); }
      RunOnTrack(env, p, Step(env, p, a).value, vars, n - 1);
    }
  }

  /**
   * The scan and the run agree. In every state that a disciplined run of a booted program reaches
   * with main on top, whether before any call or back from one, main's next variable access passes
   * the bound check of the flat machine.
   */
  lemma MainVariablesAreInBounds(env: H.Env, p: Program, input: seq<Byte>, n: nat, ins: Instr, next: nat)
    requires MainIsWellFormed(p) && Boot(env, p, input).Live?
    requires Run(env, p, BootFrames(p, ScanFrom(p, START).value.vars, input), n).Live?
    requires var a := Run(env, p, BootFrames(p, ScanFrom(p, START).value.vars, input), n).value;
      a.frames.Main? && !Finished(p, a) && Decode(p.code, a.pc, false) == Live((ins, next)) && IsVariable(ins)
    ensures M.Run(env, p, Boot(env, p, input).value, n).Live?
    ensures var m := M.Run(env, p, Boot(env, p, input).value, n).value;
      m.pc >= 0 && Decode(p.code, m.pc, false) == Live((ins, next)) &&
      0 <= ins.v < m.nv && M.GetLocal(m, ins.v).Live? && forall w :: M.SetLocal(m, w, ins.v).Live?
  {
    hide Step, Run, M.Run, Boot, Decode, ScanFrom, Visits;
    var vars := ScanFrom(p, START).value.vars;
    var a0 := BootFrames(p, vars, input);
    BootEncodes(env, p, input);
    StartLands(p);
    RunOnTrack(env, p, a0, vars, n);
    R.RunSim(env, p, Boot(env, p, input).value, a0, n);
    var a, m := Run(env, p, a0, n).value, M.Run(env, p, Boot(env, p, input).value, n).value;
    if !Visits(p, START, a.pc, false) { EndsDecode(p.code, a.pc); }
    VisitedVariableIsCounted(p, START, a.pc, ins, next);
    R.GetSim(p, m, a, ins.v);
    forall w ensures M.SetLocal(m, w, ins.v).Live? { R.SetSim(p, m, a, w, ins.v); }
  }
}
