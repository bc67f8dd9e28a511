/** The debugger's record stays in step with the machine's call stack. */
module Shadow {
  import opened Words
  import opened Outcomes
  import opened Programs
  import opened Frames
  import opened Calls
  import opened History
  import Scan
  import M = Machine
  import H = Heaps
  import R = Refinement

  /** The calls above main, oldest first: addresses, and arguments as they were passed. */
  function CallsAbove(fs: Chain): (calls: seq<Call>)
    ensures |calls| == Depth(fs) - 1
  {
    if fs.Main? then [] else CallsAbove(fs.callers) + [Call(fs.top.address, Unsigned(fs.top.args))]
  }

  ghost predicate ArgsFit(fs: Chain) {
    fs.Called? ==> |fs.top.args| <= |fs.top.locals| && |fs.top.args| < 0x8000 && ArgsFit(fs.callers)
  }

  lemma {:induction false} FitsPack(fs: Chain)
    requires ArgsFit(fs)
    ensures Packable(CallsAbove(fs)) && |Pack(CallsAbove(fs))| <= Size(fs)
  {
    if fs.Called? {
      FitsPack(fs.callers);
      var calls := CallsAbove(fs);
      assert calls[..|calls| - 1] == CallsAbove(fs.callers);
    }
  }

  lemma {:induction false} PackJoin(x: seq<Call>, y: seq<Call>)
    requires Packable(x) && Packable(y)
    ensures Packable(x + y) && Pack(x + y) == Pack(x) + Pack(y)
  {
    hide Pack, PackOne, Packable;
    if y == [] {
      assert x + y == x;
      PackNone(x);
    } else {
      var n := |y| - 1;
      Parts(y);
      PackJoin(x, y[..n]);
      PackLast(x + y[..n], y[n]);
      PackLast(y[..n], y[n]);
      assert x + y == x + y[..n] + [y[n]] && y == y[..n] + [y[n]];
    }
  }

  lemma PackNone(x: seq<Call>)
    requires Packable(x)
    ensures Packable([]) && Pack([]) == [] && Pack(x) + Pack([]) == Pack(x)
  {
  }

  lemma Parts(y: seq<Call>)
    requires Packable(y) && y != []
    ensures Packable(y[..|y| - 1]) && |y[|y| - 1].args| < TWO32
  {
  }

  lemma PackLast(calls: seq<Call>, c: Call)
    requires Packable(calls) && |c.args| < TWO32
    ensures Packable(calls + [c]) && Pack(calls + [c]) == Pack(calls) + PackOne(c)
  {
    assert (calls + [c])[..|calls|] == calls;
  }

  /** No prefix hides a call or a return at `a`, and a called method takes fewer than 32768 arguments. */
  ghost predicate PlainCalls(p: Program, a: FrameVm)
    requires a.pc >= 0
  {
    var d := Decode(p.code, a.pc, false);
    d.Live? && (d.value.0.Invoke? || d.value.0.Ireturn?) ==>
      p.code[a.pc] != WIDE &&
      (d.value.0.Invoke? && Method(p, d.value.0.index).Live? ==> Method(p, d.value.0.index).value.1 < 0x8000)
  }

  /** The record holds `base` and above it the calls of `fs`, in a buffer that fits it. */
  ghost predicate Holds(h: Record, base: seq<Call>, fs: Chain) {
    Packable(base) && |Pack(base)| <= M.MAX_STACK && ArgsFit(fs) && Packable(base + CallsAbove(fs)) &&
    h.words == Pack(base + CallsAbove(fs)) && |h.words| <= h.size == h.capacity
  }

  lemma HoldsIsSmall(h: Record, base: seq<Call>, fs: Chain)
    requires Holds(h, base, fs)
    ensures |h.words| <= M.MAX_STACK + Size(fs)
  {
    FitsPack(fs);
    PackJoin(base, CallsAbove(fs));
  }

  lemma SameCallsFit(fs: Chain, gs: Chain)
    requires SameCalls(fs, gs)
    ensures CallsAbove(gs) == CallsAbove(fs) && ArgsFit(gs) == ArgsFit(fs)
  {
  }

  lemma SameCallsHold(h: Record, base: seq<Call>, fs: Chain, gs: Chain)
    requires Holds(h, base, fs) && SameCalls(fs, gs)
    ensures Holds(h, base, gs)
  {
    SameCallsFit(fs, gs);
  }

  /** The topmost operands, read off the flat stack, are the arguments in reverse. */
  lemma TopWordsAreArgs(p: Program, m: M.Vm, a: FrameVm, n: nat)
    requires R.Encodes(p, m, a) && n <= |a.frames.top.operands|
    ensures n <= m.sp + 1 <= |m.stack|
    ensures TopWords(m.stack, m.sp, n) == Reversed(Unsigned(a.frames.top.operands[|a.frames.top.operands| - n..]))
  {
    hide R.Flat, Reversed, Unsigned, R.ReturnsIntoCode, R.Fp, R.Lv, Size;
    var ops := a.frames.top.operands;
    R.FlatPassed(a.frames, n);
    LastWords(m.stack, m.sp + 1, R.Flat(a.frames.(top := a.frames.top.(operands := ops[..|ops| - n]))), ops[|ops| - n..]);
  }

  lemma LastWords(stack: seq<Word>, top: nat, low: seq<Word>, high: seq<Word>)
    requires top <= |stack| && stack[..top] == low + high
    ensures |high| <= top && stack[top - |high|..top] == high
  {
    assert stack[top - |high|..top] == stack[..top][top - |high|..];
  }

  lemma CallFits(p: Program, fs: Chain, gs: Chain, ret: int, index: int)
    requires CallStep(p, fs, gs, ret, index) && ArgsFit(fs) && Method(p, index).value.1 < 0x8000
    ensures ArgsFit(gs) && Method(p, index).value.0 == gs.top.address && Method(p, index).value.1 == |gs.top.args|
    ensures CallsAbove(gs) == CallsAbove(fs) + [Call(gs.top.address, Unsigned(gs.top.args))]
    ensures gs.top.args == fs.top.operands[|fs.top.operands| - |gs.top.args|..]
  {
    hide Method;
    assert CallsAbove(gs.callers) == CallsAbove(fs) && ArgsFit(gs.callers);
  }

  ghost predicate Grants(alloc: nat -> bool) {
    forall size :: alloc(size)
  }

  lemma SaveHolds(alloc: nat -> bool, m: M.Vm, h: Record, base: seq<Call>, fs: Chain, gs: Chain)
    requires Holds(h, base, fs) && !h.quit && ArgsFit(gs) && gs.Called? && Size(fs) <= M.MAX_STACK
    requires CallsAbove(gs) == CallsAbove(fs) + [Call(gs.top.address, Unsigned(gs.top.args))]
    requires |gs.top.args| <= m.sp + 1 <= |m.stack|
    requires TopWords(m.stack, m.sp, |gs.top.args|) == Reversed(Unsigned(gs.top.args))
    ensures var r := Save(alloc, m.stack, m.sp, h, gs.top.address, |gs.top.args|);
      r.Live? && ((r.value.quit && !Grants(alloc)) || (!r.value.quit && Holds(r.value, base, gs)))
  {
    hide Reversed, TopWords, ArgsFit, Pack, CallsAbove, Size;
    var c := Call(gs.top.address, Unsigned(gs.top.args));
    ArgsFitTop(gs);
    HoldsIsSmall(h, base, fs);
    PackLast(base + CallsAbove(fs), c);
    assert base + CallsAbove(gs) == base + CallsAbove(fs) + [c];
    assert h.words + TopWords(m.stack, m.sp, |c.args|) + [|c.args|, c.address] == h.words + PackOne(c);
  }

  lemma ArgsFitTop(fs: Chain)
    requires ArgsFit(fs) && fs.Called?
    ensures |fs.top.args| < 0x8000
  {
  }

  lemma RemoveHolds(h: Record, base: seq<Call>, fs: Chain, gs: Chain)
    requires Holds(h, base, fs) && ReturnStep(fs, gs)
    ensures RemoveCall(h).Live? && RemoveCall(h).value.quit == h.quit
    ensures Holds(RemoveCall(h).value, base, gs)
  {
    hide Reversed, Pack;
    var c := Call(fs.top.address, Unsigned(fs.top.args));
    var older := base + CallsAbove(fs.callers);
    assert base + CallsAbove(fs) == older + [c];
    assert Packable(older) by {
      forall i | 0 <= i < |older| ensures |older[i].args| < TWO32 {
        assert older[i] == (base + CallsAbove(fs))[i];
      }
    }
    PackLast(older, c);
    assert h.words == Pack(older) + PackOne(c);
    assert h.words[|h.words| - 2] == |c.args|;
    assert h.words[..|Pack(older)|] == Pack(older);
    SameCallsFit(fs.callers, gs);
  }

  /** On an unprefixed call the debugger reads the same address and argument count as the call itself. */
  lemma SameMethod(alloc: nat -> bool, p: Program, m: M.Vm, h: Record, index: int, next: nat)
    requires 0 <= m.pc < |p.code| && p.code[m.pc] != WIDE
    requires Decode(p.code, m.pc, false) == Live((Invoke(index), next))
    requires Method(p, index).Live? && Method(p, index).value.1 < 0x8000
    ensures Track(alloc, p, m, h) == Save(alloc, m.stack, m.sp, h, Method(p, index).value.0, Method(p, index).value.1)
  {
    hide Save;
  }

  lemma OpcodeOf(p: Program, pc: nat, ins: Instr, next: nat)
    requires pc < |p.code| && Decode(p.code, pc, false) == Live((ins, next))
    ensures p.code[pc] == INVOKEVIRTUAL ==> ins.Invoke?
    ensures p.code[pc] == IRETURN ==> ins.Ireturn?
    ensures ins.Ireturn? && p.code[pc] != WIDE ==> p.code[pc] == IRETURN
  {
  }

  lemma TrackStep(env: H.Env, alloc: nat -> bool, p: Program, m: M.Vm, a: FrameVm, h: Record, base: seq<Call>)
    requires R.Encodes(p, m, a) && !Finished(p, a) && Step(env, p, a).Live? && PlainCalls(p, a)
    requires !h.quit && Holds(h, base, a.frames)
    ensures m.pc >= 0 && Track(alloc, p, m, h).Live?
    ensures var h1 := Track(alloc, p, m, h).value;
      (h1.quit && !Grants(alloc)) || (!h1.quit && Holds(h1, base, Step(env, p, a).value.frames))
  {
    hide Exec, Step, Decode, Holds, Save, RemoveCall, CallStep, ReturnStep, SameCalls, ArgsFit, CallsAbove, Method;
    hide R.ReturnsIntoCode, R.Flat, Scan.CodeShort, Size;
    var b := Step(env, p, a).value;
    StepShape(env, p, a);
    var (ins, next) := Decode(p.code, a.pc, false).value;
    OpcodeOf(p, a.pc, ins, next);
    match ins
    case Invoke(index) =>
      CallHasMethod(p, a.frames, b.frames, next, index);
      SaveSim(alloc, p, m, a, h, base, b.frames, next, index);
      SameMethod(alloc, p, m, h, index, next);
    case Ireturn => RemoveHolds(h, base, a.frames, b.frames);
    case _ => SameCallsHold(h, base, a.frames, b.frames);
  }

  lemma CallHasMethod(p: Program, fs: Chain, gs: Chain, ret: int, index: int)
    requires CallStep(p, fs, gs, ret, index)
    ensures Method(p, index).Live?
  {
  }

  lemma SaveSim(alloc: nat -> bool, p: Program, m: M.Vm, a: FrameVm, h: Record, base: seq<Call>,
                gs: Chain, ret: int, index: int)
    requires R.Encodes(p, m, a) && !h.quit && Holds(h, base, a.frames)
    requires CallStep(p, a.frames, gs, ret, index) && Method(p, index).value.1 < 0x8000
    ensures Method(p, index).Live?
    ensures var r := Save(alloc, m.stack, m.sp, h, Method(p, index).value.0, Method(p, index).value.1);
      r.Live? && ((r.value.quit && !Grants(alloc)) || (!r.value.quit && Holds(r.value, base, gs)))
  {
    hide Save, Method, TopWords, Unsigned, Reversed, R.Flat, R.ReturnsIntoCode;
    CallFits(p, a.frames, gs, ret, index);
    TopWordsAreArgs(p, m, a, |gs.top.args|);
    SaveHolds(alloc, m, h, base, a.frames, gs);
  }

  /**
   * At most `n` turns of `dbg_run`: `dbg_step` until the program finishes, and past that for as long as
   * the quit flag is set; a breakpoint only pauses it.
   */
  ghost function DbgRun(env: H.Env, alloc: nat -> bool, p: Program, m: M.Vm, h: Record, n: nat): Outcome<(M.Vm, Record)>
    decreases n
  {
    if n == 0 || (M.Finished(p, m) && !h.quit) then Live((m, h))
    else if m.pc < 0 then WildCode
    else
      var h1 :- Track(alloc, p, m, h);
      var m1 :- M.Step(env, p, m);
      DbgRun(env, alloc, p, m1, h1, n - 1)
  }

  /** All the calls and returns of the next `n` steps are plain ones. */
  ghost predicate PlainRun(env: H.Env, p: Program, a: FrameVm, n: nat)
    decreases n
  {
    n > 0 && !Finished(p, a) ==>
      PlainCalls(p, a) && (Step(env, p, a).Live? ==> PlainRun(env, p, Step(env, p, a).value, n - 1))
  }

  /** A set quit flag stays, and keeps the loop going: past the end of code it reads beyond it. */
  lemma {:induction false} QuitStays(env: H.Env, alloc: nat -> bool, p: Program, m: M.Vm, h: Record, n: nat)
    requires h.quit
    ensures var r := DbgRun(env, alloc, p, m, h, n);
      (r.Live? ==> r.value.1.quit) && (n > 0 && m.pc >= |p.code| ==> r == WildCode)
    decreases n
  {
    hide M.Step, TopWords;
    if n > 0 && m.pc >= 0 && Track(alloc, p, m, h).Live? && M.Step(env, p, m).Live? {
      QuitStays(env, alloc, p, M.Step(env, p, m).value, Track(alloc, p, m, h).value, n - 1);
    }
  }

  /**
   * Over every disciplined run the debugger's record holds exactly the calls of the frame list, on
   * top of whatever it held when main started; it fails to only if its buffer could not be grown,
   * and then the quit flag says so. While growth is granted, tracking never ends a run.
   */
  lemma {:induction false} RecordShadowsFrames(
      env: H.Env, alloc: nat -> bool, p: Program, m: M.Vm, a: FrameVm, h: Record, base: seq<Call>, n: nat)
    requires R.Encodes(p, m, a) && Run(env, p, a, n).Live? && PlainRun(env, p, a, n)
    requires !h.quit && Holds(h, base, a.frames)
    ensures var r := DbgRun(env, alloc, p, m, h, n);
      (Grants(alloc) ==> r.Live? && !r.value.1.quit) &&
      (r.Live? && !r.value.1.quit ==>
        R.Encodes(p, r.value.0, Run(env, p, a, n).value) && Holds(r.value.1, base, Run(env, p, a, n).value.frames))
    decreases n
  {
    hide M.Step, Step, Track, Holds, R.Encodes, Grants, PlainCalls;
    R.MovePc(p, m, a, 0);
    if n > 0 && !Finished(p, a) {
      var a1 := Step(env, p, a).value;
      TrackStep(env, alloc, p, m, a, h, base);
      R.StepSim(env, p, m, a);
      var h1, m1 := Track(alloc, p, m, h).value, M.Step(env, p, m).value;
      if h1.quit {
        QuitStays(env, alloc, p, m1, h1, n - 1);
      } else {
        RecordShadowsFrames(env, alloc, p, m1, a1, h1, base, n - 1);
      }
    }
  }

  /** Tracking ends a run that would go on only after a growth was refused, some steps earlier. */
  lemma {:induction false} TrackingEndsAfterRefusal(
      env: H.Env, alloc: nat -> bool, p: Program, m: M.Vm, a: FrameVm, h: Record, base: seq<Call>, n: nat)
      returns (k: nat)
    requires R.Encodes(p, m, a) && Run(env, p, a, n).Live? && PlainRun(env, p, a, n)
    requires !h.quit && Holds(h, base, a.frames) && !DbgRun(env, alloc, p, m, h, n).Live?
    ensures k < n && DbgRun(env, alloc, p, m, h, k).Live? && DbgRun(env, alloc, p, m, h, k).value.1.quit
    decreases n
  {
    hide M.Step, Step, Track, Holds, R.Encodes, Grants, PlainCalls;
    R.MovePc(p, m, a, 0);
    var a1 := Step(env, p, a).value;
    TrackStep(env, alloc, p, m, a, h, base);
    R.StepSim(env, p, m, a);
    var h1, m1 := Track(alloc, p, m, h).value, M.Step(env, p, m).value;
    k := 0;
    if !h1.quit {
      k := TrackingEndsAfterRefusal(env, alloc, p, m1, a1, h1, base, n - 1);
    }
    k := k + 1;
  }

  /**
   * After a fresh load the printed backtrace is the frame list, newest first, down to main. The
   * base matters: a restart keeps the old record, and then the old calls show below main's.
   */
  lemma FreshBacktraceIsFrameList(
      env: H.Env, alloc: nat -> bool, p: Program, m: M.Vm, a: FrameVm, n: nat)
    requires R.Encodes(p, m, a) && a.frames.Main? && Run(env, p, a, n).Live? && PlainRun(env, p, a, n)
    requires DbgRun(env, alloc, p, m, FRESH, n).Live? && !DbgRun(env, alloc, p, m, FRESH, n).value.1.quit
    ensures Walk(DbgRun(env, alloc, p, m, FRESH, n).value.1.words)
      == Live(Reversed([Call(0, [])] + CallsAbove(Run(env, p, a, n).value.frames)))
  {
    hide DbgRun, Run, PlainRun, Walk, Reversed;
    var base := [Call(0, [])];
    FreshHolds(a.frames);
    RecordShadowsFrames(env, alloc, p, m, a, FRESH, base, n);
    WalkUnpacks(base + CallsAbove(Run(env, p, a, n).value.frames));
  }

  lemma FreshHolds(fs: Chain)
    requires fs.Main?
    ensures Holds(FRESH, [Call(0, [])], fs)
  {
    var base := [Call(0, [])];
    assert base + CallsAbove(fs) == base && base[..0] == [];
    assert Pack(base) == Pack([]) + PackOne(Call(0, []));
  }
}
