/** The flat stack encodes the frame list, over whole disciplined runs. */
module Refinement {
  import opened Words
  import opened References
  import opened Outcomes
  import opened Programs
  import M = Machine
  import F = Frames
  import H = Heaps
  import R = Registers

  type Chain = F.Chain

  function Lv(fs: Chain): nat {
    if fs.Main? then 0 else F.Size(fs.callers)
  }

  function Nv(fs: Chain): nat {
    |fs.top.locals|
  }

  function Fp(fs: Chain): nat {
    Lv(fs) + Nv(fs)
  }

  /** The four words that link a frame to its caller. */
  function Link(caller: Chain, ret: int): (w: seq<Word>)
    ensures |w| == 4
  {
    [Wrap(Lv(caller)), Wrap(Nv(caller)), Wrap(Fp(caller)), Wrap(ret)]
  }

  /** The flat stack contents, bottom to top. */
  function Flat(fs: Chain): (s: seq<Word>)
    ensures |s| == F.Size(fs)
  {
    if fs.Main? then fs.top.locals + fs.top.operands
    else Flat(fs.callers) + fs.top.locals + Link(fs.callers, fs.top.ret) + fs.top.operands
  }

  ghost predicate ReturnsIntoCode(p: Program, fs: Chain) {
    fs.Called? ==> 0 <= fs.top.ret <= |p.code| && ReturnsIntoCode(p, fs.callers)
  }

  /** The flat machine `m` holds exactly the frames of `a`. */
  ghost predicate Encodes(p: Program, m: M.Vm, a: F.FrameVm) {
    m.sp + 1 == F.Size(a.frames) <= |m.stack| == a.cap <= M.MAX_STACK && 0 < a.cap &&
    m.stack[..m.sp + 1] == Flat(a.frames) &&
    m.lv == Lv(a.frames) && m.nv == Nv(a.frames) && m.fp == Fp(a.frames) &&
    m.pc == a.pc && m.err == a.err && m.halt == a.halt && m.heap == a.heap &&
    m.input == a.input && m.output == a.output && ReturnsIntoCode(p, a.frames)
  }

  /** The flat outcome is the frame machine's, as long as that one is disciplined. */
  ghost predicate Agrees(p: Program, r: Outcome<M.Vm>, s: Outcome<F.FrameVm>) {
    match s
    case Live(a) => r.Live? && Encodes(p, r.value, a)
    case Undisciplined => true
    case _ => r == s.PropagateFailure<M.Vm>()
  }

  lemma {:induction false} GrowIsGrowCap(env: H.Env, stack: seq<Word>, top: int)
    ensures match M.Grow(env, stack, top)
      case Live(s) => F.GrowCap(env, |stack|, top) == Live(|s|)
      case _ => F.GrowCap(env, |stack|, top) == Destroyed
    decreases top - |stack|
  {
    if top >= |stack| > 0 {
      GrowIsGrowCap(env, M.Grown(env, stack), top);
    }
  }

  /** Growing for one index and then for a higher one is growing for the higher one. */
  lemma {:induction false} GrowCapTwice(env: H.Env, cap: nat, low: int, high: int)
    requires low <= high
    ensures match F.GrowCap(env, cap, low)
      case Live(c) => F.GrowCap(env, c, high) == F.GrowCap(env, cap, high)
      case _ => F.GrowCap(env, cap, high) == Destroyed
    decreases low - cap
  {
    if low >= cap > 0 { GrowCapTwice(env, 8 * cap, low, high); }
  }

  lemma PushSim(env: H.Env, p: Program, m: M.Vm, a: F.FrameVm, w: Word)
    requires Encodes(p, m, a)
    ensures Agrees(p, M.Push(env, m, w), F.Push(env, a, w))
  {
    hide M.Grow, F.GrowCap, M.Push;
    OnePush(env, m, w, m.sp + 1);
    if M.Push(env, m, w).Live? {
      var m1, a1 := M.Push(env, m, w).value, F.Push(env, a, w).value;
      assert m1.stack[..m1.sp + 1] == m.stack[..m.sp + 1] + [w];
      assert Flat(a1.frames) == Flat(a.frames) + [w];
    }
  }

  lemma PopSim(p: Program, m: M.Vm, a: F.FrameVm)
    requires Encodes(p, m, a) && F.PopWord(a).Live?
    ensures M.PopWord(m).Live? && M.PopWord(m).value.1 == F.PopWord(a).value.1
    ensures Encodes(p, M.PopWord(m).value.0, F.PopWord(a).value.0)
  {
    var (a1, w) := F.PopWord(a).value;
    assert Flat(a.frames) == Flat(a1.frames) + [w];
    assert m.stack[..m.sp] == m.stack[..m.sp + 1][..m.sp];
    assert m.stack[m.sp] == m.stack[..m.sp + 1][m.sp];
  }

  lemma LocalAt(p: Program, m: M.Vm, a: F.FrameVm, i: nat)
    requires Encodes(p, m, a) && i < Nv(a.frames)
    ensures m.lv + i <= m.sp && m.stack[m.lv + i] == a.frames.top.locals[i]
  {
    assert m.stack[m.lv + i] == m.stack[..m.sp + 1][m.lv + i] == Flat(a.frames)[m.lv + i];
  }

  lemma GetSim(p: Program, m: M.Vm, a: F.FrameVm, i: int)
    requires Encodes(p, m, a)
    ensures M.GetLocal(m, i) == F.GetLocal(a, i)
  {
    if 0 <= i < Nv(a.frames) { LocalAt(p, m, a, i); }
  }

  lemma FlatSet(fs: Chain, w: Word, i: nat)
    requires i < Nv(fs)
    ensures Lv(fs) + i < F.Size(fs)
    ensures Flat(fs.(top := fs.top.(locals := fs.top.locals[i := w]))) == Flat(fs)[Lv(fs) + i := w]
  {
    var f := fs.top;
    if fs.Called? {
      var low, high := Flat(fs.callers), Link(fs.callers, f.ret) + f.operands;
      assert Flat(fs) == low + f.locals + high;
      assert (low + f.locals + high)[|low| + i := w] == low + f.locals[i := w] + high;
    }
  }

  /** A store to a local changes that local's word alone; it lies below fp, so linkage is out of reach. */
  lemma SetSim(p: Program, m: M.Vm, a: F.FrameVm, w: Word, i: int)
    requires Encodes(p, m, a)
    ensures Agrees(p, M.SetLocal(m, w, i), F.SetLocal(a, w, i))
    ensures F.SetLocal(a, w, i).Live? ==> m.lv + i < m.fp
  {
    if 0 <= i < Nv(a.frames) {
      LocalAt(p, m, a, i);
      var a1 := F.SetLocal(a, w, i).value;
      FlatSet(a.frames, w, i);
      assert m.stack[m.lv + i := w][..m.sp + 1] == m.stack[..m.sp + 1][m.lv + i := w];
    }
  }

  function PushAll(env: H.Env, m: M.Vm, ws: seq<Word>): Outcome<M.Vm>
    decreases |ws|
  {
    if ws == [] then Live(m)
    else
      var m1 :- M.Push(env, m, ws[0]);
      PushAll(env, m1, ws[1..])
  }

  /** Pushes from above the allocated top on: old words below `base` stay, the pushed words follow. */
  ghost predicate Pushed(env: H.Env, m: M.Vm, ws: seq<Word>, base: nat, r: Outcome<M.Vm>)
    requires base <= m.sp + 1 && base <= |m.stack|
  {
    var top := m.sp + |ws|;
    var cap := F.GrowCap(env, |m.stack|, top);
    if cap.Live? then
      r.Live? && |r.value.stack| == cap.value <= M.MAX_STACK && r.value.sp == top < cap.value &&
      r.value.stack[..base] == m.stack[..base] && r.value.stack[m.sp + 1..top + 1] == ws &&
      r.value == m.(stack := r.value.stack, sp := top)
    else r == Destroyed
  }

  lemma {:induction false} PushAllEffect(env: H.Env, m: M.Vm, ws: seq<Word>, base: nat)
    requires ws != [] && -1 <= m.sp && base <= m.sp + 1 && base <= |m.stack| <= M.MAX_STACK
    ensures Pushed(env, m, ws, base, PushAll(env, m, ws))
    decreases |ws|
  {
    hide M.Grow, F.GrowCap, M.Push;
    OnePush(env, m, ws[0], base);
    var r := M.Push(env, m, ws[0]);
    if |ws| == 1 {
      assert ws == [ws[0]] && ws[1..] == [];
      assert PushAll(env, m, ws) == r;
      assert r.Live? ==> r.value.stack[m.sp + 1..m.sp + 2] == ws;
    } else if r.Live? {
      PushAllEffect(env, r.value, ws[1..], m.sp + 2);
      PushedMore(env, m, ws, base, r.value, PushAll(env, r.value, ws[1..]));
    } else {
      GrowCapTwice(env, |m.stack|, m.sp + 1, m.sp + |ws|);
    }
  }

  lemma PushedMore(env: H.Env, m: M.Vm, ws: seq<Word>, base: nat, m1: M.Vm, r: Outcome<M.Vm>)
    requires |ws| > 1 && base <= m.sp + 1 && base <= |m.stack|
    requires F.GrowCap(env, |m.stack|, m.sp + 1) == Live(|m1.stack|) && m1.sp == m.sp + 1 < |m1.stack|
    requires m1.stack[m1.sp] == ws[0] && m1.stack[..base] == m.stack[..base]
    requires m1 == m.(stack := m1.stack, sp := m1.sp)
    requires Pushed(env, m1, ws[1..], m.sp + 2, r)
    ensures Pushed(env, m, ws, base, r)
  {
    hide F.GrowCap;
    GrowCapTwice(env, |m.stack|, m.sp + 1, m.sp + |ws|);
    if r.Live? { Stitch(r.value.stack, m1.stack, base, m.sp + 1, ws); }
  }

  /** `after` keeps `before` up to index `k`, where the first of the words `ws` sits, and the rest follow. */
  lemma Stitch(after: seq<Word>, before: seq<Word>, base: nat, k: nat, ws: seq<Word>)
    requires ws != [] && base <= k < |before| && k + |ws| <= |after|
    requires after[..k + 1] == before[..k + 1] && before[k] == ws[0]
    requires after[k + 1..k + |ws|] == ws[1..]
    ensures after[..base] == before[..base]
    ensures after[k..k + |ws|] == ws
  {
    assert after[..base] == after[..k + 1][..base];
    assert before[..base] == before[..k + 1][..base];
    assert after[k] == after[..k + 1][k] == before[..k + 1][k];
    assert after[k..k + |ws|] == [after[k]] + after[k + 1..k + |ws|];
  }

  lemma OnePush(env: H.Env, m: M.Vm, w: Word, base: nat)
    requires -1 <= m.sp && base <= m.sp + 1 && base <= |m.stack| <= M.MAX_STACK
    ensures var r := M.Push(env, m, w);
      if r.Live? then
        var m1 := r.value;
        F.GrowCap(env, |m.stack|, m.sp + 1) == Live(|m1.stack|) && m1.sp == m.sp + 1 < |m1.stack| <= M.MAX_STACK &&
        m1.stack[m1.sp] == w && m1.stack[..base] == m.stack[..base] && m1 == m.(stack := m1.stack, sp := m1.sp)
      else r == Destroyed && F.GrowCap(env, |m.stack|, m.sp + 1) == Destroyed
  {
    hide M.Grow, F.GrowCap;
    GrowIsGrowCap(env, m.stack, m.sp + 1);
    if M.Push(env, m, w).Live? { R.PushRange(env, m, w); }
  }

  function PushLinks(env: H.Env, m: M.Vm, w: seq<Word>): Outcome<M.Vm>
    requires |w| == 4
  {
    var m1 :- M.Push(env, m, w[0]);
    var m2 :- M.Push(env, m1, w[1]);
    var m3 :- M.Push(env, m2, w[2]);
    M.Push(env, m3, w[3])
  }

  lemma PushLinksIsPushAll(env: H.Env, m: M.Vm, w: seq<Word>)
    requires |w| == 4
    ensures PushLinks(env, m, w) == PushAll(env, m, w)
  {
    hide M.Push;
    assert w[1..][1..] == w[2..] && w[2..][1..] == w[3..] && w[3..][1..] == [];
    var r1 := M.Push(env, m, w[0]);
    if r1.Live? {
      var r2 := M.Push(env, r1.value, w[1]);
      assert PushAll(env, r1.value, w[1..]) ==
        if r2.Live? then PushAll(env, r2.value, w[2..]) else r2.PropagateFailure();
      if r2.Live? {
        var r3 := M.Push(env, r2.value, w[2]);
        assert PushAll(env, r2.value, w[2..]) ==
          if r3.Live? then PushAll(env, r3.value, w[3..]) else r3.PropagateFailure();
        if r3.Live? {
          var r4 := M.Push(env, r3.value, w[3]);
          assert PushAll(env, r3.value, w[3..]) ==
            if r4.Live? then PushAll(env, r4.value, []) else r4.PropagateFailure();
        }
      }
    }
  }

  lemma FlatPassed(fs: Chain, n: nat)
    requires n <= |fs.top.operands|
    ensures var ops := fs.top.operands;
      var caller := fs.(top := fs.top.(operands := ops[..|ops| - n]));
      Flat(fs) == Flat(caller) + ops[|ops| - n..] && Lv(caller) == Lv(fs) && Nv(caller) == Nv(fs)
  {
    var ops := fs.top.operands;
    assert ops == ops[..|ops| - n] + ops[|ops| - n..];
  }

  lemma ZeroedFlat(stack: seq<Word>, flat: seq<Word>, n: nat, link: seq<Word>)
    requires |flat| + n + |link| <= |stack|
    requires stack[..|flat|] == flat && stack[|flat| + n..|flat| + n + |link|] == link
    ensures M.Zeroed(stack, |flat|, n)[..|flat| + n + |link|] == flat + seq(n, _ => 0) + link
  {
    var z := M.Zeroed(stack, |flat|, n);
    assert z[..|flat|] == stack[..|flat|];
    assert z[|flat|..|flat| + n] == seq(n, _ => 0);
    assert z[|flat| + n..|flat| + n + |link|] == link by {
      forall i | 0 <= i < |link| ensures z[|flat| + n + i] == link[i] {
        assert stack[|flat| + n..|flat| + n + |link|][i] == link[i];
      }
    }
  }

  /** The state an invocation reaches: the old words, zeroed locals, and the link to the caller. */
  lemma InvokeEffect(env: H.Env, p: Program, m: M.Vm, index: int, flat: seq<Word>, link: seq<Word>)
    requires Method(p, index).Live? && link == [Wrap(m.lv), Wrap(m.nv), Wrap(m.fp), Wrap(m.pc)]
    requires -1 <= m.sp < |m.stack| <= M.MAX_STACK && m.stack[..m.sp + 1] == flat
    requires Method(p, index).value.1 <= |flat|
    ensures var (address, args, locals) := Method(p, index).value;
      var r := M.InvokeMethod(env, p, m, index);
      var cap := F.GrowCap(env, |m.stack|, |flat| + locals + 3);
      if cap.Live? then
        r.Live? && |r.value.stack| == cap.value <= M.MAX_STACK &&
        r.value.stack[..|flat| + locals + 4] == flat + seq(locals, _ => 0) + link &&
        r.value == m.(pc := address + 4, sp := |flat| + locals + 3, fp := |flat| + locals, nv := args + locals,
                      lv := |flat| - args, stack := r.value.stack)
      else r == Destroyed
  {
    hide F.GrowCap, Method, M.InvokeMethod, M.Zeroed, M.Push, PushLinks, Wrap;
    var (address, args, locals) := Method(p, index).value;
    var m0 := m.(pc := address + 4, sp := m.sp + locals);
    LinksEffect(env, m0, flat, locals, link);
    InvokeUnfolds(env, p, m, index, link);
    var r := PushLinks(env, m0, link);
    if r.Live? {
      ZeroedFlat(r.value.stack, flat, locals, link);
      assert r.value == m0.(stack := r.value.stack, sp := |flat| + locals + 3);
      assert r.value.sp - 3 - (args + locals) + args == |flat|;
    }
  }

  lemma LinksEffect(env: H.Env, m: M.Vm, flat: seq<Word>, gap: nat, link: seq<Word>)
    requires |link| == 4 && m.sp + 1 == |flat| + gap && |flat| <= |m.stack| <= M.MAX_STACK
    requires m.stack[..|flat|] == flat
    ensures var r := PushLinks(env, m, link);
      var cap := F.GrowCap(env, |m.stack|, |flat| + gap + 3);
      if cap.Live? then
        r.Live? && |r.value.stack| == cap.value <= M.MAX_STACK && |flat| + gap + 3 < cap.value &&
        r.value.stack[..|flat|] == flat && r.value.stack[|flat| + gap..|flat| + gap + 4] == link &&
        r.value == m.(stack := r.value.stack, sp := |flat| + gap + 3)
      else r == Destroyed
  {
    hide F.GrowCap, M.Push, PushAll, PushLinks;
    PushLinksIsPushAll(env, m, link);
    PushAllEffect(env, m, link, |flat|);
  }

  /** A call turns the top `args` operands into locals: the flat words below stay where they are. */
  lemma CallChain(p: Program, fs: Chain, ret: nat, address: U32, args: nat, locals: nat) returns (fs': Chain)
    requires args <= |fs.top.operands| && ReturnsIntoCode(p, fs) && ret <= |p.code|
    ensures var ops := fs.top.operands;
      var passed := ops[|ops| - args..];
      fs' == F.Called(fs.(top := fs.top.(operands := ops[..|ops| - args])),
        F.Frame(passed + seq(locals, _ => 0), [], ret, address, passed))
    ensures Flat(fs') == Flat(fs) + seq(locals, _ => 0) + Link(fs, ret)
    ensures F.Size(fs') == F.Size(fs) + locals + 4 && Lv(fs') == F.Size(fs) - args && Nv(fs') == args + locals
    ensures ReturnsIntoCode(p, fs')
  {
    hide Flat;
    var ops := fs.top.operands;
    var passed := ops[|ops| - args..];
    var caller := fs.(top := fs.top.(operands := ops[..|ops| - args]));
    var callee := F.Frame(passed + seq(locals, _ => 0), [], ret, address, passed);
    fs' := F.Called(caller, callee);
    FlatPassed(fs, args);
    FlatCalled(caller, callee);
    CallerKeepsReturns(p, fs, caller.top);
    assert F.Size(caller) == |Flat(caller)| == F.Size(fs) - args;
  }

  lemma InvokeSim(env: H.Env, p: Program, m: M.Vm, a: F.FrameVm, index: int)
    requires Encodes(p, m, a) && 0 <= a.pc <= |p.code|
    ensures Agrees(p, M.InvokeMethod(env, p, m, index), F.InvokeMethod(env, p, a, index))
  {
    hide F.GrowCap, F.Size, M.InvokeMethod, Method, Flat, ReturnsIntoCode, Lv, Nv, Link, Wrap;
    var s := F.InvokeMethod(env, p, a, index);
    if Method(p, index).Live? && !s.Undisciplined? {
      var (address, args, locals) := Method(p, index).value;
      LinkOf(a.frames, a.pc);
      FitsOperands(a.frames);
      InvokeEffect(env, p, m, index, Flat(a.frames), Link(a.frames, a.pc));
      var fs' := CallChain(p, a.frames, a.pc, address, args, locals);
    } else {
      InvokeNoMethod(env, p, m, index);
    }
  }

  lemma LinkOf(fs: Chain, ret: int)
    ensures Link(fs, ret) == [Wrap(Lv(fs)), Wrap(Nv(fs)), Wrap(Fp(fs)), Wrap(ret)]
  {
  }

  lemma FitsOperands(fs: Chain)
    ensures |fs.top.operands| <= F.Size(fs)
  {
  }

  lemma CallerKeepsReturns(p: Program, fs: Chain, f: F.Frame)
    requires ReturnsIntoCode(p, fs) && f.ret == fs.top.ret
    ensures ReturnsIntoCode(p, fs.(top := f))
  {
  }

  lemma InvokeNoMethod(env: H.Env, p: Program, m: M.Vm, index: int)
    ensures !Method(p, index).Live? ==> M.InvokeMethod(env, p, m, index) == Method(p, index).PropagateFailure<M.Vm>()
  {
    hide M.Push, Method;
  }

  lemma FlatCalled(callers: Chain, f: F.Frame)
    ensures Flat(F.Called(callers, f)) == Flat(callers) + f.locals + Link(callers, f.ret) + f.operands
  {
  }

  lemma InvokeUnfolds(env: H.Env, p: Program, m: M.Vm, index: int, link: seq<Word>)
    requires Method(p, index).Live? && link == [Wrap(m.lv), Wrap(m.nv), Wrap(m.fp), Wrap(m.pc)]
    ensures var (address, args, locals) := Method(p, index).value;
      var r := PushLinks(env, m.(pc := address + 4, sp := m.sp + locals), link);
      if r.Live? then
        var fp := r.value.sp - 3;
        var lv := fp - (args + locals);
        0 <= lv && lv + args + locals <= |r.value.stack| ==>
          M.InvokeMethod(env, p, m, index) ==
          Live(r.value.(fp := fp, nv := args + locals, lv := lv,
            stack := M.Zeroed(r.value.stack, lv + args, locals)))
      else M.InvokeMethod(env, p, m, index) == r
  {
    hide M.Push, Method;
  }

  /** The four linkage words, popped one after the other. */
  lemma PopLink(m: M.Vm, low: seq<Word>, link: seq<Word>)
    requires |link| == 4 && 0 <= m.lv <= |low| && m.sp == |low| + 3 < |m.stack| && m.stack[..|low| + 4] == low + link
    ensures M.PopWord(m) == Live((m.(sp := |low| + 2), link[3]))
    ensures M.PopWord(m.(sp := |low| + 2)) == Live((m.(sp := |low| + 1), link[2]))
    ensures M.PopWord(m.(sp := |low| + 1)) == Live((m.(sp := |low|), link[1]))
    ensures M.PopWord(m.(sp := |low|)) == Live((m.(sp := |low| - 1), link[0]))
  {
    forall i | 0 <= i < 4 ensures m.stack[|low| + i] == link[i] {
      assert m.stack[..|low| + 4][|low| + i] == link[i];
    }
  }

  lemma {:induction false} LinkIsExact(p: Program, fs: Chain)
    requires fs.Called? && ReturnsIntoCode(p, fs) && F.Size(fs) <= M.MAX_STACK
    ensures Link(fs.callers, fs.top.ret) == [Lv(fs.callers), Nv(fs.callers), Fp(fs.callers), fs.top.ret]
    ensures Fp(fs.callers) <= F.Size(fs.callers)
  {
  }

  lemma FlatUpTo(fs: Chain, low: seq<Word>)
    requires fs.Called? && low == Flat(fs.callers) + fs.top.locals
    ensures |low| == Fp(fs) && Flat(fs) == low + Link(fs.callers, fs.top.ret) + fs.top.operands
  {
  }

  /** What IRETURN does to a stack whose link words name a proper caller frame. */
  lemma ReturnEffect(env: H.Env, p: Program, m: M.Vm, low: seq<Word>, link: seq<Word>)
    requires |link| == 4 && m.fp == |low| && 0 <= m.lv <= m.fp <= m.sp - 4 && m.sp < |m.stack|
    requires m.lv + m.nv == m.fp && m.stack[..|low| + 4] == low + link
    requires 0 <= link[0] <= link[2] <= m.lv && 0 <= link[1] && 0 <= link[3]
    ensures M.ReturnWord(env, p, m) ==
      if link[3] >= |p.code| then Destroyed
      else M.Push(env, m.(sp := m.lv - 1, pc := link[3], fp := link[2], nv := link[1], lv := link[0]), m.stack[m.sp])
  {
    hide M.Push;
    PopLink(m.(sp := m.fp + 3), low, link);
  }

  lemma ReturnSim(env: H.Env, p: Program, m: M.Vm, a: F.FrameVm)
    requires Encodes(p, m, a) && !F.ReturnWord(env, p, a).Undisciplined?
    ensures Agrees(p, M.ReturnWord(env, p, m), F.ReturnWord(env, p, a))
  {
    hide F.GrowCap, M.Push, F.Push, Flat, M.ReturnWord, Link;
    var fs := a.frames;
    var low := Flat(fs.callers) + fs.top.locals;
    FlatUpTo(fs, low);
    LinkIsExact(p, fs);
    PopSim(p, m, a);
    assert m.stack[..|low| + 4] == m.stack[..m.sp + 1][..|low| + 4] == low + Link(fs.callers, fs.top.ret);
    ReturnEffect(env, p, m, low, Link(fs.callers, fs.top.ret));
    if fs.top.ret < |p.code| {
      var m1 := m.(sp := Lv(fs) - 1, pc := fs.top.ret, fp := Fp(fs.callers), nv := Nv(fs.callers), lv := Lv(fs.callers));
      var a1 := F.PopWord(a).value.0.(frames := fs.callers, pc := fs.top.ret);
      assert m1.stack[..m1.sp + 1] == m.stack[..|low| + 4][..m1.sp + 1] == Flat(fs.callers);
      PushSim(env, p, m1, a1, F.PopWord(a).value.1);
    }
  }

  lemma RootsJoin(x: seq<Word>, y: seq<Word>)
    ensures H.RootsOf(x + y) == H.RootsOf(x) + H.RootsOf(y)
  {
    hide IsRef, RefIndex;
    forall r ensures r in H.RootsOf(x + y) <==> r in H.RootsOf(x) || r in H.RootsOf(y) {
      if r in H.RootsOf(x) {
        var e :| 0 <= e < |x| && IsRef(x[e]) && RefIndex(x[e]) == r;
        assert (x + y)[e] == x[e];
      }
      if r in H.RootsOf(y) {
        var e :| 0 <= e < |y| && IsRef(y[e]) && RefIndex(y[e]) == r;
        assert (x + y)[|x| + e] == y[e];
      }
    }
  }

  lemma PlainIsNoRoot(s: seq<Word>)
    requires forall i :: 0 <= i < |s| ==> s[i] >= 0
    ensures H.RootsOf(s) == {}
  {
  }

  /** Linkage words never look like array references. */
  lemma {:induction false} FlatRoots(p: Program, fs: Chain)
    requires ReturnsIntoCode(p, fs) && F.Size(fs) <= M.MAX_STACK
    ensures H.RootsOf(Flat(fs)) == H.RootsOf(F.Data(fs))
  {
    hide H.RootsOf;
    if fs.Called? {
      var f, link := fs.top, Link(fs.callers, fs.top.ret);
      FlatRoots(p, fs.callers);
      LinkIsExact(p, fs);
      PlainIsNoRoot(link);
      RootsJoin(Flat(fs.callers), f.locals);
      RootsJoin(Flat(fs.callers) + f.locals, link);
      RootsJoin(Flat(fs.callers) + f.locals + link, f.operands);
      RootsJoin(F.Data(fs.callers), f.locals);
      RootsJoin(F.Data(fs.callers) + f.locals, f.operands);
    } else {
      assert F.Data(fs) == Flat(fs);
    }
  }

  lemma RootsSim(p: Program, m: M.Vm, a: F.FrameVm)
    requires Encodes(p, m, a)
    ensures M.Roots(m) == F.Roots(a)
  {
    hide H.RootsOf, Link;
    var fs := a.frames;
    var ops := fs.top.operands;
    if m.sp >= 0 {
      assert m.stack[..m.sp] == m.stack[..m.sp + 1][..m.sp] == Flat(fs)[..m.sp];
    }
    if ops != [] {
      var fs' := fs.(top := fs.top.(operands := ops[..|ops| - 1]));
      assert Flat(fs)[..m.sp] == Flat(fs');
      assert F.BelowTop(fs) == F.Data(fs');
      CallerKeepsReturns(p, fs, fs'.top);
      FlatRoots(p, fs');
    } else if fs.Called? {
      RootsUnderLink(p, fs);
    } else {
      assert F.Data(fs) == Flat(fs);
    }
  }

  lemma RootsUnderLink(p: Program, fs: Chain)
    requires fs.Called? && fs.top.operands == [] && ReturnsIntoCode(p, fs) && F.Size(fs) <= M.MAX_STACK
    ensures H.RootsOf(Flat(fs)[..F.Size(fs) - 1]) == H.RootsOf(F.Data(fs))
  {
    hide H.RootsOf;
    var link := Link(fs.callers, fs.top.ret);
    LinkIsExact(p, fs);
    PlainIsNoRoot(link[..3]);
    FlatRoots(p, fs.callers);
    RootsJoin(Flat(fs.callers), fs.top.locals);
    RootsJoin(Flat(fs.callers) + fs.top.locals, link[..3]);
    RootsJoin(F.Data(fs.callers), fs.top.locals);
    assert Flat(fs)[..F.Size(fs) - 1] == Flat(fs.callers) + fs.top.locals + link[..3];
    assert F.Data(fs) == F.Data(fs.callers) + fs.top.locals;
  }

  lemma LoadSim(env: H.Env, p: Program, m: M.Vm, a: F.FrameVm, v: int)
    requires Encodes(p, m, a)
    ensures Agrees(p, M.Exec(env, p, m, Iload(v)), F.Exec(env, p, a, Iload(v)))
  {
    hide Encodes, M.Push, F.Push, M.GetLocal, F.GetLocal;
    GetSim(p, m, a, v);
    if F.GetLocal(a, v).Live? { PushSim(env, p, m, a, F.GetLocal(a, v).value); }
  }

  lemma DupSim(env: H.Env, p: Program, m: M.Vm, a: F.FrameVm)
    requires Encodes(p, m, a)
    ensures Agrees(p, M.Exec(env, p, m, Dup), F.Exec(env, p, a, Dup))
  {
    hide M.Push, F.Push, Flat, F.Size;
    if F.PopWord(a).Live? {
      PopSim(p, m, a);
      PushSim(env, p, m, a, m.stack[m.sp]);
    }
  }

  /** Both machines pop the same word and go on as `m1` and `a1`. */
  ghost predicate PopsTo(m: M.Vm, a: F.FrameVm, m1: M.Vm, a1: F.FrameVm) {
    F.PopWord(a).Live? && F.PopWord(a).value.0 == a1 && M.PopWord(m) == Live((m1, F.PopWord(a).value.1))
  }

  /** The states after popping `n` words, when the frame has them. */
  lemma PopMany(p: Program, m: M.Vm, a: F.FrameVm, n: nat) returns (ms: seq<M.Vm>, as': seq<F.FrameVm>)
    requires Encodes(p, m, a)
    ensures |ms| == |as'| <= n + 1 && 0 < |ms| && ms[0] == m && as'[0] == a
    ensures |ms| <= n ==> F.PopWord(as'[|ms| - 1]) == Undisciplined
    ensures forall i :: 0 <= i < |ms| ==> Encodes(p, ms[i], as'[i])
    ensures |ms| > 1 ==> PopsTo(m, a, ms[1], as'[1])
    ensures |ms| > 2 ==> PopsTo(ms[1], as'[1], ms[2], as'[2])
    ensures |ms| > 3 ==> PopsTo(ms[2], as'[2], ms[3], as'[3])
    decreases n
  {
    hide Encodes, M.PopWord;
    ms, as' := [m], [a];
    if n > 0 && F.PopWord(a).Live? {
      PopSim(p, m, a);
      var ms1, as1 := PopMany(p, M.PopWord(m).value.0, F.PopWord(a).value.0, n - 1);
      ms, as' := ms + ms1, as' + as1;
    }
  }

  lemma BinarySim(env: H.Env, p: Program, m: M.Vm, a: F.FrameVm, op: M.Arith)
    requires Encodes(p, m, a)
    ensures Agrees(p, M.Binary(env, m, op), F.Binary(env, a, op))
  {
    hide Encodes, M.Push, F.Push, M.PopWord, F.PopWord, M.Compute;
    var ms, as' := PopMany(p, m, a, 2);
    if |ms| == 3 {
      PushSim(env, p, ms[2], as'[2], M.Compute(op, M.PopWord(ms[1]).value.1, M.PopWord(m).value.1));
    } else if |ms| == 2 {
      assert F.PopWord(as'[1]).Undisciplined?;
    }
  }

  lemma SwapSim(env: H.Env, p: Program, m: M.Vm, a: F.FrameVm)
    requires Encodes(p, m, a)
    ensures Agrees(p, M.Exec(env, p, m, Swap), F.Exec(env, p, a, Swap))
  {
    hide Encodes, M.Push, F.Push, M.PopWord, F.PopWord;
    var ms, as' := PopMany(p, m, a, 2);
    if |ms| == 3 {
      var y, x := M.PopWord(m).value.1, M.PopWord(ms[1]).value.1;
      PushSim(env, p, ms[2], as'[2], y);
      if F.Push(env, as'[2], y).Live? {
        PushSim(env, p, M.Push(env, ms[2], y).value, F.Push(env, as'[2], y).value, x);
      }
    } else if |ms| == 2 {
      assert F.PopWord(as'[1]).Undisciplined?;
    }
  }

  lemma JumpSim(p: Program, m: M.Vm, a: F.FrameVm, taken: bool, offset: int)
    requires Encodes(p, m, a)
    ensures Agrees(p, M.Jump(p, m, offset), F.Jump(p, a, offset))
    ensures Agrees(p, M.JumpIf(p, m, taken, offset), F.JumpIf(p, a, taken, offset))
  {
    hide F.Size, Flat, Lv, Fp;
  }

  lemma BranchSim(env: H.Env, p: Program, m: M.Vm, a: F.FrameVm, ins: Instr)
    requires Encodes(p, m, a) && (ins.Ifeq? || ins.Iflt? || ins.Icmpeq?)
    ensures Agrees(p, M.Exec(env, p, m, ins), F.Exec(env, p, a, ins))
  {
    hide Encodes, M.JumpIf, F.JumpIf, M.PopWord, F.PopWord;
    var ms, as' := PopMany(p, m, a, if ins.Icmpeq? then 2 else 1);
    if |ms| >= 2 {
      var y := M.PopWord(m).value.1;
      match ins
      case Ifeq(o) => JumpSim(p, ms[1], as'[1], y == 0, o);
      case Iflt(o) => JumpSim(p, ms[1], as'[1], y < 0, o);
      case Icmpeq(o) =>
        if |ms| == 3 { JumpSim(p, ms[2], as'[2], M.PopWord(ms[1]).value.1 == y, o); }
        else { assert F.PopWord(as'[1]).Undisciplined?; }
    }
  }

  /** Updating what the two machines share keeps the encoding. */
  lemma SharedUpdate(p: Program, m: M.Vm, a: F.FrameVm, err: bool, halt: bool, heap: H.Heap,
                     input: seq<Byte>, output: seq<Byte>)
    requires Encodes(p, m, a)
    ensures Encodes(p, m.(err := err, halt := halt, heap := heap, input := input, output := output),
                       a.(err := err, halt := halt, heap := heap, input := input, output := output))
    ensures m.err == a.err && m.halt == a.halt && m.heap == a.heap && m.input == a.input && m.output == a.output
  {
  }

  lemma CreateSim(env: H.Env, p: Program, m: M.Vm, a: F.FrameVm)
    requires Encodes(p, m, a)
    ensures Agrees(p, M.CreateArray(env, m), F.CreateArray(env, a))
  {
    hide Encodes, M.Push, F.Push, M.PopWord, F.PopWord, H.Create, M.Roots, F.Roots;
    var ms, as' := PopMany(p, m, a, 1);
    if |ms| == 2 {
      var m1, a1, count := ms[1], as'[1], M.PopWord(m).value.1;
      RootsSim(p, m1, a1);
      SharedUpdate(p, m1, a1, m1.err, m1.halt, m1.heap, m1.input, m1.output);
      var r := H.Create(env, m1.heap, count, M.Roots(m1));
      if r.Live? {
        var (heap, ref) := r.value;
        SharedUpdate(p, m1, a1, m1.err, m1.halt, heap, m1.input, m1.output);
        PushSim(env, p, m1.(heap := heap), a1.(heap := heap), ref);
      }
    }
  }

  lemma ElementSim(env: H.Env, p: Program, m: M.Vm, a: F.FrameVm)
    requires Encodes(p, m, a)
    ensures Agrees(p, M.LoadElement(env, m), F.LoadElement(env, a))
    ensures Agrees(p, M.StoreElement(m), F.StoreElement(a))
  {
    hide Encodes, M.Push, F.Push, M.PopWord, F.PopWord, H.Get, H.Set;
    var ms, as' := PopMany(p, m, a, 3);
    if |ms| >= 3 {
      var ref, i := M.PopWord(m).value.1, M.PopWord(ms[1]).value.1;
      var m2, a2 := ms[2], as'[2];
      SharedUpdate(p, m2, a2, m2.err, m2.halt, m2.heap, m2.input, m2.output);
      if H.Get(m2.heap, ref, i).Live? { PushSim(env, p, m2, a2, H.Get(m2.heap, ref, i).value); }
      if |ms| == 4 {
        var m3, a3, w := ms[3], as'[3], M.PopWord(m2).value.1;
        SharedUpdate(p, m3, a3, m3.err, m3.halt, m3.heap, m3.input, m3.output);
        var r := H.Set(m3.heap, ref, i, w);
        if r.Live? { SharedUpdate(p, m3, a3, m3.err, m3.halt, r.value, m3.input, m3.output); }
      } else {
        assert F.PopWord(as'[2]).Undisciplined?;
      }
    } else if |ms| == 2 {
      assert F.PopWord(as'[1]).Undisciplined?;
    }
  }

  lemma InOutSim(env: H.Env, p: Program, m: M.Vm, a: F.FrameVm)
    requires Encodes(p, m, a)
    ensures Agrees(p, M.ReadByte(env, m), F.ReadByte(env, a))
    ensures Agrees(p, M.Exec(env, p, m, Out), F.Exec(env, p, a, Out))
  {
    hide Encodes, M.Push, F.Push, M.PopWord, F.PopWord;
    SharedUpdate(p, m, a, m.err, m.halt, m.heap, m.input, m.output);
    PushSim(env, p, m, a, 0);
    if m.input != [] {
      SharedUpdate(p, m, a, m.err, m.halt, m.heap, m.input[1..], m.output);
      PushSim(env, p, m.(input := m.input[1..]), a.(input := m.input[1..]), m.input[0]);
    }
    var ms, as' := PopMany(p, m, a, 1);
    if |ms| == 2 {
      var m1, a1 := ms[1], as'[1];
      SharedUpdate(p, m1, a1, m1.err, m1.halt, m1.heap, m1.input, m1.output + [ToU32(M.PopWord(m).value.1) % 256]);
    }
  }

  lemma LocalsSim(env: H.Env, p: Program, m: M.Vm, a: F.FrameVm, ins: Instr)
    requires Encodes(p, m, a) && (ins.Istore? || ins.Iinc?)
    ensures Agrees(p, M.Exec(env, p, m, ins), F.Exec(env, p, a, ins))
  {
    hide Encodes, M.PopWord, F.PopWord, M.GetLocal, F.GetLocal, M.SetLocal, F.SetLocal;
    match ins
    case Istore(v) =>
      var ms, as' := PopMany(p, m, a, 1);
      if |ms| == 2 { SetSim(p, ms[1], as'[1], F.PopWord(a).value.1, v); }
    case Iinc(v, c) =>
      GetSim(p, m, a, v);
      if F.GetLocal(a, v).Live? { SetSim(p, m, a, Wrap(F.GetLocal(a, v).value + c), v); }
  }

  lemma CollectSim(env: H.Env, p: Program, m: M.Vm, a: F.FrameVm)
    requires Encodes(p, m, a)
    ensures Agrees(p, M.CollectNow(env, m), F.CollectNow(env, a))
  {
    hide Encodes, M.Roots, F.Roots, H.Gc;
    RootsSim(p, m, a);
    SharedUpdate(p, m, a, m.err, m.halt, m.heap, m.input, m.output);
    var r := H.Gc(env, m.heap, M.Roots(m));
    if r.Live? { SharedUpdate(p, m, a, m.err, m.halt, r.value.0, m.input, m.output); }
  }

  /** One decoded instruction does the same to both machines. */
  lemma ExecSim(env: H.Env, p: Program, m: M.Vm, a: F.FrameVm, ins: Instr)
    requires Encodes(p, m, a) && 0 <= a.pc <= |p.code|
    ensures Agrees(p, M.Exec(env, p, m, ins), F.Exec(env, p, a, ins))
  {
    hide Encodes, M.Push, M.PopWord, M.GetLocal, M.SetLocal, M.JumpIf, M.InvokeMethod, M.ReturnWord, M.Binary;
    hide F.Push, F.PopWord, F.GetLocal, F.SetLocal, F.JumpIf, F.InvokeMethod, F.ReturnWord, F.Binary;
    hide M.CreateArray, M.LoadElement, M.StoreElement, M.CollectNow, M.ReadByte;
    hide F.CreateArray, F.LoadElement, F.StoreElement, F.CollectNow, F.ReadByte;
    SharedUpdate(p, m, a, m.err, m.halt, m.heap, m.input, m.output);
    match ins
    case Bipush(w) => PushSim(env, p, m, a, w);
    case LdcW(i) => if GetConstant(p, i).Live? { PushSim(env, p, m, a, GetConstant(p, i).value); }
    case Iload(v) => LoadSim(env, p, m, a, v);
    case Istore(_) => LocalsSim(env, p, m, a, ins);
    case IstoreCut => var _, _ := PopMany(p, m, a, 1);
    case Iinc(_, _) => LocalsSim(env, p, m, a, ins);
    case Pop => var _, _ := PopMany(p, m, a, 1);
    case Dup => DupSim(env, p, m, a);
    case Swap => SwapSim(env, p, m, a);
    case Iadd => BinarySim(env, p, m, a, M.Add);
    case Isub => BinarySim(env, p, m, a, M.Sub);
    case Iand => BinarySim(env, p, m, a, M.And);
    case Ior => BinarySim(env, p, m, a, M.Or);
    case Ifeq(_) => BranchSim(env, p, m, a, ins);
    case Iflt(_) => BranchSim(env, p, m, a, ins);
    case Icmpeq(_) => BranchSim(env, p, m, a, ins);
    case Goto(o) => JumpSim(p, m, a, true, o);
    case Ireturn => if !F.ReturnWord(env, p, a).Undisciplined? { ReturnSim(env, p, m, a); }
    case Invoke(i) => InvokeSim(env, p, m, a, i);
    case In => InOutSim(env, p, m, a);
    case Out => InOutSim(env, p, m, a);
    case NewArray => CreateSim(env, p, m, a);
    case Iaload => ElementSim(env, p, m, a);
    case Iastore => ElementSim(env, p, m, a);
    case Gc => CollectSim(env, p, m, a);
    case Net =>
    case Nop =>
    case Err => SharedUpdate(p, m, a, true, m.halt, m.heap, m.input, m.output);
    case Invalid => SharedUpdate(p, m, a, true, m.halt, m.heap, m.input, m.output);
    case Halt => SharedUpdate(p, m, a, m.err, true, m.heap, m.input, m.output);
  }

  lemma MovePc(p: Program, m: M.Vm, a: F.FrameVm, pc: int)
    requires Encodes(p, m, a)
    ensures m.pc == a.pc && M.Finished(p, m) == F.Finished(p, a)
    ensures Encodes(p, m.(pc := pc), a.(pc := pc))
  {
    hide F.Size, Flat, Lv, Fp;
  }

  lemma StepSim(env: H.Env, p: Program, m: M.Vm, a: F.FrameVm)
    requires Encodes(p, m, a) && a.pc >= 0
    ensures m.pc >= 0 && Agrees(p, M.Step(env, p, m), F.Step(env, p, a))
  {
    hide Encodes, M.Exec, F.Exec, Decode;
    MovePc(p, m, a, 0);
    var d := Decode(p.code, a.pc, false);
    if d.Live? {
      var (ins, next) := d.value;
      MovePc(p, m, a, next);
      ExecSim(env, p, m.(pc := next), a.(pc := next), ins);
    }
  }

  /**
   * The refinement: over every run, of any length, the flat machine does what the frame machine
   * does. Either the program breaks its operand discipline, or both are live and the stack array
   * and its registers hold exactly the frame list, or both ended, and ended the same way.
   */
  lemma {:induction false} RunSim(env: H.Env, p: Program, m: M.Vm, a: F.FrameVm, n: nat)
    requires Encodes(p, m, a)
    ensures Agrees(p, M.Run(env, p, m, n), F.Run(env, p, a, n))
    decreases n
  {
    hide Encodes, M.Step, F.Step;
    MovePc(p, m, a, 0);
    if n > 0 && !F.Finished(p, a) {
      StepSim(env, p, m, a);
      if F.Step(env, p, a).Live? {
        RunSim(env, p, M.Step(env, p, m).value, F.Step(env, p, a).value, n - 1);
      }
    }
  }
}
