/** Running programs as runs of heap operations: what an element load sees in any program. */
module VmHeap {
  import opened Words
  import opened Outcomes
  import opened Programs
  import opened Machine
  import H = Heaps
  import HR = HeapRuns
  import R = Registers
  import A = Allocation

  /** The `k`th word from the top, 0 being the top itself. */
  function FromTop(m: Vm, k: nat): Word {
    if 0 <= m.sp - k < |m.stack| then m.stack[m.sp - k] else 0
  }

  /** The words below the top once `taken` operands are gone. */
  function Below(m: Vm, taken: nat): seq<Word> {
    if 0 <= m.sp - taken <= |m.stack| then m.stack[..m.sp - taken] else []
  }

  /** The operation a step makes on the heap, if any, with the stack words a collection would look at. */
  function StepEvents(p: Program, m: Vm): seq<HR.Event> {
    if m.pc < 0 || Decode(p.code, m.pc, false).IsFailure() then []
    else
      match Decode(p.code, m.pc, false).value.0
      case NewArray => [HR.Event(HR.New(FromTop(m, 0)), Below(m, 1))]
      case Iaload => [HR.Event(HR.Fetch(FromTop(m, 0), FromTop(m, 1)), Below(m, 2))]
      case Iastore => [HR.Event(HR.Put(FromTop(m, 0), FromTop(m, 1), FromTop(m, 2)), Below(m, 3))]
      case Gc => [HR.Event(HR.CollectNow, Below(m, 0))]
      case _ => []
  }

  /** The heap operations of the next `n` steps. */
  ghost function RunEvents(env: H.Env, p: Program, m: Vm, n: nat): seq<HR.Event>
    decreases n
  {
    if n == 0 || Finished(p, m) || Step(env, p, m).IsFailure() then []
    else
      StepEvents(p, m) + RunEvents(env, p, Step(env, p, m).value, n - 1)
  }

  /** What a step does to the heap is what its operation does; created references and loaded words end on top. */
  lemma StepFollows(env: H.Env, p: Program, m: Vm)
    requires R.InRange(m) && Step(env, p, m).Live?
    ensures var m1 := Step(env, p, m).value;
      var r := HR.Run(env, m.heap, StepEvents(p, m));
      var ins := Decode(p.code, m.pc, false).value.0;
      Decode(p.code, m.pc, false).Live? && r.Live? && r.value.0 == m1.heap &&
      (ins.NewArray? ==> r.value.1 == [HR.Ref(FromTop(m1, 0))])
  {
    hide Decode, Exec, HR.Run, A.Bounded;
    var (ins, next) := Decode(p.code, m.pc, false).value;
    var m0 := m.(pc := next);
    match ins
    case NewArray => CreateFollows(env, p, m0);
    case Iaload => LoadFollows(env, p, m0);
    case Iastore => StoreFollows(env, p, m0);
    case Gc => CollectFollows(env, p, m0);
    case _ =>
      OthersKeepHeap(env, p, m0, ins);
      NoEvents(env, m.heap);
  }

  lemma NoEvents(env: H.Env, h: H.Heap)
    ensures HR.Run(env, h, []) == Live((h, []))
  {
  }

  lemma OneEvent(env: H.Env, h: H.Heap, e: HR.Event)
    ensures HR.Run(env, h, [e]).Live? <==> HR.Do(env, h, e).Live?
    ensures HR.Do(env, h, e).Live? ==>
      HR.Run(env, h, [e]) == Live((HR.Do(env, h, e).value.0, [HR.Do(env, h, e).value.1]))
  {
    hide HR.Do;
    assert [e][1..] == [];
    if HR.Do(env, h, e).Live? {
      assert [HR.Do(env, h, e).value.1] + [] == [HR.Do(env, h, e).value.1];
    }
  }

  lemma CreateFollows(env: H.Env, p: Program, m: Vm)
    requires R.InRange(m) && Exec(env, p, m, NewArray).Live?
    ensures var m1 := Exec(env, p, m, NewArray).value;
      HR.Run(env, m.heap, [HR.Event(HR.New(FromTop(m, 0)), Below(m, 1))]) == Live((m1.heap, [HR.Ref(FromTop(m1, 0))]))
  {
    hide H.Create, HR.Run, Push, H.RootsOf, A.Bounded;
    var (m1, count) := PopWord(m).value;
    assert BelowTop(m1) == Below(m, 1);
    var (heap, ref) := H.Create(env, m1.heap, count, Roots(m1)).value;
    R.PushRange(env, m1.(heap := heap), ref);
    OneEvent(env, m.heap, HR.Event(HR.New(count), Below(m, 1)));
  }

  lemma LoadFollows(env: H.Env, p: Program, m: Vm)
    requires R.InRange(m) && Exec(env, p, m, Iaload).Live?
    ensures Exec(env, p, m, Iaload).value.heap == m.heap
    ensures HR.Run(env, m.heap, [HR.Event(HR.Fetch(FromTop(m, 0), FromTop(m, 1)), Below(m, 2))]).Live?
    ensures HR.Run(env, m.heap, [HR.Event(HR.Fetch(FromTop(m, 0), FromTop(m, 1)), Below(m, 2))]).value.0 == m.heap
  {
    hide H.Get, HR.Run, Push, A.Bounded;
    var (m1, ref) := PopWord(m).value;
    var (m2, i) := PopWord(m1).value;
    R.PushRange(env, m2, H.Get(m2.heap, ref, i).value);
    OneEvent(env, m.heap, HR.Event(HR.Fetch(ref, i), Below(m, 2)));
  }

  lemma StoreFollows(env: H.Env, p: Program, m: Vm)
    requires R.InRange(m) && Exec(env, p, m, Iastore).Live?
    ensures var e := HR.Event(HR.Put(FromTop(m, 0), FromTop(m, 1), FromTop(m, 2)), Below(m, 3));
      HR.Run(env, m.heap, [e]) == Live((Exec(env, p, m, Iastore).value.heap, [HR.Done]))
  {
    hide H.Set, HR.Run, A.Bounded;
    OneEvent(env, m.heap, HR.Event(HR.Put(FromTop(m, 0), FromTop(m, 1), FromTop(m, 2)), Below(m, 3)));
  }

  lemma CollectFollows(env: H.Env, p: Program, m: Vm)
    requires R.InRange(m) && Exec(env, p, m, Gc).Live?
    ensures HR.Run(env, m.heap, [HR.Event(HR.CollectNow, Below(m, 0))])
         == Live((Exec(env, p, m, Gc).value.heap, [HR.Done]))
  {
    hide H.Gc, H.RootsOf, HR.Run, A.Bounded;
    assert BelowTop(m) == Below(m, 0);
    OneEvent(env, m.heap, HR.Event(HR.CollectNow, Below(m, 0)));
  }

  lemma PushKeepsHeap(env: H.Env, m: Vm, w: Word)
    ensures Push(env, m, w).Live? ==> Push(env, m, w).value.heap == m.heap
  {
    hide Grow;
  }

  lemma CallKeepsHeap(env: H.Env, p: Program, m: Vm, index: int)
    ensures InvokeMethod(env, p, m, index).Live? ==> InvokeMethod(env, p, m, index).value.heap == m.heap
  {
    hide Push, Method, Wrap;
    forall m0, w ensures Push(env, m0, w).Live? ==> Push(env, m0, w).value.heap == m0.heap {
      PushKeepsHeap(env, m0, w);
    }
  }

  lemma ReturnKeepsHeap(env: H.Env, p: Program, m: Vm)
    ensures ReturnWord(env, p, m).Live? ==> ReturnWord(env, p, m).value.heap == m.heap
  {
    hide Push;
    forall m0, w ensures Push(env, m0, w).Live? ==> Push(env, m0, w).value.heap == m0.heap {
      PushKeepsHeap(env, m0, w);
    }
  }

  lemma OthersKeepHeap(env: H.Env, p: Program, m: Vm, ins: Instr)
    requires Exec(env, p, m, ins).Live?
    requires !ins.NewArray? && !ins.Iaload? && !ins.Iastore? && !ins.Gc?
    ensures Exec(env, p, m, ins).value.heap == m.heap
  {
    hide Push, InvokeMethod, ReturnWord, CreateArray, LoadElement, StoreElement, CollectNow, Wrap, Compute;
    forall m0, w ensures Push(env, m0, w).Live? ==> Push(env, m0, w).value.heap == m0.heap {
      PushKeepsHeap(env, m0, w);
    }
    match ins
    case Invoke(i) => CallKeepsHeap(env, p, m, i);
    case Ireturn => ReturnKeepsHeap(env, p, m);
    case _ =>
  }

  lemma {:induction false} RunJoin(env: H.Env, h: H.Heap, xs: seq<HR.Event>, ys: seq<HR.Event>)
    requires HR.Run(env, h, xs).Live? && HR.Run(env, HR.Run(env, h, xs).value.0, ys).Live?
    ensures HR.Run(env, h, xs + ys).Live?
    ensures HR.Run(env, h, xs + ys).value.0 == HR.Run(env, HR.Run(env, h, xs).value.0, ys).value.0
    decreases |xs|
  {
    hide HR.Do;
    if xs == [] {
      assert xs + ys == ys;
    } else {
      assert (xs + ys)[1..] == xs[1..] + ys;
      RunJoin(env, HR.Do(env, h, xs[0]).value.0, xs[1..], ys);
    }
  }

  /** Every live run of a program is, on the heap, the run of its operations. */
  lemma {:induction false} RunFollows(env: H.Env, p: Program, m: Vm, n: nat)
    requires R.InRange(m) && Run(env, p, m, n).Live?
    ensures HR.Run(env, m.heap, RunEvents(env, p, m, n)).Live?
    ensures HR.Run(env, m.heap, RunEvents(env, p, m, n)).value.0 == Run(env, p, m, n).value.heap
    decreases n
  {
    hide Step, StepEvents, HR.Run, R.InRange;
    NoEvents(env, m.heap);
    if n > 0 && !Finished(p, m) {
      R.StepKeepsRange(env, p, m);
      StepFollows(env, p, m);
      var m1 := Step(env, p, m).value;
      RunFollows(env, p, m1, n - 1);
      RunJoin(env, m.heap, StepEvents(p, m), RunEvents(env, p, m1, n - 1));
    }
  }

  /** `m` is about to take an array reference and an index off its own operands and load that element. */
  ghost predicate LoadsNext(p: Program, m: Vm, ref: Word, i: Word) {
    m.pc >= 0 && Decode(p.code, m.pc, false).Live? && Decode(p.code, m.pc, false).value.0 == Iaload &&
    1 <= m.sp && m.lv < m.sp && FromTop(m, 0) == ref && FromTop(m, 1) == i
  }

  lemma LoadGives(env: H.Env, p: Program, m: Vm, ref: Word, i: Word)
    requires R.InRange(m) && LoadsNext(p, m, ref, i)
    ensures var w := H.Get(m.heap, ref, i);
      if w.Live? then Step(env, p, m).Live? && FromTop(Step(env, p, m).value, 0) == w.value
      else Step(env, p, m) == Destroyed
  {
    hide H.Get, A.Bounded, Decode;
  }

  /**
   * Arrays work in every program. Take any program in any state about to execute NEWARRAY, let it run
   * on for any number of steps, and let it then load element `i` of the new array: it gets the word
   * last stored there, or 0 if there was none, or is ended if `i` is out of bounds - provided every
   * collection in between marked the array, through the stack or through other arrays.
   */
  lemma LoadSeesLastStore(env: H.Env, p: Program, m: Vm, n: nat, i: Word)
    requires R.InRange(m) && Step(env, p, m).Live? && Decode(p.code, m.pc, false).value.0 == NewArray
    requires Run(env, p, Step(env, p, m).value, n).Live?
    requires var m1 := Step(env, p, m).value;
      HR.MarkedAtCollections(env, m1.heap, RunEvents(env, p, m1, n), FromTop(m1, 0)) &&
      LoadsNext(p, Run(env, p, m1, n).value, FromTop(m1, 0), i)
    ensures var m1 := Step(env, p, m).value;
      var m2 := Run(env, p, m1, n).value;
      m2.pc >= 0 &&
      if 0 <= i < FromTop(m, 0)
      then Step(env, p, m2).Live? &&
           FromTop(Step(env, p, m2).value, 0) == HR.LastPut(RunEvents(env, p, m1, n), FromTop(m1, 0), i, 0)
      else Step(env, p, m2) == Destroyed
  {
    hide Step, Run, RunEvents, HR.Run, HR.Do, HR.MarkedAtCollections, LoadsNext, Decode, FromTop, Below;
    var m1 := Step(env, p, m).value;
    StepFollows(env, p, m);
    R.StepKeepsRange(env, p, m);
    R.RunKeepsRange(env, p, m1, n);
    OneEvent(env, m.heap, HR.Event(HR.New(FromTop(m, 0)), Below(m, 1)));
    RunFollows(env, p, m1, n);
    HR.HeapIsAMap(env, m.heap, Below(m, 1), FromTop(m, 0), RunEvents(env, p, m1, n), i);
    LoadGives(env, p, Run(env, p, m1, n).value, FromTop(m1, 0), i);
  }
}
