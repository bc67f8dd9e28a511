/** Whole runs of heap operations, each made with its own stack contents below the top. */
module HeapRuns {
  import opened Words
  import opened References
  import opened Outcomes
  import opened Heaps
  import opened Allocation
  import Collector

  /** `NetAdd` is a socket being stored: it shares the counter that triggers collection. */
  datatype Op =
    | New(count: Word)
    | Put(ref: Word, i: Word, val: Word)
    | Fetch(ref: Word, i: Word)
    | CollectNow
    | NetAdd

  datatype Event = Event(op: Op, stack: seq<Word>)

  datatype Reply = Ref(ref: Word) | Value(word: Word) | Done

  ghost function Do(env: Env, h: Heap, e: Event): Outcome<(Heap, Reply)> {
    var roots := RootsOf(e.stack);
    match e.op
    case New(count) => var (h1, ref) :- Create(env, h, count, roots); Live((h1, Ref(ref)))
    case Put(ref, i, val) => var h1 :- Set(h, ref, i, val); Live((h1, Done))
    case Fetch(ref, i) => var w :- Get(h, ref, i); Live((h, Value(w)))
    case CollectNow => var (h1, freed) :- Gc(env, h, roots); Live((h1, Done))
    case NetAdd => var h1 :- Tick(env, h, roots); Live((h1, Done))
  }

  ghost function Run(env: Env, h: Heap, events: seq<Event>): Outcome<(Heap, seq<Reply>)>
    decreases |events|
  {
    if events == [] then Live((h, []))
    else
      var (h1, reply) :- Do(env, h, events[0]);
      var (h2, replies) :- Run(env, h1, events[1..]);
      Live((h2, [reply] + replies))
  }

  /** Whenever a step of the run collects, asked or unasked, that collection marks the array of `ref`. */
  ghost predicate MarkedAtCollections(env: Env, h: Heap, events: seq<Event>, ref: Word)
    decreases |events|
  {
    events != [] && Do(env, h, events[0]).Live? ==>
      var h1 := Do(env, h, events[0]).value.0;
      (h1.collections == h.collections || Marked(h.slots, RootsOf(events[0].stack), RefIndex(ref))) &&
      MarkedAtCollections(env, h1, events[1..], ref)
  }

  /**
   * When a collection marks an array: exactly when references lead to it from the words below the top
   * of the stack, all but the last of them to higher slots. A word on the stack itself is enough.
   */
  lemma MarkedByStack(slots: seq<Slot>, stack: seq<Word>, ref: Word)
    requires IsRef(ref)
    ensures Marked(slots, RootsOf(stack), RefIndex(ref)) <==> Collector.ClimbsNear(slots, RootsOf(stack), RefIndex(ref))
    ensures ref in stack && Claimed(slots, RefIndex(ref)) ==> Marked(slots, RootsOf(stack), RefIndex(ref))
  {
    hide IsRef, RefIndex;
    Collector.MarkedIffClimbsNear(slots, RootsOf(stack), RefIndex(ref));
  }

  /** The word last put at `(ref, i)`, or `before` if there was none. */
  function LastPut(events: seq<Event>, ref: Word, i: int, before: Word): Word {
    if events == [] then before
    else
      var op := events[0].op;
      LastPut(events[1..], ref, i, if op.Put? && op.ref == ref && op.i == i then op.val else before)
  }

  /** What one live step does to a slot named by a reference whose array is marked if the step collects. */
  lemma StepKeepsArray(env: Env, h: Heap, e: Event, ref: Word, words: seq<Word>)
    requires Bounded(h.slots) && IsRef(ref) && Claimed(h.slots, RefIndex(ref))
    requires h.slots[RefIndex(ref)].words == words
    requires Do(env, h, e).Live?
    requires Do(env, h, e).value.0.collections == h.collections || Marked(h.slots, RootsOf(e.stack), RefIndex(ref))
    ensures var (h1, reply) := Do(env, h, e).value;
      Bounded(h1.slots) && Claimed(h1.slots, RefIndex(ref)) && reply != Ref(ref) &&
      h1.slots[RefIndex(ref)].words == if e.op.Put? && e.op.ref == ref then words[e.op.i := e.op.val] else words
  {
    var roots := RootsOf(e.stack);
    var h1 := Do(env, h, e).value.0;
    match e.op
    case New(count) =>
      hide Create, IsRef, RefIndex;
      var mid := CreateClaimsOneSlot(env, h, count, roots);
      EvolvedSlots(roots, h, mid);
    case Put(r, i, val) =>
      if r != ref {
        RefFromIndex(r);
        RefFromIndex(ref);
      }
    case Fetch(_, _) =>
    case CollectNow =>
      hide IsRef, RefIndex;
      GcEvolves(env, h, roots);
      EvolvedIsBounded(roots, h, h1);
      EvolvedSlots(roots, h, h1);
    case NetAdd =>
      hide IsRef, RefIndex;
      TickEvolves(env, h, roots);
      EvolvedIsBounded(roots, h, h1);
      EvolvedSlots(roots, h, h1);
  }

  /** The condition is needed: a collecting step that does not mark the array frees its slot, or gives it away. */
  lemma StepLosesUnmarked(env: Env, h: Heap, e: Event, ref: Word)
    requires Bounded(h.slots) && IsRef(ref) && Claimed(h.slots, RefIndex(ref)) && Do(env, h, e).Live?
    requires Do(env, h, e).value.0.collections != h.collections
    requires !Marked(h.slots, RootsOf(e.stack), RefIndex(ref))
    ensures var (h1, reply) := Do(env, h, e).value;
      reply == Ref(ref) || !Claimed(h1.slots, RefIndex(ref))
  {
    hide IsRef, RefIndex, Marked;
    var roots := RootsOf(e.stack);
    match e.op
    case New(count) =>
      hide Create;
      var mid := CreateClaimsOneSlot(env, h, count, roots);
      EvolvedSlots(roots, h, mid);
      RefFromIndex(ref);
      RefFromIndex(Create(env, h, count, roots).value.1);
    case CollectNow => GcEvolves(env, h, roots);
    case NetAdd =>
      TickEvolves(env, h, roots);
      EvolvedSlots(roots, h, Tick(env, h, roots).value);
    case _ =>
  }

  lemma {:induction false} RunKeepsArray(
      env: Env, h: Heap, events: seq<Event>, ref: Word, words: seq<Word>)
    requires Bounded(h.slots) && IsRef(ref) && Claimed(h.slots, RefIndex(ref))
    requires h.slots[RefIndex(ref)].words == words
    requires Run(env, h, events).Live? && MarkedAtCollections(env, h, events, ref)
    ensures var (h', replies) := Run(env, h, events).value;
      |replies| == |events| && Ref(ref) !in replies &&
      Claimed(h'.slots, RefIndex(ref)) && |h'.slots[RefIndex(ref)].words| == |words| &&
      forall i :: 0 <= i < |words| ==> h'.slots[RefIndex(ref)].words[i] == LastPut(events, ref, i, words[i])
    decreases |events|
  {
    if events != [] {
      hide Do, IsRef, RefIndex;
      var (h1, reply) := Do(env, h, events[0]).value;
      StepKeepsArray(env, h, events[0], ref, words);
      var words1 := h1.slots[RefIndex(ref)].words;
      PutIsInRange(env, h, events[0], ref);
      RunKeepsArray(env, h1, events[1..], ref, words1);
    }
  }

  lemma PutIsInRange(env: Env, h: Heap, e: Event, ref: Word)
    requires Claimed(h.slots, RefIndex(ref)) && Do(env, h, e).Live?
    ensures e.op.Put? && e.op.ref == ref ==> 0 <= e.op.i < |h.slots[RefIndex(ref)].words|
  {
  }

  /**
   * The heap is a map. An array stays what its last stores made it, and no later array shares its
   * reference, over every live run whose collections all mark it, be it through the stack or through
   * other arrays.
   */
  lemma HeapIsAMap(env: Env, h: Heap, stack: seq<Word>, count: Word, events: seq<Event>, i: Word)
    requires Bounded(h.slots) && Do(env, h, Event(New(count), stack)).Live?
    requires var (h1, reply) := Do(env, h, Event(New(count), stack)).value;
      Run(env, h1, events).Live? && MarkedAtCollections(env, h1, events, reply.ref)
    ensures var (h1, reply) := Do(env, h, Event(New(count), stack)).value;
      var (h2, replies) := Run(env, h1, events).value;
      |replies| == |events| && reply !in replies &&
      Get(h2, reply.ref, i) == if 0 <= i < count then Live(LastPut(events, reply.ref, i, 0)) else Destroyed
  {
    hide Create, IsRef, RefIndex;
    var mid := CreateClaimsOneSlot(env, h, count, RootsOf(stack));
    var (h1, reply) := Do(env, h, Event(New(count), stack)).value;
    RunKeepsArray(env, h1, events, reply.ref, Zeros(count));
  }

  /** Loads and stores pass the same checks: a reference to a claimed slot, and an index inside its array. */
  lemma AccessIff(h: Heap, ref: Word, i: Word, val: Word)
    requires IsRef(ref) && Claimed(h.slots, RefIndex(ref)) ==> |h.slots[RefIndex(ref)].words| < 0x8000_0000
    ensures Get(h, ref, i).Live? == Set(h, ref, i, val).Live?
    ensures Get(h, ref, i).Live? <==>
      IsRef(ref) && Claimed(h.slots, RefIndex(ref)) && 0 <= i < |h.slots[RefIndex(ref)].words|
  {
    hide IsRef, RefIndex;
  }

  /** Select after store: a store shows at its own reference and index, and nowhere else. */
  lemma SelectStore(h: Heap, ref: Word, i: Word, val: Word, ref2: Word, i2: Word)
    requires Set(h, ref, i, val).Live?
    ensures Get(Set(h, ref, i, val).value, ref2, i2) == if ref2 == ref && i2 == i then Live(val) else Get(h, ref2, i2)
  {
    hide IndexRef;
    if IsRef(ref2) {
      RefFromIndex(ref);
      RefFromIndex(ref2);
    }
  }
}
