/** Slot allocation: bounds, unique references, and the heap as a map over whole runs. */
module Allocation {
  import opened Words
  import opened References
  import opened Outcomes
  import opened Heaps
  import Collector

  const MAX_MAP: int := 0x20_0000

  /** What holds of the map in every live state. */
  ghost predicate Bounded(slots: seq<Slot>) {
    |slots| <= MAX_MAP && forall j :: MAX_ARRAYS <= j < |slots| ==> slots[j].Free?
  }

  /**
   * What allocation does before it claims a slot: from `a` to `b` there have been collections with the
   * same roots, together as good as one, or none; and the map may have got free slots at its end.
   */
  ghost predicate Evolves(roots: set<nat>, a: Heap, b: Heap) {
    a.collections <= b.collections && |a.slots| <= |b.slots| &&
    b.slots == (if a.collections == b.collections then a.slots else Collect(a.slots, roots)) + Frees(|b.slots| - |a.slots|)
  }

  function Frees(n: nat): (s: seq<Slot>)
    ensures |s| == n && forall j :: 0 <= j < n ==> s[j].Free?
  {
    seq(n, _ => Free)
  }

  /** Growing and collecting any number of times comes to one collection and one growth. */
  lemma EvolvesTrans(roots: set<nat>, a: Heap, b: Heap, c: Heap)
    requires Evolves(roots, a, b) && Evolves(roots, b, c)
    ensures Evolves(roots, a, c)
  {
    hide Collect;
    var n, m := |b.slots| - |a.slots|, |c.slots| - |b.slots|;
    assert Frees(n) + Frees(m) == Frees(n + m);
    Collector.CollectExtended(a.slots, roots, n);
    Collector.CollectExtended(Collect(a.slots, roots), roots, n);
    Collector.CollectAgain(a.slots, roots);
    assert forall s: seq<Slot> :: s + Frees(n) + Frees(m) == s + Frees(n + m);
  }

  /** Slot by slot: nothing new is claimed, and what is marked, or never collected, stays. */
  lemma EvolvedSlots(roots: set<nat>, a: Heap, b: Heap)
    requires Evolves(roots, a, b)
    ensures forall j :: Claimed(b.slots, j) ==> Claimed(a.slots, j) && b.slots[j] == a.slots[j]
    ensures forall j :: Claimed(a.slots, j) ==>
      b.slots[j] == if a.collections == b.collections || Marked(a.slots, roots, j) then a.slots[j] else Free
  {
    hide Marked;
  }

  lemma GcEvolves(env: Env, h: Heap, roots: set<nat>)
    requires Gc(env, h, roots).Live?
    ensures Evolves(roots, h, Gc(env, h, roots).value.0)
    ensures |Gc(env, h, roots).value.0.slots| == |h.slots|
    ensures Gc(env, h, roots).value.0.collections == h.collections + 1
  {
  }

  lemma TickEvolves(env: Env, h: Heap, roots: set<nat>)
    requires Tick(env, h, roots).Live?
    ensures Evolves(roots, h, Tick(env, h, roots).value)
    ensures |Tick(env, h, roots).value.slots| == |h.slots|
  {
    if h.creations >= GC_PERIOD { GcEvolves(env, h.(creations := 0), roots); }
  }

  lemma {:induction false} ResizeEvolves(env: Env, h: Heap, size: nat, roots: set<nat>)
    requires Resize(env, h, size, roots).Live?
    ensures Evolves(roots, h, Resize(env, h, size, roots).value)
    ensures |Resize(env, h, size, roots).value.slots| == size >= |h.slots|
    decreases Count(h.slots)
  {
    var h1 := h.(asks := h.asks + 2);
    var r := Resize(env, h, size, roots).value;
    if env.calloc(h.asks) && env.calloc(h.asks + 1) {
    } else {
      var (h2, freed) := Gc(env, h1, roots).value;
      GcEvolves(env, h1, roots);
      ResizeEvolves(env, h2, size, roots);
      EvolvesTrans(roots, h, h2, r);
    }
  }

  /** `Add` evolves the heap to `mid`, then claims the least free slot of `mid`, if there is one. */
  lemma AddEvolves(env: Env, h: Heap, words: seq<Word>, roots: set<nat>) returns (mid: Heap, f: nat)
    requires Add(env, h, words, roots).Live?
    ensures Evolves(roots, h, mid) && |mid.slots| == |h.slots| && f == FirstFree(mid.slots, 0)
    ensures var (h', slot) := Add(env, h, words, roots).value;
      if f == |mid.slots| then h' == mid && slot == None
      else h' == mid.(slots := mid.slots[f := Held(words)]) && slot == Some(f)
  {
    TickEvolves(env, h, roots);
    mid := Tick(env, h, roots).value;
    f := FirstFree(mid.slots, 0);
  }

  /** The heap after storing is an evolved heap with one free slot below 2^20 claimed. */
  ghost predicate Stored(roots: set<nat>, h: Heap, words: seq<Word>, mid: Heap, h': Heap, ref: Word) {
    Evolves(roots, h, mid) && IsRef(ref) && RefIndex(ref) < |mid.slots| && mid.slots[RefIndex(ref)].Free? &&
    h' == mid.(slots := mid.slots[RefIndex(ref) := Held(words)])
  }

  /** The least free slot is taken, so an index past 2^20 is never reached; a resized map has room. */
  lemma PlaceTakesLeastSlot(env: Env, h: Heap, words: seq<Word>, roots: set<nat>) returns (mid: Heap, f: nat)
    requires Bounded(h.slots) && Place(env, h, words, roots).Live?
    ensures Evolves(roots, h, mid) && Bounded(mid.slots) && f == FirstFree(mid.slots, 0) < |mid.slots|
    ensures f <= MAX_ARRAYS
    ensures Place(env, h, words, roots).value == (mid.(slots := mid.slots[f := Held(words)]), Some(f))
  {
    hide Resize, Add;
    var h0 := h;
    if h.slots == [] {
      ResizeEvolves(env, h, FIRST_SIZE, roots);
      h0 := Resize(env, h, FIRST_SIZE, roots).value;
    }
    EvolvedIsBounded(roots, h, h0);
    mid, f := AddEvolves(env, h0, words, roots);
    EvolvesTrans(roots, h, h0, mid);
    EvolvedIsBounded(roots, h, mid);
    LeastFreeIsLow(mid.slots);
    if f == |mid.slots| {
      var full := mid;
      ResizeEvolves(env, full, 2 * |full.slots|, roots);
      var bigger := Resize(env, full, 2 * |full.slots|, roots).value;
      EvolvesTrans(roots, h, full, bigger);
      mid, f := AddEvolves(env, bigger, words, roots);
      EvolvesTrans(roots, h, bigger, mid);
      GrownMapHasRoom(roots, full, bigger, mid);
      EvolvedIsBounded(roots, h, mid);
    }
  }

  /**
   * Allocation works whenever it ends live: the stored array sits in a slot below 2^20 that was free,
   * its reference decodes to that slot, nothing else is touched, and the bounds still hold. The tag
   * check at the end only ever fires on index 2^20.
   */
  lemma StoreClaimsOneSlot(env: Env, h: Heap, words: seq<Word>, roots: set<nat>) returns (mid: Heap)
    requires Bounded(h.slots) && Store(env, h, words, roots).Live?
    ensures Stored(roots, h, words, mid, Store(env, h, words, roots).value.0, Store(env, h, words, roots).value.1)
    ensures Bounded(Store(env, h, words, roots).value.0.slots)
  {
    hide Place, IsRef, RefIndex, IndexRef;
    var f;
    mid, f := PlaceTakesLeastSlot(env, h, words, roots);
    TagCheckIsPartial();
    if f < MAX_ARRAYS { RefRoundTrip(f); }
  }

  lemma EvolvedIsBounded(roots: set<nat>, a: Heap, b: Heap)
    requires Bounded(a.slots) && Evolves(roots, a, b) && |b.slots| <= MAX_MAP
    ensures Bounded(b.slots)
  {
    EvolvedSlots(roots, a, b);
    forall j | MAX_ARRAYS <= j < |b.slots| ensures b.slots[j].Free? {
      assert !Claimed(a.slots, j);
    }
  }

  /** After a resize the second search always finds a slot, and none above the old map size. */
  lemma GrownMapHasRoom(roots: set<nat>, full: Heap, bigger: Heap, mid: Heap)
    requires 0 < |full.slots| < |bigger.slots| == |mid.slots|
    requires Evolves(roots, full, bigger) && Evolves(roots, bigger, mid)
    ensures FirstFree(mid.slots, 0) <= |full.slots|
  {
    var n := |full.slots|;
    EvolvesTrans(roots, full, bigger, mid);
    assert !Claimed(full.slots, n);
    assert !Claimed(mid.slots, n);
  }

  /** The search never looks past index 2^20; a full map therefore has at most 2^20 slots. */
  lemma LeastFreeIsLow(slots: seq<Slot>)
    requires Bounded(slots)
    ensures FirstFree(slots, 0) <= MAX_ARRAYS
  {
    if |slots| > MAX_ARRAYS { assert slots[MAX_ARRAYS].Free?; }
  }

  /** `arr_create`, retries included, behaves as one such store of a zeroed array. */
  lemma {:induction false} CreateClaimsOneSlot(env: Env, h: Heap, count: Word, roots: set<nat>) returns (mid: Heap)
    requires Bounded(h.slots) && Create(env, h, count, roots).Live?
    ensures count > 0
    ensures Stored(roots, h, Zeros(count), mid,
      Create(env, h, count, roots).value.0, Create(env, h, count, roots).value.1)
    ensures Bounded(Create(env, h, count, roots).value.0.slots)
    decreases Count(h.slots)
  {
    hide Store, IsRef, RefIndex;
    var h1 := h.(asks := h.asks + 1);
    if env.calloc(h.asks) {
      mid := StoreClaimsOneSlot(env, h1, Zeros(count), roots);
      EvolvesTrans(roots, h, h1, mid);
    } else {
      var (h2, freed) := Gc(env, h1, roots).value;
      GcEvolves(env, h1, roots);
      EvolvedIsBounded(roots, h1, h2);
      mid := CreateClaimsOneSlot(env, h2, count, roots);
      EvolvesTrans(roots, h, h2, mid);
    }
  }

  /** A row of slot requests, each with its own roots. */
  ghost function Ticks(env: Env, h: Heap, rows: seq<set<nat>>): Outcome<Heap>
    decreases |rows|
  {
    if rows == [] then Live(h)
    else
      var h1 :- Tick(env, h, rows[0]);
      Ticks(env, h1, rows[1..])
  }

  /** The counter makes every 101st request collect, not every 100th, and no other. */
  lemma {:induction false} TicksCollect(env: Env, h: Heap, rows: seq<set<nat>>)
    requires h.creations <= GC_PERIOD && Ticks(env, h, rows).Live?
    ensures var h' := Ticks(env, h, rows).value;
      h'.creations == (h.creations + |rows|) % (GC_PERIOD + 1) &&
      h'.collections == h.collections + (h.creations + |rows|) / (GC_PERIOD + 1)
    decreases |rows|
  {
    hide Tick;
    if rows != [] {
      TickCounts(env, h, rows[0]);
      TicksCollect(env, Tick(env, h, rows[0]).value, rows[1..]);
    }
  }

  lemma TickCounts(env: Env, h: Heap, roots: set<nat>)
    requires Tick(env, h, roots).Live?
    ensures var h1 := Tick(env, h, roots).value;
      if h.creations >= GC_PERIOD then h1.creations == 0 && h1.collections == h.collections + 1
      else h1.creations == h.creations + 1 && h1.collections == h.collections
  {
  }

  /** The allocator grants whatever is asked from here on. */
  ghost predicate Granted(env: Env, h: Heap) {
    forall n: nat :: n >= h.asks ==> env.calloc(n)
  }

  /**
   * The map the last search for a slot looks at, up to free slots at its end: collected if the counter
   * asks for it at the first search, or at the second, which follows when the map is full.
   */
  ghost function SlotsSearched(h: Heap, roots: set<nat>): seq<Slot> {
    if h.creations >= GC_PERIOD || (h.creations == GC_PERIOD - 1 && h.slots != [] && FirstFree(h.slots, 0) == |h.slots|)
    then Collect(h.slots, roots) else h.slots
  }

  lemma {:induction false} FirstFreeIs(slots: seq<Slot>, i: nat, f: nat)
    requires i <= f <= |slots| && (forall j :: i <= j < f ==> slots[j].Held?) && (f < |slots| ==> slots[f].Free?)
    ensures FirstFree(slots, i) == f
    decreases f - i
  {
    if i < f { FirstFreeIs(slots, i + 1, f); }
  }

  lemma FirstFreeExtended(slots: seq<Slot>, n: nat)
    requires n > 0
    ensures FirstFree(slots + Frees(n), 0) == FirstFree(slots, 0) < |slots + Frees(n)|
  {
    FirstFreeIs(slots + Frees(n), 0, FirstFree(slots, 0));
  }

  lemma InRangeExtended(slots: seq<Slot>, roots: set<nat>, n: nat)
    requires InRange(slots, roots)
    ensures InRange(slots + Frees(n), roots)
  {
    var longer := slots + seq(n, _ => Free);
    forall k: nat, j: nat | Scanned(longer, roots, k) && PointsTo(longer, k, j) ensures j < |longer| {
      Collector.ScannedExtended(slots, roots, n, k);
      assert PointsTo(slots, k, j);
    }
  }

  /** One search with everything granted. */
  lemma AddGranted(env: Env, h: Heap, words: seq<Word>, roots: set<nat>)
    requires Granted(env, h) && InRange(h.slots, roots)
    ensures var slots := if h.creations >= GC_PERIOD then Collect(h.slots, roots) else h.slots;
      var f := FirstFree(slots, 0);
      var r := Add(env, h, words, roots);
      r.Live? && r.value.0.asks >= h.asks &&
      r.value.0.creations == (if h.creations >= GC_PERIOD then 0 else h.creations + 1) &&
      |r.value.0.slots| == |slots| &&
      if f < |slots| then r.value.1 == Some(f) else r.value.1 == None && r.value.0.slots == slots
  {
    hide InRange, Collect, Count, Unmarked;
  }

  lemma ResizeGranted(env: Env, h: Heap, size: nat, roots: set<nat>)
    requires Granted(env, h) && |h.slots| <= size < TWO32 - 1
    ensures Resize(env, h, size, roots) == Live(h.(asks := h.asks + 2, slots := h.slots + Frees(size - |h.slots|)))
  {
    hide Gc;
  }

  /** The map starts with 64 slots, and doubles when the first search finds it full. */
  ghost function SizeAfter(h: Heap, roots: set<nat>): nat {
    if h.slots == [] then 64
    else
      var slots := if h.creations >= GC_PERIOD then Collect(h.slots, roots) else h.slots;
      if FirstFree(slots, 0) == |slots| then 2 * |slots| else |slots|
  }

  /** With everything granted, storing takes the least slot unclaimed in the map last searched. */
  lemma PlaceSucceeds(env: Env, h: Heap, words: seq<Word>, roots: set<nat>)
    requires Granted(env, h) && Bounded(h.slots) && InRange(h.slots, roots)
    ensures var r := Place(env, h, words, roots);
      r.Live? && r.value.1 == Some(FirstFree(SlotsSearched(h, roots), 0))
    ensures |Place(env, h, words, roots).value.0.slots| == SizeAfter(h, roots)
  {
    hide Resize, Add, InRange, Collect, Bounded;
    BoundedSize(h.slots);
    if h.slots == [] {
      ResizeGranted(env, h, FIRST_SIZE, roots);
      InRangeExtended([], roots, FIRST_SIZE);
      Collector.CollectExtended([], roots, FIRST_SIZE);
      assert [] + Frees(FIRST_SIZE) == Frees(FIRST_SIZE);
      assert Collect([], roots) == [];
      FirstFreeExtended([], FIRST_SIZE);
      AddGranted(env, Resize(env, h, FIRST_SIZE, roots).value, words, roots);
    } else {
      AddGranted(env, h, words, roots);
      var h1 := Add(env, h, words, roots).value.0;
      if Add(env, h, words, roots).value.1.None? {
        var n := |h1.slots|;
        Collector.CollectAgain(h.slots, roots);
        ResizeGranted(env, h1, 2 * n, roots);
        InRangeExtended(h1.slots, roots, n);
        Collector.CollectExtended(h1.slots, roots, n);
        FirstFreeExtended(h1.slots, n);
        FirstFreeExtended(Collect(h1.slots, roots), n);
        AddGranted(env, Resize(env, h1, 2 * n, roots).value, words, roots);
      }
    }
  }

  lemma BoundedSize(slots: seq<Slot>)
    requires Bounded(slots)
    ensures |slots| <= MAX_MAP
  {
  }

  /**
   * When `arr_create` succeeds: with a positive count, everything granted, and no stray references,
   * exactly if the least slot unclaimed in the map last searched, continued by free slots, is below
   * 2^20; and then its reference is that slot's.
   */
  lemma CreateSucceedsIff(env: Env, h: Heap, count: Word, roots: set<nat>)
    requires Granted(env, h) && Bounded(h.slots) && InRange(h.slots, roots)
    ensures var f := FirstFree(SlotsSearched(h, roots), 0);
      Create(env, h, count, roots).Live? <==> count > 0 && f < MAX_ARRAYS
    ensures Create(env, h, count, roots).Live? ==>
      Create(env, h, count, roots).value.1 == IndexRef(FirstFree(SlotsSearched(h, roots), 0)) &&
      |Create(env, h, count, roots).value.0.slots| == SizeAfter(h, roots)
  {
    hide Place, IsRef, IndexRef, RefIndex, SlotsSearched, SizeAfter, InRange;
    if count > 0 {
      var h1 := h.(asks := h.asks + 1);
      PlaceSucceeds(env, h1, Zeros(count), roots);
      var f := FirstFree(SlotsSearched(h, roots), 0);
      SearchedIsLow(h, roots);
      SearchIgnoresAsks(h, h1, roots);
      if f < MAX_ARRAYS { RefRoundTrip(f); } else { TagCheckIsPartial(); }
    }
  }

  lemma SearchIgnoresAsks(h: Heap, h1: Heap, roots: set<nat>)
    requires h1 == h.(asks := h1.asks)
    ensures SlotsSearched(h1, roots) == SlotsSearched(h, roots) && SizeAfter(h1, roots) == SizeAfter(h, roots)
  {
  }

  lemma SearchedIsLow(h: Heap, roots: set<nat>)
    requires Bounded(h.slots)
    ensures FirstFree(SlotsSearched(h, roots), 0) <= MAX_ARRAYS
  {
    hide Marked;
    LeastFreeIsLow(h.slots);
    LeastFreeIsLow(Collect(h.slots, roots));
  }
}
