/**
 * The array heap as a value: a map from slot number to array contents, and what every operation of
 * src/marr.c and src/array.c does to it. Roots are slot numbers found in reference-shaped words.
 */
module Heaps {
  import opened Words
  import opened References
  import opened Outcomes

  const FIRST_SIZE: nat := 64
  const GC_PERIOD: nat := 100

  /** What the C library answers, fixed in advance: allocation number, new stack size, fresh stack word. */
  datatype Env = Env(calloc: nat -> bool, grow: nat -> bool, junk: nat -> Word)

  datatype Slot = Free | Held(words: seq<Word>)

  /**
   * `creations` is the shared counter of src/marr.c; `asks` and `collections` only count, so that an
   * answer of the allocator and a collection can be named.
   */
  datatype Heap = Heap(slots: seq<Slot>, creations: nat, asks: nat, collections: nat)

  predicate Claimed(slots: seq<Slot>, j: int) {
    0 <= j < |slots| && slots[j].Held?
  }

  predicate RefTo(w: Word, j: int) {
    IsRef(w) && RefIndex(w) == j
  }

  ghost predicate PointsTo(slots: seq<Slot>, k: int, j: int) {
    Claimed(slots, k) && exists e :: 0 <= e < |slots[k].words| && RefTo(slots[k].words[e], j)
  }

  /** The slots named by reference-shaped words of `words`. */
  ghost function RootsOf(words: seq<Word>): set<nat> {
    set e | 0 <= e < |words| && IsRef(words[e]) :: RefIndex(words[e])
  }

  /** Arrays whose elements the one ascending marking pass looks at. */
  ghost predicate Scanned(slots: seq<Slot>, roots: set<nat>, j: nat) {
    Claimed(slots, j) &&
    (j in roots || exists k: nat :: k < j && Scanned(slots, roots, k) && PointsTo(slots, k, j))
  }

  ghost predicate MarkedBelow(slots: seq<Slot>, roots: set<nat>, n: nat, j: int) {
    Claimed(slots, j) &&
    (j in roots || exists k: nat :: k < n && Scanned(slots, roots, k) && PointsTo(slots, k, j))
  }

  ghost predicate Marked(slots: seq<Slot>, roots: set<nat>, j: int) {
    MarkedBelow(slots, roots, |slots|, j)
  }

  /** Every reference-shaped word that the marking looks at names a slot of the map. */
  ghost predicate InRangeBelow(slots: seq<Slot>, roots: set<nat>, n: nat) {
    (forall r :: r in roots ==> r < |slots|) &&
    (forall k: nat, j: nat :: k < n && Scanned(slots, roots, k) && PointsTo(slots, k, j) ==> j < |slots|)
  }

  ghost predicate InRange(slots: seq<Slot>, roots: set<nat>) {
    InRangeBelow(slots, roots, |slots|)
  }

  function Count(slots: seq<Slot>): nat {
    if slots == [] then 0
    else Count(slots[..|slots| - 1]) + if slots[|slots| - 1].Held? then 1 else 0
  }

  ghost function Collect(slots: seq<Slot>, roots: set<nat>): (after: seq<Slot>)
    ensures |after| == |slots|
    ensures forall j :: 0 <= j < |slots| ==> after[j] == if Marked(slots, roots, j) then slots[j] else Free
  {
    seq(|slots|, j requires 0 <= j < |slots| => if Marked(slots, roots, j) then slots[j] else Free)
  }

  /** How many of the first `n` slots hold an array that is not marked. */
  ghost function Unmarked(slots: seq<Slot>, roots: set<nat>, n: nat): nat
    requires n <= |slots|
  {
    if n == 0 then 0
    else Unmarked(slots, roots, n - 1) + if slots[n - 1].Held? && !Marked(slots, roots, n - 1) then 1 else 0
  }

  /** Every array is either kept or among the unmarked. */
  lemma {:induction false} KeptAndUnmarked(slots: seq<Slot>, roots: set<nat>, n: nat)
    requires n <= |slots|
    ensures Count(slots[..n]) == Count(Collect(slots, roots)[..n]) + Unmarked(slots, roots, n)
  {
    hide Marked;
    if n > 0 {
      KeptAndUnmarked(slots, roots, n - 1);
      var after := Collect(slots, roots);
      assert slots[..n][..n - 1] == slots[..n - 1] && after[..n][..n - 1] == after[..n - 1];
    }
  }

  lemma CollectionConserves(slots: seq<Slot>, roots: set<nat>)
    ensures Count(slots) == Count(Collect(slots, roots)) + Unmarked(slots, roots, |slots|)
  {
    hide Count, Unmarked, Marked;
    KeptAndUnmarked(slots, roots, |slots|);
    var after := Collect(slots, roots);
    assert slots[..|slots|] == slots && after[..|slots|] == after;
  }

  /** `arr_gc`: the marking bitmap is allocated, then everything unmarked is freed and counted. */
  ghost function Gc(env: Env, h: Heap, roots: set<nat>): (r: Outcome<(Heap, nat)>)
    ensures r.Live? || r == Destroyed
    ensures r.Live? ==> Count(h.slots) == Count(r.value.0.slots) + r.value.1
  {
    if env.calloc(h.asks) && InRange(h.slots, roots) then
      CollectionConserves(h.slots, roots);
      Live((Heap(Collect(h.slots, roots), h.creations, h.asks + 1, h.collections + 1),
            Unmarked(h.slots, roots, |h.slots|)))
    else Destroyed
  }

  /** The least free slot at or above `i`, or the map size. */
  function FirstFree(slots: seq<Slot>, i: nat): (f: nat)
    requires i <= |slots|
    ensures i <= f <= |slots|
    ensures forall j :: i <= j < f ==> slots[j].Held?
    ensures f < |slots| ==> slots[f].Free?
    decreases |slots| - i
  {
    if i < |slots| && slots[i].Held? then FirstFree(slots, i + 1) else i
  }

  /** The counter at the head of `get_free_index`: every 101st request collects first. */
  ghost function Tick(env: Env, h: Heap, roots: set<nat>): (r: Outcome<Heap>)
    ensures r.Live? || r == Destroyed
  {
    if h.creations >= GC_PERIOD then
      var (h1, freed) :- Gc(env, h.(creations := 0), roots);
      Live(h1)
    else Live(h.(creations := h.creations + 1))
  }

  /** `marr_add_element`; `None` stands for SIZE_MAX_UINT32_T. */
  ghost function Add(env: Env, h: Heap, words: seq<Word>, roots: set<nat>): (r: Outcome<(Heap, Option<nat>)>)
    ensures r.Live? || r == Destroyed
  {
    var h1 :- Tick(env, h, roots);
    var f := FirstFree(h1.slots, 0);
    if f == |h1.slots| then Live((h1, None))
    else Live((h1.(slots := h1.slots[f := Held(words)]), Some(f)))
  }

  /** `marr_resize`: map and values are both allocated anew; if either fails, collect and try again. */
  ghost function Resize(env: Env, h: Heap, size: nat, roots: set<nat>): (r: Outcome<Heap>)
    ensures r.Live? || r == Destroyed
    decreases Count(h.slots)
  {
    if size < |h.slots| || size >= TWO32 - 1 then Destroyed
    else
      var h1 := h.(asks := h.asks + 2);
      if env.calloc(h.asks) && env.calloc(h.asks + 1) then
        Live(h1.(slots := h.slots + seq(size - |h.slots|, _ => Free)))
      else
        var (h2, freed) :- Gc(env, h1, roots);
        if freed != 0 then Resize(env, h2, size, roots) else Destroyed
  }

  /** The slot `arr_store` takes, doubling a full map and searching once more. */
  ghost function Place(env: Env, h: Heap, words: seq<Word>, roots: set<nat>): (r: Outcome<(Heap, Option<nat>)>)
    ensures r.Live? || r == Destroyed
  {
    var h0 :- if h.slots == [] then Resize(env, h, FIRST_SIZE, roots) else Live(h);
    var (h1, first) :- Add(env, h0, words, roots);
    if first.Some? then Live((h1, first))
    else
      var bigger :- Resize(env, h1, 2 * |h1.slots|, roots);
      Add(env, bigger, words, roots)
  }

  /** `arr_store`: the reference of the slot that took the array, if it still carries the tag. */
  ghost function Store(env: Env, h: Heap, words: seq<Word>, roots: set<nat>): (r: Outcome<(Heap, Word)>)
    ensures r.Live? || r == Destroyed
  {
    var (h1, slot) :- Place(env, h, words, roots);
    var index := if slot.Some? then slot.value % TWO32 else TWO32 - 1;
    if IsRef(IndexRef(index)) then Live((h1, IndexRef(index))) else Destroyed
  }

  function Zeros(n: nat): (s: seq<Word>)
    ensures |s| == n && forall i :: 0 <= i < n ==> s[i] == 0
  {
    seq(n, _ => 0)
  }

  /** `arr_create`. */
  ghost function Create(env: Env, h: Heap, count: Word, roots: set<nat>): (r: Outcome<(Heap, Word)>)
    ensures r.Live? || r == Destroyed
    decreases Count(h.slots)
  {
    if count <= 0 then Destroyed
    else
      var h1 := h.(asks := h.asks + 1);
      if env.calloc(h.asks) then Store(env, h1, Zeros(count), roots)
      else
        var (h2, freed) :- Gc(env, h1, roots);
        if freed != 0 then Create(env, h2, count, roots) else Destroyed
  }

  /** `arr_check_bounds`. */
  predicate Accessible(h: Heap, ref: Word, i: Word) {
    IsRef(ref) && Claimed(h.slots, RefIndex(ref)) &&
    1 <= Wrap(i + 1) <= |h.slots[RefIndex(ref)].words|
  }

  function Get(h: Heap, ref: Word, i: Word): (r: Outcome<Word>)
    ensures r.Live? || r == Destroyed
  {
    if Accessible(h, ref, i) then Live(h.slots[RefIndex(ref)].words[i]) else Destroyed
  }

  function Set(h: Heap, ref: Word, i: Word, val: Word): (r: Outcome<Heap>)
    ensures r.Live? || r == Destroyed
  {
    if Accessible(h, ref, i) then
      var j := RefIndex(ref);
      Live(h.(slots := h.slots[j := Held(h.slots[j].words[i := val])]))
    else Destroyed
  }
}
