/** What one collection keeps, compared with reachability from the stack (src/array.c:185-286). */
module Collector {
  import opened Words
  import opened References
  import opened Outcomes
  import opened Heaps

  /** A chain of claimed arrays from a root, each holding a reference to the next. */
  ghost predicate Chain(slots: seq<Slot>, roots: set<nat>, p: seq<nat>) {
    |p| > 0 && p[0] in roots && Claimed(slots, p[0]) &&
    forall i :: 0 < i < |p| ==> PointsTo(slots, p[i - 1], p[i]) && Claimed(slots, p[i])
  }

  ghost predicate Reachable(slots: seq<Slot>, roots: set<nat>, j: int) {
    exists p :: Chain(slots, roots, p) && p[|p| - 1] == j
  }

  lemma ReachableRoot(slots: seq<Slot>, roots: set<nat>, j: nat)
    requires j in roots && Claimed(slots, j)
    ensures Reachable(slots, roots, j)
  {
    assert Chain(slots, roots, [j]);
  }

  lemma ReachableNext(slots: seq<Slot>, roots: set<nat>, k: nat, j: nat)
    requires Reachable(slots, roots, k) && PointsTo(slots, k, j) && Claimed(slots, j)
    ensures Reachable(slots, roots, j)
  {
    var p :| Chain(slots, roots, p) && p[|p| - 1] == k;
    ChainMore(slots, roots, p, j);
  }

  /** The first `n` links of the chain lead to higher slots. */
  predicate Ascends(p: seq<nat>, n: int) {
    forall i :: 0 < i < |p| && i <= n ==> p[i - 1] < p[i]
  }

  /** A chain from a root climbs to `j` link by link. */
  ghost predicate Climbs(slots: seq<Slot>, roots: set<nat>, j: int) {
    exists p :: Chain(slots, roots, p) && Ascends(p, |p| - 1) && p[|p| - 1] == j
  }

  /** A chain from a root leads to `j`, climbing at every link but perhaps the last. */
  ghost predicate ClimbsNear(slots: seq<Slot>, roots: set<nat>, j: int) {
    exists p :: Chain(slots, roots, p) && Ascends(p, |p| - 2) && p[|p| - 1] == j
  }

  lemma ChainMore(slots: seq<Slot>, roots: set<nat>, p: seq<nat>, j: nat)
    requires Chain(slots, roots, p) && PointsTo(slots, p[|p| - 1], j) && Claimed(slots, j)
    ensures Chain(slots, roots, p + [j])
  {
    var q := p + [j];
    forall i | 0 < i < |q| ensures PointsTo(slots, q[i - 1], q[i]) && Claimed(slots, q[i]) {
      assert i < |p| ==> q[i] == p[i];
    }
  }

  lemma ChainLess(slots: seq<Slot>, roots: set<nat>, p: seq<nat>)
    requires Chain(slots, roots, p) && |p| > 1
    ensures Chain(slots, roots, p[..|p| - 1]) && PointsTo(slots, p[|p| - 2], p[|p| - 1]) && Claimed(slots, p[|p| - 1])
  {
    var q := p[..|p| - 1];
    forall i | 0 < i < |q| ensures PointsTo(slots, q[i - 1], q[i]) && Claimed(slots, q[i]) {
      assert q[i] == p[i] && q[i - 1] == p[i - 1];
    }
  }

  lemma {:induction false} ScannedClimbs(slots: seq<Slot>, roots: set<nat>, j: nat)
    requires Scanned(slots, roots, j)
    ensures Climbs(slots, roots, j)
  {
    if j in roots {
      assert Chain(slots, roots, [j]) && Ascends([j], 0);
    } else {
      var k: nat :| k < j && Scanned(slots, roots, k) && PointsTo(slots, k, j);
      ScannedClimbs(slots, roots, k);
      var p :| Chain(slots, roots, p) && Ascends(p, |p| - 1) && p[|p| - 1] == k;
      ChainMore(slots, roots, p, j);
      assert Ascends(p + [j], |p|);
    }
  }

  lemma {:induction false} ClimbIsScanned(slots: seq<Slot>, roots: set<nat>, p: seq<nat>)
    requires Chain(slots, roots, p) && Ascends(p, |p| - 1)
    ensures Scanned(slots, roots, p[|p| - 1])
  {
    if |p| > 1 {
      ChainLess(slots, roots, p);
      ClimbIsScanned(slots, roots, p[..|p| - 1]);
    }
  }

  /** The elements of an array are looked at exactly when references climb to it from the stack. */
  lemma ScannedIffClimbs(slots: seq<Slot>, roots: set<nat>, j: nat)
    ensures Scanned(slots, roots, j) <==> Climbs(slots, roots, j)
  {
    if Scanned(slots, roots, j) { ScannedClimbs(slots, roots, j); }
    if Climbs(slots, roots, j) {
      var p :| Chain(slots, roots, p) && Ascends(p, |p| - 1) && p[|p| - 1] == j;
      ClimbIsScanned(slots, roots, p);
    }
  }

  /**
   * What one collection marks, said of the graph alone: exactly the arrays that a chain of references
   * from the stack leads to, every link but perhaps the last going to a higher slot.
   */
  lemma MarkedIffClimbsNear(slots: seq<Slot>, roots: set<nat>, j: nat)
    ensures Marked(slots, roots, j) <==> ClimbsNear(slots, roots, j)
  {
    if Marked(slots, roots, j) {
      if j in roots {
        assert Chain(slots, roots, [j]) && Ascends([j], -1);
      } else {
        var k: nat :| k < |slots| && Scanned(slots, roots, k) && PointsTo(slots, k, j);
        ScannedClimbs(slots, roots, k);
        var p :| Chain(slots, roots, p) && Ascends(p, |p| - 1) && p[|p| - 1] == k;
        ChainMore(slots, roots, p, j);
        assert Ascends(p + [j], |p| - 1);
      }
    }
    if ClimbsNear(slots, roots, j) {
      var p :| Chain(slots, roots, p) && Ascends(p, |p| - 2) && p[|p| - 1] == j;
      if |p| > 1 {
        ChainLess(slots, roots, p);
        ClimbIsScanned(slots, roots, p[..|p| - 1]);
      }
    }
  }

  lemma ScannedIsMarked(slots: seq<Slot>, roots: set<nat>, j: nat)
    requires Scanned(slots, roots, j)
    ensures Marked(slots, roots, j)
  {
    if j !in roots {
      var k: nat :| k < j && Scanned(slots, roots, k) && PointsTo(slots, k, j);
    }
  }

  /** Whatever the heap graph, an array that survives was reachable: all garbage goes. */
  lemma SurvivorsAreReachable(slots: seq<Slot>, roots: set<nat>, j: nat)
    requires Claimed(Collect(slots, roots), j)
    ensures Reachable(slots, roots, j)
  {
    MarkedIffClimbsNear(slots, roots, j);
  }

  /**
   * The links a collection does not follow are harmless: where only a falling last link leads to an
   * array `k`, whatever `k` refers to is also led to by a chain that climbs but for its last link.
   */
  ghost predicate NothingBehindFallingLinks(slots: seq<Slot>, roots: set<nat>) {
    forall k: nat, j: nat ::
      ClimbsNear(slots, roots, k) && !Climbs(slots, roots, k) && PointsTo(slots, k, j) && Claimed(slots, j)
      ==> ClimbsNear(slots, roots, j)
  }

  lemma {:induction false} ClimbsCoverChain(slots: seq<Slot>, roots: set<nat>, from: set<nat>, p: seq<nat>)
    requires NothingBehindFallingLinks(slots, roots)
    requires Chain(slots, from, p)
    requires forall r :: r in from && Claimed(slots, r) ==> ClimbsNear(slots, roots, r)
    ensures ClimbsNear(slots, roots, p[|p| - 1])
  {
    if |p| > 1 {
      var q := p[..|p| - 1];
      var k, j := q[|q| - 1], p[|p| - 1];
      ChainLess(slots, from, p);
      ClimbsCoverChain(slots, roots, from, q);
      if Climbs(slots, roots, k) {
        var c :| Chain(slots, roots, c) && Ascends(c, |c| - 1) && c[|c| - 1] == k;
        ChainMore(slots, roots, c, j);
        assert Ascends(c + [j], |c| - 1);
      }
    }
  }

  /**
   * A collection keeps every array reachable from the words `below` and the word `top` of the stack
   * exactly when two things hold of the graph: nothing lies behind falling links, and an array that
   * only `top` names, which is not looked at, has a chain that climbs but for its last link.
   */
  lemma CollectionIsSafeIff(slots: seq<Slot>, below: seq<Word>, top: Word)
    ensures (forall j: nat :: Reachable(slots, RootsOf(below + [top]), j)
                              ==> Claimed(Collect(slots, RootsOf(below)), j))
      <==> NothingBehindFallingLinks(slots, RootsOf(below)) &&
           (IsRef(top) && Claimed(slots, RefIndex(top)) ==> ClimbsNear(slots, RootsOf(below), RefIndex(top)))
  {
    hide Marked, IsRef, RefIndex;
    var roots, all := RootsOf(below), RootsOf(below + [top]);
    RootsSplit(below, top);
    var safe := forall j: nat :: Reachable(slots, all, j) ==> Claimed(Collect(slots, roots), j);
    if safe {
      forall k: nat, j: nat |
        ClimbsNear(slots, roots, k) && !Climbs(slots, roots, k) && PointsTo(slots, k, j) && Claimed(slots, j)
        ensures ClimbsNear(slots, roots, j)
      {
        ReachableMore(slots, roots, all, k);
        ReachableNext(slots, all, k, j);
        MarkedIffClimbsNear(slots, roots, j);
      }
      if IsRef(top) && Claimed(slots, RefIndex(top)) {
        ReachableRoot(slots, all, RefIndex(top));
        MarkedIffClimbsNear(slots, roots, RefIndex(top));
      }
    } else {
      var j: nat :| Reachable(slots, all, j) && !Claimed(Collect(slots, roots), j);
      var p :| Chain(slots, all, p) && p[|p| - 1] == j;
      MarkedIffClimbsNear(slots, roots, j);
      KeptIffMarked(slots, roots, j);
      if NothingBehindFallingLinks(slots, roots) &&
         (IsRef(top) && Claimed(slots, RefIndex(top)) ==> ClimbsNear(slots, roots, RefIndex(top)))
      {
        forall r | r in all && Claimed(slots, r) ensures ClimbsNear(slots, roots, r) {
          if r in roots { assert Chain(slots, roots, [r]) && Ascends([r], -1); }
        }
        ClimbsCoverChain(slots, roots, all, p);
        assert false;
      }
    }
  }

  lemma KeptIffMarked(slots: seq<Slot>, roots: set<nat>, j: nat)
    ensures Claimed(Collect(slots, roots), j) <==> Marked(slots, roots, j)
  {
  }

  lemma RootsSplit(below: seq<Word>, top: Word)
    ensures RootsOf(below + [top]) == RootsOf(below) + if IsRef(top) then {RefIndex(top)} else {}
  {
    var all := below + [top];
    forall r | r in RootsOf(below) ensures r in RootsOf(all) {
      var e :| 0 <= e < |below| && IsRef(below[e]) && RefIndex(below[e]) == r;
      assert all[e] == below[e];
    }
    assert all[|below|] == top;
    forall r | r in RootsOf(all) ensures r in RootsOf(below) + if IsRef(top) then {RefIndex(top)} else {} {
      var e :| 0 <= e < |all| && IsRef(all[e]) && RefIndex(all[e]) == r;
      if e < |below| { assert all[e] == below[e]; }
    }
  }

  lemma ReachableMore(slots: seq<Slot>, some: set<nat>, more: set<nat>, j: nat)
    requires some <= more && Reachable(slots, some, j)
    ensures Reachable(slots, more, j)
  {
    var p :| Chain(slots, some, p) && p[|p| - 1] == j;
    assert Chain(slots, more, p);
  }

  /** When references never point downwards, the survivors are exactly the reachable arrays. */
  lemma AscendingHeapIsExact(slots: seq<Slot>, roots: set<nat>, j: nat)
    requires forall a: nat, b: nat :: PointsTo(slots, a, b) && Claimed(slots, b) ==> a <= b
    ensures Claimed(Collect(slots, roots), j) <==> Reachable(slots, roots, j)
  {
    if Claimed(Collect(slots, roots), j) {
      SurvivorsAreReachable(slots, roots, j);
    }
    if Reachable(slots, roots, j) {
      var p :| Chain(slots, roots, p) && p[|p| - 1] == j;
      ChainIsScanned(slots, roots, p);
      ScannedIsMarked(slots, roots, j);
    }
  }

  lemma {:induction false} ChainIsScanned(slots: seq<Slot>, roots: set<nat>, p: seq<nat>)
    requires forall a: nat, b: nat :: PointsTo(slots, a, b) && Claimed(slots, b) ==> a <= b
    requires Chain(slots, roots, p)
    ensures Scanned(slots, roots, p[|p| - 1])
  {
    if |p| > 1 {
      ChainLess(slots, roots, p);
      ChainIsScanned(slots, roots, p[..|p| - 1]);
    }
  }

  /** Documented reachability fails: of 2 -> 1 -> 0 with root 2, array 0 is freed although array 1 stays. */
  lemma DescendingChainIsCut()
    ensures var slots := [Held([0]), Held([IndexRef(0)]), Held([IndexRef(1)])];
      Reachable(slots, {2}, 0) && Claimed(Collect(slots, {2}), 1) && !Claimed(Collect(slots, {2}), 0)
  {
    RefRoundTrip(0);
    RefRoundTrip(1);
    hide IsRef, RefIndex, IndexRef;
    var slots := [Held([0]), Held([IndexRef(0)]), Held([IndexRef(1)])];
    assert RefTo(slots[2].words[0], 1) && RefTo(slots[1].words[0], 0);
    assert PointsTo(slots, 2, 1) && PointsTo(slots, 1, 0);
    assert Chain(slots, {2}, [2, 1, 0]);
    assert Scanned(slots, {2}, 2);
    assert !Scanned(slots, {2}, 0);
    assert !PointsTo(slots, 0, 1) by { PlainZero(); }
    assert !Scanned(slots, {2}, 1);
    assert !PointsTo(slots, 2, 0) by { assert !RefTo(slots[2].words[0], 0); }
    assert !PointsTo(slots, 0, 0) by { PlainZero(); }
  }

  /**
   * A number that merely looks like a reference is not harmless, as documented: if it lies on the
   * stack and names a slot beyond the map, no collection ends live.
   */
  lemma StrayReferenceEndsRun(env: Env, h: Heap, below: seq<Word>, e: nat)
    requires e < |below| && IsRef(below[e]) && RefIndex(below[e]) >= |h.slots|
    ensures Gc(env, h, RootsOf(below)) == Destroyed
  {
    assert RefIndex(below[e]) in RootsOf(below);
  }

  /** The reference-shaped words of `words` all name slots of the map. */
  ghost predicate NamesInMap(slots: seq<Slot>, words: seq<Word>) {
    forall e :: 0 <= e < |words| && IsRef(words[e]) ==> RefIndex(words[e]) < |slots|
  }

  /**
   * When a collection ends live: exactly if its bitmap is granted, and no word below the top of the stack
   * and no element of an array that references climb to looks like a reference beyond the map.
   */
  lemma CollectionLiveIff(env: Env, h: Heap, below: seq<Word>)
    ensures Gc(env, h, RootsOf(below)).Live? <==>
      env.calloc(h.asks) && NamesInMap(h.slots, below) &&
      forall k: nat :: Climbs(h.slots, RootsOf(below), k) ==> NamesInMap(h.slots, h.slots[k].words)
  {
    hide IsRef, RefIndex, Climbs;
    var slots, roots := h.slots, RootsOf(below);
    forall k: nat ensures Scanned(slots, roots, k) <==> Climbs(slots, roots, k) { ScannedIffClimbs(slots, roots, k); }
    forall e | 0 <= e < |below| && IsRef(below[e]) ensures RefIndex(below[e]) in roots {}
    forall k: nat | Claimed(slots, k)
      ensures (forall j: nat :: PointsTo(slots, k, j) ==> j < |slots|) <==> NamesInMap(slots, slots[k].words)
    {
      PointsInMap(slots, k);
    }
  }

  lemma PointsInMap(slots: seq<Slot>, k: nat)
    requires Claimed(slots, k)
    ensures (forall j: nat :: PointsTo(slots, k, j) ==> j < |slots|) <==> NamesInMap(slots, slots[k].words)
  {
    hide IsRef, RefIndex;
    forall e | 0 <= e < |slots[k].words| && IsRef(slots[k].words[e])
      ensures PointsTo(slots, k, RefIndex(slots[k].words[e]))
    {
      assert RefTo(slots[k].words[e], RefIndex(slots[k].words[e]));
    }
  }

  lemma PlainZero()
    ensures !IsRef(0)
  {
  }

  /** Collecting again with the same stack changes nothing. */
  lemma {:induction false} ScannedAgain(slots: seq<Slot>, roots: set<nat>, j: nat)
    ensures Scanned(Collect(slots, roots), roots, j) <==> Scanned(slots, roots, j)
  {
    var after := Collect(slots, roots);
    forall k: nat | k < j
      ensures Scanned(after, roots, k) && PointsTo(after, k, j) <==> Scanned(slots, roots, k) && PointsTo(slots, k, j)
    {
      ScannedAgain(slots, roots, k);
      if Scanned(slots, roots, k) { ScannedIsMarked(slots, roots, k); }
    }
    if Scanned(slots, roots, j) { ScannedIsMarked(slots, roots, j); }
  }

  lemma CollectAgain(slots: seq<Slot>, roots: set<nat>)
    ensures InRange(slots, roots) ==> InRange(Collect(slots, roots), roots)
    ensures Collect(Collect(slots, roots), roots) == Collect(slots, roots)
  {
    var after := Collect(slots, roots);
    forall k: nat ensures Scanned(after, roots, k) <==> Scanned(slots, roots, k) {
      ScannedAgain(slots, roots, k);
    }
    forall k: nat, j: nat | Scanned(slots, roots, k)
      ensures PointsTo(after, k, j) <==> PointsTo(slots, k, j)
    {
      ScannedIsMarked(slots, roots, k);
    }
    forall j: nat | Marked(slots, roots, j) ensures Marked(after, roots, j) {
      if j !in roots {
        var k: nat :| k < |slots| && Scanned(slots, roots, k) && PointsTo(slots, k, j);
        assert Scanned(after, roots, k) && PointsTo(after, k, j);
      }
    }
    assert Collect(after, roots) == after;
  }

  /** Free slots added at the end change nothing for a collection. */
  lemma {:induction false} ScannedExtended(slots: seq<Slot>, roots: set<nat>, n: nat, j: nat)
    ensures Scanned(slots + seq(n, _ => Free), roots, j) <==> Scanned(slots, roots, j)
  {
    var longer := slots + seq(n, _ => Free);
    forall k: nat | k < j
      ensures Scanned(longer, roots, k) && PointsTo(longer, k, j) <==> Scanned(slots, roots, k) && PointsTo(slots, k, j)
    {
      ScannedExtended(slots, roots, n, k);
    }
  }

  lemma CollectExtended(slots: seq<Slot>, roots: set<nat>, n: nat)
    ensures Collect(slots + seq(n, _ => Free), roots) == Collect(slots, roots) + seq(n, _ => Free)
  {
    var longer := slots + seq(n, _ => Free);
    forall k: nat ensures Scanned(longer, roots, k) <==> Scanned(slots, roots, k) {
      ScannedExtended(slots, roots, n, k);
    }
    forall j | 0 <= j < |slots| ensures Marked(longer, roots, j) <==> Marked(slots, roots, j) {
      assert forall k: nat :: PointsTo(longer, k, j) <==> PointsTo(slots, k, j);
      if Marked(longer, roots, j) && j !in roots {
        var k: nat :| k < |longer| && Scanned(longer, roots, k) && PointsTo(longer, k, j);
        assert k < |slots| && Scanned(slots, roots, k);
      }
      if Marked(slots, roots, j) && j !in roots {
        var k: nat :| k < |slots| && Scanned(slots, roots, k) && PointsTo(slots, k, j);
        assert k < |longer| && Scanned(longer, roots, k);
      }
    }
    assert Collect(longer, roots) == Collect(slots, roots) + seq(n, _ => Free);
  }

  /** A collection right after a collection frees nothing, whatever the allocator says to it. */
  lemma SecondCollectionFreesNothing(env: Env, h: Heap, h1: Heap, roots: set<nat>)
    requires Gc(env, h, roots).Live? && Gc(env, h, roots).value.0.slots == h1.slots
    ensures Gc(env, h1, roots) == if env.calloc(h1.asks)
      then Live((h1.(asks := h1.asks + 1, collections := h1.collections + 1), 0)) else Destroyed
  {
    CollectAgain(h.slots, roots);
  }

  /** The retry in `arr_create` happens at most once. */
  lemma CreateRetriesOnce(env: Env, h: Heap, count: Word, roots: set<nat>)
    requires count > 0 && !env.calloc(h.asks)
    ensures Create(env, h, count, roots) ==
      match Gc(env, h.(asks := h.asks + 1), roots)
      case Live((h1, freed)) =>
        if freed != 0 && env.calloc(h1.asks)
        then Store(env, h1.(asks := h1.asks + 1), Zeros(count), roots) else Destroyed
      case _ => Destroyed
  {
    hide Store;
    var h0 := h.(asks := h.asks + 1);
    if Gc(env, h0, roots).Live? {
      var (h1, freed) := Gc(env, h0, roots).value;
      if freed != 0 && !env.calloc(h1.asks) {
        SecondCollectionFreesNothing(env, h0, h1.(asks := h1.asks + 1), roots);
      }
    }
  }

  /** So does the one in `marr_resize`. */
  lemma ResizeRetriesOnce(env: Env, h: Heap, size: nat, roots: set<nat>)
    requires |h.slots| <= size < TWO32 - 1 && !(env.calloc(h.asks) && env.calloc(h.asks + 1))
    ensures Resize(env, h, size, roots) ==
      match Gc(env, h.(asks := h.asks + 2), roots)
      case Live((h1, freed)) =>
        if freed != 0 && env.calloc(h1.asks) && env.calloc(h1.asks + 1)
        then Live(h1.(asks := h1.asks + 2, slots := h1.slots + seq(size - |h1.slots|, _ => Free))) else Destroyed
      case _ => Destroyed
  {
    hide InRange, Marked, Count;
    var h0 := h.(asks := h.asks + 2);
    if Gc(env, h0, roots).Live? {
      var (h1, freed) := Gc(env, h0, roots).value;
      if freed != 0 && !(env.calloc(h1.asks) && env.calloc(h1.asks + 1)) {
        SecondCollectionFreesNothing(env, h0, h1.(asks := h1.asks + 2), roots);
      }
    }
  }
}
