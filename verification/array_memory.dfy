/** Array memory in place: the mapped array of src/marr.c and the arrays and collector of src/array.c. */
module ArrayMemories {
  import opened Words
  import opened References
  import opened Outcomes
  import opened Heaps
  import Collector

  /** The slots named by the words below the top of the stack. */
  ghost function StackRoots(stack: array<Word>, sp: int): set<nat>
    reads stack
  {
    RootsOf(if 0 <= sp <= stack.Length then stack[..sp] else [])
  }

  class ArrayMemory {
    const env: Env
    var claimed: array<bool>
    /** An array is a block of words whose word 0 holds the number of elements after it. */
    var values: array<array?<Word>>
    var marked: array<bool>
    var creations: nat
    var asks: nat

    ghost var slots: seq<Slot>
    ghost var collections: nat
    ghost var Repr: set<object>

    ghost predicate MapIs(slots: seq<Slot>)
      reads this, claimed
    {
      claimed.Length == |slots| && forall i :: 0 <= i < |slots| ==> claimed[i] == slots[i].Held?
    }

    ghost predicate BlockIs(block: array?<Word>, slot: Slot)
      reads block
    {
      match slot
      case Free => block == null
      case Held(words) =>
        block != null && 0 < |words| < 0x8000_0000 && block.Length == |words| + 1 &&
        block[0] == |words| && block[1..] == words
    }

    ghost predicate Valid()
      reads this, Repr
    {
      this in Repr && claimed in Repr && values in Repr && values.Length == |slots| && MapIs(slots) &&
      (forall i :: 0 <= i < |slots| ==>
        (values[i] != null ==> values[i] in Repr) && BlockIs(values[i], slots[i])) &&
      (forall i, j :: 0 <= i < j < |slots| && values[i] != null ==> values[i] != values[j])
    }

    ghost function State(): Heap
      reads this
    {
      Heap(slots, creations, asks, collections)
    }

    constructor (env: Env)
      ensures Valid() && fresh(Repr) && this.env == env && State() == Heap([], 0, 0, 0)
    {
      this.env := env;
      claimed := new bool[0];
      values := new array?<Word>[0];
      marked := new bool[0];
      creations, asks, slots, collections := 0, 0, [], 0;
      new;
      Repr := {this, claimed, values};
    }

    /** One answer of the C allocator. */
    method Calloc() returns (ok: bool)
      modifies this`asks
      ensures ok == env.calloc(old(asks)) && asks == old(asks) + 1
    {
      ok := env.calloc(asks);
      asks := asks + 1;
    }

    /** First half of `mark_arrays`: claimed arrays named on the stack. */
    method MarkRoots(stack: array<Word>, sp: int) returns (r: Outcome<()>)
      requires MapIs(slots) && marked != claimed && marked.Length == claimed.Length && sp <= stack.Length
      requires forall j :: 0 <= j < marked.Length ==> !marked[j]
      modifies marked
      ensures r.Live? <==> forall i :: i in StackRoots(stack, sp) ==> i < |slots|
      ensures r.Live? || r == Destroyed
      ensures r.Live? ==> forall j :: 0 <= j < |slots| ==> marked[j] == MarkedBelow(slots, StackRoots(stack, sp), 0, j)
    {
      hide IsRef, RefIndex;
      var i := 0;
      while i < sp
        invariant 0 <= i <= stack.Length && (i <= sp || i == 0) && MapIs(slots)
        invariant forall k :: k in RootsOf(stack[..i]) ==> k < |slots|
        invariant forall j :: 0 <= j < |slots| ==> marked[j] == (claimed[j] && j in RootsOf(stack[..i]))
        decreases sp - i
      {
        assert stack[..i + 1] == stack[..i] + [stack[i]];
        Collector.RootsSplit(stack[..i], stack[i]);
        if IsRef(stack[i]) {
          var j := RefIndex(stack[i]);
          if j >= claimed.Length {
            assert stack[..sp][i] == stack[i];
            assert j in StackRoots(stack, sp);
            return Destroyed;
          }
          if claimed[j] {
            marked[j] := true;
          }
        }
        i := i + 1;
      }
      r := Live(());
    }

    /** The inner loop of `mark_arrays`: arrays named by the elements of array `n`. */
    method ScanElements(n: nat, block: array<Word>, ghost words: seq<Word>) returns (r: Outcome<()>)
      requires MapIs(slots) && marked != claimed && marked.Length == claimed.Length
      requires n < |slots| && slots[n] == Held(words) && BlockIs(block, slots[n]) && marked[n]
      modifies marked
      ensures r.Live? <==> forall e :: 0 <= e < |words| && IsRef(words[e]) ==> RefIndex(words[e]) < |slots|
      ensures r.Live? || r == Destroyed
      ensures r.Live? ==> forall j :: 0 <= j < |slots| ==>
        marked[j] == (old(marked[j]) || (Claimed(slots, j) && PointsTo(slots, n, j)))
    {
      hide IsRef, RefIndex;
      var size := block[0];
      var i := 1;
      while i <= size
        invariant 1 <= i <= |words| + 1 && MapIs(slots)
        invariant forall e :: 0 <= e < i - 1 && IsRef(words[e]) ==> RefIndex(words[e]) < |slots|
        invariant forall j :: 0 <= j < |slots| ==>
          marked[j] == (old(marked[j]) || (Claimed(slots, j) && exists e :: 0 <= e < i - 1 && RefTo(words[e], j)))
      {
        assert block[i] == block[1..][i - 1] == words[i - 1];
        if IsRef(block[i]) {
          var j := RefIndex(block[i]);
          if j != n {
            if j >= claimed.Length {
              return Destroyed;
            }
            if claimed[j] {
              marked[j] := true;
              assert RefTo(words[i - 1], j);
            }
          }
        }
        i := i + 1;
      }
      r := Live(());
    }

    /** `mark_arrays`: live exactly when no reference-shaped word names a slot beyond the map. */
    method MarkArrays(stack: array<Word>, sp: int) returns (r: Outcome<()>)
      requires Valid() && marked != claimed && marked !in Repr && marked.Length == claimed.Length && sp <= stack.Length
      requires forall j :: 0 <= j < marked.Length ==> !marked[j]
      modifies marked
      ensures r.Live? <==> InRange(slots, StackRoots(stack, sp))
      ensures r.Live? || r == Destroyed
      ensures r.Live? ==> forall j :: 0 <= j < |slots| ==> marked[j] == Marked(slots, StackRoots(stack, sp), j)
    {
      hide Scanned, PointsTo, RootsOf, BlockIs, StackRoots;
      ghost var roots := StackRoots(stack, sp);
      var _ :- MarkRoots(stack, sp);
      var n := 0;
      while n < claimed.Length
        invariant 0 <= n <= |slots| && Valid() && roots == StackRoots(stack, sp)
        invariant InRangeBelow(slots, roots, n)
        invariant forall j :: 0 <= j < |slots| ==> marked[j] == MarkedBelow(slots, roots, n, j)
      {
        MarkedIsScanned(slots, roots, n);
        if marked[n] {
          HeldBlock(values[n], slots[n]);
          r := ScanElements(n, values[n], slots[n].words);
          ElementsInRange(slots, n);
          if !r.Live? {
            return;
          }
          MarkMore(slots, roots, n);
        } else {
          MarkSkips(slots, roots, n);
        }
        n := n + 1;
      }
      r := Live(());
    }

    lemma HeldBlock(block: array?<Word>, slot: Slot)
      requires slot.Held? && BlockIs(block, slot)
      ensures block != null
    {
    }

    lemma MarkedIsScanned(slots: seq<Slot>, roots: set<nat>, n: nat)
      ensures MarkedBelow(slots, roots, n, n) == Scanned(slots, roots, n)
    {
    }

    lemma MarkMore(slots: seq<Slot>, roots: set<nat>, n: nat)
      requires Scanned(slots, roots, n)
      ensures forall j :: 0 <= j < |slots| ==>
        MarkedBelow(slots, roots, n + 1, j) == (MarkedBelow(slots, roots, n, j) || (Claimed(slots, j) && PointsTo(slots, n, j)))
      ensures InRangeBelow(slots, roots, n + 1) ==
        (InRangeBelow(slots, roots, n) && forall j: nat :: PointsTo(slots, n, j) ==> j < |slots|)
    {
      hide Scanned, PointsTo;
    }

    lemma MarkSkips(slots: seq<Slot>, roots: set<nat>, n: nat)
      requires !Scanned(slots, roots, n)
      ensures forall j :: MarkedBelow(slots, roots, n + 1, j) == MarkedBelow(slots, roots, n, j)
      ensures InRangeBelow(slots, roots, n + 1) == InRangeBelow(slots, roots, n)
    {
      hide Scanned, PointsTo;
    }

    lemma ElementsInRange(slots: seq<Slot>, n: nat)
      requires Claimed(slots, n)
      ensures (forall e :: 0 <= e < |slots[n].words| && IsRef(slots[n].words[e]) ==> RefIndex(slots[n].words[e]) < |slots|)
        <==> forall j: nat :: PointsTo(slots, n, j) ==> j < |slots|
    {
      hide IsRef, RefIndex;
      forall e | 0 <= e < |slots[n].words| && IsRef(slots[n].words[e])
        ensures PointsTo(slots, n, RefIndex(slots[n].words[e]))
      {
        assert RefTo(slots[n].words[e], RefIndex(slots[n].words[e]));
      }
    }

    /** `arr_remove`. */
    method Remove(i: nat)
      requires Valid() && i < |slots|
      modifies this`slots, claimed, values
      ensures Valid() && slots == old(slots)[i := Free]
    {
      values[i] := null;
      claimed[i] := false;
      slots := slots[i := Free];
    }

    /** `sweep_arrays`: everything unmarked is freed and counted. */
    method SweepArrays(ghost roots: set<nat>) returns (freed: nat)
      requires Valid() && marked !in Repr && marked.Length == claimed.Length
      requires forall j :: 0 <= j < |slots| ==> marked[j] == Marked(slots, roots, j)
      modifies this`slots, claimed, values
      ensures Valid() && slots == Collect(old(slots), roots)
      ensures freed == Unmarked(old(slots), roots, |old(slots)|)
    {
      hide Marked, BlockIs;
      ghost var before := slots;
      ghost var after := Collect(before, roots);
      freed := 0;
      var i := 0;
      while i < claimed.Length
        invariant 0 <= i <= |slots| == |before| && Valid()
        invariant forall j :: 0 <= j < |before| ==> slots[j] == if j < i then after[j] else before[j]
        invariant freed == Unmarked(before, roots, i)
      {
        if !marked[i] && claimed[i] {
          Remove(i);
          freed := freed + 1;
        }
        i := i + 1;
      }
      assert slots == after;
    }

    /** `arr_gc`. */
    method Collection(stack: array<Word>, sp: int) returns (r: Outcome<nat>)
      requires Valid() && sp <= stack.Length
      modifies this`asks, this`marked, this`slots, this`collections, claimed, values
      ensures Valid()
      ensures r == match Gc(env, old(State()), StackRoots(stack, sp))
        case Live((h, freed)) => Live(freed)
        case _ => Destroyed
      ensures r.Live? ==> State() == Gc(env, old(State()), StackRoots(stack, sp)).value.0
    {
      hide Marked, Scanned, PointsTo, BlockIs, InRange, Count, Unmarked, StackRoots, RootsOf;
      marked := new bool[claimed.Length](_ => false);
      var ok := Calloc();
      if !ok {
        return Destroyed;
      }
      var _ :- MarkArrays(stack, sp);
      var freed := SweepArrays(StackRoots(stack, sp));
      collections := collections + 1;
      r := Live(freed);
    }

    /** The outcome `r` and the state left behind are what `s` says. */
    ghost predicate Did<T(!new)>(r: Outcome<T>, s: Outcome<(Heap, T)>)
      reads this, Repr
    {
      if s.Live? then r == Live(s.value.1) && Valid() && State() == s.value.0 else r == s.PropagateFailure<T>()
    }

    /** `get_free_index`: the counter, then the search for the least free slot. */
    method GetFreeIndex(stack: array<Word>, sp: int) returns (r: Outcome<Option<nat>>)
      requires Valid() && sp <= stack.Length
      modifies this`creations, this`asks, this`marked, this`slots, this`collections, claimed, values
      ensures match Tick(env, old(State()), StackRoots(stack, sp))
        case Live(h) => Valid() && State() == h &&
          var f := FirstFree(h.slots, 0); r == Live(if f == |h.slots| then None else Some(f))
        case _ => r == Destroyed
    {
      hide BlockIs, StackRoots, Collect, InRange, Count;
      if creations >= GC_PERIOD {
        creations := 0;
        var _ :- Collection(stack, sp);
      } else {
        creations := creations + 1;
      }
      var i := 0;
      while i < claimed.Length
        invariant 0 <= i <= |slots| && FirstFree(slots, 0) == FirstFree(slots, i)
      {
        if !claimed[i] {
          return Live(Some(i));
        }
        i := i + 1;
      }
      r := Live(None);
    }

    ghost predicate FreshBlock(block: array<Word>, words: seq<Word>)
      reads this, block
    {
      block !in Repr && BlockIs(block, Held(words))
    }

    /** `marr_add_element`. */
    method AddElement(block: array<Word>, ghost words: seq<Word>, stack: array<Word>, sp: int)
        returns (r: Outcome<Option<nat>>)
      requires Valid() && sp <= stack.Length && FreshBlock(block, words)
      modifies this, claimed, values
      ensures Did(r, Add(env, old(State()), words, StackRoots(stack, sp)))
      ensures Repr == old(Repr) + if r.Live? && r.value.Some? then {block} else {}
      ensures claimed == old(claimed) && values == old(values)
    {
      hide BlockIs, StackRoots, Tick;
      var f :- GetFreeIndex(stack, sp);
      if f.None? {
        return Live(None);
      }
      Claim(f.value, block, words);
      r := Live(f);
    }

    method Claim(i: nat, block: array<Word>, ghost words: seq<Word>)
      requires Valid() && i < |slots| && slots[i].Free? && FreshBlock(block, words)
      modifies this`slots, this`Repr, claimed, values
      ensures Valid() && slots == old(slots)[i := Held(words)] && Repr == old(Repr) + {block}
    {
      values[i] := block;
      claimed[i] := true;
      slots := slots[i := Held(words)];
      Repr := Repr + {block};
    }

    /** `marr_resize`: fresh cleared arrays, the old contents copied over. */
    method ResizeMap(size: nat, stack: array<Word>, sp: int) returns (r: Outcome<()>)
      requires Valid() && sp <= stack.Length
      modifies this, claimed, values
      ensures match Resize(env, old(State()), size, StackRoots(stack, sp))
        case Live(h) => r == Live(()) && Valid() && State() == h && fresh(Repr - old(Repr)) && fresh(claimed) && fresh(values)
        case _ => r == Destroyed
      decreases Count(slots)
    {
      hide BlockIs, StackRoots, Collect, InRange;
      if size < claimed.Length || size >= TWO32 - 1 {
        return Destroyed;
      }
      var ok1 := Calloc();
      var ok2 := Calloc();
      if ok1 && ok2 {
        Enlarge(size);
        return Live(());
      }
      var freed :- Collection(stack, sp);
      if freed == 0 {
        return Destroyed;
      }
      r := ResizeMap(size, stack, sp);
    }

    method Enlarge(size: nat)
      requires Valid() && |slots| <= size
      modifies this
      ensures Valid() && slots == old(slots) + seq(size - |old(slots)|, _ => Free)
      ensures fresh(Repr - old(Repr)) && fresh(claimed) && fresh(values)
      ensures creations == old(creations) && asks == old(asks) && collections == old(collections)
    {
      var newClaimed := new bool[size](_ => false);
      var newValues := new array?<Word>[size](_ => null);
      forall i | 0 <= i < claimed.Length {
        newClaimed[i] := claimed[i];
      }
      forall i | 0 <= i < values.Length {
        newValues[i] := values[i];
      }
      claimed, values := newClaimed, newValues;
      slots := slots + seq(size - |slots|, _ => Free);
      Repr := Repr + {claimed, values};
    }

    /** The part of `arr_store` that finds the block a slot. */
    method PlaceBlock(block: array<Word>, ghost words: seq<Word>, stack: array<Word>, sp: int)
        returns (r: Outcome<Option<nat>>)
      requires Valid() && sp <= stack.Length && FreshBlock(block, words)
      modifies this, claimed, values
      ensures Did(r, Place(env, old(State()), words, StackRoots(stack, sp)))
      ensures r.Live? ==> fresh(Repr - old(Repr) - {block})
    {
      hide BlockIs, StackRoots, Resize, Add;
      if claimed.Length == 0 {
        var _ :- ResizeMap(FIRST_SIZE, stack, sp);
      }
      var first :- AddElement(block, words, stack, sp);
      if first.Some? {
        return Live(first);
      }
      var _ :- ResizeMap(2 * claimed.Length, stack, sp);
      r := AddElement(block, words, stack, sp);
    }

    /** `arr_store`. */
    method StoreBlock(block: array<Word>, ghost words: seq<Word>, stack: array<Word>, sp: int)
        returns (r: Outcome<Word>)
      requires Valid() && sp <= stack.Length && FreshBlock(block, words)
      modifies this, claimed, values
      ensures Did(r, Store(env, old(State()), words, StackRoots(stack, sp)))
      ensures r.Live? ==> fresh(Repr - old(Repr) - {block})
    {
      hide BlockIs, StackRoots, Place, IsRef, IndexRef, Valid;
      var slot :- PlaceBlock(block, words, stack, sp);
      var index := if slot.Some? then slot.value % TWO32 else TWO32 - 1;
      var ref := IndexRef(index);
      if !IsRef(ref) {
        return Destroyed;
      }
      r := Live(ref);
    }

    /** `arr_create`: the roots are whatever lies below the top of `stack` while it runs. */
    method CreateArray(count: Word, stack: array<Word>, sp: int) returns (r: Outcome<Word>)
      requires Valid() && sp <= stack.Length
      modifies this, claimed, values
      ensures Did(r, Create(env, old(State()), count, StackRoots(stack, sp)))
      ensures r.Live? ==> fresh(Repr - old(Repr))
      decreases Count(slots)
    {
      hide BlockIs, StackRoots, Store, Gc, Count;
      if count <= 0 {
        return Destroyed;
      }
      var ok := Calloc();
      if ok {
        var block := NewBlock(count);
        r := StoreBlock(block, Zeros(count), stack, sp);
        return;
      }
      var freed :- Collection(stack, sp);
      if freed == 0 {
        return Destroyed;
      }
      r := CreateArray(count, stack, sp);
    }

    /** Zeroed memory from calloc with the count in front. */
    method NewBlock(count: Word) returns (block: array<Word>)
      requires count > 0
      ensures fresh(block) && BlockIs(block, Held(Zeros(count)))
    {
      block := new Word[count + 1](_ => 0);
      block[0] := count;
      assert block[1..] == Zeros(count);
    }

    /** `arr_check_bounds`: the block a reference and an index lead to. */
    method CheckBounds(ref: Word, i: Word) returns (r: Outcome<array<Word>>)
      requires Valid()
      ensures r.Live? == Accessible(State(), ref, i) && (r.Live? || r == Destroyed)
      ensures r.Live? ==> Claimed(slots, RefIndex(ref)) && r.value == values[RefIndex(ref)]
      ensures r.Live? ==> 0 <= i < |slots[RefIndex(ref)].words|
    {
      hide IsRef, RefIndex;
      if !IsRef(ref) {
        return Destroyed;
      }
      var j := RefIndex(ref);
      if j >= claimed.Length || !claimed[j] {
        return Destroyed;
      }
      var block := values[j];
      var size := ToU32(block[0]);
      if Wrap(i + 1) < 1 || ToU32(Wrap(i + 1)) > size {
        return Destroyed;
      }
      r := Live(block);
    }

    /** `arr_get`. */
    method GetElement(ref: Word, i: Word) returns (r: Outcome<Word>)
      requires Valid()
      ensures r == Get(State(), ref, i)
    {
      hide IsRef, RefIndex, Accessible;
      var block :- CheckBounds(ref, i);
      assert block[i + 1] == block[1..][i];
      r := Live(block[i + 1]);
    }

    /** `arr_set`. */
    method SetElement(ref: Word, i: Word, val: Word) returns (r: Outcome<()>)
      requires Valid()
      modifies Repr
      ensures match Set(old(State()), ref, i, val)
        case Live(h) => r == Live(()) && Valid() && State() == h
        case _ => r == Destroyed
      ensures Repr == old(Repr)
    {
      hide IsRef, RefIndex, Accessible;
      var block :- CheckBounds(ref, i);
      var j := RefIndex(ref);
      ghost var words := slots[j].words[i := val];
      block[i + 1] := val;
      slots := slots[j := Held(words)];
      assert block[1..] == words;
      r := Live(());
    }
  }
}
