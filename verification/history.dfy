/**
 * The debugger's own record of the call stack (src/ijdb.c): a packed word buffer holding, per call,
 * the arguments in the order they come off the stack, their number, and the method's address.
 */
module History {
  import opened Words
  import opened Outcomes
  import opened Programs
  import Scan
  import M = Machine

  /** One call; `args` in the order they were pushed. */
  datatype Call = Call(address: U32, args: seq<U32>)

  /**
   * `words` is the used part of the buffer, `size` what the debugger takes its capacity to be, and
   * `capacity` what it is: they differ once a growth has been refused.
   */
  datatype Record = Record(words: seq<U32>, size: nat, capacity: nat, quit: bool)

  function Reversed<T>(s: seq<T>): (r: seq<T>)
    ensures |r| == |s| && forall i :: 0 <= i < |s| ==> r[i] == s[|s| - 1 - i]
  {
    if s == [] then [] else Reversed(s[1..]) + [s[0]]
  }

  function PackOne(c: Call): seq<U32>
    requires |c.args| < TWO32
  {
    Reversed(c.args) + [|c.args|, c.address]
  }

  predicate Packable(calls: seq<Call>) {
    forall i :: 0 <= i < |calls| ==> |calls[i].args| < TWO32
  }

  /** Oldest call first. */
  function Pack(calls: seq<Call>): seq<U32>
    requires Packable(calls)
  {
    if calls == [] then [] else Pack(calls[..|calls| - 1]) + PackOne(calls[|calls| - 1])
  }

  /** The walk of `print_func_calls`: newest call first, arguments in push order. */
  function Walk(words: seq<U32>): Outcome<seq<Call>>
    decreases |words|
  {
    var top := |words|;
    if top == 0 then Live([])
    else if top == 1 then Live([Call(words[0], [])])
    else
      var low := top - 2 - words[top - 2];
      if low < 0 then WildStack
      else
        var older :- Walk(words[..low]);
        Live([Call(words[top - 1], Reversed(words[low..top - 2]))] + older)
  }

  lemma ReversedTwice<T>(s: seq<T>)
    ensures Reversed(Reversed(s)) == s
  {
  }

  lemma WalkTop(words: seq<U32>, low: nat)
    requires |words| >= 2 && low == |words| - 2 - words[|words| - 2]
    ensures Walk(words) == match Walk(words[..low])
      case Live(older) => Live([Call(words[|words| - 1], Reversed(words[low..|words| - 2]))] + older)
      case other => other
  {
    hide Reversed;
  }

  lemma WalkOne(low: seq<U32>, c: Call)
    requires |c.args| < TWO32 && Walk(low).Live?
    ensures Walk(low + PackOne(c)) == Live([c] + Walk(low).value)
  {
    hide Reversed, Walk;
    var words := low + PackOne(c);
    var top := |words|;
    WalkTop(words, |low|);
    assert words[top - 2] == |c.args| && words[top - 1] == c.address;
    assert words[|low|..top - 2] == Reversed(c.args);
    assert words[..|low|] == low;
    ReversedTwice(c.args);
  }

  /** Reading the buffer back gives every recorded call, newest first. */
  lemma {:induction false} WalkUnpacks(calls: seq<Call>)
    requires Packable(calls)
    ensures Walk(Pack(calls)) == Live(Reversed(calls))
  {
    hide Walk;
    if calls != [] {
      var n := |calls| - 1;
      WalkUnpacks(calls[..n]);
      WalkOne(Pack(calls[..n]), calls[n]);
      assert Reversed(calls) == [calls[n]] + Reversed(calls[..n]);
    } else {
      WalkEmpty();
    }
  }

  lemma WalkEmpty()
    ensures Walk([]) == Live([])
  {
  }

  function Unsigned(words: seq<Word>): (r: seq<U32>)
    ensures |r| == |words| && forall i :: 0 <= i < |words| ==> r[i] == ToU32(words[i])
  {
    seq(|words|, i requires 0 <= i < |words| => ToU32(words[i]))
  }

  /** The words saved for a call: the top `count` words of the stack, topmost first. */
  function TopWords(stack: seq<Word>, sp: int, count: nat): (r: seq<U32>)
    requires count <= sp + 1 <= |stack|
    ensures |r| == count
  {
    Reversed(Unsigned(stack[sp + 1 - count..sp + 1]))
  }

  /**
   * Saving one call; `alloc` says whether the buffer can be grown to a size. The room is computed
   * modulo 2^32. A refused growth leaves the new size with the old buffer. Writing past the buffer
   * counts as a wild access like reading past the stack.
   */
  function Save(alloc: nat -> bool, stack: seq<Word>, sp: int, h: Record, address: U32, count: U32): Outcome<Record> {
    var needed := (2 + count) % TWO32;
    var full := (|h.words| + needed) % TWO32 > h.size;
    var size := if full then (|h.words| + needed + 1024) % TWO32 else h.size;
    var capacity := if full then size else h.capacity;
    if full && !alloc(size) then Live(h.(size := size, quit := true))
    else if count > sp + 1 || sp >= |stack| || sp < -1 || |h.words| + 2 + count > capacity then WildStack
    else Live(h.(size := size, capacity := capacity, words := h.words + TopWords(stack, sp, count) + [count, address]))
  }

  /** `init_call_history`: main without arguments. */
  const FRESH: Record := Record([0, 0], 2, 2, false)

  /** `store_func_call`: it reads code and constants before the call is made, without the checks of the call. */
  function StoreCall(alloc: nat -> bool, p: Program, m: M.Vm, h: Record): Outcome<Record>
    requires m.pc >= 0
  {
    var index :- Scan.CodeShort(p, m.pc + 1);
    var address :- GetConstant(p, index);
    if address < 0 then WildCode
    else
      var count :- Scan.CodeShort(p, address);
      Save(alloc, m.stack, m.sp, h, address, ToU32(count))
  }

  /** `remove_last_func_call`; a top driven below the buffer counts as leaving it. */
  function RemoveCall(h: Record): Outcome<Record> {
    var top := |h.words| - 2;
    if top < 0 || h.words[top] > top then WildStack
    else Live(h.(words := h.words[..top - h.words[top]]))
  }

  /** `create_call_history`: looks at one opcode, so a prefixed call or return goes by unseen. */
  function Track(alloc: nat -> bool, p: Program, m: M.Vm, h: Record): Outcome<Record>
    requires m.pc >= 0
  {
    if m.pc >= |p.code| then WildCode
    else if p.code[m.pc] == INVOKEVIRTUAL then StoreCall(alloc, p, m, h)
    else if p.code[m.pc] == IRETURN then RemoveCall(h)
    else Live(h)
  }

  /** Removing undoes storing, whatever the record was before; a call is not stored only if growth is refused. */
  lemma RemoveUndoesSave(
      alloc: nat -> bool, stack: seq<Word>, sp: int, h: Record, address: U32, count: U32, h1: Record)
    requires Save(alloc, stack, sp, h, address, count) == Live(h1)
    ensures h1.words == h.words ==> h1.quit && h1.capacity == h.capacity && !alloc(h1.size)
    ensures h1.words != h.words ==> RemoveCall(h1) == Live(h1.(words := h.words)) && |h1.words| <= h1.capacity
    ensures h1.words != h.words ==> h1.quit == h.quit
  {
    if h1.words != h.words {
      assert h1.words[..|h.words|] == h.words;
    } else {
      assert |h1.words| == |h.words|;
    }
  }

  /** Until a growth is refused the debugger knows the capacity of its buffer. */
  lemma SizeIsCapacity(
      alloc: nat -> bool, stack: seq<Word>, sp: int, h: Record, address: U32, count: U32)
    requires !h.quit ==> h.size == h.capacity
    ensures var r := Save(alloc, stack, sp, h, address, count);
      r.Live? && !r.value.quit ==> r.value.size == r.value.capacity
  {
    hide TopWords;
  }

  /**
   * When a call is written beyond the buffer, for every record: never if growth is asked for and
   * refused; otherwise exactly if the total reaches 2^32, or the margin of 1024 words wraps the new size
   * around zero, or no growth is asked for although the buffer is too small.
   */
  lemma SaveMakesRoom(alloc: nat -> bool, stack: seq<Word>, sp: int, h: Record, address: U32, count: U32)
    requires |h.words| < TWO32 && h.capacity < TWO32 && count <= sp + 1 <= |stack|
    ensures var total := |h.words| + 2 + count;
      var asks := total % TWO32 > h.size;
      Save(alloc, stack, sp, h, address, count) == WildStack <==>
        !(asks && !alloc((total + 1024) % TWO32)) &&
        (total >= TWO32 || (asks && total + 1024 >= TWO32) || (!asks && total > h.capacity))
  {
    hide TopWords;
    var total := |h.words| + 2 + count;
    SumsAgree(|h.words|, count);
    if total < TWO32 && total + 1024 >= TWO32 { assert (total + 1024) % TWO32 == total + 1024 - TWO32; }
  }

  lemma SumsAgree(used: nat, count: U32)
    ensures (used + (2 + count) % TWO32) % TWO32 == (used + 2 + count) % TWO32
    ensures (used + (2 + count) % TWO32 + 1024) % TWO32 == (used + 2 + count + 1024) % TWO32
  {
  }

  /**
   * The third way is open to a record the debugger makes itself: growing the fresh buffer of two words
   * to 1028 is refused, the next call believes in 1028 and writes beyond the two.
   */
  lemma RefusedGrowthIsForgotten(alloc: nat -> bool, stack: seq<Word>, sp: int, address: U32)
    requires !alloc(1028) && 0 <= sp + 1 <= |stack|
    ensures Save(alloc, stack, sp, FRESH, address, 0) == Live(Record([0, 0], 1028, 2, true))
    ensures Save(alloc, stack, sp, Record([0, 0], 1028, 2, true), address, 0) == WildStack
  {
    hide TopWords;
  }
}
