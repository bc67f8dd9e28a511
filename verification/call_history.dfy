/** The debugger's call history buffer, written and read in place (src/ijdb.c:98-130, 246-326, 750-759). */
module CallHistories {
  import opened Words
  import opened Outcomes
  import opened History
  import opened Programs
  import Scan
  import M = Machine

  class CallHistory {
    /** Whether `realloc` can give a buffer of a size. */
    const alloc: nat -> bool
    var buffer: array<U32>
    var top: nat
    var size: nat
    var quit: bool

    ghost predicate Valid()
      reads this
    {
      top <= buffer.Length
    }

    ghost function Abs(): Record
      requires Valid()
      reads this, buffer
    {
      Record(buffer[..top], size, buffer.Length, quit)
    }

    /** The outcome and the record are what `s` says. */
    ghost predicate Did(r: Outcome<()>, s: Outcome<Record>)
      reads this, buffer
    {
      match s
      case Live(h) => r == Live(()) && Valid() && Abs() == h
      case other => r == other.PropagateFailure<()>()
    }

    constructor (alloc: nat -> bool)
      ensures Valid() && fresh(buffer) && this.alloc == alloc && Abs() == FRESH
    {
      this.alloc := alloc;
      buffer := new U32[2](_ => 0);
      top, size, quit := 2, 2, false;
      new;
      assert buffer[..top] == [0, 0];
    }

    /** A granted `realloc`. */
    method Enlarge(newSize: nat)
      requires top <= buffer.Length && top <= newSize && alloc(newSize)
      modifies this`buffer
      ensures fresh(buffer) && buffer.Length == newSize && buffer[..top] == old(buffer[..top])
    {
      var bigger := new U32[newSize](_ => 0);
      forall i | 0 <= i < top {
        bigger[i] := buffer[i];
      }
      buffer := bigger;
    }

    method PutWord(w: U32)
      requires top < buffer.Length
      modifies this`top, buffer
      ensures top == old(top) + 1 && buffer[..top] == old(buffer[..top]) + [w]
    {
      buffer[top] := w;
      top := top + 1;
    }

    /** The writing half of `store_func_call`: make room, then copy the arguments from the stack's top down. */
    method SaveCall(stack: array<Word>, sp: int, address: U32, count: U32) returns (r: Outcome<()>)
      requires Valid()
      modifies this, buffer
      ensures Did(r, Save(alloc, old(stack[..]), sp, old(Abs()), address, count))
    {
      hide TopWords;
      var needed := (2 + count) % TWO32;
      var full := (top + needed) % TWO32 > size;
      var newSize := if full then (top + needed + 1024) % TWO32 else size;
      if full && !alloc(newSize) {
        size := newSize;
        quit := true;
        return Live(());
      }
      var capacity := if full then newSize else buffer.Length;
      if count > sp + 1 || sp >= stack.Length || sp < -1 || top + 2 + count > capacity {
        return WildStack;
      }
      size := newSize;
      if full {
        Enlarge(newSize);
      }
      WriteCall(stack, sp, address, count);
      r := Live(());
    }

    method WriteCall(stack: array<Word>, sp: int, address: U32, count: U32)
      requires count <= sp + 1 <= stack.Length && top + 2 + count <= buffer.Length
      modifies this`top, buffer
      ensures top == old(top) + 2 + count
      ensures buffer[..top] == old(buffer[..top]) + TopWords(old(stack[..]), sp, count) + [count, address]
    {
      hide TopWords;
      CopyArguments(stack, sp, count);
      PutWord(count);
      PutWord(address);
    }

    method CopyArguments(stack: array<Word>, sp: int, count: nat)
      requires count <= sp + 1 <= stack.Length && top + count <= buffer.Length
      modifies this`top, buffer
      ensures top == old(top) + count
      ensures buffer[..top] == old(buffer[..top]) + TopWords(old(stack[..]), sp, count)
    {
      hide TopWords;
      ghost var words, saved := buffer[..top], TopWords(stack[..], sp, count);
      ghost var content := stack[..];
      var i := 0;
      while i < count
        invariant 0 <= i <= count && top == |words| + i && stack[..] == content
        invariant buffer[..top] == words + saved[..i]
      {
        TopWordAt(content, sp, count, i);
        assert stack[sp - i] == content[sp - i];
        PutWord(ToU32(stack[sp - i]));
        assert saved[..i + 1] == saved[..i] + [saved[i]];
        i := i + 1;
      }
      assert saved[..count] == saved;
    }

    lemma TopWordAt(stack: seq<Word>, sp: int, count: nat, i: nat)
      requires i < count <= sp + 1 <= |stack|
      ensures TopWords(stack, sp, count)[i] == ToU32(stack[sp - i])
    {
    }

    /** `remove_last_func_call`. */
    method RemoveLastCall() returns (r: Outcome<()>)
      requires Valid()
      modifies this`top
      ensures Did(r, RemoveCall(old(Abs())))
    {
      if top < 2 {
        return WildStack;
      }
      ghost var words := buffer[..top];
      top := top - 2;
      var count := buffer[top];
      assert count == words[top];
      if count > top {
        return WildStack;
      }
      top := top - count;
      assert buffer[..top] == words[..top];
      r := Live(());
    }

    /** `store_func_call`, on the machine `m` whose stack is `stack`. */
    method StoreFuncCall(p: Program, stack: array<Word>, pc: nat, sp: int, ghost m: M.Vm) returns (r: Outcome<()>)
      requires Valid() && m.stack == stack[..] && m.pc == pc && m.sp == sp
      modifies this, buffer
      ensures Did(r, StoreCall(alloc, p, m, old(Abs())))
    {
      hide Save, Scan.CodeShort;
      var index :- Scan.CodeShort(p, pc + 1);
      var address :- GetConstant(p, index);
      if address < 0 {
        return WildCode;
      }
      var count :- Scan.CodeShort(p, address);
      r := SaveCall(stack, sp, address, ToU32(count));
    }

    /** `create_call_history`, before every step the debugger makes. */
    method Create(p: Program, stack: array<Word>, pc: nat, sp: int, ghost m: M.Vm) returns (r: Outcome<()>)
      requires Valid() && m.stack == stack[..] && m.pc == pc && m.sp == sp
      modifies this, buffer
      ensures Did(r, Track(alloc, p, m, old(Abs())))
    {
      hide StoreCall, RemoveCall;
      r := Live(());
      if pc >= |p.code| {
        r := WildCode;
      } else if p.code[pc] == INVOKEVIRTUAL {
        r := StoreFuncCall(p, stack, pc, sp, m);
      } else if p.code[pc] == IRETURN {
        r := RemoveLastCall();
      }
    }

    /** `print_func_calls(0)`: the calls it prints, in the order it prints them. */
    method Backtrace() returns (r: Outcome<seq<Call>>)
      requires Valid()
      ensures r == Walk(Abs().words)
    {
      hide Walk;
      var calls: seq<Call> := [];
      var offset := top;
      ghost var words := buffer[..top];
      PrefixedEnds(calls, Walk(words));
      assert words[..top] == words;
      while offset > 0
        invariant 0 <= offset <= top
        invariant Walk(words) == Prefixed(calls, Walk(words[..offset]))
      {
        ghost var above := words[..offset];
        assert above == buffer[..offset];
        var call := ReadCall(offset);
        WalkStep(above);
        if call.None? {
          return WildStack;
        }
        offset := call.value.1;
        assert above[..offset] == words[..offset];
        PrefixedTwice(calls, call.value.0, Walk(words[..offset]));
        calls := calls + [call.value.0];
      }
      assert words[..0] == [];
      WalkEmpty();
      PrefixedEnds(calls, Live([]));
      r := Live(calls);
    }

    /** The newest call of the first words of the buffer, and where the next older one ends. */
    method ReadCall(top: nat) returns (r: Option<(Call, nat)>)
      requires 0 < top <= buffer.Length
      ensures r == TopCall(buffer[..top])
    {
      hide Reversed;
      var offset := top - 1;
      var address := buffer[offset];
      var args: seq<U32> := [];
      if offset == 0 {
        return Some((Call(address, args), 0));
      }
      offset := offset - 1;
      var count := buffer[offset];
      if count > offset {
        return None;
      }
      ghost var words, high := buffer[..top], offset;
      while count > 0
        invariant 0 <= count <= offset <= high && high - offset == |args| && offset - count == high - buffer[high]
        invariant forall k :: 0 <= k < |args| ==> args[k] == words[high - 1 - k]
      {
        offset := offset - 1;
        args := args + [buffer[offset]];
        count := count - 1;
      }
      ReversedSlice(words, offset, high, args);
      r := Some((Call(address, args), offset));
    }

    /** The call on top of a packed record, and the length of what lies below it. */
    ghost function TopCall(words: seq<U32>): Option<(Call, nat)>
      requires words != []
    {
      var top := |words|;
      if top == 1 then Some((Call(words[0], []), 0))
      else
        var low := top - 2 - words[top - 2];
        if low < 0 then None else Some((Call(words[top - 1], Reversed(words[low..top - 2])), low))
    }

    /** A walk whose newest calls are already known. */
    ghost function Prefixed(calls: seq<Call>, r: Outcome<seq<Call>>): Outcome<seq<Call>> {
      var older :- r;
      Live(calls + older)
    }

    lemma PrefixedEnds(calls: seq<Call>, r: Outcome<seq<Call>>)
      ensures Prefixed([], r) == r && Prefixed(calls, Live([])) == Live(calls)
      ensures Prefixed(calls, WildStack) == WildStack
    {
      assert calls + [] == calls;
      if r.Live? { assert [] + r.value == r.value; }
    }

    lemma PrefixedTwice(calls: seq<Call>, c: Call, r: Outcome<seq<Call>>)
      ensures Prefixed(calls, Prefixed([c], r)) == Prefixed(calls + [c], r)
    {
      if r.Live? { assert calls + ([c] + r.value) == calls + [c] + r.value; }
    }

    lemma WalkStep(words: seq<U32>)
      requires words != []
      ensures match TopCall(words)
        case None => Walk(words) == WildStack
        case Some(c) => c.1 <= |words| && Walk(words) == Prefixed([c.0], Walk(words[..c.1]))
    {
      hide Reversed;
      if |words| == 1 {
        assert words[..0] == [];
        WalkEmpty();
        assert [Call(words[0], [])] + [] == [Call(words[0], [])];
      }
    }

    lemma ReversedSlice(words: seq<U32>, low: nat, high: nat, args: seq<U32>)
      requires low <= high <= |words| && |args| == high - low
      requires forall k :: 0 <= k < |args| ==> args[k] == words[high - 1 - k]
      ensures Reversed(words[low..high]) == args
    {
    }
  }
}
