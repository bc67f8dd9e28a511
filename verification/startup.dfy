/** Choosing the initial stack and booting the machine (src/init.c:127-199, src/util.c:24-35). */
module Startup {
  import opened Words
  import opened Outcomes
  import opened Programs
  import opened Scan
  import M = Machine
  import F = Frames
  import H = Heaps
  import R = Refinement
  import Registers

  const STACK_MIN: nat := 4096

  function Raise(b: nat, e: nat): nat {
    if e == 0 then 1 else b * Raise(b, e - 1)
  }

  /** What `power` really computes: `base * power^power` modulo 2^32, not `base^power`. */
  function PowerAsWritten(base: U32, power: U32): nat {
    if power == 0 then 1 else (base * Raise(power, power)) % TWO32
  }

  method Power(base: U32, power: U32) returns (r: nat)
    ensures r == PowerAsWritten(base, power)
  {
    if power == 0 {
      return 1;
    }
    var b: U32 := base;
    for i := 0 to power
      invariant b == (base * Raise(power, i)) % TWO32
    {
      ModTimes(base * Raise(power, i), power);
      Regroup(base, power, Raise(power, i));
      b := (b * power) % TWO32;
    }
    r := b;
  }

  lemma ModTimes(x: nat, y: nat)
    ensures (x % TWO32 * y) % TWO32 == (x * y) % TWO32
  {
    var q := x / TWO32;
    assert x == q * TWO32 + x % TWO32;
    Distribute(q * TWO32, x % TWO32, y);
    Regroup(q, y, TWO32);
    ModAdd(x % TWO32 * y, q * y);
  }

  lemma Distribute(a: int, b: int, y: int)
    ensures (a + b) * y == a * y + b * y
  {
  }

  lemma Regroup(a: int, y: int, c: int)
    ensures a * c * y == a * (y * c)
    ensures a * c * y == a * y * c
  {
  }

  lemma ModAdd(x: nat, k: nat)
    ensures (x + k * TWO32) % TWO32 == x % TWO32
  {
  }

  lemma SmallPowers()
    ensures PowerAsWritten(8, 0) == 1 && PowerAsWritten(8, 1) == 8 && PowerAsWritten(8, 2) == 32
  {
    assert Raise(1, 1) == 1;
    assert Raise(2, 2) == 4;
  }

  /** A candidate size that leaves 1024 bytes above main's variables. */
  predicate Fits(vars: nat, i: U32) {
    vars * 4 + 1024 <= STACK_MIN * 4 * PowerAsWritten(8, i)
  }

  /** `init_stack`'s search: the first of at most seven candidates, which is never past the third. */
  method PickStackSize(vars: nat) returns (size: nat)
    requires vars <= 0x8000
    ensures exists i: U32 :: i <= 2 && Fits(vars, i) && (forall k: U32 :: k < i ==> !Fits(vars, k)) &&
                             size == STACK_MIN * PowerAsWritten(8, i)
    ensures size == StackSize(vars) && size >= vars + 256
  {
    SmallPowers();
    size := 0;
    var i: U32 := 0;
    while i <= 6
      invariant i <= 2 && size == 0 && forall k: U32 :: k < i ==> !Fits(vars, k)
    {
      var candidate := Power(8, i);
      if vars * 4 + 1024 <= STACK_MIN * 4 * candidate {
        size := STACK_MIN * candidate;
        assert Fits(vars, i) && (i >= 1 ==> !Fits(vars, 0)) && (i >= 2 ==> !Fits(vars, 1));
        break;
      }
      assert i < 2;
      i := i + 1;
    }
  }

  /** The size chosen, case by case. */
  function StackSize(vars: nat): (size: nat)
    ensures vars <= 0x8000 ==> vars + 256 <= size <= M.MAX_STACK
  {
    if vars + 256 <= 4096 then 4096 else if vars + 256 <= 32768 then 32768 else 131072
  }

  /** `size` words from malloc, main's variables at the bottom zeroed. */
  function Fresh(env: H.Env, size: nat, vars: nat): (s: seq<Word>)
    ensures |s| == size && forall i :: 0 <= i < size ==> s[i] == if i < vars then 0 else env.junk(i)
  {
    if size == 0 then []
    else Fresh(env, size - 1, vars) + [if size - 1 < vars then 0 else env.junk(size - 1)]
  }

  const EMPTY_HEAP: H.Heap := H.Heap([], 0, 0, 0)

  /** `init_ijvm` after loading. */
  function Boot(env: H.Env, p: Program, input: seq<Byte>): Outcome<M.Vm> {
    var s :- ScanFrom(p, START);
    var size := StackSize(s.vars);
    if !env.grow(size) then Destroyed
    else Live(M.Vm(Fresh(env, size, s.vars), 0, s.vars - 1, s.vars, 0, s.vars, false, false,
                   EMPTY_HEAP, input, []))
  }

  /** The same start for the frame machine: main alone, its variables zero, no operands. */
  function BootFrames(p: Program, vars: nat, input: seq<Byte>): F.FrameVm {
    F.FrameVm(F.Main(F.Frame(seq(vars, _ => 0), [], 0, 0, [])), StackSize(vars), 0, false, false,
              EMPTY_HEAP, input, [])
  }

  /**
   * Booting succeeds exactly if the scan ends and the stack is granted; the machine then stands at address
   * 0 with main's variables zeroed, nothing above them, and its registers in range.
   */
  lemma BootInRange(env: H.Env, p: Program, input: seq<Byte>)
    ensures Boot(env, p, input).Live? <==>
      ScanFrom(p, START).Live? && env.grow(StackSize(ScanFrom(p, START).value.vars))
    ensures Boot(env, p, input).Live? ==>
      var m, vars := Boot(env, p, input).value, ScanFrom(p, START).value.vars;
      Registers.InRange(m) && m.pc == 0 && m.lv == 0 && m.nv == vars && m.fp == vars && m.sp + 1 == vars &&
      (forall i :: 0 <= i < vars ==> m.stack[i] == 0) && |m.stack| == StackSize(vars) &&
      !m.err && !m.halt && m.heap.slots == [] && m.heap.creations == 0 && m.input == input && m.output == []
  {
    hide ScanFrom;
    if ScanFrom(p, START).Live? { MainFits(p); }
  }

  lemma MainFits(p: Program)
    requires ScanFrom(p, START).Live?
    ensures ScanFrom(p, START).value.vars <= 0x8000
  {
  }

  lemma BootEncodes(env: H.Env, p: Program, input: seq<Byte>)
    requires Boot(env, p, input).Live?
    ensures ScanFrom(p, START).value.vars <= 0x8000
    ensures R.Encodes(p, Boot(env, p, input).value, BootFrames(p, ScanFrom(p, START).value.vars, input))
  {
    var vars := ScanFrom(p, START).value.vars;
    assert Fresh(env, StackSize(vars), vars)[..vars] == seq(vars, _ => 0);
    assert R.Flat(BootFrames(p, vars, input).frames) == seq(vars, _ => 0);
  }
}
