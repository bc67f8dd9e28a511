/** Debug symbols: the block reader of src/debug_data_loader.c, its writer, and name lookup. */
module Symbols {
  import opened Words
  import opened Outcomes
  import opened Binary

  /** Parallel buffers: label addresses, all names with their NULs, and where each name starts. */
  datatype Table = Table(addr: seq<U32>, names: seq<Byte>, starts: seq<U32>)

  const EMPTY: Table := Table([], [], [])

  datatype Buffer = AddrBuffer | StartBuffer | NameBuffer

  /** `inc_memory_size` of a buffer of `n` four-byte cells: the byte count is computed modulo 2^32. */
  predicate CanGrow(alloc: (Buffer, nat) -> bool, b: Buffer, n: nat) {
    (n + 1) * 4 % TWO32 != 0 && alloc(b, n + 1)
  }

  /** Names are grown to at most this many characters. */
  const NAME_LIMIT: nat := 0x4000_0000

  /** `(char)getc(f)`: behind the end of the file every read gives 0xFF. */
  function GetByte(data: seq<Byte>, pos: nat): Byte {
    if pos < |data| then data[pos] else 0xFF
  }

  /** The position after a failed four-byte read from `pos`. */
  function AfterFailedRead(data: seq<Byte>, pos: nat): nat {
    if pos < |data| then |data| else pos
  }

  /** `get_block_size`: the size, or `None` for the -1 of a failed read, and the new position. */
  function BlockSize(data: seq<Byte>, pos: nat): (Option<U32>, nat) {
    match Read32(data, pos + 4)
    case Some(size) => (Some(size), pos + 8)
    case None => (None, AfterFailedRead(data, pos + 4))
  }

  /** `skip_block`. */
  function SkipBlock(data: seq<Byte>, pos: nat): (bool, nat) {
    var (size, start) := BlockSize(data, pos);
    if size.Some? then (true, start + size.value) else (false, start)
  }

  /** One name, its NUL included, appended to `names`; `None` when the buffer cannot be grown. */
  function ReadName(alloc: (Buffer, nat) -> bool, data: seq<Byte>, pos: nat, names: seq<Byte>): (r: Option<(seq<Byte>, nat)>)
    requires |names| < NAME_LIMIT
    ensures r.Some? ==> |names| < |r.value.0| < NAME_LIMIT
    decreases NAME_LIMIT - |names|
  {
    if !CanGrow(alloc, NameBuffer, |names|) then None
    else
      var b := GetByte(data, pos);
      if b == 0 then Some((names + [b], pos + 1))
      else ReadName(alloc, data, pos + 1, names + [b])
  }

  /** The symbol loop of `read_symbol_block`, `read` bytes into a block of `size`. */
  function ReadSymbols(
      alloc: (Buffer, nat) -> bool, data: seq<Byte>, pos: nat, read: nat, size: nat, t: Table): (r: Option<(Table, nat)>)
    requires |t.names| < NAME_LIMIT
    decreases NAME_LIMIT - |t.names|
  {
    if read >= size then Some((t, pos))
    else if !CanGrow(alloc, AddrBuffer, |t.addr|) then None
    else
      var addr := Read32(data, pos);
      if addr == None || !CanGrow(alloc, StartBuffer, |t.starts|) then None
      else
        match ReadName(alloc, data, pos + 4, t.names)
        case None => None
        case Some((names, next)) =>
          ReadSymbols(alloc, data, next, (read + 4 + (next - (pos + 4))) % TWO32, size,
            Table(t.addr + [addr.value], names, t.starts + [|t.names| % TWO32]))
  }

  /** `read_symbol_block`: a missing block counts as an empty one. */
  function ReadBlock(alloc: (Buffer, nat) -> bool, data: seq<Byte>, pos: nat): Option<(Table, nat)> {
    var (size, start) := BlockSize(data, pos);
    if size.Some? then ReadSymbols(alloc, data, start, 0, size.value, EMPTY) else Some((EMPTY, start))
  }

  /** `load_debug_data`: both tables, or failure; also where the two skips arrived. */
  function LoadDebug(alloc1: (Buffer, nat) -> bool, alloc2: (Buffer, nat) -> bool, data: seq<Byte>): Option<(Table, Table)> {
    var (ok1, p1) := SkipBlock(data, 4);
    var (ok2, p2) := SkipBlock(data, p1);
    match ReadBlock(alloc1, data, p2)
    case None => None
    case Some((funcs, p3)) =>
      match ReadBlock(alloc2, data, p3)
      case None => None
      case Some((sections, p4)) => if ok1 && ok2 then Some((funcs, sections)) else None
  }

  datatype Symbol = Symbol(addr: U32, name: seq<Byte>)

  /** No name holds a NUL. */
  predicate Plain(symbols: seq<Symbol>) {
    forall i, k :: 0 <= i < |symbols| && 0 <= k < |symbols[i].name| ==> symbols[i].name[k] != 0
  }

  function WriteSymbols(symbols: seq<Symbol>): seq<Byte> {
    if symbols == [] then []
    else Write32(symbols[0].addr) + (symbols[0].name + [0]) + WriteSymbols(symbols[1..])
  }

  /** The characters the names take, NULs included. */
  function NameBytes(symbols: seq<Symbol>): nat {
    if symbols == [] then 0 else |symbols[0].name| + 1 + NameBytes(symbols[1..])
  }

  function Append(t: Table, s: Symbol): Table {
    Table(t.addr + [s.addr], t.names + (s.name + [0]), t.starts + [|t.names| % TWO32])
  }

  function Extend(t: Table, symbols: seq<Symbol>): Table
    decreases |symbols|
  {
    if symbols == [] then t else Extend(Append(t, symbols[0]), symbols[1..])
  }

  ghost predicate Grants(alloc: (Buffer, nat) -> bool) {
    forall b, n :: alloc(b, n)
  }

  lemma {:induction false} NameReads(alloc: (Buffer, nat) -> bool, data: seq<Byte>, pos: nat, names: seq<Byte>, name: seq<Byte>)
    requires Grants(alloc) && |names| < NAME_LIMIT && At(data, pos, name + [0])
    requires forall k :: 0 <= k < |name| ==> name[k] != 0
    ensures ReadName(alloc, data, pos, names) ==
      if |names| + |name| + 1 < NAME_LIMIT then Some((names + (name + [0]), pos + |name| + 1)) else None
    decreases |name|
  {
    var chunk := data[pos..pos + |name + [0]|];
    assert data[pos] == chunk[0] == (name + [0])[0];
    if name == [] {
      assert name + [0] == [0];
    } else if |names| + 1 < NAME_LIMIT {
      assert name + [0] == [name[0]] + (name[1..] + [0]);
      AtSplit(data, pos, [name[0]], name[1..] + [0]);
      NameReads(alloc, data, pos + 1, names + [name[0]], name[1..]);
      assert names + [name[0]] + (name[1..] + [0]) == names + (name + [0]);
    }
  }

  /** One turn of the symbol loop. */
  lemma OneSymbol(
      alloc: (Buffer, nat) -> bool, data: seq<Byte>, pos: nat, read: nat, size: nat, t: Table)
    requires |t.names| < NAME_LIMIT && read < size
    ensures var addr, name := Read32(data, pos), ReadName(alloc, data, pos + 4, t.names);
      ReadSymbols(alloc, data, pos, read, size, t) ==
        if !CanGrow(alloc, AddrBuffer, |t.addr|) || addr == None ||
           !CanGrow(alloc, StartBuffer, |t.starts|) || name == None then None
        else ReadSymbols(alloc, data, name.value.1, (read + 4 + (name.value.1 - (pos + 4))) % TWO32, size,
               Table(t.addr + [addr.value], name.value.0, t.starts + [|t.names| % TWO32]))
  {
    hide CanGrow, Read32, ReadName;
  }

  lemma Grows(alloc: (Buffer, nat) -> bool, b: Buffer, n: nat)
    requires Grants(alloc) && n < NAME_LIMIT
    ensures CanGrow(alloc, b, n) <==> n + 1 < NAME_LIMIT
  {
  }

  /** One turn of the symbol loop over a written symbol. */
  lemma SymbolReads(alloc: (Buffer, nat) -> bool, data: seq<Byte>, pos: nat, read: nat, size: nat, t: Table, s: Symbol)
    requires Grants(alloc) && |t.names| < NAME_LIMIT && |t.addr| == |t.starts| <= |t.names| && read < size
    requires At(data, pos, Write32(s.addr)) && At(data, pos + 4, s.name + [0])
    requires forall k :: 0 <= k < |s.name| ==> s.name[k] != 0
    requires read + 5 + |s.name| < TWO32
    ensures ReadSymbols(alloc, data, pos, read, size, t) ==
      if |t.names| + |s.name| + 1 < NAME_LIMIT
      then ReadSymbols(alloc, data, pos + 5 + |s.name|, read + 5 + |s.name|, size, Append(t, s)) else None
  {
    hide ReadSymbols, ReadName, Write32, At, Read32, Grants, CanGrow;
    OneSymbol(alloc, data, pos, read, size, t);
    ReadsWritten(data, pos, s.addr);
    NameReads(alloc, data, pos + 4, t.names, s.name);
    if |t.names| + |s.name| + 1 < NAME_LIMIT {
      Grows(alloc, AddrBuffer, |t.addr|);
      Grows(alloc, StartBuffer, |t.starts|);
    }
  }

  lemma ReadsNothing(alloc: (Buffer, nat) -> bool, data: seq<Byte>, pos: nat, read: nat, t: Table)
    requires |t.names| < NAME_LIMIT
    ensures ReadSymbols(alloc, data, pos, read, read, t) == Some((t, pos))
  {
  }

  lemma PlainParts(symbols: seq<Symbol>)
    requires symbols != [] && Plain(symbols)
    ensures Plain(symbols[1..]) && forall k :: 0 <= k < |symbols[0].name| ==> symbols[0].name[k] != 0
  {
    forall i, k | 0 <= i < |symbols[1..]| && 0 <= k < |symbols[1..][i].name| ensures symbols[1..][i].name[k] != 0 {
      assert symbols[1..][i] == symbols[i + 1];
    }
  }

  /**
   * The symbol reader inverts the writer, up to its one limit: exactly when the names take 2^30
   * characters or more, the byte count of their buffer wraps to zero and reading fails.
   */
  lemma {:induction false} SymbolsReadBack(
      alloc: (Buffer, nat) -> bool, data: seq<Byte>, pos: nat, read: nat, size: nat, t: Table, symbols: seq<Symbol>)
    requires Grants(alloc) && |t.names| < NAME_LIMIT && |t.addr| == |t.starts| <= |t.names| && Plain(symbols)
    requires At(data, pos, WriteSymbols(symbols)) && read + |WriteSymbols(symbols)| == size < TWO32
    ensures ReadSymbols(alloc, data, pos, read, size, t) ==
      if |t.names| + NameBytes(symbols) < NAME_LIMIT
      then Some((Extend(t, symbols), pos + |WriteSymbols(symbols)|)) else None
    decreases |symbols|
  {
    hide ReadSymbols, At, Write32, Plain;
    if symbols == [] {
      ReadsNothing(alloc, data, pos, read, t);
    } else {
      var s, rest := symbols[0], symbols[1..];
      PlainParts(symbols);
      AtSplitThree(data, pos, Write32(s.addr), s.name + [0], WriteSymbols(rest));
      SymbolReads(alloc, data, pos, read, size, t, s);
      if |t.names| + |s.name| + 1 < NAME_LIMIT {
        SymbolsReadBack(alloc, data, pos + 5 + |s.name|, read + 5 + |s.name|, size, Append(t, s), rest);
      }
    }
  }

  /** `read` bytes into a block of `size`, these symbols take the reader to the end or just past it. */
  predicate Fills(symbols: seq<Symbol>, read: nat, size: nat)
    decreases |symbols|
  {
    if symbols == [] then read >= size
    else read < size && Fills(symbols[1..], read + 5 + |symbols[0].name|, size)
  }

  lemma {:induction false} NameIsInFile(alloc: (Buffer, nat) -> bool, data: seq<Byte>, pos: nat, names: seq<Byte>)
      returns (name: seq<Byte>)
    requires |names| < NAME_LIMIT && ReadName(alloc, data, pos, names).Some?
    ensures (forall k :: 0 <= k < |name| ==> name[k] != 0) && At(data, pos, name + [0])
    ensures ReadName(alloc, data, pos, names).value == (names + (name + [0]), pos + |name| + 1)
    decreases NAME_LIMIT - |names|
  {
    var b := GetByte(data, pos);
    if b == 0 {
      name := [];
      assert name + [0] == [0] && data[pos..pos + 1] == [0];
    } else {
      var rest := NameIsInFile(alloc, data, pos + 1, names + [b]);
      name := [b] + rest;
      assert name + [0] == [b] + (rest + [0]);
      assert names + [b] + (rest + [0]) == names + (name + [0]);
      assert data[pos..pos + 1] == [b];
      AtJoin(data, pos, [b], rest + [0]);
    }
  }

  /**
   * The reader makes up nothing: whatever it returns are symbols that stand written in the file, and they
   * fill the block.
   */
  lemma {:induction false} SymbolsAreInFile(
      alloc: (Buffer, nat) -> bool, data: seq<Byte>, pos: nat, read: nat, size: nat, t: Table)
      returns (symbols: seq<Symbol>)
    requires pos <= |data| && |t.names| < NAME_LIMIT && size < 0x8000_0000
    requires ReadSymbols(alloc, data, pos, read, size, t).Some?
    ensures Plain(symbols) && At(data, pos, WriteSymbols(symbols)) && Fills(symbols, read, size)
    ensures ReadSymbols(alloc, data, pos, read, size, t).value ==
      (Extend(t, symbols), pos + |WriteSymbols(symbols)|)
    decreases NAME_LIMIT - |t.names|
  {
    hide ReadSymbols, ReadName, CanGrow, At, Write32, Read32, Plain;
    if read >= size {
      symbols := [];
      EndsHere(alloc, data, pos, read, size, t);
    } else {
      OneSymbol(alloc, data, pos, read, size, t);
      var addr := Read32(data, pos).value;
      var name := NameIsInFile(alloc, data, pos + 4, t.names);
      var s := Symbol(addr, name);
      var rest := SymbolsAreInFile(alloc, data, pos + 5 + |name|, read + 5 + |name|, size, Append(t, s));
      symbols := [s] + rest;
      assert symbols[1..] == rest;
      AddressIsInFile(data, pos);
      AtJoin(data, pos, Write32(addr), name + [0]);
      AtJoin(data, pos, Write32(addr) + (name + [0]), WriteSymbols(rest));
      PlainMore(s, rest);
    }
  }

  lemma AddressIsInFile(data: seq<Byte>, pos: nat)
    requires Read32(data, pos).Some?
    ensures At(data, pos, Write32(Read32(data, pos).value))
  {
    hide Write32, Swap32, Little32;
    WrittenIsRead(data, pos);
  }

  lemma PlainMore(s: Symbol, rest: seq<Symbol>)
    requires Plain(rest) && forall k :: 0 <= k < |s.name| ==> s.name[k] != 0
    ensures Plain([s] + rest)
  {
  }

  lemma EndsHere(alloc: (Buffer, nat) -> bool, data: seq<Byte>, pos: nat, read: nat, size: nat, t: Table)
    requires |t.names| < NAME_LIMIT && read >= size && pos <= |data|
    ensures ReadSymbols(alloc, data, pos, read, size, t) == Some((t, pos)) && Plain([]) && At(data, pos, [])
  {
  }

  lemma BlockReadsBack(alloc: (Buffer, nat) -> bool, data: seq<Byte>, pos: nat, origin: U32, symbols: seq<Symbol>)
    requires Grants(alloc) && Plain(symbols) && |WriteSymbols(symbols)| < TWO32
    requires At(data, pos, WriteBlock(origin, WriteSymbols(symbols)))
    ensures ReadBlock(alloc, data, pos) ==
      if NameBytes(symbols) < NAME_LIMIT
      then Some((Extend(EMPTY, symbols), pos + 8 + |WriteSymbols(symbols)|)) else None
  {
    hide ReadSymbols, WriteSymbols, At, Read32, WriteBlock, Extend;
    BlockParts(data, pos, origin, WriteSymbols(symbols));
    SymbolsReadBack(alloc, data, pos + 8, 0, |WriteSymbols(symbols)|, EMPTY, symbols);
  }

  lemma BlockSkips(data: seq<Byte>, pos: nat, origin: U32, payload: seq<Byte>)
    requires |payload| < TWO32 && At(data, pos, WriteBlock(origin, payload))
    ensures SkipBlock(data, pos) == (true, pos + 8 + |payload|)
  {
    hide Read32;
    BlockParts(data, pos, origin, payload);
  }

  /** A whole program file. */
  datatype File = File(
    o1: U32, consts: seq<Word>, o2: U32, code: seq<Byte>, o3: U32, funcs: seq<Symbol>, o4: U32, sections: seq<Symbol>)
  {
    /** Block sizes are positive C `int`s, and names hold no NUL. */
    predicate Valid() {
      4 * |consts| < 0x8000_0000 && |code| < 0x8000_0000 && Plain(funcs) && Plain(sections) &&
      |WriteSymbols(funcs)| < 0x8000_0000 && |WriteSymbols(sections)| < 0x8000_0000
    }

    function Bytes(): seq<Byte>
      requires Valid()
    {
      WriteProgram(o1, consts, o2, code) + WriteBlock(o3, WriteSymbols(funcs)) + WriteBlock(o4, WriteSymbols(sections))
    }
  }

  lemma WholeIsAt(data: seq<Byte>)
    ensures At(data, 0, data)
  {
  }

  /**
   * The file round trip. Loading a written file recovers constants and code; the debug reader's two
   * skips arrive exactly where loading stopped; and both symbol tables come back unless the names of
   * one of them reach 2^30 characters.
   */
  lemma FileRoundTrip(alloc1: (Buffer, nat) -> bool, alloc2: (Buffer, nat) -> bool, f: File)
    requires f.Valid() && Grants(alloc1) && Grants(alloc2)
    ensures var data := f.Bytes();
      var end := 20 + 4 * |f.consts| + |f.code|;
      LoadBin(data, Buffers(true, true)) == Some((Image(4 * |f.consts|, f.consts, |f.code|, f.code), end)) &&
      SkipBlock(data, 4).0 && SkipBlock(data, SkipBlock(data, 4).1) == (true, end) &&
      LoadDebug(alloc1, alloc2, data) ==
        if NameBytes(f.funcs) < NAME_LIMIT && NameBytes(f.sections) < NAME_LIMIT
        then Some((Extend(EMPTY, f.funcs), Extend(EMPTY, f.sections))) else None
  {
    hide WriteProgram, WriteBlock, WriteSymbols, At, SkipBlock, LoadBin, ReadBlock, NameBytes, Plain, WriteConsts;
    var data := f.Bytes();
    WholeIsAt(data);
    AtSplitThree(data, 0, WriteProgram(f.o1, f.consts, f.o2, f.code),
      WriteBlock(f.o3, WriteSymbols(f.funcs)), WriteBlock(f.o4, WriteSymbols(f.sections)));
    ProgramLength(f.o1, f.consts, f.o2, f.code);
    LoadReadsWritten(data, f.o1, f.consts, f.o2, f.code);
    ProgramParts(data, f.o1, f.consts, f.o2, f.code);
    BlockSkips(data, 4, f.o1, WriteConsts(f.consts));
    BlockSkips(data, 12 + 4 * |f.consts|, f.o2, f.code);
    BlockReadsBack(alloc1, data, 20 + 4 * |f.consts| + |f.code|, f.o3, f.funcs);
    BlockReadsBack(alloc2, data, 28 + 4 * |f.consts| + |f.code| + |WriteSymbols(f.funcs)|, f.o4, f.sections);
  }

  lemma ProgramLength(o1: U32, consts: seq<Word>, o2: U32, code: seq<Byte>)
    requires 4 * |consts| < TWO32 && |code| < TWO32
    ensures |WriteProgram(o1, consts, o2, code)| == 20 + 4 * |consts| + |code|
  {
    hide *;
    ProgramIs(o1, consts, o2, code);
  }

  /** The characters from `k` up to the next NUL, as `str_dup` copies them. */
  function CString(names: seq<Byte>, k: nat): seq<Byte>
    decreases |names| - k
  {
    if k >= |names| || names[k] == 0 then [] else [names[k]] + CString(names, k + 1)
  }

  /** `get_func_name` on a valid index. */
  function NameAt(t: Table, i: nat): seq<Byte>
    requires i < |t.starts|
  {
    CString(t.names, t.starts[i])
  }

  lemma {:induction false} CStringIs(names: seq<Byte>, k: nat, name: seq<Byte>)
    requires k + |name| < |names| && names[k..k + |name|] == name && names[k + |name|] == 0
    requires forall i :: 0 <= i < |name| ==> name[i] != 0
    ensures CString(names, k) == name
    decreases |name|
  {
    if name != [] {
      assert names[k] == names[k..k + |name|][0] == name[0];
      assert names[k + 1..k + |name|] == names[k..k + |name|][1..] == name[1..];
      CStringIs(names, k + 1, name[1..]);
    }
  }

  lemma {:induction false} ExtendKeeps(t: Table, symbols: seq<Symbol>)
    ensures t.names <= Extend(t, symbols).names && t.starts <= Extend(t, symbols).starts
    ensures t.addr <= Extend(t, symbols).addr
    ensures |Extend(t, symbols).starts| == |t.starts| + |symbols| && |Extend(t, symbols).addr| == |t.addr| + |symbols|
    decreases |symbols|
  {
    if symbols != [] { ExtendKeeps(Append(t, symbols[0]), symbols[1..]); }
  }

  /** In the recovered table, entry `i` has the `i`-th label's address and name. */
  lemma {:induction false} TableNames(t: Table, symbols: seq<Symbol>, i: nat)
    requires i < |symbols| && Plain(symbols) && |t.addr| == |t.starts|
    requires |t.names| + NameBytes(symbols) < NAME_LIMIT
    ensures var u := Extend(t, symbols);
      |t.starts| + i < |u.starts| == |u.addr| &&
      u.addr[|t.addr| + i] == symbols[i].addr && NameAt(u, |t.starts| + i) == symbols[i].name
    decreases |symbols|
  {
    var t1 := Append(t, symbols[0]);
    var u := Extend(t, symbols);
    ExtendKeeps(t1, symbols[1..]);
    if i > 0 {
      assert symbols[i] == symbols[1..][i - 1];
      TableNames(t1, symbols[1..], i - 1);
    } else {
      var name := symbols[0].name;
      assert u.starts[|t.starts|] == t1.starts[|t.starts|] == |t.names|;
      assert u.addr[|t.addr|] == t1.addr[|t.addr|];
      forall k | 0 <= k <= |name| ensures u.names[|t.names| + k] == (name + [0])[k] {
        assert u.names[|t.names| + k] == t1.names[|t.names| + k];
      }
      assert u.names[|t.names|..|t.names| + |name|] == name;
      CStringIs(u.names, |t.names|, name);
    }
  }

  predicate Ascending(addr: seq<U32>) {
    forall i, k :: 0 <= i < k < |addr| ==> addr[i] < addr[k]
  }

  /** `k` is the last label not above `a`. */
  predicate LastNotAbove(addr: seq<U32>, a: U32, k: nat) {
    k < |addr| && addr[k] <= a && forall i :: k < i < |addr| ==> a < addr[i]
  }

  /**
   * `addr_to_func_name`; `None` is the "??" answer. On ascending labels it finds the last label not
   * above the address exactly for addresses from the first label to the last one; beyond the last
   * it does not know, and below the first it reads entry -1 of the name table.
   */
  method AddrToFuncName(t: Table, a: U32) returns (r: Outcome<Option<seq<Byte>>>)
    requires |t.starts| == |t.addr|
    ensures Ascending(t.addr) ==>
      if t.addr == [] || t.addr[|t.addr| - 1] < a then r == Live(None)
      else if a < t.addr[0] then r == WildStack
      else exists k: nat :: LastNotAbove(t.addr, a, k) && r == Live(Some(NameAt(t, k)))
  {
    r := Live(None);
    for i := 0 to |t.addr|
      invariant r == Live(None)
      invariant Ascending(t.addr) ==> forall k :: 0 <= k < i ==> t.addr[k] < a
    {
      if a == t.addr[i] {
        assert Ascending(t.addr) ==> LastNotAbove(t.addr, a, i);
        return Live(Some(NameAt(t, i)));
      }
      if a < t.addr[i] {
        if i == 0 {
          return WildStack;
        }
        assert Ascending(t.addr) ==> LastNotAbove(t.addr, a, i - 1);
        return Live(Some(NameAt(t, i - 1)));
      }
    }
  }

  /** Symbols are accepted only behind two blocks whose sizes stand in the file. */
  lemma DebugNeedsBlocks(alloc1: (Buffer, nat) -> bool, alloc2: (Buffer, nat) -> bool, data: seq<Byte>)
    requires LoadDebug(alloc1, alloc2, data).Some?
    ensures |data| >= 12 && Read32(data, 8).Some? && |data| >= 20 + Read32(data, 8).value
  {
    hide ReadBlock, Swap32, Little32;
  }

  /** A block that is missing behind them counts as empty. */
  lemma MissingBlockIsEmpty(alloc: (Buffer, nat) -> bool, data: seq<Byte>, pos: nat)
    requires pos + 8 > |data|
    ensures ReadBlock(alloc, data, pos).Some? && ReadBlock(alloc, data, pos).value.0 == EMPTY
  {
    hide ReadSymbols;
  }
}
