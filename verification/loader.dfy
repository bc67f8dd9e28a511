/** The two readers of a program file, working through a file position (src/loader.c, src/debug_data_loader.c). */
module Loaders {
  import opened Words
  import opened Outcomes
  import B = Binary
  import S = Symbols

  /** An open file: its bytes and its position indicator. */
  class ProgramFile {
    const data: seq<Byte>
    var pos: nat

    constructor (data: seq<Byte>)
      ensures this.data == data && pos == 0
    {
      this.data := data;
      pos := 0;
    }

    /** `fread` of one four-byte item; `None` when it reads none. */
    method ReadItem() returns (u: Option<U32>)
      modifies this
      ensures u == if old(pos) + 4 <= |data| then Some(B.Little32(data, old(pos))) else None
      ensures pos == if u.Some? then old(pos) + 4 else S.AfterFailedRead(data, old(pos))
    {
      if pos + 4 > |data| {
        pos := S.AfterFailedRead(data, pos);
        return None;
      }
      u := Some(B.Little32(data, pos));
      pos := pos + 4;
    }

    /** `fread` of `n` words into a buffer, in the host's byte order; the number of words read. */
    method ReadWords(buffer: array<Word>, n: nat) returns (done: nat)
      requires n <= buffer.Length
      modifies this, buffer
      ensures done == n <==> n == 0 || old(pos) + 4 * n <= |data|
      ensures done <= n && (done == n ==> pos == old(pos) + 4 * n)
      ensures done == n ==> forall i :: 0 <= i < n ==> buffer[i] == Wrap(B.Little32(data, old(pos) + 4 * i))
    {
      hide Wrap, B.Little32;
      done := 0;
      while done < n
        invariant done <= n && pos == old(pos) + 4 * done && (done == 0 || pos <= |data|)
        invariant forall i :: 0 <= i < done ==> buffer[i] == Wrap(B.Little32(data, old(pos) + 4 * i))
      {
        var u := ReadItem();
        if u.None? {
          return;
        }
        buffer[done] := Wrap(u.value);
        done := done + 1;
      }
    }

    /** `fread` of a whole buffer of bytes. */
    method ReadBytes(buffer: array<Byte>) returns (done: nat)
      modifies this, buffer
      ensures done == buffer.Length <==> buffer.Length == 0 || old(pos) + buffer.Length <= |data|
      ensures done <= buffer.Length && (done == buffer.Length ==> pos == old(pos) + buffer.Length)
      ensures done == buffer.Length ==> forall i :: 0 <= i < done ==> buffer[i] == data[old(pos) + i]
    {
      done := 0;
      while done < buffer.Length && pos < |data|
        invariant done <= buffer.Length && pos == old(pos) + done && (done == 0 || pos <= |data|)
        invariant forall i :: 0 <= i < done ==> buffer[i] == data[old(pos) + i]
      {
        buffer[done] := data[pos];
        done, pos := done + 1, pos + 1;
      }
    }

    /** `(char)getc(f)`, which stays where it is behind the end. */
    method GetC() returns (b: Byte)
      modifies this
      ensures b == S.GetByte(data, old(pos)) && pos == if old(pos) < |data| then old(pos) + 1 else old(pos)
    {
      b := S.GetByte(data, pos);
      if pos < |data| {
        pos := pos + 1;
      }
    }
  }

  /** The loader's half of the CPU: constant pool and code. */
  class Memories {
    var constMem: array<Word>
    var constMemSize: int
    var codeMem: array<Byte>
    var codeMemSize: int

    constructor ()
      ensures fresh(constMem) && fresh(codeMem)
    {
      constMem, constMemSize := new Word[0], 0;
      codeMem, codeMemSize := new Byte[0], 0;
    }

    /** `load_consts`. The buffer is four times as long as the constants it holds. */
    method LoadConsts(f: ProgramFile, alloc: bool) returns (ok: bool)
      modifies this`constMem, this`constMemSize, f
      ensures match B.LoadConsts(f.data, old(f.pos), alloc)
        case None => !ok
        case Some((size, consts, next)) =>
          ok && constMemSize == size && f.pos == next &&
          fresh(constMem) && |consts| <= constMem.Length && constMem[..|consts|] == consts
    {
      hide B.Swap32, B.Little32, Wrap, ToU32;
      var start := f.pos;
      var origin := f.ReadItem();
      if origin.None? {
        return false;
      }
      var raw := f.ReadItem();
      if raw.None? {
        return false;
      }
      var size := B.Swap32(raw.value);
      constMemSize := Wrap(size);
      WrapKeepsQuarters(size);
      if constMemSize % 4 != 0 || !alloc {
        return false;
      }
      constMem := new Word[size](_ => 0);
      var n := size / 4;
      var done := f.ReadWords(constMem, n);
      if done != n {
        return false;
      }
      SwapAll(constMem, n, f.data, start + 8);
      ok := true;
    }

    /** The loop that turns the loaded words into host order, in place. */
    static method SwapAll(mem: array<Word>, n: nat, ghost data: seq<Byte>, ghost start: nat)
      requires n <= mem.Length && start + 4 * n <= |data|
      requires forall i :: 0 <= i < n ==> mem[i] == Wrap(B.Little32(data, start + 4 * i))
      modifies mem
      ensures mem[..n] == B.ConstsAt(data, start, n)
    {
      hide B.Swap32, B.Little32, B.ConstsAt, Wrap, ToU32;
      for i := 0 to n
        invariant forall k :: 0 <= k < i ==> mem[k] == B.ConstsAt(data, start, n)[k]
        invariant forall k :: i <= k < n ==> mem[k] == Wrap(B.Little32(data, start + 4 * k))
      {
        ConstAt(data, start, n, i);
        UnsignedAgain(B.Little32(data, start + 4 * i));
        mem[i] := Wrap(B.Swap32(ToU32(mem[i])));
      }
    }

    static lemma WrapKeepsQuarters(u: U32)
      ensures Wrap(u) % 4 == u % 4
    {
    }

    static lemma {:induction false} ConstAt(data: seq<Byte>, start: nat, n: nat, i: nat)
      requires i < n && start + 4 * n <= |data|
      ensures B.ConstsAt(data, start, n)[i] == Wrap(B.Swap32(B.Little32(data, start + 4 * i)))
      decreases n
    {
      hide B.Swap32, B.Little32, Wrap;
      if i > 0 {
        ConstAt(data, start + 4, n - 1, i - 1);
      }
    }

    /** `load_code`. */
    method LoadCode(f: ProgramFile, alloc: bool) returns (ok: bool)
      modifies this`codeMem, this`codeMemSize, f
      ensures match B.LoadCode(f.data, old(f.pos), alloc)
        case None => !ok
        case Some((size, code, next)) => ok && codeMemSize == size && f.pos == next && fresh(codeMem) && codeMem[..] == code
    {
      hide B.Swap32, B.Little32, Wrap;
      var origin := f.ReadItem();
      if origin.None? {
        return false;
      }
      var raw := f.ReadItem();
      if raw.None? {
        return false;
      }
      var size := B.Swap32(raw.value);
      codeMemSize := Wrap(size);
      if !alloc {
        return false;
      }
      codeMem := new Byte[size](_ => 0);
      var done := f.ReadBytes(codeMem);
      ok := done == size;
    }

    /** `load_bin` on an opened file. */
    method LoadBin(f: ProgramFile, alloc: B.Buffers) returns (ok: bool)
      requires f.pos == 0
      modifies this, f
      ensures match B.LoadBin(f.data, alloc)
        case None => !ok
        case Some((image, end)) =>
          ok && f.pos == end && constMemSize == image.constSize && codeMemSize == image.codeSize &&
          |image.consts| <= constMem.Length && constMem[..|image.consts|] == image.consts && codeMem[..] == image.code
    {
      hide B.Swap32, B.Little32, B.LoadConsts, B.LoadCode;
      var magic := f.ReadItem();
      if magic.None? || B.Swap32(magic.value) != B.MAGIC {
        return false;
      }
      ok := LoadConsts(f, alloc.consts);
      if ok {
        ok := LoadCode(f, alloc.code);
      }
    }
  }

  /** One symbol block as it is being read. */
  class SymbolBlock {
    var num: nat
    var addr: seq<U32>
    var names: seq<Byte>
    var starts: seq<U32>

    constructor ()
      ensures Table() == S.EMPTY && num == 0
    {
      num, addr, names, starts := 0, [], [], [];
    }

    ghost function Table(): S.Table
      reads this
    {
      S.Table(addr, names, starts)
    }

    /** `read_symbol_block`. */
    method Read(f: ProgramFile, alloc: (S.Buffer, nat) -> bool) returns (ok: bool)
      requires Table() == S.EMPTY && num == 0
      modifies this, f
      ensures match S.ReadBlock(alloc, f.data, old(f.pos))
        case None => !ok
        case Some((t, next)) => ok && Table() == t && num == |t.addr| && f.pos == next
    {
      hide S.ReadSymbols, S.BlockSize;
      var size := BlockSize(f);
      ghost var start := f.pos;
      if size == 0 {
        num := 0;
        ReadsNothing(alloc, f.data, start, 0, 0, Table());
        return true;
      }
      var bytesRead := 0;
      while bytesRead < size
        invariant 0 <= bytesRead < TWO32 && |names| < S.NAME_LIMIT && num == |addr|
        invariant size < 0 ==> Table() == S.EMPTY && f.pos == start
        invariant size < 0 || SameRest(alloc, f.data, start, size, f.pos, bytesRead, Table())
        decreases S.NAME_LIMIT - |names|
      {
        bytesRead, ok := ReadSymbol(f, alloc, bytesRead, size);
        if !ok {
          return;
        }
      }
      if size >= 0 {
        ReadsNothing(alloc, f.data, f.pos, bytesRead, size, Table());
      }
      ok := true;
    }

    /** What the whole loop reads is what it still reads from here. */
    ghost static predicate SameRest(
        alloc: (S.Buffer, nat) -> bool, data: seq<Byte>, start: nat, size: nat, pos: nat, read: nat, t: S.Table)
    {
      |t.names| < S.NAME_LIMIT &&
      S.ReadSymbols(alloc, data, start, 0, size, S.EMPTY) == S.ReadSymbols(alloc, data, pos, read, size, t)
    }

    /** One turn of the symbol loop: address, start of the name, name. */
    method ReadSymbol(f: ProgramFile, alloc: (S.Buffer, nat) -> bool, before: U32, ghost size: nat)
      returns (bytesRead: U32, ok: bool)
      requires |names| < S.NAME_LIMIT && num == |addr| && before < size
      modifies this, f
      ensures ok ==> |old(names)| < |names| < S.NAME_LIMIT && num == |addr|
      ensures var spec := S.ReadSymbols(alloc, f.data, old(f.pos), before, size, old(Table()));
        spec == if ok then S.ReadSymbols(alloc, f.data, f.pos, bytesRead, size, Table()) else None
    {
      hide S.ReadSymbols, S.ReadName, S.CanGrow, S.AfterFailedRead, B.Swap32, B.Little32;
      S.OneSymbol(alloc, f.data, f.pos, before, size, Table());
      bytesRead := (before + 4) % TWO32;
      if !S.CanGrow(alloc, S.AddrBuffer, |addr|) {
        return bytesRead, false;
      }
      var raw := f.ReadItem();
      if raw.None? {
        return bytesRead, false;
      }
      addr := addr + [B.Swap32(raw.value)];
      if !S.CanGrow(alloc, S.StartBuffer, |starts|) {
        return bytesRead, false;
      }
      starts := starts + [|names| % TWO32];
      ghost var namePos := f.pos;
      bytesRead, ok := ReadName(f, alloc, bytesRead);
      if ok {
        WrapsOnce(before, f.pos - namePos);
        num := num + 1;
      }
    }

    static lemma WrapsOnce(before: nat, n: int)
      ensures ((before + 4) % TWO32 + n) % TWO32 == (before + 4 + n) % TWO32
    {
    }

    /** `get_block_size`, -1 when the size cannot be read. */
    static method BlockSize(f: ProgramFile) returns (size: int)
      modifies f
      ensures match S.BlockSize(f.data, old(f.pos))
        case (Some(n), next) => size == n && f.pos == next
        case (None, next) => size == -1 && f.pos == next
    {
      hide B.Swap32, B.Little32;
      f.pos := f.pos + 4;
      var raw := f.ReadItem();
      size := if raw.Some? then B.Swap32(raw.value) else -1;
    }

    /** `skip_block`. */
    static method Skip(f: ProgramFile) returns (ok: bool)
      modifies f
      ensures (ok, f.pos) == S.SkipBlock(f.data, old(f.pos))
    {
      var size := BlockSize(f);
      if size < 0 {
        return false;
      }
      f.pos := f.pos + size;
      ok := true;
    }

    /** The loop reading one name up to its NUL. */
    method ReadName(f: ProgramFile, alloc: (S.Buffer, nat) -> bool, before: U32) returns (bytesRead: U32, ok: bool)
      requires |names| < S.NAME_LIMIT
      modifies this`names, f
      ensures |names| >= |old(names)| && |names| < S.NAME_LIMIT
      ensures match S.ReadName(alloc, f.data, old(f.pos), old(names))
        case None => !ok
        case Some((all, next)) =>
          ok && names == all && |names| > |old(names)| && f.pos == next >= old(f.pos) &&
          bytesRead == (before + (next - old(f.pos))) % TWO32
    {
      hide S.ReadName, S.CanGrow;
      bytesRead, ok := before, false;
      ghost var spec := S.ReadName(alloc, f.data, f.pos, names);
      while !ok
        invariant |old(names)| <= |names| < S.NAME_LIMIT
        invariant bytesRead == (before + (|names| - |old(names)|)) % TWO32
        invariant ok ==> spec == Some((names, f.pos)) && |names| > |old(names)|
        invariant !ok ==> spec == S.ReadName(alloc, f.data, f.pos, names)
        invariant spec == None || f.pos == old(f.pos) + (|names| - |old(names)|)
        decreases !ok, S.NAME_LIMIT - |names|
      {
        OneCharacter(alloc, f.data, f.pos, names);
        if !S.CanGrow(alloc, S.NameBuffer, |names|) {
          return;
        }
        if f.pos >= |f.data| {
          EndNeverReads(alloc, f.data, f.pos, names);
          EndNeverReads(alloc, f.data, f.pos, names + [0xFF]);
        }
        var b := f.GetC();
        names := names + [b];
        bytesRead := (bytesRead + 1) % TWO32;
        ok := b == 0;
      }
    }

    static lemma OneCharacter(alloc: (S.Buffer, nat) -> bool, data: seq<Byte>, pos: nat, names: seq<Byte>)
      requires |names| < S.NAME_LIMIT
      ensures S.CanGrow(alloc, S.NameBuffer, |names|) ==> |names| + 1 < S.NAME_LIMIT
      ensures var b := S.GetByte(data, pos);
        S.ReadName(alloc, data, pos, names) ==
          if !S.CanGrow(alloc, S.NameBuffer, |names|) then None
          else if b == 0 then Some((names + [b], pos + 1))
          else S.ReadName(alloc, data, pos + 1, names + [b])
    {
    }

    /** Behind the end of the file no NUL comes any more, so the buffer grows until it cannot. */
    static lemma {:induction false} EndNeverReads(alloc: (S.Buffer, nat) -> bool, data: seq<Byte>, pos: nat, names: seq<Byte>)
      requires |names| < S.NAME_LIMIT && pos >= |data|
      ensures S.ReadName(alloc, data, pos, names) == None
      decreases S.NAME_LIMIT - |names|
    {
      if S.CanGrow(alloc, S.NameBuffer, |names|) {
        EndNeverReads(alloc, data, pos + 1, names + [0xFF]);
      }
    }

    static lemma ReadsNothing(
        alloc: (S.Buffer, nat) -> bool, data: seq<Byte>, pos: nat, read: nat, size: nat, t: S.Table)
      requires |t.names| < S.NAME_LIMIT && read >= size
      ensures S.ReadSymbols(alloc, data, pos, read, size, t) == Some((t, pos))
    {
    }
  }

  /** `load_debug_data` on an opened file; a failed load leaves both tables empty. */
  method LoadDebugData(f: ProgramFile, alloc1: (S.Buffer, nat) -> bool, alloc2: (S.Buffer, nat) -> bool)
    returns (ok: bool, funcs: SymbolBlock, sections: SymbolBlock)
    requires f.pos == 0
    modifies f
    ensures fresh(funcs) && fresh(sections)
    ensures match S.LoadDebug(alloc1, alloc2, f.data)
      case None => !ok && funcs.Table() == sections.Table() == S.EMPTY
      case Some((t1, t2)) => ok && funcs.Table() == t1 && sections.Table() == t2
  {
    hide S.SkipBlock, S.ReadBlock;
    funcs := new SymbolBlock();
    sections := new SymbolBlock();
    f.pos := f.pos + 4;
    var ok1 := SymbolBlock.Skip(f);
    var ok2 := SymbolBlock.Skip(f);
    var ok3 := funcs.Read(f, alloc1);
    var ok4 := sections.Read(f, alloc2);
    ok := ok1 && ok2 && ok3 && ok4;
    if !ok {
      funcs := new SymbolBlock();
      sections := new SymbolBlock();
    }
  }
}
