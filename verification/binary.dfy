/** The program file: a writer, and the reader of src/loader.c over a byte sequence. */
module Binary {
  import opened Words
  import opened Outcomes

  const MAGIC: U32 := 0x1DEADFAD

  /** `swap_uint32`. */
  function Swap32(u: U32): U32 {
    Join32(u / 256 / 256 / 256, u / 256 / 256 % 256, u / 256 % 256, u % 256)
  }

  /** Four bytes, least significant first. */
  function Join32(b0: int, b1: int, b2: int, b3: int): int {
    b0 + 256 * (b1 + 256 * (b2 + 256 * b3))
  }

  /** Four bytes as a little-endian host reads them. */
  function Little32(data: seq<Byte>, pos: nat): U32
    requires pos + 4 <= |data|
  {
    Join32(data[pos], data[pos + 1], data[pos + 2], data[pos + 3])
  }

  /** One `fread` of four bytes, then the swap. */
  function Read32(data: seq<Byte>, pos: nat): Option<U32> {
    if pos + 4 <= |data| then Some(Swap32(Little32(data, pos))) else None
  }

  /** A word in the file, most significant byte first. */
  function Write32(u: U32): (s: seq<Byte>)
    ensures |s| == 4
  {
    [u / 256 / 256 / 256, u / 256 / 256 % 256, u / 256 % 256, u % 256]
  }

  /** `chunk` stands in `data` at `pos`. */
  predicate At(data: seq<Byte>, pos: nat, chunk: seq<Byte>) {
    pos + |chunk| <= |data| && data[pos..pos + |chunk|] == chunk
  }

  lemma AtSplit(data: seq<Byte>, pos: nat, a: seq<Byte>, b: seq<Byte>)
    requires At(data, pos, a + b)
    ensures At(data, pos, a) && At(data, pos + |a|, b)
  {
    var chunk := data[pos..pos + |a + b|];
    assert chunk[..|a|] == a && chunk[|a|..] == b;
    assert data[pos..pos + |a|] == chunk[..|a|];
    assert data[pos + |a|..pos + |a| + |b|] == chunk[|a|..];
  }

  lemma AtSplitThree(data: seq<Byte>, pos: nat, a: seq<Byte>, b: seq<Byte>, c: seq<Byte>)
    requires At(data, pos, a + b + c)
    ensures At(data, pos, a) && At(data, pos + |a|, b) && At(data, pos + |a| + |b|, c)
  {
    hide At;
    AtSplit(data, pos, a + b, c);
    AtSplit(data, pos, a, b);
  }

  lemma ReadsWritten(data: seq<Byte>, pos: nat, u: U32)
    requires At(data, pos, Write32(u))
    ensures Read32(data, pos) == Some(u)
  {
    var w := Write32(u);
    assert forall i :: 0 <= i < 4 ==> data[pos + i] == data[pos..pos + 4][i] == w[i];
    SwapJoin(w[0], w[1], w[2], w[3]);
  }

  lemma Shift(b: int, x: int)
    requires 0 <= b < 256
    ensures (b + 256 * x) % 256 == b && (b + 256 * x) / 256 == x
  {
  }

  lemma SwapJoin(b0: Byte, b1: Byte, b2: Byte, b3: Byte)
    ensures Swap32(Join32(b0, b1, b2, b3)) == Join32(b3, b2, b1, b0)
  {
    Shift(b0, b1 as int + 256 * (b2 as int + 256 * (b3 as int)));
    Shift(b1, b2 as int + 256 * (b3 as int));
    Shift(b2, b3);
  }

  /** What malloc answers for the constant pool and for the code. */
  datatype Buffers = Buffers(consts: bool, code: bool)

  /** The sizes are the C `int`s, negative from 2^31 on. */
  datatype Image = Image(constSize: int, consts: seq<Word>, codeSize: int, code: seq<Byte>)

  function ConstsAt(data: seq<Byte>, pos: nat, n: nat): (s: seq<Word>)
    requires pos + 4 * n <= |data|
    ensures |s| == n
    decreases n
  {
    if n == 0 then [] else [Wrap(Swap32(Little32(data, pos)))] + ConstsAt(data, pos + 4, n - 1)
  }

  /** `load_consts` from `pos`: size, constants, and the position behind them. */
  function LoadConsts(data: seq<Byte>, pos: nat, alloc: bool): (r: Option<(int, seq<Word>, nat)>)
    ensures r.Some? ==> r.value.2 <= |data|
  {
    var size := Read32(data, pos + 4);
    if Read32(data, pos) == None || size == None || size.value % 4 != 0 || !alloc ||
       pos + 8 + size.value > |data| then None
    else Some((Wrap(size.value), ConstsAt(data, pos + 8, size.value / 4), pos + 8 + size.value))
  }

  /** `load_code` from `pos`. */
  function LoadCode(data: seq<Byte>, pos: nat, alloc: bool): (r: Option<(int, seq<Byte>, nat)>)
    ensures r.Some? ==> r.value.2 <= |data|
  {
    var size := Read32(data, pos + 4);
    if Read32(data, pos) == None || size == None || !alloc || pos + 8 + size.value > |data| then None
    else Some((Wrap(size.value), data[pos + 8..pos + 8 + size.value], pos + 8 + size.value))
  }

  /** `load_bin`: the image, and where reading stopped. */
  function LoadBin(data: seq<Byte>, alloc: Buffers): Option<(Image, nat)> {
    if Read32(data, 0) != Some(MAGIC) then None
    else
      match LoadConsts(data, 4, alloc.consts)
      case None => None
      case Some((constSize, consts, pos)) =>
        match LoadCode(data, pos, alloc.code)
        case None => None
        case Some((codeSize, code, end)) => Some((Image(constSize, consts, codeSize, code), end))
  }

  /** A block: origin, size, payload. */
  function WriteBlock(origin: U32, payload: seq<Byte>): (s: seq<Byte>)
    requires |payload| < TWO32
    ensures |s| == 8 + |payload|
  {
    Write32(origin) + Write32(|payload|) + payload
  }

  function WriteConsts(consts: seq<Word>): (s: seq<Byte>)
    ensures |s| == 4 * |consts|
  {
    if consts == [] then [] else Write32(ToU32(consts[0])) + WriteConsts(consts[1..])
  }

  lemma BlockParts(data: seq<Byte>, pos: nat, origin: U32, payload: seq<Byte>)
    requires |payload| < TWO32 && At(data, pos, WriteBlock(origin, payload))
    ensures Read32(data, pos) == Some(origin) && Read32(data, pos + 4) == Some(|payload|)
    ensures At(data, pos + 8, payload)
  {
    hide Read32;
    AtSplit(data, pos, Write32(origin) + Write32(|payload|), payload);
    AtSplit(data, pos, Write32(origin), Write32(|payload|));
    ReadsWritten(data, pos, origin);
    ReadsWritten(data, pos + 4, |payload|);
  }

  lemma {:induction false} ConstsReadBack(data: seq<Byte>, pos: nat, consts: seq<Word>)
    requires At(data, pos, WriteConsts(consts))
    ensures ConstsAt(data, pos, |consts|) == consts
    decreases |consts|
  {
    hide Write32, Swap32, Little32, Wrap, ToU32;
    if consts != [] {
      AtSplit(data, pos, Write32(ToU32(consts[0])), WriteConsts(consts[1..]));
      ReadsWritten(data, pos, ToU32(consts[0]));
      ConstsReadBack(data, pos + 4, consts[1..]);
    }
  }

  /** What a binary carries besides its symbols, written. */
  function WriteProgram(o1: U32, consts: seq<Word>, o2: U32, code: seq<Byte>): seq<Byte>
    requires 4 * |consts| < TWO32 && |code| < TWO32
  {
    Write32(MAGIC) + WriteBlock(o1, WriteConsts(consts)) + WriteBlock(o2, code)
  }

  lemma ProgramIs(o1: U32, consts: seq<Word>, o2: U32, code: seq<Byte>)
    requires 4 * |consts| < TWO32 && |code| < TWO32
    ensures WriteProgram(o1, consts, o2, code)
         == Write32(MAGIC) + WriteBlock(o1, WriteConsts(consts)) + WriteBlock(o2, code)
  {
    hide WriteBlock, WriteConsts, Write32;
  }

  lemma ProgramParts(data: seq<Byte>, o1: U32, consts: seq<Word>, o2: U32, code: seq<Byte>)
    requires 4 * |consts| < TWO32 && |code| < TWO32 && At(data, 0, WriteProgram(o1, consts, o2, code))
    ensures At(data, 0, Write32(MAGIC)) && At(data, 4, WriteBlock(o1, WriteConsts(consts)))
    ensures At(data, 12 + 4 * |consts|, WriteBlock(o2, code))
  {
    hide *;
    var b1, b2 := WriteBlock(o1, WriteConsts(consts)), WriteBlock(o2, code);
    ProgramIs(o1, consts, o2, code);
    AtSplitThree(data, 0, Write32(MAGIC), b1, b2);
    assert 0 + |Write32(MAGIC)| == 4 && 0 + |Write32(MAGIC)| + |b1| == 12 + 4 * |consts|;
  }

  /** Loading recovers constants and code of every written program, whatever bytes follow them. */
  lemma LoadReadsWritten(data: seq<Byte>, o1: U32, consts: seq<Word>, o2: U32, code: seq<Byte>)
    requires 4 * |consts| < TWO32 && |code| < TWO32 && At(data, 0, WriteProgram(o1, consts, o2, code))
    ensures LoadBin(data, Buffers(true, true)) ==
      Some((Image(Wrap(4 * |consts|), consts, Wrap(|code|), code), 20 + 4 * |consts| + |code|))
  {
    hide Read32, Write32, WriteBlock, WriteConsts, ConstsAt;
    ProgramParts(data, o1, consts, o2, code);
    ReadsWritten(data, 0, MAGIC);
    BlockParts(data, 4, o1, WriteConsts(consts));
    BlockParts(data, 12 + 4 * |consts|, o2, code);
    ConstsReadBack(data, 12, consts);
  }

  lemma AtJoin(data: seq<Byte>, pos: nat, a: seq<Byte>, b: seq<Byte>)
    requires At(data, pos, a) && At(data, pos + |a|, b)
    ensures At(data, pos, a + b)
  {
    assert data[pos..pos + |a + b|] == data[pos..pos + |a|] + data[pos + |a|..pos + |a| + |b|];
  }

  lemma JoinBytes(b0: Byte, b1: Byte, b2: Byte, b3: Byte)
    ensures Write32(Join32(b3, b2, b1, b0)) == [b0, b1, b2, b3]
  {
    Shift(b3, b2 as int + 256 * (b1 as int + 256 * (b0 as int)));
    Shift(b2, b1 as int + 256 * (b0 as int));
    Shift(b1, b0);
  }

  /** Four bytes that are read as a word are that word, written. */
  lemma WrittenIsRead(data: seq<Byte>, pos: nat)
    requires pos + 4 <= |data|
    ensures At(data, pos, Write32(Swap32(Little32(data, pos))))
  {
    hide Write32, Swap32;
    SwapJoin(data[pos], data[pos + 1], data[pos + 2], data[pos + 3]);
    JoinBytes(data[pos], data[pos + 1], data[pos + 2], data[pos + 3]);
    assert data[pos..pos + 4] == [data[pos], data[pos + 1], data[pos + 2], data[pos + 3]];
  }

  lemma {:induction false} ConstsAreWritten(data: seq<Byte>, pos: nat, n: nat)
    requires pos + 4 * n <= |data|
    ensures At(data, pos, WriteConsts(ConstsAt(data, pos, n)))
    decreases n
  {
    hide Write32, Swap32, Little32, Wrap, ToU32;
    if n > 0 {
      var u := Swap32(Little32(data, pos));
      WrittenIsRead(data, pos);
      UnsignedAgain(u);
      ConstsAreWritten(data, pos + 4, n - 1);
      var consts := ConstsAt(data, pos, n);
      assert consts[1..] == ConstsAt(data, pos + 4, n - 1);
      AtJoin(data, pos, Write32(u), WriteConsts(consts[1..]));
    }
  }

  lemma BlockIsWritten(data: seq<Byte>, pos: nat, payload: seq<Byte>)
    requires Read32(data, pos).Some? && Read32(data, pos + 4) == Some(|payload|) && At(data, pos + 8, payload)
    ensures |payload| < TWO32 && At(data, pos, WriteBlock(Read32(data, pos).value, payload))
  {
    hide At, Write32, Swap32, Little32;
    WrittenIsRead(data, pos);
    WrittenIsRead(data, pos + 4);
    AtJoin(data, pos, Write32(Read32(data, pos).value), Write32(|payload|));
    AtJoin(data, pos, Write32(Read32(data, pos).value) + Write32(|payload|), payload);
  }

  /** `data` starts with a written program. */
  ghost predicate StartsWithProgram(data: seq<Byte>) {
    exists o1: U32, consts: seq<Word>, o2: U32, code: seq<Byte> ::
      4 * |consts| < TWO32 && |code| < TWO32 && At(data, 0, WriteProgram(o1, consts, o2, code))
  }

  /** `load_bin` accepts exactly the files that start with a written program, if its buffers are granted. */
  lemma LoadAcceptsIff(data: seq<Byte>, alloc: Buffers)
    ensures LoadBin(data, alloc).Some? <==> alloc.consts && alloc.code && StartsWithProgram(data)
  {
    if LoadBin(data, alloc).Some? { LoadedIsWritten(data, alloc); }
    if alloc.consts && alloc.code && StartsWithProgram(data) {
      hide WriteProgram;
      var o1: U32, consts: seq<Word>, o2: U32, code: seq<Byte> :|
        4 * |consts| < TWO32 && |code| < TWO32 && At(data, 0, WriteProgram(o1, consts, o2, code));
      LoadReadsWritten(data, o1, consts, o2, code);
    }
  }

  lemma LoadedIsWritten(data: seq<Byte>, alloc: Buffers)
    requires LoadBin(data, alloc).Some?
    ensures StartsWithProgram(data) && alloc.consts && alloc.code
  {
    hide Read32, WriteBlock, WriteConsts, ConstsAt, Write32, WriteProgram;
    var (size1, consts, pos) := LoadConsts(data, 4, alloc.consts).value;
    var (size2, code, end) := LoadCode(data, pos, alloc.code).value;
    var o1, o2 := Read32(data, 4).value, Read32(data, pos).value;
    ConstsAreWritten(data, 12, |consts|);
    MagicIsWritten(data);
    BlockIsWritten(data, 4, WriteConsts(consts));
    BlockIsWritten(data, pos, code);
    AtJoin(data, 0, Write32(MAGIC), WriteBlock(o1, WriteConsts(consts)));
    AtJoin(data, 0, Write32(MAGIC) + WriteBlock(o1, WriteConsts(consts)), WriteBlock(o2, code));
    ProgramIs(o1, consts, o2, code);
  }

  lemma MagicIsWritten(data: seq<Byte>)
    requires Read32(data, 0) == Some(MAGIC)
    ensures At(data, 0, Write32(MAGIC))
  {
    hide Write32, Swap32, Little32;
    WrittenIsRead(data, 0);
  }

  /** In particular the signature is looked at. */
  lemma SignatureIsChecked(data: seq<Byte>, alloc: Buffers)
    requires LoadBin(data, alloc).Some?
    ensures data[..4] == [0x1D, 0xEA, 0xDF, 0xAD]
  {
    hide LoadConsts, LoadCode, Read32;
    MagicIsWritten(data);
    assert Write32(MAGIC) == [0x1D, 0xEA, 0xDF, 0xAD];
  }
}
