/** The .sasm image: what it holds, how the encoder lays it out, and what the loader reads back. */
module SasmFormat {
  import opened Bytes
  import opened Results
  import Crc32

  const MAGIC: u32 := 0x4D534153
  const VERSION: byte := 1
  const MAX_FUNCTIONS := 4096
  const MAX_LOCALS := 1024
  const MAX_PARAMS := 16
  const MAX_SEGMENTS := 8
  const MAX_IOMAP := 64
  const MAX_LOOP_BOUNDS := 8
  const MAX_MEM_RANGES := 8
  const MAX_FUNCTION_CODE := 1048576
  const MAX_POOL := 2097152
  const MAX_MEMORY := 1048576
  const MAX_CALL_DEPTH := 256

  const SEC_TYPE: byte := 0
  const SEC_FUNC: byte := 1
  const SEC_MEM: byte := 2
  const SEC_IOMAP: byte := 3
  const SEC_CODE: byte := 4
  const SEC_SAFE: byte := 5
  const SEC_WCET: byte := 6

  datatype FuncType = FuncType(params: seq<byte>, results: seq<byte>)

  datatype FuncDecl = FuncDecl(typeIdx: u32, locals: seq<byte>)

  datatype MemSegment = MemSegment(kind: byte, start: u32, size: u32)

  /** A 64-bit float, as its eight little-endian bytes. */
  type Float64 = b: seq<byte> | |b| == 8 witness [0, 0, 0, 0, 0, 0, 0, 0]

  datatype IoEntry = IoEntry(name: u32, memOffset: u32, channel: u32, direction: byte, ioType: byte, bitWidth: u32,
                             scale: Float64, bias: Float64, low: u32, high: u32)

  datatype FuncCode = FuncCode(func: u32, offset: nat, size: u32)

  datatype Triple = Triple(func: u32, b: u32, c: u32)

  datatype MemRange = MemRange(low: u32, high: u32)

  datatype Safety = Safety(level: byte, cycleLimit: u32, stackDepth: u32, loops: seq<Triple>, ranges: seq<MemRange>,
                           wcet: seq<Triple>)

  datatype SasmModule = SasmModule(version: byte, flags: byte, types: seq<FuncType>, funcs: seq<FuncDecl>,
                                   memory: u32, segments: seq<MemSegment>, iomap: seq<IoEntry>,
                                   codes: seq<FuncCode>, pool: seq<byte>, safety: Safety, entry: nat)

  const NO_SAFETY := Safety(0, 0, 0, [], [], [])

  function Blank(version: byte, flags: byte): SasmModule {
    SasmModule(version, flags, [], [], 0, [], [], [], [], NO_SAFETY, 0)
  }

  // ---------- reading: a short read yields 0 and does not advance ----------

  function U8(buf: seq<byte>, pos: nat): (byte, nat) {
    if pos + 1 > |buf| then (0, pos) else (buf[pos], pos + 1)
  }

  function U32(buf: seq<byte>, pos: nat): (u32, nat) {
    if pos + 4 > |buf| then (0, pos) else (Get32(buf[pos..]), pos + 4)
  }

  function ByteList(buf: seq<byte>, pos: nat, n: nat, acc: seq<byte>): (seq<byte>, nat)
    decreases n
  {
    if n == 0 then (acc, pos)
    else var (b, p) := U8(buf, pos); ByteList(buf, p, n - 1, acc + [b])
  }

  type Reads<T> = (seq<byte>, nat) -> Option<(T, nat)>

  /** Items until the end of the section or the capacity of the table. */
  function Until<T>(read: Reads<T>, buf: seq<byte>, pos: nat, end: nat, max: nat, acc: seq<T>): Option<(seq<T>, nat)>
    decreases max - |acc|
  {
    if pos < end && |acc| < max then
      match read(buf, pos)
      case None => None
      case Some((x, p)) => Until(read, buf, p, end, max, acc + [x])
    else Some((acc, pos))
  }

  /** A stated number of items. */
  function Many<T>(read: Reads<T>, buf: seq<byte>, pos: nat, n: nat, acc: seq<T>): Option<(seq<T>, nat)>
    decreases n
  {
    if n == 0 then Some((acc, pos))
    else
      match read(buf, pos)
      case None => None
      case Some((x, p)) => Many(read, buf, p, n - 1, acc + [x])
  }

  function ReadType(buf: seq<byte>, pos: nat): Option<(FuncType, nat)> {
    var (np, p1) := U32(buf, pos);
    if np > MAX_PARAMS then None
    else
      var (params, p2) := ByteList(buf, p1, np, []);
      var (nr, p3) := U32(buf, p2);
      if nr > 1 then None
      else
        var (results, p4) := ByteList(buf, p3, nr, []);
        Some((FuncType(params, results), p4))
  }

  function ReadFunc(buf: seq<byte>, pos: nat): Option<(FuncDecl, nat)> {
    var (ty, p1) := U32(buf, pos);
    var (nl, p2) := U32(buf, p1);
    if nl > MAX_LOCALS then None
    else
      var (locals, p3) := ByteList(buf, p2, nl, []);
      Some((FuncDecl(ty, locals), p3))
  }

  function ReadSegment(buf: seq<byte>, pos: nat): Option<(MemSegment, nat)> {
    var (kind, p1) := U8(buf, pos);
    var (start, p2) := U32(buf, p1);
    var (size, p3) := U32(buf, p2);
    Some((MemSegment(kind, start, size), p3))
  }

  /** Neither infinite nor a NaN: the eleven exponent bits are not all set. */
  predicate Finite(b: Float64) {
    (b[7] as int) % 128 * 16 + (b[6] as int) / 16 != 0x7FF
  }

  /** The eight bytes as one number, least significant first. */
  function Float64Word(b: Float64): nat {
    (b[0] as int) + 0x100 * (b[1] as int) + 0x1_0000 * (b[2] as int) + 0x100_0000 * (b[3] as int)
    + 0x1_0000_0000 * (b[4] as int) + 0x100_0000_0000 * (b[5] as int) + 0x1_0000_0000_0000 * (b[6] as int)
    + 0x100_0000_0000_0000 * (b[7] as int)
  }

  /** In the double format of IEEE 754: without its sign, the word lies below that of infinity. */
  lemma FiniteExactly(b: Float64)
    ensures Finite(b) <==> Float64Word(b) % 0x8000_0000_0000_0000 < 0x7FF0_0000_0000_0000
  {
    var low := Float64Word(b) - 0x1_0000_0000_0000 * (b[6] as int) - 0x100_0000_0000_0000 * (b[7] as int);
    assert 0 <= low < 0x1_0000_0000_0000;
    TopBits(low, b[6], b[7]);
  }

  lemma TopBits(low: nat, x: byte, y: byte)
    requires low < 0x1_0000_0000_0000
    ensures var word := low + 0x1_0000_0000_0000 * (x as int) + 0x100_0000_0000_0000 * (y as int);
            word % 0x8000_0000_0000_0000 < 0x7FF0_0000_0000_0000 <==> (y as int) % 128 * 16 + (x as int) / 16 != 0x7FF
  {
    var s, e := (y as int) / 128, (y as int) % 128;
    var rest := low + 0x1_0000_0000_0000 * (x as int) + 0x100_0000_0000_0000 * e;
    assert low + 0x1_0000_0000_0000 * (x as int) + 0x100_0000_0000_0000 * (y as int) == 0x8000_0000_0000_0000 * s + rest;
  }

  function ReadFloat(buf: seq<byte>, pos: nat): Option<(Float64, nat)> {
    if pos + 8 > |buf| then None
    else
      var b: Float64 := buf[pos..pos + 8];
      if Finite(b) then Some((b, pos + 8)) else None
  }

  function ReadIo(buf: seq<byte>, pos: nat): Option<(IoEntry, nat)> {
    var (name, p1) := U32(buf, pos);
    var (memOffset, p2) := U32(buf, p1);
    var (channel, p3) := U32(buf, p2);
    var (direction, p4) := U8(buf, p3);
    var (ioType, p5) := U8(buf, p4);
    var (bitWidth, p6) := U32(buf, p5);
    match ReadFloat(buf, p6)
    case None => None
    case Some((scale, p7)) =>
      match ReadFloat(buf, p7)
      case None => None
      case Some((bias, p8)) =>
        var (low, p9) := U32(buf, p8);
        var (high, p10) := U32(buf, p9);
        Some((IoEntry(name, memOffset, channel, direction, ioType, bitWidth, scale, bias, low, high), p10))
  }

  function ReadTriple(buf: seq<byte>, pos: nat): Option<(Triple, nat)> {
    var (f, p1) := U32(buf, pos);
    var (b, p2) := U32(buf, p1);
    var (c, p3) := U32(buf, p2);
    Some((Triple(f, b, c), p3))
  }

  /** A worst-case-time row, which must lie inside its section. */
  function ReadWcet(end: nat): Reads<Triple> {
    (buf: seq<byte>, pos: nat) => if pos + 12 > end then None else ReadTriple(buf, pos)
  }

  function ReadRange(buf: seq<byte>, pos: nat): Option<(MemRange, nat)> {
    var (low, p1) := U32(buf, pos);
    var (high, p2) := U32(buf, p1);
    Some((MemRange(low, high), p2))
  }

  /** Code bodies go one after the other into the pool. */
  function ReadCodes(buf: seq<byte>, pos: nat, end: nat, codes: seq<FuncCode>, pool: seq<byte>)
    : Option<(seq<FuncCode>, seq<byte>, nat)>
    decreases MAX_FUNCTIONS - |codes|
  {
    if pos < end && |codes| < MAX_FUNCTIONS then
      var (f, p1) := U32(buf, pos);
      var (size, p2) := U32(buf, p1);
      if size == 0 || size > MAX_FUNCTION_CODE then None
      else if |pool| + size > MAX_POOL then None
      else
        var (more, p3) := ByteList(buf, p2, size, pool);
        ReadCodes(buf, p3, end, codes + [FuncCode(f, |pool|, size)], more)
    else Some((codes, pool, pos))
  }

  function ReadMem(buf: seq<byte>, m: SasmModule, pos: nat): Option<(SasmModule, nat)> {
    var (total, p1) := U32(buf, pos);
    var (n, p2) := U32(buf, p1);
    if n > MAX_SEGMENTS then None
    else
      match Many(ReadSegment, buf, p2, n, [])
      case None => None
      case Some((segments, p3)) => Some((m.(memory := total, segments := segments), p3))
  }

  function ReadIoMap(buf: seq<byte>, m: SasmModule, pos: nat): Option<(SasmModule, nat)> {
    var (n, p1) := U32(buf, pos);
    if n > MAX_IOMAP then None
    else
      match Many(ReadIo, buf, p1, n, [])
      case None => None
      case Some((io, p2)) => Some((m.(iomap := io), p2))
  }

  function ReadWcets(buf: seq<byte>, pos: nat, end: nat): Option<(seq<Triple>, nat)> {
    var (n, p1) := U32(buf, pos);
    if n > MAX_FUNCTIONS then None else Many(ReadWcet(end), buf, p1, n, [])
  }

  function ReadSafe(buf: seq<byte>, m: SasmModule, pos: nat, end: nat): Option<(SasmModule, nat)> {
    var (level, p1) := U8(buf, pos);
    var (limit, p2) := U32(buf, p1);
    var (depth, p3) := U32(buf, p2);
    var (nl, p4) := U32(buf, p3);
    if nl > MAX_LOOP_BOUNDS then None
    else
      match Many(ReadTriple, buf, p4, nl, [])
      case None => None
      case Some((loops, p5)) =>
        var (nr, p6) := U32(buf, p5);
        if nr > MAX_MEM_RANGES then None
        else
          match Many(ReadRange, buf, p6, nr, [])
          case None => None
          case Some((ranges, p7)) =>
            if p7 + 4 > end then Some((m.(safety := Safety(level, limit, depth, loops, ranges, [])), p7))
            else
              match ReadWcets(buf, p7, end)
              case None => None
              case Some((wcet, p8)) => Some((m.(safety := Safety(level, limit, depth, loops, ranges, wcet)), p8))
  }

  /** One section; a section of unknown kind is skipped over. */
  function ReadSection(buf: seq<byte>, m: SasmModule, kind: byte, pos: nat, len: nat): Option<(SasmModule, nat)> {
    var end := pos + len;
    if kind == SEC_TYPE then
      match Until(ReadType, buf, pos, end, MAX_FUNCTIONS, m.types)
      case None => None
      case Some((types, p)) => Some((m.(types := types), p))
    else if kind == SEC_FUNC then
      match Until(ReadFunc, buf, pos, end, MAX_FUNCTIONS, m.funcs)
      case None => None
      case Some((funcs, p)) => Some((m.(funcs := funcs), p))
    else if kind == SEC_MEM then ReadMem(buf, m, pos)
    else if kind == SEC_IOMAP then ReadIoMap(buf, m, pos)
    else if kind == SEC_CODE then
      match ReadCodes(buf, pos, end, m.codes, m.pool)
      case None => None
      case Some((codes, pool, p)) => Some((m.(codes := codes, pool := pool), p))
    else if kind == SEC_SAFE then ReadSafe(buf, m, pos, end)
    else if kind == SEC_WCET then
      match ReadWcets(buf, pos, end)
      case None => None
      case Some((wcet, p)) => Some((m.(safety := m.safety.(wcet := wcet)), p))
    else Some((m, end))
  }

  // ---------- reading only ever moves forward, and never past the end ----------

  ghost predicate Forward<T(!new)>(read: Reads<T>) {
    forall buf: seq<byte>, pos: nat | pos <= |buf| && read(buf, pos).Some? :: pos <= read(buf, pos).value.1 <= |buf|
  }

  lemma {:induction false} ByteListForward(buf: seq<byte>, pos: nat, n: nat, acc: seq<byte>)
    requires pos <= |buf|
    ensures var (r, p) := ByteList(buf, pos, n, acc); pos <= p <= |buf| && |r| == |acc| + n && acc <= r
    decreases n
  {
    if n > 0 {
      var (b, p) := U8(buf, pos);
      ByteListForward(buf, p, n - 1, acc + [b]);
    }
  }

  lemma {:induction false} UntilForward<T(!new)>(read: Reads<T>, buf: seq<byte>, pos: nat, end: nat, max: nat, acc: seq<T>)
    requires Forward(read) && pos <= |buf| && |acc| <= max
    ensures var r := Until(read, buf, pos, end, max, acc);
            r.Some? ==> pos <= r.value.1 <= |buf| && |r.value.0| <= max
    decreases max - |acc|
  {
    if pos < end && |acc| < max && read(buf, pos).Some? {
      var (x, p) := read(buf, pos).value;
      UntilForward(read, buf, p, end, max, acc + [x]);
    }
  }

  lemma {:induction false} ManyForward<T(!new)>(read: Reads<T>, buf: seq<byte>, pos: nat, n: nat, acc: seq<T>)
    requires Forward(read) && pos <= |buf|
    ensures var r := Many(read, buf, pos, n, acc);
            r.Some? ==> pos <= r.value.1 <= |buf| && |r.value.0| == |acc| + n
    decreases n
  {
    if n > 0 && read(buf, pos).Some? {
      var (x, p) := read(buf, pos).value;
      ManyForward(read, buf, p, n - 1, acc + [x]);
    }
  }

  lemma TypeForward(buf: seq<byte>, pos: nat)
    requires pos <= |buf| && ReadType(buf, pos).Some?
    ensures pos <= ReadType(buf, pos).value.1 <= |buf|
  {
    hide ByteList;
    var (np, p1) := U32(buf, pos);
    ByteListForward(buf, p1, np, []);
    var (params, p2) := ByteList(buf, p1, np, []);
    var (nr, p3) := U32(buf, p2);
    ByteListForward(buf, p3, nr, []);
  }

  lemma FuncForward(buf: seq<byte>, pos: nat)
    requires pos <= |buf| && ReadFunc(buf, pos).Some?
    ensures pos <= ReadFunc(buf, pos).value.1 <= |buf|
  {
    hide ByteList;
    var (ty, p1) := U32(buf, pos);
    var (nl, p2) := U32(buf, p1);
    ByteListForward(buf, p2, nl, []);
  }

  lemma ReadersForward(end: nat)
    ensures Forward(ReadType) && Forward(ReadFunc) && Forward(ReadSegment) && Forward(ReadIo)
    ensures Forward(ReadTriple) && Forward(ReadRange) && Forward(ReadWcet(end))
  {
    hide ReadType, ReadFunc;
    forall buf: seq<byte>, pos: nat | pos <= |buf| && ReadType(buf, pos).Some?
      ensures pos <= ReadType(buf, pos).value.1 <= |buf|
    {
      TypeForward(buf, pos);
    }
    forall buf: seq<byte>, pos: nat | pos <= |buf| && ReadFunc(buf, pos).Some?
      ensures pos <= ReadFunc(buf, pos).value.1 <= |buf|
    {
      FuncForward(buf, pos);
    }
  }

  /** Where body `i` of the pool begins. */
  function Offset(codes: seq<FuncCode>, i: nat): nat
    requires i <= |codes|
  {
    if i == 0 then 0 else Offset(codes, i - 1) + codes[i - 1].size
  }

  /** The bodies tile the pool: each begins where the one before it ends, and the last ends it. */
  ghost predicate Tiled(codes: seq<FuncCode>, pool: seq<byte>) {
    && |pool| == Offset(codes, |codes|) && |pool| <= MAX_POOL && |codes| <= MAX_FUNCTIONS
    && forall i :: 0 <= i < |codes| ==> codes[i].offset == Offset(codes, i) && 0 < codes[i].size <= MAX_FUNCTION_CODE
  }

  lemma {:induction false} OffsetPrefix(codes: seq<FuncCode>, more: seq<FuncCode>, i: nat)
    requires i <= |codes|
    ensures Offset(codes + more, i) == Offset(codes, i)
  {
    if i > 0 { OffsetPrefix(codes, more, i - 1); }
  }

  /** One more body at the end of the pool. */
  lemma TileMore(codes: seq<FuncCode>, pool: seq<byte>, f: u32, size: u32, more: seq<byte>)
    requires Tiled(codes, pool) && |codes| < MAX_FUNCTIONS && 0 < size <= MAX_FUNCTION_CODE
    requires |more| == |pool| + size <= MAX_POOL
    ensures Tiled(codes + [FuncCode(f, |pool|, size)], more)
  {
    hide Offset;
    var next := codes + [FuncCode(f, |pool|, size)];
    forall i | 0 <= i <= |codes| ensures Offset(next, i) == Offset(codes, i) {
      OffsetPrefix(codes, [FuncCode(f, |pool|, size)], i);
    }
    OffsetLast(next);
  }

  lemma OffsetLast(codes: seq<FuncCode>)
    requires codes != []
    ensures Offset(codes, |codes|) == Offset(codes, |codes| - 1) + codes[|codes| - 1].size
  {
  }

  lemma {:induction false} CodesForward(buf: seq<byte>, pos: nat, end: nat, codes: seq<FuncCode>, pool: seq<byte>)
    requires pos <= |buf| && Tiled(codes, pool)
    ensures var r := ReadCodes(buf, pos, end, codes, pool);
            r.Some? ==> pos <= r.value.2 <= |buf| && Tiled(r.value.0, r.value.1)
    decreases MAX_FUNCTIONS - |codes|
  {
    hide ByteList, Tiled;
    if pos < end && |codes| < MAX_FUNCTIONS {
      var (f, p1) := U32(buf, pos);
      var (size, p2) := U32(buf, p1);
      if 0 < size <= MAX_FUNCTION_CODE && |pool| + size <= MAX_POOL {
        ByteListForward(buf, p2, size, pool);
        var (more, p3) := ByteList(buf, p2, size, pool);
        TileMore(codes, pool, f, size, more);
        CodesForward(buf, p3, end, codes + [FuncCode(f, |pool|, size)], more);
      }
    }
  }

  lemma SectionForward(buf: seq<byte>, m: SasmModule, kind: byte, pos: nat, len: nat)
    requires pos + len <= |buf| && Fits(m)
    ensures var r := ReadSection(buf, m, kind, pos, len);
            r.Some? ==> pos <= r.value.1 <= |buf| && Fits(r.value.0) && Framed(m, r.value.0)
  {
    hide ReadType, ReadFunc, ReadSegment, ReadIo, ReadTriple, ReadWcet, ReadRange, Until, Many, ReadCodes, Forward, Tiled;
    var end := pos + len;
    ReadersForward(end);
    if kind == SEC_TYPE {
      UntilForward(ReadType, buf, pos, end, MAX_FUNCTIONS, m.types);
    } else if kind == SEC_FUNC {
      UntilForward(ReadFunc, buf, pos, end, MAX_FUNCTIONS, m.funcs);
    } else if kind == SEC_MEM {
      ManyForward(ReadSegment, buf, U32(buf, U32(buf, pos).1).1, U32(buf, U32(buf, pos).1).0, []);
    } else if kind == SEC_IOMAP {
      ManyForward(ReadIo, buf, U32(buf, pos).1, U32(buf, pos).0, []);
    } else if kind == SEC_CODE {
      CodesForward(buf, pos, end, m.codes, m.pool);
    } else if kind == SEC_SAFE {
      SafeForward(buf, m, pos, end);
    } else if kind == SEC_WCET {
      ManyForward(ReadWcet(end), buf, U32(buf, pos).1, U32(buf, pos).0, []);
    }
  }

  lemma SafeForward(buf: seq<byte>, m: SasmModule, pos: nat, end: nat)
    requires pos <= |buf|
    ensures var r := ReadSafe(buf, m, pos, end);
            r.Some? ==> pos <= r.value.1 <= |buf| && r.value.0 == m.(safety := r.value.0.safety)
  {
    hide ReadTriple, ReadWcet, ReadRange, Many, Forward;
    ReadersForward(end);
    var p4 := U32(buf, U32(buf, U32(buf, U8(buf, pos).1).1).1).1;
    var nl := U32(buf, U32(buf, U32(buf, U8(buf, pos).1).1).1).0;
    ManyForward(ReadTriple, buf, p4, nl, []);
    var loops := Many(ReadTriple, buf, p4, nl, []);
    if loops.Some? {
      var (nr, p6) := U32(buf, loops.value.1);
      ManyForward(ReadRange, buf, p6, nr, []);
      var ranges := Many(ReadRange, buf, p6, nr, []);
      if ranges.Some? {
        var (n, p) := U32(buf, ranges.value.1);
        ManyForward(ReadWcet(end), buf, p, n, []);
      }
    }
  }

  /** The tables hold what they have room for, and the bodies tile the pool. */
  ghost predicate Fits(m: SasmModule) {
    |m.types| <= MAX_FUNCTIONS && |m.funcs| <= MAX_FUNCTIONS && Tiled(m.codes, m.pool)
  }

  lemma BlankFits(version: byte, flags: byte)
    ensures Fits(Blank(version, flags))
  {
  }

  /** What no section changes. */
  ghost predicate Framed(m: SasmModule, n: SasmModule) {
    n.version == m.version && n.flags == m.flags && n.entry == m.entry
  }

  // ---------- the whole image ----------

  /** Sections until no more than the checksum is left. */
  function ReadSections(buf: seq<byte>, m: SasmModule, pos: nat): (r: Option<(SasmModule, nat)>)
    requires pos <= |buf| && Fits(m)
    ensures r.Some? ==> pos <= r.value.1 <= |buf| && |buf| - r.value.1 <= 4 && Fits(r.value.0) && Framed(m, r.value.0)
    decreases |buf| - pos
  {
    if |buf| - pos <= 4 then Some((m, pos))
    else if |buf| - pos < 8 then None
    else
      var (kind, len, at) := (buf[pos], Get32(buf[pos + 1..]), pos + 8);
      if len > |buf| - at then None
      else
        SectionForward(buf, m, kind, at, len);
        match ReadSection(buf, m, kind, at, len)
        case None => None
        case Some((n, p)) => ReadSections(buf, n, p)
  }

  const E_FORMAT := -1
  const E_CRC := -2

  /** `sasm_load`. */
  function Load(buf: seq<byte>): Result<SasmModule, int> {
    if |buf| < 8 then Err(E_FORMAT)
    else if Get32(buf) != MAGIC then Err(E_FORMAT)
    else if buf[4] != VERSION then Err(E_FORMAT)
    else if |buf| - 6 < 4 then Err(E_FORMAT)
    else
      match ReadSections(buf, Blank(buf[4], buf[5]), 6)
      case None => Err(E_FORMAT)
      case Some((m, pos)) =>
        var stored := U32(buf, pos).0;
        if stored == 0 || stored != Crc32.Crc(buf[6..|buf| - 4]) then Err(E_CRC) else Ok(m)
  }

  /** An image is accepted only when it was read to exactly its last four bytes, and those
      are the nonzero checksum of everything between the version and them. */
  lemma AcceptedIsConsumed(buf: seq<byte>)
    requires Load(buf).Ok?
    ensures |buf| >= 10 && Get32(buf) == MAGIC && buf[4] == VERSION
    ensures ReadSections(buf, Blank(buf[4], buf[5]), 6) == Some((Load(buf).value, |buf| - 4))
    ensures Get32(buf[|buf| - 4..]) == Crc32.Crc(buf[6..|buf| - 4]) != 0
    ensures Fits(Load(buf).value) && Load(buf).value.entry == 0
  {
    hide ReadSections, Crc32.Crc, Fits;
  }
}
