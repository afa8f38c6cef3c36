/** `encoder.v`, with the checksum filled in; and that the loader reads back what it lays out. */
module SasmEncoder {
  import opened Bytes
  import opened Results
  import opened SasmFormat
  import Crc32

  // ---------- laying out ----------

  function EncLen(n: nat): (b: seq<byte>)
    ensures |b| == 4
  {
    Put32(n % 0x1_0000_0000)
  }

  function EncAll<T>(enc: T -> seq<byte>, xs: seq<T>): seq<byte> {
    if xs == [] then [] else enc(xs[0]) + EncAll(enc, xs[1..])
  }

  function EncType(t: FuncType): seq<byte> {
    EncLen(|t.params|) + t.params + EncLen(|t.results|) + t.results
  }

  function EncFunc(f: FuncDecl): seq<byte> {
    Put32(f.typeIdx) + EncLen(|f.locals|) + f.locals
  }

  function EncSegment(s: MemSegment): seq<byte> {
    [s.kind] + Put32(s.start) + Put32(s.size)
  }

  function EncIo(e: IoEntry): seq<byte> {
    Put32(e.name) + Put32(e.memOffset) + Put32(e.channel) + [e.direction] + [e.ioType] + Put32(e.bitWidth)
    + e.scale + e.bias + Put32(e.low) + Put32(e.high)
  }

  function EncTriple(t: Triple): seq<byte> {
    Put32(t.func) + Put32(t.b) + Put32(t.c)
  }

  function EncRange(r: MemRange): seq<byte> {
    Put32(r.low) + Put32(r.high)
  }

  /** The bodies from the `i`-th on, each behind its function number and length. */
  function EncCodes(codes: seq<FuncCode>, pool: seq<byte>, i: nat): seq<byte>
    requires Tiled(codes, pool) && i <= |codes|
    decreases |codes| - i
  {
    if i == |codes| then []
    else
      BodyInside(codes, pool, i);
      Put32(codes[i].func) + Put32(codes[i].size) + pool[codes[i].offset..codes[i].offset + codes[i].size]
      + EncCodes(codes, pool, i + 1)
  }

  function EncMem(m: SasmModule): seq<byte> {
    Put32(m.memory) + EncLen(|m.segments|) + EncAll(EncSegment, m.segments)
  }

  function EncIoMap(m: SasmModule): seq<byte> {
    EncLen(|m.iomap|) + EncAll(EncIo, m.iomap)
  }

  function EncWcet(w: seq<Triple>): seq<byte> {
    EncLen(|w|) + EncAll(EncTriple, w)
  }

  function EncSafe(s: Safety): seq<byte> {
    [s.level] + Put32(s.cycleLimit) + Put32(s.stackDepth) + EncLen(|s.loops|) + EncAll(EncTriple, s.loops)
    + EncLen(|s.ranges|) + EncAll(EncRange, s.ranges) + EncWcet(s.wcet)
  }

  function EncSection(kind: byte, data: seq<byte>): (s: seq<byte>)
    ensures |s| == 8 + |data|
  {
    [kind] + EncLen(|data|) + [0] + Put16(0) + data
  }

  function EncSections(m: SasmModule): seq<byte>
    requires Tiled(m.codes, m.pool)
  {
    EncSection(SEC_TYPE, EncAll(EncType, m.types)) + (EncSection(SEC_FUNC, EncAll(EncFunc, m.funcs))
    + (EncSection(SEC_MEM, EncMem(m)) + (EncSection(SEC_IOMAP, EncIoMap(m)) + EncLastSections(m))))
  }

  function EncLastSections(m: SasmModule): seq<byte>
    requires Tiled(m.codes, m.pool)
  {
    EncSection(SEC_CODE, EncCodes(m.codes, m.pool, 0)) + (EncSection(SEC_SAFE, EncSafe(m.safety))
    + EncSection(SEC_WCET, EncWcet(m.safety.wcet)))
  }

  function Encode(m: SasmModule): seq<byte>
    requires Tiled(m.codes, m.pool)
  {
    Put32(MAGIC) + [m.version] + [m.flags] + EncSections(m) + Put32(Crc32.Crc(EncSections(m)))
  }

  /** A module the format has room for. */
  ghost predicate Encodable(m: SasmModule) {
    && Fits(m) && m.version == VERSION && m.entry == 0
    && (forall t <- m.types :: OkType(t)) && (forall f <- m.funcs :: OkFunc(f)) && (forall e <- m.iomap :: OkIo(e))
    && |m.segments| <= MAX_SEGMENTS && |m.iomap| <= MAX_IOMAP && |m.safety.loops| <= MAX_LOOP_BOUNDS
    && |m.safety.ranges| <= MAX_MEM_RANGES && |m.safety.wcet| <= MAX_FUNCTIONS
    && |EncSections(m)| <= 0xFFFF_FFFF
  }

  predicate OkType(t: FuncType) {
    |t.params| <= MAX_PARAMS && |t.results| <= 1
  }

  predicate OkFunc(f: FuncDecl) {
    |f.locals| <= MAX_LOCALS
  }

  predicate OkIo(e: IoEntry) {
    Finite(e.scale) && Finite(e.bias)
  }

  lemma {:induction false} OffsetGrows(codes: seq<FuncCode>, i: nat, j: nat)
    requires i <= j <= |codes|
    ensures Offset(codes, i) <= Offset(codes, j)
  {
    if i < j { OffsetGrows(codes, i, j - 1); }
  }

  lemma BodyInside(codes: seq<FuncCode>, pool: seq<byte>, i: nat)
    requires Tiled(codes, pool) && i < |codes|
    ensures codes[i].offset + codes[i].size == Offset(codes, i + 1) <= |pool|
  {
    hide Offset;
    OffsetStep(codes, i);
    OffsetGrows(codes, i + 1, |codes|);
  }

  lemma OffsetStep(codes: seq<FuncCode>, i: nat)
    requires i < |codes|
    ensures Offset(codes, i + 1) == Offset(codes, i) + codes[i].size
  {
  }

  // ---------- reading one item back ----------

  /** `s` lies in `buf` at `pos`. */
  predicate At(buf: seq<byte>, pos: nat, s: seq<byte>) {
    pos + |s| <= |buf| && buf[pos..pos + |s|] == s
  }

  lemma AtSplit(buf: seq<byte>, pos: nat, a: seq<byte>, b: seq<byte>)
    requires At(buf, pos, a + b)
    ensures At(buf, pos, a) && At(buf, pos + |a|, b)
  {
    assert buf[pos..pos + |a|] == (a + b)[..|a|];
    assert buf[pos + |a|..pos + |a + b|] == (a + b)[|a|..];
  }

  lemma U32At(buf: seq<byte>, pos: nat, v: u32)
    requires At(buf, pos, Put32(v))
    ensures U32(buf, pos) == (v, pos + 4)
  {
    hide Put32, Get32;
    assert buf[pos..] == Put32(v) + buf[pos + 4..];
    Get32Put32(v, buf[pos + 4..]);
  }

  lemma U8At(buf: seq<byte>, pos: nat, v: byte)
    requires At(buf, pos, [v])
    ensures U8(buf, pos) == (v, pos + 1)
  {
    assert buf[pos] == buf[pos..pos + 1][0];
  }

  lemma LenAt(buf: seq<byte>, pos: nat, n: nat)
    requires At(buf, pos, EncLen(n)) && n <= 0xFFFF_FFFF
    ensures U32(buf, pos) == (n, pos + 4)
  {
    U32At(buf, pos, n);
  }

  lemma {:induction false} ByteListAt(buf: seq<byte>, pos: nat, bs: seq<byte>, acc: seq<byte>)
    requires At(buf, pos, bs)
    ensures ByteList(buf, pos, |bs|, acc) == (acc + bs, pos + |bs|)
    decreases |bs|
  {
    if bs == [] {
      assert acc + bs == acc;
    } else {
      assert bs == [bs[0]] + bs[1..];
      AtSplit(buf, pos, [bs[0]], bs[1..]);
      U8At(buf, pos, bs[0]);
      ByteListAt(buf, pos + 1, bs[1..], acc + [bs[0]]);
      assert acc + [bs[0]] + bs[1..] == acc + bs;
    }
  }

  lemma TypeAt(buf: seq<byte>, pos: nat, t: FuncType)
    requires OkType(t) && At(buf, pos, EncType(t))
    ensures ReadType(buf, pos) == Some((t, pos + |EncType(t)|))
  {
    hide At, U32, ByteList, EncLen;
    AtSplit(buf, pos, EncLen(|t.params|) + t.params + EncLen(|t.results|), t.results);
    AtSplit(buf, pos, EncLen(|t.params|) + t.params, EncLen(|t.results|));
    AtSplit(buf, pos, EncLen(|t.params|), t.params);
    LenAt(buf, pos, |t.params|);
    ByteListAt(buf, pos + 4, t.params, []);
    LenAt(buf, pos + 4 + |t.params|, |t.results|);
    ByteListAt(buf, pos + 8 + |t.params|, t.results, []);
    assert [] + t.params == t.params && [] + t.results == t.results;
  }

  lemma FuncAt(buf: seq<byte>, pos: nat, f: FuncDecl)
    requires OkFunc(f) && At(buf, pos, EncFunc(f))
    ensures ReadFunc(buf, pos) == Some((f, pos + |EncFunc(f)|))
  {
    hide At, U32, ByteList, EncLen, Put32;
    AtSplit(buf, pos, Put32(f.typeIdx) + EncLen(|f.locals|), f.locals);
    AtSplit(buf, pos, Put32(f.typeIdx), EncLen(|f.locals|));
    U32At(buf, pos, f.typeIdx);
    LenAt(buf, pos + 4, |f.locals|);
    ByteListAt(buf, pos + 8, f.locals, []);
    assert [] + f.locals == f.locals;
  }

  lemma SegmentAt(buf: seq<byte>, pos: nat, s: MemSegment)
    requires At(buf, pos, EncSegment(s))
    ensures ReadSegment(buf, pos) == Some((s, pos + |EncSegment(s)|))
  {
    hide At, U32, U8, Put32;
    AtSplit(buf, pos, [s.kind] + Put32(s.start), Put32(s.size));
    AtSplit(buf, pos, [s.kind], Put32(s.start));
    U8At(buf, pos, s.kind);
    U32At(buf, pos + 1, s.start);
    U32At(buf, pos + 5, s.size);
  }

  lemma TripleAt(buf: seq<byte>, pos: nat, t: Triple)
    requires At(buf, pos, EncTriple(t))
    ensures ReadTriple(buf, pos) == Some((t, pos + 12)) && |EncTriple(t)| == 12
  {
    hide At, U32, Put32;
    AtSplit(buf, pos, Put32(t.func) + Put32(t.b), Put32(t.c));
    AtSplit(buf, pos, Put32(t.func), Put32(t.b));
    U32At(buf, pos, t.func);
    U32At(buf, pos + 4, t.b);
    U32At(buf, pos + 8, t.c);
  }

  lemma RangeAt(buf: seq<byte>, pos: nat, r: MemRange)
    requires At(buf, pos, EncRange(r))
    ensures ReadRange(buf, pos) == Some((r, pos + |EncRange(r)|))
  {
    hide At, U32, Put32;
    AtSplit(buf, pos, Put32(r.low), Put32(r.high));
    U32At(buf, pos, r.low);
    U32At(buf, pos + 4, r.high);
  }

  lemma FloatAt(buf: seq<byte>, pos: nat, b: Float64)
    requires At(buf, pos, b) && Finite(b)
    ensures ReadFloat(buf, pos) == Some((b, pos + 8))
  {
  }

  lemma IoAt(buf: seq<byte>, pos: nat, e: IoEntry)
    requires OkIo(e) && At(buf, pos, EncIo(e))
    ensures ReadIo(buf, pos) == Some((e, pos + |EncIo(e)|))
  {
    hide At, U32, U8, Put32, ReadFloat, Finite;
    var h1 := Put32(e.name) + Put32(e.memOffset) + Put32(e.channel);
    var h2 := h1 + [e.direction] + [e.ioType] + Put32(e.bitWidth);
    AtSplit(buf, pos, h2 + e.scale + e.bias + Put32(e.low), Put32(e.high));
    AtSplit(buf, pos, h2 + e.scale + e.bias, Put32(e.low));
    AtSplit(buf, pos, h2 + e.scale, e.bias);
    AtSplit(buf, pos, h2, e.scale);
    AtSplit(buf, pos, h1 + [e.direction] + [e.ioType], Put32(e.bitWidth));
    AtSplit(buf, pos, h1 + [e.direction], [e.ioType]);
    AtSplit(buf, pos, h1, [e.direction]);
    AtSplit(buf, pos, Put32(e.name) + Put32(e.memOffset), Put32(e.channel));
    AtSplit(buf, pos, Put32(e.name), Put32(e.memOffset));
    U32At(buf, pos, e.name);
    U32At(buf, pos + 4, e.memOffset);
    U32At(buf, pos + 8, e.channel);
    U8At(buf, pos + 12, e.direction);
    U8At(buf, pos + 13, e.ioType);
    U32At(buf, pos + 14, e.bitWidth);
    FloatAt(buf, pos + 18, e.scale);
    FloatAt(buf, pos + 26, e.bias);
    U32At(buf, pos + 34, e.low);
    U32At(buf, pos + 38, e.high);
  }

  // ---------- reading lists back ----------

  /** Reading undoes laying out, for items that end by `end`. */
  ghost predicate Inverse<T(!new)>(read: Reads<T>, enc: T -> seq<byte>, ok: T -> bool, end: nat) {
    forall buf: seq<byte>, pos: nat, x: T | ok(x) && At(buf, pos, enc(x)) && pos + |enc(x)| <= end ::
      read(buf, pos) == Some((x, pos + |enc(x)|))
  }

  lemma {:induction false} ManyAt<T(!new)>(read: Reads<T>, enc: T -> seq<byte>, ok: T -> bool, end: nat,
                                          buf: seq<byte>, pos: nat, xs: seq<T>, acc: seq<T>)
    requires Inverse(read, enc, ok, end) && (forall x <- xs :: ok(x))
    requires At(buf, pos, EncAll(enc, xs)) && pos + |EncAll(enc, xs)| <= end
    ensures Many(read, buf, pos, |xs|, acc) == Some((acc + xs, pos + |EncAll(enc, xs)|))
    decreases |xs|
  {
    hide At;
    if xs == [] {
      assert acc + xs == acc;
    } else {
      AtSplit(buf, pos, enc(xs[0]), EncAll(enc, xs[1..]));
      assert ok(xs[0]) && read(buf, pos) == Some((xs[0], pos + |enc(xs[0])|));
      ManyAt(read, enc, ok, end, buf, pos + |enc(xs[0])|, xs[1..], acc + [xs[0]]);
      assert acc + [xs[0]] + xs[1..] == acc + xs;
    }
  }

  lemma {:induction false} UntilAt<T(!new)>(read: Reads<T>, enc: T -> seq<byte>, ok: T -> bool, end: nat, max: nat,
                                           buf: seq<byte>, pos: nat, xs: seq<T>, acc: seq<T>)
    requires Inverse(read, enc, ok, end) && (forall x <- xs :: ok(x) && |enc(x)| > 0)
    requires At(buf, pos, EncAll(enc, xs)) && pos + |EncAll(enc, xs)| == end && |acc| + |xs| <= max
    ensures Until(read, buf, pos, end, max, acc) == Some((acc + xs, end))
    decreases |xs|
  {
    hide At;
    if xs == [] {
      assert acc + xs == acc;
    } else {
      AtSplit(buf, pos, enc(xs[0]), EncAll(enc, xs[1..]));
      assert ok(xs[0]) && read(buf, pos) == Some((xs[0], pos + |enc(xs[0])|));
      UntilAt(read, enc, ok, end, max, buf, pos + |enc(xs[0])|, xs[1..], acc + [xs[0]]);
      assert acc + [xs[0]] + xs[1..] == acc + xs;
    }
  }

  lemma {:induction false} CodesAt(buf: seq<byte>, pos: nat, end: nat, codes: seq<FuncCode>, pool: seq<byte>, i: nat)
    requires Tiled(codes, pool) && i <= |codes|
    requires At(buf, pos, EncCodes(codes, pool, i)) && pos + |EncCodes(codes, pool, i)| == end
    ensures Offset(codes, i) <= |pool|
    ensures ReadCodes(buf, pos, end, codes[..i], pool[..Offset(codes, i)]) == Some((codes, pool, end))
    decreases |codes| - i
  {
    hide ByteList, U32, At, Put32, Offset;
    OffsetGrows(codes, i, |codes|);
    if i == |codes| {
      assert codes[..i] == codes && pool[..Offset(codes, i)] == pool;
    } else {
      BodyInside(codes, pool, i);
      var c, o := codes[i], Offset(codes, i);
      var body, rest := pool[c.offset..c.offset + c.size], EncCodes(codes, pool, i + 1);
      AtSplit(buf, pos, Put32(c.func) + Put32(c.size) + body, rest);
      AtSplit(buf, pos, Put32(c.func) + Put32(c.size), body);
      AtSplit(buf, pos, Put32(c.func), Put32(c.size));
      U32At(buf, pos, c.func);
      U32At(buf, pos + 4, c.size);
      ByteListAt(buf, pos + 8, body, pool[..o]);
      assert pool[..o] + body == pool[..Offset(codes, i + 1)];
      assert codes[..i] + [FuncCode(c.func, o, c.size)] == codes[..i + 1];
      CodesAt(buf, pos + 8 + |body|, end, codes, pool, i + 1);
    }
  }

  // ---------- reading sections back ----------

  lemma Inverses(end: nat)
    ensures Inverse(ReadType, EncType, OkType, end) && Inverse(ReadFunc, EncFunc, OkFunc, end)
    ensures Inverse(ReadSegment, EncSegment, AnySegment, end) && Inverse(ReadIo, EncIo, OkIo, end)
    ensures Inverse(ReadTriple, EncTriple, AnyTriple, end) && Inverse(ReadRange, EncRange, AnyRange, end)
  {
    hide At, ReadType, EncType, OkType, ReadFunc, EncFunc, OkFunc, ReadSegment, EncSegment, ReadIo, EncIo, OkIo,
         ReadTriple, EncTriple, ReadRange, EncRange;
    forall buf: seq<byte>, pos: nat, t | OkType(t) && At(buf, pos, EncType(t))
      ensures ReadType(buf, pos) == Some((t, pos + |EncType(t)|)) { TypeAt(buf, pos, t); }
    forall buf: seq<byte>, pos: nat, f | OkFunc(f) && At(buf, pos, EncFunc(f))
      ensures ReadFunc(buf, pos) == Some((f, pos + |EncFunc(f)|)) { FuncAt(buf, pos, f); }
    forall buf: seq<byte>, pos: nat, s | At(buf, pos, EncSegment(s))
      ensures ReadSegment(buf, pos) == Some((s, pos + |EncSegment(s)|)) { SegmentAt(buf, pos, s); }
    forall buf: seq<byte>, pos: nat, e | OkIo(e) && At(buf, pos, EncIo(e))
      ensures ReadIo(buf, pos) == Some((e, pos + |EncIo(e)|)) { IoAt(buf, pos, e); }
    forall buf: seq<byte>, pos: nat, t | At(buf, pos, EncTriple(t))
      ensures |EncTriple(t)| == 12 && ReadTriple(buf, pos) == Some((t, pos + 12)) { TripleAt(buf, pos, t); }
    forall buf: seq<byte>, pos: nat, r | At(buf, pos, EncRange(r))
      ensures ReadRange(buf, pos) == Some((r, pos + |EncRange(r)|)) { RangeAt(buf, pos, r); }
  }

  lemma WcetInverse(end: nat)
    ensures Inverse(ReadWcet(end), EncTriple, AnyTriple, end)
  {
    hide At, ReadTriple, EncTriple;
    forall buf: seq<byte>, pos: nat, t | At(buf, pos, EncTriple(t)) && pos + |EncTriple(t)| <= end
      ensures ReadWcet(end)(buf, pos) == Some((t, pos + |EncTriple(t)|))
    {
      TripleAt(buf, pos, t);
    }
  }

  predicate AnySegment(s: MemSegment) {
    true
  }

  predicate AnyTriple(t: Triple) {
    true
  }

  predicate AnyRange(r: MemRange) {
    true
  }

  lemma TypesAt(buf: seq<byte>, m: SasmModule, pos: nat, types: seq<FuncType>)
    requires m.types == [] && |types| <= MAX_FUNCTIONS && (forall t <- types :: OkType(t))
    requires At(buf, pos, EncAll(EncType, types))
    ensures var d := EncAll(EncType, types);
            ReadSection(buf, m, SEC_TYPE, pos, |d|) == Some((m.(types := types), pos + |d|))
  {
    hide At, EncAll, Until, Inverse, ReadType, OkType, Put32;
    var d := EncAll(EncType, types);
    Inverses(pos + |d|);
    UntilAt(ReadType, EncType, OkType, pos + |d|, MAX_FUNCTIONS, buf, pos, types, []);
    assert [] + types == types;
  }

  lemma FuncsAt(buf: seq<byte>, m: SasmModule, pos: nat, funcs: seq<FuncDecl>)
    requires m.funcs == [] && |funcs| <= MAX_FUNCTIONS && (forall f <- funcs :: OkFunc(f))
    requires At(buf, pos, EncAll(EncFunc, funcs))
    ensures var d := EncAll(EncFunc, funcs);
            ReadSection(buf, m, SEC_FUNC, pos, |d|) == Some((m.(funcs := funcs), pos + |d|))
  {
    hide At, EncAll, Until, Inverse, ReadFunc, OkFunc, Put32;
    var d := EncAll(EncFunc, funcs);
    Inverses(pos + |d|);
    UntilAt(ReadFunc, EncFunc, OkFunc, pos + |d|, MAX_FUNCTIONS, buf, pos, funcs, []);
    assert [] + funcs == funcs;
  }

  lemma MemAt(buf: seq<byte>, m: SasmModule, pos: nat, n: SasmModule)
    requires |n.segments| <= MAX_SEGMENTS && At(buf, pos, EncMem(n))
    ensures ReadSection(buf, m, SEC_MEM, pos, |EncMem(n)|) ==
            Some((m.(memory := n.memory, segments := n.segments), pos + |EncMem(n)|))
  {
    hide At, EncAll, Many, Inverse, ReadSegment, EncSegment, U32, Put32, EncLen;
    var d := EncAll(EncSegment, n.segments);
    AtSplit(buf, pos, Put32(n.memory) + EncLen(|n.segments|), d);
    AtSplit(buf, pos, Put32(n.memory), EncLen(|n.segments|));
    U32At(buf, pos, n.memory);
    LenAt(buf, pos + 4, |n.segments|);
    Inverses(pos + 8 + |d|);
    ManyAt(ReadSegment, EncSegment, AnySegment, pos + 8 + |d|, buf, pos + 8, n.segments, []);
    assert [] + n.segments == n.segments;
  }

  lemma IoMapAt(buf: seq<byte>, m: SasmModule, pos: nat, n: SasmModule)
    requires |n.iomap| <= MAX_IOMAP && (forall e <- n.iomap :: OkIo(e)) && At(buf, pos, EncIoMap(n))
    ensures ReadSection(buf, m, SEC_IOMAP, pos, |EncIoMap(n)|) == Some((m.(iomap := n.iomap), pos + |EncIoMap(n)|))
  {
    hide At, EncAll, Many, Inverse, ReadIo, EncIo, OkIo, U32, EncLen;
    var d := EncAll(EncIo, n.iomap);
    AtSplit(buf, pos, EncLen(|n.iomap|), d);
    LenAt(buf, pos, |n.iomap|);
    Inverses(pos + 4 + |d|);
    ManyAt(ReadIo, EncIo, OkIo, pos + 4 + |d|, buf, pos + 4, n.iomap, []);
    assert [] + n.iomap == n.iomap;
  }

  lemma WcetAt(buf: seq<byte>, pos: nat, w: seq<Triple>, end: nat)
    requires |w| <= MAX_FUNCTIONS && At(buf, pos, EncWcet(w)) && end == pos + |EncWcet(w)|
    ensures ReadWcets(buf, pos, end) == Some((w, end))
  {
    hide At, EncAll, Many, Inverse, ReadTriple, EncTriple, U32, EncLen;
    var d := EncAll(EncTriple, w);
    AtSplit(buf, pos, EncLen(|w|), d);
    LenAt(buf, pos, |w|);
    WcetInverse(end);
    ManyAt(ReadWcet(end), EncTriple, AnyTriple, end, buf, pos + 4, w, []);
    assert [] + w == w;
  }

  lemma SafeAt(buf: seq<byte>, m: SasmModule, pos: nat, s: Safety)
    requires |s.loops| <= MAX_LOOP_BOUNDS && |s.ranges| <= MAX_MEM_RANGES && |s.wcet| <= MAX_FUNCTIONS
    requires At(buf, pos, EncSafe(s))
    ensures ReadSection(buf, m, SEC_SAFE, pos, |EncSafe(s)|) == Some((m.(safety := s), pos + |EncSafe(s)|))
  {
    hide At, EncAll, Many, Inverse, ReadTriple, EncTriple, ReadRange, EncRange, U32, U8, Put32, EncLen, ReadWcets, EncWcet;
    var loops, ranges, wcet := EncAll(EncTriple, s.loops), EncAll(EncRange, s.ranges), EncWcet(s.wcet);
    var h := [s.level] + Put32(s.cycleLimit) + Put32(s.stackDepth);
    var g := h + EncLen(|s.loops|) + loops;
    AtSplit(buf, pos, g + EncLen(|s.ranges|) + ranges, wcet);
    AtSplit(buf, pos, g + EncLen(|s.ranges|), ranges);
    AtSplit(buf, pos, g, EncLen(|s.ranges|));
    AtSplit(buf, pos, h + EncLen(|s.loops|), loops);
    AtSplit(buf, pos, h, EncLen(|s.loops|));
    AtSplit(buf, pos, [s.level] + Put32(s.cycleLimit), Put32(s.stackDepth));
    AtSplit(buf, pos, [s.level], Put32(s.cycleLimit));
    U8At(buf, pos, s.level);
    U32At(buf, pos + 1, s.cycleLimit);
    U32At(buf, pos + 5, s.stackDepth);
    LenAt(buf, pos + 9, |s.loops|);
    var end := pos + |EncSafe(s)|;
    Inverses(end);
    ManyAt(ReadTriple, EncTriple, AnyTriple, end, buf, pos + 13, s.loops, []);
    LenAt(buf, pos + |g|, |s.ranges|);
    ManyAt(ReadRange, EncRange, AnyRange, end, buf, pos + |g| + 4, s.ranges, []);
    WcetLen(s.wcet);
    WcetAt(buf, pos + |g| + 4 + |ranges|, s.wcet, end);
    assert [] + s.loops == s.loops && [] + s.ranges == s.ranges;
  }

  lemma WcetLen(w: seq<Triple>)
    ensures |EncWcet(w)| >= 4
  {
  }

  lemma CodeAt(buf: seq<byte>, m: SasmModule, pos: nat, n: SasmModule)
    requires m.codes == [] && m.pool == [] && Tiled(n.codes, n.pool) && At(buf, pos, EncCodes(n.codes, n.pool, 0))
    ensures var d := EncCodes(n.codes, n.pool, 0);
            ReadSection(buf, m, SEC_CODE, pos, |d|) == Some((m.(codes := n.codes, pool := n.pool), pos + |d|))
  {
    hide At, EncCodes, ReadCodes, Tiled;
    CodesAt(buf, pos, pos + |EncCodes(n.codes, n.pool, 0)|, n.codes, n.pool, 0);
    assert n.codes[..0] == [] && n.pool[..0] == [];
  }

  /** One section in its place is one step of the main loop. */
  lemma Step(buf: seq<byte>, m: SasmModule, pos: nat, kind: byte, data: seq<byte>, n: SasmModule)
    requires At(buf, pos, EncSection(kind, data)) && |data| <= 0xFFFF_FFFF && Fits(m)
    requires ReadSection(buf, m, kind, pos + 8, |data|) == Some((n, pos + 8 + |data|))
    ensures Fits(n) && pos + 8 + |data| <= |buf| && ReadSections(buf, m, pos) == ReadSections(buf, n, pos + 8 + |data|)
  {
    hide ReadSection, Fits, Framed, EncLen, Get32, Put32;
    HeaderAt(buf, pos, kind, data);
    SectionForward(buf, m, kind, pos + 8, |data|);
  }

  lemma HeaderAt(buf: seq<byte>, pos: nat, kind: byte, data: seq<byte>)
    requires At(buf, pos, EncSection(kind, data)) && |data| <= 0xFFFF_FFFF
    ensures pos + 8 + |data| <= |buf| && buf[pos] == kind && Get32(buf[pos + 1..]) == |data| && At(buf, pos + 8, data)
  {
    hide Get32, Put32, At, EncLen, U8, U32;
    AtSplit(buf, pos, [kind] + EncLen(|data|) + [0] + Put16(0), data);
    AtSplit(buf, pos, [kind] + EncLen(|data|) + [0], Put16(0));
    AtSplit(buf, pos, [kind] + EncLen(|data|), [0]);
    AtSplit(buf, pos, [kind], EncLen(|data|));
    U8At(buf, pos, kind);
    LenAt(buf, pos + 1, |data|);
    HeaderRead(buf, pos, kind, |data|);
  }

  lemma HeaderRead(buf: seq<byte>, pos: nat, kind: byte, len: nat)
    requires U8(buf, pos) == (kind, pos + 1) && U32(buf, pos + 1) == (len, pos + 5) && len <= 0xFFFF_FFFF
    ensures pos + 5 <= |buf| && buf[pos] == kind && Get32(buf[pos + 1..]) == len
  {
    hide Get32;
  }

  // ---------- the round trip ----------

  lemma Advance(buf: seq<byte>, cur: SasmModule, pos: nat, kind: byte, data: seq<byte>, rest: seq<byte>, next: SasmModule)
    requires At(buf, pos, EncSection(kind, data) + rest) && |data| <= 0xFFFF_FFFF && Fits(cur)
    requires At(buf, pos + 8, data) ==> ReadSection(buf, cur, kind, pos + 8, |data|) == Some((next, pos + 8 + |data|))
    ensures Fits(next) && pos + 8 + |data| <= |buf| && At(buf, pos + 8 + |data|, rest)
    ensures ReadSections(buf, cur, pos) == ReadSections(buf, next, pos + 8 + |data|)
  {
    hide *;
    AtSplit(buf, pos, EncSection(kind, data), rest);
    HeaderAt(buf, pos, kind, data);
    Step(buf, cur, pos, kind, data, next);
  }

  /** The declarations, up to the code. */
  lemma FirstSectionsAt(buf: seq<byte>, m: SasmModule, pos: nat) returns (m4: SasmModule, p4: nat)
    requires Encodable(m) && At(buf, pos, EncSections(m)) && pos + |EncSections(m)| <= |buf|
    ensures Fits(Blank(m.version, m.flags)) && Fits(m4) && Tiled(m.codes, m.pool) && p4 <= |buf|
    ensures m4 == m.(codes := [], pool := [], safety := NO_SAFETY)
    ensures |EncLastSections(m)| <= |EncSections(m)| <= 0xFFFF_FFFF
    ensures p4 + |EncLastSections(m)| == pos + |EncSections(m)| && At(buf, p4, EncLastSections(m))
    ensures ReadSections(buf, Blank(m.version, m.flags), pos) == ReadSections(buf, m4, p4)
  {
    hide At, Fits, EncSection, EncAll, EncType, EncFunc, EncMem, EncIoMap, EncLastSections, ReadSection,
         ReadSections, OkType, OkFunc, OkIo, Tiled;
    FitsTiled(m);
    var m0 := Blank(m.version, m.flags);
    BlankFits(m.version, m.flags);
    var (d1, d2, d3, d4) := (EncAll(EncType, m.types), EncAll(EncFunc, m.funcs), EncMem(m), EncIoMap(m));
    var t5 := EncLastSections(m);
    var t4 := EncSection(SEC_IOMAP, d4) + t5;
    var t3 := EncSection(SEC_MEM, d3) + t4;
    var t2 := EncSection(SEC_FUNC, d2) + t3;
    if At(buf, pos + 8, d1) { TypesAt(buf, m0, pos + 8, m.types); }
    var m1 := m0.(types := m.types);
    Advance(buf, m0, pos, SEC_TYPE, d1, t2, m1);
    var p1 := pos + 8 + |d1|;
    if At(buf, p1 + 8, d2) { FuncsAt(buf, m1, p1 + 8, m.funcs); }
    var m2 := m1.(funcs := m.funcs);
    Advance(buf, m1, p1, SEC_FUNC, d2, t3, m2);
    var p2 := p1 + 8 + |d2|;
    if At(buf, p2 + 8, d3) { MemAt(buf, m2, p2 + 8, m); }
    var m3 := m2.(memory := m.memory, segments := m.segments);
    Advance(buf, m2, p2, SEC_MEM, d3, t4, m3);
    var p3 := p2 + 8 + |d3|;
    if At(buf, p3 + 8, d4) { IoMapAt(buf, m3, p3 + 8, m); }
    m4 := m3.(iomap := m.iomap);
    Advance(buf, m3, p3, SEC_IOMAP, d4, t5, m4);
    p4 := p3 + 8 + |d4|;
  }

  /** The sections of `m` in place take the loader from an empty module to `m`. */
  lemma SectionsAt(buf: seq<byte>, m: SasmModule, pos: nat)
    requires Encodable(m) && At(buf, pos, EncSections(m)) && pos + |EncSections(m)| <= |buf|
    ensures Fits(Blank(m.version, m.flags)) && Fits(m)
    ensures ReadSections(buf, Blank(m.version, m.flags), pos) == ReadSections(buf, m, pos + |EncSections(m)|)
  {
    hide At, Fits, EncSection, EncAll, EncSections, EncCodes, EncSafe, EncWcet, ReadSection, ReadSections,
         OkType, OkFunc, OkIo, Tiled;
    var m4, p4 := FirstSectionsAt(buf, m, pos);
    var (d5, d6, d7) := (EncCodes(m.codes, m.pool, 0), EncSafe(m.safety), EncWcet(m.safety.wcet));
    var t7 := EncSection(SEC_WCET, d7);
    var t6 := EncSection(SEC_SAFE, d6) + t7;
    if At(buf, p4 + 8, d5) { CodeAt(buf, m4, p4 + 8, m); }
    var m5 := m4.(codes := m.codes, pool := m.pool);
    Advance(buf, m4, p4, SEC_CODE, d5, t6, m5);
    var p5 := p4 + 8 + |d5|;
    if At(buf, p5 + 8, d6) { SafeAt(buf, m5, p5 + 8, m.safety); }
    Advance(buf, m5, p5, SEC_SAFE, d6, t7, m);
    var p6 := p5 + 8 + |d6|;
    if At(buf, p6 + 8, d7) { WcetSection(buf, m, p6 + 8); }
    assert t7 + [] == t7;
    Advance(buf, m, p6, SEC_WCET, d7, [], m);
  }

  lemma FitsTiled(m: SasmModule)
    requires Fits(m)
    ensures Tiled(m.codes, m.pool) && |m.types| <= MAX_FUNCTIONS && |m.funcs| <= MAX_FUNCTIONS
  {
  }

  lemma WcetSection(buf: seq<byte>, m: SasmModule, pos: nat)
    requires |m.safety.wcet| <= MAX_FUNCTIONS && At(buf, pos, EncWcet(m.safety.wcet))
    ensures ReadSection(buf, m, SEC_WCET, pos, |EncWcet(m.safety.wcet)|) == Some((m, pos + |EncWcet(m.safety.wcet)|))
  {
    hide At, EncWcet, ReadWcets;
    WcetAt(buf, pos, m.safety.wcet, pos + |EncWcet(m.safety.wcet)|);
  }

  /** The loader gives back exactly the module an image was made from; but a module whose sections
      happen to sum to zero is refused, since a zero checksum field is taken for a missing one. */
  lemma RoundTrip(m: SasmModule)
    requires Encodable(m)
    ensures Tiled(m.codes, m.pool)
    ensures Load(Encode(m)) == if Crc32.Crc(EncSections(m)) == 0 then Err(E_CRC) else Ok(m)
  {
    hide At, Put32, Get32, EncSections, ReadSections, Crc32.Crc, Fits;
    FitsTiled(m);
    var (buf, body, crc) := (Encode(m), EncSections(m), Crc32.Crc(EncSections(m)));
    assert buf == Put32(MAGIC) + ([m.version] + [m.flags] + body + Put32(crc));
    Get32Put32(MAGIC, [m.version] + [m.flags] + body + Put32(crc));
    assert buf[6..|buf| - 4] == body;
    WholeAt(buf, 6, body, Put32(crc));
    SectionsAt(buf, m, 6);
    U32At(buf, |buf| - 4, crc);
    EndOfSections(buf, m);
  }

  lemma WholeAt(buf: seq<byte>, pos: nat, body: seq<byte>, tail: seq<byte>)
    requires pos + |body| + |tail| == |buf| && buf[pos..pos + |body|] == body && buf[pos + |body|..] == tail
    ensures At(buf, pos, body) && At(buf, pos + |body|, tail)
  {
  }

  lemma EndOfSections(buf: seq<byte>, m: SasmModule)
    requires Fits(m) && |buf| >= 4
    ensures ReadSections(buf, m, |buf| - 4) == Some((m, |buf| - 4))
  {
  }
}
