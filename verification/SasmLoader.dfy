/** `loader.c`: the cursor that reads an image, the section loops, and the validator. */
module SasmLoader {
  import opened Bytes
  import opened Results
  import opened SasmFormat
  import Crc32
  import Orders

  /** What a step returned and where it left the cursor, against the reading function. */
  predicate Agrees<T(==)>(o: Option<T>, p: nat, spec: Option<(T, nat)>) {
    match spec
    case None => o == None
    case Some((x, q)) => o == Some(x) && p == q
  }

  /** The cursor: `p` bytes read and `remaining` to go always make up the whole buffer. */
  class Reader {
    const buf: seq<byte>
    var p: nat
    var remaining: nat

    ghost predicate Valid()
      reads this
    {
      p + remaining == |buf|
    }

    constructor (buf: seq<byte>)
      ensures Valid() && this.buf == buf && p == 0
    {
      this.buf, p, remaining := buf, 0, |buf|;
    }

    method U8() returns (v: byte)
      requires Valid()
      modifies this
      ensures Valid() && (v, p) == SasmFormat.U8(buf, old(p))
    {
      if remaining < 1 { return 0; }
      v := buf[p];
      p, remaining := p + 1, remaining - 1;
    }

    /** A section's kind, its length, and three bytes that are not looked at. */
    method SectionHeader() returns (kind: byte, len: u32)
      requires Valid() && remaining >= 8
      modifies this
      ensures Valid() && p == old(p) + 8 && kind == buf[old(p)] && len == Get32(buf[old(p) + 1..])
    {
      hide Get32;
      kind := U8();
      len := U32();
      var reserved := U8();
      reserved := U8();
      reserved := U8();
    }

    method U32() returns (v: u32)
      requires Valid()
      modifies this
      ensures Valid() && (v, p) == SasmFormat.U32(buf, old(p))
    {
      if remaining < 4 { return 0; }
      v := Get32(buf[p..]);
      p, remaining := p + 4, remaining - 4;
    }

    method F64() returns (o: Option<Float64>)
      requires Valid()
      modifies this
      ensures Valid() && Agrees(o, p, ReadFloat(buf, old(p)))
    {
      if remaining < 8 { return None; }
      var b: Float64 := buf[p..p + 8];
      if !Finite(b) { return None; }
      p, remaining := p + 8, remaining - 8;
      return Some(b);
    }

    method Skip(n: nat)
      requires Valid() && n <= remaining
      modifies this
      ensures Valid() && p == old(p) + n
    {
      p, remaining := p + n, remaining - n;
    }

    /** `n` single-byte reads appended to `acc`. */
    method Take(n: nat, acc: seq<byte>) returns (bs: seq<byte>)
      requires Valid()
      modifies this
      ensures Valid() && (bs, p) == ByteList(buf, old(p), n, acc)
    {
      bs := acc;
      for i := 0 to n
        invariant Valid() && ByteList(buf, p, n - i, bs) == ByteList(buf, old(p), n, acc)
      {
        var b := U8();
        bs := bs + [b];
      }
    }

    method OneType() returns (o: Option<FuncType>)
      requires Valid()
      modifies this
      ensures Valid() && Agrees(o, p, ReadType(buf, old(p)))
    {
      hide ByteList, SasmFormat.U32;
      var np := U32();
      if np > MAX_PARAMS { return None; }
      var params := Take(np, []);
      var nr := U32();
      if nr > 1 { return None; }
      var results := Take(nr, []);
      return Some(FuncType(params, results));
    }

    method OneFunc() returns (o: Option<FuncDecl>)
      requires Valid()
      modifies this
      ensures Valid() && Agrees(o, p, ReadFunc(buf, old(p)))
    {
      hide ByteList, SasmFormat.U32;
      var ty := U32();
      var nl := U32();
      if nl > MAX_LOCALS { return None; }
      var locals := Take(nl, []);
      return Some(FuncDecl(ty, locals));
    }

    method OneIo() returns (o: Option<IoEntry>)
      requires Valid()
      modifies this
      ensures Valid() && Agrees(o, p, ReadIo(buf, old(p)))
    {
      hide SasmFormat.U8, SasmFormat.U32, ReadFloat;
      var name := U32();
      var memOffset := U32();
      var channel := U32();
      var direction := U8();
      var ioType := U8();
      var bitWidth := U32();
      var scale := F64();
      if scale == None { return None; }
      var bias := F64();
      if bias == None { return None; }
      var low := U32();
      var high := U32();
      return Some(IoEntry(name, memOffset, channel, direction, ioType, bitWidth, scale.value, bias.value, low, high));
    }

    method OneTriple() returns (t: Triple)
      requires Valid()
      modifies this
      ensures Valid() && Some((t, p)) == ReadTriple(buf, old(p))
    {
      hide SasmFormat.U32;
      var f := U32();
      var b := U32();
      var c := U32();
      return Triple(f, b, c);
    }

    method Types(end: nat, before: seq<FuncType>) returns (o: Option<seq<FuncType>>)
      requires Valid()
      modifies this
      ensures Valid() && Agrees(o, p, Until(ReadType, buf, old(p), end, MAX_FUNCTIONS, before))
    {
      hide ReadType;
      var types := before;
      while p < end && |types| < MAX_FUNCTIONS
        invariant Valid()
        invariant Until(ReadType, buf, p, end, MAX_FUNCTIONS, types) ==
                  Until(ReadType, buf, old(p), end, MAX_FUNCTIONS, before)
        decreases MAX_FUNCTIONS - |types|
      {
        var t := OneType();
        if t == None { return None; }
        types := types + [t.value];
      }
      return Some(types);
    }

    method Funcs(end: nat, before: seq<FuncDecl>) returns (o: Option<seq<FuncDecl>>)
      requires Valid()
      modifies this
      ensures Valid() && Agrees(o, p, Until(ReadFunc, buf, old(p), end, MAX_FUNCTIONS, before))
    {
      hide ReadFunc;
      var funcs := before;
      while p < end && |funcs| < MAX_FUNCTIONS
        invariant Valid()
        invariant Until(ReadFunc, buf, p, end, MAX_FUNCTIONS, funcs) ==
                  Until(ReadFunc, buf, old(p), end, MAX_FUNCTIONS, before)
        decreases MAX_FUNCTIONS - |funcs|
      {
        var f := OneFunc();
        if f == None { return None; }
        funcs := funcs + [f.value];
      }
      return Some(funcs);
    }

    method Segments(n: nat) returns (segments: seq<MemSegment>)
      requires Valid()
      modifies this
      ensures Valid() && Some((segments, p)) == Many(ReadSegment, buf, old(p), n, [])
    {
      hide SasmFormat.U8, SasmFormat.U32;
      segments := [];
      for i := 0 to n
        invariant Valid()
        invariant Many(ReadSegment, buf, p, n - i, segments) == Many(ReadSegment, buf, old(p), n, [])
      {
        var kind := U8();
        var start := U32();
        var size := U32();
        segments := segments + [MemSegment(kind, start, size)];
      }
    }

    method IoEntries(n: nat) returns (o: Option<seq<IoEntry>>)
      requires Valid()
      modifies this
      ensures Valid() && Agrees(o, p, Many(ReadIo, buf, old(p), n, []))
    {
      hide ReadIo;
      var io := [];
      for i := 0 to n
        invariant Valid()
        invariant Many(ReadIo, buf, p, n - i, io) == Many(ReadIo, buf, old(p), n, [])
      {
        var e := OneIo();
        if e == None { return None; }
        io := io + [e.value];
      }
      return Some(io);
    }

    method Triples(n: nat) returns (ts: seq<Triple>)
      requires Valid()
      modifies this
      ensures Valid() && Some((ts, p)) == Many(ReadTriple, buf, old(p), n, [])
    {
      hide ReadTriple;
      ts := [];
      for i := 0 to n
        invariant Valid() && Many(ReadTriple, buf, p, n - i, ts) == Many(ReadTriple, buf, old(p), n, [])
      {
        var t := OneTriple();
        ts := ts + [t];
      }
    }

    method Ranges(n: nat) returns (rs: seq<MemRange>)
      requires Valid()
      modifies this
      ensures Valid() && Some((rs, p)) == Many(ReadRange, buf, old(p), n, [])
    {
      hide SasmFormat.U32;
      rs := [];
      for i := 0 to n
        invariant Valid() && Many(ReadRange, buf, p, n - i, rs) == Many(ReadRange, buf, old(p), n, [])
      {
        var low := U32();
        var high := U32();
        rs := rs + [MemRange(low, high)];
      }
    }

    method Wcets(end: nat) returns (o: Option<seq<Triple>>)
      requires Valid()
      modifies this
      ensures Valid() && Agrees(o, p, ReadWcets(buf, old(p), end))
    {
      hide ReadTriple, SasmFormat.U32;
      var n := U32();
      if n > MAX_FUNCTIONS { return None; }
      ghost var at := p;
      var ws := [];
      for i := 0 to n
        invariant Valid() && Many(ReadWcet(end), buf, p, n - i, ws) == Many(ReadWcet(end), buf, at, n, [])
      {
        if p + 12 > end { return None; }
        var t := OneTriple();
        ws := ws + [t];
      }
      return Some(ws);
    }

    method Codes(end: nat, before: seq<FuncCode>, bytes: seq<byte>) returns (o: Option<(seq<FuncCode>, seq<byte>)>)
      requires Valid()
      modifies this
      ensures Valid()
      ensures var spec := ReadCodes(buf, old(p), end, before, bytes);
              if spec == None then o == None else o == Some((spec.value.0, spec.value.1)) && p == spec.value.2
    {
      hide ByteList, SasmFormat.U32;
      var codes, pool := before, bytes;
      while p < end && |codes| < MAX_FUNCTIONS
        invariant Valid()
        invariant ReadCodes(buf, p, end, codes, pool) == ReadCodes(buf, old(p), end, before, bytes)
        decreases MAX_FUNCTIONS - |codes|
      {
        var f := U32();
        var size := U32();
        if size == 0 || size > MAX_FUNCTION_CODE { return None; }
        if |pool| + size > MAX_POOL { return None; }
        var offset := |pool|;
        pool := Take(size, pool);
        codes := codes + [FuncCode(f, offset, size)];
      }
      return Some((codes, pool));
    }

    method Safe(m: SasmModule, end: nat) returns (o: Option<SasmModule>)
      requires Valid()
      modifies this
      ensures Valid() && Agrees(o, p, ReadSafe(buf, m, old(p), end))
    {
      hide SasmFormat.U8, SasmFormat.U32, Many, ReadWcets;
      var level := U8();
      var limit := U32();
      var depth := U32();
      var nl := U32();
      if nl > MAX_LOOP_BOUNDS { return None; }
      var loops := Triples(nl);
      var nr := U32();
      if nr > MAX_MEM_RANGES { return None; }
      var ranges := Ranges(nr);
      var n := m.(safety := Safety(level, limit, depth, loops, ranges, []));
      if p + 4 <= end {
        var wcet := Wcets(end);
        if wcet == None { return None; }
        n := n.(safety := n.safety.(wcet := wcet.value));
      }
      return Some(n);
    }

    /** The switch over section kinds. */
    method Section(m: SasmModule, kind: byte, len: nat) returns (o: Option<SasmModule>)
      requires Valid() && len <= remaining
      modifies this
      ensures Valid() && Agrees(o, p, ReadSection(buf, m, kind, old(p), len))
    {
      hide SasmFormat.U32, Many, Until, ReadCodes, ReadWcets, ReadSafe;
      var end := p + len;
      if kind == SEC_TYPE {
        var types := Types(end, m.types);
        if types == None { return None; }
        return Some(m.(types := types.value));
      } else if kind == SEC_FUNC {
        var funcs := Funcs(end, m.funcs);
        if funcs == None { return None; }
        return Some(m.(funcs := funcs.value));
      } else if kind == SEC_MEM {
        var total := U32();
        var n := U32();
        if n > MAX_SEGMENTS { return None; }
        var segments := Segments(n);
        return Some(m.(memory := total, segments := segments));
      } else if kind == SEC_IOMAP {
        var n := U32();
        if n > MAX_IOMAP { return None; }
        var io := IoEntries(n);
        if io == None { return None; }
        return Some(m.(iomap := io.value));
      } else if kind == SEC_CODE {
        var codes := Codes(end, m.codes, m.pool);
        if codes == None { return None; }
        return Some(m.(codes := codes.value.0, pool := codes.value.1));
      } else if kind == SEC_SAFE {
        o := Safe(m, end);
      } else if kind == SEC_WCET {
        var wcet := Wcets(end);
        if wcet == None { return None; }
        return Some(m.(safety := m.safety.(wcet := wcet.value)));
      } else {
        Skip(len);
        return Some(m);
      }
    }
  }

  /** `sasm_load`: 0 and the module, or the refusal code. */
  method SasmLoad(buf: seq<byte>) returns (rc: int, m: SasmModule)
    ensures match Load(buf) case Ok(n) => rc == 0 && m == n case Err(e) => rc == e
  {
    hide ReadSection, Crc32.Crc, Get32, Fits;
    m := Blank(0, 0);
    if |buf| < 8 { return E_FORMAT, m; }
    var r := new Reader(buf);
    var magic := r.U32();
    assert buf[0..] == buf;
    if magic != MAGIC { return E_FORMAT, m; }
    var version := r.U8();
    var flags := r.U8();
    m := Blank(version, flags);
    if version != VERSION { return E_FORMAT, m; }
    var start := r.p;
    if r.remaining < 4 { return E_FORMAT, m; }
    var sumLen := r.remaining - 4;
    BlankFits(version, flags);
    while r.remaining > 4
      invariant r.Valid() && r.buf == buf && Fits(m)
      invariant ReadSections(buf, m, r.p) == ReadSections(buf, Blank(version, flags), 6)
      decreases r.remaining
    {
      if r.remaining < 8 { return E_FORMAT, m; }
      var kind, len := r.SectionHeader();
      if len > r.remaining { return E_FORMAT, m; }
      SectionForward(buf, m, kind, r.p, len);
      var n := r.Section(m, kind, len);
      if n == None { return E_FORMAT, m; }
      m := n.value;
    }
    var stored := r.U32();
    var computed := Crc32.Compute(buf[start..start + sumLen]);
    if stored == 0 || stored != computed { return E_CRC, m; }
    return 0, m;
  }

  // ---------- validation ----------

  /** Every declared function is within the tables, and no two bodies serve the same one. */
  ghost predicate Sound(m: SasmModule) {
    && 0 < |m.types| <= MAX_FUNCTIONS && 0 < |m.funcs| <= MAX_FUNCTIONS && |m.codes| == |m.funcs|
    && |m.pool| <= MAX_POOL
    && 0 < m.safety.cycleLimit <= 1000000 && 0 < m.safety.stackDepth <= MAX_CALL_DEPTH && m.safety.level <= 1
    && 0 < m.memory <= MAX_MEMORY && m.entry < |m.funcs|
    && (forall i :: 0 <= i < |m.funcs| ==> FuncSound(m, m.funcs[i]))
    && (forall i :: 0 <= i < |m.codes| ==> CodeSound(m, m.codes[i]))
    && (forall i, j :: 0 <= i < j < |m.codes| ==> m.codes[i].func != m.codes[j].func)
  }

  predicate FuncSound(m: SasmModule, f: FuncDecl) {
    f.typeIdx < |m.types| && |f.locals| <= MAX_LOCALS
  }

  predicate CodeSound(m: SasmModule, c: FuncCode) {
    c.func < |m.funcs| && 0 < c.size <= MAX_FUNCTION_CODE && c.offset + c.size <= |m.pool|
  }

  /** `sasm_validate`, with its table of functions already seen. */
  method Validate(m: SasmModule) returns (ok: bool)
    ensures ok <==> Sound(m)
  {
    if |m.types| == 0 || |m.types| > MAX_FUNCTIONS { return false; }
    if |m.funcs| == 0 || |m.funcs| > MAX_FUNCTIONS { return false; }
    if |m.codes| != |m.funcs| { return false; }
    if |m.pool| > MAX_POOL { return false; }
    if m.safety.cycleLimit == 0 || m.safety.cycleLimit > 1000000 { return false; }
    if m.safety.stackDepth == 0 || m.safety.stackDepth > MAX_CALL_DEPTH { return false; }
    if m.safety.level > 1 { return false; }
    if m.memory == 0 || m.memory > MAX_MEMORY { return false; }
    if m.entry >= |m.funcs| { return false; }
    for i := 0 to |m.funcs|
      invariant forall k :: 0 <= k < i ==> FuncSound(m, m.funcs[k])
    {
      if m.funcs[i].typeIdx >= |m.types| { return false; }
      if |m.funcs[i].locals| > MAX_LOCALS { return false; }
    }
    var seen := new bool[MAX_FUNCTIONS](_ => false);
    for i := 0 to |m.codes|
      invariant forall k :: 0 <= k < i ==> CodeSound(m, m.codes[k])
      invariant forall f :: 0 <= f < |m.funcs| ==> (seen[f] <==> exists k :: 0 <= k < i && m.codes[k].func == f)
      invariant forall k, l :: 0 <= k < l < i ==> m.codes[k].func != m.codes[l].func
    {
      var code := m.codes[i];
      if code.func >= |m.funcs| { return false; }
      if seen[code.func] { return false; }
      seen[code.func] := true;
      if code.size == 0 || code.size > MAX_FUNCTION_CODE { return false; }
      if code.offset > |m.pool| || code.offset + code.size > |m.pool| { return false; }
    }
    return true;
  }

  function Served(m: SasmModule): seq<int> {
    seq(|m.codes|, i requires 0 <= i < |m.codes| => m.codes[i].func as int)
  }

  /** As many bodies as functions, none twice: so every function has its body, and just one. */
  lemma OneBodyEach(m: SasmModule, f: nat) returns (i: nat)
    requires Sound(m) && f < |m.funcs|
    ensures i < |m.codes| && m.codes[i].func == f && CodeSound(m, m.codes[i])
    ensures forall j :: 0 <= j < |m.codes| && m.codes[j].func == f ==> j == i
  {
    var s, pool := Served(m), Orders.UpTo(|m.funcs|);
    Orders.UpToSize(|m.funcs|);
    Orders.DistinctCardinality(s);
    assert Orders.Elements(s) <= pool;
    Orders.SubsetCardinality(Orders.Elements(s), pool);
    assert f in pool;
    i :| 0 <= i < |s| && s[i] == f;
  }
}
