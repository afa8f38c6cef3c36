/** `snapshot.c` on values: what a snapshot contains, and what applying one does. */
module Snapshot {
  import opened Bytes
  import opened Results
  import opened DirtyPages
  import Crc32

  const MAGIC: u32 := 0x48534E50
  const HEADER_WORDS := 268
  const HEADER_SIZE := 1072
  const BUFFER_SIZE := 131072
  const FRAME_SIZE := 4192
  const STACK_SIZE := 1024
  const FRAME_STACK := 256
  const MAX_MEMORY := 1048576

  const INDEX_WORD := 10
  const CRC_WORD := 267

  /** A frame as it lies in memory. */
  type FrameImage = f: seq<byte> | |f| == FRAME_SIZE witness seq(FRAME_SIZE, _ => 0)

  /** The machine as the snapshot sees it: the whole stack arrays, with how much of them is in use. */
  datatype VmState = VmState(memory: seq<byte>, stack: seq<u32>, sp: nat, frames: seq<FrameImage>, fp: nat,
                             cycles: u32, lastError: u32, maxFrames: u32, maxStack: u32)

  ghost predicate Sized(vm: VmState) {
    && 0 < |vm.memory| <= MAX_MEMORY && |vm.stack| == STACK_SIZE && |vm.frames| == FRAME_STACK
    && vm.sp <= STACK_SIZE && vm.fp <= FRAME_STACK
  }

  // ---------- words, pages, frames as bytes ----------

  function EncWords(ws: seq<u32>): (b: seq<byte>)
    ensures |b| == 4 * |ws|
  {
    if ws == [] then [] else EncWords(ws[..|ws| - 1]) + Put32(ws[|ws| - 1])
  }

  function WordAt(data: seq<byte>, k: nat): u32
    requires 4 * k + 4 <= |data|
  {
    Get32(data[4 * k..])
  }

  function EncFrames(fs: seq<FrameImage>): (b: seq<byte>)
    ensures |b| == FRAME_SIZE * |fs|
  {
    if fs == [] then [] else EncFrames(fs[..|fs| - 1]) + fs[|fs| - 1]
  }

  /** How much of a page lies in memory: the last page may be cut short. */
  function PageLen(size: nat, p: nat): nat
    requires PAGE_SIZE * p <= size
  {
    if PAGE_SIZE * p + PAGE_SIZE > size then size - PAGE_SIZE * p else PAGE_SIZE
  }

  function PageBytes(memory: seq<byte>, p: nat): seq<byte>
    requires PAGE_SIZE * p <= |memory|
  {
    memory[PAGE_SIZE * p..PAGE_SIZE * p + PageLen(|memory|, p)]
  }

  ghost predicate InMemory(size: nat, pages: seq<nat>) {
    |pages| <= MAX_PAGES && forall i :: 0 <= i < |pages| ==> pages[i] < MAX_PAGES && PAGE_SIZE * pages[i] <= size
  }

  function EncPages(memory: seq<byte>, pages: seq<nat>): seq<byte>
    requires InMemory(|memory|, pages)
  {
    if pages == [] then []
    else EncPages(memory, pages[..|pages| - 1]) + PageBytes(memory, pages[|pages| - 1])
  }

  // ---------- creating ----------

  function HeaderWords(sn: u32, vm: VmState, pages: seq<nat>, crc: u32): (ws: seq<u32>)
    requires |pages| <= MAX_PAGES && (forall i :: 0 <= i < |pages| ==> pages[i] < MAX_PAGES)
    requires vm.sp <= STACK_SIZE && vm.fp <= FRAME_STACK
    ensures |ws| == HEADER_WORDS
  {
    [MAGIC, sn, 0, vm.sp, vm.fp, vm.cycles, vm.lastError, vm.maxFrames, vm.maxStack, |pages|]
    + Indices(pages) + seq(MAX_PAGES - |pages|, _ => 0) + [PAGE_SIZE * |pages|, crc]
  }

  function Indices(pages: seq<nat>): (ws: seq<u32>)
    requires forall i :: 0 <= i < |pages| ==> pages[i] < MAX_PAGES
    ensures |ws| == |pages| && forall i :: 0 <= i < |pages| ==> ws[i] == pages[i]
  {
    seq(|pages|, i requires 0 <= i < |pages| => pages[i] as u32)
  }

  function Payload(vm: VmState, pages: seq<nat>): seq<byte>
    requires InMemory(|vm.memory|, pages) && vm.sp <= |vm.stack| && vm.fp <= |vm.frames|
  {
    EncPages(vm.memory, pages) + EncWords(vm.stack[..vm.sp]) + EncFrames(vm.frames[..vm.fp])
  }

  ghost predicate Ready(vm: VmState, pages: seq<nat>) {
    Sized(vm) && InMemory(|vm.memory|, pages)
  }

  ghost function Image(sn: u32, vm: VmState, pages: seq<nat>): seq<byte>
    requires Ready(vm, pages)
  {
    var blank := EncWords(HeaderWords(sn, vm, pages, 0)) + Payload(vm, pages);
    EncWords(HeaderWords(sn, vm, pages, Crc32.Crc(blank))) + Payload(vm, pages)
  }

  /** What the buffer must hold, every page counted in full. */
  function TotalSize(vm: VmState, pages: seq<nat>): nat {
    HEADER_SIZE + PAGE_SIZE * |pages| + 4 * vm.sp + FRAME_SIZE * vm.fp
  }

  // ---------- applying ----------

  datatype Applied = Done(vm: VmState) | Refused(code: int, left: VmState) | Outside

  /** The bytes with the checksum field set to zero. */
  function WithoutCrc(data: seq<byte>): seq<byte>
    requires |data| >= HEADER_SIZE
  {
    data[..HEADER_SIZE - 4] + [0, 0, 0, 0] + data[HEADER_SIZE..]
  }

  /** `hs_snapshot_verify_crc`: also wants four bytes behind the header. */
  predicate CrcOk(data: seq<byte>) {
    |data| >= HEADER_SIZE + 4 && WordAt(data, CRC_WORD) == Crc32.Crc(WithoutCrc(data))
  }

  /** The page loop: the memory written so far, and where reading stands or why it stopped. */
  function ApplyPages(memory: seq<byte>, data: seq<byte>, i: nat, offset: nat): (seq<byte>, Option<nat>, bool)
    requires |data| >= HEADER_SIZE
    decreases WordAt(data, 9) - i
  {
    if i >= WordAt(data, 9) then (memory, Some(offset), false)
    else if i >= MAX_PAGES then (memory, None, true)
    else
      var at := Wrap(PAGE_SIZE * WordAt(data, INDEX_WORD + i));
      if at > |memory| then (memory, None, true)
      else
        var n := if at + PAGE_SIZE > |memory| then |memory| - at else PAGE_SIZE;
        if offset + n > |data| then (memory, None, false)
        else ApplyPages(memory[..at] + data[offset..offset + n] + memory[at + n..], data, i + 1, offset + n)
  }

  function ReadWords(data: seq<byte>, offset: nat, n: nat): (ws: seq<u32>)
    requires offset + 4 * n <= |data|
    ensures |ws| == n
  {
    seq(n, i requires 0 <= i < n => WordIn(data, offset, n, i))
  }

  function WordIn(data: seq<byte>, offset: nat, n: nat, i: nat): u32
    requires i < n && offset + 4 * n <= |data|
  {
    Get32(data[offset + 4 * i..])
  }

  function ReadFrames(data: seq<byte>, offset: nat, n: nat): (fs: seq<FrameImage>)
    requires offset + FRAME_SIZE * n <= |data|
    ensures |fs| == n
  {
    seq(n, i requires 0 <= i < n => FrameIn(data, offset, n, i))
  }

  function FrameIn(data: seq<byte>, offset: nat, n: nat, i: nat): FrameImage
    requires i < n && offset + FRAME_SIZE * n <= |data|
  {
    assert FRAME_SIZE * i + FRAME_SIZE <= FRAME_SIZE * n;
    data[offset + FRAME_SIZE * i..offset + FRAME_SIZE * i + FRAME_SIZE]
  }

  /** The stacks and counters, after the pages. */
  function ApplyStacks(vm: VmState, data: seq<byte>, offset: nat): Applied
    requires |data| >= HEADER_SIZE && |vm.stack| == STACK_SIZE && |vm.frames| == FRAME_STACK
    requires WordAt(data, 3) <= STACK_SIZE && WordAt(data, 4) <= FRAME_STACK
  {
    var sp, fp := WordAt(data, 3), WordAt(data, 4);
    var v1 := vm.(sp := sp);
    if offset + 4 * sp > |data| then Refused(-4, v1)
    else
      var v2 := v1.(stack := ReadWords(data, offset, sp) + vm.stack[sp..], fp := fp);
      var at := offset + 4 * sp;
      if at + FRAME_SIZE * fp > |data| then Refused(-4, v2)
      else
        Done(v2.(frames := ReadFrames(data, at, fp) + vm.frames[fp..], cycles := WordAt(data, 5),
                 lastError := WordAt(data, 6), maxFrames := WordAt(data, 7), maxStack := WordAt(data, 8)))
  }

  /** `hs_snapshot_apply`. A page list that points outside memory is outside the model. */
  function Apply(vm: VmState, data: seq<byte>): Applied
    requires |vm.stack| == STACK_SIZE && |vm.frames| == FRAME_STACK
  {
    if |data| < HEADER_SIZE then Refused(-1, vm)
    else if !CrcOk(data) then Refused(-2, vm)
    else if WordAt(data, 0) != MAGIC then Refused(-3, vm)
    else if WordAt(data, 3) > STACK_SIZE || WordAt(data, 4) > FRAME_STACK then Refused(-4, vm)
    else
      var (memory, offset, outside) := ApplyPages(vm.memory, data, 0, HEADER_SIZE);
      if outside then Outside
      else if offset == None then Refused(-4, vm.(memory := memory))
      else ApplyStacks(vm.(memory := memory), data, offset.value)
  }

  // ---------- reading back what was written ----------

  lemma {:induction false} WordsRead(ws: seq<u32>, rest: seq<byte>, k: nat)
    requires k < |ws|
    ensures Get32((EncWords(ws) + rest)[4 * k..]) == ws[k]
  {
    hide Put32, Get32;
    var n := |ws| - 1;
    var last := Put32(ws[n]);
    assert EncWords(ws) + rest == EncWords(ws[..n]) + (last + rest);
    if k == n {
      assert (EncWords(ws) + rest)[4 * k..] == last + rest;
      Get32Put32(ws[n], rest);
    } else {
      WordsRead(ws[..n], last + rest, k);
    }
  }

  lemma {:induction false} FramesRead(fs: seq<FrameImage>, rest: seq<byte>, k: nat)
    requires k < |fs|
    ensures FRAME_SIZE * k + FRAME_SIZE <= |EncFrames(fs)|
    ensures (EncFrames(fs) + rest)[FRAME_SIZE * k..FRAME_SIZE * k + FRAME_SIZE] == fs[k]
  {
    var n := |fs| - 1;
    assert EncFrames(fs) + rest == EncFrames(fs[..n]) + (fs[n] + rest);
    if k == n {
      assert (EncFrames(fs[..n]) + (fs[n] + rest))[FRAME_SIZE * k..FRAME_SIZE * k + FRAME_SIZE] == fs[n];
    } else {
      FramesRead(fs[..n], fs[n] + rest, k);
    }
  }

  lemma PagesSplit(memory: seq<byte>, pages: seq<nat>, i: nat)
    requires InMemory(|memory|, pages) && i < |pages|
    ensures InMemory(|memory|, pages[..i]) && InMemory(|memory|, pages[..i + 1])
    ensures EncPages(memory, pages[..i + 1]) == EncPages(memory, pages[..i]) + PageBytes(memory, pages[i])
    ensures |PageBytes(memory, pages[i])| == PageLen(|memory|, pages[i])
  {
    assert pages[..i + 1][..i] == pages[..i];
  }

  lemma {:induction false} PageRead(memory: seq<byte>, pages: seq<nat>, rest: seq<byte>, i: nat)
    requires InMemory(|memory|, pages) && i < |pages|
    ensures InMemory(|memory|, pages[..i]) && InMemory(|memory|, pages[..i + 1])
    ensures var (at, n) := (|EncPages(memory, pages[..i])|, PageLen(|memory|, pages[i]));
            && |EncPages(memory, pages[..i + 1])| == at + n <= |EncPages(memory, pages)|
            && (EncPages(memory, pages) + rest)[at..at + n] == PageBytes(memory, pages[i])
  {
    hide EncPages, PageBytes, PageLen;
    var n := |pages| - 1;
    PagesSplit(memory, pages, i);
    PagesSplit(memory, pages, n);
    assert pages[..n + 1] == pages;
    var (front, last) := (EncPages(memory, pages[..n]), PageBytes(memory, pages[n]));
    assert EncPages(memory, pages) + rest == front + (last + rest);
    if i < n {
      PageRead(memory, pages[..n], last + rest, i);
      assert pages[..n][..i] == pages[..i] && pages[..n][..i + 1] == pages[..i + 1];
    } else {
      assert (front + (last + rest))[|front|..|front| + |last|] == last;
    }
  }

  function PutPage(memory: seq<byte>, from: seq<byte>, p: nat): (r: seq<byte>)
    requires |memory| == |from| && PAGE_SIZE * p <= |from|
    ensures |r| == |memory|
  {
    memory[..PAGE_SIZE * p] + PageBytes(from, p) + memory[PAGE_SIZE * p + PageLen(|from|, p)..]
  }

  /** `memory` with the pages from the `i`-th on copied in from `from`. */
  function Overlay(memory: seq<byte>, from: seq<byte>, pages: seq<nat>, i: nat): (r: seq<byte>)
    requires |memory| == |from| && InMemory(|from|, pages) && i <= |pages|
    ensures |r| == |memory|
    decreases |pages| - i
  {
    if i == |pages| then memory else Overlay(PutPage(memory, from, pages[i]), from, pages, i + 1)
  }

  lemma PutPageAt(memory: seq<byte>, from: seq<byte>, p: nat, a: nat)
    requires |memory| == |from| && PAGE_SIZE * p <= |from| && a < |memory|
    ensures PutPage(memory, from, p)[a] == if a / PAGE_SIZE == p then from[a] else memory[a]
  {
    if a / PAGE_SIZE == p {
      assert PAGE_SIZE * p <= a < PAGE_SIZE * p + PageLen(|from|, p);
      assert PageBytes(from, p)[a - PAGE_SIZE * p] == from[a];
    } else {
      assert a < PAGE_SIZE * p || a >= PAGE_SIZE * p + PAGE_SIZE;
    }
  }

  /** Exactly the bytes of the listed pages come from `from`. */
  lemma {:induction false} OverlayAt(memory: seq<byte>, from: seq<byte>, pages: seq<nat>, i: nat, a: nat)
    requires |memory| == |from| && InMemory(|from|, pages) && i <= |pages| && a < |memory|
    ensures Overlay(memory, from, pages, i)[a] == if a / PAGE_SIZE in pages[i..] then from[a] else memory[a]
    decreases |pages| - i
  {
    hide PutPage;
    if i < |pages| {
      PutPageAt(memory, from, pages[i], a);
      OverlayAt(PutPage(memory, from, pages[i]), from, pages, i + 1, a);
      assert pages[i..] == [pages[i]] + pages[i + 1..];
    }
  }

  /** The page list of an image is read back where the header says. */
  ghost predicate ListsPages(data: seq<byte>, memory: seq<byte>, pages: seq<nat>) {
    && |data| >= HEADER_SIZE && InMemory(|memory|, pages) && |memory| <= MAX_MEMORY && WordAt(data, 9) == |pages|
    && (forall i :: 0 <= i < |pages| ==> WordAt(data, INDEX_WORD + i) == pages[i])
    && EncPages(memory, pages) <= data[HEADER_SIZE..]
  }

  lemma SliceFrom(data: seq<byte>, base: nat, o: nat, n: nat)
    requires base + o + n <= |data|
    ensures data[base + o..base + o + n] == data[base..][o..o + n]
  {
  }

  lemma PageStep(data: seq<byte>, from: seq<byte>, pages: seq<nat>, memory: seq<byte>, i: nat)
    requires ListsPages(data, from, pages) && |memory| == |from| && i < |pages|
    ensures InMemory(|from|, pages[..i]) && InMemory(|from|, pages[..i + 1])
    ensures var offset := HEADER_SIZE + |EncPages(from, pages[..i])|;
            ApplyPages(memory, data, i, offset) ==
            ApplyPages(PutPage(memory, from, pages[i]), data, i + 1, HEADER_SIZE + |EncPages(from, pages[..i + 1])|)
  {
    hide EncPages, WordAt;
    var body := EncPages(from, pages);
    var rest := data[HEADER_SIZE + |body|..];
    assert data[HEADER_SIZE..] == body + rest;
    PageRead(from, pages, rest, i);
    var (o, n, p) := (|EncPages(from, pages[..i])|, PageLen(|from|, pages[i]), pages[i]);
    SliceFrom(data, HEADER_SIZE, o, n);
    assert WordAt(data, INDEX_WORD + i) == p && Wrap(PAGE_SIZE * p) == PAGE_SIZE * p;
  }

  lemma {:induction false} PagesApplied(data: seq<byte>, from: seq<byte>, pages: seq<nat>, memory: seq<byte>, i: nat)
    requires ListsPages(data, from, pages) && |memory| == |from| && i <= |pages|
    ensures InMemory(|from|, pages[..i])
    ensures ApplyPages(memory, data, i, HEADER_SIZE + |EncPages(from, pages[..i])|) ==
            (Overlay(memory, from, pages, i), Some(HEADER_SIZE + |EncPages(from, pages)|), false)
    decreases |pages| - i
  {
    hide EncPages, PutPage, WordAt;
    if i < |pages| {
      PageStep(data, from, pages, memory, i);
      PagesApplied(data, from, pages, PutPage(memory, from, pages[i]), i + 1);
    } else {
      assert pages[..i] == pages;
    }
  }

  // ---------- the whole image ----------

  /** `s` brought up to date from `m`, for the pages listed and everything in use on the stacks. */
  function Synced(s: VmState, m: VmState, pages: seq<nat>): VmState
    requires |s.memory| == |m.memory| && InMemory(|m.memory|, pages)
    requires m.sp <= |m.stack| == |s.stack| && m.fp <= |m.frames| == |s.frames|
  {
    VmState(Overlay(s.memory, m.memory, pages, 0), m.stack[..m.sp] + s.stack[m.sp..], m.sp,
            m.frames[..m.fp] + s.frames[m.fp..], m.fp, m.cycles, m.lastError, m.maxFrames, m.maxStack)
  }

  lemma HeaderRead(sn: u32, m: VmState, pages: seq<nat>, crc: u32, rest: seq<byte>, k: nat)
    requires Ready(m, pages) && k < HEADER_WORDS
    ensures WordAt(EncWords(HeaderWords(sn, m, pages, crc)) + rest, k) == HeaderWords(sn, m, pages, crc)[k]
  {
    hide HeaderWords, Get32;
    WordsRead(HeaderWords(sn, m, pages, crc), rest, k);
  }

  lemma HeaderFields(sn: u32, m: VmState, pages: seq<nat>, crc: u32)
    requires Ready(m, pages)
    ensures var ws := HeaderWords(sn, m, pages, crc);
            && ws[0] == MAGIC && ws[3] == m.sp && ws[4] == m.fp && ws[5] == m.cycles && ws[6] == m.lastError
            && ws[7] == m.maxFrames && ws[8] == m.maxStack && ws[9] == |pages| && ws[CRC_WORD] == crc
            && (forall i :: 0 <= i < |pages| ==> ws[INDEX_WORD + i] == pages[i])
            && ws[..CRC_WORD] == HeaderWords(sn, m, pages, 0)[..CRC_WORD]
  {
  }

  /** Blanking the checksum of an image gives what the checksum was taken over. */
  lemma ImageCrc(sn: u32, m: VmState, pages: seq<nat>)
    requires Ready(m, pages)
    ensures var data := Image(sn, m, pages);
            && |data| == HEADER_SIZE + |Payload(m, pages)|
            && WordAt(data, CRC_WORD) == Crc32.Crc(WithoutCrc(data))
  {
    hide HeaderWords, Payload, Get32, Crc32.Crc;
    var body := Payload(m, pages);
    var blank := EncWords(HeaderWords(sn, m, pages, 0)) + body;
    var crc := Crc32.Crc(blank);
    var ws, ws0 := HeaderWords(sn, m, pages, crc), HeaderWords(sn, m, pages, 0);
    HeaderFields(sn, m, pages, crc);
    HeaderFields(sn, m, pages, 0);
    HeaderRead(sn, m, pages, crc, body, CRC_WORD);
    LastWord(ws);
    LastWord(ws0);
    PutZero();
    var data := Image(sn, m, pages);
    assert data == EncWords(ws[..CRC_WORD]) + Put32(crc) + body;
    assert WithoutCrc(data) == EncWords(ws[..CRC_WORD]) + [0, 0, 0, 0] + body;
    assert blank == EncWords(ws0[..CRC_WORD]) + [0, 0, 0, 0] + body;
  }

  lemma LastWord(ws: seq<u32>)
    requires |ws| == HEADER_WORDS
    ensures EncWords(ws) == EncWords(ws[..CRC_WORD]) + Put32(ws[CRC_WORD])
  {
    hide Put32;
  }

  lemma PutZero()
    ensures Put32(0) == [0, 0, 0, 0]
  {
  }

  lemma ImageLists(sn: u32, m: VmState, pages: seq<nat>)
    requires Ready(m, pages)
    ensures ListsPages(Image(sn, m, pages), m.memory, pages)
    ensures var data := Image(sn, m, pages);
            && WordAt(data, 0) == MAGIC && WordAt(data, 3) == m.sp && WordAt(data, 4) == m.fp && WordAt(data, 5) == m.cycles
            && WordAt(data, 6) == m.lastError && WordAt(data, 7) == m.maxFrames && WordAt(data, 8) == m.maxStack
            && data[HEADER_SIZE..] == Payload(m, pages)
  {
    hide HeaderWords, EncPages, EncWords, EncFrames, WordAt, Crc32.Crc, InMemory, Sized;
    ReadySized(m, pages);
    var data, body := Image(sn, m, pages), Payload(m, pages);
    var crc := Crc32.Crc(EncWords(HeaderWords(sn, m, pages, 0)) + body);
    HeaderFields(sn, m, pages, crc);
    forall k | 0 <= k < HEADER_WORDS ensures WordAt(data, k) == HeaderWords(sn, m, pages, crc)[k] {
      HeaderRead(sn, m, pages, crc, body, k);
    }
    assert data[HEADER_SIZE..] == body;
  }

  lemma ReadySized(m: VmState, pages: seq<nat>)
    requires Ready(m, pages)
    ensures InMemory(|m.memory|, pages) && 0 < |m.memory| <= MAX_MEMORY && |m.stack| == STACK_SIZE
    ensures |m.frames| == FRAME_STACK && m.sp <= STACK_SIZE && m.fp <= FRAME_STACK && |pages| <= MAX_PAGES
  {
  }

  lemma WordBack(data: seq<byte>, at: nat, stack: seq<u32>, rest: seq<byte>, i: nat)
    requires at + 4 * |stack| <= |data| && data[at..] == EncWords(stack) + rest && i < |stack|
    ensures WordIn(data, at, |stack|, i) == stack[i]
  {
    hide EncWords, Get32;
    WordsRead(stack, rest, i);
    assert data[at + 4 * i..] == data[at..][4 * i..];
  }

  lemma WordsBack(data: seq<byte>, at: nat, stack: seq<u32>, rest: seq<byte>)
    requires at <= |data| && data[at..] == EncWords(stack) + rest
    ensures at + 4 * |stack| + |rest| == |data| && ReadWords(data, at, |stack|) == stack
    ensures data[at + 4 * |stack|..] == rest
  {
    hide EncWords, WordIn;
    TailOf(data, at, EncWords(stack), rest);
    forall i | 0 <= i < |stack| ensures WordIn(data, at, |stack|, i) == stack[i] {
      WordBack(data, at, stack, rest, i);
    }
  }

  lemma TailOf(data: seq<byte>, at: nat, a: seq<byte>, b: seq<byte>)
    requires at <= |data| && data[at..] == a + b
    ensures at + |a| + |b| == |data| && data[at + |a|..] == b
  {
    assert data[at + |a|..] == data[at..][|a|..];
  }

  lemma FramesBack(data: seq<byte>, at: nat, frames: seq<FrameImage>)
    requires at <= |data| && data[at..] == EncFrames(frames)
    ensures at + FRAME_SIZE * |frames| == |data| && ReadFrames(data, at, |frames|) == frames
  {
    hide EncFrames;
    assert data[at..] == EncFrames(frames) + [];
    forall i | 0 <= i < |frames| ensures FrameIn(data, at, |frames|, i) == frames[i] {
      FrameBack(data, at, frames, i);
    }
  }

  lemma FrameBack(data: seq<byte>, at: nat, frames: seq<FrameImage>, i: nat)
    requires at + FRAME_SIZE * |frames| == |data| && data[at..] == EncFrames(frames) + [] && i < |frames|
    ensures FrameIn(data, at, |frames|, i) == frames[i]
  {
    hide EncFrames;
    FramesRead(frames, [], i);
    var (lo, hi) := (FRAME_SIZE * i, FRAME_SIZE * i + FRAME_SIZE);
    assert data[at + lo..at + hi] == data[at..][lo..hi];
  }

  /** Applying an image gives the standby the master's pages, stacks and counters; but an image
      with fewer than four bytes behind its header is refused, and nothing changes. */
  lemma ApplyImage(sn: u32, m: VmState, pages: seq<nat>, s: VmState)
    requires Ready(m, pages) && Sized(s) && |s.memory| == |m.memory|
    ensures Apply(s, Image(sn, m, pages)) ==
            if |Payload(m, pages)| < 4 then Refused(-2, s) else Done(Synced(s, m, pages))
  {
    hide HeaderWords, EncPages, EncWords, EncFrames, WordAt, Crc32.Crc, InMemory, Image, ApplyPages, Overlay, WithoutCrc,
         ReadWords, ReadFrames;
    ReadySized(m, pages);
    var data := Image(sn, m, pages);
    ImageCrc(sn, m, pages);
    ImageLists(sn, m, pages);
    if |Payload(m, pages)| >= 4 {
      PagesFromStart(data, m.memory, pages, s.memory);
      var at := HEADER_SIZE + |EncPages(m.memory, pages)|;
      assert data[at..] == data[HEADER_SIZE..][|EncPages(m.memory, pages)|..];
      WordsBack(data, at, m.stack[..m.sp], EncFrames(m.frames[..m.fp]));
      FramesBack(data, at + 4 * m.sp, m.frames[..m.fp]);
    }
  }

  lemma PagesFromStart(data: seq<byte>, from: seq<byte>, pages: seq<nat>, memory: seq<byte>)
    requires ListsPages(data, from, pages) && |memory| == |from|
    ensures ApplyPages(memory, data, 0, HEADER_SIZE) ==
            (Overlay(memory, from, pages, 0), Some(HEADER_SIZE + |EncPages(from, pages)|), false)
  {
    hide WordAt;
    PagesApplied(data, from, pages, memory, 0);
    assert pages[..0] == [];
  }
}
