/** Reading virtual memory page by page. */
module VirtualReads {
  import opened Outcomes
  import opened Arithmetic
  import opened Bytes
  import opened PhysicalMemory
  import opened Paging
  import opened KernelSearch

  const SPACE: nat := 0x1_0000_0000_0000_0000
  const PAGE: nat := 0x1000

  /** What reading one piece does to its part of the buffer. */
  datatype Piece = Filled(bytes: seq<byte>) | Untouched | Failed(error: TranslationError)

  type Reader = (nat, nat) -> Piece

  ghost predicate FillsWhole(read: Reader) {
    forall a: nat, n: nat :: read(a, n).Filled? ==> |read(a, n).bytes| == n
  }

  // ---- Splitting

  datatype Chunk = Chunk(addr: u64, len: nat)

  function Chunks(addr: u64, len: nat): (cs: seq<Chunk>)
    ensures cs != []
    decreases len
  {
    var diff := PAGE - addr % PAGE;
    if diff >= len then [Chunk(addr, len)]
    else [Chunk(addr, diff)] + Chunks((addr + diff) % SPACE, len - diff)
  }

  function TotalLen(cs: seq<Chunk>): nat {
    if cs == [] then 0 else cs[0].len + TotalLen(cs[1..])
  }

  /** A part of the buffer after reading a piece into it. */
  function After(piece: Piece, part: seq<byte>): (seq<byte>, Option<TranslationError>) {
    match piece
    case Failed(e) => (part, Some(e))
    case Filled(bytes) => (bytes, None)
    case Untouched => (part, None)
  }

  /** The buffer after reading the chunks in order, up to the first that fails. */
  function Fill(buf: seq<byte>, cs: seq<Chunk>, read: Reader): (seq<byte>, Option<TranslationError>)
    requires TotalLen(cs) <= |buf|
  {
    if cs == [] then (buf, None) else
    var (head, error) := After(read(cs[0].addr, cs[0].len), buf[..cs[0].len]);
    if error.Some? then (buf, error) else
    var (rest, r) := Fill(buf[cs[0].len..], cs[1..], read);
    (head + rest, r)
  }

  /** The bytes and the error a whole request ends with, chunk by chunk. */
  ghost function SplitRead(addr: u64, was: seq<byte>, read: Reader): (seq<byte>, Option<TranslationError>) {
    ChunksTotal(addr, |was|);
    Fill(was, Chunks(addr, |was|), read)
  }

  method ReadPiece(addr: u64, buf: array<byte>, from: nat, to: nat, read: Reader) returns (r: Option<TranslationError>)
    requires FillsWhole(read) && from <= to <= buf.Length
    modifies buf
    ensures r == After(read(addr, to - from), old(buf[from..to])).1
    ensures buf[..] == old(buf[..from]) + After(read(addr, to - from), old(buf[from..to])).0 + old(buf[to..])
  {
    match read(addr, to - from) {
      case Failed(e) => r := Some(e);
      case Untouched => r := None;
      case Filled(bytes) =>
        forall i | from <= i < to {
          buf[i] := bytes[i - from];
        }
        assert buf[from..to] == bytes;
        r := None;
    }
  }

  method ReadVirtualMemory(start: u64, buf: array<byte>, read: Reader) returns (r: Option<TranslationError>)
    requires FillsWhole(read)
    modifies buf
    ensures (buf[..], r) == SplitRead(start, old(buf[..]), read)
  {
    hide Chunks, Fill, TotalLen, After, FillsWhole, Reading;
    ChunksTotal(start, buf.Length);
    var addr: u64 := start;
    var done: nat := 0;
    var nextPage: nat := addr - addr % PAGE;
    // The part already read, and the part still to be read.
    ghost var filled, left := [], buf[..];
    ghost var goal := Fill(left, Chunks(start, buf.Length), read);
    StartReading(goal, left, addr, read);
    while true
      invariant done <= buf.Length && nextPage == addr - addr % PAGE
      invariant |filled| == done && |left| == buf.Length - done && buf[..] == filled + left
      invariant Reading(goal, filled, left, addr, read)
      decreases buf.Length - done
    {
      nextPage := (nextPage + PAGE) % SPACE;
      var diff := Distance(addr, nextPage);
      if diff >= buf.Length - done {
        r := ReadAfter(addr, buf, filled, left, done, buf.Length, read);
        ReadLast(goal, filled, left, addr, read);
        WholePart(filled, left, After(read(addr, |left|), left).0);
        return;
      }
      r := ReadAfter(addr, buf, filled, left, done, done + diff, read);
      ReadNext(goal, filled, left, addr, read, diff);
      ghost var head := After(read(addr, diff), left[..diff]).0;
      Regroup(filled, head, left[diff..]);
      if r.Some? {
        assert head + left[diff..] == left;
        return;
      }
      filled, left := filled + head, left[diff..];
      done := done + diff;
      addr := nextPage;
    }
  }

  /** Reading a piece into the buffer, seen as what is already read and what is left. */
  method ReadAfter(addr: u64, buf: array<byte>, ghost filled: seq<byte>, ghost left: seq<byte>, from: nat, to: nat, read: Reader)
    returns (r: Option<TranslationError>)
    requires FillsWhole(read) && from <= to <= buf.Length && from == |filled| && buf[..] == filled + left
    modifies buf
    ensures var len := to - from;
            var (head, error) := After(read(addr, len), left[..len]);
            r == error && buf[..] == filled + head + left[len..]
  {
    hide After;
    Parts(buf[..], filled, left, to - from);
    assert buf[..from] == filled && buf[from..to] == left[..to - from] && buf[to..] == left[to - from..];
    r := ReadPiece(addr, buf, from, to, read);
  }

  lemma WholePart(filled: seq<byte>, left: seq<byte>, head: seq<byte>)
    ensures left[..|left|] == left && filled + head + left[|left|..] == filled + head
  {
  }

  lemma Parts(s: seq<byte>, filled: seq<byte>, left: seq<byte>, len: nat)
    requires s == filled + left && len <= |left|
    ensures var done := |filled|;
            s[..done] == filled && s[done..done + len] == left[..len] && s[done + len..] == left[len..]
  {
  }

  lemma Regroup(a: seq<byte>, b: seq<byte>, c: seq<byte>)
    ensures a + b + c == a + (b + c)
  {
  }

  /** `goal` is what has been read, and what reading the rest from `addr` on will give. */
  ghost predicate Reading(goal: (seq<byte>, Option<TranslationError>), filled: seq<byte>, left: seq<byte>, addr: u64, read: Reader) {
    TotalLen(Chunks(addr, |left|)) == |left| && goal == Prepend(filled, Fill(left, Chunks(addr, |left|), read))
  }

  lemma StartReading(goal: (seq<byte>, Option<TranslationError>), left: seq<byte>, addr: u64, read: Reader)
    requires TotalLen(Chunks(addr, |left|)) == |left| && goal == Fill(left, Chunks(addr, |left|), read)
    ensures Reading(goal, [], left, addr, read)
  {
    assert [] + goal.0 == goal.0;
  }

  lemma ReadLast(goal: (seq<byte>, Option<TranslationError>), filled: seq<byte>, left: seq<byte>, addr: u64, read: Reader)
    requires Reading(goal, filled, left, addr, read) && PAGE - addr % PAGE >= |left|
    ensures goal == (filled + After(read(addr, |left|), left).0, After(read(addr, |left|), left).1)
  {
    LastChunk(left, addr, read);
  }

  lemma ReadNext(goal: (seq<byte>, Option<TranslationError>), filled: seq<byte>, left: seq<byte>, addr: u64, read: Reader, diff: nat)
    requires FillsWhole(read) && Reading(goal, filled, left, addr, read) && diff == PAGE - addr % PAGE < |left|
    ensures var (head, r) := After(read(addr, diff), left[..diff]);
            && |head| == diff
            && (r.Some? ==> goal == (filled + left, r) && head == left[..diff])
            && (r.None? ==> Reading(goal, filled + head, left[diff..], (addr + diff) % SPACE, read))
  {
    hide Fill, Chunks, TotalLen;
    FirstChunk(left, addr, diff, read);
    var next := (addr + diff) % SPACE;
    PrependTwice(filled, After(read(addr, diff), left[..diff]).0, Fill(left[diff..], Chunks(next, |left| - diff), read));
  }

  /** How far the next page is, even past the end of the address space. */
  method Distance(addr: u64, nextPage: nat) returns (diff: nat)
    requires nextPage == (addr - addr % PAGE + PAGE) % SPACE
    ensures diff == PAGE - addr % PAGE && nextPage == (addr + diff) % SPACE && nextPage % PAGE == 0
  {
    diff := (nextPage - addr) % SPACE;
    PageStep(addr);
  }

  lemma PrependIs(a: seq<byte>, f: (seq<byte>, Option<TranslationError>))
    ensures Prepend(a, f) == (a + f.0, f.1)
  {
  }

  function Prepend(before: seq<byte>, filled: (seq<byte>, Option<TranslationError>)): (seq<byte>, Option<TranslationError>) {
    (before + filled.0, filled.1)
  }

  lemma PrependTwice(a: seq<byte>, b: seq<byte>, f: (seq<byte>, Option<TranslationError>))
    ensures Prepend(a, Prepend(b, f)) == Prepend(a + b, f)
  {
    assert a + (b + f.0) == (a + b) + f.0;
  }

  lemma FailedUntouched(piece: Piece, part: seq<byte>)
    requires After(piece, part).1.Some?
    ensures After(piece, part).0 == part
  {
  }

  lemma {:induction false} ChunksTotal(addr: u64, len: nat)
    ensures TotalLen(Chunks(addr, len)) == len
    decreases len
  {
    var diff := PAGE - addr % PAGE;
    if diff < len {
      ChunksTotal((addr + diff) % SPACE, len - diff);
    }
  }

  /** The distance to the next page, even past the end of the address space. */
  lemma PageStep(addr: u64)
    ensures var next := (addr - addr % PAGE + PAGE) % SPACE;
            var diff := PAGE - addr % PAGE;
            && (next - addr) % SPACE == diff && next == (addr + diff) % SPACE && next % PAGE == 0
  {
  }

  lemma LastChunk(buf: seq<byte>, addr: u64, read: Reader)
    requires PAGE - addr % PAGE >= |buf| == TotalLen(Chunks(addr, |buf|))
    ensures Fill(buf, Chunks(addr, |buf|), read) == After(read(addr, |buf|), buf)
  {
    var cs := Chunks(addr, |buf|);
    assert cs == [Chunk(addr, |buf|)] && cs[1..] == [];
    assert buf[..|buf|] == buf && buf[|buf|..] == [];
    var head := After(read(addr, |buf|), buf).0;
    assert Fill(buf[|buf|..], cs[1..], read) == ([], None) && head + [] == head;
    if After(read(addr, |buf|), buf).1.Some? { FailedUntouched(read(addr, |buf|), buf); }
  }

  lemma FirstChunk(buf: seq<byte>, addr: u64, diff: nat, read: Reader)
    requires diff == PAGE - addr % PAGE < |buf| == TotalLen(Chunks(addr, |buf|))
    ensures TotalLen(Chunks((addr + diff) % SPACE, |buf| - diff)) == |buf| - diff
    ensures Fill(buf, Chunks(addr, |buf|), read) ==
            if After(read(addr, diff), buf[..diff]).1.Some? then (buf, After(read(addr, diff), buf[..diff]).1)
            else Prepend(After(read(addr, diff), buf[..diff]).0,
                         Fill(buf[diff..], Chunks((addr + diff) % SPACE, |buf| - diff), read))
  {
    var cs := Chunks(addr, |buf|);
    assert cs[1..] == Chunks((addr + diff) % SPACE, |buf| - diff);
  }

  lemma TotalNothing()
    ensures TotalLen([]) == 0
  {
  }

  lemma TotalCons(c: Chunk, cs: seq<Chunk>)
    ensures TotalLen([c] + cs) == c.len + TotalLen(cs)
  {
    assert ([c] + cs)[1..] == cs;
  }

  lemma ModShift(x: nat, y: nat)
    ensures (x % SPACE + y) % SPACE == (x + y) % SPACE
  {
    DivModUnique(x + y, SPACE, x / SPACE + (x % SPACE + y) / SPACE, (x % SPACE + y) % SPACE);
  }

  // ---- What the chunks are

  /** The chunks partition the request, in order, and none crosses a page, even where the addresses
      wrap around at the end of the address space. */
  lemma {:induction false} ChunksPartition(addr: u64, len: nat, j: nat)
    requires j < |Chunks(addr, len)|
    ensures var cs := Chunks(addr, len);
            && cs[j].addr == (addr + TotalLen(cs[..j])) % SPACE
            && cs[j].addr % PAGE + cs[j].len <= PAGE
            && (len > 0 ==> cs[j].len > 0)
            && TotalLen(cs) == len
    decreases len
  {
    ChunksTotal(addr, len);
    var cs, diff := Chunks(addr, len), PAGE - addr % PAGE;
    if diff < len {
      hide TotalLen;
      PageStep(addr);
      assert cs[..0] == [] && TotalLen([]) == 0 by { TotalNothing(); }
      var next := (addr + diff) % SPACE;
      if j > 0 {
        ChunksPartition(next, len - diff, j - 1);
        var prefix := Chunks(next, len - diff)[..j-1];
        assert cs[..j] == [cs[0]] + prefix;
        TotalCons(cs[0], prefix);
        ModShift(addr + diff, TotalLen(prefix));
      }
    }
  }

  // ---- What reading guest memory means, byte by byte

  /** Reading within one page; with `skip`, pages that are not mapped are left alone. */
  function PageReader(g: Guest, skip: bool): Reader {
    (addr: nat, len: nat) =>
      match Translate(g.mem, g.mmu, g.root, addr)
      case Err(e) => if skip && e.Invalid? then Untouched else Failed(e)
      case Ok(p) =>
        match g.mem.fault(p, len)
        case Some(e) => Failed(MemoryFault(e))
        case None => Filled(Content(g.mem, p, len))
  }

  method DefaultReadVirtualMemory(g: Guest, addr: u64, buf: array<byte>, from: nat, to: nat) returns (r: Option<TranslationError>)
    requires from <= to <= buf.Length
    modifies buf
    ensures r == After(PageReader(g, false)(addr, to - from), old(buf[from..to])).1
    ensures buf[..] == old(buf[..from]) + After(PageReader(g, false)(addr, to - from), old(buf[from..to])).0 + old(buf[to..])
  {
    hide Translate, Content;
    var p := VirtualToPhysical(g.mem, g.mmu, g.root, addr);
    if p.Err? {
      return Some(p.error);
    }
    var fault := ReadPhysical(g.mem, p.value, buf, from, to);
    assert fault.None? ==> buf[..] == old(buf[..from]) + buf[from..to] + old(buf[to..]);
    r := match fault case Some(e) => Some(MemoryFault(e)) case None => None;
  }

  /** Byte `i` of the result is physical memory at the translation of `addr + i`, or, when unmapped
      pages are skipped, the byte that was there. */
  ghost predicate ByteRead(g: Guest, skip: bool, addr: u64, was: seq<byte>, out: seq<byte>, i: nat)
    requires i < |was| == |out|
  {
    match Translate(g.mem, g.mmu, g.root, (addr + i) % SPACE)
    case Ok(p) => out[i] == g.mem.content(p)
    case Err(Invalid(_)) => skip && out[i] == was[i]
    case Err(MemoryFault(_)) => false
  }

  lemma WalkUnfolds(mem: Memory, mmu: Mmu, entry: u64, a: nat, k: nat)
    requires k <= LEVELS
    ensures k == LEVELS ==> Walk(mem, mmu, entry, a, k) == Ok(TakeBits(entry, TABLE_SIZE) + a % TABLE_SIZE)
    ensures k < LEVELS ==>
              var (table, index) := (TableOf(entry), Index(a, k));
              var (fault, next) := (mem.fault(EntryAddr(table, index), 8), EntryAt(mem, table, index));
              Walk(mem, mmu, entry, a, k) ==
                if fault.Some? then Err(MemoryFault(fault.value))
                else if !mmu.isValid(next) then Err(Invalid(next))
                else if MayBeLarge(k) && mmu.isLarge(next) then Ok(TakeBits(next, PageSize(k)) + a % PageSize(k))
                else Walk(mem, mmu, next, a, k + 1)
  {
  }

  /** Translation is constant on a page, up to the offset. */
  lemma {:induction false} WalkInPage(mem: Memory, mmu: Mmu, entry: u64, a: nat, j: nat, k: nat)
    requires k <= LEVELS && a % PAGE + j < PAGE
    ensures var r := Walk(mem, mmu, entry, a, k);
            Walk(mem, mmu, entry, a + j, k) == match r case Ok(p) => Ok(p + j) case Err(e) => Err(e)
    decreases LEVELS - k
  {
    hide TakeBits, EntryAt, TableOf, PageSize, Index, Walk;
    WalkUnfolds(mem, mmu, entry, a, k);
    WalkUnfolds(mem, mmu, entry, a + j, k);
    if k == LEVELS {
      DivModUnique(a + j, PAGE, a / PAGE, a % PAGE + j);
    } else {
      OffsetInPage(a, j, k);
      WalkInPage(mem, mmu, EntryAt(mem, TableOf(entry), Index(a, k)), a, j, k + 1);
    }
  }

  lemma OffsetInPage(a: nat, j: nat, k: nat)
    requires k < LEVELS && a % PAGE + j < PAGE
    ensures Index(a + j, k) == Index(a, k) && (a + j) % PageSize(k) == a % PageSize(k) + j
  {
    var size := PageSize(k);
    var m := size / PAGE;
    assert size == m * PAGE && m > 0;
    DivDiv(a, PAGE, m);
    MultipleOrder(a / PAGE % m + 1, m, PAGE);
    assert a % size + j < size;
    DivModUnique(a + j, size, a / size, a % size + j);
  }

  /** Reading one chunk gives every byte its meaning. */
  lemma ChunkRead(g: Guest, skip: bool, addr: u64, was: seq<byte>)
    requires addr % PAGE + |was| <= PAGE
    requires var (out, r) := After(PageReader(g, skip)(addr, |was|), was); r.None?
    ensures var out := After(PageReader(g, skip)(addr, |was|), was).0;
            |out| == |was| && forall i :: 0 <= i < |was| ==> ByteRead(g, skip, addr, was, out, i)
  {
    hide Walk;
    var out := After(PageReader(g, skip)(addr, |was|), was).0;
    var at := Translate(g.mem, g.mmu, g.root, addr);
    if at.Ok? {
      assert out == Content(g.mem, at.value, |was|);
    } else {
      assert out == was;
    }
    forall i: nat | i < |was| ensures ByteRead(g, skip, addr, was, out, i) {
      WalkInPage(g.mem, g.mmu, g.root, addr, i, 0);
      assert (addr + i) % SPACE == addr + i;
    }
  }

  /** Why a chunk cannot be read: its page has no translation, which may be skipped if it is not
      mapped, or its bytes are not there. */
  ghost function ChunkError(g: Guest, skip: bool, c: Chunk): Option<TranslationError> {
    match Translate(g.mem, g.mmu, g.root, c.addr)
    case Err(Invalid(entry)) => if skip then None else Some(Invalid(entry))
    case Err(MemoryFault(e)) => Some(MemoryFault(e))
    case Ok(p) =>
      match g.mem.fault(p, c.len)
      case Some(e) => Some(MemoryFault(e))
      case None => None
  }

  lemma ChunkErrorIs(g: Guest, skip: bool, c: Chunk, part: seq<byte>)
    ensures After(PageReader(g, skip)(c.addr, c.len), part).1 == ChunkError(g, skip, c)
  {
    hide Translate, Content;
  }

  /** `k` bytes, the first `j` chunks, were read without an error, each byte with its meaning, and
      nothing else was touched: it was all, or the next chunk gives the error. */
  ghost predicate ReadUpTo(g: Guest, skip: bool, addr: u64, was: seq<byte>,
                           result: (seq<byte>, Option<TranslationError>), k: nat, j: nat) {
    var (out, r) := result;
    var cs := Chunks(addr, |was|);
    && |out| == |was| && k <= |was| && j <= |cs|
    && (forall i :: 0 <= i < k ==> ByteRead(g, skip, addr, was, out, i))
    && out[k..] == was[k..]
    && (forall i :: 0 <= i < j ==> ChunkError(g, skip, cs[i]).None?)
    && (if j == |cs| then r.None? && k == |was|
        else cs[j].addr == (addr + k) % SPACE && r.Some? && ChunkError(g, skip, cs[j]) == r)
  }

  /** A split read refines the bytewise meaning: it reads everything, or fails with the error of
      the first page it cannot read, having read all bytes before that page. */
  lemma {:induction false} SplitReadIsBytewise(g: Guest, skip: bool, addr: u64, was: seq<byte>) returns (k: nat, j: nat)
    ensures ReadUpTo(g, skip, addr, was, SplitRead(addr, was, PageReader(g, skip)), k, j)
    decreases |was|
  {
    SplitReadIs(addr, was, PageReader(g, skip));
    hide Chunks, Fill, After, PageReader, ByteRead, ReadUpTo, TotalLen, Prepend, ChunkError, SplitRead;
    var diff := PAGE - addr % PAGE;
    if diff >= |was| {
      k, j := OnlyChunk(g, skip, addr, was);
    } else if After(PageReader(g, skip)(addr, diff), was[..diff]).1.Some? {
      FirstFails(g, skip, addr, was, diff);
      k, j := 0, 0;
    } else {
      var nextPage, more := (addr + diff) % SPACE, 0;
      SplitReadIs(nextPage, was[diff..], PageReader(g, skip));
      more, j := SplitReadIsBytewise(g, skip, nextPage, was[diff..]);
      Joined(g, skip, addr, diff, nextPage, was, more, j);
      k, j := diff + more, 1 + j;
    }
  }

  lemma SplitReadIs(addr: u64, was: seq<byte>, read: Reader)
    ensures TotalLen(Chunks(addr, |was|)) == |was| && SplitRead(addr, was, read) == Fill(was, Chunks(addr, |was|), read)
  {
    ChunksTotal(addr, |was|);
    hide Chunks, Fill, TotalLen;
  }

  lemma FirstFails(g: Guest, skip: bool, addr: u64, was: seq<byte>, diff: nat)
    requires diff == PAGE - addr % PAGE < |was| == TotalLen(Chunks(addr, |was|))
    requires After(PageReader(g, skip)(addr, diff), was[..diff]).1.Some?
    ensures ReadUpTo(g, skip, addr, was, Fill(was, Chunks(addr, |was|), PageReader(g, skip)), 0, 0)
  {
    hide Chunks, Fill, After, PageReader, ReadUpTo, TotalLen;
    FirstChunk(was, addr, diff, PageReader(g, skip));
    ChunksHead(addr, |was|);
    OneChunk(g, skip, addr, was, was[..diff]);
  }

  lemma OnlyChunk(g: Guest, skip: bool, addr: u64, was: seq<byte>) returns (k: nat, j: nat)
    requires PAGE - addr % PAGE >= |was| == TotalLen(Chunks(addr, |was|))
    ensures ReadUpTo(g, skip, addr, was, Fill(was, Chunks(addr, |was|), PageReader(g, skip)), k, j)
  {
    hide Chunks, Fill, After, PageReader, ReadUpTo, TotalLen;
    var read := PageReader(g, skip);
    LastChunk(was, addr, read);
    ChunksHead(addr, |was|);
    OneChunk(g, skip, addr, was, was);
    if After(read(addr, |was|), was).1.Some? {
      FailedUntouched(read(addr, |was|), was);
      k, j := 0, 0;
    } else {
      k, j := |was|, 1;
    }
  }

  lemma ChunksHead(addr: u64, len: nat)
    ensures Chunks(addr, len)[0] == Chunk(addr, if PAGE - addr % PAGE >= len then len else PAGE - addr % PAGE)
    ensures PAGE - addr % PAGE >= len ==> |Chunks(addr, len)| == 1
  {
  }

  /** A first chunk that fails leaves the buffer alone; a single chunk that does not is all. */
  lemma OneChunk(g: Guest, skip: bool, addr: u64, was: seq<byte>, head: seq<byte>)
    requires Chunks(addr, |was|)[0] == Chunk(addr, |head|) && head <= was
    requires head == was ==> |Chunks(addr, |was|)| == 1
    requires addr % PAGE + |head| <= PAGE
    ensures var (out, r) := After(PageReader(g, skip)(addr, |head|), head);
            && (r.Some? ==> ReadUpTo(g, skip, addr, was, (was, r), 0, 0))
            && (r.None? && head == was ==> ReadUpTo(g, skip, addr, was, (out, r), |was|, 1))
  {
    hide PageReader, ByteRead, Chunks, After, ChunkError;
    assert (addr + 0) % SPACE == addr && was[0..] == was;
    ChunkErrorIs(g, skip, Chunk(addr, |head|), head);
    if After(PageReader(g, skip)(addr, |head|), head).1.None? {
      ChunkRead(g, skip, addr, head);
    }
  }

  lemma Joined(g: Guest, skip: bool, addr: u64, diff: nat, next: u64, was: seq<byte>, more: nat, j: nat)
    requires diff == PAGE - addr % PAGE < |was| == TotalLen(Chunks(addr, |was|))
    requires next == (addr + diff) % SPACE && TotalLen(Chunks(next, |was| - diff)) == |was| - diff
    requires After(PageReader(g, skip)(addr, diff), was[..diff]).1.None?
    requires var rest := Fill(was[diff..], Chunks(next, |was| - diff), PageReader(g, skip));
             ReadUpTo(g, skip, next, was[diff..], rest, more, j)
    ensures ReadUpTo(g, skip, addr, was, Fill(was, Chunks(addr, |was|), PageReader(g, skip)), diff + more, 1 + j)
  {
    hide PageReader, ByteRead, Chunks, Fill, After, TotalLen, ChunkError;
    var rest := Fill(was[diff..], Chunks(next, |was| - diff), PageReader(g, skip)).0;
    ChunkRead(g, skip, addr, was[..diff]);
    assert rest[more..] == was[diff..][more..] == was[diff + more..];
    FirstChunk(was, addr, diff, PageReader(g, skip));
    JoinReads(g, skip, addr, diff, next, was, more);
    PrependIs(After(PageReader(g, skip)(addr, diff), was[..diff]).0, Fill(was[diff..], Chunks(next, |was| - diff), PageReader(g, skip)));
    ChunkErrorIs(g, skip, Chunk(addr, diff), was[..diff]);
    ChunksHead(addr, |was|);
    ChunksTail(addr, |was|);
    var cs := Chunks(addr, |was|);
    forall i | 0 <= i < 1 + j ensures ChunkError(g, skip, cs[i]).None? {
      if i > 0 { assert cs[i] == cs[1..][i - 1]; }
    }
    if 1 + j < |cs| { assert cs[1 + j] == cs[1..][j]; }
  }

  lemma JoinReads(g: Guest, skip: bool, addr: u64, diff: nat, next: u64, was: seq<byte>, more: nat)
    requires diff == PAGE - addr % PAGE < |was| == TotalLen(Chunks(addr, |was|)) && more <= |was| - diff
    requires next == (addr + diff) % SPACE
    requires TotalLen(Chunks(next, |was| - diff)) == |was| - diff
    requires var read := PageReader(g, skip);
             var first := After(read(addr, diff), was[..diff]);
             var rest := Fill(was[diff..], Chunks(next, |was| - diff), read).0;
             && first.1.None? && |first.0| == diff && |rest| == |was| - diff
             && (forall i :: 0 <= i < diff ==> ByteRead(g, skip, addr, was[..diff], first.0, i))
             && (forall i :: 0 <= i < more ==> ByteRead(g, skip, next, was[diff..], rest, i))
             && rest[more..] == was[diff + more..]
    ensures var out := Fill(was, Chunks(addr, |was|), PageReader(g, skip)).0;
            && |out| == |was|
            && (forall i :: 0 <= i < diff + more ==> ByteRead(g, skip, addr, was, out, i))
            && out[diff + more..] == was[diff + more..]
    ensures (addr + diff + more) % SPACE == (next + more) % SPACE
  {
    hide Translate, Fill, After, Chunks, TotalLen;
    ModShift(addr + diff, more);
    var read := PageReader(g, skip);
    FirstChunk(was, addr, diff, read);
    var first := After(read(addr, diff), was[..diff]);
    var rest := Fill(was[diff..], Chunks(next, |was| - diff), read).0;
    var out := Fill(was, Chunks(addr, |was|), read).0;
    assert out == first.0 + rest;
    forall i | 0 <= i < diff + more ensures ByteRead(g, skip, addr, was, out, i) {
      if i < diff {
        assert ByteRead(g, skip, addr, was[..diff], first.0, i);
      } else {
        assert ByteRead(g, skip, next, was[diff..], rest, i - diff);
        ModShift(addr + diff, i - diff);
      }
    }
    assert out[diff + more..] == rest[more..];
  }

  lemma ChunksTail(addr: u64, len: nat)
    requires PAGE - addr % PAGE < len
    ensures Chunks(addr, len)[1..] == Chunks((addr + (PAGE - addr % PAGE)) % SPACE, len - (PAGE - addr % PAGE))
  {
  }

  /** Reading through `try_read_virtual_memory` fails only on memory errors, so it leaves exactly
      the bytes of unmapped pages unchanged. */
  lemma TryReadSkipsUnmapped(g: Guest, addr: u64, was: seq<byte>)
    ensures var (out, r) := SplitRead(addr, was, PageReader(g, true));
            && (r.Some? ==> r.value.MemoryFault?)
            && (r.None? ==> |out| == |was| && forall i :: 0 <= i < |was| ==> ByteRead(g, true, addr, was, out, i))
  {
    hide Translate;
    var k, j := SplitReadIsBytewise(g, true, addr, was);
  }
}
