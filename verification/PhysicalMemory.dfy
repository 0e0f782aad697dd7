/** Guest physical memory, and the search of one page in chunks. */
module PhysicalMemory {
  import opened Outcomes
  import opened Bytes

  datatype MemoryError = OutOfBounds | Unsupported | Io(code: int)

  /** What a backend answers: the byte at every address, and for every range (address, length)
      the error a read of it gives, if any. */
  datatype Memory = Memory(content: nat -> byte, fault: (nat, nat) -> Option<MemoryError>)

  function Content(mem: Memory, addr: nat, len: nat): (s: seq<byte>)
    ensures |s| == len
  {
    seq<byte>(len, i requires 0 <= i < len => mem.content(addr + i))
  }

  predicate Readable(mem: Memory, addr: nat, len: nat) { mem.fault(addr, len).None? }

  /** A part of a range that can be read can be read. */
  ghost predicate Coherent(mem: Memory) {
    forall a: nat, m: nat, b: nat, n: nat :: Readable(mem, a, m) && a <= b && b + n <= a + m ==> Readable(mem, b, n)
  }

  method ReadPhysical(mem: Memory, addr: nat, buf: array<byte>, from: nat, to: nat) returns (r: Option<MemoryError>)
    requires from <= to <= buf.Length
    modifies buf
    ensures r == mem.fault(addr, to - from)
    ensures r.None? ==> buf[from..to] == Content(mem, addr, to - from)
    ensures forall i :: 0 <= i < buf.Length && (r.Some? || !(from <= i < to)) ==> buf[i] == old(buf[i])
  {
    r := mem.fault(addr, to - from);
    if r.None? {
      forall i | from <= i < to {
        buf[i] := mem.content(addr + (i - from));
      }
    }
  }

  // ---- Finding a needle

  predicate OccursAt(hay: seq<byte>, needle: seq<byte>, i: nat) {
    i + |needle| <= |hay| && hay[i..i + |needle|] == needle
  }

  function FindFrom(hay: seq<byte>, needle: seq<byte>, i: nat): (r: Option<nat>)
    ensures r.Some? ==> i <= r.value && OccursAt(hay, needle, r.value)
    ensures forall j: nat :: i <= j && OccursAt(hay, needle, j) ==> r.Some? && r.value <= j
    decreases |hay| - i
  {
    if i + |needle| > |hay| then None
    else if OccursAt(hay, needle, i) then Some(i)
    else FindFrom(hay, needle, i + 1)
  }

  /** The leftmost occurrence. */
  function Find(hay: seq<byte>, needle: seq<byte>): (r: Option<nat>)
    ensures r.Some? ==> OccursAt(hay, needle, r.value)
    ensures forall j: nat :: OccursAt(hay, needle, j) ==> r.Some? && r.value <= j
  {
    FindFrom(hay, needle, 0)
  }

  // ---- Searching a page

  type SearchResult = Result<Option<nat>, MemoryError>

  /** Chunks overlap by the length of the needle. */
  function ChunkSize(size: nat, bufLen: nat, offset: nat): nat
    requires offset <= size
  {
    if bufLen < size - offset then bufLen else size - offset
  }

  /** The first hit from the chunk at `offset` on: where its chunk starts, and its index there. */
  function ChunkHit(mem: Memory, addr: nat, size: nat, needle: seq<byte>, bufLen: nat, offset: nat)
    : Result<Option<(nat, nat)>, MemoryError>
    requires |needle| < bufLen
    decreases size - offset
  {
    if offset >= size then Ok(None) else
    var len := ChunkSize(size, bufLen, offset);
    match mem.fault(addr + offset, len)
    case Some(e) => Err(e)
    case None =>
      match Find(Content(mem, addr + offset, len), needle)
      case Some(index) => Ok(Some((offset, index)))
      case None => ChunkHit(mem, addr, size, needle, bufLen, offset + bufLen - |needle|)
  }

  /** The answer of the search: in the chunked case, the index in the chunk. */
  function SearchAnswer(mem: Memory, addr: nat, size: nat, needle: seq<byte>, bufLen: nat): SearchResult
    requires size <= bufLen || |needle| < bufLen
  {
    if size <= bufLen then
      match mem.fault(addr, size)
      case Some(e) => Err(e)
      case None => Ok(Find(Content(mem, addr, size), needle))
    else
      match ChunkHit(mem, addr, size, needle, bufLen, 0)
      case Err(e) => Err(e)
      case Ok(None) => Ok(None)
      case Ok(Some((_, index))) => Ok(Some(index))
  }

  method Search(mem: Memory, addr: nat, size: nat, needle: seq<byte>, buf: array<byte>) returns (r: SearchResult)
    requires size <= buf.Length || |needle| < buf.Length
    modifies buf
    ensures r == SearchAnswer(mem, addr, size, needle, buf.Length)
  {
    hide FindFrom, Find, Content;
    if size <= buf.Length {
      var fault := ReadPhysical(mem, addr, buf, 0, size);
      if fault.Some? {
        return Err(fault.value);
      }
      assert buf[0..size] == buf[..size];
      return Ok(Find(buf[..size], needle));
    }
    var offset := 0;
    while offset < size
      invariant ChunkHit(mem, addr, size, needle, buf.Length, 0) == ChunkHit(mem, addr, size, needle, buf.Length, offset)
      decreases size - offset
    {
      var len := ChunkSize(size, buf.Length, offset);
      var fault := ReadPhysical(mem, addr + offset, buf, 0, len);
      if fault.Some? {
        return Err(fault.value);
      }
      assert buf[0..len] == buf[..len];
      var hit := Find(buf[..len], needle);
      if hit.Some? {
        return Ok(hit);
      }
      offset := offset + (buf.Length - |needle|);
    }
    r := Ok(None);
  }

  lemma OccursInPart(mem: Memory, addr: nat, size: nat, needle: seq<byte>, offset: nat, len: nat, i: nat)
    requires offset + len <= size && i + |needle| <= len
    ensures OccursAt(Content(mem, addr + offset, len), needle, i) <==> OccursAt(Content(mem, addr, size), needle, offset + i)
  {
    var part, whole := Content(mem, addr + offset, len), Content(mem, addr, size);
    assert part[i..i + |needle|] == whole[offset + i..offset + i + |needle|];
  }

  ghost predicate NoneBefore(hay: seq<byte>, needle: seq<byte>, offset: nat) {
    forall j: nat :: j < offset ==> !OccursAt(hay, needle, j)
  }

  lemma FirstHit(mem: Memory, addr: nat, size: nat, needle: seq<byte>, offset: nat, len: nat)
    requires offset + len <= size && NoneBefore(Content(mem, addr, size), needle, offset)
    requires Find(Content(mem, addr + offset, len), needle).Some?
    ensures Find(Content(mem, addr, size), needle)
         == Some(offset + Find(Content(mem, addr + offset, len), needle).value)
  {
    hide FindFrom, Content, Find;
    var whole := Content(mem, addr, size);
    var i := Find(Content(mem, addr + offset, len), needle).value;
    OccursInPart(mem, addr, size, needle, offset, len, i);
    assert OccursAt(whole, needle, offset + i);
    var page := Find(whole, needle).value;
    if page < offset + i {
      OccursInPart(mem, addr, size, needle, offset, len, page - offset);
    }
  }

  lemma NoHit(mem: Memory, addr: nat, size: nat, needle: seq<byte>, bufLen: nat, offset: nat)
    requires offset < size && |needle| < bufLen && NoneBefore(Content(mem, addr, size), needle, offset)
    requires Find(Content(mem, addr + offset, ChunkSize(size, bufLen, offset)), needle).None?
    ensures NoneBefore(Content(mem, addr, size), needle, offset + bufLen - |needle|)
  {
    hide FindFrom, Content;
    forall j: nat | j < offset + bufLen - |needle| ensures !OccursAt(Content(mem, addr, size), needle, j) {
      if offset <= j && j + |needle| <= size {
        OccursInPart(mem, addr, size, needle, offset, ChunkSize(size, bufLen, offset), j - offset);
      }
    }
  }

  /** No occurrence starts before `offset`: then the chunks from there on contain one exactly if
      the page does, and the first hit is the leftmost occurrence. */
  lemma {:induction false} ChunksFromMissNothing(mem: Memory, addr: nat, size: nat, needle: seq<byte>, bufLen: nat, offset: nat)
    requires Coherent(mem) && Readable(mem, addr, size) && |needle| < bufLen && size > 0
    requires NoneBefore(Content(mem, addr, size), needle, offset)
    ensures var r := ChunkHit(mem, addr, size, needle, bufLen, offset);
            var page := Find(Content(mem, addr, size), needle);
            r.Ok? && match r.value
                     case None => page == None
                     case Some((at, index)) => page == Some(at + index) && index + |needle| <= bufLen
    decreases size - offset
  {
    hide FindFrom, Content, OccursAt;
    if offset < size {
      var len := ChunkSize(size, bufLen, offset);
      assert Readable(mem, addr + offset, len);
      if Find(Content(mem, addr + offset, len), needle).Some? {
        FirstHit(mem, addr, size, needle, offset, len);
        HitFits(Content(mem, addr + offset, len), needle);
      } else {
        NoHit(mem, addr, size, needle, bufLen, offset);
        ChunksFromMissNothing(mem, addr, size, needle, bufLen, offset + bufLen - |needle|);
      }
    } else {
      NothingLeft(Content(mem, addr, size), needle, offset);
    }
  }

  lemma HitFits(hay: seq<byte>, needle: seq<byte>)
    requires Find(hay, needle).Some?
    ensures Find(hay, needle).value + |needle| <= |hay|
  {
  }

  lemma NothingLeft(hay: seq<byte>, needle: seq<byte>, offset: nat)
    requires hay != [] && |hay| <= offset && NoneBefore(hay, needle, offset)
    ensures Find(hay, needle) == None
  {
    assert needle == [] ==> OccursAt(hay, needle, 0);
  }

  /** Chunked search misses nothing, but answers with the index in the chunk. On a page that can
      be read it reports a hit exactly if the page contains the needle, and the index it reports is
      that of the leftmost occurrence in the page exactly if that occurrence lies within the first
      buffer length of the page. */
  lemma ChunkedSearch(mem: Memory, addr: nat, size: nat, needle: seq<byte>, bufLen: nat)
    requires Coherent(mem) && Readable(mem, addr, size) && |needle| < bufLen < size
    ensures var r := SearchAnswer(mem, addr, size, needle, bufLen);
            var page := Find(Content(mem, addr, size), needle);
            && r.Ok? && (r.value.Some? <==> page.Some?)
            && (page.Some? ==> r.value.value <= page.value && (r.value == page <==> page.value + |needle| <= bufLen))
  {
    ChunksFromMissNothing(mem, addr, size, needle, bufLen, 0);
    var page := Find(Content(mem, addr, size), needle);
    if page.Some? && page.value + |needle| <= bufLen {
      OccursInPart(mem, addr, size, needle, 0, bufLen, page.value);
      assert Find(Content(mem, addr + 0, bufLen), needle).Some?;
    }
  }

  /** The range can be read whole or not at all. */
  ghost predicate WholeOrNot(mem: Memory, addr: nat, len: nat) {
    || (forall a: nat, n: nat :: addr <= a && a + n <= addr + len ==> Readable(mem, a, n))
    || (forall a: nat, n: nat :: addr <= a && 0 < n && a + n <= addr + len ==> !Readable(mem, a, n))
  }

  /** A search that does not fail tells whether the range contains the needle, and its index is
      never too high. */
  lemma SearchFacts(mem: Memory, addr: nat, size: nat, needle: seq<byte>, bufLen: nat)
    requires |needle| < bufLen && size > 0
    requires size <= bufLen || (Coherent(mem) && WholeOrNot(mem, addr, size))
    ensures var r := SearchAnswer(mem, addr, size, needle, bufLen);
            var page := Find(Content(mem, addr, size), needle);
            && (r.Ok? <==> Readable(mem, addr, size))
            && (r.Ok? ==> (r.value.Some? <==> page.Some?))
            && (r.Ok? && page.Some? ==> r.value.value <= page.value && (r.value == page <==> page.value + |needle| <= bufLen))
  {
    hide Content, FindFrom;
    if size > bufLen {
      if Readable(mem, addr, size) {
        ChunkedSearch(mem, addr, size, needle, bufLen);
      } else {
        assert !Readable(mem, addr + 0, bufLen);
      }
    } else if Find(Content(mem, addr, size), needle).Some? {
      HitFits(Content(mem, addr, size), needle);
    }
  }

  /** A search fails only with the fault of some part of the range. */
  ghost predicate FaultIn(mem: Memory, addr: nat, size: nat, e: MemoryError) {
    exists a: nat, n: nat :: addr <= a && a + n <= addr + size && mem.fault(a, n) == Some(e)
  }

  lemma SearchErrorIsFault(mem: Memory, addr: nat, size: nat, needle: seq<byte>, bufLen: nat)
    requires |needle| < bufLen
    ensures var r := SearchAnswer(mem, addr, size, needle, bufLen); r.Err? ==> FaultIn(mem, addr, size, r.error)
  {
    hide Find, Content;
    if size > bufLen {
      ChunkErrorIsFault(mem, addr, size, needle, bufLen, 0);
    }
  }

  lemma {:induction false} ChunkErrorIsFault(mem: Memory, addr: nat, size: nat, needle: seq<byte>, bufLen: nat, offset: nat)
    requires |needle| < bufLen
    ensures var r := ChunkHit(mem, addr, size, needle, bufLen, offset); r.Err? ==> FaultIn(mem, addr, size, r.error)
    decreases size - offset
  {
    hide Find, Content;
    if offset < size {
      assert mem.fault(addr + offset, ChunkSize(size, bufLen, offset)).None? ||
             FaultIn(mem, addr, size, mem.fault(addr + offset, ChunkSize(size, bufLen, offset)).value);
      ChunkErrorIsFault(mem, addr, size, needle, bufLen, offset + bufLen - |needle|);
    }
  }

  lemma AnswerInRange(mem: Memory, addr: nat, size: nat, needle: seq<byte>, bufLen: nat)
    requires |needle| < bufLen && size > 0
    ensures var r := SearchAnswer(mem, addr, size, needle, bufLen); r.Ok? && r.value.Some? ==> r.value.value < size
  {
    hide FindFrom, Content;
    if size > bufLen {
      ChunkIndexInRange(mem, addr, size, needle, bufLen, 0);
    } else {
      IndexInRange(Content(mem, addr, size), needle);
    }
  }

  lemma IndexInRange(hay: seq<byte>, needle: seq<byte>)
    requires hay != []
    ensures Find(hay, needle).Some? ==> Find(hay, needle).value < |hay|
  {
    assert needle == [] ==> OccursAt(hay, needle, 0);
  }

  lemma {:induction false} ChunkIndexInRange(mem: Memory, addr: nat, size: nat, needle: seq<byte>, bufLen: nat, offset: nat)
    requires |needle| < bufLen && size > 0
    ensures var r := ChunkHit(mem, addr, size, needle, bufLen, offset); r.Ok? && r.value.Some? ==> r.value.value.1 < size
    decreases size - offset
  {
    hide Find, Content;
    if offset < size {
      IndexInRange(Content(mem, addr + offset, ChunkSize(size, bufLen, offset)), needle);
      ChunkIndexInRange(mem, addr, size, needle, bufLen, offset + bufLen - |needle|);
    }
  }
}
