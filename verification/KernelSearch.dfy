/** Searching all mapped memory: one search, its agreement with the page walk, and the iterator
    over all occurrences. */
module KernelSearch {
  import opened Outcomes
  import opened Arithmetic
  import opened Bytes
  import opened PhysicalMemory
  import opened Paging

  /** The guest as the search sees it. */
  datatype Guest = Guest(mem: Memory, mmu: Mmu, root: u64)

  /** A whole needle lies at `v`, in the part of a readable page searched from `start` on. */
  ghost predicate Found(g: Guest, needle: seq<byte>, start: nat, v: nat) {
    Occurs(g.mem, g.mmu, TableOf(g.root), 0, needle, start, v)
  }

  /** The 48-bit region searched: addresses that agree with `start` from bit 48 on. */
  function End(start: nat): nat { RegionEnd(start, 0) }

  /** Every page from `start` on fits the buffer. */
  ghost predicate PagesFit(g: Guest, start: nat, bufLen: nat) {
    forall v: nat :: start <= v < End(start) && LeafAt(g.mem, g.mmu, TableOf(g.root), v, 0).Some? ==>
      LeafAt(g.mem, g.mmu, TableOf(g.root), v, 0).value.size <= bufLen
  }

  /** Every page from `start` on fits the buffer, or can be read whole or not at all. */
  ghost predicate PagesSound(g: Guest, start: nat, bufLen: nat) {
    LeavesSound(g.mem, g.mmu, TableOf(g.root), 0, start, bufLen)
  }

  /** A needle at `a` ends within the first `bufLen` bytes searched of its page. */
  predicate Reached(g: Guest, needle: seq<byte>, start: nat, bufLen: nat, a: nat) {
    Reach(g.mem, g.mmu, TableOf(g.root), 0, start, a) + |needle| <= bufLen
  }

  /** The least address from `start` on where the needle is found, or None if there is none. */
  ghost predicate LeastFound(g: Guest, needle: seq<byte>, start: nat, r: Option<nat>) {
    match r
    case None => forall v: nat :: start <= v < End(start) ==> !Found(g, needle, start, v)
    case Some(a) =>
      && start <= a < End(start) && Found(g, needle, start, a)
      && forall v: nat :: start <= v < a ==> !Found(g, needle, start, v)
  }

  lemma {:induction false} LeafSizes(mem: Memory, mmu: Mmu, table: nat, v: nat, k: nat)
    requires LeafAt(mem, mmu, table, v, k).Some?
    ensures LeafAt(mem, mmu, table, v, k).value.size in {0x1000, 0x20_0000, 0x4000_0000}
    decreases LEVELS - k
  {
    hide EntryAt, TableOf, TakeBits, Index;
    var entry := EntryAt(mem, table, Index(v, k));
    if !IsLeaf(mmu, k, entry) {
      LeafSizes(mem, mmu, TableOf(entry), v, k + 1);
    }
  }

  /** The address is in a 1 GiB page. */
  predicate InHugePage(g: Guest, v: nat) {
    var leaf := LeafAt(g.mem, g.mmu, TableOf(g.root), v, 0);
    leaf.Some? && leaf.value.size == 0x4000_0000
  }

  /** The buffers the searches allocate, 2 MiB and the needle, fit every page but 1 GiB ones. */
  lemma OnlyHugePagesDoNotFit(g: Guest, start: nat, bufLen: nat)
    requires 0x20_0000 <= bufLen < 0x4000_0000
    ensures PagesFit(g, start, bufLen) <==> forall v: nat :: start <= v < End(start) ==> !InHugePage(g, v)
  {
    hide LeafAt, TableOf, RegionEnd;
    if PagesFit(g, start, bufLen) {
      forall v: nat | start <= v < End(start) ensures !InHugePage(g, v) {
        var leaf := LeafAt(g.mem, g.mmu, TableOf(g.root), v, 0);
      }
    } else {
      var table := TableOf(g.root);
      var v: nat :| start <= v < End(start) && LeafAt(g.mem, g.mmu, table, v, 0).Some?
                    && LeafAt(g.mem, g.mmu, table, v, 0).value.size > bufLen;
      LeafSizes(g.mem, g.mmu, table, v, 0);
      assert InHugePage(g, v);
    }
  }

  /** Memory is there or not; reading it never fails in another way. */
  ghost predicate OnlyOutOfBounds(mem: Memory) {
    forall a: nat, n: nat :: mem.fault(a, n).Some? ==> mem.fault(a, n) == Some(OutOfBounds)
  }

  lemma NoOtherFaults(g: Guest, needle: seq<byte>, start: nat, bufLen: nat, r: SearchResult)
    requires |needle| < bufLen && OnlyOutOfBounds(g.mem)
    requires FailsRightly(g.mem, g.mmu, TableOf(g.root), 0, needle, start, bufLen, r)
    ensures r.Ok?
  {
    hide FaultAt, TableOf, Quiet, RegionEnd;
    if r.Err? {
      var v: nat :| FaultAt(g.mem, g.mmu, TableOf(g.root), 0, needle, start, bufLen, v) == Some(r.error);
      FaultIsReal(g.mem, g.mmu, TableOf(g.root), 0, needle, start, bufLen, v);
    }
  }

  method FindInKernelMemoryRaw(g: Guest, start: nat, needle: seq<byte>, buf: array<byte>) returns (r: SearchResult)
    requires |needle| < buf.Length
    modifies buf
    ensures r.Ok? && PagesSound(g, start, buf.Length) ==>
              SearchGives(g.mem, g.mmu, TableOf(g.root), 0, needle, start, buf.Length, r.value)
    ensures r.Ok? && PagesFit(g, start, buf.Length) ==> LeastFound(g, needle, start, r.value)
    ensures r.Ok? && r.value.Some? ==> start <= r.value.value < End(start)
    ensures FailsRightly(g.mem, g.mmu, TableOf(g.root), 0, needle, start, buf.Length, r)
    ensures OnlyOutOfBounds(g.mem) ==> r.Ok?
  {
    hide Occurs, TableOf, SearchGives, PagesFit, PagesSound, LeastFound, OnlyOutOfBounds, FailsRightly;
    r := FindInKernelMemoryInner(g.mem, g.mmu, TableOf(g.root), start, needle, buf, 0);
    if OnlyOutOfBounds(g.mem) { NoOtherFaults(g, needle, start, buf.Length, r); }
    SoundIsLeavesSound(g, start, buf.Length);
    if r.Ok? && PagesFit(g, start, buf.Length) {
      FitsIsExact(g, needle, start, buf.Length, r.value);
    }
  }

  lemma SoundIsLeavesSound(g: Guest, start: nat, bufLen: nat)
    ensures PagesSound(g, start, bufLen) <==> LeavesSound(g.mem, g.mmu, TableOf(g.root), 0, start, bufLen)
    ensures PagesFit(g, start, bufLen) ==> PagesSound(g, start, bufLen)
  {
    hide LeafAt, TableOf, RegionEnd, WholeOrNot, Coherent;
  }

  /** When the search is right: its answer is the least occurrence, or none, exactly if there is no
      occurrence or the needle of the least one ends within the first `bufLen` bytes searched of
      its page. Otherwise it is a lower address, where the needle does not occur. */
  lemma SearchIsRightExactly(g: Guest, needle: seq<byte>, start: nat, bufLen: nat, r: Option<nat>)
    requires SearchGives(g.mem, g.mmu, TableOf(g.root), 0, needle, start, bufLen, r)
    ensures LeastFound(g, needle, start, r) <==>
            forall a: nat :: LeastFound(g, needle, start, Some(a)) ==> Reached(g, needle, start, bufLen, a)
    ensures !LeastFound(g, needle, start, r) ==> r.Some? && !Found(g, needle, start, r.value)
  {
    hide Occurs, TableOf, Reach;
    if r.Some? {
      var a: nat :| IsFirst(g.mem, g.mmu, TableOf(g.root), 0, needle, start, Some(a)) && start <= r.value <= a
                    && (r.value == a <==> Reach(g.mem, g.mmu, TableOf(g.root), 0, start, a) + |needle| <= bufLen);
      assert LeastFound(g, needle, start, Some(a));
      assert forall b: nat :: LeastFound(g, needle, start, Some(b)) ==> b == a;
    }
  }

  lemma FitsIsExact(g: Guest, needle: seq<byte>, start: nat, bufLen: nat, r: Option<nat>)
    requires PagesFit(g, start, bufLen)
    requires SearchGives(g.mem, g.mmu, TableOf(g.root), 0, needle, start, bufLen, r)
    ensures LeastFound(g, needle, start, r)
  {
    SearchIsRightExactly(g, needle, start, bufLen, r);
    hide LeafAt, TableOf, Content, RegionEnd, SearchGives;
    forall a: nat | LeastFound(g, needle, start, Some(a)) ensures Reached(g, needle, start, bufLen, a) {
      var leaf := LeafAt(g.mem, g.mmu, TableOf(g.root), a, 0);
    }
  }

  // ---- A page that does not fit

  const ROOT: u64 := 0x1000
  const NEEDLE: seq<byte> := [0x7f, 0x45]
  const AT: nat := 0x30_0000

  /** One entry of the root table leads to a table, of which one entry maps the 1 GiB page at
      physical address 1 GiB, where the needle lies 3 MiB in. */
  function HugeContent(a: nat): byte {
    if a == 0x1000 then 0x01 else if a == 0x1001 then 0x20
    else if a == 0x2000 then 0x81 else if a == 0x2003 then 0x40
    else if a == 0x4000_0000 + AT then 0x7f else if a == 0x4000_0000 + AT + 1 then 0x45
    else 0
  }

  const HUGE: Guest := Guest(Memory(HugeContent, (a: nat, n: nat) => None),
                             Mmu((e: u64) => e % 2 == 1, (e: u64) => e / 128 % 2 == 1), ROOT)

  lemma {:induction false} ZeroesAreZero(s: seq<byte>)
    requires forall b :: b in s ==> b == 0
    ensures FromLe(s) == 0
  {
    if s != [] {
      assert s[0] in s && forall b :: b in s[1..] ==> b in s;
      ZeroesAreZero(s[1..]);
    }
  }

  /** A table entry of which the four low bytes are given. */
  lemma LowBytes(s: seq<byte>)
    requires |s| == 8 && s[4] == s[5] == s[6] == s[7] == 0
    ensures FromLe(s) == s[0] as int + 0x100 * s[1] as int + 0x1_0000 * s[2] as int + 0x100_0000 * s[3] as int
  {
    ZeroesAreZero(s[4..]);
    assert FromLe(s[3..]) == s[3] as int by { assert s[3..][1..] == s[4..]; }
    assert FromLe(s[2..]) == s[2] as int + 0x100 * s[3] as int by { assert s[2..][1..] == s[3..]; }
    assert s[1..][1..] == s[2..];
  }

  lemma HugeEntry(table: nat, index: nat)
    requires (table == 0x1000 || table == 0x2000) && index < ENTRIES
    ensures EntryAt(HUGE.mem, table, index) ==
            if index > 0 then 0 else if table == 0x1000 then 0x2001 else 0x4000_0081
  {
    Capacities();
    var s := Content(HUGE.mem, EntryAddr(table, index), 8);
    assert forall i :: 0 <= i < 8 ==> s[i] == HugeContent(table + 8 * index + i);
    LowBytes(s);
  }

  lemma HugeTable(v: nat)
    requires v < 0x80_0000_0000
    ensures LeafAt(HUGE.mem, HUGE.mmu, 0x2000, v, 1) ==
            if v < 0x4000_0000 then Some(Leaf(0x4000_0000, 0x4000_0000)) else None
  {
    HugeEntry(0x2000, Index(v, 1));
    hide EntryAt, TableOf;
    assert Index(v, 1) == 0 <==> v < 0x4000_0000;
    assert TakeBits(0x4000_0081, PageSize(1)) == 0x4000_0000 && IsLeaf(HUGE.mmu, 1, 0x4000_0081);
    hide Index, TakeBits, IsLeaf;
  }

  lemma HugeLeaf(v: nat)
    requires v < 0x1_0000_0000_0000
    ensures LeafAt(HUGE.mem, HUGE.mmu, TableOf(ROOT), v, 0) ==
            if v < 0x4000_0000 then Some(Leaf(0x4000_0000, 0x4000_0000)) else None
  {
    assert TableOf(ROOT) == 0x1000 && TableOf(0x2001) == 0x2000;
    HugeEntry(0x1000, Index(v, 0));
    assert Index(v, 0) == 0 <==> v < 0x80_0000_0000;
    assert !IsLeaf(HUGE.mmu, 0, 0x2001);
    if v < 0x80_0000_0000 {
      HugeTable(v);
    }
    hide EntryAt, TableOf, Index, IsLeaf;
  }

  /** There, with the buffer the searches allocate, the search from zero answers with an address at
      which the needle does not occur, below the only one where it does. */
  lemma HugePageMisleads(r: Option<nat>)
    requires SearchGives(HUGE.mem, HUGE.mmu, TableOf(HUGE.root), 0, NEEDLE, 0, 0x20_0000 + |NEEDLE|, r)
    ensures PagesSound(HUGE, 0, 0x20_0000 + |NEEDLE|)
    ensures LeastFound(HUGE, NEEDLE, 0, Some(AT))
    ensures r.Some? && r.value < AT && !Found(HUGE, NEEDLE, 0, r.value)
  {
    var bufLen := 0x20_0000 + |NEEDLE|;
    forall v: nat | v < End(0) ensures Found(HUGE, NEEDLE, 0, v) <==> v == AT {
      HugeFound(v);
    }
    HugeSound();
    HugeLeaf(AT);
    HugeFound(AT);
    hide RegionEnd, LeafAt, Found, SearchGives, TableOf;
    assert LeastFound(HUGE, NEEDLE, 0, Some(AT));
    assert !Reached(HUGE, NEEDLE, 0, bufLen, AT);
    SearchIsRightExactly(HUGE, NEEDLE, 0, bufLen, r);
  }

  lemma HugeFound(v: nat)
    ensures End(0) == 0x1_0000_0000_0000
    ensures v < End(0) ==> (Found(HUGE, NEEDLE, 0, v) <==> v == AT)
  {
    if v < 0x1_0000_0000_0000 {
      HugeLeaf(v);
      hide LeafAt, TableOf;
      var found := Content(HUGE.mem, 0x4000_0000 + v, 2);
      assert found[0] == HugeContent(0x4000_0000 + v) && found[1] == HugeContent(0x4000_0000 + v + 1);
      assert found == NEEDLE <==> found[0] == 0x7f && found[1] == 0x45;
    }
  }

  lemma HugeSound()
    ensures PagesSound(HUGE, 0, 0x20_0000 + |NEEDLE|)
  {
    hide LeafAt, TableOf;
    assert Coherent(HUGE.mem) && forall a: nat, n: nat :: WholeOrNot(HUGE.mem, a, n);
  }

  /** The recursive search and the page walk agree: an address the search may return translates,
      and the needle lies at its translation, in one page. */
  lemma FoundTranslates(g: Guest, needle: seq<byte>, start: nat, a: nat)
    requires Coherent(g.mem) && Found(g, needle, start, a)
    ensures var r := Translate(g.mem, g.mmu, g.root, a);
            r.Ok? && Content(g.mem, r.value, |needle|) == needle
  {
    hide Walk, LeafAt, Content;
    LeafIsTranslation(g.mem, g.mmu, g.root, a, 0);
  }

  /** And no address is missed but for its page: the needle at the translation of an address from
      `start` on is found exactly if the tables on the way can be read whole, the needle fits the
      page, and the part of the page that is searched can be read. */
  lemma TranslatedIsFound(g: Guest, needle: seq<byte>, start: nat, a: nat)
    requires Coherent(g.mem) && start <= a
    requires var r := Translate(g.mem, g.mmu, g.root, a);
             r.Ok? && Content(g.mem, r.value, |needle|) == needle
    ensures Found(g, needle, start, a) <==>
            && TablesReadable(g.mem, g.mmu, TableOf(g.root), a, 0)
            && var leaf := LeafAt(g.mem, g.mmu, TableOf(g.root), a, 0);
            && leaf.Some? && leaf.value.size > 0
            && var from := SearchedFrom(start, a, leaf.value.size);
            && a % leaf.value.size + |needle| <= leaf.value.size
            && Readable(g.mem, leaf.value.base + from, leaf.value.size - from)
  {
    hide Walk, LeafAt, Content, TableOf, TablesReadable;
    TranslationIsLeaf(g.mem, g.mmu, g.root, a, 0);
    if LeafAt(g.mem, g.mmu, TableOf(g.root), a, 0).Some? {
      LeafIsTranslation(g.mem, g.mmu, g.root, a, 0);
    }
  }

  // ---- Moving the start past an occurrence

  /** Addresses in the page of `v` have the same leaf. */
  lemma {:induction false} SameLeaf(mem: Memory, mmu: Mmu, table: nat, v: nat, w: nat, k: nat)
    requires k < LEVELS && LeafAt(mem, mmu, table, v, k).Some?
    requires var size := LeafAt(mem, mmu, table, v, k).value.size; size > 0 && v / size == w / size
    ensures LeafAt(mem, mmu, table, w, k) == LeafAt(mem, mmu, table, v, k)
    decreases LEVELS - k
  {
    hide EntryAt, TableOf, TakeBits, PageSize;
    var size := LeafAt(mem, mmu, table, v, k).value.size;
    var m := LeafSizeDivides(mem, mmu, table, v, k);
    assert m > 0 by { MultipleOrder(m, 0, size); PageSizePositive(k); }
    DivDiv(v, size, m);
    DivDiv(w, size, m);
    SameIndex(v, w, k);
    var entry := EntryAt(mem, table, Index(v, k));
    if !IsLeaf(mmu, k, entry) {
      SameLeaf(mem, mmu, TableOf(entry), v, w, k + 1);
    }
  }

  lemma PageSizePositive(k: nat)
    requires k < LEVELS
    ensures PageSize(k) > 0
  {
  }

  lemma SameIndex(v: nat, w: nat, k: nat)
    requires k < LEVELS && v / PageSize(k) == w / PageSize(k)
    ensures Index(v, k) == Index(w, k)
  {
  }

  /** Searching on from just after an occurrence finds exactly what is left of the first search:
      the rest of the page of that occurrence is known to be readable. */
  lemma StartMoves(g: Guest, needle: seq<byte>, first: nat, at: nat, v: nat)
    requires Coherent(g.mem) && first <= at < v && Found(g, needle, first, at)
    ensures Found(g, needle, at + 1, v) <==> Found(g, needle, first, v)
  {
    hide LeafAt, Content, TableOf;
    var table := TableOf(g.root);
    var found := LeafAt(g.mem, g.mmu, table, v, 0);
    if found.Some? && found.value.size > 0 {
      var leaf := found.value;
      var before, after := SearchedFrom(first, v, leaf.size), SearchedFrom(at + 1, v, leaf.size);
      SearchedFromMoves(first, at, v, leaf.size);
      if before != after {
        SameLeaf(g.mem, g.mmu, table, v, at, 0);
        assert Readable(g.mem, leaf.base + before, leaf.size - before);
        assert Readable(g.mem, leaf.base + after, leaf.size - after);
      }
    }
  }

  lemma SearchedFromMoves(first: nat, at: nat, v: nat, size: nat)
    requires size > 0 && first <= at < v
    ensures var (before, after) := (SearchedFrom(first, v, size), SearchedFrom(at + 1, v, size));
            before != after ==> v / size == at / size && before <= after < size && SearchedFrom(first, at, size) == before
  {
    SameBlock(v, at + 1, size);
    SameBlock(v, at, size);
    SameBlock(v, first, size);
    SameBlock(at, first, size);
    SameBlock(at, at + 1, size);
  }

  /** The region does not change while the start stays in it. */
  lemma SameEnd(first: nat, start: nat)
    requires first <= start < End(first)
    ensures End(start) == End(first)
  {
  }

  // ---- The iterator

  /** Strictly increasing, so without repeats. */
  ghost predicate Increasing(s: seq<nat>) {
    forall i, j :: 0 <= i < j < |s| ==> s[i] < s[j]
  }

  /** `s` lists exactly the occurrences in `[first, end)`. */
  ghost predicate Lists(g: Guest, needle: seq<byte>, first: nat, end: nat, s: seq<nat>) {
    && Increasing(s)
    && forall v: nat :: v in s <==> first <= v < end && Found(g, needle, first, v)
  }

  /** An occurrence at the very last byte of the region: the next start leaves it. */
  ghost predicate LastByteFound(g: Guest, needle: seq<byte>, first: nat) {
    End(first) > 0 && Found(g, needle, first, End(first) - 1)
  }

  /** Needles of at least two bytes never reach the last byte of a page. */
  lemma TwoBytesSuffice(g: Guest, needle: seq<byte>, first: nat)
    requires |needle| >= 2
    ensures !LastByteFound(g, needle, first)
  {
    hide LeafAt, Content, TableOf;
    var v := End(first) - 1;
    if LeafAt(g.mem, g.mmu, TableOf(g.root), v, 0).Some? {
      var size := LeafAt(g.mem, g.mmu, TableOf(g.root), v, 0).value.size;
      var m := LeafSizeDivides(g.mem, g.mmu, TableOf(g.root), v, 0);
      LastOffset(first / 0x1_0000_0000_0000 + 1, m, size);
    }
  }

  lemma LastOffset(n: nat, m: nat, size: nat)
    requires n > 0 && size > 0 && m * size == 0x80_0000_0000
    ensures (n * 0x1_0000_0000_0000 - 1) % size == size - 1
  {
    var k := n * 512 * m;
    assert n * 0x1_0000_0000_0000 == n * 512 * (m * size) == k * size;
    assert k >= 1 by {
      MultipleOrder(k, 0, size);
    }
    assert k * size - 1 == (k - 1) * size + (size - 1);
    DivModUnique(k * size - 1, size, k - 1, size - 1);
  }

  class KernelSearchIterator {
    const guest: Guest
    const needle: seq<byte>
    const buffer: array<byte>
    var baseSearchAddr: nat

    /** Where the iteration last started anew, what it had yielded before, and since. */
    ghost var origin: nat
    ghost var before: seq<nat>
    ghost var since: seq<nat>

    /** What the iteration misses nothing under, as long as no read fails. */
    ghost predicate Exact()
      reads this
    {
      Coherent(guest.mem) && PagesFit(guest, origin, buffer.Length)
    }

    ghost predicate Valid()
      reads this
    {
      && buffer.Length == 0x20_0000 + |needle|
      && origin <= baseSearchAddr
      && Increasing(before + since)
      && (forall v :: v in before + since ==> v < baseSearchAddr)
      && (Exact() ==>
            && baseSearchAddr < End(origin)
            && Lists(guest, needle, origin, baseSearchAddr, since)
            && (baseSearchAddr == origin || Found(guest, needle, origin, baseSearchAddr - 1)))
    }

    constructor (guest: Guest, needle: seq<byte>, kernelBase: u64)
      ensures Valid() && before == since == [] && origin == baseSearchAddr == kernelBase
      ensures this.guest == guest && this.needle == needle && fresh(buffer)
    {
      this.guest, this.needle := guest, needle;
      buffer := new byte[0x20_0000 + |needle|];
      baseSearchAddr, origin := kernelBase, kernelBase;
      before, since := [], [];
      RegionFacts(kernelBase, 0);
    }

    /** Every call keeps `Valid`: what was yielded is strictly increasing, and while `Exact` holds,
        what was yielded since the last start is exactly the occurrences below the search address.
        The call that returns None has left none out. The iteration starts anew one byte further
        after an error, of which it has none if memory is only there or not, and past the end of
        the region after an occurrence at its last byte, where it should have ended. */
    method Next() returns (r: Option<Result<nat, MemoryError>>)
      requires Valid()
      modifies this, buffer
      ensures Valid()
      ensures match r
              case None =>
                && unchanged(this)
                && (Exact() ==>
                      Lists(guest, needle, origin, End(origin), since) && !LastByteFound(guest, needle, origin))
              case Some(Ok(addr)) =>
                && baseSearchAddr == addr + 1 && old(baseSearchAddr) <= addr
                && (if addr + 1 == End(old(origin))
                    then origin == baseSearchAddr && before == old(before + since) + [addr] && since == []
                    else origin == old(origin) && before == old(before) && since == old(since) + [addr])
                && (old(Exact()) ==> Lists(guest, needle, old(origin), addr + 1, old(since) + [addr]))
                && (old(Exact()) && addr + 1 == End(old(origin)) ==> LastByteFound(guest, needle, old(origin)))
              case Some(Err(e)) =>
                && !OnlyOutOfBounds(guest.mem)
                && FailsRightly(guest.mem, guest.mmu, TableOf(guest.root), 0, needle, old(baseSearchAddr), buffer.Length, Err(e))
                && origin == baseSearchAddr == old(baseSearchAddr) + 1
                && before == old(before + since) && since == []
    {
      hide Found, PagesFit, RegionEnd, Lists, LastByteFound, Coherent, PagesSound, SearchGives, Increasing, OnlyOutOfBounds, FailsRightly, TableOf;
      ghost var start, exact := baseSearchAddr, Exact();
      var found := FindInKernelMemoryRaw(guest, baseSearchAddr, needle, buffer);
      if found.Ok? && exact {
        Continue(guest, needle, origin, start, buffer.Length, since, found.value);
      }
      match found {
        case Ok(None) =>
          assert forall v :: v in since ==> v in before + since;
          if exact { NotAtLastByte(guest, needle, origin, baseSearchAddr, since); }
          r := None;
        case Ok(Some(addr)) =>
          assert (before + since) + [addr] == before + (since + [addr]) == (before + since + [addr]) + [];
          IncreasingAppend(before + since, addr);
          if addr + 1 == End(origin) {
            AtLastByte(guest, needle, origin, addr);
            StartAnew(guest, needle, addr + 1);
            before, since, origin := before + since + [addr], [], addr + 1;
          } else {
            since := since + [addr];
          }
          baseSearchAddr := addr + 1;
          r := Some(Ok(addr));
        case Err(e) =>
          assert (before + since) + [] == before + since;
          baseSearchAddr := baseSearchAddr + 1;
          StartAnew(guest, needle, baseSearchAddr);
          before, since, origin := before + since, [], baseSearchAddr;
          r := Some(Err(e));
      }
    }
  }

  /** The buffer being as long as it is, only pages of 1 GiB can make an iteration inexact. */
  lemma ExactUnlessHuge(it: KernelSearchIterator)
    requires it.Valid() && Coherent(it.guest.mem) && |it.needle| < 0x1000_0000
    ensures it.Exact() <==> forall v: nat :: it.origin <= v < End(it.origin) ==> !InHugePage(it.guest, v)
  {
    OnlyHugePagesDoNotFit(it.guest, it.origin, it.buffer.Length);
  }

  lemma IncreasingAppend(s: seq<nat>, addr: nat)
    requires Increasing(s) && forall v :: v in s ==> v < addr
    ensures Increasing(s + [addr])
  {
    assert forall i :: 0 <= i < |s| ==> s[i] in s;
  }

  lemma AtLastByte(g: Guest, needle: seq<byte>, first: nat, a: nat)
    requires a + 1 == End(first)
    ensures Found(g, needle, first, a) ==> LastByteFound(g, needle, first)
  {
    hide Found;
  }

  lemma NotAtLastByte(g: Guest, needle: seq<byte>, first: nat, next: nat, all: seq<nat>)
    requires Lists(g, needle, first, End(first), all) && first <= next < End(first) && forall v :: v in all ==> v < next
    ensures !LastByteFound(g, needle, first)
  {
    hide Found;
    assert End(first) - 1 !in all;
  }

  lemma StartAnew(g: Guest, needle: seq<byte>, start: nat)
    ensures start < End(start) && Lists(g, needle, start, start, [])
  {
    RegionFacts(start, 0);
  }

  /** What the answer of the search from `start` adds to the list of occurrences below it. */
  lemma Continue(g: Guest, needle: seq<byte>, first: nat, start: nat, bufLen: nat, done: seq<nat>, r: Option<nat>)
    requires Coherent(g.mem) && PagesFit(g, first, bufLen)
    requires first <= start < End(first) && Lists(g, needle, first, start, done)
    requires start == first || Found(g, needle, first, start - 1)
    requires PagesFit(g, start, bufLen) ==> LeastFound(g, needle, start, r)
    ensures match r
            case None => Lists(g, needle, first, End(first), done)
            case Some(a) =>
              && start <= a < End(first) && Found(g, needle, first, a)
              && Lists(g, needle, first, a + 1, done + [a])
  {
    SameEnd(first, start);
    FitsFrom(g, first, start, bufLen);
    SameFound(g, needle, first, start);
    hide RegionEnd, PagesFit, Found, Lists, LeastFound, End;
    FoundFromFirst(g, needle, first, start, r);
    match r {
      case None => ListsAll(g, needle, first, start, done);
      case Some(a) => ListsAppend(g, needle, first, start, done, a);
    }
  }

  /** The least occurrence from `start` on, as one of the first search. */
  lemma FoundFromFirst(g: Guest, needle: seq<byte>, first: nat, start: nat, r: Option<nat>)
    requires first <= start && LeastFound(g, needle, start, r) && End(start) == End(first)
    requires forall v: nat :: start <= v ==> (Found(g, needle, start, v) <==> Found(g, needle, first, v))
    ensures r.None? ==> forall v: nat :: start <= v < End(first) ==> !Found(g, needle, first, v)
    ensures r.Some? ==>
              && start <= r.value < End(first) && Found(g, needle, first, r.value)
              && forall v: nat :: start <= v < r.value ==> !Found(g, needle, first, v)
  {
    hide Found, End;
  }

  lemma ListsAll(g: Guest, needle: seq<byte>, first: nat, start: nat, done: seq<nat>)
    requires start <= End(first) && Lists(g, needle, first, start, done)
    requires forall v: nat :: start <= v < End(first) ==> !Found(g, needle, first, v)
    ensures Lists(g, needle, first, End(first), done)
  {
    hide Found, End;
  }

  lemma FitsFrom(g: Guest, first: nat, start: nat, bufLen: nat)
    requires PagesFit(g, first, bufLen) && first <= start < End(first)
    ensures PagesFit(g, start, bufLen)
  {
    SameEnd(first, start);
    hide RegionEnd, LeafAt;
  }

  lemma SameFound(g: Guest, needle: seq<byte>, first: nat, start: nat)
    requires Coherent(g.mem) && first <= start
    requires start == first || Found(g, needle, first, start - 1)
    ensures forall v: nat :: start <= v ==> (Found(g, needle, start, v) <==> Found(g, needle, first, v))
  {
    hide Found;
    forall v: nat | start <= v ensures Found(g, needle, start, v) <==> Found(g, needle, first, v) {
      if start != first {
        StartMoves(g, needle, first, start - 1, v);
      }
    }
  }

  lemma ListsAppend(g: Guest, needle: seq<byte>, first: nat, start: nat, done: seq<nat>, a: nat)
    requires first <= start <= a && Lists(g, needle, first, start, done) && Found(g, needle, first, a)
    requires forall v: nat :: start <= v < a ==> !Found(g, needle, first, v)
    ensures Lists(g, needle, first, a + 1, done + [a])
  {
    hide Found;
    forall v: nat ensures v in done + [a] <==> first <= v < a + 1 && Found(g, needle, first, v) {
      assert v in done + [a] <==> v in done || v == a;
    }
    assert forall i :: 0 <= i < |done| ==> done[i] in done;
  }
}
