/** Four-level address translation (Intel SDM volume 3A, section 4.5), by the page walk and by the
    recursive search of all mapped memory. */
module Paging {
  import opened Outcomes
  import opened Arithmetic
  import opened Bytes
  import opened PhysicalMemory

  /** How an architecture tells valid and large entries; any predicates. */
  datatype Mmu = Mmu(isValid: u64 -> bool, isLarge: u64 -> bool)

  datatype TranslationError = Invalid(entry: u64) | MemoryFault(error: MemoryError)

  const LEVELS: nat := 4
  const TABLE_SIZE: nat := 4096
  const ENTRIES: nat := 512
  const ADDRESSABLE: nat := 0x1_0000_0000_0000

  /** The bytes one entry of a table of level `k` maps. */
  function PageSize(k: nat): (s: nat)
    requires k < LEVELS
    ensures s > 0
  {
    if k == 0 then 0x80_0000_0000 else if k == 1 then 0x4000_0000 else if k == 2 then 0x20_0000 else 0x1000
  }

  /** Levels at which an entry can map a large page. */
  predicate MayBeLarge(k: nat) { k == 1 || k == 2 }

  /** Bits `log2(size)` to 48 of an entry. */
  function TakeBits(entry: u64, size: nat): nat
    requires size > 0
  {
    entry % ADDRESSABLE / size * size
  }

  function TableOf(entry: u64): nat { TakeBits(entry, TABLE_SIZE) }

  function Index(addr: nat, k: nat): (i: nat)
    requires k < LEVELS
    ensures i < ENTRIES
  {
    addr / PageSize(k) % ENTRIES
  }

  function EntryAddr(table: nat, index: nat): nat { table + 8 * index }

  function EntryAt(mem: Memory, table: nat, index: nat): u64 {
    Capacities(); FromLe(Content(mem, EntryAddr(table, index), 8))
  }

  predicate IsLeaf(mmu: Mmu, k: nat, entry: u64) {
    k == LEVELS - 1 || (MayBeLarge(k) && mmu.isLarge(entry))
  }

  // ---- The page walk

  type Translation = Result<nat, TranslationError>

  function Walk(mem: Memory, mmu: Mmu, entry: u64, addr: nat, k: nat): Translation
    requires k <= LEVELS
    decreases LEVELS - k
  {
    if k == LEVELS then Ok(TakeBits(entry, TABLE_SIZE) + addr % TABLE_SIZE) else
    var at := EntryAddr(TableOf(entry), Index(addr, k));
    if mem.fault(at, 8).Some? then Err(MemoryFault(mem.fault(at, 8).value)) else
    var next := EntryAt(mem, TableOf(entry), Index(addr, k));
    if !mmu.isValid(next) then Err(Invalid(next))
    else if MayBeLarge(k) && mmu.isLarge(next) then Ok(TakeBits(next, PageSize(k)) + addr % PageSize(k))
    else Walk(mem, mmu, next, addr, k + 1)
  }

  function Translate(mem: Memory, mmu: Mmu, root: u64, addr: nat): Translation {
    Walk(mem, mmu, root, addr, 0)
  }

  method VirtualToPhysical(mem: Memory, mmu: Mmu, root: u64, addr: u64) returns (r: Translation)
    ensures r == Translate(mem, mmu, root, addr)
  {
    hide EntryAt, TableOf, Index;
    var mmuEntry := root;
    for k := 0 to LEVELS
      invariant Walk(mem, mmu, mmuEntry, addr, k) == Translate(mem, mmu, root, addr)
    {
      var tableAddr, index := TableOf(mmuEntry), Index(addr, k);
      var fault := mem.fault(EntryAddr(tableAddr, index), 8);
      if fault.Some? {
        return Err(MemoryFault(fault.value));
      }
      mmuEntry := EntryAt(mem, tableAddr, index);
      if !mmu.isValid(mmuEntry) {
        return Err(Invalid(mmuEntry));
      }
      if MayBeLarge(k) && mmu.isLarge(mmuEntry) {
        return Ok(TakeBits(mmuEntry, PageSize(k)) + addr % PageSize(k));
      }
    }
    r := Ok(TakeBits(mmuEntry, TABLE_SIZE) + addr % TABLE_SIZE);
  }

  // ---- Leaves: what the recursive search descends to

  /** A page: where it is in memory, and its size. */
  datatype Leaf = Leaf(base: nat, size: nat)

  /** The page of `v` below a table of level `k`, if all tables on the way can be read whole. */
  function LeafAt(mem: Memory, mmu: Mmu, table: nat, v: nat, k: nat): Option<Leaf>
    decreases LEVELS - k
  {
    if k >= LEVELS || !Readable(mem, table, TABLE_SIZE) then None else
    var entry := EntryAt(mem, table, Index(v, k));
    if !mmu.isValid(entry) then None
    else if IsLeaf(mmu, k, entry) then Some(Leaf(TakeBits(entry, PageSize(k)), PageSize(k)))
    else LeafAt(mem, mmu, TableOf(entry), v, k + 1)
  }

  /** The walk goes to the leaf. */
  lemma {:induction false} LeafIsTranslation(mem: Memory, mmu: Mmu, entry: u64, v: nat, k: nat)
    requires Coherent(mem) && k < LEVELS && LeafAt(mem, mmu, TableOf(entry), v, k).Some?
    ensures var leaf := LeafAt(mem, mmu, TableOf(entry), v, k).value;
            leaf.size > 0 && Walk(mem, mmu, entry, v, k) == Ok(leaf.base + v % leaf.size)
    decreases LEVELS - k
  {
    hide TakeBits, EntryAt, TableOf;
    assert Readable(mem, EntryAddr(TableOf(entry), Index(v, k)), 8);
    var next := EntryAt(mem, TableOf(entry), Index(v, k));
    if !IsLeaf(mmu, k, next) {
      LeafIsTranslation(mem, mmu, next, v, k + 1);
    }
  }

  /** All tables on the way to `v` can be read whole. */
  predicate TablesReadable(mem: Memory, mmu: Mmu, table: nat, v: nat, k: nat)
    decreases LEVELS - k
  {
    k < LEVELS ==>
      && Readable(mem, table, TABLE_SIZE)
      && var entry := EntryAt(mem, table, Index(v, k));
         mmu.isValid(entry) && !IsLeaf(mmu, k, entry) ==> TablesReadable(mem, mmu, TableOf(entry), v, k + 1)
  }

  /** And conversely, an address that translates lies in a page the search descends to exactly if
      the tables on the way can be read whole: the walk reads single entries. */
  lemma {:induction false} TranslationIsLeaf(mem: Memory, mmu: Mmu, entry: u64, v: nat, k: nat)
    requires k < LEVELS && Walk(mem, mmu, entry, v, k).Ok?
    ensures LeafAt(mem, mmu, TableOf(entry), v, k).Some? <==> TablesReadable(mem, mmu, TableOf(entry), v, k)
    decreases LEVELS - k
  {
    hide TakeBits, EntryAt, EntryAddr, TableOf;
    var next := EntryAt(mem, TableOf(entry), Index(v, k));
    if !IsLeaf(mmu, k, next) {
      TranslationIsLeaf(mem, mmu, next, v, k + 1);
    }
  }

  // ---- The recursive search

  /** The end of the region a table of level `k` maps around `start`. */
  function RegionEnd(start: nat, k: nat): nat {
    if k >= LEVELS then start else
    var region := ENTRIES * PageSize(k);
    (start / region + 1) * region
  }

  /** Where in its page the search for an occurrence at `v` starts: the page of `start` is only
      searched from `start` on. */
  function SearchedFrom(start: nat, v: nat, size: nat): nat
    requires size > 0
  {
    if v / size == start / size then start % size else 0
  }

  /** A whole needle lies at `v`, in the part of its page that is searched. */
  ghost predicate Occurs(mem: Memory, mmu: Mmu, table: nat, k: nat, needle: seq<byte>, start: nat, v: nat) {
    var found := LeafAt(mem, mmu, table, v, k);
    found.Some? && found.value.size > 0 &&
    var leaf := found.value;
    var from := SearchedFrom(start, v, leaf.size);
    && start <= v
    && Readable(mem, leaf.base + from, leaf.size - from)
    && v % leaf.size + |needle| <= leaf.size
    && Content(mem, leaf.base + v % leaf.size, |needle|) == needle
  }

  /** How far into the part of its page that is searched an address lies. */
  function Reach(mem: Memory, mmu: Mmu, table: nat, k: nat, start: nat, v: nat): int {
    var found := LeafAt(mem, mmu, table, v, k);
    if found.None? || found.value.size == 0 then 0
    else v % found.value.size - SearchedFrom(start, v, found.value.size)
  }

  /** Every page from `start` on fits the buffer, or can be read whole or not at all. */
  ghost predicate LeavesSound(mem: Memory, mmu: Mmu, table: nat, k: nat, start: nat, bufLen: nat) {
    forall v: nat :: start <= v < RegionEnd(start, k) && LeafAt(mem, mmu, table, v, k).Some? ==>
      var leaf := LeafAt(mem, mmu, table, v, k).value;
      leaf.size <= bufLen || (Coherent(mem) && WholeOrNot(mem, leaf.base, leaf.size))
  }

  ghost predicate NoneIn(mem: Memory, mmu: Mmu, table: nat, k: nat, needle: seq<byte>, start: nat, lo: nat, hi: nat) {
    forall v: nat :: lo <= v < hi ==> !Occurs(mem, mmu, table, k, needle, start, v)
  }

  /** The least occurrence from `start` on, or none in the region. */
  ghost predicate IsFirst(mem: Memory, mmu: Mmu, table: nat, k: nat, needle: seq<byte>, start: nat, r: Option<nat>) {
    match r
    case None => NoneIn(mem, mmu, table, k, needle, start, start, RegionEnd(start, k))
    case Some(a) =>
      && start <= a < RegionEnd(start, k)
      && Occurs(mem, mmu, table, k, needle, start, a)
      && NoneIn(mem, mmu, table, k, needle, start, start, a)
  }

  /** The answers of a search with a buffer of `bufLen` bytes: none only if there is no occurrence;
      the least occurrence exactly if its needle ends within the first `bufLen` bytes searched of
      its page, and a lower address otherwise. */
  ghost predicate SearchGives(mem: Memory, mmu: Mmu, table: nat, k: nat, needle: seq<byte>, start: nat, bufLen: nat, r: Option<nat>) {
    match r
    case None => IsFirst(mem, mmu, table, k, needle, start, None)
    case Some(x) =>
      exists a: nat :: IsFirst(mem, mmu, table, k, needle, start, Some(a)) && start <= x <= a
                       && (x == a <==> Reach(mem, mmu, table, k, start, a) + |needle| <= bufLen)
  }

  /** The fault the search meets on the way to `v`: of a table, or of the searched part of its page. */
  function FaultAt(mem: Memory, mmu: Mmu, table: nat, k: nat, needle: seq<byte>, start: nat, bufLen: nat, v: nat): Option<MemoryError>
    requires |needle| < bufLen
    decreases LEVELS - k
  {
    if k >= LEVELS then None
    else if !Readable(mem, table, TABLE_SIZE) then mem.fault(table, TABLE_SIZE)
    else
      var entry := EntryAt(mem, table, Index(v, k));
      if !mmu.isValid(entry) then None
      else if IsLeaf(mmu, k, entry) then
        var from := SearchedFrom(start, v, PageSize(k));
        var found := SearchAnswer(mem, TakeBits(entry, PageSize(k)) + from, PageSize(k) - from, needle, bufLen);
        if found.Err? then Some(found.error) else None
      else FaultAt(mem, mmu, TableOf(entry), k + 1, needle, start, bufLen, v)
  }

  /** Such a fault is one of a range of physical memory. */
  lemma {:induction false} FaultIsReal(mem: Memory, mmu: Mmu, table: nat, k: nat, needle: seq<byte>, start: nat, bufLen: nat, v: nat)
    requires |needle| < bufLen && FaultAt(mem, mmu, table, k, needle, start, bufLen, v).Some?
    ensures exists a: nat, n: nat :: mem.fault(a, n) == FaultAt(mem, mmu, table, k, needle, start, bufLen, v)
    decreases LEVELS - k
  {
    hide PageSize, EntryAt, Index, TableOf, TakeBits, SearchAnswer;
    if Readable(mem, table, TABLE_SIZE) {
      var entry := EntryAt(mem, table, Index(v, k));
      if IsLeaf(mmu, k, entry) {
        var from := SearchedFrom(start, v, PageSize(k));
        SearchErrorIsFault(mem, TakeBits(entry, PageSize(k)) + from, PageSize(k) - from, needle, bufLen);
      } else {
        FaultIsReal(mem, mmu, TableOf(entry), k + 1, needle, start, bufLen, v);
      }
    }
  }

  /** No fault but memory that does not exist is met on the way to an address in `[lo, hi)`. */
  ghost predicate Quiet(mem: Memory, mmu: Mmu, table: nat, k: nat, needle: seq<byte>, start: nat, bufLen: nat, lo: nat, hi: nat)
    requires |needle| < bufLen
  {
    forall v: nat :: lo <= v < hi ==>
      FaultAt(mem, mmu, table, k, needle, start, bufLen, v) == None
      || FaultAt(mem, mmu, table, k, needle, start, bufLen, v) == Some(OutOfBounds)
  }

  /** A search fails only with a fault met on the way to some address, other than that memory does
      not exist, and it goes on past none of these: it answers before the first, or fails. */
  ghost predicate FailsRightly(mem: Memory, mmu: Mmu, table: nat, k: nat, needle: seq<byte>, start: nat, bufLen: nat, r: SearchResult)
    requires |needle| < bufLen
  {
    if r.Err? then
      && r.error != OutOfBounds
      && exists v: nat :: start <= v < RegionEnd(start, k)
                          && FaultAt(mem, mmu, table, k, needle, start, bufLen, v) == Some(r.error)
    else
      Quiet(mem, mmu, table, k, needle, start, bufLen, start, if r.value.Some? then r.value.value else RegionEnd(start, k))
  }

  /** The address at which entry `index` of the table starts. */
  function EntryStart(start: nat, k: nat, index: nat): nat
    requires k < LEVELS
  {
    RegionEnd(start, k) - ENTRIES * PageSize(k) + index * PageSize(k)
  }

  lemma RegionFacts(start: nat, k: nat)
    requires k < LEVELS
    ensures EntryStart(start, k, Index(start, k)) <= start < EntryStart(start, k, Index(start, k) + 1)
    ensures start - EntryStart(start, k, Index(start, k)) == start % PageSize(k)
    ensures start < RegionEnd(start, k) == EntryStart(start, k, ENTRIES)
  {
    var p := PageSize(k);
    DivDiv(start, p, ENTRIES);
    var region := ENTRIES * p;
    assert (start / region + 1) * region == start - start % region + region;
  }

  /** Addresses of entry `index` have that index, and their offset in it as remainder. */
  lemma EntryFacts(start: nat, k: nat, index: nat, v: nat)
    requires k < LEVELS && index < ENTRIES
    requires EntryStart(start, k, index) <= v < EntryStart(start, k, index + 1)
    ensures Index(v, k) == index
    ensures v % PageSize(k) == v - EntryStart(start, k, index)
    ensures v / PageSize(k) == start / PageSize(k) <==> index == Index(start, k)
  {
    hide PageSize, Index;
    var p := PageSize(k);
    var q := start / (ENTRIES * p);
    var d := v - EntryStart(start, k, index);
    assert EntryStart(start, k, index) == (q * ENTRIES + index) * p by { EntryStartIsMultiple(start, k, index); }
    DivModUnique(v, p, q * ENTRIES + index, d);
    DivModUnique(q * ENTRIES + index, ENTRIES, q, index);
    IndexIs(v, k);
    IndexIs(start, k);
    DivDiv(start, p, ENTRIES);
  }

  lemma IndexIs(v: nat, k: nat)
    requires k < LEVELS
    ensures Index(v, k) == v / PageSize(k) % ENTRIES
  {
  }

  lemma EntryStartIsMultiple(start: nat, k: nat, index: nat)
    requires k < LEVELS
    ensures EntryStart(start, k, index) == (start / (ENTRIES * PageSize(k)) * ENTRIES + index) * PageSize(k)
  {
    hide PageSize;
    var p := PageSize(k);
    var q := start / (ENTRIES * p);
    calc {
      EntryStart(start, k, index);
      (q + 1) * (ENTRIES * p) - ENTRIES * p + index * p;
      { assert (q + 1) * (ENTRIES * p) == q * (ENTRIES * p) + ENTRIES * p; }
      q * (ENTRIES * p) + index * p;
      { assert q * (ENTRIES * p) == (q * ENTRIES) * p; }
      (q * ENTRIES) * p + index * p;
      (q * ENTRIES + index) * p;
    }
  }

  /** The region of the table below an entry is the entry. */
  lemma ChildRegion(start: nat, k: nat, index: nat, v: nat)
    requires k < LEVELS && index < ENTRIES
    requires EntryStart(start, k, index) <= v < EntryStart(start, k, index + 1)
    requires k + 1 < LEVELS
    ensures RegionEnd(v, k + 1) == EntryStart(start, k, index + 1)
  {
    assert ENTRIES * PageSize(k + 1) == PageSize(k);
    hide PageSize;
    EntryStartIsMultiple(start, k, index);
    EntryStartIsMultiple(start, k, index + 1);
    var p := PageSize(k);
    var e := start / (ENTRIES * p) * ENTRIES + index;
    DivModUnique(v, p, e, v - e * p);
  }

  /** Every leaf below level `k` has the size of a level from `k` on, which divides that of `k`. */
  lemma {:induction false} LeafSizeDivides(mem: Memory, mmu: Mmu, table: nat, v: nat, k: nat) returns (m: nat)
    requires k < LEVELS && LeafAt(mem, mmu, table, v, k).Some?
    ensures var size := LeafAt(mem, mmu, table, v, k).value.size; size > 0 && PageSize(k) == m * size
    decreases LEVELS - k
  {
    hide EntryAt, TableOf, TakeBits, Index;
    var entry := EntryAt(mem, table, Index(v, k));
    if IsLeaf(mmu, k, entry) {
      m := 1;
    } else {
      var below := LeafSizeDivides(mem, mmu, TableOf(entry), v, k + 1);
      var size := LeafAt(mem, mmu, table, v, k).value.size;
      m := ENTRIES * below;
      assert PageSize(k) == ENTRIES * PageSize(k + 1);
      assert ENTRIES * (below * size) == (ENTRIES * below) * size;
    }
  }

  /** Where in its page an occurrence in entry `index` is looked for: from the start only if that
      lies in the same entry. */
  lemma SearchedFromInEntry(mem: Memory, mmu: Mmu, table: nat, k: nat, start: nat, index: nat, v: nat)
    requires k < LEVELS && index < ENTRIES && start < EntryStart(start, k, index) <= v < EntryStart(start, k, index + 1)
    requires LeafAt(mem, mmu, table, v, k).Some?
    ensures var size := LeafAt(mem, mmu, table, v, k).value.size;
            size > 0 && SearchedFrom(start, v, size) == 0 && SearchedFrom(EntryStart(start, k, index), v, size) == 0
  {
    hide PageSize, LeafAt;
    var size := LeafAt(mem, mmu, table, v, k).value.size;
    var m := LeafSizeDivides(mem, mmu, table, v, k);
    var b := EntryStart(start, k, index);
    EntryStartIsMultiple(start, k, index);
    var e := start / (ENTRIES * PageSize(k)) * ENTRIES + index;
    MultipleOfMultiple(e, m, size);
    assert b % size == 0;
    BlockFloor(b, v, size);
    SameBlock(v, start, size);
  }

  /** A multiple of `p` up to `v` is at most the start of the block of `v`. */
  lemma BlockFloor(b: nat, v: nat, p: nat)
    requires p > 0 && b % p == 0 && b <= v
    ensures b <= v - v % p
  {
    SameBlock(b, v, p);
    var qb, qv := b / p, v / p;
    assert b == qb * p && v - v % p == qv * p;
    MultipleOrder(qv, qb, p);
    MultipleOrder(qb, qv, p);
  }

  // ---- What one entry contributes

  /** The part of entry `index` that is searched. */
  function EntryLow(start: nat, k: nat, index: nat): nat
    requires k < LEVELS
  {
    if index == Index(start, k) then start else EntryStart(start, k, index)
  }

  ghost predicate InEntry(start: nat, k: nat, index: nat, v: nat)
    requires k < LEVELS
  {
    EntryLow(start, k, index) <= v < EntryStart(start, k, index + 1)
  }

  lemma EntryOrder(start: nat, k: nat, index: nat)
    requires k < LEVELS && Index(start, k) <= index < ENTRIES
    ensures start <= EntryLow(start, k, index) < EntryStart(start, k, index + 1) <= RegionEnd(start, k)
    ensures EntryStart(start, k, index) <= EntryLow(start, k, index)
    ensures index > Index(start, k) ==> start < EntryStart(start, k, index)
    ensures EntryLow(start, k, Index(start, k)) == start
  {
    hide PageSize, Index;
    RegionFacts(start, k);
    MultipleOrder(Index(start, k) + 1, index, PageSize(k));
    MultipleOrder(index, index + 1, PageSize(k));
    MultipleOrder(index + 1, ENTRIES, PageSize(k));
  }

  /** An invalid entry maps nothing. */
  lemma InvalidEntry(mem: Memory, mmu: Mmu, table: nat, k: nat, needle: seq<byte>, start: nat, index: nat)
    requires k < LEVELS && Index(start, k) <= index < ENTRIES
    requires !mmu.isValid(EntryAt(mem, table, index))
    ensures NoneIn(mem, mmu, table, k, needle, start, EntryLow(start, k, index), EntryStart(start, k, index + 1))
  {
    hide PageSize, EntryAt, RegionEnd, EntryStart, Index;
    EntryOrder(start, k, index);
    forall v: nat | InEntry(start, k, index, v) ensures !Occurs(mem, mmu, table, k, needle, start, v) {
      EntryFacts(start, k, index, v);
    }
  }

  /** An occurrence in a leaf entry is an occurrence of the needle in the part that is searched. */
  lemma OccursInLeaf(mem: Memory, mmu: Mmu, table: nat, k: nat, needle: seq<byte>, start: nat, index: nat, v: nat)
    requires k < LEVELS && Index(start, k) <= index < ENTRIES && InEntry(start, k, index, v)
    requires var e := EntryAt(mem, table, index); mmu.isValid(e) && IsLeaf(mmu, k, e)
    requires Readable(mem, table, TABLE_SIZE)
    ensures var size := PageSize(k);
            var base := TakeBits(EntryAt(mem, table, index), size);
            var from := EntryLow(start, k, index) - EntryStart(start, k, index);
            && 0 <= from <= size
            && LeafAt(mem, mmu, table, v, k) == Some(Leaf(base, size))
            && (Occurs(mem, mmu, table, k, needle, start, v) <==>
                  Readable(mem, base + from, size - from)
                  && OccursAt(Content(mem, base + from, size - from), needle, v - EntryLow(start, k, index)))
  {
    hide PageSize, EntryAt, RegionEnd, EntryStart, Index, TakeBits, Content;
    EntryOrder(start, k, index);
    RegionFacts(start, k);
    EntryFacts(start, k, index, v);
    EntryWidth(start, k, index);
    var size := PageSize(k);
    var base := TakeBits(EntryAt(mem, table, index), size);
    var from := EntryLow(start, k, index) - EntryStart(start, k, index);
    assert from == SearchedFrom(start, v, size);
    ContentSlice(mem, base + from, size - from, v % size - from, |needle|);
  }

  lemma EntryWidth(start: nat, k: nat, index: nat)
    requires k < LEVELS
    ensures EntryStart(start, k, index + 1) == EntryStart(start, k, index) + PageSize(k)
  {
    hide PageSize;
    assert (index + 1) * PageSize(k) == index * PageSize(k) + PageSize(k);
  }

  lemma ContentSlice(mem: Memory, addr: nat, len: nat, i: nat, n: nat)
    ensures i + n <= len ==> Content(mem, addr, len)[i..i + n] == Content(mem, addr + i, n)
  {
  }

  /** An occurrence below a table entry is an occurrence in that table, as far into its page. */
  lemma OccursInTable(mem: Memory, mmu: Mmu, table: nat, k: nat, needle: seq<byte>, start: nat, index: nat, v: nat)
    requires k < LEVELS && Index(start, k) <= index < ENTRIES && InEntry(start, k, index, v)
    requires var e := EntryAt(mem, table, index); mmu.isValid(e) && !IsLeaf(mmu, k, e)
    requires Readable(mem, table, TABLE_SIZE)
    ensures var child, low := TableOf(EntryAt(mem, table, index)), EntryLow(start, k, index);
            && LeafAt(mem, mmu, table, v, k) == LeafAt(mem, mmu, child, v, k + 1)
            && Reach(mem, mmu, table, k, start, v) == Reach(mem, mmu, child, k + 1, low, v)
            && (Occurs(mem, mmu, table, k, needle, start, v) <==> Occurs(mem, mmu, child, k + 1, needle, low, v))
  {
    hide PageSize, EntryAt, RegionEnd, EntryStart, Index, TableOf, Content, SearchedFrom;
    EntryOrder(start, k, index);
    EntryFacts(start, k, index, v);
    if index != Index(start, k) && LeafAt(mem, mmu, table, v, k).Some? {
      SearchedFromInEntry(mem, mmu, table, k, start, index, v);
    }
  }

  // ---- The search

  lemma EmptyRegion(mem: Memory, mmu: Mmu, table: nat, needle: seq<byte>, start: nat)
    ensures IsFirst(mem, mmu, table, LEVELS, needle, start, None)
  {
  }

  lemma UnreadableTable(mem: Memory, mmu: Mmu, table: nat, k: nat, needle: seq<byte>, start: nat)
    requires k < LEVELS && !Readable(mem, table, TABLE_SIZE)
    ensures IsFirst(mem, mmu, table, k, needle, start, None)
  {
  }

  /** What searching the part of a leaf entry from `start` on says about its page. */
  lemma LeafSearch(mem: Memory, mmu: Mmu, table: nat, k: nat, needle: seq<byte>, start: nat, index: nat, bufLen: nat, from: nat)
    requires k < LEVELS && Index(start, k) <= index < ENTRIES && |needle| < bufLen
    requires var e := EntryAt(mem, table, index); mmu.isValid(e) && IsLeaf(mmu, k, e)
    requires Readable(mem, table, TABLE_SIZE) && LeavesSound(mem, mmu, table, k, start, bufLen)
    requires EntryLow(start, k, index) == EntryStart(start, k, index) + from && from <= PageSize(k)
    ensures var (addr, len) := (TakeBits(EntryAt(mem, table, index), PageSize(k)) + from, PageSize(k) - from);
            var r := SearchAnswer(mem, addr, len, needle, bufLen);
            var page := Find(Content(mem, addr, len), needle);
            && (r.Ok? <==> Readable(mem, addr, len))
            && (r.Ok? ==> (r.value.Some? <==> page.Some?))
            && (r.Ok? && page.Some? ==>
                  r.value.value <= page.value < len && (r.value == page <==> page.value + |needle| <= bufLen))
  {
    hide PageSize, EntryAt, RegionEnd, EntryStart, Index, TakeBits, Content, LeafAt, EntryLow, SearchAnswer, FindFrom;
    EntryOrder(start, k, index);
    EntryWidth(start, k, index);
    var low := EntryLow(start, k, index);
    OccursInLeaf(mem, mmu, table, k, needle, start, index, low);
    var addr, len := TakeBits(EntryAt(mem, table, index), PageSize(k)) + from, PageSize(k) - from;
    assert len <= bufLen || (Coherent(mem) && WholeOrNot(mem, addr, len));
    SearchFacts(mem, addr, len, needle, bufLen);
    var hay := Content(mem, addr, len);
    assert needle == [] ==> OccursAt(hay, needle, 0);
  }

  lemma LeafHit(mem: Memory, mmu: Mmu, table: nat, k: nat, needle: seq<byte>, start: nat, index: nat, bufLen: nat, found: SearchResult)
    requires k < LEVELS && Index(start, k) <= index < ENTRIES && |needle| < bufLen
    requires var e := EntryAt(mem, table, index); mmu.isValid(e) && IsLeaf(mmu, k, e)
    requires Readable(mem, table, TABLE_SIZE) && LeavesSound(mem, mmu, table, k, start, bufLen)
    requires NoneIn(mem, mmu, table, k, needle, start, start, EntryLow(start, k, index))
    requires var from := EntryLow(start, k, index) - EntryStart(start, k, index);
             && 0 <= from <= PageSize(k)
             && found == SearchAnswer(mem, TakeBits(EntryAt(mem, table, index), PageSize(k)) + from, PageSize(k) - from, needle, bufLen)
             && found.Ok? && found.value.Some?
    ensures SearchGives(mem, mmu, table, k, needle, start, bufLen, Some(EntryLow(start, k, index) + found.value.value))
  {
    hide PageSize, EntryAt, RegionEnd, EntryStart, Index, TakeBits, Content, LeafAt, EntryLow, Occurs, LeavesSound, FindFrom, IsLeaf,
         SearchAnswer, Reach;
    EntryOrder(start, k, index);
    EntryWidth(start, k, index);
    var low := EntryLow(start, k, index);
    var from := low - EntryStart(start, k, index);
    LeafSearch(mem, mmu, table, k, needle, start, index, bufLen, from);
    var page := Find(Content(mem, TakeBits(EntryAt(mem, table, index), PageSize(k)) + from, PageSize(k) - from), needle).value;
    var a := low + page;
    OccursInLeaf(mem, mmu, table, k, needle, start, index, a);
    ReachInLeaf(mem, mmu, table, k, needle, start, index, a);
    forall v: nat | start <= v < a ensures !Occurs(mem, mmu, table, k, needle, start, v) {
      if low <= v {
        OccursInLeaf(mem, mmu, table, k, needle, start, index, v);
      }
    }
    assert IsFirst(mem, mmu, table, k, needle, start, Some(a));
  }

  lemma ReachInLeaf(mem: Memory, mmu: Mmu, table: nat, k: nat, needle: seq<byte>, start: nat, index: nat, v: nat)
    requires k < LEVELS && Index(start, k) <= index < ENTRIES && InEntry(start, k, index, v)
    requires var e := EntryAt(mem, table, index); mmu.isValid(e) && IsLeaf(mmu, k, e)
    requires Readable(mem, table, TABLE_SIZE)
    ensures Reach(mem, mmu, table, k, start, v) == v - EntryLow(start, k, index)
  {
    hide PageSize, EntryAt, RegionEnd, EntryStart, Index, TakeBits, Content;
    EntryOrder(start, k, index);
    RegionFacts(start, k);
    EntryFacts(start, k, index, v);
    EntryWidth(start, k, index);
    OccursInLeaf(mem, mmu, table, k, needle, start, index, v);
  }

  lemma LeafMiss(mem: Memory, mmu: Mmu, table: nat, k: nat, needle: seq<byte>, start: nat, index: nat, bufLen: nat, found: SearchResult)
    requires k < LEVELS && Index(start, k) <= index < ENTRIES && |needle| < bufLen
    requires var e := EntryAt(mem, table, index); mmu.isValid(e) && IsLeaf(mmu, k, e)
    requires Readable(mem, table, TABLE_SIZE) && LeavesSound(mem, mmu, table, k, start, bufLen)
    requires var from := EntryLow(start, k, index) - EntryStart(start, k, index);
             && 0 <= from <= PageSize(k)
             && found == SearchAnswer(mem, TakeBits(EntryAt(mem, table, index), PageSize(k)) + from, PageSize(k) - from, needle, bufLen)
             && (found.Ok? ==> found.value.None?)
    ensures NoneIn(mem, mmu, table, k, needle, start, EntryLow(start, k, index), EntryStart(start, k, index + 1))
  {
    hide PageSize, EntryAt, RegionEnd, EntryStart, Index, TakeBits, Content, LeafAt, EntryLow, Occurs, LeavesSound, FindFrom, IsLeaf, SearchAnswer;
    LeafSearch(mem, mmu, table, k, needle, start, index, bufLen, EntryLow(start, k, index) - EntryStart(start, k, index));
    forall v: nat | InEntry(start, k, index, v) ensures !Occurs(mem, mmu, table, k, needle, start, v) {
      OccursInLeaf(mem, mmu, table, k, needle, start, index, v);
    }
  }

  lemma TableResult(mem: Memory, mmu: Mmu, table: nat, k: nat, needle: seq<byte>, start: nat, index: nat, bufLen: nat, result: Option<nat>)
    requires k < LEVELS && Index(start, k) <= index < ENTRIES
    requires var e := EntryAt(mem, table, index); mmu.isValid(e) && !IsLeaf(mmu, k, e)
    requires Readable(mem, table, TABLE_SIZE) && LeavesSound(mem, mmu, table, k, start, bufLen)
    requires NoneIn(mem, mmu, table, k, needle, start, start, EntryLow(start, k, index))
    requires var child, low := TableOf(EntryAt(mem, table, index)), EntryLow(start, k, index);
             LeavesSound(mem, mmu, child, k + 1, low, bufLen) ==> SearchGives(mem, mmu, child, k + 1, needle, low, bufLen, result)
    ensures result.None? ==>
              NoneIn(mem, mmu, table, k, needle, start, EntryLow(start, k, index), EntryStart(start, k, index + 1))
    ensures result.Some? ==> SearchGives(mem, mmu, table, k, needle, start, bufLen, result)
  {
    assert k + 1 < LEVELS;
    hide PageSize, EntryAt, RegionEnd, EntryStart, Index, TakeBits, LeafAt, EntryLow, Occurs, IsLeaf, Reach, WholeOrNot, Coherent;
    EntryOrder(start, k, index);
    var child, low := TableOf(EntryAt(mem, table, index)), EntryLow(start, k, index);
    var high := EntryStart(start, k, index + 1);
    assert RegionEnd(low, k + 1) == high by { ChildRegion(start, k, index, low); }
    forall v: nat | low <= v < high
      ensures Occurs(mem, mmu, table, k, needle, start, v) <==> Occurs(mem, mmu, child, k + 1, needle, low, v)
    {
      OccursInTable(mem, mmu, table, k, needle, start, index, v);
    }
    ChildSound(mem, mmu, table, k, needle, start, index, bufLen);
    if result.Some? {
      var a: nat :| IsFirst(mem, mmu, child, k + 1, needle, low, Some(a)) && low <= result.value <= a
                    && (result.value == a <==> Reach(mem, mmu, child, k + 1, low, a) + |needle| <= bufLen);
      OccursInTable(mem, mmu, table, k, needle, start, index, a);
      assert IsFirst(mem, mmu, table, k, needle, start, Some(a));
    }
  }

  lemma ChildSound(mem: Memory, mmu: Mmu, table: nat, k: nat, needle: seq<byte>, start: nat, index: nat, bufLen: nat)
    requires k + 1 < LEVELS && Index(start, k) <= index < ENTRIES
    requires var e := EntryAt(mem, table, index); mmu.isValid(e) && !IsLeaf(mmu, k, e)
    requires Readable(mem, table, TABLE_SIZE) && LeavesSound(mem, mmu, table, k, start, bufLen)
    ensures LeavesSound(mem, mmu, TableOf(EntryAt(mem, table, index)), k + 1, EntryLow(start, k, index), bufLen)
  {
    hide PageSize, EntryAt, RegionEnd, EntryStart, Index, TakeBits, LeafAt, EntryLow, Occurs, IsLeaf, Reach, WholeOrNot, Coherent, TableOf;
    EntryOrder(start, k, index);
    var child, low, below := TableOf(EntryAt(mem, table, index)), EntryLow(start, k, index), k + 1;
    assert RegionEnd(low, below) == EntryStart(start, k, index + 1) by { ChildRegion(start, k, index, low); }
    forall v: nat | low <= v < RegionEnd(low, below) && LeafAt(mem, mmu, child, v, below).Some?
      ensures var leaf := LeafAt(mem, mmu, child, v, below).value;
              leaf.size <= bufLen || (Coherent(mem) && WholeOrNot(mem, leaf.base, leaf.size))
    {
      OccursInTable(mem, mmu, table, k, needle, start, index, v);
    }
  }

  /** The fault met in a leaf entry is that of searching it. */
  lemma FaultInLeaf(mem: Memory, mmu: Mmu, table: nat, k: nat, needle: seq<byte>, start: nat, index: nat, bufLen: nat, v: nat)
    requires k < LEVELS && Index(start, k) <= index < ENTRIES && |needle| < bufLen && InEntry(start, k, index, v)
    requires var e := EntryAt(mem, table, index); mmu.isValid(e) && IsLeaf(mmu, k, e)
    requires Readable(mem, table, TABLE_SIZE)
    ensures var from := EntryLow(start, k, index) - EntryStart(start, k, index);
            && 0 <= from <= PageSize(k)
            && var r := SearchAnswer(mem, TakeBits(EntryAt(mem, table, index), PageSize(k)) + from, PageSize(k) - from, needle, bufLen);
               FaultAt(mem, mmu, table, k, needle, start, bufLen, v) == if r.Err? then Some(r.error) else None
  {
    hide PageSize, EntryAt, RegionEnd, EntryStart, Index, TakeBits, SearchAnswer, IsLeaf, FindFrom;
    EntryOrder(start, k, index);
    RegionFacts(start, k);
    EntryFacts(start, k, index, v);
    EntryWidth(start, k, index);
    assert EntryLow(start, k, index) - EntryStart(start, k, index) == SearchedFrom(start, v, PageSize(k));
  }

  lemma FaultInNothing(mem: Memory, mmu: Mmu, table: nat, k: nat, needle: seq<byte>, start: nat, index: nat, bufLen: nat, v: nat)
    requires k < LEVELS && Index(start, k) <= index < ENTRIES && |needle| < bufLen && InEntry(start, k, index, v)
    requires !mmu.isValid(EntryAt(mem, table, index)) && Readable(mem, table, TABLE_SIZE)
    ensures FaultAt(mem, mmu, table, k, needle, start, bufLen, v) == None
  {
    hide PageSize, EntryAt, RegionEnd, EntryStart, Index;
    EntryOrder(start, k, index);
    EntryFacts(start, k, index, v);
  }

  /** The start only matters for the page it lies in. */
  lemma {:induction false} FaultFrom(mem: Memory, mmu: Mmu, table: nat, k: nat, needle: seq<byte>, start: nat, low: nat, bufLen: nat, v: nat)
    requires |needle| < bufLen && k < LEVELS
    requires LeafAt(mem, mmu, table, v, k).Some? ==>
               var size := LeafAt(mem, mmu, table, v, k).value.size;
               size > 0 && SearchedFrom(start, v, size) == SearchedFrom(low, v, size)
    ensures FaultAt(mem, mmu, table, k, needle, start, bufLen, v) == FaultAt(mem, mmu, table, k, needle, low, bufLen, v)
    decreases LEVELS - k
  {
    hide PageSize, EntryAt, Index, TableOf, TakeBits, SearchAnswer, SearchedFrom;
    if Readable(mem, table, TABLE_SIZE) {
      var entry := EntryAt(mem, table, Index(v, k));
      if mmu.isValid(entry) && !IsLeaf(mmu, k, entry) {
        FaultFrom(mem, mmu, TableOf(entry), k + 1, needle, start, low, bufLen, v);
      }
    }
  }

  lemma FaultInTable(mem: Memory, mmu: Mmu, table: nat, k: nat, needle: seq<byte>, start: nat, index: nat, bufLen: nat, v: nat)
    requires k < LEVELS && Index(start, k) <= index < ENTRIES && |needle| < bufLen && InEntry(start, k, index, v)
    requires var e := EntryAt(mem, table, index); mmu.isValid(e) && !IsLeaf(mmu, k, e)
    requires Readable(mem, table, TABLE_SIZE)
    ensures FaultAt(mem, mmu, table, k, needle, start, bufLen, v)
         == FaultAt(mem, mmu, TableOf(EntryAt(mem, table, index)), k + 1, needle, EntryLow(start, k, index), bufLen, v)
  {
    assert k + 1 < LEVELS;
    hide PageSize, EntryAt, RegionEnd, EntryStart, Index, TableOf, SearchedFrom, IsLeaf, SearchAnswer;
    EntryOrder(start, k, index);
    EntryFacts(start, k, index, v);
    var child, below, low := TableOf(EntryAt(mem, table, index)), k + 1, EntryLow(start, k, index);
    if LeafAt(mem, mmu, child, v, below).Some? {
      OccursInTable(mem, mmu, table, k, needle, start, index, v);
      if index != Index(start, k) {
        SearchedFromInEntry(mem, mmu, table, k, start, index, v);
      } else {
        var m := LeafSizeDivides(mem, mmu, child, v, below);
      }
    }
    FaultFrom(mem, mmu, child, below, needle, start, low, bufLen, v);
  }

  /** How the outcome of one entry bears on the whole search. */
  ghost predicate EntryQuiet(mem: Memory, mmu: Mmu, table: nat, k: nat, needle: seq<byte>, start: nat, index: nat, bufLen: nat)
    requires k < LEVELS && |needle| < bufLen
  {
    Quiet(mem, mmu, table, k, needle, start, bufLen, EntryLow(start, k, index), EntryStart(start, k, index + 1))
  }

  lemma QuietJoin(mem: Memory, mmu: Mmu, table: nat, k: nat, needle: seq<byte>, start: nat, bufLen: nat, lo: nat, mid: nat, hi: nat)
    requires |needle| < bufLen
    requires Quiet(mem, mmu, table, k, needle, start, bufLen, lo, mid) && Quiet(mem, mmu, table, k, needle, start, bufLen, mid, hi)
    ensures Quiet(mem, mmu, table, k, needle, start, bufLen, lo, hi)
  {
    hide FaultAt;
  }

  lemma QuietPart(mem: Memory, mmu: Mmu, table: nat, k: nat, needle: seq<byte>, start: nat, bufLen: nat, lo: nat, mid: nat, hi: nat)
    requires |needle| < bufLen && mid <= hi && Quiet(mem, mmu, table, k, needle, start, bufLen, lo, hi)
    ensures Quiet(mem, mmu, table, k, needle, start, bufLen, lo, mid)
  {
    hide FaultAt;
  }

  lemma QuietNothing(mem: Memory, mmu: Mmu, table: nat, k: nat, needle: seq<byte>, start: nat, bufLen: nat, lo: nat)
    requires |needle| < bufLen
    ensures Quiet(mem, mmu, table, k, needle, start, bufLen, lo, lo)
  {
  }

  lemma InvalidIsQuiet(mem: Memory, mmu: Mmu, table: nat, k: nat, needle: seq<byte>, start: nat, index: nat, bufLen: nat)
    requires k < LEVELS && Index(start, k) <= index < ENTRIES && |needle| < bufLen
    requires !mmu.isValid(EntryAt(mem, table, index)) && Readable(mem, table, TABLE_SIZE)
    ensures EntryQuiet(mem, mmu, table, k, needle, start, index, bufLen)
  {
    hide PageSize, EntryAt, RegionEnd, EntryStart, Index, FaultAt;
    forall v: nat | InEntry(start, k, index, v) ensures FaultAt(mem, mmu, table, k, needle, start, bufLen, v) == None {
      FaultInNothing(mem, mmu, table, k, needle, start, index, bufLen, v);
    }
  }

  lemma LeafOutcome(mem: Memory, mmu: Mmu, table: nat, k: nat, needle: seq<byte>, start: nat, index: nat, bufLen: nat, found: SearchResult)
    requires k < LEVELS && Index(start, k) <= index < ENTRIES && |needle| < bufLen
    requires var e := EntryAt(mem, table, index); mmu.isValid(e) && IsLeaf(mmu, k, e)
    requires Readable(mem, table, TABLE_SIZE)
    requires var from := EntryLow(start, k, index) - EntryStart(start, k, index);
             && 0 <= from <= PageSize(k)
             && found == SearchAnswer(mem, TakeBits(EntryAt(mem, table, index), PageSize(k)) + from, PageSize(k) - from, needle, bufLen)
    ensures found.Ok? || found.error == OutOfBounds ==> EntryQuiet(mem, mmu, table, k, needle, start, index, bufLen)
    ensures found.Err? ==> FaultAt(mem, mmu, table, k, needle, start, bufLen, EntryLow(start, k, index)) == Some(found.error)
  {
    hide PageSize, EntryAt, RegionEnd, EntryStart, Index, FaultAt, TakeBits, SearchAnswer, EntryLow, IsLeaf;
    EntryOrder(start, k, index);
    FaultInLeaf(mem, mmu, table, k, needle, start, index, bufLen, EntryLow(start, k, index));
    forall v: nat | InEntry(start, k, index, v)
      ensures FaultAt(mem, mmu, table, k, needle, start, bufLen, v) == if found.Err? then Some(found.error) else None
    {
      FaultInLeaf(mem, mmu, table, k, needle, start, index, bufLen, v);
    }
  }

  lemma TableOutcome(mem: Memory, mmu: Mmu, table: nat, k: nat, needle: seq<byte>, start: nat, index: nat, bufLen: nat, r: SearchResult)
    requires k < LEVELS && Index(start, k) <= index < ENTRIES && |needle| < bufLen
    requires var e := EntryAt(mem, table, index); mmu.isValid(e) && !IsLeaf(mmu, k, e)
    requires Readable(mem, table, TABLE_SIZE)
    requires FailsRightly(mem, mmu, TableOf(EntryAt(mem, table, index)), k + 1, needle, EntryLow(start, k, index), bufLen, r)
    requires r.Ok? && r.value.Some? ==> r.value.value < EntryStart(start, k, index + 1)
    ensures r.Err? ==>
              && r.error != OutOfBounds
              && exists v: nat :: InEntry(start, k, index, v) && FaultAt(mem, mmu, table, k, needle, start, bufLen, v) == Some(r.error)
    ensures r.Ok? && r.value.None? ==> EntryQuiet(mem, mmu, table, k, needle, start, index, bufLen)
    ensures r.Ok? && r.value.Some? ==>
              Quiet(mem, mmu, table, k, needle, start, bufLen, EntryLow(start, k, index), r.value.value)
  {
    assert k + 1 < LEVELS;
    hide PageSize, EntryAt, RegionEnd, EntryStart, Index, TakeBits, FaultAt, EntryLow, IsLeaf, TableOf;
    EntryOrder(start, k, index);
    var child, below, low, high := TableOf(EntryAt(mem, table, index)), k + 1, EntryLow(start, k, index), EntryStart(start, k, index + 1);
    assert RegionEnd(low, below) == high by { ChildRegion(start, k, index, low); }
    forall v: nat | InEntry(start, k, index, v)
      ensures FaultAt(mem, mmu, table, k, needle, start, bufLen, v) == FaultAt(mem, mmu, child, below, needle, low, bufLen, v)
    {
      FaultInTable(mem, mmu, table, k, needle, start, index, bufLen, v);
    }
  }

  lemma NoneInNothing(mem: Memory, mmu: Mmu, table: nat, k: nat, needle: seq<byte>, start: nat, lo: nat)
    ensures NoneIn(mem, mmu, table, k, needle, start, lo, lo)
  {
  }

  lemma NoneInJoin(mem: Memory, mmu: Mmu, table: nat, k: nat, needle: seq<byte>, start: nat, lo: nat, mid: nat, hi: nat)
    requires NoneIn(mem, mmu, table, k, needle, start, lo, mid) && NoneIn(mem, mmu, table, k, needle, start, mid, hi)
    ensures NoneIn(mem, mmu, table, k, needle, start, lo, hi)
  {
    hide Occurs;
  }

  /** A table that cannot be read is a fault on the way to every address. */
  lemma TableFault(mem: Memory, mmu: Mmu, table: nat, k: nat, needle: seq<byte>, start: nat, bufLen: nat)
    requires k < LEVELS && |needle| < bufLen && !Readable(mem, table, TABLE_SIZE)
    ensures mem.fault(table, TABLE_SIZE) == Some(OutOfBounds) ==> FailsRightly(mem, mmu, table, k, needle, start, bufLen, Ok(None))
    ensures var e := mem.fault(table, TABLE_SIZE).value;
            e != OutOfBounds ==> FailsRightly(mem, mmu, table, k, needle, start, bufLen, Err(e))
  {
    RegionFacts(start, k);
    assert FaultAt(mem, mmu, table, k, needle, start, bufLen, start) == mem.fault(table, TABLE_SIZE);
    hide RegionEnd;
  }

  /** One more entry without a fault. */
  lemma QuietSoFar(mem: Memory, mmu: Mmu, table: nat, k: nat, needle: seq<byte>, start: nat, index: nat, bufLen: nat)
    requires k < LEVELS && |needle| < bufLen
    requires Quiet(mem, mmu, table, k, needle, start, bufLen, start, EntryLow(start, k, index))
    requires EntryQuiet(mem, mmu, table, k, needle, start, index, bufLen)
    ensures Quiet(mem, mmu, table, k, needle, start, bufLen, start, EntryStart(start, k, index + 1))
  {
    hide Quiet;
    QuietJoin(mem, mmu, table, k, needle, start, bufLen, start, EntryLow(start, k, index), EntryStart(start, k, index + 1));
  }

  /** The search ends in an entry: with an error met there, or with an address in it. */
  lemma EndsInEntry(mem: Memory, mmu: Mmu, table: nat, k: nat, needle: seq<byte>, start: nat, index: nat, bufLen: nat, r: SearchResult)
    requires k < LEVELS && Index(start, k) <= index < ENTRIES && |needle| < bufLen
    requires Quiet(mem, mmu, table, k, needle, start, bufLen, start, EntryLow(start, k, index))
    requires r.Err? ==>
               && r.error != OutOfBounds
               && exists v: nat :: InEntry(start, k, index, v) && FaultAt(mem, mmu, table, k, needle, start, bufLen, v) == Some(r.error)
    requires r.Ok? ==>
               && r.value.Some? && InEntry(start, k, index, r.value.value)
               && Quiet(mem, mmu, table, k, needle, start, bufLen, EntryLow(start, k, index), r.value.value)
    ensures FailsRightly(mem, mmu, table, k, needle, start, bufLen, r)
    ensures r.Ok? ==> start <= r.value.value < RegionEnd(start, k)
  {
    hide Quiet, FaultAt, RegionEnd, EntryStart, Index, EntryLow;
    EntryOrder(start, k, index);
    if r.Ok? {
      QuietJoin(mem, mmu, table, k, needle, start, bufLen, start, EntryLow(start, k, index), r.value.value);
    }
  }

  method FindInKernelMemoryInner(mem: Memory, mmu: Mmu, table: nat, start: nat, needle: seq<byte>, buf: array<byte>, k: nat)
    returns (r: SearchResult)
    requires k <= LEVELS && |needle| < buf.Length
    modifies buf
    ensures r.Ok? && LeavesSound(mem, mmu, table, k, start, buf.Length) ==>
              SearchGives(mem, mmu, table, k, needle, start, buf.Length, r.value)
    ensures FailsRightly(mem, mmu, table, k, needle, start, buf.Length, r)
    ensures r.Ok? && r.value.Some? ==> start <= r.value.value < RegionEnd(start, k)
    decreases LEVELS - k
  {
    hide PageSize, EntryAt, RegionEnd, EntryStart, Index, TableOf, TakeBits, LeavesSound, SearchAnswer, IsLeaf, NoneIn, WholeOrNot,
         Quiet, FaultAt, FailsRightly, EntryQuiet, EntryLow;
    if k == LEVELS {
      EmptyRegion(mem, mmu, table, needle, start);
      NothingFails(mem, mmu, table, needle, start, buf.Length);
      return Ok(None);
    }
    var fault := mem.fault(table, TABLE_SIZE);
    if fault.Some? { TableFault(mem, mmu, table, k, needle, start, buf.Length); }
    if fault == Some(OutOfBounds) {
      UnreadableTable(mem, mmu, table, k, needle, start);
      return Ok(None);
    } else if fault.Some? {
      return Err(fault.value);
    }
    var size := PageSize(k);
    var baseIndex := Index(start, k);
    var index := baseIndex;
    RegionFacts(start, k);
    EntryOrder(start, k, index);
    NoneInNothing(mem, mmu, table, k, needle, start, start);
    QuietNothing(mem, mmu, table, k, needle, start, buf.Length, start);
    ghost var sound := LeavesSound(mem, mmu, table, k, start, buf.Length);
    ghost var done := start;
    while index < ENTRIES
      invariant baseIndex <= index <= ENTRIES
      invariant done == if index == baseIndex then start else EntryStart(start, k, index)
      invariant sound ==> NoneIn(mem, mmu, table, k, needle, start, start, done)
      invariant Quiet(mem, mmu, table, k, needle, start, buf.Length, start, done)
    {
      var entry := EntryAt(mem, table, index);
      EntryOrder(start, k, index);
      LowIs(start, k, index);
      ghost var low, high := EntryLow(start, k, index), EntryStart(start, k, index + 1);
      if !mmu.isValid(entry) {
        InvalidEntry(mem, mmu, table, k, needle, start, index);
        InvalidIsQuiet(mem, mmu, table, k, needle, start, index, buf.Length);
      } else {
        var baseAddr := EntryStart(start, k, index);
        var offset := if index == baseIndex then start % size else 0;
        assert baseAddr + offset == low;
        EntryWidth(start, k, index);
        if IsLeaf(mmu, k, entry) {
          var addr := TakeBits(entry, size);
          var found := Search(mem, addr + offset, size - offset, needle, buf);
          LeafOutcome(mem, mmu, table, k, needle, start, index, buf.Length, found);
          AnswerInRange(mem, addr + offset, size - offset, needle, buf.Length);
          if found.Ok? && found.value.Some? {
            if sound { LeafHit(mem, mmu, table, k, needle, start, index, buf.Length, found); }
            r := Ok(Some(baseAddr + offset + found.value.value));
            QuietEntryPart(mem, mmu, table, k, needle, start, index, buf.Length, r.value.value);
            EndsInEntry(mem, mmu, table, k, needle, start, index, buf.Length, r);
            return;
          } else if found.Err? && found.error != OutOfBounds {
            EndsInEntry(mem, mmu, table, k, needle, start, index, buf.Length, Err(found.error));
            return Err(found.error);
          }
          if sound { LeafMiss(mem, mmu, table, k, needle, start, index, buf.Length, found); }
        } else {
          var result := FindInKernelMemoryInner(mem, mmu, TableOf(entry), baseAddr + offset, needle, buf, k + 1);
          ChildEnd(mem, mmu, start, k, index, entry);
          TableOutcome(mem, mmu, table, k, needle, start, index, buf.Length, result);
          if result.Err? {
            EndsInEntry(mem, mmu, table, k, needle, start, index, buf.Length, Err(result.error));
            return Err(result.error);
          }
          if sound { TableResult(mem, mmu, table, k, needle, start, index, buf.Length, result.value); }
          if result.value.Some? {
            EndsInEntry(mem, mmu, table, k, needle, start, index, buf.Length, result);
            return result;
          }
        }
      }
      if sound { NoneInJoin(mem, mmu, table, k, needle, start, start, low, high); }
      QuietSoFar(mem, mmu, table, k, needle, start, index, buf.Length);
      index, done := index + 1, high;
    }
    AllQuiet(mem, mmu, table, k, needle, start, buf.Length);
    r := Ok(None);
  }

  lemma NothingFails(mem: Memory, mmu: Mmu, table: nat, needle: seq<byte>, start: nat, bufLen: nat)
    requires |needle| < bufLen
    ensures FailsRightly(mem, mmu, table, LEVELS, needle, start, bufLen, Ok(None))
  {
  }

  lemma AllQuiet(mem: Memory, mmu: Mmu, table: nat, k: nat, needle: seq<byte>, start: nat, bufLen: nat)
    requires |needle| < bufLen
    ensures Quiet(mem, mmu, table, k, needle, start, bufLen, start, RegionEnd(start, k)) <==>
            FailsRightly(mem, mmu, table, k, needle, start, bufLen, Ok(None))
  {
    hide Quiet, RegionEnd;
  }

  lemma LowIs(start: nat, k: nat, index: nat)
    requires k < LEVELS
    ensures EntryLow(start, k, index) == if index == Index(start, k) then start else EntryStart(start, k, index)
  {
  }

  lemma ChildEnd(mem: Memory, mmu: Mmu, start: nat, k: nat, index: nat, entry: u64)
    requires k < LEVELS && Index(start, k) <= index < ENTRIES && !IsLeaf(mmu, k, entry)
    ensures RegionEnd(EntryLow(start, k, index), k + 1) == EntryStart(start, k, index + 1)
  {
    assert k + 1 < LEVELS;
    hide PageSize, Index, EntryStart, EntryLow, RegionEnd;
    EntryOrder(start, k, index);
    ChildRegion(start, k, index, EntryLow(start, k, index));
  }

  lemma QuietEntryPart(mem: Memory, mmu: Mmu, table: nat, k: nat, needle: seq<byte>, start: nat, index: nat, bufLen: nat, x: nat)
    requires k < LEVELS && |needle| < bufLen && EntryQuiet(mem, mmu, table, k, needle, start, index, bufLen)
    requires x <= EntryStart(start, k, index + 1)
    ensures Quiet(mem, mmu, table, k, needle, start, bufLen, EntryLow(start, k, index), x)
  {
    hide Quiet, EntryStart, EntryLow;
    QuietPart(mem, mmu, table, k, needle, start, bufLen, EntryLow(start, k, index), x, EntryStart(start, k, index + 1));
  }
}
