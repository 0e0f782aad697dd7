/** Translation tables as they are laid out in memory (Intel SDM volume 3A, section 4.5), and what
    the page walk makes of them. */
module PageTables {
  import opened Outcomes
  import opened Arithmetic
  import opened Bytes
  import opened PhysicalMemory
  import opened Paging

  /** An entry that refers to table or page number `frame` of some size: the bits above the
      address, and those below it. */
  datatype Entry = Entry(high: nat, frame: nat, flags: nat) {
    predicate Fits(size: nat) {
      high < 0x1_0000 && frame * size + flags < 0x1_0000_0000_0000 && flags < size
    }

    function Value(size: nat): nat { high * 0x1_0000_0000_0000 + frame * size + flags }
  }

  /** What an entry of a table at each level, from the top, maps. */
  function Span(level: nat): nat {
    if level == 0 then 0x80_0000_0000 else if level == 1 then 0x4000_0000 else if level == 2 then 0x20_0000 else 0x1000
  }

  /** The address with the given indices, from the top level on, and what follows them. */
  function Address(high: nat, indices: seq<nat>, rest: nat): nat
    requires 1 <= |indices| <= 4
  {
    high * 0x1_0000_0000_0000 + indices[0] * 0x80_0000_0000
    + (if |indices| > 1 then indices[1] * 0x4000_0000 else 0)
    + (if |indices| > 2 then indices[2] * 0x20_0000 else 0)
    + (if |indices| > 3 then indices[3] * 0x1000 else 0)
    + rest
  }

  /** The 8 bytes at an address can be read and hold a number. */
  predicate Stored(mem: Memory, addr: nat, value: nat) {
    Readable(mem, addr, 8) && Content(mem, addr, 8) == ToLe(value, 8)
  }

  /** Entry `index` of the table `from` refers to is valid, and refers to `to`. */
  predicate Refers(mem: Memory, mmu: Mmu, from: Entry, index: nat, to: Entry, size: nat) {
    && from.Fits(0x1000) && to.Fits(size) && index < 512
    && Stored(mem, from.frame * 0x1000 + 8 * index, to.Value(size))
    && to.Value(size) < 0x1_0000_0000_0000_0000 && mmu.isValid(to.Value(size))
  }

  function Table(root: Entry, tables: seq<Entry>, k: nat): Entry
    requires k <= |tables|
  {
    if k == 0 then root else tables[k-1]
  }

  /** The tables along the indices, none of which is a large page instead. */
  ghost predicate Path(mem: Memory, mmu: Mmu, root: Entry, tables: seq<Entry>, indices: seq<nat>) {
    && root.Fits(0x1000) && |tables| < 4 && |tables| < |indices| <= 4
    && forall k :: 0 <= k < |tables| ==>
         && Refers(mem, mmu, Table(root, tables, k), indices[k], tables[k], 0x1000)
         && (k >= 1 ==> !mmu.isLarge(tables[k].Value(0x1000)))
  }

  lemma ValueIs64Bit(e: Entry, size: nat)
    requires e.Fits(size)
    ensures e.Value(size) < 0x1_0000_0000_0000_0000
    ensures size > 0 && TakeBits(e.Value(size), size) == e.frame * size
  {
    var low := e.frame * size + e.flags;
    DivModUnique(e.Value(size), 0x1_0000_0000_0000, e.high, low);
    DivModUnique(low, size, e.frame, e.flags);
  }

  lemma TableIs(from: Entry)
    requires from.Fits(0x1000)
    ensures from.Value(0x1000) < 0x1_0000_0000_0000_0000 && TableOf(from.Value(0x1000)) == from.frame * 0x1000
  {
    ValueIs64Bit(from, 0x1000);
    hide TakeBits;
  }

  lemma StoredIs(mem: Memory, table: nat, index: nat, value: u64)
    requires Stored(mem, table + 8 * index, value)
    ensures Readable(mem, EntryAddr(table, index), 8) && EntryAt(mem, table, index) == value
  {
    hide FromLe, ToLe, Content, Capacity;
    Capacities();
    FromLeToLe(value, 8);
  }

  /** The walk finds each index. */
  lemma IndexOf(high: nat, indices: seq<nat>, rest: nat, k: nat)
    requires 1 <= |indices| <= 4 && k < |indices|
    requires forall i :: 0 <= i < |indices| ==> indices[i] < 512
    requires rest < Span(|indices| - 1)
    ensures Index(Address(high, indices, rest), k) == indices[k]
  {
    var v := Address(high, indices, rest);
    var i1 := if |indices| > 1 then indices[1] else 0;
    var i2 := if |indices| > 2 then indices[2] else 0;
    var i3 := if |indices| > 3 then indices[3] else 0;
    if k == 0 {
      var low := v - high * 0x1_0000_0000_0000 - indices[0] * 0x80_0000_0000;
      DivModUnique(v, 0x80_0000_0000, high * 512 + indices[0], low);
      DivModUnique(high * 512 + indices[0], 512, high, indices[0]);
    } else if k == 1 {
      var top := high * 512 + indices[0];
      var low := v - high * 0x1_0000_0000_0000 - indices[0] * 0x80_0000_0000 - i1 * 0x4000_0000;
      DivModUnique(v, 0x4000_0000, top * 512 + i1, low);
      DivModUnique(top * 512 + i1, 512, top, i1);
    } else if k == 2 {
      var top := (high * 512 + indices[0]) * 512 + i1;
      DivModUnique(v, 0x20_0000, top * 512 + i2, v - (top * 512 + i2) * 0x20_0000);
      DivModUnique(top * 512 + i2, 512, top, i2);
    } else {
      var top := ((high * 512 + indices[0]) * 512 + i1) * 512 + i2;
      DivModUnique(v, 0x1000, top * 512 + i3, rest);
      DivModUnique(top * 512 + i3, 512, top, i3);
    }
  }

  /** And what is left in the page. */
  lemma RestOf(high: nat, indices: seq<nat>, rest: nat)
    requires 1 <= |indices| <= 4 && rest < Span(|indices| - 1)
    ensures Address(high, indices, rest) % Span(|indices| - 1) == rest
  {
    var v := Address(high, indices, rest);
    var n := high * 512 + indices[0];
    if |indices| == 1 {
      DivModUnique(v, 0x80_0000_0000, n, rest);
    } else if |indices| == 2 {
      DivModUnique(v, 0x4000_0000, n * 512 + indices[1], rest);
    } else if |indices| == 3 {
      DivModUnique(v, 0x20_0000, (n * 512 + indices[1]) * 512 + indices[2], rest);
    } else {
      DivModUnique(v, 0x1000, ((n * 512 + indices[1]) * 512 + indices[2]) * 512 + indices[3], rest);
    }
  }

  /** One step of the walk at a table, and the last step. */
  lemma WalkStep(mem: Memory, mmu: Mmu, entry: u64, v: nat, k: nat, next: u64)
    requires k < 4 && Readable(mem, EntryAddr(TableOf(entry), Index(v, k)), 8)
    requires EntryAt(mem, TableOf(entry), Index(v, k)) == next
    ensures !mmu.isValid(next) ==> Walk(mem, mmu, entry, v, k) == Err(Invalid(next))
    ensures mmu.isValid(next) && k < 3 && (k >= 1 ==> !mmu.isLarge(next)) ==>
              Walk(mem, mmu, entry, v, k) == Walk(mem, mmu, next, v, k + 1)
    ensures mmu.isValid(next) && k >= 1 && (k < 3 ==> mmu.isLarge(next)) ==>
              Walk(mem, mmu, entry, v, k) == Ok(TakeBits(next, Span(k)) + v % Span(k))
  {
    hide Index, TableOf, EntryAt, EntryAddr, TakeBits;
    if k == 3 {
      WalkEnd(mem, mmu, next, v);
    }
  }

  lemma WalkEnd(mem: Memory, mmu: Mmu, entry: u64, v: nat)
    ensures Walk(mem, mmu, entry, v, 4) == Ok(TakeBits(entry, 0x1000) + v % 0x1000)
  {
  }

  lemma WalkFault(mem: Memory, mmu: Mmu, entry: u64, v: nat, k: nat)
    requires k < 4
    ensures var fault := mem.fault(TableOf(entry) + 8 * Index(v, k), 8);
            fault.Some? ==> Walk(mem, mmu, entry, v, k) == Err(MemoryFault(fault.value))
  {
    hide Index, TableOf, EntryAt, TakeBits;
  }

  lemma PathEntry(mem: Memory, mmu: Mmu, root: Entry, tables: seq<Entry>, indices: seq<nat>, k: nat)
    requires Path(mem, mmu, root, tables, indices) && k < |tables|
    ensures Refers(mem, mmu, Table(root, tables, k), indices[k], tables[k], 0x1000)
    ensures k >= 1 ==> !mmu.isLarge(tables[k].Value(0x1000))
  {
    hide Refers;
  }

  lemma AllIndices(mem: Memory, mmu: Mmu, root: Entry, tables: seq<Entry>, indices: seq<nat>, high: nat, rest: nat)
    requires |indices| == |tables| + 1 && Path(mem, mmu, root, tables, indices)
    requires indices[|tables|] < 512 && rest < Span(|tables|)
    ensures forall i :: 0 <= i < |indices| ==> Index(Address(high, indices, rest), i) == indices[i]
  {
    hide Index, Address, Span;
    forall i | 0 <= i < |indices| ensures indices[i] < 512 {
      if i < |tables| { PathEntry(mem, mmu, root, tables, indices, i); }
    }
    forall i | 0 <= i < |indices| ensures Index(Address(high, indices, rest), i) == indices[i] {
      IndexOf(high, indices, rest, i);
    }
  }

  /** The walk follows the tables. */
  lemma {:induction false} WalkFollows(mem: Memory, mmu: Mmu, root: Entry, tables: seq<Entry>, indices: seq<nat>, v: nat, k: nat)
    requires Path(mem, mmu, root, tables, indices) && k <= |tables|
    requires forall i :: 0 <= i < |indices| ==> Index(v, i) == indices[i]
    ensures Table(root, tables, k).Fits(0x1000)
    ensures root.Value(0x1000) < 0x1_0000_0000_0000_0000
    ensures Table(root, tables, k).Value(0x1000) < 0x1_0000_0000_0000_0000
    ensures Translate(mem, mmu, root.Value(0x1000), v) == Walk(mem, mmu, Table(root, tables, k).Value(0x1000), v, k)
  {
    hide Index, TableOf, EntryAt, EntryAddr, Walk, Stored, Readable;
    TableIs(root);
    if k > 0 {
      WalkFollows(mem, mmu, root, tables, indices, v, k - 1);
      PathEntry(mem, mmu, root, tables, indices, k - 1);
      var from, to := Table(root, tables, k - 1), tables[k-1];
      TableIs(from);
      TableIs(to);
      StoredIs(mem, from.frame * 0x1000, indices[k-1], to.Value(0x1000));
      WalkStep(mem, mmu, from.Value(0x1000), v, k - 1, to.Value(0x1000));
    }
  }

  /** A mapped address translates to its page, for pages of 4 KiB, 2 MiB and 1 GiB: the tables lead
      along its indices, the bits of the entries above and below the address are dropped, and what
      follows the indices is the offset in the page. */
  lemma MappedAddressTranslates(mem: Memory, mmu: Mmu, root: Entry, tables: seq<Entry>, page: Entry,
                                high: nat, indices: seq<nat>, offset: nat)
    requires 1 <= |tables| <= 3 && |indices| == |tables| + 1
    requires Path(mem, mmu, root, tables, indices)
    requires Refers(mem, mmu, tables[|tables|-1], indices[|tables|], page, Span(|tables|))
    requires |tables| < 3 ==> mmu.isLarge(page.Value(Span(|tables|)))
    requires offset < Span(|tables|)
    ensures root.Value(0x1000) < 0x1_0000_0000_0000_0000
    ensures Translate(mem, mmu, root.Value(0x1000), Address(high, indices, offset))
         == Ok(page.frame * Span(|tables|) + offset)
  {
    hide Index, TableOf, EntryAt, EntryAddr, TakeBits, Walk, Translate, Stored, Readable, Address, Path;
    var v, n := Address(high, indices, offset), |tables|;
    AllIndices(mem, mmu, root, tables, indices, high, offset);
    RestOf(high, indices, offset);
    WalkFollows(mem, mmu, root, tables, indices, v, n);
    var from := tables[n-1];
    TableIs(from);
    ValueIs64Bit(page, Span(n));
    StoredIs(mem, from.frame * 0x1000, indices[n], page.Value(Span(n)));
    WalkStep(mem, mmu, from.Value(0x1000), v, n, page.Value(Span(n)));
  }

  /** An address below an entry that is not valid does not translate, and the error carries that
      entry; nor does one below an entry that cannot be read. */
  lemma UnmappedAddressFails(mem: Memory, mmu: Mmu, root: Entry, tables: seq<Entry>, value: u64,
                             high: nat, indices: seq<nat>, rest: nat)
    requires |indices| == |tables| + 1 <= 4 && Path(mem, mmu, root, tables, indices)
    requires indices[|tables|] < 512 && rest < Span(|tables|)
    ensures root.Value(0x1000) < 0x1_0000_0000_0000_0000
    ensures var at := Table(root, tables, |tables|).frame * 0x1000 + 8 * indices[|tables|];
            var r := Translate(mem, mmu, root.Value(0x1000), Address(high, indices, rest));
            && (Stored(mem, at, value) && !mmu.isValid(value) ==> r == Err(Invalid(value)))
            && (mem.fault(at, 8).Some? ==> r == Err(MemoryFault(mem.fault(at, 8).value)))
  {
    hide Index, TableOf, EntryAt, EntryAddr, TakeBits, Walk, Translate, Stored, Readable, Address, Path;
    var v, n := Address(high, indices, rest), |tables|;
    AllIndices(mem, mmu, root, tables, indices, high, rest);
    WalkFollows(mem, mmu, root, tables, indices, v, n);
    var from := Table(root, tables, n);
    TableIs(from);
    WalkFault(mem, mmu, from.Value(0x1000), v, n);
    if Stored(mem, from.frame * 0x1000 + 8 * indices[n], value) {
      StoredIs(mem, from.frame * 0x1000, indices[n], value);
      WalkStep(mem, mmu, from.Value(0x1000), v, n, value);
    }
  }
}
