/** The symbols of a module: names in one growing buffer, and two sorted tables of address and
    range that index it by address and by name. */
module SymbolTable {
  import opened Outcomes
  import opened Bytes

  /** The bytes of a string. */
  type Name = seq<byte>

  datatype Range = Range(start: nat, end: nat)

  datatype Entry = Entry(addr: u64, range: Range)

  datatype Symbol = Symbol(addr: u64, name: Name)

  predicate InBuffer(buffer: Name, r: Range) { r.start <= r.end <= |buffer| }

  function Read(buffer: Name, r: Range): Name {
    if InBuffer(buffer, r) then buffer[r.start..r.end] else []
  }

  /** What the entries stand for. */
  function Symbols(buffer: Name, entries: seq<Entry>): (r: seq<Symbol>)
    ensures |r| == |entries|
    ensures forall k :: 0 <= k < |r| ==> r[k] == Symbol(entries[k].addr, Read(buffer, entries[k].range))
  {
    seq(|entries|, k requires 0 <= k < |entries| => Symbol(entries[k].addr, Read(buffer, entries[k].range)))
  }

  // ---- The order of names

  predicate NameLeq(a: Name, b: Name) {
    a == [] || (b != [] && (a[0] < b[0] || (a[0] == b[0] && NameLeq(a[1..], b[1..]))))
  }

  lemma {:induction false} NameOrder(a: Name, b: Name, c: Name)
    ensures NameLeq(a, b) || NameLeq(b, a)
    ensures NameLeq(a, b) && NameLeq(b, a) ==> a == b
    ensures NameLeq(a, b) && NameLeq(b, c) ==> NameLeq(a, c)
  {
    if a != [] && b != [] && a[0] == b[0] {
      NameOrder(a[1..], b[1..], if c == [] then [] else c[1..]);
      assert a == [a[0]] + a[1..] && b == [b[0]] + b[1..];
    }
  }

  /** The order of strings: a prefix comes first, and else the first bytes that differ decide. */
  lemma {:induction false} NameOrderIs(common: Name, a: Name, b: Name)
    requires a != [] && b != [] ==> a[0] != b[0]
    ensures NameLeq(common + a, common + b) <==> a == [] || (b != [] && a[0] < b[0])
  {
    if common == [] {
      assert common + a == a && common + b == b;
    } else {
      NameOrderIs(common[1..], a, b);
      assert (common + a)[1..] == common[1..] + a && (common + b)[1..] == common[1..] + b;
    }
  }

  // ---- Sorting

  type Order = (Entry, Entry) -> bool

  ghost predicate IsOrder(leq: Order) {
    && (forall a, b :: leq(a, b) || leq(b, a))
    && (forall a, b, c :: leq(a, b) && leq(b, c) ==> leq(a, c))
  }

  ghost predicate Sorted(s: seq<Entry>, leq: Order) {
    forall i, j :: 0 <= i < j < |s| ==> leq(s[i], s[j])
  }

  /** Of the entries up to `n`, all but that at `j` are in their places. */
  ghost predicate SortedBut(s: seq<Entry>, n: nat, j: nat, leq: Order) {
    n < |s| && forall p, q :: 0 <= p < q <= n && q != j ==> leq(s[p], s[q])
  }

  lemma Settled(s: seq<Entry>, n: nat, j: nat, leq: Order)
    requires IsOrder(leq) && j <= n && SortedBut(s, n, j, leq) && (j > 0 ==> leq(s[j-1], s[j]))
    ensures Sorted(s[..n+1], leq)
  {
    forall p | 0 <= p < j ensures leq(s[p], s[j]) {
      if p < j - 1 { assert leq(s[p], s[j-1]); }
    }
  }

  function Swapped(s: seq<Entry>, j: nat): seq<Entry>
    requires 0 < j < |s|
  {
    s[j-1 := s[j]][j := s[j-1]]
  }

  lemma MovedDown(s: seq<Entry>, n: nat, j: nat, leq: Order)
    requires IsOrder(leq) && 0 < j <= n && SortedBut(s, n, j, leq) && !leq(s[j-1], s[j])
    ensures SortedBut(Swapped(s, j), n, j - 1, leq)
    ensures multiset(Swapped(s, j)) == multiset(s)
  {
    assert leq(s[j], s[j-1]);
    hide IsOrder;
  }

  method Swap(a: array<Entry>, j: nat)
    requires 0 < j < a.Length
    modifies a
    ensures a[..] == Swapped(old(a[..]), j)
  {
    a[j-1], a[j] := a[j], a[j-1];
  }

  /** Moves the entry at `n` down to its place among those before it. */
  method SiftDown(a: array<Entry>, n: nat, leq: Order)
    requires n < a.Length && IsOrder(leq) && Sorted(a[..n], leq)
    modifies a
    ensures Sorted(a[..n+1], leq)
    ensures multiset(a[..]) == multiset(old(a[..]))
  {
    LastUnsorted(a[..], n, leq);
    hide IsOrder, Sorted, SortedBut, Swapped;
    var j: nat := n;
    while j > 0 && !leq(a[j-1], a[j])
      invariant j <= n
      invariant SortedBut(a[..], n, j, leq)
      invariant multiset(a[..]) == multiset(old(a[..]))
    {
      MovedDown(a[..], n, j, leq);
      Swap(a, j);
      j := j - 1;
    }
    Settled(a[..], n, j, leq);
    assert a[..][..n+1] == a[..n+1];
  }

  lemma LastUnsorted(s: seq<Entry>, n: nat, leq: Order)
    requires n < |s| && Sorted(s[..n], leq)
    ensures SortedBut(s, n, n, leq)
  {
    assert forall p :: 0 <= p < n ==> s[p] == s[..n][p];
  }

  /** An unstable sort: entries of equal keys may end up in any order. */
  method Sort(a: array<Entry>, leq: Order)
    requires IsOrder(leq)
    modifies a
    ensures Sorted(a[..], leq)
    ensures multiset(a[..]) == multiset(old(a[..]))
  {
    for n := 0 to a.Length
      invariant Sorted(a[..n], leq)
      invariant multiset(a[..]) == multiset(old(a[..]))
    {
      SiftDown(a, n, leq);
    }
    assert a[..a.Length] == a[..];
  }

  function ByAddress(): Order { (a: Entry, b: Entry) => a.addr <= b.addr }

  function ByName(buffer: Name): Order {
    (a: Entry, b: Entry) => NameLeq(Read(buffer, a.range), Read(buffer, b.range))
  }

  lemma ByNameIsOrder(buffer: Name)
    ensures IsOrder(ByName(buffer))
  {
    hide NameLeq;
    var leq := ByName(buffer);
    forall a, b ensures leq(a, b) || leq(b, a) {
      NameOrder(Read(buffer, a.range), Read(buffer, b.range), []);
    }
    forall a, b, c | leq(a, b) && leq(b, c) ensures leq(a, c) {
      NameOrder(Read(buffer, a.range), Read(buffer, b.range), Read(buffer, c.range));
    }
  }

  lemma RemovedAt<T>(s: seq<T>, k: nat)
    requires k < |s|
    ensures multiset(s) == multiset(s[..k] + s[k+1..]) + multiset{s[k]}
  {
    assert s == s[..k] + [s[k]] + s[k+1..];
  }

  lemma Cancel<T>(x: multiset<T>, y: multiset<T>, c: T)
    requires x + multiset{c} == y + multiset{c}
    ensures x == y
  {
    assert x == (x + multiset{c}) - multiset{c};
    assert y == (y + multiset{c}) - multiset{c};
  }

  lemma RestsPermute<T>(a: seq<T>, b: seq<T>, k: nat)
    requires multiset(a) == multiset(b) && a != [] && k < |b| && b[k] == a[0]
    ensures multiset(a[1..]) == multiset(b[..k] + b[k+1..])
  {
    RemovedAt(a, 0);
    RemovedAt(b, k);
    assert a[..0] + a[1..] == a[1..];
    Cancel(multiset(a[1..]), multiset(b[..k] + b[k+1..]), a[0]);
  }

  lemma FirstIsIn<T>(a: seq<T>, b: seq<T>) returns (k: nat)
    requires multiset(a) == multiset(b) && a != []
    ensures k < |b| && b[k] == a[0]
  {
    assert a[0] in multiset(b);
    k :| 0 <= k < |b| && b[k] == a[0];
  }

  /** Permuting entries permutes what they stand for. */
  lemma {:induction false} SymbolsPermute(buffer: Name, a: seq<Entry>, b: seq<Entry>)
    requires multiset(a) == multiset(b)
    ensures multiset(Symbols(buffer, a)) == multiset(Symbols(buffer, b))
  {
    hide Read, Symbols;
    if a == [] {
      assert |multiset(b)| == 0;
    } else {
      var k := FirstIsIn(a, b);
      RestsPermute(a, b, k);
      SymbolsPermute(buffer, a[1..], b[..k] + b[k+1..]);
      SymbolsWithoutFirst(buffer, a);
      SymbolsWithout(buffer, b, k);
    }
  }

  lemma SymbolsWithoutFirst(buffer: Name, s: seq<Entry>)
    requires s != []
    ensures multiset(Symbols(buffer, s))
            == multiset(Symbols(buffer, s[1..])) + multiset{Symbol(s[0].addr, Read(buffer, s[0].range))}
  {
    hide Symbols, Read;
    SymbolsWithout(buffer, s, 0);
    assert s[..0] + s[0+1..] == s[1..];
  }

  lemma SymbolsWithout(buffer: Name, s: seq<Entry>, k: nat)
    requires k < |s|
    ensures multiset(Symbols(buffer, s))
            == multiset(Symbols(buffer, s[..k] + s[k+1..])) + multiset{Symbol(s[k].addr, Read(buffer, s[k].range))}
  {
    hide Read;
    var all := Symbols(buffer, s);
    RemovedAt(all, k);
    assert Symbols(buffer, s[..k] + s[k+1..]) == all[..k] + all[k+1..];
  }

  // ---- Building

  /** The two tables index exactly the symbols `pushed`. */
  ghost predicate Indexes(m: ModuleSymbols, pushed: seq<Symbol>) {
    && (forall e :: e in m.symbols ==> InBuffer(m.buffer, e.range))
    && (forall e :: e in m.addresses ==> InBuffer(m.buffer, e.range))
    && multiset(Symbols(m.buffer, m.symbols)) == multiset(pushed)
    && multiset(Symbols(m.buffer, m.addresses)) == multiset(pushed)
    && Sorted(m.symbols, ByAddress())
    && Sorted(m.addresses, ByName(m.buffer))
  }

  class ModuleSymbolsBuilder {
    var buffer: Name
    var symbols: seq<Entry>

    ghost predicate Valid()
      reads this
    {
      forall e :: e in symbols ==> InBuffer(buffer, e.range)
    }

    /** What the builder holds: every symbol reads back the name it was pushed with. */
    ghost function Pushed(): seq<Symbol>
      reads this
    {
      Symbols(buffer, symbols)
    }

    constructor ()
      ensures Valid() && Pushed() == []
    {
      buffer, symbols := [], [];
    }

    method Push(addr: u64, symbol: Name)
      requires Valid()
      modifies this
      ensures Valid()
      ensures Pushed() == old(Pushed()) + [Symbol(addr, symbol)]
    {
      var start := |buffer|;
      buffer := buffer + symbol;
      var end := |buffer|;
      assert buffer[start..end] == symbol;
      forall e | e in symbols
        ensures InBuffer(buffer, e.range) && Read(buffer, e.range) == old(Read(buffer, e.range))
      {
        GrownBuffer(old(buffer), symbol, e.range);
      }
      symbols := symbols + [Entry(addr, Range(start, end))];
    }

    method Extend(items: seq<Symbol>)
      requires Valid()
      modifies this
      ensures Valid()
      ensures Pushed() == old(Pushed()) + items
    {
      assert old(Pushed()) + items[..0] == old(Pushed());
      for i := 0 to |items|
        invariant Valid()
        invariant Pushed() == old(Pushed()) + items[..i]
      {
        Push(items[i].addr, items[i].name);
        assert items[..i+1] == items[..i] + [items[i]];
      }
      assert items[..|items|] == items;
    }

    method Build() returns (m: ModuleSymbols)
      requires Valid()
      ensures Indexes(m, Pushed())
      ensures multiset(m.symbols) == multiset(m.addresses) == multiset(symbols)
    {
      hide NameLeq, Sorted, IsOrder, ByAddress, ByName, Read, InBuffer, Symbols;
      var unsorted := symbols;
      var names := new Entry[|unsorted|](i requires 0 <= i < |unsorted| => unsorted[i]);
      assert names[..] == unsorted;
      ByAddressIsOrder();
      Sort(names, ByAddress());
      var byAddress := names[..];
      ByNameIsOrder(buffer);
      Sort(names, ByName(buffer));
      m := ModuleSymbols(buffer, byAddress, names[..]);
      SymbolsPermute(buffer, m.symbols, unsorted);
      SymbolsPermute(buffer, m.addresses, unsorted);
      SameEntries(m.symbols, unsorted);
      SameEntries(m.addresses, unsorted);
    }
  }

  lemma SameEntries(a: seq<Entry>, b: seq<Entry>)
    requires multiset(a) == multiset(b)
    ensures forall e :: e in a <==> e in b
  {
    assert forall e :: e in a <==> e in multiset(a);
    assert forall e :: e in b <==> e in multiset(b);
  }

  lemma ByAddressIsOrder()
    ensures IsOrder(ByAddress())
  {
  }

  lemma GrownBuffer(buffer: Name, symbol: Name, r: Range)
    requires InBuffer(buffer, r)
    ensures InBuffer(buffer + symbol, r) && Read(buffer + symbol, r) == Read(buffer, r)
  {
  }

  // ---- Looking up

  datatype Ordering = Less | Equal | Greater

  datatype Position = Found(index: nat) | Insert(index: nat)

  /** What a comparison with the key says of a sorted table: less, then equal, then greater. */
  ghost predicate Ascends(s: seq<Entry>, compare: Entry -> Ordering) {
    forall i, j :: 0 <= i < j < |s| ==>
      && (compare(s[j]) == Less ==> compare(s[i]) == Less)
      && (compare(s[i]) == Greater ==> compare(s[j]) == Greater)
  }

  /** A binary search that may probe anywhere in the range left. */
  method BinarySearch(s: seq<Entry>, compare: Entry -> Ordering) returns (pos: Position)
    requires Ascends(s, compare)
    ensures pos.Found? ==> pos.index < |s| && compare(s[pos.index]) == Equal
    ensures pos.Insert? ==>
              && pos.index <= |s|
              && (forall k :: 0 <= k < pos.index ==> compare(s[k]) == Less)
              && (forall k :: pos.index <= k < |s| ==> compare(s[k]) == Greater)
  {
    var lo, hi := 0, |s|;
    while lo < hi
      invariant 0 <= lo <= hi <= |s|
      invariant forall k :: 0 <= k < lo ==> compare(s[k]) == Less
      invariant forall k :: hi <= k < |s| ==> compare(s[k]) == Greater
    {
      var mid :| lo <= mid < hi;
      match compare(s[mid]) {
        case Less => lo := mid + 1;
        case Equal => return Found(mid);
        case Greater => hi := mid;
      }
    }
    pos := Insert(lo);
  }

  function CompareAddress(addr: u64): Entry -> Ordering {
    (e: Entry) => if e.addr < addr then Less else if e.addr == addr then Equal else Greater
  }

  function CompareName(buffer: Name, name: Name): Entry -> Ordering {
    (e: Entry) =>
      var n := Read(buffer, e.range);
      if n == name then Equal else if NameLeq(n, name) then Less else Greater
  }

  lemma CompareNameAscends(s: seq<Entry>, buffer: Name, name: Name)
    requires Sorted(s, ByName(buffer))
    ensures Ascends(s, CompareName(buffer, name))
  {
    hide NameLeq;
    var compare, leq := CompareName(buffer, name), ByName(buffer);
    forall i, j | 0 <= i < j < |s|
      ensures compare(s[j]) == Less ==> compare(s[i]) == Less
      ensures compare(s[i]) == Greater ==> compare(s[j]) == Greater
    {
      var a, b := Read(buffer, s[i].range), Read(buffer, s[j].range);
      assert leq(s[i], s[j]);
      NameOrder(a, b, name);
      NameOrder(b, a, name);
      NameOrder(b, name, a);
      NameOrder(a, name, b);
      NameOrder(name, b, a);
      NameOrder(name, a, b);
    }
  }

  /** The entries of a table and the symbols pushed are the same things. */
  lemma EntriesAreSymbols(buffer: Name, entries: seq<Entry>, pushed: seq<Symbol>)
    requires multiset(Symbols(buffer, entries)) == multiset(pushed)
    ensures forall k :: 0 <= k < |entries| ==> Symbol(entries[k].addr, Read(buffer, entries[k].range)) in pushed
    ensures forall x :: x in pushed ==>
              exists k :: 0 <= k < |entries| && x == Symbol(entries[k].addr, Read(buffer, entries[k].range))
  {
    var s := Symbols(buffer, entries);
    forall k | 0 <= k < |entries| ensures s[k] in pushed {
      assert s[k] in multiset(s);
    }
    forall x | x in pushed ensures exists k :: 0 <= k < |s| && x == s[k] {
      assert x in multiset(pushed);
    }
  }

  lemma IndexParts(m: ModuleSymbols, pushed: seq<Symbol>)
    requires Indexes(m, pushed)
    ensures multiset(Symbols(m.buffer, m.symbols)) == multiset(Symbols(m.buffer, m.addresses)) == multiset(pushed)
    ensures Sorted(m.symbols, ByAddress()) && Sorted(m.addresses, ByName(m.buffer))
  {
  }

  datatype ModuleSymbols = ModuleSymbols(buffer: Name, symbols: seq<Entry>, addresses: seq<Entry>) {

    /** A name pushed for that very address, if there is one. */
    method GetSymbol(addr: u64, ghost pushed: seq<Symbol>) returns (name: Option<Name>)
      requires Indexes(this, pushed)
      ensures name.Some? ==> Symbol(addr, name.value) in pushed
      ensures name.None? ==> forall x :: x in pushed ==> x.addr != addr
    {
      EntriesAreSymbols(buffer, symbols, pushed);
      var pos := BinarySearch(symbols, CompareAddress(addr));
      name := if pos.Found? then Some(Read(buffer, symbols[pos.index].range)) else None;
    }

    /** A symbol with the greatest address not above the query, and how far below it is. */
    method GetSymbolInexact(addr: u64, ghost pushed: seq<Symbol>) returns (r: Option<(Name, u64)>)
      requires Indexes(this, pushed)
      ensures r.Some? ==>
                && r.value.1 <= addr
                && Symbol(addr - r.value.1, r.value.0) in pushed
                && (forall x :: x in pushed && x.addr <= addr ==> x.addr <= addr - r.value.1)
      ensures r.None? ==> forall x :: x in pushed ==> addr < x.addr
    {
      hide Symbols, InBuffer, Read, ByName, Indexes;
      IndexParts(this, pushed);
      EntriesAreSymbols(buffer, symbols, pushed);
      var pos := BinarySearch(symbols, CompareAddress(addr));
      match pos {
        case Found(i) => r := Some((Read(buffer, symbols[i].range), 0));
        case Insert(i) =>
          if i == 0 {
            r := None;
          } else {
            var e := symbols[i-1];
            assert CompareAddress(addr)(e) == Less;
            r := Some((Read(buffer, e.range), addr - e.addr));
            assert Symbol(e.addr, Read(buffer, e.range)) in pushed;
            NothingBetween(symbols, addr, i);
          }
      }
    }

    /** An address pushed for that name, exactly if there is one. */
    method GetAddress(name: Name, ghost pushed: seq<Symbol>) returns (addr: Option<u64>)
      requires Indexes(this, pushed)
      ensures addr.Some? ==> Symbol(addr.value, name) in pushed
      ensures addr.None? ==> forall x :: x in pushed ==> x.name != name
    {
      hide NameLeq;
      EntriesAreSymbols(buffer, addresses, pushed);
      CompareNameAscends(addresses, buffer, name);
      var compare := CompareName(buffer, name);
      var pos := BinarySearch(addresses, compare);
      if pos.Found? {
        addr := Some(addresses[pos.index].addr);
        assert Symbol(addr.value, Read(buffer, addresses[pos.index].range)) in pushed;
      } else {
        addr := None;
        forall x | x in pushed ensures x.name != name {
          var k :| 0 <= k < |addresses| && x == Symbol(addresses[k].addr, Read(buffer, addresses[k].range));
          assert compare(addresses[k]) != Equal;
        }
      }
    }
  }

  lemma NothingBetween(s: seq<Entry>, addr: u64, i: nat)
    requires Sorted(s, ByAddress()) && 0 < i <= |s|
    requires forall k :: i <= k < |s| ==> CompareAddress(addr)(s[k]) == Greater
    ensures forall k :: 0 <= k < |s| && s[k].addr <= addr ==> s[k].addr <= s[i-1].addr
  {
    forall k | 0 <= k < |s| && s[k].addr <= addr ensures s[k].addr <= s[i-1].addr {
      if k < i - 1 {
        assert ByAddress()(s[k], s[i-1]);
      }
    }
  }
}
