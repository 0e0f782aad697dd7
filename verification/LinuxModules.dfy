/** The modules of a Linux process, found along the linked list of its memory areas, and the two
    lookups of a module by address: a scan of that list, and a binary search of a table made of it. */
module LinuxModules {
  import opened Outcomes
  import opened Bytes
  import opened ModuleLookup

  datatype VmError = Unreadable

  /** A `vm_area_struct`; zero is the null pointer. The path of its file may be unreadable. */
  datatype VmArea = VmArea(start: u64, end: u64, file: u64, pathReads: bool, pgoff: nat, next: u64)

  /** The areas that can be read, by address. */
  type Memory = map<u64, VmArea>

  datatype Area = Area(address: u64, start: u64, end: u64, file: u64, pathReads: bool, pgoff: nat) {
    /** The first mapping of a file. */
    predicate IsModule() { pgoff * 4096 == 0 && file != 0 }
  }

  /** Following the list from `head` meets `areas`, then its end, or a pointer that cannot be read. */
  ghost predicate Chain(mem: Memory, head: u64, areas: seq<Area>, whole: bool)
    decreases |areas|
  {
    if areas == [] then
      if whole then head == 0 else head != 0 && head !in mem
    else
      && head != 0 && head in mem && head == areas[0].address
      && areas[0] == Area(head, mem[head].start, mem[head].end, mem[head].file, mem[head].pathReads, mem[head].pgoff)
      && Chain(mem, mem[head].next, areas[1..], whole)
  }

  // ---- Spans

  /** How many areas from the first on map its file, one after the other. */
  function Run(areas: seq<Area>): (n: nat)
    requires areas != []
    ensures 0 < n <= |areas|
    ensures forall k :: 0 <= k < n ==> areas[k].file == areas[0].file
    ensures n < |areas| ==> areas[n].file != areas[0].file
  {
    if |areas| > 1 && areas[1].file == areas[0].file then 1 + Run(areas[1..]) else 1
  }

  /** The span of the module the list starts with; its end is known only once the run is. */
  function Span(areas: seq<Area>, whole: bool): Result<(u64, u64), VmError>
    requires areas != []
  {
    if Run(areas) == |areas| && !whole then Err(Unreadable) else Ok((areas[0].start, areas[Run(areas) - 1].end))
  }

  method ModuleSpan(mem: Memory, first: u64, ghost areas: seq<Area>, ghost whole: bool)
    returns (span: Result<(u64, u64), VmError>)
    requires areas != [] && Chain(mem, first, areas, whole)
    ensures span == Span(areas, whole)
  {
    var file, start := mem[first].file, mem[first].start;
    var current := first;
    ghost var rest := areas;
    while true
      invariant rest != [] && Chain(mem, current, rest, whole)
      invariant |rest| <= |areas| && rest == areas[|areas| - |rest|..]
      invariant rest[0].file == file == areas[0].file
      invariant Run(areas) == |areas| - |rest| + Run(rest)
      decreases |rest|
    {
      var next := mem[current].next;
      assert Chain(mem, next, rest[1..], whole);
      if next == 0 {
        assert |rest| == 1;
        return Ok((start, mem[current].end));
      }
      if next !in mem {
        return Err(Unreadable);
      }
      if mem[next].file != file {
        return Ok((start, mem[current].end));
      }
      current := next;
      rest := rest[1..];
    }
  }

  // ---- The table

  function ModuleOf(areas: seq<Area>): Module
    requires areas != []
  {
    Module(areas[0].start, areas[Run(areas) - 1].end, areas[0].address)
  }

  function ModuleList(areas: seq<Area>): seq<Module> {
    if areas == [] then []
    else (if areas[0].IsModule() then [ModuleOf(areas)] else []) + ModuleList(areas[1..])
  }

  ghost predicate PathsRead(areas: seq<Area>) {
    forall area :: area in areas && area.IsModule() ==> area.pathReads
  }

  lemma PathsReadStep(areas: seq<Area>)
    requires areas != []
    ensures PathsRead(areas) <==> (areas[0].IsModule() ==> areas[0].pathReads) && PathsRead(areas[1..])
  {
    assert forall area :: area in areas <==> area == areas[0] || area in areas[1..];
  }

  lemma NoPaths()
    ensures PathsRead([])
  {
  }

  lemma SpanIsModule(areas: seq<Area>, whole: bool)
    requires areas != []
    ensures Span(areas, whole).Err? ==> !whole && Span(areas, whole).error == Unreadable
    ensures Span(areas, whole).Ok? ==>
              var (start, end) := Span(areas, whole).value; ModuleOf(areas) == Module(start, end, areas[0].address)
  {
  }

  /** The module table of a new context. */
  method NewContext(mem: Memory, mmap: u64, ghost areas: seq<Area>, ghost whole: bool)
    returns (modules: Result<seq<Module>, VmError>)
    requires Chain(mem, mmap, areas, whole)
    ensures modules == if whole && PathsRead(areas) then Ok(ModuleList(areas)) else Err(Unreadable)
  {
    hide Run, PathsRead, Span;
    NoPaths();
    var found, current := [], mmap;
    ghost var rest := areas;
    assert found + ModuleList(rest) == ModuleList(rest);
    while current != 0
      invariant Chain(mem, current, rest, whole)
      invariant ModuleList(areas) == found + ModuleList(rest)
      invariant PathsRead(areas) <==> PathsRead(rest)
      decreases |rest|
    {
      if current !in mem {
        return Err(Unreadable);
      }
      var area := mem[current];
      PathsReadStep(rest);
      if area.pgoff * 4096 == 0 && area.file != 0 {
        if !area.pathReads {
          return Err(Unreadable);
        }
        var span := ModuleSpan(mem, current, rest, whole);
        SpanIsModule(rest, whole);
        match span {
          case Err(e) => return Err(e);
          case Ok(s) =>
            assert found + ModuleList(rest) == found + [Module(s.0, s.1, current)] + ModuleList(rest[1..]);
            found := found + [Module(s.0, s.1, current)];
        }
      }
      current := area.next;
      rest := rest[1..];
    }
    assert found + [] == found;
    modules := Ok(found);
  }

  // ---- The scan

  /** The scan computes spans as it goes, so that a broken list fails it only if it gets there. */
  function ScanAnswer(areas: seq<Area>, whole: bool, addr: u64): Result<Option<u64>, VmError> {
    if areas == [] then (if whole then Ok(None) else Err(Unreadable))
    else if !areas[0].IsModule() then ScanAnswer(areas[1..], whole, addr)
    else if !areas[0].pathReads then Err(Unreadable)
    else
      match Span(areas, whole)
      case Err(e) => Err(e)
      case Ok((start, end)) =>
        if start <= addr < end then Ok(Some(areas[0].address)) else ScanAnswer(areas[1..], whole, addr)
  }

  predicate IsKernel(addr: u64) { addr >= 0x8000_0000_0000_0000 }

  /** There are no modules of the kernel to look among. */
  function LinearAnswer(areas: seq<Area>, whole: bool, addr: u64): Result<Option<u64>, VmError> {
    if IsKernel(addr) then Ok(None) else ScanAnswer(areas, whole, addr)
  }

  method ScanForModule(mem: Memory, mmap: u64, addr: u64, ghost areas: seq<Area>, ghost whole: bool)
    returns (found: Result<Option<u64>, VmError>)
    requires Chain(mem, mmap, areas, whole)
    ensures found == LinearAnswer(areas, whole, addr)
  {
    if IsKernel(addr) {
      return Ok(None);
    }
    var current := mmap;
    ghost var rest := areas;
    while current != 0
      invariant Chain(mem, current, rest, whole)
      invariant ScanAnswer(areas, whole, addr) == ScanAnswer(rest, whole, addr)
      decreases |rest|
    {
      if current !in mem {
        return Err(Unreadable);
      }
      var area := mem[current];
      if area.pgoff * 4096 == 0 && area.file != 0 {
        if !area.pathReads {
          return Err(Unreadable);
        }
        var span := ModuleSpan(mem, current, rest, whole);
        match span {
          case Err(e) => return Err(e);
          case Ok(s) =>
            if s.0 <= addr < s.1 {
              return Ok(Some(current));
            }
        }
      }
      current := area.next;
      rest := rest[1..];
    }
    found := Ok(None);
  }

  function AddressOf(m: Option<Module>): Option<u64> {
    match m case None => None case Some(found) => Some(found.address)
  }

  /** On a list that can be read to its end, the scan finds the first module of the table that
      contains the address, unless it fails on a path before. */
  lemma {:induction false} ScanIsFirstContaining(areas: seq<Area>, addr: u64)
    ensures ScanAnswer(areas, true, addr).Ok? ==>
              ScanAnswer(areas, true, addr).value == AddressOf(FirstContaining(ModuleList(areas), addr))
    ensures PathsRead(areas) ==> ScanAnswer(areas, true, addr).Ok?
  {
    if areas != [] {
      ScanIsFirstContaining(areas[1..], addr);
      PathsReadStep(areas);
      var rest := ModuleList(areas[1..]);
      if areas[0].IsModule() {
        assert ModuleList(areas) == [ModuleOf(areas)] + rest;
        assert ModuleList(areas)[1..] == rest;
      } else {
        assert ModuleList(areas) == rest;
      }
    }
  }

  // ---- What both are, on any list

  /** The area is the first mapping of a file. */
  predicate StartsFile(area: Area) { area.pgoff == 0 && area.file != 0 }

  /** Areas `i` to `j` map one file, and the one after does not. */
  ghost predicate RunTo(areas: seq<Area>, i: int, j: int) {
    && 0 <= i <= j < |areas|
    && (forall k :: i <= k <= j ==> areas[k].file == areas[i].file)
    && (j + 1 < |areas| ==> areas[j + 1].file != areas[i].file)
  }

  lemma RunToIs(areas: seq<Area>)
    requires areas != []
    ensures RunTo(areas, 0, Run(areas) - 1)
  {
  }

  lemma {:induction false} RunIs(areas: seq<Area>, j: int)
    requires RunTo(areas, 0, j)
    ensures Run(areas) == j + 1
  {
    if j > 0 {
      assert areas[1].file == areas[0].file;
      RunIs(areas[1..], j - 1);
    }
  }

  lemma RunLater(areas: seq<Area>, i: int, j: int)
    requires areas != [] && i >= 0
    ensures RunTo(areas[1..], i, j) <==> RunTo(areas, i + 1, j + 1)
  {
    var rest := areas[1..];
    if RunTo(areas, i + 1, j + 1) {
      forall k | i <= k <= j ensures rest[k].file == rest[i].file {
        assert areas[k + 1].file == areas[i + 1].file;
      }
    }
    if RunTo(rest, i, j) {
      forall k | i + 1 <= k <= j + 1 ensures areas[k].file == areas[i + 1].file {
        assert rest[k - 1].file == rest[i].file;
      }
    }
  }

  /** The module of the run from area `i` to `j`. */
  ghost predicate Spans(areas: seq<Area>, m: Module, i: int, j: int) {
    RunTo(areas, i, j) && StartsFile(areas[i]) && m == Module(areas[i].start, areas[j].end, areas[i].address)
  }

  lemma SpansLater(areas: seq<Area>, m: Module, i: int, j: int)
    requires areas != [] && i >= 0
    ensures Spans(areas[1..], m, i, j) <==> Spans(areas, m, i + 1, j + 1)
  {
    RunLater(areas, i, j);
  }

  lemma SpansFirst(areas: seq<Area>, m: Module)
    requires areas != []
    ensures (exists j :: Spans(areas, m, 0, j)) <==> areas[0].IsModule() && m == ModuleOf(areas)
  {
    RunToIs(areas);
    if j :| Spans(areas, m, 0, j) {
      RunIs(areas, j);
    }
    if areas[0].IsModule() && m == ModuleOf(areas) {
      assert Spans(areas, m, 0, Run(areas) - 1);
    }
  }

  /** The table holds exactly the modules that start at the first mapping of a file and end with
      the run of areas that map it. */
  lemma {:induction false} ModulesExactly(areas: seq<Area>, m: Module)
    ensures m in ModuleList(areas) <==> exists i, j :: Spans(areas, m, i, j)
  {
    if areas != [] {
      var rest := areas[1..];
      ModulesExactly(rest, m);
      SpansFirst(areas, m);
      hide Spans, ModuleOf, Run;
      if i, j :| Spans(areas, m, i, j) {
        assert i >= 0 by { SpansBounds(areas, m, i, j); }
        if i > 0 {
          SpansLater(areas, m, i - 1, j - 1);
          assert Spans(rest, m, i - 1, j - 1);
        }
      }
      if i, j :| Spans(rest, m, i, j) {
        SpansBounds(rest, m, i, j);
        SpansLater(areas, m, i, j);
        assert Spans(areas, m, i + 1, j + 1);
      }
    } else {
      forall i, j ensures !Spans(areas, m, i, j) {}
    }
  }

  lemma SpansBounds(areas: seq<Area>, m: Module, i: int, j: int)
    requires Spans(areas, m, i, j)
    ensures i >= 0
  {
  }

  /** Area `i` does not decide the scan. */
  ghost predicate Passes(areas: seq<Area>, whole: bool, addr: u64, i: nat)
    requires i < |areas|
  {
    StartsFile(areas[i]) ==>
      && areas[i].pathReads
      && exists j :: RunTo(areas, i, j) && (whole || j + 1 < |areas|) && !(areas[i].start <= addr < areas[j].end)
  }

  /** Area `i` decides the scan: the address is in its module, or it cannot be read. */
  ghost predicate Decides(areas: seq<Area>, whole: bool, addr: u64, i: nat, r: Result<Option<u64>, VmError>)
    requires i < |areas|
  {
    && StartsFile(areas[i])
    && exists j :: RunTo(areas, i, j) &&
         if !areas[i].pathReads || (!whole && j + 1 == |areas|) then r == Err(Unreadable)
         else areas[i].start <= addr < areas[j].end && r == Ok(Some(areas[i].address))
  }

  lemma PassesLater(areas: seq<Area>, whole: bool, addr: u64, i: nat, r: Result<Option<u64>, VmError>)
    requires i + 1 < |areas|
    ensures Passes(areas[1..], whole, addr, i) ==> Passes(areas, whole, addr, i + 1)
    ensures Decides(areas[1..], whole, addr, i, r) ==> Decides(areas, whole, addr, i + 1, r)
  {
    var rest := areas[1..];
    forall j | RunTo(rest, i, j) ensures RunTo(areas, i + 1, j + 1) {
      RunLater(areas, i, j);
    }
  }

  /** The scan of user addresses is decided by the first area that decides it, or by the end of the
      list, if it can be read to its end; there are no modules of the kernel. */
  lemma {:induction false} ScanDecided(areas: seq<Area>, whole: bool, addr: u64) returns (i: nat)
    requires addr < 0x8000_0000_0000_0000
    ensures i <= |areas| && forall k :: 0 <= k < i ==> Passes(areas, whole, addr, k)
    ensures var r := LinearAnswer(areas, whole, addr);
            if i < |areas| then Decides(areas, whole, addr, i, r)
            else r == if whole then Ok(None) else Err(Unreadable)
  {
    hide Passes, Decides;
    if areas == [] {
      i := 0;
    } else {
      FirstArea(areas, whole, addr);
      if Passes(areas, whole, addr, 0) {
        var later := ScanDecided(areas[1..], whole, addr);
        i := later + 1;
        forall k | 0 <= k < i ensures Passes(areas, whole, addr, k) {
          if k > 0 { PassesLater(areas, whole, addr, k - 1, Ok(None)); }
        }
        if i < |areas| { PassesLater(areas, whole, addr, later, LinearAnswer(areas, whole, addr)); }
      } else {
        i := 0;
      }
    }
  }

  lemma FirstArea(areas: seq<Area>, whole: bool, addr: u64)
    requires areas != []
    ensures Passes(areas, whole, addr, 0) ==> ScanAnswer(areas, whole, addr) == ScanAnswer(areas[1..], whole, addr)
    ensures !Passes(areas, whole, addr, 0) ==> Decides(areas, whole, addr, 0, ScanAnswer(areas, whole, addr))
  {
    RunToIs(areas);
    forall j | RunTo(areas, 0, j) ensures j == Run(areas) - 1 {
      RunIs(areas, j);
    }
  }

  lemma NoKernelModules(areas: seq<Area>, whole: bool, addr: u64)
    ensures addr >= 0x8000_0000_0000_0000 ==> LinearAnswer(areas, whole, addr) == Ok(None)
  {
  }

  // ---- When the two agree

  /** The kernel keeps the areas of a process sorted, disjoint and not empty. */
  ghost predicate Sorted(areas: seq<Area>) {
    && (forall k :: 0 <= k < |areas| ==> areas[k].start < areas[k].end)
    && (forall i, j :: 0 <= i < j < |areas| ==> areas[i].end <= areas[j].start)
  }

  /** No two areas of one run map the beginning of its file. */
  predicate OneModulePerRun(areas: seq<Area>) {
    areas == [] ||
    (&& OneModulePerRun(areas[1..])
     && (areas[0].IsModule() ==> forall k :: 0 < k < Run(areas) ==> !areas[k].IsModule()))
  }

  lemma {:induction false} ModulesStartAfter(areas: seq<Area>)
    requires Sorted(areas)
    ensures StartsAscend(ModuleList(areas))
    ensures forall m :: m in ModuleList(areas) ==> areas != [] && areas[0].start <= m.start
  {
    if areas != [] {
      ModulesStartAfter(areas[1..]);
      var rest := ModuleList(areas[1..]);
      forall m | m in rest ensures areas[0].start < areas[0].end <= m.start {
        assert areas[1..][0] == areas[1];
      }
      var last := areas[Run(areas) - 1];
      assert areas[0].start <= last.start < last.end;
    }
  }

  lemma {:induction false} NoModulesIn(areas: seq<Area>, n: nat)
    requires n <= |areas| && forall k :: 0 <= k < n ==> !areas[k].IsModule()
    ensures ModuleList(areas) == ModuleList(areas[n..])
  {
    if n == 0 {
      assert areas[0..] == areas;
    } else {
      NoModulesIn(areas[1..], n - 1);
      assert areas[1..][n - 1..] == areas[n..];
    }
  }

  lemma {:induction false} ModuleAt(areas: seq<Area>, k: nat)
    requires k < |areas| && areas[k].IsModule()
    ensures exists m :: m in ModuleList(areas) && m.start == areas[k].start
  {
    if k == 0 {
      assert ModuleOf(areas) in ModuleList(areas);
    } else {
      ModuleAt(areas[1..], k - 1);
    }
  }

  /** An area of the run after the first starts before the run ends. */
  lemma StartsInRun(areas: seq<Area>, k: nat)
    requires Sorted(areas) && areas != [] && 0 < k < Run(areas)
    ensures areas[k].start < ModuleOf(areas).end
  {
    var last := Run(areas) - 1;
    assert k < last ==> areas[k].end <= areas[last].start;
  }

  /** A second area of the run that maps the beginning of the file: its span starts inside. */
  lemma {:induction false} SecondOverlaps(areas: seq<Area>, k: nat)
    requires Sorted(areas) && areas != [] && areas[0].IsModule() && 0 < k < Run(areas) && areas[k].IsModule()
    ensures !Disjoint(ModuleList(areas))
  {
    hide Sorted;
    StartsInRun(areas, k);
    ModuleAt(areas[1..], k - 1);
    var m :| m in ModuleList(areas[1..]) && m.start == areas[1..][k - 1].start;
    NotDisjoint(ModuleOf(areas), ModuleList(areas[1..]), m);
  }

  lemma NotDisjoint(first: Module, rest: seq<Module>, m: Module)
    requires m in rest && m.start < first.end
    ensures !Disjoint([first] + rest)
  {
    var j :| 0 <= j < |rest| && rest[j] == m;
    var all := [first] + rest;
    assert all[0] == first && all[j + 1] == m;
  }

  /** No such area: all later spans start after this one ends. */
  lemma {:induction false} NoSecond(areas: seq<Area>)
    requires Sorted(areas) && areas != [] && forall k :: 0 < k < Run(areas) ==> !areas[k].IsModule()
    ensures forall m :: m in ModuleList(areas[1..]) ==> ModuleOf(areas).end <= m.start
  {
    var run := Run(areas);
    NoModulesIn(areas[1..], run - 1);
    assert areas[1..][run - 1..] == areas[run..];
    ModulesStartAfter(areas[run..]);
    if run < |areas| {
      assert areas[run..][0] == areas[run];
      assert areas[run - 1].end <= areas[run].start;
    }
  }

  /** The spans collected are disjoint exactly if no run has two areas that start its file. */
  lemma {:induction false} DisjointExactly(areas: seq<Area>)
    requires Sorted(areas)
    ensures Disjoint(ModuleList(areas)) <==> OneModulePerRun(areas)
  {
    hide Disjoint, Run;
    if areas == [] {
      assert Disjoint([]) by { NoneIsDisjoint(); }
    } else {
      var rest := ModuleList(areas[1..]);
      DisjointExactly(areas[1..]);
      if areas[0].IsModule() {
        assert ModuleList(areas) == [ModuleOf(areas)] + rest;
        if Disjoint(ModuleList(areas)) {
          DisjointTail(ModuleOf(areas), rest);
        }
        if k :| 0 < k < Run(areas) && areas[k].IsModule() {
          SecondOverlaps(areas, k);
        } else {
          NoSecond(areas);
          if Disjoint(rest) {
            DisjointCons(ModuleOf(areas), rest);
          }
        }
      } else {
        assert ModuleList(areas) == rest;
      }
    }
  }

  lemma NoneIsDisjoint()
    ensures Disjoint([])
  {
  }

  lemma DisjointTail(m: Module, rest: seq<Module>)
    requires Disjoint([m] + rest)
    ensures Disjoint(rest)
  {
    forall i, j | 0 <= i < j < |rest| ensures rest[i].end <= rest[j].start {
      assert ([m] + rest)[i + 1] == rest[i] && ([m] + rest)[j + 1] == rest[j];
    }
  }

  lemma DisjointCons(m: Module, rest: seq<Module>)
    requires Disjoint(rest) && forall x :: x in rest ==> m.end <= x.start
    ensures Disjoint([m] + rest)
  {
  }

  /** The two lookups give the same module at every address exactly if no run of areas of one file
      has two that map its beginning: then, and only then, the spans are disjoint. */
  lemma LookupsAgreeExactly(areas: seq<Area>)
    requires Sorted(areas)
    ensures (forall addr: u64 :: FirstContaining(ModuleList(areas), addr) == Nearest(ModuleList(areas), addr))
            <==> OneModulePerRun(areas)
    ensures StartsAscend(ModuleList(areas))
    ensures Disjoint(ModuleList(areas)) <==> OneModulePerRun(areas)
  {
    hide Sorted, StartsAscend, FirstContaining, Nearest, Disjoint, ModuleList, OneModulePerRun;
    var modules := ModuleList(areas);
    ModulesStartAfter(areas);
    DisjointExactly(areas);
    if Disjoint(modules) {
      forall addr: u64 ensures FirstContaining(modules, addr) == Nearest(modules, addr) {
        AgreeIfDisjoint(modules, addr);
      }
    } else {
      var addr := DifferSomewhere(modules);
    }
  }

  lemma DifferSomewhere(modules: seq<Module>) returns (addr: u64)
    requires StartsAscend(modules) && !Disjoint(modules)
    ensures FirstContaining(modules, addr) != Nearest(modules, addr)
  {
    hide FirstContaining, Nearest, StartsAscend;
    var i, j :| 0 <= i < j < |modules| && modules[j].start < modules[i].end;
    DifferIfOverlapping(modules, i, j);
    addr := modules[j].start;
  }

  /** So, for a process all of whose areas are user memory, the whole lookups give the same module
      at every address, of the kernel or not. */
  lemma LookupsAgree(areas: seq<Area>, addr: u64)
    requires Sorted(areas) && OneModulePerRun(areas) && PathsRead(areas)
    requires forall area :: area in areas ==> area.end <= 0x8000_0000_0000_0000
    ensures LinearAnswer(areas, true, addr) == Ok(AddressOf(Nearest(ModuleList(areas), addr)))
  {
    LookupsAgreeExactly(areas);
    ScanIsFirstContaining(areas, addr);
    NearestContains(ModuleList(areas), addr);
    ModulesEndInUserMemory(areas);
  }

  lemma {:induction false} ModulesEndInUserMemory(areas: seq<Area>)
    requires forall area :: area in areas ==> area.end <= 0x8000_0000_0000_0000
    ensures forall m :: m in ModuleList(areas) ==> m.end <= 0x8000_0000_0000_0000
  {
    if areas != [] {
      ModulesEndInUserMemory(areas[1..]);
      assert areas[Run(areas) - 1] in areas;
    }
  }
}
