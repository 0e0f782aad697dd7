/** Finding the module an address lies in: the scan that takes the first module containing it, and
    the binary search of a table sorted by start that both stack walkers use. */
module ModuleLookup {
  import opened Outcomes
  import opened Bytes

  datatype Module = Module(start: u64, end: u64, address: u64) {
    predicate Contains(addr: u64) { start <= addr && addr < end }
  }

  // ---- The scan

  function FirstContaining(modules: seq<Module>, addr: u64): Option<Module> {
    if modules == [] then None
    else if modules[0].Contains(addr) then Some(modules[0])
    else FirstContaining(modules[1..], addr)
  }

  // ---- The binary search

  ghost predicate StartsAscend(modules: seq<Module>) {
    && (forall i, j :: 0 <= i < j < |modules| ==> modules[i].start < modules[j].start)
    && (forall m :: m in modules ==> m.start < m.end)
  }

  ghost predicate StartsSorted(modules: seq<Module>) {
    forall i, j :: 0 <= i < j < |modules| ==> modules[i].start <= modules[j].start
  }

  lemma AscendIsSorted(modules: seq<Module>)
    requires StartsAscend(modules)
    ensures StartsSorted(modules)
  {
  }

  /** The last module that starts at or before the address, if it contains it. */
  function Nearest(modules: seq<Module>, addr: u64): Option<Module> {
    if modules == [] then None else
    var last := modules[|modules| - 1];
    if last.start <= addr then (if last.Contains(addr) then Some(last) else None)
    else Nearest(modules[..|modules| - 1], addr)
  }

  lemma {:induction false} NearestIs(modules: seq<Module>, addr: u64, i: nat)
    requires i < |modules| && modules[i].start <= addr
    requires forall k :: i < k < |modules| ==> addr < modules[k].start
    ensures Nearest(modules, addr) == if modules[i].Contains(addr) then Some(modules[i]) else None
  {
    if i + 1 < |modules| {
      NearestIs(modules[..|modules| - 1], addr, i);
    }
  }

  lemma {:induction false} NearestIsNone(modules: seq<Module>, addr: u64)
    requires forall k :: 0 <= k < |modules| ==> addr < modules[k].start
    ensures Nearest(modules, addr) == None
  {
    if modules != [] {
      NearestIsNone(modules[..|modules| - 1], addr);
    }
  }

  /** The search may probe anywhere in the range left. Among modules of one start it may find any
      that starts at the address, and none but the last otherwise. */
  method FindModuleByAddress(modules: seq<Module>, addr: u64) returns (found: Option<Module>)
    requires StartsSorted(modules)
    ensures found.Some? ==>
              && found.value in modules
              && found.value.start <= addr && (found.value.start == addr || found.value.Contains(addr))
              && forall m :: m in modules && m.start <= addr ==> m.start <= found.value.start
    ensures found.None? ==>
              && (forall m :: m in modules ==> m.start != addr)
              && forall i :: 0 <= i < |modules| && modules[i].start <= addr && (forall j :: i < j < |modules| ==> addr < modules[j].start)
                   ==> !modules[i].Contains(addr)
    ensures StartsAscend(modules) ==> found == Nearest(modules, addr)
  {
    var lo, hi := 0, |modules|;
    while lo < hi
      invariant 0 <= lo <= hi <= |modules|
      invariant forall k :: 0 <= k < lo ==> modules[k].start < addr
      invariant forall k :: hi <= k < |modules| ==> addr < modules[k].start
    {
      var mid :| lo <= mid < hi;
      if modules[mid].start < addr {
        lo := mid + 1;
      } else if modules[mid].start > addr {
        hi := mid;
      } else {
        assert modules[mid] in modules;
        if StartsAscend(modules) { NearestIs(modules, addr, mid); }
        return Some(modules[mid]);
      }
    }
    if lo == 0 {
      NearestIsNone(modules, addr);
      return None;
    }
    NearestIs(modules, addr, lo - 1);
    var m := modules[lo - 1];
    found := if m.Contains(addr) then Some(m) else None;
  }

  // ---- When the two agree

  ghost predicate Disjoint(modules: seq<Module>) {
    forall i, j :: 0 <= i < j < |modules| ==> modules[i].end <= modules[j].start
  }

  lemma {:induction false} FirstAtMost(modules: seq<Module>, addr: u64, i: nat)
    requires i < |modules| && modules[i].Contains(addr)
    ensures exists k :: 0 <= k <= i && FirstContaining(modules, addr) == Some(modules[k])
  {
    if modules[0].Contains(addr) {
    } else {
      FirstAtMost(modules[1..], addr, i - 1);
      var k :| 0 <= k <= i - 1 && FirstContaining(modules[1..], addr) == Some(modules[1..][k]);
      assert modules[1..][k] == modules[k + 1];
    }
  }

  lemma {:induction false} FirstIsNone(modules: seq<Module>, addr: u64)
    requires forall m :: m in modules ==> !m.Contains(addr)
    ensures FirstContaining(modules, addr) == None
  {
    if modules != [] {
      assert modules[0] in modules;
      FirstIsNone(modules[1..], addr);
    }
  }

  /** Spans that overlap make the lookups differ, and nothing else does. */
  lemma AgreeIfDisjoint(modules: seq<Module>, addr: u64)
    requires StartsAscend(modules) && Disjoint(modules)
    ensures FirstContaining(modules, addr) == Nearest(modules, addr)
  {
    if i :| 0 <= i < |modules| && modules[i].Contains(addr) {
      OnlyOneContains(modules, addr, i);
      NearestIs(modules, addr, i);
    } else {
      FirstIsNone(modules, addr);
      NearestContains(modules, addr);
    }
  }

  lemma OnlyOneContains(modules: seq<Module>, addr: u64, i: nat)
    requires StartsAscend(modules) && Disjoint(modules) && i < |modules| && modules[i].Contains(addr)
    ensures FirstContaining(modules, addr) == Some(modules[i])
    ensures forall k :: i < k < |modules| ==> addr < modules[k].start
  {
    FirstAtMost(modules, addr, i);
    var first :| 0 <= first <= i && FirstContaining(modules, addr) == Some(modules[first]);
    FirstContains(modules, addr);
    Apart(modules, first, i);
    forall k | i < k < |modules| ensures addr < modules[k].start {
      assert modules[i].end <= modules[k].start;
    }
  }

  lemma Apart(modules: seq<Module>, i: nat, j: nat)
    requires Disjoint(modules) && i <= j < |modules|
    ensures i == j || modules[i].end <= modules[j].start
  {
  }

  lemma {:induction false} FirstContains(modules: seq<Module>, addr: u64)
    ensures FirstContaining(modules, addr).Some? ==> FirstContaining(modules, addr).value.Contains(addr)
  {
    if modules != [] {
      FirstContains(modules[1..], addr);
    }
  }

  lemma {:induction false} NearestContains(modules: seq<Module>, addr: u64)
    ensures Nearest(modules, addr).Some? ==>
              Nearest(modules, addr).value in modules && Nearest(modules, addr).value.Contains(addr)
  {
    if modules != [] {
      NearestContains(modules[..|modules| - 1], addr);
    }
  }

  lemma DifferIfOverlapping(modules: seq<Module>, i: nat, j: nat)
    requires StartsAscend(modules) && i < j < |modules| && modules[j].start < modules[i].end
    ensures FirstContaining(modules, modules[j].start) != Nearest(modules, modules[j].start)
  {
    var addr := modules[j].start;
    FirstAtMost(modules, addr, i);
    assert modules[j] in modules;
    NearestIs(modules, addr, j);
  }
}
