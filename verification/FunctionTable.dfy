/** Looking up the function an instruction belongs to, in a table of which some pages may have
    been unmapped in the guest and read as zeroes. */
module FunctionTable {
  import opened Outcomes
  import opened Bytes

  datatype RuntimeFunction = RuntimeFunction(start: u32, end: u32, ptr: u32) {
    predicate Contains(addr: u32) { start <= addr < end }

    /** No field of an entry is zero, unless its page was unmapped. */
    predicate IsValid() { start != 0 && end != 0 && ptr != 0 }
  }

  datatype LookupError = UnmappedUnwindData

  type Answer = Result<Option<RuntimeFunction>, LookupError>

  /** Where a binary search ends. */
  datatype Position = Found(index: nat) | Insert(index: nat)

  // ---- What each of the two searches promises

  /** The binary search met valid entries only. Whatever it probed, the two entries around the
      position it returns were among them. */
  ghost predicate BinaryOutcome(functions: seq<RuntimeFunction>, offset: u32, pos: Position) {
    match pos
    case Found(i) => i < |functions| && functions[i].IsValid() && functions[i].start == offset
    case Insert(i) =>
      && i <= |functions|
      && (i > 0 ==> functions[i-1].IsValid() && functions[i-1].start < offset)
      && (i < |functions| ==> functions[i].IsValid() && offset < functions[i].start)
  }

  function BinaryAnswer(functions: seq<RuntimeFunction>, offset: u32, pos: Position): Option<RuntimeFunction>
    requires pos.index <= |functions| && (pos.Found? ==> pos.index < |functions|)
  {
    if pos.Found? then Some(functions[pos.index])
    else if pos.index == 0 then None
    else if functions[pos.index-1].Contains(offset) then Some(functions[pos.index-1])
    else None
  }

  /** The fallback, from entry `i` on; `trusted` says that the entry before `i` is valid. */
  function LinearAnswer(functions: seq<RuntimeFunction>, offset: u32, i: nat, trusted: bool): Answer
    requires i <= |functions|
    decreases |functions| - i
  {
    if i == |functions| then (if trusted then Ok(None) else Err(UnmappedUnwindData))
    else if !functions[i].IsValid() then LinearAnswer(functions, offset, i + 1, false)
    else if offset < functions[i].start then (if trusted then Ok(None) else Err(UnmappedUnwindData))
    else if offset < functions[i].end then Ok(Some(functions[i]))
    else LinearAnswer(functions, offset, i + 1, true)
  }

  /** Every answer the lookup may give, over all probe orders. */
  ghost predicate Answers(functions: seq<RuntimeFunction>, offset: u32, r: Answer) {
    || (r == LinearAnswer(functions, offset, 0, false) && exists f :: f in functions && !f.IsValid())
    || (exists pos :: BinaryOutcome(functions, offset, pos) && r == Ok(BinaryAnswer(functions, offset, pos)))
  }

  lemma {:induction false} LinearAnswerIsEntry(functions: seq<RuntimeFunction>, offset: u32, i: nat, trusted: bool)
    requires i <= |functions|
    ensures var r := LinearAnswer(functions, offset, i, trusted); r.Ok? && r.value.Some? ==> r.value.value in functions
    decreases |functions| - i
  {
    if i < |functions| {
      LinearAnswerIsEntry(functions, offset, i + 1, false);
      LinearAnswerIsEntry(functions, offset, i + 1, true);
    }
  }

  /** The lookup invents nothing. */
  lemma AnswerIsEntry(functions: seq<RuntimeFunction>, offset: u32, r: Answer)
    requires Answers(functions, offset, r) && r.Ok? && r.value.Some?
    ensures r.value.value in functions
  {
    LinearAnswerIsEntry(functions, offset, 0, false);
  }

  // ---- The lookup

  /** `binary_search_by_key` with the key function of the lookup. Each probe is any index of the
      remaining range, and a match may stop the search or narrow it either way. */
  method Probe(functions: seq<RuntimeFunction>, offset: u32) returns (pos: Position, corrupted: bool)
    ensures pos.index <= |functions|
    ensures corrupted ==> exists f :: f in functions && !f.IsValid()
    ensures !corrupted ==> BinaryOutcome(functions, offset, pos)
  {
    corrupted := false;
    var lo, hi := 0, |functions|;
    var found: Option<nat> := None;
    while lo < hi
      invariant 0 <= lo <= hi <= |functions|
      invariant found.Some? ==> found.value < |functions|
      invariant corrupted ==> exists f :: f in functions && !f.IsValid()
      invariant !corrupted && found.Some? ==> BinaryOutcome(functions, offset, Found(found.value))
      invariant !corrupted && found.None? && lo > 0 ==> functions[lo-1].IsValid() && functions[lo-1].start < offset
      invariant !corrupted && found.None? && hi < |functions| ==> functions[hi].IsValid() && offset < functions[hi].start
    {
      var mid :| lo <= mid < hi;
      var key := offset;
      if functions[mid].IsValid() {
        key := functions[mid].start;
      } else {
        assert functions[mid] in functions;
        corrupted := true;
      }
      if key < offset {
        lo := mid + 1;
      } else if offset < key {
        hi := mid;
      } else {
        found := Some(mid);
        var next :| 0 <= next <= 2;
        if next == 0 {
          break;
        } else if next == 1 {
          lo := mid + 1;
        } else {
          hi := mid;
        }
      }
    }
    pos := match found case Some(i) => Found(i) case None => Insert(lo);
  }

  method FindRuntimeFunction(functions: seq<RuntimeFunction>, offset: u32) returns (r: Answer)
    ensures Answers(functions, offset, r)
  {
    var pos, corrupted := Probe(functions, offset);
    if !corrupted {
      return Ok(BinaryAnswer(functions, offset, pos));
    }
    var lastValid := None;
    var i := 0;
    while i < |functions|
      invariant 0 <= i <= |functions|
      invariant LinearAnswer(functions, offset, 0, false) == LinearAnswer(functions, offset, i, lastValid.Some?)
    {
      var entry := functions[i];
      if !entry.IsValid() {
        lastValid := None;
        i := i + 1;
        continue;
      }
      if offset < entry.start {
        break;
      } else if offset < entry.end {
        return Ok(Some(entry));
      }
      lastValid := Some(entry);
      i := i + 1;
    }
    r := if lastValid.Some? then Ok(None) else Err(UnmappedUnwindData);
  }

  // ---- Tables with holes

  /** A table as the linker writes it: non-empty functions, in order, without overlap. */
  ghost predicate WellFormed(full: seq<RuntimeFunction>) {
    && (forall i :: 0 <= i < |full| ==> 0 < full[i].start < full[i].end && full[i].ptr > 0)
    && (forall i, j :: 0 <= i < j < |full| ==> full[i].end <= full[j].start)
  }

  /** `functions` is `full` with any fields of any entries zeroed. */
  ghost predicate Holed(functions: seq<RuntimeFunction>, full: seq<RuntimeFunction>) {
    && |functions| == |full|
    && forall i :: 0 <= i < |full| ==>
         && (functions[i].start == full[i].start || functions[i].start == 0)
         && (functions[i].end == full[i].end || functions[i].end == 0)
         && (functions[i].ptr == full[i].ptr || functions[i].ptr == 0)
  }

  /** The function of the table that contains `offset`, by definition. */
  ghost predicate IsFunctionOf(full: seq<RuntimeFunction>, offset: u32, r: Option<RuntimeFunction>) {
    match r
    case Some(f) => f in full && f.start <= offset < f.end
    case None => forall f :: f in full ==> !(f.start <= offset < f.end)
  }

  /** The table entries that decide about `offset` were mapped: the function that contains it,
      or both neighbours of the gap it falls in. */
  ghost predicate DecidedLocally(functions: seq<RuntimeFunction>, full: seq<RuntimeFunction>, offset: u32)
    requires |functions| == |full|
  {
    || (exists i :: 0 <= i < |full| && full[i].start <= offset < full[i].end && functions[i] == full[i])
    || (exists i :: 0 < i <= |full| && full[i-1].end <= offset && (i < |full| ==> offset < full[i].start)
          && functions[i-1] == full[i-1] && (i < |full| ==> functions[i] == full[i]))
  }

  lemma Apart(full: seq<RuntimeFunction>, i: nat, j: nat)
    requires WellFormed(full) && i < |full| && j < |full|
    ensures i < j ==> full[i].end <= full[j].start
    ensures j < i ==> full[j].end <= full[i].start
  {
  }

  /** There is at most one answer. */
  lemma FunctionOfIsUnique(full: seq<RuntimeFunction>, offset: u32, a: Option<RuntimeFunction>, b: Option<RuntimeFunction>)
    requires WellFormed(full) && IsFunctionOf(full, offset, a) && IsFunctionOf(full, offset, b)
    ensures a == b
  {
    if a.Some? && b.Some? {
      var i :| 0 <= i < |full| && full[i] == a.value;
      var j :| 0 <= j < |full| && full[j] == b.value;
      Apart(full, i, j);
    }
  }

  lemma BinaryNeverWrong(functions: seq<RuntimeFunction>, full: seq<RuntimeFunction>, offset: u32, pos: Position)
    requires WellFormed(full) && Holed(functions, full) && BinaryOutcome(functions, offset, pos)
    ensures IsFunctionOf(full, offset, BinaryAnswer(functions, offset, pos))
  {
    var i := pos.index;
    if pos.Found? {
      assert functions[i] == full[i];
    } else {
      if i > 0 { assert functions[i-1] == full[i-1]; }
      if i < |full| { assert functions[i] == full[i]; }
      forall f | f in full && f.Contains(offset)
        ensures i > 0 && f == full[i-1]
      {
        var j :| 0 <= j < |full| && full[j] == f;
        if i > 0 { Apart(full, i - 1, j); }
        if i < |full| { Apart(full, i, j); }
      }
    }
  }

  /** Before entry `i` nothing contains the offset, and `trusted` is about entry `i - 1`. */
  ghost predicate Scanned(functions: seq<RuntimeFunction>, full: seq<RuntimeFunction>, offset: u32, i: nat, trusted: bool)
    requires i <= |full| == |functions|
  {
    && (forall j :: 0 <= j < i && functions[j].IsValid() ==> full[j].end <= offset)
    && trusted == (i > 0 && functions[i-1].IsValid())
  }

  lemma {:induction false} LinearNeverWrong(
    functions: seq<RuntimeFunction>, full: seq<RuntimeFunction>, offset: u32, i: nat, trusted: bool)
    requires WellFormed(full) && Holed(functions, full) && i <= |full| && Scanned(functions, full, offset, i, trusted)
    ensures var r := LinearAnswer(functions, offset, i, trusted);
            && (r.Ok? ==> IsFunctionOf(full, offset, r.value))
            && (r.Ok? <==> DecidedLocally(functions, full, offset))
    decreases |full| - i
  {
    var r := LinearAnswer(functions, offset, i, trusted);
    if i < |full| && !functions[i].IsValid() {
      LinearNeverWrong(functions, full, offset, i + 1, false);
    } else if i < |full| && full[i].end <= offset {
      assert functions[i] == full[i];
      LinearNeverWrong(functions, full, offset, i + 1, true);
    } else if i < |full| && full[i].start <= offset {
      assert functions[i] == full[i] && full[i].Contains(offset);
    } else {
      if i < |full| { assert functions[i] == full[i]; }
      if trusted { StoppedInGap(functions, full, offset, i); } else { StoppedInHole(functions, full, offset, i); }
    }
  }

  /** The scan stopped at `i`, at the end or because entry `i` starts after the offset, and the
      entry before is known to be valid. */
  lemma StoppedInGap(functions: seq<RuntimeFunction>, full: seq<RuntimeFunction>, offset: u32, i: nat)
    requires WellFormed(full) && Holed(functions, full) && i <= |full| && Scanned(functions, full, offset, i, true)
    requires i < |full| ==> functions[i].IsValid() && offset < full[i].start
    ensures IsFunctionOf(full, offset, None) && DecidedLocally(functions, full, offset)
  {
    assert functions[i-1] == full[i-1] && (i < |full| ==> functions[i] == full[i]);
    forall f | f in full ensures !(f.start <= offset < f.end) {
      var j :| 0 <= j < |full| && full[j] == f;
      Apart(full, i - 1, j);
      if i < |full| { Apart(full, i, j); }
    }
  }

  /** It stopped there, and the entry before is not. */
  lemma StoppedInHole(functions: seq<RuntimeFunction>, full: seq<RuntimeFunction>, offset: u32, i: nat)
    requires WellFormed(full) && Holed(functions, full) && i <= |full| && Scanned(functions, full, offset, i, false)
    requires i < |full| ==> functions[i].IsValid() && offset < full[i].start
    ensures !DecidedLocally(functions, full, offset)
  {
    forall j | 0 <= j < |full| && full[j].start <= offset < full[j].end ensures functions[j] != full[j] {
      if i < |full| { Apart(full, i, j); }
    }
    forall j | 0 < j <= |full| && full[j-1].end <= offset && (j < |full| ==> offset < full[j].start)
      ensures functions[j-1] != full[j-1] || (j < |full| && functions[j] != full[j])
    {
      if i < |full| { Apart(full, i, j - 1); }
    }
  }

  /** A holed table is never answered wrongly. Whatever was probed, an answer is that of the full
      table, and there is an answer whenever the entries that decide about the offset are mapped. */
  lemma HolesNeverMislead(functions: seq<RuntimeFunction>, full: seq<RuntimeFunction>, offset: u32, r: Answer)
    requires WellFormed(full) && Holed(functions, full) && Answers(functions, offset, r)
    ensures r.Ok? ==> IsFunctionOf(full, offset, r.value)
    ensures DecidedLocally(functions, full, offset) ==> r.Ok?
    ensures functions == full ==> r.Ok?
  {
    LinearNeverWrong(functions, full, offset, 0, false);
    if r != LinearAnswer(functions, offset, 0, false) {
      var pos :| BinaryOutcome(functions, offset, pos) && r == Ok(BinaryAnswer(functions, offset, pos));
      BinaryNeverWrong(functions, full, offset, pos);
    }
  }
}
