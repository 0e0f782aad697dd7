/** Unwinding one stack frame from the unwind codes of its function and of the mother entries
    the function is chained to. */
module Unwinder {
  import opened Outcomes
  import opened Bytes
  import opened UnwindCodes
  import opened FunctionTable

  datatype UnwindError =
    | UnparsedUnwindData
    | InvalidUnwindCode
    | MachFrameInTheMiddle
    | MachFrameWithMother
    | MissingFramePointer
    | UnmappedTable
    | Overflow

  datatype FunctionEntry = FunctionEntry(
    mother: Option<RuntimeFunction>,
    version: byte,
    frameRegisterOffset: Option<byte>,
    unwindCodes: seq<byte>)

  /** The image of a module: its load address, its bytes, and where its function table lies. */
  datatype UnwindData = UnwindData(offset: u64, content: seq<byte>, directory: nat, directoryEnd: nat)

  datatype StackFrame = StackFrame(instructionPointer: u64, stackPointer: u64)

  /** The caller's stack pointer, or the address it was saved at. */
  datatype NextSp = Value(sp: nat) | Addr(addr: nat)

  datatype UnwindResult = UnwindResult(nextSp: NextSp, nextIpAddr: nat, nextBpAddr: Option<nat>, funStart: Option<nat>)

  datatype UnwindStep = MachInst(offset: u32) | SpOffset(offset: u32)

  // ---- Parsing unwind information (section "struct UNWIND_INFO")

  const ENTRY_SIZE := 12

  function FunctionAt(s: seq<byte>): RuntimeFunction
    requires ENTRY_SIZE <= |s|
  {
    RuntimeFunction(U32At(s), U32At(s[4..]), U32At(s[8..]))
  }

  function ParseInfo(s: seq<byte>): Option<FunctionEntry> {
    if |s| < 4 || s[0] % 8 < 1 || s[0] % 8 > 2 then None else
    var codesEnd: int := 4 + 2 * s[2] as int;
    if |s| < codesEnd then None else
    var frame := if s[3] % 16 != 0 then Some(s[3] - s[3] % 16) else None;
    if s[0] / 32 % 2 == 0 then Some(FunctionEntry(None, s[0] % 8, frame, s[4..codesEnd]))
    else if |s| < codesEnd + ENTRY_SIZE then None
    else Some(FunctionEntry(Some(FunctionAt(s[codesEnd..codesEnd + ENTRY_SIZE])), s[0] % 8, frame, s[4..codesEnd]))
  }

  function Parse(content: seq<byte>, rf: RuntimeFunction): Option<FunctionEntry> {
    if rf.ptr > |content| then None else ParseInfo(content[rf.ptr..])
  }

  /** The fixed part: version and flags, number of slots, frame register and offset. */
  method ReadHeader(data: ByteCursor) returns (r: Option<(byte, byte, byte)>)
    modifies data
    ensures r.Some? <==> |old(data.rest)| >= 4 && 1 <= old(data.rest)[0] % 8 <= 2
    ensures r.Some? ==> var s := old(data.rest); r.value == (s[0], s[2], s[3]) && data.rest == s[4..]
  {
    ghost var s := data.rest;
    var versionFlags := data.ReadU8();
    if versionFlags.None? || !(1 <= versionFlags.value % 8 <= 2) {
      return None;
    }
    var prologSize := data.ReadU8();
    if prologSize.None? { return None; }
    assert data.rest == s[2..];
    var count := data.ReadU8();
    if count.None? { return None; }
    assert data.rest == s[3..];
    var frameInfos := data.ReadU8();
    if frameInfos.None? { return None; }
    assert data.rest == s[4..];
    r := Some((versionFlags.value, count.value, frameInfos.value));
  }

  method ParseFunction(content: seq<byte>, rf: RuntimeFunction) returns (r: Option<FunctionEntry>)
    ensures r == Parse(content, rf)
  {
    hide FunctionAt;
    if rf.ptr > |content| {
      return None;
    }
    ghost var s := content[rf.ptr..];
    var data := new ByteCursor(content[rf.ptr..]);
    var header := ReadHeader(data);
    if header.None? { return None; }
    var (versionFlags, count, frameInfos) := header.value;
    var isChained := versionFlags / 32 % 2 != 0;
    var frame := if frameInfos % 16 != 0 then Some(frameInfos - frameInfos % 16) else None;
    var codes := data.ReadSlice(2 * count as int);
    if codes.None? { return None; }
    ghost var codesEnd: int := 4 + 2 * count as int;
    assert codes.value == s[4..codesEnd] && data.rest == s[codesEnd..];
    var mother := None;
    if isChained {
      var bytes := data.ReadSlice(ENTRY_SIZE);
      if bytes.None? { return None; }
      assert bytes.value == s[codesEnd..codesEnd + ENTRY_SIZE];
      mother := Some(FunctionAt(bytes.value));
    }
    r := Some(FunctionEntry(mother, versionFlags % 8, frame, codes.value));
  }

  /** The function table of the module. */
  function Functions(data: UnwindData): (fs: seq<RuntimeFunction>)
    requires data.directory <= data.directoryEnd <= |data.content|
  {
    var table := data.content[data.directory..data.directoryEnd];
    seq(|table| / ENTRY_SIZE, i requires 0 <= i < |table| / ENTRY_SIZE => FunctionAt(table[ENTRY_SIZE * i..ENTRY_SIZE * (i + 1)]))
  }

  // ---- Reading the codes of one entry

  type CodesResult = Result<(Option<u32>, UnwindStep), UnwindError>

  /** One executed code: the new stack offset and offset of the saved RBP, or the end. */
  datatype Progress = Go(sp: u32, bp: Option<u32>) | Stop(result: CodesResult)

  function Undo(op: UnwindOp, isLast: bool, hasMother: bool, sp: u32, bp: Option<u32>): Progress {
    match op
    case Push(reg) =>
      if sp + 8 >= 0x1_0000_0000 then Stop(Err(Overflow))
      else Go(sp + 8, if reg == RBP then Some(sp) else bp)
    case Alloc(size) =>
      if sp + size >= 0x1_0000_0000 then Stop(Err(Overflow)) else Go(sp + size, bp)
    case PushMachFrame(error) =>
      if !isLast then Stop(Err(MachFrameInTheMiddle))
      else if hasMother then Stop(Err(MachFrameWithMother))
      else
        var extra := if error then 8 else 0;
        if sp + extra >= 0x1_0000_0000 then Stop(Err(Overflow)) else Stop(Ok((bp, MachInst(sp + extra))))
    case Save(reg, offset) => Go(sp, if reg == RBP then Some(offset) else bp)
    case _ => Go(sp, bp)
  }

  predicate Skipped(limit: Option<u32>, at: byte) { limit.Some? && at > limit.value }

  /** The effect of a stream of codes on the stack offset `sp` and the offset `bp` of the saved
      RBP; codes past `limit` have not been executed. */
  function ReadCodes(items: seq<Item>, limit: Option<u32>, hasMother: bool, sp: u32, bp: Option<u32>): CodesResult {
    if items == [] then Ok((bp, SpOffset(sp)))
    else if items[0].Malformed? then Err(InvalidUnwindCode)
    else if Skipped(limit, items[0].coded.at) then ReadCodes(items[1..], limit, hasMother, sp, bp)
    else
      match Undo(items[0].coded.op, |items| == 1, hasMother, sp, bp)
      case Go(sp', bp') => ReadCodes(items[1..], limit, hasMother, sp', bp')
      case Stop(result) => result
  }

  function ItemsOf(f: FunctionEntry): seq<Item> { Items(f.version, f.unwindCodes) }

  /** The stack executed codes account for. */
  function StackOf(items: seq<Item>, limit: Option<u32>): nat {
    if items == [] then 0
    else StackOf(items[1..], limit) +
         if items[0].Code? && (limit.Some? ==> items[0].coded.at <= limit.value) then
           match items[0].coded.op
           case Push(_) => 8
           case Alloc(size) => size
           case PushMachFrame(error) => if error then 8 else 0
           case _ => 0
         else 0
  }

  ghost predicate HasMalformed(items: seq<Item>) { exists k :: 0 <= k < |items| && items[k].Malformed? }

  /** An interrupt frame is among the executed ones of the first `n` codes. */
  ghost predicate HasFrame(items: seq<Item>, limit: Option<u32>, n: int)
    requires n <= |items|
  {
    exists k :: 0 <= k < n && items[k].Code? && (limit.Some? ==> items[k].coded.at <= limit.value) && items[k].coded.op.PushMachFrame?
  }

  /** What is wrong with a stream of codes. */
  ghost predicate Wrong(items: seq<Item>, limit: Option<u32>, hasMother: bool, sp: u32, e: UnwindError) {
    match e
    case InvalidUnwindCode => HasMalformed(items)
    case MachFrameInTheMiddle => HasFrame(items, limit, |items| - 1)
    case MachFrameWithMother => hasMother && HasFrame(items, limit, |items|)
    case Overflow => sp + StackOf(items, limit) >= 0x1_0000_0000
    case _ => false
  }

  ghost predicate AllRight(items: seq<Item>, limit: Option<u32>, hasMother: bool, sp: u32) {
    && !HasMalformed(items) && !HasFrame(items, limit, |items| - 1)
    && !(hasMother && HasFrame(items, limit, |items|))
    && sp + StackOf(items, limit) < 0x1_0000_0000
  }

  lemma NothingWrong(items: seq<Item>, limit: Option<u32>)
    requires items == []
    ensures !HasMalformed(items) && !HasFrame(items, limit, 0) && !HasFrame(items, limit, -1)
  {
  }

  lemma WrongInRest(items: seq<Item>, limit: Option<u32>, n: int)
    requires items != [] && -1 <= n <= |items| - 1
    ensures HasMalformed(items) <==> items[0].Malformed? || HasMalformed(items[1..])
    ensures HasFrame(items, limit, n + 1) <==>
            HasFrame(items[1..], limit, n)
            || (n >= 0 && items[0].Code? && !Skipped(limit, items[0].coded.at) && items[0].coded.op.PushMachFrame?)
  {
    var rest := items[1..];
    assert forall k :: 0 < k < |items| ==> items[k] == rest[k - 1];
    assert forall k :: 0 <= k < |rest| ==> rest[k] == items[k + 1];
  }

  lemma ReadStep(items: seq<Item>, limit: Option<u32>, hasMother: bool, sp: u32, bp: Option<u32>)
    requires items != [] && items[0].Code?
    ensures var skipped := Skipped(limit, items[0].coded.at);
            var rest := items[1..];
            && (skipped ==>
                  && ReadCodes(items, limit, hasMother, sp, bp) == ReadCodes(rest, limit, hasMother, sp, bp)
                  && StackOf(items, limit) == StackOf(rest, limit))
            && (!skipped ==>
                  var p := Undo(items[0].coded.op, |items| == 1, hasMother, sp, bp);
                  && (p.Go? ==>
                        && ReadCodes(items, limit, hasMother, sp, bp) == ReadCodes(rest, limit, hasMother, p.sp, p.bp)
                        && sp + StackOf(items, limit) == p.sp + StackOf(rest, limit)
                        && !items[0].coded.op.PushMachFrame?)
                  && (p.Stop? ==>
                        && ReadCodes(items, limit, hasMother, sp, bp) == p.result
                        && (if p.result.Ok? then
                              rest == [] && !hasMother && items[0].coded.op.PushMachFrame?
                              && p.result.value.1.MachInst? && p.result.value.1.offset == sp + StackOf(items, limit)
                            else if p.result.error == Overflow then sp + StackOf(items, limit) >= 0x1_0000_0000
                            else items[0].coded.op.PushMachFrame?
                                 && p.result.error == if rest != [] then MachFrameInTheMiddle else MachFrameWithMother)
                        && (p.result == Err(MachFrameWithMother) ==> hasMother)))
  {
  }

  /** Reading codes fails exactly if something is wrong with them, and says what. A code that
      cannot be read is wrong even if it had not been executed. */
  lemma {:induction false} ReadFailsExactly(items: seq<Item>, limit: Option<u32>, hasMother: bool, sp: u32, bp: Option<u32>)
    ensures var r := ReadCodes(items, limit, hasMother, sp, bp);
            && (r.Err? ==> Wrong(items, limit, hasMother, sp, r.error))
            && (r.Ok? <==> AllRight(items, limit, hasMother, sp))
            && (r.Ok? ==> r.value.1.offset == sp + StackOf(items, limit))
            && (r.Ok? ==> (r.value.1.MachInst? <==> HasFrame(items, limit, |items|)))
  {
    hide HasMalformed, HasFrame, ReadCodes, StackOf, Undo, Skipped;
    ReadEnds(items, limit, hasMother, sp, bp);
    if items == [] {
      NothingWrong(items, limit);
    } else {
      var rest := items[1..];
      if rest == [] { NothingWrong(rest, limit); }
      WrongInRest(items, limit, |rest|);
      WrongInRest(items, limit, |rest| - 1);
      if items[0].Code? {
        ReadStep(items, limit, hasMother, sp, bp);
        if Skipped(limit, items[0].coded.at) {
          ReadFailsExactly(rest, limit, hasMother, sp, bp);
        } else {
          match Undo(items[0].coded.op, |items| == 1, hasMother, sp, bp) {
            case Go(sp', bp') => ReadFailsExactly(rest, limit, hasMother, sp', bp');
            case Stop(_) =>
          }
        }
      }
    }
  }

  lemma ReadEnds(items: seq<Item>, limit: Option<u32>, hasMother: bool, sp: u32, bp: Option<u32>)
    ensures items == [] ==> ReadCodes(items, limit, hasMother, sp, bp) == Ok((bp, SpOffset(sp))) && StackOf(items, limit) == 0
    ensures items != [] && items[0].Malformed? ==> ReadCodes(items, limit, hasMother, sp, bp) == Err(InvalidUnwindCode)
  {
  }

  /** The interrupt frame must be the last code of an entry without a mother. */
  method FinishMachFrame(codes: UnwindOpIterator, error: bool, hasMother: bool, sp: u32, bp: Option<u32>)
    returns (r: CodesResult)
    modifies codes.codes
    ensures Undo(PushMachFrame(error), old(codes.codes.rest) == [], hasMother, sp, bp) == Stop(r)
  {
    var more := codes.Next();
    if more.Some? {
      return Err(MachFrameInTheMiddle);
    } else if hasMother {
      return Err(MachFrameWithMother);
    }
    var extra := if error then 8 else 0;
    if sp + extra >= 0x1_0000_0000 {
      return Err(Overflow);
    }
    r := Ok((bp, MachInst(sp + extra)));
  }

  method ReadUnwindCodes(function_: FunctionEntry, limit: Option<u32>)
    returns (r: CodesResult)
    ensures r == ReadCodes(ItemsOf(function_), limit, function_.mother.Some?, 0, None)
  {
    hide DecodeNext, Items;
    var codes := new UnwindOpIterator(function_.version, function_.unwindCodes);
    var spOffset: u32 := 0;
    var bpAddr: Option<u32> := None;
    ghost var goal := ReadCodes(ItemsOf(function_), limit, function_.mother.Some?, 0, None);
    ghost var left := ItemsOf(function_);
    while true
      invariant fresh(codes.codes)
      invariant left == Items(codes.version, codes.codes.rest)
      invariant goal == ReadCodes(left, limit, function_.mother.Some?, spOffset, bpAddr)
      decreases |codes.codes.rest|
    {
      var item := codes.Next();
      if item.None? {
        break;
      }
      assert left[0] == item.value && left[1..] == Items(codes.version, codes.codes.rest);
      left := left[1..];
      if item.value.Malformed? {
        return Err(InvalidUnwindCode);
      }
      var op := item.value.coded.op;
      if Skipped(limit, item.value.coded.at) {
        continue;
      }
      ghost var progress := Undo(op, left == [], function_.mother.Some?, spOffset, bpAddr);
      assert goal == match progress
                     case Go(sp', bp') => ReadCodes(left, limit, function_.mother.Some?, sp', bp')
                     case Stop(result) => result;
      match op {
        case Push(reg) =>
          if reg == RBP {
            bpAddr := Some(spOffset);
          }
          if spOffset + 8 >= 0x1_0000_0000 {
            return Err(Overflow);
          }
          spOffset := spOffset + 8;
        case Alloc(size) =>
          if spOffset + size >= 0x1_0000_0000 {
            return Err(Overflow);
          }
          spOffset := spOffset + size;
        case PushMachFrame(error) =>
          r := FinishMachFrame(codes, error, function_.mother.Some?, spOffset, bpAddr);
          return;
        case Save(reg, offset) =>
          if reg == RBP {
            bpAddr := Some(offset);
          }
        case _ =>
      }
      assert progress == Go(spOffset, bpAddr);
    }
    r := Ok((bpAddr, SpOffset(spOffset)));
  }

  // ---- Following the chain of entries

  /** What each table entry stands for, if it can be read. */
  type Entries = RuntimeFunction -> Option<FunctionEntry>

  function EntriesOf(data: UnwindData): Entries { rf => Parse(data.content, rf) }

  /** The chain of mothers from an entry ends within `n` links. */
  ghost predicate ChainEnds(entries: Entries, rf: RuntimeFunction, n: nat)
    decreases n
  {
    match entries(rf)
    case None => true
    case Some(f) => f.mother.Some? ==> n > 0 && ChainEnds(entries, f.mother.value, n - 1)
  }

  /** The entry at the end of the chain, unless the chain breaks. */
  ghost function Root(entries: Entries, rf: RuntimeFunction, n: nat): Option<RuntimeFunction>
    requires ChainEnds(entries, rf, n)
    decreases n
  {
    match entries(rf)
    case None => None
    case Some(f) => if f.mother.Some? then Root(entries, f.mother.value, n - 1) else Some(rf)
  }

  /** Unwinding from entry `rf` on of a module loaded at `load`, with the stack pointer at `base`
      before its codes are undone. */
  ghost function UnwindFrom(entries: Entries, load: u64, rf: RuntimeFunction, limit: Option<u32>, base: nat, bp: Option<nat>, n: nat)
    : Result<UnwindResult, UnwindError>
    requires ChainEnds(entries, rf, n)
    decreases n
  {
    match entries(rf)
    case None => Err(UnparsedUnwindData)
    case Some(f) =>
      match ReadCodes(ItemsOf(f), limit, f.mother.Some?, 0, None)
      case Err(e) => Err(e)
      case Ok((bpOffset, step)) =>
        var bp' := if bpOffset.Some? then Some(base + bpOffset.value) else bp;
        var start := Some(load + rf.start);
        match step
        case MachInst(o) => Ok(UnwindResult(Addr(base + o + 0x18), base + o, bp', start))
        case SpOffset(o) =>
          if f.mother.Some? then UnwindFrom(entries, load, f.mother.value, None, base + o, bp', n - 1)
          else Ok(UnwindResult(Value(base + o + 8), base + o, bp', start))
  }

  function OffsetInModule(data: UnwindData, frame: StackFrame): u32 {
    (frame.instructionPointer - data.offset) % 0x1_0000_0000
  }

  /** Up to multiples of 2^32, address `ip` lies `x` bytes into an image loaded at `load`. */
  predicate IsOffset(load: u64, ip: u64, x: u32) { (ip - load - x) % 0x1_0000_0000 == 0 }

  /** Unwinding takes the offset in the image: that of an address at most 4 GiB above the load
      address is the distance. */
  lemma OffsetIs(data: UnwindData, frame: StackFrame, x: u32)
    ensures IsOffset(data.offset, frame.instructionPointer, x) <==> x == OffsetInModule(data, frame)
    ensures frame.instructionPointer == data.offset + x ==> IsOffset(data.offset, frame.instructionPointer, x)
  {
  }

  /** The stack pointer the codes are relative to. */
  function FrameBase(f: FunctionEntry, ipOffset: u32, sp: u64, bp: Option<u64>): Result<nat, UnwindError> {
    if f.frameRegisterOffset.None? || ipOffset == 0 then Ok(sp)
    else if bp.None? then Err(MissingFramePointer)
    else if bp.value < f.frameRegisterOffset.value then Err(Overflow)
    else Ok(bp.value - f.frameRegisterOffset.value)
  }

  ghost function Unwind(data: UnwindData, rf: RuntimeFunction, frame: StackFrame, bp: Option<u64>, n: nat)
    : Result<UnwindResult, UnwindError>
    requires ChainEnds(EntriesOf(data), rf, n)
  {
    var ipOffset := OffsetInModule(data, frame) - rf.start;
    if ipOffset < 0 then Err(Overflow) else
    match Parse(data.content, rf)
    case None => Err(UnparsedUnwindData)
    case Some(f) =>
      match FrameBase(f, ipOffset, frame.stackPointer, bp)
      case Err(e) => Err(e)
      case Ok(base) => UnwindFrom(EntriesOf(data), data.offset, rf, Some(ipOffset), base, None, n)
  }

  method UnwindWithInfos(data: UnwindData, rf: RuntimeFunction, frame: StackFrame, bp: Option<u64>, ghost n: nat)
    returns (r: Result<UnwindResult, UnwindError>)
    requires ChainEnds(EntriesOf(data), rf, n)
    ensures r == Unwind(data, rf, frame, bp, n)
  {
    hide Parse, ItemsOf;
    var offset := OffsetInModule(data, frame);
    if offset < rf.start {
      return Err(Overflow);
    }
    var ipOffset: Option<u32> := Some(offset - rf.start);
    var parsed := ParseFunction(data.content, rf);
    if parsed.None? {
      return Err(UnparsedUnwindData);
    }
    var entry := parsed.value;
    var funStart := data.offset + rf.start;
    var framePointer := FrameBase(entry, ipOffset.value, frame.stackPointer, bp);
    if framePointer.Err? {
      return Err(framePointer.error);
    }
    var nextSp: nat := framePointer.value;
    var nextBpAddr: Option<nat> := None;
    ghost var current, links := rf, n;
    while true
      invariant ChainEnds(EntriesOf(data), current, links)
      invariant Parse(data.content, current) == Some(entry) && funStart == data.offset + current.start
      invariant UnwindFrom(EntriesOf(data), data.offset, current, ipOffset, nextSp, nextBpAddr, links) == Unwind(data, rf, frame, bp, n)
      decreases links
    {
      var codes := ReadUnwindCodes(entry, ipOffset);
      if codes.Err? {
        return Err(codes.error);
      }
      var (bpOffset, step) := codes.value;
      if bpOffset.Some? {
        nextBpAddr := Some(nextSp + bpOffset.value);
      }
      match step {
        case MachInst(o) =>
          return Ok(UnwindResult(Addr(nextSp + o + 0x18), nextSp + o, nextBpAddr, Some(funStart)));
        case SpOffset(o) =>
          nextSp := nextSp + o;
      }
      if entry.mother.None? {
        break;
      }
      var mother := entry.mother.value;
      parsed := ParseFunction(data.content, mother);
      if parsed.None? {
        return Err(UnparsedUnwindData);
      }
      current, links := mother, links - 1;
      entry := parsed.value;
      ipOffset := None;
      funStart := data.offset + mother.start;
    }
    r := Ok(UnwindResult(Value(nextSp + 8), nextSp, nextBpAddr, Some(funStart)));
  }

  /** The bound on the chain is only a witness of termination. */
  lemma {:induction false} UnwindFromAnyBound(entries: Entries, load: u64, rf: RuntimeFunction, limit: Option<u32>,
                                              base: nat, bp: Option<nat>, m: nat, n: nat)
    requires ChainEnds(entries, rf, m) && ChainEnds(entries, rf, n)
    ensures UnwindFrom(entries, load, rf, limit, base, bp, m) == UnwindFrom(entries, load, rf, limit, base, bp, n)
    ensures Root(entries, rf, m) == Root(entries, rf, n)
    decreases n
  {
    hide ItemsOf;
    var parsed := entries(rf);
    if parsed.Some? && parsed.value.mother.Some? {
      var f, mother := parsed.value, parsed.value.mother.value;
      UnwindFromAnyBound(entries, load, mother, None, base, bp, m - 1, n - 1);
      var codes := ReadCodes(ItemsOf(f), limit, true, 0, None);
      if codes.Ok? && codes.value.1.SpOffset? {
        var bp' := if codes.value.0.Some? then Some(base + codes.value.0.value) else bp;
        UnwindFromAnyBound(entries, load, mother, None, base + codes.value.1.offset, bp', m - 1, n - 1);
      }
    }
  }

  /** Whatever the codes do, the function start reported is that of the entry the chain ends at. */
  lemma {:induction false} StartIsRoot(entries: Entries, load: u64, rf: RuntimeFunction, limit: Option<u32>,
                                       base: nat, bp: Option<nat>, n: nat)
    requires ChainEnds(entries, rf, n)
    ensures var r := UnwindFrom(entries, load, rf, limit, base, bp, n);
            r.Ok? ==> var root := Root(entries, rf, n);
                      root.Some? && r.value.funStart == Some(load + root.value.start)
    decreases n
  {
    hide ItemsOf;
    var parsed := entries(rf);
    if parsed.Some? && parsed.value.mother.Some? {
      var f, mother := parsed.value, parsed.value.mother.value;
      var codes := ReadCodes(ItemsOf(f), limit, true, 0, None);
      NoMachFrameWithMother(ItemsOf(f), limit, 0, None);
      if codes.Ok? {
        var bp' := if codes.value.0.Some? then Some(base + codes.value.0.value) else bp;
        StartIsRoot(entries, load, mother, None, base + codes.value.1.offset, bp', n - 1);
      }
    }
  }

  lemma UnwindIs(data: UnwindData, rf: RuntimeFunction, f: FunctionEntry, frame: StackFrame, ipOffset: u32, bp: Option<u64>, n: nat)
    requires ChainEnds(EntriesOf(data), rf, n)
    requires EntriesOf(data)(rf) == Some(f) && OffsetInModule(data, frame) == rf.start + ipOffset
    ensures var start := FrameBase(f, ipOffset, frame.stackPointer, bp);
            Unwind(data, rf, frame, bp, n) ==
              if start.Err? then Err(start.error)
              else UnwindFrom(EntriesOf(data), data.offset, rf, Some(ipOffset), start.value, None, n)
  {
    hide UnwindFrom, ChainEnds, FrameBase;
  }

  lemma UnwindStartIsRoot(data: UnwindData, rf: RuntimeFunction, frame: StackFrame, bp: Option<u64>, n: nat)
    requires ChainEnds(EntriesOf(data), rf, n)
    ensures var r := Unwind(data, rf, frame, bp, n);
            r.Ok? ==> var root := Root(EntriesOf(data), rf, n);
                      root.Some? && r.value.funStart == Some(data.offset + root.value.start)
  {
    hide UnwindFrom, Root, ChainEnds, FrameBase;
    var ipOffset, f := OffsetInModule(data, frame) - rf.start, Parse(data.content, rf);
    if ipOffset >= 0 && f.Some? && FrameBase(f.value, ipOffset, frame.stackPointer, bp).Ok? {
      StartIsRoot(EntriesOf(data), data.offset, rf, Some(ipOffset),
                  FrameBase(f.value, ipOffset, frame.stackPointer, bp).value, None, n);
    }
  }

  /** An interrupt frame is only ever reported by an entry without a mother. */
  lemma {:induction false} NoMachFrameWithMother(items: seq<Item>, limit: Option<u32>, sp: u32, bp: Option<u32>)
    ensures var r := ReadCodes(items, limit, true, sp, bp); r.Ok? ==> r.value.1.SpOffset?
  {
    if items != [] && items[0].Code? {
      NoMachFrameWithMother(items[1..], limit, sp, bp);
      match Undo(items[0].coded.op, |items| == 1, true, sp, bp) {
        case Go(sp', bp') => NoMachFrameWithMother(items[1..], limit, sp', bp');
        case Stop(_) =>
      }
    }
  }
}
