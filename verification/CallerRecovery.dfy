/** The main results about unwinding one frame: it recovers the caller's state exactly, and a
    chain of entries means the same as one entry with all the codes. */
module CallerRecovery {
  import opened Outcomes
  import opened Bytes
  import opened UnwindCodes
  import opened FunctionTable
  import opened Unwinder
  import opened Prologs
  import opened UnwindInfos

  /** Reading memory at the addresses of `r` gives the caller's IP, SP and RBP. */
  ghost predicate Recovers(o: Origin, callerSp: int, callerBp: int, now: Machine, r: UnwindResult) {
    && r.nextIpAddr in now.mem && now.mem[r.nextIpAddr] == o.ResumeIp()
    && (match r.nextSp
        case Value(sp) => sp == callerSp
        case Addr(a) => a in now.mem && now.mem[a] == callerSp)
    && BpKnown(now, r.nextBpAddr, callerBp)
  }

  /** The machine while the body runs, after the executed prolog left it in state `end`: the frame
      is intact, and so is RBP if it was not saved or serves as frame pointer. The body may have
      moved RSP. */
  ghost predicate InBody(now: Machine, end: Machine, keepsBp: bool) {
    && Extends(now.mem, end.mem)
    && (keepsBp ==> now.bp == end.bp)
  }

  lemma EnteredFrame(o: Origin, callerSp: int, callerBp: int)
    ensures var m := Entered(o, callerSp, callerBp);
            var ip := m.sp + o.ErrorSize();
            && Above(m) && m.bp == callerBp
            && ip in m.mem && m.mem[ip] == o.ResumeIp()
            && if o.Call? then ip + 8 == callerSp else ip + 0x18 in m.mem && m.mem[ip + 0x18] == callerSp
  {
  }

  // ---- The stack pointer unwinding starts from

  /** The unwinder takes RBP for the frame pointer. */
  predicate UsesPointer(f: FunctionEntry, ipOffset: u32) {
    f.frameRegisterOffset.Some? && ipOffset != 0
  }

  /** How far RBP lies above RSP after the steps, if they made it the frame pointer. */
  function PointerAbove(steps: seq<Slot>, fp: FramePointer): Option<int> {
    if steps == [] then None else
    var op := Meaning(Last(steps).code);
    if op.SetFpReg? && fp.register == RBP then Some(fp.offset) else
    match PointerAbove(Front(steps), fp) case None => None case Some(d) => Some(d + Size(op))
  }

  function ChainPointer(secs: seq<Section>): Option<int> {
    if secs == [] then None
    else if PointerAbove(secs[0].steps, secs[0].fp).Some? then PointerAbove(secs[0].steps, secs[0].fp)
    else match ChainPointer(secs[1..]) case None => None case Some(d) => Some(d + Total(secs[0].steps))
  }

  lemma {:induction false} PointerIs(m: Machine, steps: seq<Slot>, fp: FramePointer, regs: Registers)
    ensures var end := Run(m, steps, fp, regs);
            && end.sp == m.sp - Total(steps)
            && end.bp == match PointerAbove(steps, fp) case None => m.bp case Some(d) => end.sp + d
  {
    if steps != [] {
      PointerIs(m, Front(steps), fp, regs);
    }
  }

  lemma {:induction false} ChainPointerIs(m: Machine, secs: seq<Section>, regs: Registers)
    ensures var end := RunChain(m, secs, regs);
            && end.sp == m.sp - TotalChain(secs)
            && end.bp == match ChainPointer(secs) case None => m.bp case Some(d) => end.sp + d
  {
    if secs != [] {
      ChainPointerIs(m, secs[1..], regs);
      PointerIs(RunChain(m, secs[1..], regs), secs[0].steps, secs[0].fp, regs);
    }
  }

  /** The condition, on the codes and the registers at entry, under which the unwinder starts from
      where the executed prologs left RSP: without a frame pointer, that RSP has not moved since;
      with one, that RBP is as far above as the entry says, or points there by chance if it was not
      made the frame pointer. */
  predicate RightStart(f: FunctionEntry, ipOffset: u32, sp: u64, bpKnown: bool, m: Machine, secs: seq<Section>) {
    var top := m.sp - TotalChain(secs);
    if !UsesPointer(f, ipOffset) then sp == top
    else bpKnown && match ChainPointer(secs)
                    case Some(d) => d == f.frameRegisterOffset.value
                    case None => m.bp == top + f.frameRegisterOffset.value
  }

  lemma StartIsRightExactly(f: FunctionEntry, ipOffset: u32, sp: u64, bp: Option<u64>,
                            m: Machine, secs: seq<Section>, regs: Registers)
    requires RunChain(m, secs, regs).sp >= 0
    requires UsesPointer(f, ipOffset) && bp.Some? ==> bp.value == RunChain(m, secs, regs).bp
    ensures FrameBase(f, ipOffset, sp, bp) == Ok(RunChain(m, secs, regs).sp) <==> RightStart(f, ipOffset, sp, bp.Some?, m, secs)
  {
    ChainPointerIs(m, secs, regs);
  }

  /** Unwinding inverts the prolog. A function, possibly chained to mothers, was entered by a call
      or an interrupt and has executed `secs` of the prologs its unwind data describes. Unwinding
      finds the slot of the resume address exactly under `RightStart`, and then recovers the
      caller's IP, SP and RBP. It fails exactly if it needs a frame pointer that is unknown or too
      low. */
  lemma UnwindRecoversCaller(
    data: UnwindData, rf: RuntimeFunction, f: FunctionEntry, frame: StackFrame, ipOffset: u32, bp: Option<u64>, n: nat,
    o: Origin, callerSp: int, callerBp: int, secs: seq<Section>, pending: seq<Slot>, regs: Registers, now: Machine)
    requires ChainEnds(EntriesOf(data), rf, n)
    requires EntriesOf(data)(rf) == Some(f)
    requires rf.start + ipOffset < 0x1_0000_0000 && IsOffset(data.offset, frame.instructionPointer, rf.start + ipOffset)
    requires Described(EntriesOf(data), rf, o, secs, pending, Some(ipOffset))
    requires LegalChain(Entered(o, callerSp, callerBp), secs, regs)
    requires RunChain(Entered(o, callerSp, callerBp), secs, regs).sp >= 0
    requires InBody(now, RunChain(Entered(o, callerSp, callerBp), secs, regs), UsesPointer(f, ipOffset) || !SavesChain(secs))
    requires UsesPointer(f, ipOffset) && bp.Some? ==> bp.value == now.bp
    ensures var m := Entered(o, callerSp, callerBp);
            var right := RightStart(f, ipOffset, frame.stackPointer, bp.Some?, m, secs);
            var r := Unwind(data, rf, frame, bp, n);
            && (r.Ok? && r.value.nextIpAddr == m.sp + o.ErrorSize() <==> right)
            && (right ==> Recovers(o, callerSp, callerBp, now, r.value))
            && (r == Err(MissingFramePointer) <==> UsesPointer(f, ipOffset) && bp.None?)
            && (r.Err? <==> UsesPointer(f, ipOffset) && (bp.None? || bp.value < f.frameRegisterOffset.value))
  {
    hide Described, LegalChain, RunChain, SavesChain, ChainEnds, UnwindFrom, FrameBase, RightStart, UsesPointer, Entered, EntriesOf, Unwind, Recovers, IsOffset, OffsetInModule;
    var m := Entered(o, callerSp, callerBp);
    OffsetIs(data, frame, rf.start + ipOffset);
    StartIsRightExactly(f, ipOffset, frame.stackPointer, bp, m, secs, regs);
    StartErrors(f, ipOffset, frame.stackPointer, bp);
    UnwindIs(data, rf, f, frame, ipOffset, bp, n);
    var start := FrameBase(f, ipOffset, frame.stackPointer, bp);
    if start.Ok? {
      UndoesProlog(data, rf, ipOffset, n, start.value, o, callerSp, callerBp, secs, pending, regs, now);
    }
  }

  /** Undoing the codes from the stack pointer `base`. */
  lemma UndoesProlog(
    data: UnwindData, rf: RuntimeFunction, ipOffset: u32, n: nat, base: nat,
    o: Origin, callerSp: int, callerBp: int, secs: seq<Section>, pending: seq<Slot>, regs: Registers, now: Machine)
    requires ChainEnds(EntriesOf(data), rf, n)
    requires Described(EntriesOf(data), rf, o, secs, pending, Some(ipOffset))
    requires LegalChain(Entered(o, callerSp, callerBp), secs, regs)
    requires var end := RunChain(Entered(o, callerSp, callerBp), secs, regs);
             end.sp >= 0 && InBody(now, end, !SavesChain(secs))
    ensures var m := Entered(o, callerSp, callerBp);
            var end := RunChain(m, secs, regs);
            var r := UnwindFrom(EntriesOf(data), data.offset, rf, Some(ipOffset), base, None, n);
            && r.Ok?
            && (r.value.nextIpAddr == m.sp + o.ErrorSize() <==> base == end.sp)
            && (base == end.sp ==> Recovers(o, callerSp, callerBp, now, r.value))
  {
    hide Described, LegalChain, RunChain, SavesChain, ChainEnds, UnwindFrom, TotalChain, ParseInfo;
    var m, entries := Entered(o, callerSp, callerBp), EntriesOf(data);
    var end := RunChain(m, secs, regs);
    EnteredFrame(o, callerSp, callerBp);
    ChainKeepsFrame(m, secs, regs);
    ChainAddresses(entries, data.offset, rf, o, secs, pending, Some(ipOffset), m, regs, base, None, n);
    if base == end.sp {
      ChainFindsBp(entries, data.offset, rf, o, secs, pending, Some(ipOffset), m, regs, None, n, now);
    }
  }

  lemma StartErrors(f: FunctionEntry, ipOffset: u32, sp: u64, bp: Option<u64>)
    ensures var start := FrameBase(f, ipOffset, sp, bp);
            && (start == Err(MissingFramePointer) <==> UsesPointer(f, ipOffset) && bp.None?)
            && (start.Err? <==> UsesPointer(f, ipOffset) && (bp.None? || bp.value < f.frameRegisterOffset.value))
  {
  }

  // ---- Which prologs start right

  predicate Sets(steps: seq<Slot>) {
    steps != [] && (Sets(Front(steps)) || Meaning(Last(steps).code).SetFpReg?)
  }

  predicate SetsChain(secs: seq<Section>) {
    secs != [] && (SetsChain(secs[1..]) || Sets(secs[0].steps))
  }

  /** The frame pointer was set, and no stack taken since. */
  predicate PointerSet(steps: seq<Slot>) {
    steps != [] &&
    var op := Meaning(Last(steps).code);
    op.SetFpReg? || (Size(op) == 0 && PointerSet(Front(steps)))
  }

  predicate ChainPointerSet(secs: seq<Section>) {
    secs != [] &&
    (PointerSet(secs[0].steps) || (!Sets(secs[0].steps) && Total(secs[0].steps) == 0 && ChainPointerSet(secs[1..])))
  }

  lemma {:induction false} PointerAboveIs(steps: seq<Slot>, fp: FramePointer)
    ensures PointerAbove(steps, fp).Some? <==> Sets(steps) && fp.register == RBP
    ensures PointerAbove(steps, fp).Some? ==> PointerAbove(steps, fp).value >= fp.offset
    ensures fp.register == RBP ==> (PointerAbove(steps, fp) == Some(fp.offset) <==> PointerSet(steps))
    ensures PointerSet(steps) ==> Sets(steps)
  {
    if steps != [] {
      PointerAboveIs(Front(steps), fp);
    }
  }

  lemma {:induction false} ChainPointerAboveIs(secs: seq<Section>, fp: FramePointer)
    requires forall sec :: sec in secs ==> sec.fp == fp
    ensures ChainPointer(secs).Some? <==> SetsChain(secs) && fp.register == RBP
    ensures ChainPointer(secs).Some? ==> ChainPointer(secs).value >= fp.offset
    ensures fp.register == RBP ==> (ChainPointer(secs) == Some(fp.offset) <==> ChainPointerSet(secs))
  {
    if secs != [] {
      assert secs[0] in secs && forall sec :: sec in secs[1..] ==> sec in secs;
      ChainPointerAboveIs(secs[1..], fp);
      PointerAboveIs(secs[0].steps, fp);
    }
  }

  /** RBP being the frame pointer, at the offset the entry says, unwinding starts right exactly if
      the prologs have set it and took no stack since, or have not set it and the caller's RBP
      points there by chance; where the body has moved RSP does not matter. */
  lemma FramePointerFreesRsp(f: FunctionEntry, ipOffset: u32, sp: u64, m: Machine, secs: seq<Section>)
    requires f.frameRegisterOffset.Some? && ipOffset != 0
    requires forall sec :: sec in secs ==> sec.fp == FramePointer(RBP, f.frameRegisterOffset.value)
    ensures RightStart(f, ipOffset, sp, true, m, secs) <==>
            ChainPointerSet(secs) || (!SetsChain(secs) && m.bp == m.sp - TotalChain(secs) + f.frameRegisterOffset.value)
  {
    ChainPointerAboveIs(secs, FramePointer(RBP, f.frameRegisterOffset.value));
  }

  /** Without a frame pointer, and at the first instruction with or without one, unwinding starts
      right exactly if RSP is where the prologs left it; RBP need not be known. */
  lemma StartsFromRsp(f: FunctionEntry, ipOffset: u32, sp: u64, bpKnown: bool, m: Machine, secs: seq<Section>, regs: Registers)
    requires f.frameRegisterOffset.None? || ipOffset == 0
    ensures RightStart(f, ipOffset, sp, bpKnown, m, secs) <==> sp == RunChain(m, secs, regs).sp
    ensures FrameBase(f, ipOffset, sp, None) == Ok(sp)
  {
    ChainPointerIs(m, secs, regs);
  }

  /** The unwind information names the frame register, and the unwinder takes it to be RBP: it
      starts right whatever the registers at entry were exactly if the register is RBP and the
      prologs have set it and took no stack since. */
  lemma FrameRegisterMustBeRbp(i: UnwindInfo, ipOffset: u32, secs: seq<Section>)
    requires Storable(i) && i.frameRegister != 0 && ipOffset != 0
    requires forall sec :: sec in secs ==> sec.fp == FramePointer(i.frameRegister, 16 * i.frameOffset)
    ensures (forall m: Machine, sp: u64 :: RightStart(EntryOf(i), ipOffset, sp, true, m, secs))
            <==> i.frameRegister == RBP && ChainPointerSet(secs)
  {
    ChainPointerAboveIs(secs, FramePointer(i.frameRegister, 16 * i.frameOffset));
    var m := Machine(0, 16 * i.frameOffset - TotalChain(secs) + 1, map[]);
    assert ChainPointer(secs).None? ==> !RightStart(EntryOf(i), ipOffset, 0, true, m, secs);
    assert RightStart(EntryOf(i), ipOffset, 0, true, m, secs) ==> ChainPointer(secs) == Some(16 * i.frameOffset);
  }

  const PUSH_RBP := Slot(1, PushNonvol(RBP))
  const SET_POINTER := Slot(4, SetFramePointer(0))
  const SUB_32 := Slot(8, AllocSmall(3))
  const AT_RSP := FramePointer(RBP, 0)

  /** The window before the frame pointer is set: with `push rbp; mov rbp, rsp` interrupted after
      the push, the start is right only if the caller's RBP happens to point at the top of the stack. */
  lemma PointerNotSetYet(f: FunctionEntry, sp: u64, m: Machine)
    requires f.frameRegisterOffset == Some(0)
    ensures RightStart(f, 1, sp, true, m, [Section(AT_RSP, [PUSH_RBP])]) <==> m.bp == m.sp - 8
  {
    var secs := [Section(AT_RSP, [PUSH_RBP])];
    assert secs[1..] == [] && Front([PUSH_RBP]) == [];
    assert Total([]) == 0 && PointerAbove([], AT_RSP) == None;
    assert Total([PUSH_RBP]) == 8 && PointerAbove([PUSH_RBP], AT_RSP) == None;
    assert TotalChain([]) == 0 && TotalChain(secs) == 8 && ChainPointer([]) == None;
  }

  /** Stack taken after the frame pointer was set: with `push rbp; mov rbp, rsp; sub rsp, 32` the
      start is wrong throughout the body, by the 32 bytes, whatever the registers. */
  lemma StackAfterPointer(f: FunctionEntry, ipOffset: u32, sp: u64, m: Machine, regs: Registers)
    requires f.frameRegisterOffset == Some(0) && ipOffset != 0
    requires 48 <= m.sp < 0x1_0000_0000_0000_0000
    ensures var secs := [Section(AT_RSP, [PUSH_RBP, SET_POINTER, SUB_32])];
            var end := RunChain(m, secs, regs);
            && end.sp == m.sp - 40 && end.bp == m.sp - 8
            && FrameBase(f, ipOffset, sp, Some(end.bp)) == Ok(end.sp + 32)
            && !RightStart(f, ipOffset, sp, true, m, secs)
  {
    var one, two, steps := [PUSH_RBP], [PUSH_RBP, SET_POINTER], [PUSH_RBP, SET_POINTER, SUB_32];
    var secs := [Section(AT_RSP, steps)];
    assert Front(steps) == two && Front(two) == one && Front(one) == [];
    assert Total([]) == 0 && Total(one) == 8;
    assert Total(two) == 8 && PointerAbove(two, AT_RSP) == Some(0);
    assert Total(steps) == 40 && PointerAbove(steps, AT_RSP) == Some(32);
    assert secs[1..] == [] && TotalChain([]) == 0;
    ChainPointerIs(m, secs, regs);
  }

  // ---- A chain means one entry with all its codes

  /** The codes of an entry that have been executed. */
  function Executed(items: seq<Item>, limit: Option<u32>): seq<Item> {
    if items == [] then []
    else if items[0].Code? && Skipped(limit, items[0].coded.at) then Executed(items[1..], limit)
    else [items[0]] + Executed(items[1..], limit)
  }

  /** The executed codes of the entry, then all codes of each mother in turn. */
  ghost function FlatItems(entries: Entries, rf: RuntimeFunction, limit: Option<u32>, n: nat): seq<Item>
    requires ChainEnds(entries, rf, n)
    decreases n
  {
    match entries(rf)
    case None => [Malformed]
    case Some(f) =>
      Executed(ItemsOf(f), limit)
      + if f.mother.Some? then FlatItems(entries, f.mother.value, None, n - 1) else []
  }

  predicate SavedByPush(items: seq<Item>) {
    forall item :: item in items && item.Code? && item.coded.op.Save? ==> item.coded.op.reg != RBP
  }

  predicate IsFrame(item: Item) { item.Code? && item.coded.op.PushMachFrame? }

  predicate NoFrame(items: seq<Item>) { forall item :: item in items ==> !IsFrame(item) }

  /** An interrupt frame may only be the last code of the entry at the end of the chain. */
  ghost predicate FrameAtRoot(entries: Entries, rf: RuntimeFunction, limit: Option<u32>, n: nat)
    requires ChainEnds(entries, rf, n)
    decreases n
  {
    match entries(rf)
    case None => true
    case Some(f) =>
      if f.mother.Some? then NoFrame(Executed(ItemsOf(f), limit)) && FrameAtRoot(entries, f.mother.value, None, n - 1)
      else ItemsOf(f) != [] ==> NoFrame(ItemsOf(f)[..|ItemsOf(f)| - 1])
  }

  lemma SavedByPushRest(items: seq<Item>, limit: Option<u32>)
    requires items != [] && SavedByPush(Executed(items, limit))
    ensures SavedByPush(Executed(items[1..], limit))
    ensures NoFrame(Executed(items, limit)) ==> NoFrame(Executed(items[1..], limit))
    ensures items[0].Code? && !Skipped(limit, items[0].coded.at) && items[0].coded.op.Save? ==> items[0].coded.op.reg != RBP
  {
    assert forall item :: item in Executed(items[1..], limit) ==> item in Executed(items, limit);
    assert items[0].Code? && !Skipped(limit, items[0].coded.at) ==> items[0] in Executed(items, limit);
  }

  /** One code read `start` bytes further down. */
  lemma UndoShifted(op: UnwindOp, isLast: bool, isLastOfOwn: bool, hasMother: bool,
                    start: u32, sp: u32, own: Option<u32>, bp: Option<u32>)
    requires start + sp < 0x1_0000_0000
    requires own.Some? ==> bp == Some(start + own.value) && own.value <= sp
    requires op.Save? ==> op.reg != RBP
    requires Undo(op, isLast, false, start + sp, bp).Go?
    ensures Undo(op, isLastOfOwn, hasMother, sp, own).Go?
    ensures var (whole, part) := (Undo(op, isLast, false, start + sp, bp), Undo(op, isLastOfOwn, hasMother, sp, own));
            && whole.sp == start + part.sp
            && (part.bp.Some? ==> whole.bp == Some(start + part.bp.value) && part.bp.value <= part.sp)
            && (part.bp.None? ==> whole.bp == bp)
            && (own.Some? ==> part.bp.Some?)
  {
  }

  /** A reading that does not fail takes its first code and goes on, unless that ends it. */
  lemma ReadFirst(items: seq<Item>, hasMother: bool, sp: u32, bp: Option<u32>)
    requires items != [] && !IsFrame(items[0]) && ReadCodes(items, None, hasMother, sp, bp).Ok?
    ensures items[0].Code?
    ensures var p := Undo(items[0].coded.op, |items| == 1, hasMother, sp, bp);
            p.Go? && ReadCodes(items, None, hasMother, sp, bp) == ReadCodes(items[1..], None, hasMother, p.sp, p.bp)
  {
  }

  /** Reading the executed codes of an entry on their own, from zero, against reading them in the
      middle of more codes. */
  lemma {:induction false} ReadInMiddle(items: seq<Item>, limit: Option<u32>, hasMother: bool, tail: seq<Item>,
                                        start: u32, sp: u32, own: Option<u32>, bp: Option<u32>)
    requires SavedByPush(Executed(items, limit)) && NoFrame(Executed(items, limit)) && start + sp < 0x1_0000_0000
    requires own.Some? ==> bp == Some(start + own.value) && own.value <= sp
    requires ReadCodes(Executed(items, limit) + tail, None, false, start + sp, bp).Ok?
    ensures var r := ReadCodes(items, limit, hasMother, sp, own);
            && r.Ok? && r.value.1.SpOffset?
            && var (o, total) := (r.value.0, r.value.1.offset);
            && start + total < 0x1_0000_0000
            && (o.Some? ==> start + o.value < 0x1_0000_0000)
            && (own.Some? ==> o.Some?)
            && ReadCodes(Executed(items, limit) + tail, None, false, start + sp, bp)
               == ReadCodes(tail, None, false, start + total, if o.Some? then Some(start + o.value) else bp)
  {
    hide Undo, SavedByPush, Skipped;
    var done := Executed(items, limit);
    if items == [] {
      assert done + tail == tail;
    } else {
      var rest := items[1..];
      SavedByPushRest(items, limit);
      if items[0].Code? && Skipped(limit, items[0].coded.at) {
        assert ReadCodes(items, limit, hasMother, sp, own) == ReadCodes(rest, limit, hasMother, sp, own);
        ReadInMiddle(rest, limit, hasMother, tail, start, sp, own, bp);
      } else {
        var flat := done + tail;
        assert done[0] == items[0] && flat[0] == items[0] && flat[1..] == Executed(rest, limit) + tail;
        ReadFirst(flat, false, start + sp, bp);
        var op := items[0].coded.op;
        var whole, part := Undo(op, |flat| == 1, false, start + sp, bp), Undo(op, |items| == 1, hasMother, sp, own);
        UndoShifted(op, |flat| == 1, |items| == 1, hasMother, start, sp, own, bp);
        assert ReadCodes(items, limit, hasMother, sp, own) == ReadCodes(rest, limit, hasMother, part.sp, part.bp);
        ReadInMiddle(rest, limit, hasMother, tail, start, part.sp, part.bp, whole.bp);
      }
    }
  }

  /** The same at the end, where an interrupt frame may be last. */
  lemma {:induction false} ReadAtEnd(items: seq<Item>, limit: Option<u32>, start: u32, sp: u32, own: Option<u32>, bp: Option<u32>)
    requires SavedByPush(Executed(items, limit)) && start + sp < 0x1_0000_0000
    requires items != [] ==> NoFrame(items[..|items| - 1])
    requires own.Some? ==> bp == Some(start + own.value) && own.value <= sp
    requires ReadCodes(Executed(items, limit), None, false, start + sp, bp).Ok?
    ensures var r := ReadCodes(items, limit, false, sp, own);
            && r.Ok?
            && var (o, step) := r.value;
            && start + step.offset < 0x1_0000_0000
            && (o.Some? ==> start + o.value < 0x1_0000_0000)
            && (own.Some? ==> o.Some?)
            && ReadCodes(Executed(items, limit), None, false, start + sp, bp)
               == Ok((if o.Some? then Some(start + o.value) else bp,
                      if step.MachInst? then MachInst(start + step.offset) else SpOffset(start + step.offset)))
  {
    hide Undo, SavedByPush, Skipped;
    var done := Executed(items, limit);
    if items != [] {
      var rest := items[1..];
      SavedByPushRest(items, limit);
      assert rest != [] ==> rest[..|rest| - 1] == items[..|items| - 1][1..];
      if items[0].Code? && Skipped(limit, items[0].coded.at) {
        ReadAtEnd(rest, limit, start, sp, own, bp);
      } else if IsFrame(items[0]) {
        if |items| > 1 {
          FirstInFront(items);
        }
        assert items == [items[0]];
        OneFrame(items[0], limit, sp, own);
        NotSkipped(items[0].coded.at);
        OneFrame(items[0], None, start + sp, bp);
        FrameShifted(items[0].coded.op, start, sp, own, bp);
      } else {
        assert done[0] == items[0] && done[1..] == Executed(rest, limit);
        ReadFirst(done, false, start + sp, bp);
        var op := items[0].coded.op;
        var whole, part := Undo(op, |done| == 1, false, start + sp, bp), Undo(op, |items| == 1, false, sp, own);
        UndoShifted(op, |done| == 1, |items| == 1, false, start, sp, own, bp);
        assert ReadCodes(items, limit, false, sp, own) == ReadCodes(rest, limit, false, part.sp, part.bp);
        ReadAtEnd(rest, limit, start, part.sp, part.bp, whole.bp);
      }
    }
  }

  lemma FirstInFront(items: seq<Item>)
    requires |items| > 1
    ensures items[0] in items[..|items| - 1]
  {
    assert items[..|items| - 1][0] == items[0];
  }

  lemma NotSkipped(at: byte)
    ensures !Skipped(None, at)
  {
  }

  lemma OneFrame(item: Item, limit: Option<u32>, sp: u32, bp: Option<u32>)
    requires IsFrame(item) && !Skipped(limit, item.coded.at)
    ensures Executed([item], limit) == [item]
    ensures var p := Undo(item.coded.op, true, false, sp, bp); p.Stop? && ReadCodes([item], limit, false, sp, bp) == p.result
  {
  }

  lemma FrameShifted(op: UnwindOp, start: u32, sp: u32, own: Option<u32>, bp: Option<u32>)
    requires op.PushMachFrame? && start + sp < 0x1_0000_0000
    ensures var (whole, part) := (Undo(op, true, false, start + sp, bp), Undo(op, true, false, sp, own));
            && whole.Stop? && part.Stop?
            && (whole.result.Ok? ==>
                  && part.result.Ok? && part.result.value.1.MachInst?
                  && part.result.value.0 == own
                  && start + part.result.value.1.offset < 0x1_0000_0000
                  && whole.result.value == (bp, MachInst(start + part.result.value.1.offset)))
  {
  }

  lemma ReadEdges(sp: u32, bp: Option<u32>)
    ensures ReadCodes([], None, false, sp, bp) == Ok((bp, SpOffset(sp)))
    ensures ReadCodes([Malformed], None, false, sp, bp).Err?
  {
  }

  /** Unwinding a chain of entries of any length equals unwinding a single entry that has the
      executed codes of the first and all codes of its mothers, ending in a call or an interrupt. */
  lemma {:induction false} ChainIsFlat(entries: Entries, load: u64, rf: RuntimeFunction, limit: Option<u32>,
                                       base: nat, start: u32, bp: Option<u32>, n: nat)
    requires ChainEnds(entries, rf, n) && SavedByPush(FlatItems(entries, rf, limit, n)) && FrameAtRoot(entries, rf, limit, n)
    requires ReadCodes(FlatItems(entries, rf, limit, n), None, false, start, bp).Ok?
    ensures var flat := ReadCodes(FlatItems(entries, rf, limit, n), None, false, start, bp).value;
            var ip := base + flat.1.offset;
            var r := UnwindFrom(entries, load, rf, limit, base + start, if bp.Some? then Some(base + bp.value) else None, n);
            && r.Ok? && r.value.nextIpAddr == ip
            && r.value.nextSp == (if flat.1.MachInst? then Addr(ip + 0x18) else NextSp.Value(ip + 8))
            && r.value.nextBpAddr == if flat.0.Some? then Some(base + flat.0.value) else None
    decreases n
  {
    hide ReadCodes, ItemsOf, Executed, UnwindFrom, NoFrame;
    if entries(rf).None? {
      ReadEdges(start, bp);
    } else {
      var f := entries(rf).value;
      var tail := if f.mother.Some? then FlatItems(entries, f.mother.value, None, n - 1) else [];
      var own := ItemsOf(f);
      assert FlatItems(entries, rf, limit, n) == Executed(own, limit) + tail;
      assert forall item :: item in Executed(own, limit) || item in tail ==> item in Executed(own, limit) + tail;
      var abs := if bp.Some? then Some(base + bp.value) else None;
      if f.mother.Some? {
        ReadInMiddle(own, limit, true, tail, start, 0, None, bp);
        var r := ReadCodes(own, limit, true, 0, None);
        var (o, total) := (r.value.0, r.value.1.offset);
        UnwindOne(entries, load, rf, limit, base + start, abs, n, o, r.value.1);
        ChainIsFlat(entries, load, f.mother.value, None, base, start + total, if o.Some? then Some(start + o.value) else bp, n - 1);
      } else {
        assert Executed(own, limit) + tail == Executed(own, limit);
        ReadAtEnd(own, limit, start, 0, None, bp);
        var r := ReadCodes(own, limit, false, 0, None);
        UnwindOne(entries, load, rf, limit, base + start, abs, n, r.value.0, r.value.1);
      }
    }
  }
}
