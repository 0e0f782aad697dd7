/** What a prolog does to the machine, and the proof that unwinding inverts it.

    The words of a frame are at addresses that differ by multiples of 8, as `Legal` demands, so a
    map from addresses to words is the memory the unwinder reads. */
module Prologs {
  import opened Outcomes
  import opened Bytes
  import opened UnwindCodes
  import opened FunctionTable
  import opened Unwinder

  /** RSP, RBP, and the words written to the stack since the function was entered. */
  datatype Machine = Machine(sp: int, bp: int, mem: map<int, int>)

  /** The values of the registers a prolog saves, apart from RBP. */
  datatype Registers = Registers(general: nibble -> int, xmmLow: nibble -> int, xmmHigh: nibble -> int)

  /** How control came to the function: by a call, or by an interrupt that left its own frame,
      with an error code or not, on the stack at `top`. */
  datatype Origin =
    | Call(returnIp: int)
    | Interrupt(top: int, ip: int, cs: int, flags: int, ss: int, error: Option<int>)
  {
    function ResumeIp(): int { if Call? then returnIp else ip }

    /** Bytes between the stack pointer at entry and the address of the instruction to resume. */
    function ErrorSize(): u32 { if Interrupt? && error.Some? then 8 else 0 }
  }

  /** The machine at the first instruction of the function. */
  function Entered(o: Origin, callerSp: int, callerBp: int): Machine {
    match o
    case Call(ip) => Machine(callerSp - 8, callerBp, map[callerSp - 8 := ip])
    case Interrupt(top, ip, cs, flags, ss, error) =>
      var frame := map[top - 8 := ss, top - 16 := callerSp, top - 24 := flags, top - 32 := cs, top - 40 := ip];
      match error
      case None => Machine(top - 40, callerBp, frame)
      case Some(code) => Machine(top - 48, callerBp, frame[top - 48 := code])
  }

  // ---- Executing prolog steps, in program order

  function Value(m: Machine, regs: Registers, reg: nibble): int {
    if reg == RBP then m.bp else regs.general(reg)
  }

  /** The register a prolog sets as frame pointer, and how far above RSP. */
  datatype FramePointer = FramePointer(register: nibble, offset: int)

  function Exec(m: Machine, op: UnwindOp, fp: FramePointer, regs: Registers): Machine {
    match op
    case Push(reg) => Machine(m.sp - 8, m.bp, m.mem[m.sp - 8 := Value(m, regs, reg)])
    case Alloc(size) => m.(sp := m.sp - size)
    case SetFpReg => if fp.register == RBP then m.(bp := m.sp + fp.offset) else m
    case Save(reg, offset) => m.(mem := m.mem[m.sp + offset := Value(m, regs, reg)])
    case SaveXmm128(reg, offset) =>
      m.(mem := m.mem[m.sp + offset := regs.xmmLow(reg)][m.sp + offset + 8 := regs.xmmHigh(reg)])
    case Epilog => m
    case PushMachFrame(_) => m  // the interrupt itself, already part of the entry state
  }

  /** Every save has its own slot. */
  predicate Legal(m: Machine, op: UnwindOp) {
    match op
    case Alloc(size) => size % 8 == 0
    case Save(_, offset) => offset % 8 == 0 && m.sp + offset !in m.mem
    case SaveXmm128(_, offset) => offset % 8 == 0 && m.sp + offset !in m.mem && m.sp + offset + 8 !in m.mem
    case PushMachFrame(_) => false
    case _ => true
  }

  function Last<T>(s: seq<T>): T requires s != [] { s[|s|-1] }

  function Front<T>(s: seq<T>): seq<T> requires s != [] { s[..|s|-1] }

  function Run(m: Machine, steps: seq<Slot>, fp: FramePointer, regs: Registers): Machine {
    if steps == [] then m
    else Exec(Run(m, Front(steps), fp, regs), Meaning(Last(steps).code), fp, regs)
  }

  predicate LegalRun(m: Machine, steps: seq<Slot>, fp: FramePointer, regs: Registers) {
    steps == [] ||
    (LegalRun(m, Front(steps), fp, regs)
     && Legal(Run(m, Front(steps), fp, regs), Meaning(Last(steps).code)))
  }

  // ---- What the codes of executed steps add up to

  function Size(op: UnwindOp): nat {
    match op case Push(_) => 8 case Alloc(size) => size case _ => 0
  }

  function Total(steps: seq<Slot>): nat {
    if steps == [] then 0 else Total(Front(steps)) + Size(Meaning(Last(steps).code))
  }

  predicate SavesBp(op: UnwindOp) {
    op == Push(RBP) || (op.Save? && op.reg == RBP)
  }

  predicate Saves(steps: seq<Slot>) {
    steps != [] && (Saves(Front(steps)) || SavesBp(Meaning(Last(steps).code)))
  }

  /** RBP becomes the frame pointer only once the caller's RBP is on the stack. */
  predicate KeepsBp(steps: seq<Slot>, fp: FramePointer, saved: bool) {
    steps == [] ||
    (KeepsBp(Front(steps), fp, saved)
     && (fp.register == RBP && Meaning(Last(steps).code).SetFpReg? ==> saved || Saves(Front(steps))))
  }

  /** No stack is taken after RBP was saved by a move; `after` bytes are taken after `steps`. */
  predicate SavesStay(steps: seq<Slot>, after: nat) {
    steps == [] ||
    (SavesStay(Front(steps), after + Size(Meaning(Last(steps).code)))
     && (Meaning(Last(steps).code).Save? && Meaning(Last(steps).code).reg == RBP ==> after == 0))
  }

  /** The offset of the saved RBP after the code of a step `sp` above the base was read. */
  function NextBp(op: UnwindOp, sp: nat, bp: Option<nat>): Option<nat> {
    if op == Push(RBP) then Some(sp) else if op.Save? && op.reg == RBP then Some(op.offset) else bp
  }

  /** The unwinder's choice among several saves of RBP: the one executed first. */
  function BpOffset(steps: seq<Slot>, sp: nat, bp: Option<nat>): Option<nat> {
    if steps == [] then bp else
    var op := Meaning(Last(steps).code);
    BpOffset(Front(steps), sp + Size(op), NextBp(op, sp, bp))
  }

  /** The slots as the compiler stores them: last step first. */
  function Backwards(steps: seq<Slot>): (slots: seq<Slot>)
    ensures |slots| == |steps|
    ensures forall s :: s in slots <==> s in steps
  {
    if steps == [] then [] else [Last(steps)] + Backwards(Front(steps))
  }

  predicate Within(limit: Option<u32>, at: byte) { limit.Some? ==> at <= limit.value }

  lemma ReadOne(last: Slot, items: seq<Item>, limit: Option<u32>, hasMother: bool, sp: u32, bp: Option<u32>)
    requires !last.code.MachFrame? && Within(limit, last.at)
    requires sp + Size(Meaning(last.code)) < 0x1_0000_0000
    ensures ReadCodes([Code(MeaningOf(last))] + items, limit, hasMother, sp, bp)
         == ReadCodes(items, limit, hasMother, sp + Size(Meaning(last.code)), NextBp(Meaning(last.code), sp, bp))
  {
    assert ([Code(MeaningOf(last))] + items)[1..] == items;
  }

  /** Reading the codes of executed steps goes on with their total size and the chosen offset. */
  lemma {:induction false} ReadExecuted(steps: seq<Slot>, tail: seq<Item>, limit: Option<u32>, hasMother: bool,
                                        sp: u32, bp: Option<u32>)
    requires forall s :: s in steps ==> !s.code.MachFrame? && Within(limit, s.at)
    requires sp + Total(steps) < 0x1_0000_0000
    ensures BpOffset(steps, sp, bp).Some? ==> BpOffset(steps, sp, bp).value < 0x1_0000_0000
    ensures ReadCodes(Meanings(Backwards(steps)) + tail, limit, hasMother, sp, bp)
         == ReadCodes(tail, limit, hasMother, sp + Total(steps), BpOffset(steps, sp, bp))
  {
    hide ReadCodes;
    if steps == [] {
      assert Meanings(Backwards(steps)) + tail == tail;
    } else {
      var last, front := Last(steps), Front(steps);
      var items := Meanings(Backwards(front)) + tail;
      assert Meanings(Backwards(steps)) + tail == [Code(MeaningOf(last))] + items;
      assert last in steps && forall s :: s in front ==> s in steps;
      var op := Meaning(last.code);
      ReadOne(last, items, limit, hasMother, sp, bp);
      ReadExecuted(front, tail, limit, hasMother, sp + Size(op), NextBp(op, sp, bp));
    }
  }

  /** Codes of steps not yet executed change nothing. */
  lemma {:induction false} SkipPending(executed: seq<Slot>, pending: seq<Slot>, limit: u32, hasMother: bool)
    requires forall s :: s in pending ==> s.at > limit
    ensures ReadCodes(Meanings(Backwards(executed + pending)), Some(limit), hasMother, 0, None)
         == ReadCodes(Meanings(Backwards(executed)), Some(limit), hasMother, 0, None)
  {
    if pending == [] {
      assert executed + pending == executed;
    } else {
      var all := executed + pending;
      assert Front(all) == executed + Front(pending);
      assert Last(all) == Last(pending) && Last(pending) in pending;
      SkipPending(executed, Front(pending), limit, hasMother);
      assert Meanings(Backwards(all)) == [Code(MeaningOf(Last(all)))] + Meanings(Backwards(Front(all)));
    }
  }

  lemma SkipAllPending(executed: seq<Slot>, pending: seq<Slot>, limit: Option<u32>, hasMother: bool)
    requires forall s :: s in pending ==> limit.Some? && s.at > limit.value
    ensures ReadCodes(Meanings(Backwards(executed + pending)), limit, hasMother, 0, None)
         == ReadCodes(Meanings(Backwards(executed)), limit, hasMother, 0, None)
  {
    if pending != [] {
      assert pending[0] in pending;
      SkipPending(executed, pending, limit.value, hasMother);
    } else {
      assert executed + pending == executed;
    }
  }

  // ---- One section of a prolog

  ghost predicate Extends(big: map<int, int>, small: map<int, int>) {
    forall a :: a in small ==> a in big && big[a] == small[a]
  }

  ghost predicate Above(m: Machine) { forall a :: a in m.mem ==> m.sp <= a }

  lemma {:induction false} RunKeepsFrame(m: Machine, steps: seq<Slot>, fp: FramePointer, regs: Registers)
    requires Above(m) && LegalRun(m, steps, fp, regs)
    ensures var end := Run(m, steps, fp, regs);
            Above(end) && Extends(end.mem, m.mem) && end.sp == m.sp - Total(steps)
  {
    if steps != [] {
      RunKeepsFrame(m, Front(steps), fp, regs);
    }
  }

  /** The slot chosen for RBP holds what RBP was before the section, if the section saves it;
      otherwise the section leaves RBP alone. `after` bytes lie below the section. */
  lemma {:induction false} BpSlotHolds(m: Machine, steps: seq<Slot>, fp: FramePointer, regs: Registers,
                                       after: nat, bp: Option<nat>)
    requires Above(m) && LegalRun(m, steps, fp, regs)
    requires KeepsBp(steps, fp, false) && SavesStay(steps, after)
    ensures var end := Run(m, steps, fp, regs);
            if Saves(steps) then
              var o := BpOffset(steps, after, bp);
              o.Some? && end.sp - after + o.value in end.mem && end.mem[end.sp - after + o.value] == m.bp
            else BpOffset(steps, after, bp) == bp && end.bp == m.bp
  {
    if steps != [] {
      var front, op := Front(steps), Meaning(Last(steps).code);
      var before := Run(m, front, fp, regs);
      var bp' := NextBp(op, after, bp);
      RunKeepsFrame(m, front, fp, regs);
      BpSlotHolds(m, front, fp, regs, after + Size(op), bp');
      assert Extends(Exec(before, op, fp, regs).mem, before.mem);
    }
  }

  // ---- Chains of entries: the prolog of the root mother runs first, that of the entry last

  datatype Section = Section(fp: FramePointer, steps: seq<Slot>)

  /** Innermost section first, as the unwinder meets them. */
  function RunChain(m: Machine, secs: seq<Section>, regs: Registers): Machine {
    if secs == [] then m
    else Run(RunChain(m, secs[1..], regs), secs[0].steps, secs[0].fp, regs)
  }

  ghost predicate LegalChain(m: Machine, secs: seq<Section>, regs: Registers) {
    secs != [] ==>
      && LegalChain(m, secs[1..], regs)
      && LegalRun(RunChain(m, secs[1..], regs), secs[0].steps, secs[0].fp, regs)
      && SavesStay(secs[0].steps, 0)
      && KeepsBp(secs[0].steps, secs[0].fp, SavesChain(secs[1..]))
  }

  predicate SavesChain(secs: seq<Section>) {
    secs != [] && (SavesChain(secs[1..]) || Saves(secs[0].steps))
  }

  function TotalChain(secs: seq<Section>): nat {
    if secs == [] then 0 else Total(secs[0].steps) + TotalChain(secs[1..])
  }

  /** The slots of the entry whose prolog is `steps`; the root of a chain entered by an interrupt
      starts with the interrupt frame. */
  function SlotsOf(o: Origin, isRoot: bool, steps: seq<Slot>): seq<Slot> {
    (if isRoot && o.Interrupt? then [Slot(0, MachFrame(o.error.Some?))] else []) + steps
  }

  ghost predicate Encodes(f: FunctionEntry, slots: seq<Slot>) {
    && f.unwindCodes == Encode(Backwards(slots))
    && forall s :: s in slots ==> Expressible(f.version, s.code)
  }

  /** The unwind data of the chain from `rf` describes the sections, of which the innermost has
      also the steps `pending`, not executed yet at offset `limit` of its function. */
  ghost predicate Described(entries: Entries, rf: RuntimeFunction, o: Origin, secs: seq<Section>,
                            pending: seq<Slot>, limit: Option<u32>)
    decreases |secs|
  {
    && secs != []
    && Total(secs[0].steps) < 0x1_0000_0000 - 8
    && (forall s :: s in secs[0].steps ==> Within(limit, s.at))
    && (forall s :: s in pending ==> limit.Some? && s.at > limit.value)
    && entries(rf).Some?
    && var f := entries(rf).value;
    && Encodes(f, SlotsOf(o, |secs| == 1, secs[0].steps) + pending)
    && (f.mother.Some? <==> |secs| > 1)
    && (f.mother.Some? ==> Described(entries, f.mother.value, o, secs[1..], [], None))
  }

  lemma DescribesSome(entries: Entries, rf: RuntimeFunction, o: Origin, secs: seq<Section>,
                      pending: seq<Slot>, limit: Option<u32>)
    requires Described(entries, rf, o, secs, pending, limit)
    ensures secs != []
  {
  }

  /** Reading the codes of an entry that describes a section, whatever is pending. */
  lemma ReadSection(f: FunctionEntry, o: Origin, isRoot: bool, steps: seq<Slot>, pending: seq<Slot>, limit: Option<u32>)
    requires Encodes(f, SlotsOf(o, isRoot, steps) + pending)
    requires forall s :: s in steps ==> Within(limit, s.at) && !s.code.MachFrame?
    requires forall s :: s in pending ==> limit.Some? && s.at > limit.value
    requires Total(steps) < 0x1_0000_0000 - 8
    ensures BpOffset(steps, 0, None).Some? ==> BpOffset(steps, 0, None).value < 0x1_0000_0000
    ensures ReadCodes(ItemsOf(f), limit, !isRoot, 0, None)
         == Ok((BpOffset(steps, 0, None),
                if isRoot && o.Interrupt? then MachInst(Total(steps) + o.ErrorSize()) else SpOffset(Total(steps))))
  {
    hide *;
    DecodeEncodes(f, SlotsOf(o, isRoot, steps) + pending);
    SkipAllPending(SlotsOf(o, isRoot, steps), pending, limit, !isRoot);
    SlotsBackwards(o, isRoot, steps);
    ReadExecuted(steps, FrameItem(o, isRoot), limit, !isRoot, 0, None);
    var bp := BpOffset(steps, 0, None);
    var bp32: Option<u32> := if bp.Some? then Some(bp.value) else None;
    assert bp32 == bp;
    ReadFrameItem(o, isRoot, limit, Total(steps), bp32);
  }

  lemma DecodeEncodes(f: FunctionEntry, slots: seq<Slot>)
    requires Encodes(f, slots)
    ensures ItemsOf(f) == Meanings(Backwards(slots))
  {
    hide Encode, Expressible, Items, Meanings;
    DecodeEncoded(f.version, Backwards(slots));
  }

  /** The code of the interrupt frame, which only the root of a chain has. */
  function FrameItem(o: Origin, isRoot: bool): seq<Item> {
    if isRoot && o.Interrupt? then [Code(Coded(0, PushMachFrame(o.error.Some?)))] else []
  }

  lemma SlotsBackwards(o: Origin, isRoot: bool, steps: seq<Slot>)
    ensures Meanings(Backwards(SlotsOf(o, isRoot, steps))) == Meanings(Backwards(steps)) + FrameItem(o, isRoot)
  {
    if isRoot && o.Interrupt? {
      BackwardsCons(Slot(0, MachFrame(o.error.Some?)), steps);
    } else {
      assert SlotsOf(o, isRoot, steps) == steps;
    }
  }

  lemma ReadFrameItem(o: Origin, isRoot: bool, limit: Option<u32>, sp: u32, bp: Option<u32>)
    requires sp < 0x1_0000_0000 - 8
    ensures ReadCodes(FrameItem(o, isRoot), limit, !isRoot, sp, bp)
         == Ok((bp, if isRoot && o.Interrupt? then MachInst(sp + o.ErrorSize()) else SpOffset(sp)))
  {
  }

  lemma {:induction false} BackwardsCons(first: Slot, steps: seq<Slot>)
    ensures Backwards([first] + steps) == Backwards(steps) + [first]
  {
    if steps != [] {
      assert Front([first] + steps) == [first] + Front(steps);
      BackwardsCons(first, Front(steps));
    }
  }

  lemma {:induction false} LegalHasNoMachFrame(m: Machine, steps: seq<Slot>, fp: FramePointer, regs: Registers)
    requires LegalRun(m, steps, fp, regs)
    ensures forall s :: s in steps ==> !s.code.MachFrame?
  {
    if steps != [] {
      LegalHasNoMachFrame(m, Front(steps), fp, regs);
      assert steps == Front(steps) + [Last(steps)];
    }
  }

  lemma {:induction false} ChainKeepsFrame(m: Machine, secs: seq<Section>, regs: Registers)
    requires Above(m) && LegalChain(m, secs, regs)
    ensures var end := RunChain(m, secs, regs);
            Above(end) && Extends(end.mem, m.mem) && end.sp == m.sp - TotalChain(secs)
  {
    if secs != [] {
      ChainKeepsFrame(m, secs[1..], regs);
      RunKeepsFrame(RunChain(m, secs[1..], regs), secs[0].steps, secs[0].fp, regs);
    }
  }

  /** RBP on entry to the innermost section is known to the unwinder: in the slot `bp`, or still
      in the register. Needed only if no section further out saves it again. */
  ghost predicate BpKnown(now: Machine, bp: Option<nat>, wanted: int) {
    match bp
    case Some(a) => a in now.mem && now.mem[a] == wanted
    case None => now.bp == wanted
  }

  /** One entry of the chain, once its codes are read. */
  lemma UnwindOne(entries: Entries, load: u64, rf: RuntimeFunction, limit: Option<u32>, base: nat, bp: Option<nat>,
                  n: nat, off: Option<u32>, step: UnwindStep)
    requires ChainEnds(entries, rf, n) && entries(rf).Some?
    requires var f := entries(rf).value; ReadCodes(ItemsOf(f), limit, f.mother.Some?, 0, None) == Ok((off, step))
    ensures var f := entries(rf).value;
            var r := UnwindFrom(entries, load, rf, limit, base, bp, n);
            var bp' := if off.Some? then Some(base + off.value) else bp;
            var ip := base + step.offset;
            if step.SpOffset? && f.mother.Some? then
              n > 0 && ChainEnds(entries, f.mother.value, n - 1)
              && r == UnwindFrom(entries, load, f.mother.value, None, ip, bp', n - 1)
            else r == Ok(UnwindResult(if step.MachInst? then Addr(ip + 0x18) else NextSp.Value(ip + 8), ip, bp',
                                      Some(load + rf.start)))
  {
    hide ItemsOf, ReadCodes;
  }

  /** Where the codes of a section say RBP was saved, as an address. */
  function SavedAt(steps: seq<Slot>, base: nat, bp: Option<nat>): Option<nat> {
    var off := BpOffset(steps, 0, None); if off.Some? then Some(base + off.value) else bp
  }

  /** Undoing the first section, entered by a call or an interrupt if it is the only one. */
  lemma SectionUndone(
    entries: Entries, load: u64, rf: RuntimeFunction, o: Origin, secs: seq<Section>, pending: seq<Slot>,
    limit: Option<u32>, base: nat, bp: Option<nat>, n: nat)
    returns (r: Result<UnwindResult, UnwindError>, mother: RuntimeFunction)
    requires ChainEnds(entries, rf, n) && Described(entries, rf, o, secs, pending, limit)
    requires forall s :: s in secs[0].steps ==> !s.code.MachFrame?
    ensures r == UnwindFrom(entries, load, rf, limit, base, bp, n)
    ensures |secs| == 1 ==>
              r.Ok? && r.value.nextIpAddr == base + Total(secs[0].steps) + o.ErrorSize()
              && r.value.nextSp == (if o.Call? then NextSp.Value(r.value.nextIpAddr + 8) else Addr(r.value.nextIpAddr + 0x18))
              && r.value.nextBpAddr == SavedAt(secs[0].steps, base, bp)
    ensures |secs| > 1 ==>
              && n > 0 && ChainEnds(entries, mother, n - 1) && Described(entries, mother, o, secs[1..], [], None)
              && r == UnwindFrom(entries, load, mother, None, base + Total(secs[0].steps), SavedAt(secs[0].steps, base, bp), n - 1)
  {
    hide Encodes, BpOffset, UnwindFrom, ReadCodes, ItemsOf, Total, ChainEnds;
    var f, steps := entries(rf).value, secs[0].steps;
    ReadSection(f, o, |secs| == 1, steps, pending, limit);
    var off := BpOffset(steps, 0, None);
    var off32: Option<u32> := if off.Some? then Some(off.value) else None;
    assert off32 == off;
    var machFrame := |secs| == 1 && o.Interrupt?;
    UnwindOne(entries, load, rf, limit, base, bp, n, off32,
              if machFrame then MachInst(Total(steps) + o.ErrorSize()) else SpOffset(Total(steps)));
    r := UnwindFrom(entries, load, rf, limit, base, bp, n);
    mother := if |secs| > 1 then f.mother.value else rf;
  }

  /** The stack pointer and addresses that unwinding from `rf` gives, for any starting `base`: the
      whole chain is undone, wherever it is taken to start. */
  lemma {:induction false} ChainAddresses(
    entries: Entries, load: u64, rf: RuntimeFunction, o: Origin, secs: seq<Section>, pending: seq<Slot>,
    limit: Option<u32>, m: Machine, regs: Registers, base: nat, bp: Option<nat>, n: nat)
    requires ChainEnds(entries, rf, n)
    requires Described(entries, rf, o, secs, pending, limit)
    requires LegalChain(m, secs, regs)
    ensures var r := UnwindFrom(entries, load, rf, limit, base, bp, n);
            var ip := base + TotalChain(secs) + o.ErrorSize();
            && r.Ok? && r.value.nextIpAddr == ip
            && r.value.nextSp == if o.Call? then NextSp.Value(ip + 8) else Addr(ip + 0x18)
    decreases |secs|
  {
    hide Described, LegalRun, Run, SavesStay, KeepsBp, SavedAt, UnwindFrom, Total, ChainEnds;
    DescribesSome(entries, rf, o, secs, pending, limit);
    var steps := secs[0].steps;
    LegalHasNoMachFrame(RunChain(m, secs[1..], regs), steps, secs[0].fp, regs);
    var r, mother := SectionUndone(entries, load, rf, o, secs, pending, limit, base, bp, n);
    if |secs| > 1 {
      ChainAddresses(entries, load, mother, o, secs[1..], [], None, m, regs, base + Total(steps), SavedAt(steps, base, bp), n - 1);
    } else {
      assert secs[1..] == [];
    }
  }

  /** Started at the right stack pointer, the unwinder also finds the caller's RBP, wherever in
      the chain it was saved first. `now` is the machine when it is unwound. */
  lemma {:induction false} ChainFindsBp(
    entries: Entries, load: u64, rf: RuntimeFunction, o: Origin, secs: seq<Section>, pending: seq<Slot>,
    limit: Option<u32>, m: Machine, regs: Registers, bp: Option<nat>, n: nat, now: Machine)
    requires ChainEnds(entries, rf, n)
    requires Described(entries, rf, o, secs, pending, limit)
    requires Above(m) && LegalChain(m, secs, regs)
    requires RunChain(m, secs, regs).sp >= 0
    requires Extends(now.mem, RunChain(m, secs, regs).mem)
    requires !SavesChain(secs) ==> BpKnown(now, bp, RunChain(m, secs, regs).bp)
    ensures var r := UnwindFrom(entries, load, rf, limit, RunChain(m, secs, regs).sp, bp, n);
            r.Ok? && BpKnown(now, r.value.nextBpAddr, m.bp)
    decreases |secs|
  {
    hide Described, LegalRun, Run, SavesStay, KeepsBp, BpOffset, Saves, UnwindFrom, Total, ChainEnds;
    DescribesSome(entries, rf, o, secs, pending, limit);
    var steps := secs[0].steps;
    var outer, end := RunChain(m, secs[1..], regs), RunChain(m, secs, regs);
    ChainKeepsFrame(m, secs[1..], regs);
    RunKeepsFrame(outer, steps, secs[0].fp, regs);
    LegalHasNoMachFrame(outer, steps, secs[0].fp, regs);
    var r, mother := SectionUndone(entries, load, rf, o, secs, pending, limit, end.sp, bp, n);
    var bp' := SavedAt(steps, end.sp, bp);
    if !SavesChain(secs[1..]) {
      BpSlotHolds(outer, steps, secs[0].fp, regs, 0, None);
      assert BpKnown(now, bp', outer.bp);
    }
    if |secs| > 1 {
      ChainFindsBp(entries, load, mother, o, secs[1..], [], None, m, regs, bp', n - 1, now);
    } else {
      assert secs[1..] == [];
    }
  }
}
