/** Walking a whole stack, frame by frame, and the proof that the walk reports the calls that are
    under way. */
module StackWalks {
  import opened Outcomes
  import opened Bytes
  import opened UnwindCodes
  import opened FunctionTable
  import opened Unwinder
  import opened Prologs
  import opened CallerRecovery
  import opened Epilogs
  import opened ModuleLookup

  datatype WalkError =
    | Unreadable
    | NoUnwindData
    | Unwinding(error: UnwindError)
    | JitCode
    | InvalidIp
    | FromCallback(code: nat)

  datatype Flow = Continue | Break

  /** Where a frame is executing. */
  datatype Position = Position(ip: u64, sp: u64, bp: Option<u64>)

  datatype Frame = Frame(ip: u64, sp: u64, start: Option<nat>, image: Option<u64>)

  type Ending = Result<(), WalkError>

  /** The guest: its memory in words, the modules of the process and of the kernel sorted by start,
      what reading the unwind data of each gives, and the addresses some area covers. */
  datatype Guest = Guest(
    read: nat -> Option<u64>,
    modules: seq<Module>,
    images: u64 -> Option<UnwindData>,
    mapped: u64 -> bool)

  /** A callback that may remember every frame it was given. */
  type Callback = seq<Frame> -> Result<Flow, WalkError>

  function FrameOf(s: Position): StackFrame { StackFrame(s.ip, s.sp) }

  /** The registers of the caller, read from the slots unwinding found. */
  function Next(g: Guest, s: Position, r: UnwindResult): Result<Position, WalkError> {
    match g.read(r.nextIpAddr)
    case None => Err(Unreadable)
    case Some(ip) =>
      var sp := match r.nextSp
                case Value(v) => if v < 0x1_0000_0000_0000_0000 then Ok(v) else Err(Unwinding(Overflow))
                case Addr(a) => match g.read(a) case None => Err(Unreadable) case Some(v) => Ok(v);
      if sp.Err? then Err(sp.error)
      else if r.nextBpAddr.None? then Ok(Position(ip, sp.value, s.bp))
      else
        var bp := g.read(r.nextBpAddr.value);
        if bp.None? then Err(Unreadable) else Ok(Position(ip, sp.value, bp))
  }

  /** An answer the function table may give at `s`. */
  ghost predicate Allowed(data: UnwindData, s: Position, links: nat, table: Answer) {
    && data.directory <= data.directoryEnd <= |data.content|
    && AnswersAt(data, FrameOf(s), table)
    && (table.Ok? && table.value.Some? ==> ChainEnds(EntriesOf(data), table.value.value, links))
  }

  ghost predicate ImagesAreSound(g: Guest, links: nat) {
    forall m :: m in g.modules && g.images(m.address).Some? ==>
      var data := g.images(m.address).value;
      data.directory <= data.directoryEnd <= |data.content| && ChainsEnd(data, links)
  }

  /** Whatever the function tables answer, the walk from `s` ends within `n` more frames. */
  ghost predicate Ends(g: Guest, s: Position, links: nat, n: nat)
    decreases n
  {
    var m := Nearest(g.modules, s.ip);
    m.Some? && g.images(m.value.address).Some? ==>
      var data := g.images(m.value.address).value;
      forall table :: Allowed(data, s, links, table) ==>
        var r := UnwindWith(data, FrameOf(s), s.bp, links, table);
        r.Ok? && Next(g, s, r.value).Ok? && Next(g, s, r.value).value.ip != 0 ==>
          n > 0 && Ends(g, Next(g, s, r.value).value, links, n - 1)
  }

  /** How the callback ends a walk that cannot go on. */
  function Finish(cb: Callback, frames: seq<Frame>, error: WalkError): Ending {
    match cb(frames)
    case Err(e) => Err(e)
    case Ok(Continue) => Err(error)
    case Ok(Break) => Ok(())
  }

  /** How a walk ends at an address in no module: it may be code generated at run time. */
  function Stray(g: Guest, s: Position, cb: Callback, seen: seq<Frame>): (seq<Frame>, Ending) {
    var frames := seen + [Frame(s.ip, s.sp, None, None)];
    if g.mapped(s.ip) && g.mapped(s.sp) then (frames, Finish(cb, frames, JitCode)) else (seen, Err(InvalidIp))
  }

  /** What happens once the frame at `s` was unwound, with `seen` reported before it. */
  ghost predicate IsStep(g: Guest, s: Position, links: nat, n: nat, cb: Callback, seen: seq<Frame>,
                         address: u64, r: Result<UnwindResult, UnwindError>, frames: seq<Frame>, end: Ending)
    requires r.Ok? && Next(g, s, r.value).Ok? && Next(g, s, r.value).value.ip != 0 ==>
               n > 0 && Ends(g, Next(g, s, r.value).value, links, n - 1)
    decreases n, 0
  {
    if r.Err? then
      frames == seen + [Frame(s.ip, s.sp, None, Some(address))] && end == Finish(cb, frames, Unwinding(r.error))
    else
      var now := seen + [Frame(s.ip, s.sp, r.value.funStart, Some(address))];
      if cb(now) != Ok(Continue) then
        frames == now && end == if cb(now).Err? then Err(cb(now).error) else Ok(())
      else
        var next := Next(g, s, r.value);
        if next.Err? then frames == now && end == Err(next.error)
        else if next.value.ip == 0 then frames == now && end == Ok(())
        else IsWalk(g, next.value, links, n - 1, cb, now, frames, end)
  }

  /** `frames` and `end` are those of a walk from `s`. */
  ghost predicate IsWalk(g: Guest, s: Position, links: nat, n: nat, cb: Callback, seen: seq<Frame>,
                         frames: seq<Frame>, end: Ending)
    requires Ends(g, s, links, n)
    decreases n, 1
  {
    match Nearest(g.modules, s.ip)
    case None => (frames, end) == Stray(g, s, cb, seen)
    case Some(m) =>
      match g.images(m.address)
      case None =>
        frames == seen + [Frame(s.ip, s.sp, None, Some(m.address))] && end == Finish(cb, frames, NoUnwindData)
      case Some(data) =>
        exists table ::
          && Allowed(data, s, links, table)
          && IsStep(g, s, links, n, cb, seen, m.address, UnwindWith(data, FrameOf(s), s.bp, links, table), frames, end)
  }

  // ---- The walk

  /** The modules, with the unwind data of those already met. */
  class Context {
    const images: u64 -> Option<UnwindData>
    var unwindData: map<u64, UnwindData>

    ghost predicate Valid()
      reads this
    {
      forall a :: a in unwindData ==> images(a) == Some(unwindData[a])
    }

    constructor (images: u64 -> Option<UnwindData>)
      ensures Valid() && this.images == images
    {
      this.images, unwindData := images, map[];
    }

    method GetUnwindData(address: u64) returns (data: Option<UnwindData>)
      requires Valid()
      modifies this
      ensures Valid() && data == images(address)
    {
      if address !in unwindData {
        var image := images(address);
        if image.None? {
          return None;
        }
        unwindData := unwindData[address := image.value];
      }
      data := Some(unwindData[address]);
    }
  }

  method HandleInvalidAddress(g: Guest, s: Position, cb: Callback, seen: seq<Frame>)
    returns (frames: seq<Frame>, end: Ending)
    ensures (frames, end) == Stray(g, s, cb, seen)
  {
    if g.mapped(s.ip) && g.mapped(s.sp) {
      frames := seen + [Frame(s.ip, s.sp, None, None)];
      end := Finish(cb, frames, JitCode);
    } else {
      frames, end := seen, Err(InvalidIp);
    }
  }

  method IterCallstack(g: Guest, start: Position, cb: Callback, ghost links: nat, ghost n: nat)
    returns (frames: seq<Frame>, end: Ending)
    requires StartsAscend(g.modules) && ImagesAreSound(g, links)
    requires Ends(g, start, links, n)
    ensures IsWalk(g, start, links, n, cb, [], frames, end)
  {
    hide Nearest, Answers, Functions, ChainEnds, Next, StartsAscend, StartsSorted, Finish, Stray, Ends, IsWalk, IsStep, ImagesAreSound, ChainsEnd;
    assert StartsSorted(g.modules) by { AscendIsSorted(g.modules); }
    var ctx := new Context(g.images);
    var s, seen := start, [];
    ghost var left := n;
    while true
      invariant ctx.Valid() && ctx.images == g.images
      invariant Ends(g, s, links, left)
      invariant forall frames, end :: IsWalk(g, s, links, left, cb, seen, frames, end) ==>
                  IsWalk(g, start, links, n, cb, [], frames, end)
      decreases left
    {
      WalkCases(g, s, links, left, cb, seen);
      var found := FindModuleByAddress(g.modules, s.ip);
      if found.None? {
        frames, end := HandleInvalidAddress(g, s, cb, seen);
        return;
      }
      var address := found.value.address;
      var image := ctx.GetUnwindData(address);
      if image.None? {
        frames := seen + [Frame(s.ip, s.sp, None, Some(address))];
        end := Finish(cb, frames, NoUnwindData);
        return;
      }
      SoundImage(g, links, s.ip);
      var r, table := UnwindFunction(image.value, FrameOf(s), s.bp, links);
      EndsStep(g, s, links, left, table);
      StepCases(g, s, links, left, cb, seen, address, r);
      if r.Err? {
        frames := seen + [Frame(s.ip, s.sp, None, Some(address))];
        end := Finish(cb, frames, Unwinding(r.error));
        return;
      }
      seen := seen + [Frame(s.ip, s.sp, r.value.funStart, Some(address))];
      var flow := cb(seen);
      if flow != Ok(Continue) {
        return seen, if flow.Err? then Err(flow.error) else Ok(());
      }
      var next := Next(g, s, r.value);
      if next.Err? {
        return seen, Err(next.error);
      }
      if next.value.ip == 0 {
        return seen, Ok(());
      }
      s, left := next.value, left - 1;
    }
  }

  lemma SoundImage(g: Guest, links: nat, ip: u64)
    requires ImagesAreSound(g, links)
    ensures var m := Nearest(g.modules, ip);
            m.Some? && g.images(m.value.address).Some? ==>
              var data := g.images(m.value.address).value;
              data.directory <= data.directoryEnd <= |data.content| && ChainsEnd(data, links)
  {
    hide ChainsEnd;
    NearestContains(g.modules, ip);
  }

  lemma EndsStep(g: Guest, s: Position, links: nat, n: nat, table: Answer)
    requires Ends(g, s, links, n)
    ensures var m := Nearest(g.modules, s.ip);
            m.Some? && g.images(m.value.address).Some? && Allowed(g.images(m.value.address).value, s, links, table) ==>
              var r := UnwindWith(g.images(m.value.address).value, FrameOf(s), s.bp, links, table);
              r.Ok? && Next(g, s, r.value).Ok? && Next(g, s, r.value).value.ip != 0 ==>
                n > 0 && Ends(g, Next(g, s, r.value).value, links, n - 1)
  {
    hide Nearest, Answers, Functions, ChainEnds, Next, UnwindWith;
  }

  lemma WalkCases(g: Guest, s: Position, links: nat, n: nat, cb: Callback, seen: seq<Frame>)
    requires Ends(g, s, links, n)
    ensures var m := Nearest(g.modules, s.ip);
            forall frames, end :: IsWalk(g, s, links, n, cb, seen, frames, end) <==>
              if m.None? then (frames, end) == Stray(g, s, cb, seen)
              else if g.images(m.value.address).None? then
                frames == seen + [Frame(s.ip, s.sp, None, Some(m.value.address))] && end == Finish(cb, frames, NoUnwindData)
              else
                exists table ::
                  && Allowed(g.images(m.value.address).value, s, links, table)
                  && IsStep(g, s, links, n, cb, seen, m.value.address,
                            UnwindWith(g.images(m.value.address).value, FrameOf(s), s.bp, links, table), frames, end)
  {
    hide Nearest, Allowed, Next, UnwindWith, Finish, IsStep;
  }

  lemma StepCases(g: Guest, s: Position, links: nat, n: nat, cb: Callback, seen: seq<Frame>,
                  address: u64, r: Result<UnwindResult, UnwindError>)
    requires r.Ok? && Next(g, s, r.value).Ok? && Next(g, s, r.value).value.ip != 0 ==>
               n > 0 && Ends(g, Next(g, s, r.value).value, links, n - 1)
    ensures forall frames, end :: IsStep(g, s, links, n, cb, seen, address, r, frames, end) <==>
              if r.Err? then
                frames == seen + [Frame(s.ip, s.sp, None, Some(address))] && end == Finish(cb, frames, Unwinding(r.error))
              else
                var now := seen + [Frame(s.ip, s.sp, r.value.funStart, Some(address))];
                var next := Next(g, s, r.value);
                if cb(now) != Ok(Continue) then
                  frames == now && end == if cb(now).Err? then Err(cb(now).error) else Ok(())
                else if next.Err? then frames == now && end == Err(next.error)
                else if next.value.ip == 0 then frames == now && end == Ok(())
                else IsWalk(g, next.value, links, n - 1, cb, now, frames, end)
  {
    hide Next, Finish, IsWalk, Ends;
  }

  /** Outside all modules a walk goes no further, whatever the callback wants: it reports one more
      frame at most, and ends well exactly if that frame may run generated code and the callback
      breaks there. */
  lemma StrayWalksEnd(g: Guest, s: Position, links: nat, n: nat, cb: Callback, seen: seq<Frame>,
                      frames: seq<Frame>, end: Ending)
    requires Ends(g, s, links, n) && IsWalk(g, s, links, n, cb, seen, frames, end)
    requires Nearest(g.modules, s.ip).None?
    ensures frames == seen || frames == seen + [Frame(s.ip, s.sp, None, None)]
    ensures end == Ok(()) <==>
            g.mapped(s.ip) && g.mapped(s.sp) && cb(seen + [Frame(s.ip, s.sp, None, None)]) == Ok(Break)
  {
    hide Nearest, Allowed, Next, UnwindWith, IsStep;
  }

  /** How a walk ends at a frame it cannot unwind, whose function start is therefore not known. */
  ghost predicate EndsAt(g: Guest, s: Position, image: Option<u64>, error: WalkError, cb: Callback, seen: seq<Frame>,
                         frames: seq<Frame>, end: Ending) {
    && frames == seen + [Frame(s.ip, s.sp, None, image)]
    && (cb(frames).Err? ==> end == Err(cb(frames).error))
    && (cb(frames) == Ok(Break) ==> end == Ok(()))
    && (cb(frames) == Ok(Continue) ==> end == Err(error))
  }

  /** A walk ends with the error of what it lacks: unwind data, a frame that unwinds, an address
      some module or some area covers. */
  lemma FailedWalksEnd(g: Guest, s: Position, links: nat, n: nat, cb: Callback, seen: seq<Frame>,
                       frames: seq<Frame>, end: Ending, error: UnwindError)
    requires Ends(g, s, links, n) && IsWalk(g, s, links, n, cb, seen, frames, end)
    ensures var m := Nearest(g.modules, s.ip);
            && (m.None? && g.mapped(s.ip) && g.mapped(s.sp) ==> EndsAt(g, s, None, JitCode, cb, seen, frames, end))
            && (m.None? && !(g.mapped(s.ip) && g.mapped(s.sp)) ==> frames == seen && end == Err(InvalidIp))
            && (m.Some? && g.images(m.value.address).None? ==>
                  EndsAt(g, s, Some(m.value.address), NoUnwindData, cb, seen, frames, end))
            && (m.Some? && g.images(m.value.address).Some?
                && (forall table :: Allowed(g.images(m.value.address).value, s, links, table) ==>
                      UnwindWith(g.images(m.value.address).value, FrameOf(s), s.bp, links, table) == Err(error)) ==>
                  EndsAt(g, s, Some(m.value.address), Unwinding(error), cb, seen, frames, end))
  {
    hide Nearest, AnswersAt, ChainEnds, Next, UnwindWith, IsWalk, IsStep, Ends;
    WalkCases(g, s, links, n, cb, seen);
    var m := Nearest(g.modules, s.ip);
    if m.Some? && g.images(m.value.address).Some? {
      var data := g.images(m.value.address).value;
      var table := TableAsked(g, s, links, n, cb, seen, frames, end);
      StepCases(g, s, links, n, cb, seen, m.value.address, UnwindWith(data, FrameOf(s), s.bp, links, table));
    }
  }

  /** The caller is known exactly if the slots unwinding found can be read, and its stack pointer
      is an address; then it is what they hold, and RBP is unchanged where none was found. */
  lemma CallerExactly(g: Guest, s: Position, r: UnwindResult, t: Position)
    ensures Next(g, s, r) == Ok(t) <==>
            && g.read(r.nextIpAddr) == Some(t.ip)
            && (r.nextSp.Value? ==> r.nextSp.sp == t.sp)
            && (r.nextSp.Addr? ==> g.read(r.nextSp.addr) == Some(t.sp))
            && (r.nextBpAddr.None? ==> t.bp == s.bp)
            && (r.nextBpAddr.Some? ==> t.bp.Some? && g.read(r.nextBpAddr.value) == t.bp)
    ensures Next(g, s, r).Err? ==>
              if g.read(r.nextIpAddr).Some? && r.nextSp.Value? && r.nextSp.sp >= 0x1_0000_0000_0000_0000
              then Next(g, s, r) == Err(Unwinding(Overflow))
              else Next(g, s, r) == Err(Unreadable)
  {
  }

  // ---- Calls under way

  /** What a function that has not returned yet is doing, `at` bytes into the image of its module. */
  datatype Activation =
    | InFunction(at: u32, rf: RuntimeFunction, origin: Origin, secs: seq<Section>, pending: seq<Slot>, regs: Registers)
    | InEpilog(at: u32, found: Option<RuntimeFunction>, insns: seq<Insn>, rest: seq<byte>, mem: map<int, int>)
    | InLeaf(at: u32, returnIp: u64)
  {
    /** The function of the table it belongs to. */
    function Entry(): Option<RuntimeFunction> {
      if InFunction? then Some(rf) else if InEpilog? then found else None
    }
  }

  ghost predicate Holds(g: Guest, mem: map<int, int>) {
    forall a :: a in mem ==> 0 <= a && g.read(a) == Some(mem[a])
  }

  /** The words an epilog pops into RBP and returns through are there. */
  predicate Reads(m: Machine, insns: seq<Insn>)
    requires Supported(insns)
    decreases |insns|
  {
    if insns == [] then m.sp in m.mem
    else (insns[0] == Pop(RBP) ==> m.sp in m.mem) && Reads(Cpu(m, insns[0]), insns[1..])
  }

  /** Enough of the table of the full image was mapped to find the function at offset `at`: all of
      it, or the entries around the offset. */
  ghost predicate Decided(data: UnwindData, at: u32, found: Option<RuntimeFunction>) {
    && data.directory <= data.directoryEnd <= |data.content|
    && exists full ::
         && WellFormed(full) && Holed(Functions(data), full)
         && (Functions(data) == full || DecidedLocally(Functions(data), full, at))
         && IsFunctionOf(full, at, found)
  }

  /** In a function entered from `t`, anywhere in its prolog or body where its codes and registers
      let unwinding start right. */
  ghost predicate RunsFunction(g: Guest, links: nat, data: UnwindData, s: Position, a: Activation, t: Position)
    requires a.InFunction? && s.bp.Some? && t.bp.Some?
  {
    var m := Entered(a.origin, t.sp, t.bp.value);
    var end := RunChain(m, a.secs, a.regs);
    && ScanFrom(data, a.at, s.sp).None?
    && ChainEnds(EntriesOf(data), a.rf, links)
    && a.rf.start <= a.at
    && Described(EntriesOf(data), a.rf, a.origin, a.secs, a.pending, Some(a.at - a.rf.start))
    && LegalChain(m, a.secs, a.regs)
    && end.sp >= 0 && Holds(g, end.mem)
    && EntriesOf(data)(a.rf).Some?
    && var f, ipOffset := EntriesOf(data)(a.rf).value, a.at - a.rf.start;
    && (UsesPointer(f, ipOffset) || !SavesChain(a.secs) ==> s.bp.value == end.bp)
    && RightStart(f, ipOffset, s.sp, true, m, a.secs)
    && t.ip == a.origin.ResumeIp()
  }

  /** In an epilog, before any of its instructions: executing the rest of it returns to `t`. */
  ghost predicate RunsEpilog(g: Guest, data: UnwindData, s: Position, a: Activation, t: Position)
    requires a.InEpilog? && s.bp.Some? && t.bp.Some?
  {
    && a.at <= |data.content| && Supported(a.insns)
    && data.content[a.at..] == EpilogBytes(a.insns) + a.rest
    && (forall i :: i in a.insns ==> !NegativeAdd(i))
    && Holds(g, a.mem)
    && var now := Machine(s.sp, s.bp.value, a.mem);
       var end := RunCpu(now, a.insns);
    && Reads(now, a.insns)
    && t.ip == Word(end, end.sp) && t.sp == end.sp + 8 && t.bp == Some(end.bp)
  }

  /** A leaf function has taken nothing from the stack. */
  ghost predicate RunsLeaf(g: Guest, data: UnwindData, s: Position, a: Activation, t: Position)
    requires a.InLeaf?
  {
    && ScanFrom(data, a.at, s.sp).None?
    && g.read(s.sp) == Some(a.returnIp)
    && t.ip == a.returnIp && t.sp == s.sp + 8 && t.bp == s.bp
  }

  /** At `s`, the function of activation `a` is executing; it was called, or interrupted code, at `t`. */
  ghost predicate Active(g: Guest, links: nat, s: Position, a: Activation, t: Position) {
    var m := Nearest(g.modules, s.ip);
    && s.bp.Some? && t.bp.Some? && m.Some? && g.images(m.value.address).Some?
    && var data := g.images(m.value.address).value;
    && IsOffset(data.offset, s.ip, a.at) && Decided(data, a.at, a.Entry())
    && (match a
        case InFunction(_, _, _, _, _, _) => RunsFunction(g, links, data, s, a, t)
        case InEpilog(_, _, _, _, _) => RunsEpilog(g, data, s, a, t)
        case InLeaf(_, _) => RunsLeaf(g, data, s, a, t))
  }

  lemma TableIsDecided(data: UnwindData, s: Position, at: u32, links: nat, found: Option<RuntimeFunction>, table: Answer)
    requires IsOffset(data.offset, s.ip, at) && Decided(data, at, found) && Allowed(data, s, links, table)
    ensures table == Ok(found)
  {
    hide Answers, WellFormed, DecidedLocally, IsFunctionOf, Functions, ChainEnds;
    var functions := Functions(data);
    assert Answers(functions, at, table);
    var full :| WellFormed(full) && Holed(functions, full)
                && (functions == full || DecidedLocally(functions, full, at)) && IsFunctionOf(full, at, found);
    HolesNeverMislead(functions, full, at, table);
    FunctionOfIsUnique(full, at, table.value, found);
  }

  /** Unwinding a function gives the position it was entered from. */
  lemma FunctionUnwinds(g: Guest, links: nat, data: UnwindData, s: Position, a: Activation, t: Position)
    requires a.InFunction? && s.bp.Some? && t.bp.Some? && RunsFunction(g, links, data, s, a, t)
    requires IsOffset(data.offset, s.ip, a.at)
    ensures var r := UnwindWith(data, FrameOf(s), s.bp, links, Ok(Some(a.rf)));
            r.Ok? && Next(g, s, r.value) == Ok(t)
            && r.value.funStart == FunStart(data, Ok(Some(a.rf)), links)
  {
    hide ScanFrom, OffsetInModule, Described, LegalChain, RunChain, SavesChain, ChainEnds, UnwindFrom, ParseInfo, FrameBase, Parse, Root, RightStart, UsesPointer, Unwind;
    var end := RunChain(Entered(a.origin, t.sp, t.bp.value), a.secs, a.regs);
    var now := Machine(s.sp, s.bp.value, end.mem);
    var f, ipOffset := EntriesOf(data)(a.rf).value, a.at - a.rf.start;
    OffsetIs(data, FrameOf(s), a.at);
    UnwindRecoversCaller(data, a.rf, f, FrameOf(s), ipOffset, s.bp, links, a.origin, t.sp, t.bp.value, a.secs, a.pending, a.regs, now);
    UnwindStartIsRoot(data, a.rf, FrameOf(s), s.bp, links);
    NextOfRecovered(g, s, a.origin, t, now, Unwind(data, a.rf, FrameOf(s), s.bp, links).value);
  }

  lemma NextOfRecovered(g: Guest, s: Position, o: Origin, t: Position, now: Machine, r: UnwindResult)
    requires s.bp.Some? && t.bp.Some? && now.bp == s.bp.value && Holds(g, now.mem)
    requires Recovers(o, t.sp, t.bp.value, now, r) && t.ip == o.ResumeIp()
    ensures Next(g, s, r) == Ok(t)
  {
  }

  lemma {:induction false} SlotsOfEpilog(m: Machine, insns: seq<Insn>, sp: nat, bp: Option<nat>)
    requires Supported(insns) && Reads(m, insns) && m.sp == sp && forall i :: i in insns ==> !NegativeAdd(i)
    requires bp.Some? ==> bp.value in m.mem
    ensures var e := Emulate(insns, sp, bp);
            e.0 in m.mem && (e.1.Some? ==> e.1.value in m.mem)
    decreases |insns|
  {
    if insns != [] {
      var i := insns[0];
      assert Signed(i) == Unsigned(i) by { assert i in insns && !NegativeAdd(i); }
      SlotsOfEpilog(Cpu(m, i), insns[1..], sp + Unsigned(i), if i == Pop(RBP) then Some(sp) else bp);
    }
  }

  lemma EpilogUnwinds(g: Guest, links: nat, data: UnwindData, s: Position, a: Activation, t: Position)
    requires a.InEpilog? && s.bp.Some? && t.bp.Some? && RunsEpilog(g, data, s, a, t)
    requires IsOffset(data.offset, s.ip, a.at)
    requires a.found.Some? ==> ChainEnds(EntriesOf(data), a.found.value, links)
    ensures var r := UnwindWith(data, FrameOf(s), s.bp, links, Ok(a.found));
            r.Ok? && Next(g, s, r.value) == Ok(t)
            && r.value.funStart == FunStart(data, Ok(a.found), links)
  {
    hide Scan, ChainEnds, FunStart, RunCpu, Emulate, Reads, EpilogBytes;
    var now := Machine(s.sp, s.bp.value, a.mem);
    OffsetIs(data, FrameOf(s), a.at);
    ScanEmulates(a.insns, a.rest, s.sp, None);
    EmulationExactness(now, a.insns, s.sp, None);
    SlotsOfEpilog(now, a.insns, s.sp, None);
  }

  /** Whatever the function table answers, unwinding an activation gives the position of the one
      below it, and where its function starts. */
  lemma ActiveUnwinds(g: Guest, links: nat, s: Position, a: Activation, t: Position, table: Answer)
    requires Active(g, links, s, a, t)
    requires Allowed(g.images(Nearest(g.modules, s.ip).value.address).value, s, links, table)
    ensures var data := g.images(Nearest(g.modules, s.ip).value.address).value;
            var r := UnwindWith(data, FrameOf(s), s.bp, links, table);
            && r.Ok? && Next(g, s, r.value) == Ok(t)
            && table == Ok(a.Entry()) && r.value.funStart == FunStart(data, table, links)
  {
    hide Decided, RunsFunction, RunsEpilog, ScanFrom, Answers, ChainEnds, Nearest, Functions;
    var data := g.images(Nearest(g.modules, s.ip).value.address).value;
    OffsetIs(data, FrameOf(s), a.at);
    TableIsDecided(data, s, a.at, links, a.Entry(), table);
    match a {
      case InFunction(_, _, _, _, _, _) => FunctionUnwinds(g, links, data, s, a, t);
      case InEpilog(_, _, _, _, _) => EpilogUnwinds(g, links, data, s, a, t);
      case InLeaf(_, _) =>
    }
  }

  // ---- The walk reports the calls

  /** The calls under way, innermost first: `ps[k]` is where activation `k` executes, and the
      outermost was entered with a null return address. */
  ghost predicate CallsUnderWay(g: Guest, links: nat, acts: seq<Activation>, ps: seq<Position>) {
    && acts != [] && |ps| == |acts| + 1
    && (forall k, j :: 0 <= k < |acts| && j == k + 1 ==> Active(g, links, ps[k], acts[k], ps[j]))
    && (forall k :: 0 < k < |acts| ==> ps[k].ip != 0)
    && ps[|acts|].ip == 0
  }

  /** The frame that should be reported for an activation. */
  ghost function FrameFor(g: Guest, links: nat, s: Position, a: Activation): Frame {
    var m := Nearest(g.modules, s.ip);
    var data := if m.Some? then g.images(m.value.address) else None;
    var start := if data.Some? && (a.Entry().Some? ==> ChainEnds(EntriesOf(data.value), a.Entry().value, links))
                 then FunStart(data.value, Ok(a.Entry()), links) else None;
    Frame(s.ip, s.sp, start, if m.Some? then Some(m.value.address) else None)
  }

  /** Reporting frames until the callback stops or fails. */
  ghost function Report(g: Guest, links: nat, acts: seq<Activation>, ps: seq<Position>, cb: Callback, seen: seq<Frame>)
    : (seq<Frame>, Ending)
    requires |ps| >= |acts|
  {
    if acts == [] then (seen, Ok(())) else
    var now := seen + [FrameFor(g, links, ps[0], acts[0])];
    match cb(now)
    case Err(e) => (now, Err(e))
    case Ok(Break) => (now, Ok(()))
    case Ok(Continue) => Report(g, links, acts[1..], ps[1..], cb, now)
  }

  lemma OuterCalls(g: Guest, links: nat, acts: seq<Activation>, ps: seq<Position>)
    requires CallsUnderWay(g, links, acts, ps) && |acts| > 1
    ensures CallsUnderWay(g, links, acts[1..], ps[1..]) && ps[1].ip != 0
  {
    hide Active;
    forall k, j | 0 <= k < |acts[1..]| && j == k + 1 ensures Active(g, links, ps[1..][k], acts[1..][k], ps[1..][j]) {
      var k', j' := k + 1, j + 1;
      assert Active(g, links, ps[k'], acts[k'], ps[j']);
    }
  }

  lemma InnermostCall(g: Guest, links: nat, acts: seq<Activation>, ps: seq<Position>)
    requires CallsUnderWay(g, links, acts, ps)
    ensures acts != [] && |ps| == |acts| + 1 && Active(g, links, ps[0], acts[0], ps[1])
  {
    hide Active;
    var k, j := 0, 1;
    assert Active(g, links, ps[k], acts[k], ps[j]);
  }

  /** The walk ends. */
  lemma {:induction false} WalkEnds(g: Guest, links: nat, acts: seq<Activation>, ps: seq<Position>)
    requires CallsUnderWay(g, links, acts, ps)
    ensures Ends(g, ps[0], links, |acts| - 1)
    decreases |acts|
  {
    hide CallsUnderWay, Active, Answers, Functions, ChainEnds, UnwindWith, Next, FunStart, Nearest;
    InnermostCall(g, links, acts, ps);
    if |acts| > 1 {
      OuterCalls(g, links, acts, ps);
      WalkEnds(g, links, acts[1..], ps[1..]);
    } else {
      LastCall(g, links, acts, ps);
    }
    var m := ModuleOf(g, links, ps[0], acts[0], ps[1]);
    var data := g.images(m.address).value;
    forall table | Allowed(data, ps[0], links, table)
      ensures var r := UnwindWith(data, FrameOf(ps[0]), ps[0].bp, links, table);
              r.Ok? && Next(g, ps[0], r.value) == Ok(ps[1])
    {
      ActiveUnwinds(g, links, ps[0], acts[0], ps[1], table);
    }
  }

  lemma LastCall(g: Guest, links: nat, acts: seq<Activation>, ps: seq<Position>)
    requires CallsUnderWay(g, links, acts, ps) && |acts| == 1
    ensures ps[1].ip == 0
  {
    hide Active;
  }

  /** Any walk of the stack reports exactly the calls under way, innermost first, each with its
      position, module and function start, until the callback stops it; and it ends without an
      error of its own. */
  lemma {:induction false} WalkReportsCalls(
    g: Guest, links: nat, acts: seq<Activation>, ps: seq<Position>, n: nat, cb: Callback, seen: seq<Frame>,
    frames: seq<Frame>, end: Ending)
    requires CallsUnderWay(g, links, acts, ps) && Ends(g, ps[0], links, n)
    requires IsWalk(g, ps[0], links, n, cb, seen, frames, end)
    ensures (frames, end) == Report(g, links, acts, ps, cb, seen)
    decreases |acts|
  {
    hide CallsUnderWay, Active, Answers, Functions, ChainEnds, UnwindWith, Next, FunStart, Nearest, IsWalk, IsStep, Ends;
    InnermostCall(g, links, acts, ps);
    var s, a := ps[0], acts[0];
    var m := ModuleOf(g, links, s, a, ps[1]);
    var data := g.images(m.address).value;
    var table := TableAsked(g, s, links, n, cb, seen, frames, end);
    var r := UnwindWith(data, FrameOf(s), s.bp, links, table);
    ActiveUnwinds(g, links, s, a, ps[1], table);
    StepCases(g, s, links, n, cb, seen, m.address, r);
    var now := seen + [FrameFor(g, links, s, a)];
    assert now == seen + [Frame(s.ip, s.sp, r.value.funStart, Some(m.address))];
    if |acts| == 1 {
      LastCall(g, links, acts, ps);
      assert Report(g, links, acts[1..], ps[1..], cb, now) == (now, Ok(()));
    } else {
      OuterCalls(g, links, acts, ps);
      if cb(now) == Ok(Continue) {
        WalkReportsCalls(g, links, acts[1..], ps[1..], n - 1, cb, now, frames, end);
      }
    }
  }

  lemma ModuleOf(g: Guest, links: nat, s: Position, a: Activation, t: Position) returns (m: Module)
    requires Active(g, links, s, a, t)
    ensures Nearest(g.modules, s.ip) == Some(m) && g.images(m.address).Some?
  {
    m := Nearest(g.modules, s.ip).value;
  }

  /** The answer of the function table at the first frame of a walk. */
  lemma TableAsked(g: Guest, s: Position, links: nat, n: nat, cb: Callback, seen: seq<Frame>,
                   frames: seq<Frame>, end: Ending) returns (table: Answer)
    requires Ends(g, s, links, n) && IsWalk(g, s, links, n, cb, seen, frames, end)
    requires Nearest(g.modules, s.ip).Some? && g.images(Nearest(g.modules, s.ip).value.address).Some?
    ensures var address := Nearest(g.modules, s.ip).value.address;
            var data := g.images(address).value;
            && Allowed(data, s, links, table)
            && var r := UnwindWith(data, FrameOf(s), s.bp, links, table);
            && (r.Ok? && Next(g, s, r.value).Ok? && Next(g, s, r.value).value.ip != 0 ==>
                  n > 0 && Ends(g, Next(g, s, r.value).value, links, n - 1))
            && IsStep(g, s, links, n, cb, seen, address, r, frames, end)
  {
    hide Nearest, Answers, Functions, ChainEnds, Next, UnwindWith, IsStep;
    var address := Nearest(g.modules, s.ip).value.address;
    var data := g.images(address).value;
    table :| Allowed(data, s, links, table)
             && IsStep(g, s, links, n, cb, seen, address, UnwindWith(data, FrameOf(s), s.bp, links, table), frames, end);
  }
}
