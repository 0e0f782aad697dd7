/** Unwinding from inside an epilog, by emulating the instructions that are left of it. */
module Epilogs {
  import opened Outcomes
  import opened Bytes
  import opened UnwindCodes
  import opened FunctionTable
  import opened Unwinder
  import opened Prologs

  // ---- The emulator

  /** The slot of the return address and that of RBP, if `code` is the rest of an epilog. */
  function Scan(code: seq<byte>, sp: nat, bp: Option<nat>): Option<(nat, Option<nat>)>
    decreases |code|
  {
    if code == [] then None
    else if code[0] == 0x41 then
      if |code| >= 2 && 0x58 <= code[1] <= 0x5f then Scan(code[2..], sp + 8, bp) else None
    else if code[0] == 0x48 then
      if |code| < 3 || code[2] != 0xc4 then None
      else if code[1] == 0x81 then (if |code| < 7 then None else Scan(code[7..], sp + U32At(code[3..]), bp))
      else if code[1] == 0x83 then (if |code| < 4 then None else Scan(code[4..], sp + code[3], bp))
      else None
    else if code[0] == 0x5c then None
    else if code[0] == 0x5d then Scan(code[1..], sp + 8, Some(sp))
    else if 0x58 <= code[0] <= 0x5f || code[0] == 0x9d then Scan(code[1..], sp + 8, bp)
    else if code[0] == 0xc3 then Some((sp, bp))
    else None
  }

  method ScanEpilog(code: ByteCursor, sp: nat) returns (r: Option<(nat, Option<nat>)>)
    modifies code
    ensures r == Scan(old(code.rest), sp, None)
  {
    ghost var goal := Scan(code.rest, sp, None);
    var nextSp: nat := sp;
    var nextBpAddr: Option<nat> := None;
    while true
      invariant Scan(code.rest, nextSp, nextBpAddr) == goal
      decreases |code.rest|
    {
      ghost var s := code.rest;
      var b := code.ReadU8();
      if b.None? { return None; }
      if b.value == 0x41 {
        var reg := code.ReadU8();
        if reg.None? || !(0x58 <= reg.value <= 0x5f) { return None; }
        assert code.rest == s[2..];
        nextSp := nextSp + 8;
      } else if b.value == 0x48 {
        var size := ReadAddRsp(code);
        if size.None? { return None; }
        nextSp := nextSp + size.value;
      } else if b.value == 0x5c {
        return None;
      } else if b.value == 0x5d {
        nextBpAddr := Some(nextSp);
        nextSp := nextSp + 8;
      } else if 0x58 <= b.value <= 0x5f || b.value == 0x9d {
        nextSp := nextSp + 8;
      } else if b.value == 0xc3 {
        break;
      } else {
        return None;
      }
    }
    r := Some((nextSp, nextBpAddr));
  }

  /** `add rsp, n` after its prefix byte. */
  method ReadAddRsp(code: ByteCursor) returns (size: Option<u32>)
    modifies code
    ensures var s := old(code.rest);
            match size
            case None => |s| < 2 || s[1] != 0xc4 || !((s[0] == 0x81 && |s| >= 6) || (s[0] == 0x83 && |s| >= 3))
            case Some(n) =>
              |s| >= 2 && s[1] == 0xc4 &&
              ((s[0] == 0x81 && |s| >= 6 && n == U32At(s[2..]) && code.rest == s[6..])
               || (s[0] == 0x83 && |s| >= 3 && n == s[2] && code.rest == s[3..]))
  {
    ghost var s := code.rest;
    var op := code.ReadU8();
    if op.None? { return None; }
    var modrm := code.ReadU8();
    if modrm.None? || modrm.value != 0xc4 { return None; }
    assert code.rest == s[2..];
    if op.value == 0x81 {
      size := code.ReadU32();
    } else if op.value == 0x83 {
      var n := code.ReadU8();
      size := if n.Some? then Some(n.value) else None;
    } else {
      size := None;
    }
  }

  /** The function the code belongs to starts where the root of its chain starts. */
  ghost function FunStart(data: UnwindData, table: Answer, n: nat): Option<nat>
    requires table.Ok? && table.value.Some? ==> ChainEnds(EntriesOf(data), table.value.value, n)
  {
    if table.Err? || table.value.None? then None else
    match Root(EntriesOf(data), table.value.value, n)
    case None => None
    case Some(root) => Some(data.offset + root.start)
  }

  method FindFunStart(data: UnwindData, table: Answer, ghost n: nat) returns (r: Option<nat>)
    requires table.Ok? && table.value.Some? ==> ChainEnds(EntriesOf(data), table.value.value, n)
    ensures r == FunStart(data, table, n)
  {
    hide ParseInfo, Parse;
    if table.Err? || table.value.None? {
      return None;
    }
    var rf := table.value.value;
    ghost var links := n;
    while true
      invariant ChainEnds(EntriesOf(data), rf, links)
      invariant Root(EntriesOf(data), rf, links) == Root(EntriesOf(data), table.value.value, n)
      decreases links
    {
      var entry := ParseFunction(data.content, rf);
      if entry.None? {
        return None;
      }
      match entry.value.mother {
        case Some(mother) => rf, links := mother, links - 1;
        case None => return Some(data.offset + rf.start);
      }
    }
  }

  /** Every chain from the table ends within `n` links. */
  ghost predicate ChainsEnd(data: UnwindData, n: nat)
    requires data.directory <= data.directoryEnd <= |data.content|
  {
    forall rf :: rf in Functions(data) ==> ChainEnds(EntriesOf(data), rf, n)
  }

  /** What the emulator finds at an offset of the image. */
  function ScanFrom(data: UnwindData, at: u32, sp: nat): Option<(nat, Option<nat>)> {
    if at <= |data.content| then Scan(data.content[at..], sp, None) else None
  }

  function ScanAt(data: UnwindData, frame: StackFrame): Option<(nat, Option<nat>)> {
    ScanFrom(data, OffsetInModule(data, frame), frame.stackPointer)
  }

  ghost function EpilogResult(data: UnwindData, table: Answer, found: (nat, Option<nat>), n: nat): UnwindResult
    requires table.Ok? && table.value.Some? ==> ChainEnds(EntriesOf(data), table.value.value, n)
  {
    UnwindResult(NextSp.Value(found.0 + 8), found.0, found.1, FunStart(data, table, n))
  }

  method FindByOffset(data: UnwindData, offset: u32, ghost n: nat) returns (r: Answer)
    requires data.directory <= data.directoryEnd <= |data.content|
    requires ChainsEnd(data, n)
    ensures Answers(Functions(data), offset, r)
    ensures r.Ok? && r.value.Some? ==> ChainEnds(EntriesOf(data), r.value.value, n)
  {
    hide Answers, Functions, ChainEnds;
    r := FindRuntimeFunction(Functions(data), offset);
    if r.Ok? && r.value.Some? {
      AnswerIsEntry(Functions(data), offset, r);
    }
  }

  /** An answer the function table may give for the instruction of `frame`. */
  ghost predicate AnswersAt(data: UnwindData, frame: StackFrame, table: Answer)
    requires data.directory <= data.directoryEnd <= |data.content|
  {
    forall x: u32 :: IsOffset(data.offset, frame.instructionPointer, x) ==> Answers(Functions(data), x, table)
  }

  lemma AnswersAtOffset(data: UnwindData, frame: StackFrame, table: Answer)
    requires data.directory <= data.directoryEnd <= |data.content|
    ensures AnswersAt(data, frame, table) <==> Answers(Functions(data), OffsetInModule(data, frame), table)
  {
    hide Answers, Functions, IsOffset, OffsetInModule;
    forall x: u32 ensures IsOffset(data.offset, frame.instructionPointer, x) <==> x == OffsetInModule(data, frame) {
      OffsetIs(data, frame, x);
    }
  }

  /** `table` is what the lookup in the function table answered. */
  method ReadEpilog(data: UnwindData, frame: StackFrame, ghost n: nat) returns (r: Option<UnwindResult>, table: Answer)
    requires data.directory <= data.directoryEnd <= |data.content|
    requires ChainsEnd(data, n)
    ensures r.Some? ==> AnswersAt(data, frame, table)
    ensures r.Some? && table.Ok? && table.value.Some? ==> ChainEnds(EntriesOf(data), table.value.value, n)
    ensures match ScanAt(data, frame)
            case None => r == None
            case Some(found) => r.Some? && r.value == EpilogResult(data, table, found, n)
  {
    hide Scan, Answers, Functions, ChainEnds, FunStart, Parse, AnswersAt;
    var offset := OffsetInModule(data, frame);
    table := Ok(None);
    if offset > |data.content| {
      return None, table;
    }
    var code := new ByteCursor(data.content[offset..]);
    var found := ScanEpilog(code, frame.stackPointer);
    if found.None? {
      return None, table;
    }
    var answer := FindByOffset(data, offset, n);
    table := answer;
    AnswersAtOffset(data, frame, table);
    var start := FindFunStart(data, answer, n);
    r := Some(UnwindResult(NextSp.Value(found.value.0 + 8), found.value.0, found.value.1, start));
  }

  /** One frame: by its epilog, else by its unwind data, else as a leaf that saved nothing. `table`
      is what the lookup in the function table answers. */
  ghost function UnwindWith(data: UnwindData, frame: StackFrame, bp: Option<u64>, n: nat, table: Answer)
    : Result<UnwindResult, UnwindError>
    requires table.Ok? && table.value.Some? ==> ChainEnds(EntriesOf(data), table.value.value, n)
  {
    match ScanAt(data, frame)
    case Some(found) => Ok(EpilogResult(data, table, found, n))
    case None =>
      match table
      case Err(_) => Err(UnmappedTable)
      case Ok(Some(rf)) => Unwind(data, rf, frame, bp, n)
      case Ok(None) => Ok(UnwindResult(NextSp.Value(frame.stackPointer + 8), frame.stackPointer, None, None))
  }

  method UnwindFunction(data: UnwindData, frame: StackFrame, bp: Option<u64>, ghost n: nat)
    returns (r: Result<UnwindResult, UnwindError>, table: Answer)
    requires data.directory <= data.directoryEnd <= |data.content|
    requires ChainsEnd(data, n)
    ensures AnswersAt(data, frame, table)
    ensures table.Ok? && table.value.Some? ==> ChainEnds(EntriesOf(data), table.value.value, n)
    ensures r == UnwindWith(data, frame, bp, n, table)
  {
    hide ScanAt, Answers, Functions, ChainEnds, FunStart, Unwind, Parse, AnswersAt;
    var epilog;
    epilog, table := ReadEpilog(data, frame, n);
    if epilog.Some? {
      return Ok(epilog.value), table;
    }
    var answer := FindByOffset(data, OffsetInModule(data, frame), n);
    table := answer;
    AnswersAtOffset(data, frame, table);
    match answer {
      case Err(_) => r := Err(UnmappedTable);
      case Ok(Some(rf)) => r := UnwindWithInfos(data, rf, frame, bp, n);
      case Ok(None) =>
        r := Ok(UnwindResult(NextSp.Value(frame.stackPointer + 8), frame.stackPointer, None, None));
    }
  }

  /** Where the table is too unmapped to tell which function an instruction belongs to, and it is
      not in an epilog, unwinding fails instead of guessing. */
  lemma UndecidedIsAnError(data: UnwindData, frame: StackFrame, x: u32, full: seq<RuntimeFunction>, bp: Option<u64>, n: nat)
    requires data.directory <= data.directoryEnd <= |data.content|
    requires IsOffset(data.offset, frame.instructionPointer, x) && ScanFrom(data, x, frame.stackPointer).None?
    requires WellFormed(full) && Holed(Functions(data), full) && !DecidedLocally(Functions(data), full, x)
    ensures var table := LinearAnswer(Functions(data), x, 0, false);
            table.Err? && UnwindWith(data, frame, bp, n, table).Err?
  {
    hide Functions, DecidedLocally, Holed, WellFormed;
    OffsetIs(data, frame, x);
    LinearNeverWrong(Functions(data), full, x, 0, false);
  }

  // ---- What the processor does

  /** The instructions an epilog is made of, before its `ret`. */
  datatype Insn = Pop(reg: nibble) | Popf | AddRsp8(imm8: byte) | AddRsp32(imm32: u32)

  const RSP: nibble := 4

  function InsnBytes(i: Insn): seq<byte> {
    match i
    case Pop(reg) => if reg < 8 then [0x58 + reg] else [0x41, 0x58 + reg - 8]
    case Popf => [0x9d]
    case AddRsp8(n) => [0x48, 0x83, 0xc4, n]
    case AddRsp32(n) => [0x48, 0x81, 0xc4] + ToLe(n, 4)
  }

  function EpilogBytes(insns: seq<Insn>): seq<byte> {
    if insns == [] then [0xc3] else InsnBytes(insns[0]) + EpilogBytes(insns[1..])
  }

  predicate Supported(insns: seq<Insn>) { Pop(RSP) !in insns }

  /** The immediate operand is sign-extended by the processor. */
  function Signed(i: Insn): int {
    match i
    case AddRsp8(n) => if n < 0x80 then n else n as int - 0x100
    case AddRsp32(n) => if n < 0x8000_0000 then n else n as int - 0x1_0000_0000
    case _ => 8
  }

  function Word(m: Machine, a: int): int { if a in m.mem then m.mem[a] else 0 }

  function Cpu(m: Machine, i: Insn): Machine
    requires i != Pop(RSP)
  {
    Machine(m.sp + Signed(i), if i == Pop(RBP) then Word(m, m.sp) else m.bp, m.mem)
  }

  function RunCpu(m: Machine, insns: seq<Insn>): Machine
    requires Supported(insns)
    decreases |insns|
  {
    if insns == [] then m else RunCpu(Cpu(m, insns[0]), insns[1..])
  }

  // ---- The emulator against the processor

  /** The emulator takes immediates as unsigned. */
  function Unsigned(i: Insn): nat {
    match i case AddRsp8(n) => n case AddRsp32(n) => n case _ => 8
  }

  function Emulate(insns: seq<Insn>, sp: nat, bp: Option<nat>): (nat, Option<nat>) {
    if insns == [] then (sp, bp)
    else Emulate(insns[1..], sp + Unsigned(insns[0]), if insns[0] == Pop(RBP) then Some(sp) else bp)
  }

  lemma ScanInsn(i: Insn, rest: seq<byte>, sp: nat, bp: Option<nat>)
    requires i != Pop(RSP)
    ensures Scan(InsnBytes(i) + rest, sp, bp) == Scan(rest, sp + Unsigned(i), if i == Pop(RBP) then Some(sp) else bp)
  {
    hide FromLe, ToLe;
    var code := InsnBytes(i) + rest;
    match i {
      case Pop(reg) => assert code[if reg < 8 then 1 else 2..] == rest;
      case Popf => assert code[1..] == rest;
      case AddRsp8(_) => assert code[4..] == rest;
      case AddRsp32(n) =>
        Capacities();
        ReadBack(n, 4, rest);
        assert code[3..] == ToLe(n, 4) + rest;
        assert code[7..] == code[3..][4..];
    }
  }

  lemma ScanRet(rest: seq<byte>, sp: nat, bp: Option<nat>)
    ensures Scan([0xc3] + rest, sp, bp) == Some((sp, bp))
  {
  }

  lemma {:induction false} ScanEmulates(insns: seq<Insn>, rest: seq<byte>, sp: nat, bp: Option<nat>)
    requires Supported(insns)
    ensures Scan(EpilogBytes(insns) + rest, sp, bp) == Some(Emulate(insns, sp, bp))
  {
    hide Scan, InsnBytes, Unsigned;
    if insns == [] {
      ScanRet(rest, sp, bp);
    } else {
      var i, tail := insns[0], EpilogBytes(insns[1..]) + rest;
      assert EpilogBytes(insns) + rest == InsnBytes(i) + tail;
      ScanInsn(i, tail, sp, bp);
      ScanEmulates(insns[1..], rest, sp + Unsigned(i), if i == Pop(RBP) then Some(sp) else bp);
    }
  }

  lemma {:induction false} Instructions(code: seq<byte>, sp: nat, bp: Option<nat>) returns (insns: seq<Insn>, rest: seq<byte>)
    requires Scan(code, sp, bp).Some?
    ensures Supported(insns) && code == EpilogBytes(insns) + rest
    decreases |code|
  {
    if code[0] == 0xc3 {
      insns, rest := [], code[1..];
    } else {
      var i := FirstInsn(code, sp, bp);
      var tail := code[|InsnBytes(i)|..];
      assert code == InsnBytes(i) + tail;
      ScanInsn(i, tail, sp, bp);
      insns, rest := Instructions(tail, sp + Unsigned(i), if i == Pop(RBP) then Some(sp) else bp);
      insns := [i] + insns;
      assert insns[1..] == insns[1..] && code == InsnBytes(i) + (EpilogBytes(insns[1..]) + rest);
    }
  }

  lemma FirstInsn(code: seq<byte>, sp: nat, bp: Option<nat>) returns (i: Insn)
    requires Scan(code, sp, bp).Some? && code[0] != 0xc3
    ensures i != Pop(RSP) && InsnBytes(i) != [] && InsnBytes(i) <= code
  {
    hide FromLe, ToLe;
    if code[0] == 0x41 {
      i := Pop(code[1] - 0x58 + 8);
    } else if code[0] == 0x48 && code[1] == 0x83 {
      i := AddRsp8(code[3]);
    } else if code[0] == 0x48 {
      ToLeFromLe(code[3..][..4]);
      i := AddRsp32(U32At(code[3..]));
      assert code[..7] == [0x48, 0x81, 0xc4] + code[3..][..4];
    } else if code[0] == 0x9d {
      i := Popf;
    } else {
      i := Pop(code[0] - 0x58);
    }
  }

  /** The emulator accepts exactly the code of an epilog: supported instructions up to a `ret`. */
  lemma ScanAcceptsEpilogs(code: seq<byte>, sp: nat, bp: Option<nat>)
    ensures Scan(code, sp, bp).Some? <==>
            exists insns, rest :: Supported(insns) && code == EpilogBytes(insns) + rest
  {
    if Scan(code, sp, bp).Some? {
      var insns, rest := Instructions(code, sp, bp);
    }
    forall insns, rest | Supported(insns) && code == EpilogBytes(insns) + rest
      ensures Scan(code, sp, bp).Some?
    {
      ScanEmulates(insns, rest, sp, bp);
    }
  }

  predicate NegativeAdd(i: Insn) { Signed(i) < 0 }

  /** RBP once the epilog is done: read from the slot found, or left in the register. */
  function BpAfter(m: Machine, bp: Option<nat>): int {
    match bp case Some(a) => Word(m, a) case None => m.bp
  }

  /** The emulator can only be too high, and is exactly when an addition has a negative operand. */
  lemma {:induction false} EmulationExactness(m: Machine, insns: seq<Insn>, sp: nat, bp: Option<nat>)
    requires Supported(insns) && m.sp <= sp
    ensures var e := Emulate(insns, sp, bp);
            && RunCpu(m, insns).sp <= e.0
            && (bp.Some? ==> e.1.Some?)
            && (e.0 == RunCpu(m, insns).sp <==> sp == m.sp && forall i :: i in insns ==> !NegativeAdd(i))
            && (e.0 == RunCpu(m, insns).sp && (bp.Some? ==> m.bp == Word(m, bp.value)) ==>
                  RunCpu(m, insns).bp == BpAfter(m, e.1))
    ensures RunCpu(m, insns).mem == m.mem
    decreases |insns|
  {
    if insns != [] {
      var i := insns[0];
      assert Signed(i) <= Unsigned(i) && (Signed(i) == Unsigned(i) <==> !NegativeAdd(i));
      EmulationExactness(Cpu(m, i), insns[1..], sp + Unsigned(i), if i == Pop(RBP) then Some(sp) else bp);
      assert forall j :: j in insns <==> j == i || j in insns[1..];
    }
  }

  lemma {:induction false} RunCpuSplit(m: Machine, insns: seq<Insn>, k: nat)
    requires k <= |insns| && Supported(insns)
    ensures RunCpu(m, insns) == RunCpu(RunCpu(m, insns[..k]), insns[k..])
    ensures RunCpu(m, insns[..k]).mem == m.mem
    decreases k
  {
    if k == 0 {
      assert insns[..k] == [] && insns[k..] == insns;
    } else {
      RunCpuSplit(Cpu(m, insns[0]), insns[1..], k - 1);
      assert insns[..k][1..] == insns[1..][..k-1] && insns[1..][k-1..] == insns[k..];
    }
  }

  /** Epilog unwinding is stable over the whole run. Unwound after any number `k` of its
      instructions, an epilog gives the same return address slot, that where the processor will
      find it, exactly if none of the remaining additions has a negative operand; and then also
      the same caller's RBP. */
  lemma StableFromEveryInstruction(m: Machine, insns: seq<Insn>, k: nat, rest: seq<byte>)
    requires Supported(insns) && k <= |insns|
    requires RunCpu(m, insns[..k]).sp >= 0
    ensures var now := RunCpu(m, insns[..k]);
            var found := Scan(EpilogBytes(insns[k..]) + rest, now.sp, None);
            && found.Some?
            && (found.value.0 == RunCpu(m, insns).sp <==> forall i :: i in insns[k..] ==> !NegativeAdd(i))
            && (found.value.0 == RunCpu(m, insns).sp ==> BpAfter(now, found.value.1) == RunCpu(m, insns).bp)
  {
    hide Scan;
    var now := RunCpu(m, insns[..k]);
    RunCpuSplit(m, insns, k);
    ScanEmulates(insns[k..], rest, now.sp, None);
    EmulationExactness(now, insns[k..], now.sp, None);
  }

  // ---- Epilogs that mirror a prolog

  /** An epilog can undo the steps: pushes and allocations by instructions of its own, while saves
      by a move and the frame pointer leave nothing on the stack. */
  predicate Mirrorable(steps: seq<Slot>) {
    forall s :: s in steps ==> var op := Meaning(s.code); op != Push(RSP) && !op.PushMachFrame?
  }

  predicate NoMovedBp(steps: seq<Slot>) {
    forall s :: s in steps ==> !(Meaning(s.code).Save? && Meaning(s.code).reg == RBP)
  }

  predicate NoPushedBp(steps: seq<Slot>) {
    forall s :: s in steps ==> Meaning(s.code) != Push(RBP)
  }

  function MirrorStep(op: UnwindOp): seq<Insn> {
    match op
    case Push(reg) => [Pop(reg)]
    case Alloc(size) => [if size < 0x80 then AddRsp8(size) else AddRsp32(size)]
    case _ => []
  }

  /** Undo the last step first. */
  function Mirror(steps: seq<Slot>): seq<Insn> {
    if steps == [] then [] else MirrorStep(Meaning(Last(steps).code)) + Mirror(Front(steps))
  }

  function MirrorChain(secs: seq<Section>): seq<Insn> {
    if secs == [] then [] else Mirror(secs[0].steps) + MirrorChain(secs[1..])
  }

  lemma {:induction false} EmulateBoth(a: seq<Insn>, b: seq<Insn>, sp: nat, bp: Option<nat>)
    ensures var (sp', bp') := Emulate(a, sp, bp); Emulate(a + b, sp, bp) == Emulate(b, sp', bp')
  {
    if a == [] {
      assert a + b == b;
    } else {
      assert (a + b)[1..] == a[1..] + b;
      EmulateBoth(a[1..], b, sp + Unsigned(a[0]), if a[0] == Pop(RBP) then Some(sp) else bp);
    }
  }

  lemma MirrorableSplit(steps: seq<Slot>)
    requires Mirrorable(steps) && steps != []
    ensures Mirrorable(Front(steps))
    ensures NoMovedBp(steps) <==> NoMovedBp(Front(steps)) && !(Meaning(Last(steps).code).Save? && Meaning(Last(steps).code).reg == RBP)
    ensures NoPushedBp(steps) <==> NoPushedBp(Front(steps)) && Meaning(Last(steps).code) != Push(RBP)
    ensures var op := Meaning(Last(steps).code); op != Push(RSP) && !op.PushMachFrame?
  {
    assert steps == Front(steps) + [Last(steps)];
    assert forall s :: s in steps <==> s in Front(steps) || s == Last(steps);
  }

  /** The definitions on one more step. */
  lemma MirrorUnfolds(steps: seq<Slot>, sp: nat, rel: Option<nat>)
    ensures steps == [] ==>
              Mirror(steps) == [] && Total(steps) == 0 && BpOffset(steps, sp, rel) == rel && !Saves(steps)
              && NoMovedBp(steps) && NoPushedBp(steps)
    ensures steps != [] ==>
              var op := Meaning(Last(steps).code);
              && Mirror(steps) == MirrorStep(op) + Mirror(Front(steps))
              && Total(steps) == Total(Front(steps)) + Size(op)
              && BpOffset(steps, sp, rel) == BpOffset(Front(steps), sp + Size(op), NextBp(op, sp, rel))
              && (!(op.Save? && op.reg == RBP) ==> NextBp(op, sp, rel) == if op == Push(RBP) then Some(sp) else rel)
              && NextBp(op, sp, rel).Some? == (rel.Some? || op == Push(RBP) || (op.Save? && op.reg == RBP))
  {
  }

  lemma MirrorOne(op: UnwindOp, sp: nat, bp: Option<nat>)
    requires op != Push(RSP) && !op.PushMachFrame?
    ensures Supported(MirrorStep(op))
    ensures Emulate(MirrorStep(op), sp, bp) == (sp + Size(op), if op == Push(RBP) then Some(sp) else bp)
  {
  }

  lemma {:induction false} MirrorSteps(steps: seq<Slot>, base: nat, sp: nat, bp: Option<nat>, rel: Option<nat>)
    requires Mirrorable(steps)
    ensures Supported(Mirror(steps))
    ensures Emulate(Mirror(steps), base + sp, bp).0 == base + sp + Total(steps)
    ensures NoMovedBp(steps) && (rel.Some? ==> bp == Some(base + rel.value)) ==>
              var o := BpOffset(steps, sp, rel);
              && Emulate(Mirror(steps), base + sp, bp).1 == (if o.Some? then Some(base + o.value) else bp)
              && (rel.Some? ==> o.Some?)
    ensures NoPushedBp(steps) ==> Emulate(Mirror(steps), base + sp, bp).1 == bp
    ensures BpOffset(steps, sp, rel).Some? <==> rel.Some? || !NoMovedBp(steps) || !NoPushedBp(steps)
  {
    hide Emulate, MirrorStep, Mirrorable, Meaning, Size, Mirror, Total, BpOffset, NextBp, NoMovedBp, NoPushedBp;
    MirrorUnfolds(steps, sp, rel);
    if steps == [] {
      EmulateNothing(base + sp, bp);
    } else {
      var op := Meaning(Last(steps).code);
      MirrorableSplit(steps);
      var bp' := if op == Push(RBP) then Some(base + sp) else bp;
      EmulateBoth(MirrorStep(op), Mirror(Front(steps)), base + sp, bp);
      MirrorSteps(Front(steps), base, sp + Size(op), bp', NextBp(op, sp, rel));
      MirrorOne(op, base + sp, bp);
    }
  }

  ghost predicate NoneMovesBp(secs: seq<Section>) { forall sec :: sec in secs ==> NoMovedBp(sec.steps) }

  ghost predicate NonePushesBp(secs: seq<Section>) { forall sec :: sec in secs ==> NoPushedBp(sec.steps) }

  lemma FirstSection(secs: seq<Section>)
    requires secs != [] && forall sec :: sec in secs ==> Mirrorable(sec.steps)
    ensures Mirrorable(secs[0].steps) && forall sec :: sec in secs[1..] ==> Mirrorable(sec.steps)
    ensures NoneMovesBp(secs) <==> NoMovedBp(secs[0].steps) && NoneMovesBp(secs[1..])
    ensures NonePushesBp(secs) <==> NoPushedBp(secs[0].steps) && NonePushesBp(secs[1..])
  {
    hide NoMovedBp, NoPushedBp, Mirrorable;
    assert forall sec :: sec in secs <==> sec == secs[0] || sec in secs[1..];
  }

  /** For a whole chain, emulating the mirrored prologs and undoing the codes end at the same slot.
      They also give the same slot for RBP if no prolog saves it by a move; if none pushes it, the
      emulator gives none, since RBP is restored before the instructions it takes for an epilog,
      while the codes give one if a prolog moves it. */
  lemma {:induction false} MirrorMatchesCodes(
    entries: Entries, load: u64, rf: RuntimeFunction, o: Origin, secs: seq<Section>, pending: seq<Slot>,
    limit: Option<u32>, base: nat, bp: Option<nat>, n: nat)
    requires ChainEnds(entries, rf, n) && o.Call?
    requires Described(entries, rf, o, secs, pending, limit)
    requires forall sec :: sec in secs ==> Mirrorable(sec.steps)
    ensures Supported(MirrorChain(secs))
    ensures var r := UnwindFrom(entries, load, rf, limit, base, bp, n);
            && r.Ok? && Emulate(MirrorChain(secs), base, bp).0 == r.value.nextIpAddr
            && r.value.nextSp == NextSp.Value(r.value.nextIpAddr + 8)
            && (NoneMovesBp(secs) ==> Emulate(MirrorChain(secs), base, bp).1 == r.value.nextBpAddr)
            && (r.value.nextBpAddr.Some? <==> bp.Some? || !NoneMovesBp(secs) || !NonePushesBp(secs))
    ensures NonePushesBp(secs) ==> Emulate(MirrorChain(secs), base, bp).1 == bp
    decreases |secs|
  {
    hide Described, UnwindFrom, ChainEnds, Mirrorable, Mirror, Emulate, Total, NoMovedBp, NoPushedBp, NoneMovesBp, NonePushesBp, SavedAt;
    DescribesSome(entries, rf, o, secs, pending, limit);
    var steps, tail := secs[0].steps, secs[1..];
    FirstSection(secs);
    MirrorableHasNoMachFrame(steps);
    var r, mother := SectionUndone(entries, load, rf, o, secs, pending, limit, base, bp, n);
    SectionMirrors(steps, base, bp);
    var slot := SavedAt(steps, base, bp);
    var (sp', bp') := Emulate(Mirror(steps), base, bp);
    EmulateBoth(Mirror(steps), MirrorChain(tail), base, bp);
    if |secs| > 1 {
      MirrorMatchesCodes(entries, load, mother, o, tail, [], None, sp', slot, n - 1);
      EmulateAnyBp(MirrorChain(tail), sp', bp', slot);
      MirrorMatchesCodes(entries, load, mother, o, tail, [], None, sp', bp', n - 1);
    } else {
      EmulateNothing(sp', bp');
      NoSections(tail);
    }
  }

  /** The same for the first section. */
  lemma {:induction false} SectionMirrors(steps: seq<Slot>, base: nat, bp: Option<nat>)
    requires Mirrorable(steps)
    ensures Supported(Mirror(steps))
    ensures var slot := SavedAt(steps, base, bp);
            var (sp', bp') := Emulate(Mirror(steps), base, bp);
            && sp' == base + Total(steps)
            && (NoMovedBp(steps) ==> bp' == slot) && (NoPushedBp(steps) ==> bp' == bp)
            && (slot.Some? <==> bp.Some? || !NoMovedBp(steps) || !NoPushedBp(steps))
  {
    hide BpOffset, Total, Mirrorable, Mirror, Emulate, NoMovedBp, NoPushedBp;
    MirrorSteps(steps, base, 0, bp, None);
  }

  lemma NoSections(secs: seq<Section>)
    ensures secs == [] ==> NoneMovesBp(secs) && NonePushesBp(secs) && MirrorChain(secs) == []
  {
  }

  lemma {:induction false} EmulateAnyBp(insns: seq<Insn>, sp: nat, bp: Option<nat>, other: Option<nat>)
    ensures Emulate(insns, sp, bp).0 == Emulate(insns, sp, other).0
  {
    if insns != [] {
      var i := insns[0];
      EmulateAnyBp(insns[1..], sp + Unsigned(i), if i == Pop(RBP) then Some(sp) else bp, if i == Pop(RBP) then Some(sp) else other);
    }
  }

  lemma EmulateNothing(sp: nat, bp: Option<nat>)
    ensures Emulate([], sp, bp) == (sp, bp)
  {
  }

  lemma MirrorableHasNoMachFrame(steps: seq<Slot>)
    requires Mirrorable(steps)
    ensures forall s :: s in steps ==> !s.code.MachFrame?
  {
  }

  /** From the start of an epilog that mirrors the executed prolog, the emulator gives the result
      that the unwind codes give from the body: the very same exactly if no prolog saves RBP by a
      move, for prologs that save it one way only; otherwise all but the slot of RBP, which is
      then in its register again. */
  lemma EpilogAgreesWithCodes(
    data: UnwindData, rf: RuntimeFunction, f: FunctionEntry, frame: StackFrame, ipOffset: u32, bp: Option<u64>, n: nat, base: nat,
    returnIp: int, secs: seq<Section>, pending: seq<Slot>, rest: seq<byte>)
    requires ChainEnds(EntriesOf(data), rf, n)
    requires EntriesOf(data)(rf) == Some(f)
    requires rf.start + ipOffset < 0x1_0000_0000 && IsOffset(data.offset, frame.instructionPointer, rf.start + ipOffset)
    requires Described(EntriesOf(data), rf, Call(returnIp), secs, pending, Some(ipOffset))
    requires FrameBase(f, ipOffset, frame.stackPointer, bp) == Ok(base)
    requires forall sec :: sec in secs ==> Mirrorable(sec.steps)
    ensures var found := Scan(EpilogBytes(MirrorChain(secs)) + rest, base, None);
            var r := Unwind(data, rf, frame, bp, n);
            && found.Some? && r.Ok?
            && var e := EpilogResult(data, Ok(Some(rf)), found.value, n);
            && r.value.(nextBpAddr := e.nextBpAddr) == e
            && (NoneMovesBp(secs) ==> r.value == e)
            && (NonePushesBp(secs) ==> e.nextBpAddr == None && (r.value == e <==> NoneMovesBp(secs)))
  {
    hide Described, ChainEnds, UnwindFrom, ParseInfo, FrameBase, Scan, Emulate, Mirrorable, Root, NoneMovesBp, NonePushesBp, Unwind;
    OffsetIs(data, frame, rf.start + ipOffset);
    UnwindIs(data, rf, f, frame, ipOffset, bp, n);
    MirrorMatchesCodes(EntriesOf(data), data.offset, rf, Call(returnIp), secs, pending, Some(ipOffset), base, None, n);
    StartIsRoot(EntriesOf(data), data.offset, rf, Some(ipOffset), base, None, n);
    ScanEmulates(MirrorChain(secs), rest, base, None);
  }
}
