/** The unwind codes of x64 exception data: the decoder, and the encoding it inverts
    (Microsoft "x64 exception handling", section "struct UNWIND_CODE"). */
module UnwindCodes {
  import opened Outcomes
  import opened Bytes

  type nibble = x: int | 0 <= x < 16

  const RBP: nibble := 5

  const UWOP_PUSH_NONVOL := 0
  const UWOP_ALLOC_LARGE := 1
  const UWOP_ALLOC_SMALL := 2
  const UWOP_SET_FPREG := 3
  const UWOP_SAVE_NONVOL := 4
  const UWOP_SAVE_NONVOL_FAR := 5
  const UWOP_EPILOG := 6
  const UWOP_SAVE_XMM128 := 8
  const UWOP_SAVE_XMM128_FAR := 9
  const UWOP_PUSH_MACHFRAME := 10

  /** What one code does, sizes and offsets in bytes. */
  datatype UnwindOp =
    | Push(reg: nibble)
    | Alloc(size: u32)
    | SetFpReg
    | Save(reg: nibble, offset: u32)
    | Epilog
    | SaveXmm128(reg: nibble, offset: u32)
    | PushMachFrame(error: bool)

  /** An operation and the offset in the function of the end of its instruction. */
  datatype Coded = Coded(at: byte, op: UnwindOp)

  /** One element of the code stream: an operation, or a code that cannot be read. */
  datatype Item = Code(coded: Coded) | Malformed

  // ---- Decoding

  /** The operation whose bytes, after its offset byte, start `s`, and what follows it. */
  function DecodeOp(version: byte, s: seq<byte>): (Option<UnwindOp>, seq<byte>) {
    if s == [] then (None, s) else DecodeLead(version, s[0] % 16, s[0] / 16, s[1..])
  }

  function DecodeLead(version: byte, code: nibble, info: nibble, t: seq<byte>): (Option<UnwindOp>, seq<byte>) {
    if code == UWOP_PUSH_NONVOL then (Some(Push(info)), t)
    else if code == UWOP_ALLOC_LARGE then
      if info == 0 then
        if |t| < 2 then (None, t) else (Some(Alloc(U16At(t) * 8)), t[2..])
      else if info == 1 then
        if |t| < 4 then (None, t) else (Some(Alloc(U32At(t))), t[4..])
      else (None, t)
    else if code == UWOP_ALLOC_SMALL then (Some(Alloc(info * 8 + 8)), t)
    else if code == UWOP_SET_FPREG then (Some(SetFpReg), t)
    else if code == UWOP_SAVE_NONVOL then
      if |t| < 2 then (None, t) else (Some(Save(info, U16At(t) * 8)), t[2..])
    else if code == UWOP_SAVE_NONVOL_FAR then
      if |t| < 4 then (None, t) else (Some(Save(info, U32At(t))), t[4..])
    else if code == UWOP_EPILOG && version == 2 then
      if |t| < 2 then (None, t) else (Some(Epilog), t[2..])
    else if code == UWOP_SAVE_XMM128 then
      if |t| < 2 then (None, t) else (Some(SaveXmm128(info, U16At(t) * 16)), t[2..])
    else if code == UWOP_SAVE_XMM128_FAR then
      if |t| < 4 then (None, t) else (Some(SaveXmm128(info, U32At(t))), t[4..])
    else if code == UWOP_PUSH_MACHFRAME && info <= 1 then (Some(PushMachFrame(info == 1)), t)
    else (None, t)
  }

  /** The next element of the stream and the bytes after it; None at the end. */
  function DecodeNext(version: byte, s: seq<byte>): (r: Option<(Item, seq<byte>)>)
    ensures r.None? <==> s == []
    ensures r.Some? ==> |r.value.1| < |s| && r.value.1 == s[|s| - |r.value.1|..]
    ensures r.Some? && r.value.0.Code? ==> |r.value.1| + 2 <= |s|
  {
    if s == [] then None else
    var (op, rest) := DecodeOp(version, s[1..]);
    Some((match op case Some(o) => Code(Coded(s[0], o)) case None => Malformed, rest))
  }

  /** The whole stream. */
  function Items(version: byte, s: seq<byte>): (items: seq<Item>)
    ensures items == [] <==> s == []
    decreases |s|
  {
    match DecodeNext(version, s)
    case None => []
    case Some((item, rest)) => [item] + Items(version, rest)
  }

  /** The iterator over the codes of one function. */
  class UnwindOpIterator {
    const version: byte
    const codes: ByteCursor

    constructor (version: byte, bytes: seq<byte>)
      ensures this.version == version && codes.rest == bytes
      ensures fresh(codes)
    {
      this.version := version;
      codes := new ByteCursor(bytes);
    }

    method Next() returns (r: Option<Item>)
      modifies codes
      ensures match DecodeNext(version, old(codes.rest))
              case None => r == None && codes.rest == old(codes.rest)
              case Some((item, rest)) => r == Some(item) && codes.rest == rest
      ensures r.Some? ==> Items(version, old(codes.rest)) == [r.value] + Items(version, codes.rest)
      ensures r.Some? ==> |codes.rest| < |old(codes.rest)|
    {
      var at := codes.ReadU8();
      if at.None? {
        return None;
      }
      ghost var tail := old(codes.rest)[1..];
      assert codes.rest == tail;
      var op := NextOp();
      match op {
        case Some(o) => return Some(Code(Coded(at.value, o)));
        case None => return Some(Malformed);
      }
    }

    method NextOp() returns (op: Option<UnwindOp>)
      modifies codes
      ensures (op, codes.rest) == DecodeOp(version, old(codes.rest))
    {
      ghost var all := codes.rest;
      var b := codes.ReadU8();
      if b.None? {
        return None;
      }
      assert all[1..] == codes.rest && all[0] == b.value;
      var code, info := b.value % 16, b.value / 16;
      if code == UWOP_PUSH_NONVOL {
        return Some(Push(info));
      } else if code == UWOP_ALLOC_LARGE && info == 0 {
        var n := codes.ReadU16();
        return if n.Some? then Some(Alloc(n.value as int * 8)) else None;
      } else if code == UWOP_ALLOC_LARGE && info == 1 {
        var n := codes.ReadU32();
        return if n.Some? then Some(Alloc(n.value)) else None;
      } else if code == UWOP_ALLOC_SMALL {
        return Some(Alloc(info * 8 + 8));
      } else if code == UWOP_SET_FPREG {
        return Some(SetFpReg);
      } else if code == UWOP_SAVE_NONVOL {
        var n := codes.ReadU16();
        return if n.Some? then Some(Save(info, n.value as int * 8)) else None;
      } else if code == UWOP_SAVE_NONVOL_FAR {
        var n := codes.ReadU32();
        return if n.Some? then Some(Save(info, n.value)) else None;
      } else if code == UWOP_EPILOG && version == 2 {
        var n := codes.ReadU16();
        return if n.Some? then Some(Epilog) else None;
      } else if code == UWOP_SAVE_XMM128 {
        var n := codes.ReadU16();
        return if n.Some? then Some(SaveXmm128(info, n.value as int * 16)) else None;
      } else if code == UWOP_SAVE_XMM128_FAR {
        var n := codes.ReadU32();
        return if n.Some? then Some(SaveXmm128(info, n.value)) else None;
      } else if code == UWOP_PUSH_MACHFRAME && info <= 1 {
        return Some(PushMachFrame(info == 1));
      } else {
        return None;
      }
    }
  }

  // ---- Encoding

  /** The codes as a compiler writes them: each choice of short or far form, and the bits the
      decoder ignores. */
  datatype UnwindCode =
    | PushNonvol(reg: nibble)
    | AllocLarge(words: u16)
    | AllocFar(bytes: u32)
    | AllocSmall(info: nibble)
    | SetFramePointer(ignored: nibble)
    | SaveNonvol(reg: nibble, words: u16)
    | SaveNonvolFar(reg: nibble, bytes: u32)
    | EpilogScope(info: nibble, data: u16)
    | SaveXmm(reg: nibble, pairs: u16)
    | SaveXmmFar(reg: nibble, bytes: u32)
    | MachFrame(error: bool)

  datatype Slot = Slot(at: byte, code: UnwindCode)

  function Meaning(c: UnwindCode): UnwindOp {
    match c
    case PushNonvol(reg) => Push(reg)
    case AllocLarge(words) => Alloc(words * 8)
    case AllocFar(bytes) => Alloc(bytes)
    case AllocSmall(info) => Alloc(info * 8 + 8)
    case SetFramePointer(_) => SetFpReg
    case SaveNonvol(reg, words) => Save(reg, words * 8)
    case SaveNonvolFar(reg, bytes) => Save(reg, bytes)
    case EpilogScope(_, _) => Epilog
    case SaveXmm(reg, pairs) => SaveXmm128(reg, pairs * 16)
    case SaveXmmFar(reg, bytes) => SaveXmm128(reg, bytes)
    case MachFrame(error) => PushMachFrame(error)
  }

  function MeaningOf(s: Slot): Coded { Coded(s.at, Meaning(s.code)) }

  function Meanings(slots: seq<Slot>): (items: seq<Item>)
    ensures |items| == |slots|
  {
    seq(|slots|, i requires 0 <= i < |slots| => Code(MeaningOf(slots[i])))
  }

  /** Epilog scopes only exist in version 2. */
  predicate Expressible(version: byte, c: UnwindCode) {
    c.EpilogScope? ==> version == 2
  }

  function Opcode(c: UnwindCode): nibble {
    match c
    case PushNonvol(_) => UWOP_PUSH_NONVOL
    case AllocLarge(_) => UWOP_ALLOC_LARGE
    case AllocFar(_) => UWOP_ALLOC_LARGE
    case AllocSmall(_) => UWOP_ALLOC_SMALL
    case SetFramePointer(_) => UWOP_SET_FPREG
    case SaveNonvol(_, _) => UWOP_SAVE_NONVOL
    case SaveNonvolFar(_, _) => UWOP_SAVE_NONVOL_FAR
    case EpilogScope(_, _) => UWOP_EPILOG
    case SaveXmm(_, _) => UWOP_SAVE_XMM128
    case SaveXmmFar(_, _) => UWOP_SAVE_XMM128_FAR
    case MachFrame(_) => UWOP_PUSH_MACHFRAME
  }

  function OpInfo(c: UnwindCode): nibble {
    match c
    case AllocLarge(_) => 0
    case AllocFar(_) => 1
    case MachFrame(error) => if error then 1 else 0
    case PushNonvol(reg) => reg
    case AllocSmall(info) => info
    case SetFramePointer(ignored) => ignored
    case SaveNonvol(reg, _) => reg
    case SaveNonvolFar(reg, _) => reg
    case EpilogScope(info, _) => info
    case SaveXmm(reg, _) => reg
    case SaveXmmFar(reg, _) => reg
  }

  /** The extra slots: a 16-bit or 32-bit number, or nothing. */
  function Operand(c: UnwindCode): seq<byte> {
    match c
    case AllocLarge(n) => ToLe(n, 2)
    case AllocFar(n) => ToLe(n, 4)
    case SaveNonvol(_, n) => ToLe(n, 2)
    case SaveNonvolFar(_, n) => ToLe(n, 4)
    case EpilogScope(_, n) => ToLe(n, 2)
    case SaveXmm(_, n) => ToLe(n, 2)
    case SaveXmmFar(_, n) => ToLe(n, 4)
    case _ => []
  }

  function EncodeCode(c: UnwindCode): seq<byte> { [OpInfo(c) * 16 + Opcode(c)] + Operand(c) }

  function EncodeSlot(s: Slot): seq<byte> { [s.at] + EncodeCode(s.code) }

  function Encode(slots: seq<Slot>): seq<byte> {
    if slots == [] then [] else EncodeSlot(slots[0]) + Encode(slots[1..])
  }

  lemma ReadBack(n: nat, width: nat, rest: seq<byte>)
    requires n < Capacity(width)
    ensures |ToLe(n, width) + rest| >= width
    ensures FromLe((ToLe(n, width) + rest)[..width]) == n
    ensures (ToLe(n, width) + rest)[width..] == rest
  {
    FromLeToLe(n, width);
    assert (ToLe(n, width) + rest)[..width] == ToLe(n, width);
  }

  lemma DecodeEncodedLead(version: byte, c: UnwindCode, rest: seq<byte>)
    requires Expressible(version, c)
    ensures DecodeLead(version, Opcode(c), OpInfo(c), Operand(c) + rest) == (Some(Meaning(c)), rest)
  {
    Capacities();
    match c
    case AllocLarge(n) => ReadBack(n, 2, rest);
    case AllocFar(n) => ReadBack(n, 4, rest);
    case SaveNonvol(_, n) => ReadBack(n, 2, rest);
    case SaveNonvolFar(_, n) => ReadBack(n, 4, rest);
    case EpilogScope(_, n) => ReadBack(n, 2, rest);
    case SaveXmm(_, n) => ReadBack(n, 2, rest);
    case SaveXmmFar(_, n) => ReadBack(n, 4, rest);
    case _ => assert Operand(c) + rest == rest;
  }

  lemma DecodeEncodedCode(version: byte, c: UnwindCode, rest: seq<byte>)
    requires Expressible(version, c)
    ensures DecodeOp(version, EncodeCode(c) + rest) == (Some(Meaning(c)), rest)
  {
    hide DecodeLead, Operand, Opcode, OpInfo;
    DecodeEncodedLead(version, c, rest);
    assert (EncodeCode(c) + rest)[1..] == Operand(c) + rest;
  }

  lemma DecodeEncodedSlot(version: byte, slot: Slot, rest: seq<byte>)
    requires Expressible(version, slot.code)
    ensures DecodeNext(version, EncodeSlot(slot) + rest) == Some((Code(MeaningOf(slot)), rest))
  {
    hide DecodeOp, EncodeCode;
    DecodeEncodedCode(version, slot.code, rest);
    assert (EncodeSlot(slot) + rest)[1..] == EncodeCode(slot.code) + rest;
  }

  /** Decoding gives back every list of operations from its encoding. */
  lemma {:induction false} DecodeEncoded(version: byte, slots: seq<Slot>)
    requires forall s :: s in slots ==> Expressible(version, s.code)
    ensures Items(version, Encode(slots)) == Meanings(slots)
  {
    if slots != [] {
      DecodeEncodedSlot(version, slots[0], Encode(slots[1..]));
      DecodeEncoded(version, slots[1..]);
      assert Meanings(slots) == [Code(MeaningOf(slots[0]))] + Meanings(slots[1..]);
    }
  }

  /** The code whose first byte and following bytes the decoder read. */
  function Recode(code: nibble, info: nibble, t: seq<byte>): UnwindCode {
    var word := if |t| < 2 then 0 else U16At(t);
    var dword := if |t| < 4 then 0 else U32At(t);
    if code == UWOP_PUSH_NONVOL then PushNonvol(info)
    else if code == UWOP_ALLOC_LARGE then (if info == 0 then AllocLarge(word) else AllocFar(dword))
    else if code == UWOP_ALLOC_SMALL then AllocSmall(info)
    else if code == UWOP_SET_FPREG then SetFramePointer(info)
    else if code == UWOP_SAVE_NONVOL then SaveNonvol(info, word)
    else if code == UWOP_SAVE_NONVOL_FAR then SaveNonvolFar(info, dword)
    else if code == UWOP_EPILOG then EpilogScope(info, word)
    else if code == UWOP_SAVE_XMM128 then SaveXmm(info, word)
    else if code == UWOP_SAVE_XMM128_FAR then SaveXmmFar(info, dword)
    else MachFrame(info == 1)
  }

  lemma WriteBack(s: seq<byte>, width: nat)
    requires width <= |s|
    ensures ToLe(FromLe(s[..width]), width) + s[width..] == s
  {
    ToLeFromLe(s[..width]);
  }

  lemma EncodeDecodedLead(version: byte, code: nibble, info: nibble, t: seq<byte>)
    requires DecodeLead(version, code, info, t).0.Some?
    ensures var (op, rest) := DecodeLead(version, code, info, t);
            var c := Recode(code, info, t);
            && Expressible(version, c) && Meaning(c) == op.value
            && Opcode(c) == code && OpInfo(c) == info && Operand(c) + rest == t
  {
    hide FromLe, ToLe;
    var c := Recode(code, info, t);
    match c {
      case AllocFar(_) => WriteBack(t, 4);
      case SaveNonvolFar(_, _) => WriteBack(t, 4);
      case SaveXmmFar(_, _) => WriteBack(t, 4);
      case AllocLarge(_) => WriteBack(t, 2);
      case SaveNonvol(_, _) => WriteBack(t, 2);
      case EpilogScope(_, _) => WriteBack(t, 2);
      case SaveXmm(_, _) => WriteBack(t, 2);
      case _ => assert Operand(c) + t == t;
    }
  }

  /** Only encodings are accepted: a stream has no malformed item exactly when it is the encoding
      of some list of expressible codes, so the decoder reads nothing but what the format can
      write. */
  lemma {:induction false} DecodesExactlyEncodings(version: byte, s: seq<byte>)
    ensures (forall item :: item in Items(version, s) ==> item.Code?) <==>
            exists slots: seq<Slot> :: Encode(slots) == s && forall x :: x in slots ==> Expressible(version, x.code)
  {
    if forall item :: item in Items(version, s) ==> item.Code? {
      var slots := Slots(version, s);
    }
    forall slots: seq<Slot> | Encode(slots) == s && forall x :: x in slots ==> Expressible(version, x.code)
      ensures forall item :: item in Items(version, s) ==> item.Code?
    {
      DecodeEncoded(version, slots);
    }
  }

  lemma EncodeDecodedSlot(version: byte, s: seq<byte>) returns (slot: Slot)
    requires s != [] && DecodeNext(version, s).value.0.Code?
    ensures EncodeSlot(slot) + DecodeNext(version, s).value.1 == s
    ensures Expressible(version, slot.code)
  {
    hide DecodeLead, Recode, Operand;
    var lead, rest := s[1], DecodeNext(version, s).value.1;
    var code := Recode(lead % 16, lead / 16, s[2..]);
    assert s[1..][1..] == s[2..];
    EncodeDecodedLead(version, lead % 16, lead / 16, s[2..]);
    slot := Slot(s[0], code);
    assert EncodeSlot(slot) == [s[0], lead] + Operand(code);
    assert EncodeSlot(slot) + rest == [s[0], lead] + s[2..];
  }

  lemma {:induction false} Slots(version: byte, s: seq<byte>) returns (slots: seq<Slot>)
    requires forall item :: item in Items(version, s) ==> item.Code?
    ensures Encode(slots) == s
    ensures forall x :: x in slots ==> Expressible(version, x.code)
    decreases |s|
  {
    hide DecodeNext, EncodeSlot;
    if s == [] {
      slots := [];
    } else {
      var (item, rest) := DecodeNext(version, s).value;
      assert Items(version, s)[0] == item;
      var slot := EncodeDecodedSlot(version, s);
      var tail := Slots(version, rest);
      slots := [slot] + tail;
      assert slots[1..] == tail;
    }
  }

  /** The codes by their bytes: one example of each, in the numbering of the standard. */
  lemma CodesByTheirBytes()
    ensures DecodeOp(1, [0x50]) == (Some(Push(5)), [])
    ensures DecodeOp(1, [0x32]) == (Some(Alloc(32)), [])
    ensures DecodeOp(1, [0x03]) == (Some(SetFpReg), [])
    ensures DecodeOp(2, [0x16, 0x00, 0x00]) == (Some(Epilog), []) && DecodeOp(1, [0x16, 0x00, 0x00]).0 == None
    ensures DecodeOp(1, [0x0a]) == (Some(PushMachFrame(false)), []) && DecodeOp(1, [0x1a]) == (Some(PushMachFrame(true)), [])
    ensures DecodeOp(1, [0x07]).0 == None && DecodeOp(1, [0x21]).0 == None
    ensures RBP == 5
  {
    var epilog: seq<byte> := [0x16, 0x00, 0x00];
    assert epilog[1..] == [0x00, 0x00] && epilog[1..][2..] == [];
    assert epilog[0] % 16 == 6 && epilog[0] / 16 == 1;
  }

  /** The codes with an operand of two bytes, scaled, or of four, not scaled. */
  lemma OperandsByTheirBytes(a: byte, b: byte, c: byte, d: byte)
    ensures var word := a as int + 0x100 * b as int;
            && DecodeOp(1, [0x01, a, b]) == (Some(Alloc(word * 8)), [])
            && DecodeOp(1, [0x54, a, b]) == (Some(Save(5, word * 8)), [])
            && DecodeOp(1, [0x68, a, b]) == (Some(SaveXmm128(6, word * 16)), [])
    ensures var dword := a as int + 0x100 * b as int + 0x1_0000 * c as int + 0x100_0000 * d as int;
            && DecodeOp(1, [0x11, a, b, c, d]) == (Some(Alloc(dword)), [])
            && DecodeOp(1, [0x55, a, b, c, d]) == (Some(Save(5, dword)), [])
            && DecodeOp(1, [0x69, a, b, c, d]) == (Some(SaveXmm128(6, dword)), [])
  {
    TwoBytes([a, b]);
    FourBytes([a, b, c, d]);
    hide U16At, U32At;
    assert forall x: byte :: [x, a, b][1..] == [a, b] && [x, a, b, c, d][1..] == [a, b, c, d];
    assert [a, b][2..] == [] && [a, b, c, d][4..] == [];
  }

  lemma TwoBytes(s: seq<byte>)
    requires |s| == 2
    ensures U16At(s) == s[0] as int + 0x100 * s[1] as int
  {
    Capacities();
    assert s[..2] == s && s[1..][1..] == [];
    assert FromLe(s[1..]) == s[1] as int;
  }

  lemma FourBytes(s: seq<byte>)
    requires |s| == 4
    ensures U32At(s) == s[0] as int + 0x100 * s[1] as int + 0x1_0000 * s[2] as int + 0x100_0000 * s[3] as int
  {
    Capacities();
    assert s[..4] == s;
    assert FromLe(s[3..]) == s[3] as int by { assert s[3..][1..] == []; }
    assert FromLe(s[2..]) == s[2] as int + 0x100 * s[3] as int by { assert s[2..][1..] == s[3..]; }
    assert FromLe(s[1..]) == s[1] as int + 0x100 * s[2] as int + 0x1_0000 * s[3] as int by { assert s[1..][1..] == s[2..]; }
    assert FromLe(s) == s[0] as int + 0x100 * FromLe(s[1..]);
  }
}
