/** Unwind information as compilers write it (Microsoft "x64 exception handling", section "struct
    UNWIND_INFO"), and how far the parser reads it back. */
module UnwindInfos {
  import opened Outcomes
  import opened Bytes
  import opened UnwindCodes
  import opened FunctionTable
  import opened Unwinder

  /** `slots` in stored order; `handlers` are the two flags the parser ignores; the two padding
      bytes fill an odd number of 16-bit slots. */
  datatype UnwindInfo = UnwindInfo(
    version: byte, handlers: nibble, prologSize: byte, frameRegister: nibble, frameOffset: nibble,
    slots: seq<Slot>, padding: seq<byte>, mother: Option<RuntimeFunction>)

  ghost predicate Storable(i: UnwindInfo) {
    && 1 <= i.version <= 2 && i.handlers < 4 && |i.padding| == 2
    && |Encode(i.slots)| / 2 < 256
    && (i.mother.Some? ==> i.mother.value.start < i.mother.value.end)
  }

  function FunctionBytes(f: RuntimeFunction): (s: seq<byte>)
    ensures |s| == ENTRY_SIZE
  {
    ToLe(f.start, 4) + ToLe(f.end, 4) + ToLe(f.ptr, 4)
  }

  function Count(i: UnwindInfo): nat { |Encode(i.slots)| / 2 }

  function Header(i: UnwindInfo): seq<byte>
    requires Storable(i)
  {
    [i.version + 8 * i.handlers + (if i.mother.Some? then 0x20 else 0),
     i.prologSize, Count(i), i.frameRegister + 16 * i.frameOffset]
  }

  function EncodeInfo(i: UnwindInfo): seq<byte>
    requires Storable(i)
  {
    Header(i) + Encode(i.slots)
    + (if Count(i) % 2 == 1 then i.padding else [])
    + (if i.mother.Some? then FunctionBytes(i.mother.value) else [])
  }

  function EntryOf(i: UnwindInfo): FunctionEntry
    requires Storable(i)
  {
    FunctionEntry(i.mother, i.version, if i.frameRegister != 0 then Some(16 * i.frameOffset) else None, Encode(i.slots))
  }

  lemma {:induction false} EncodeIsEven(slots: seq<Slot>)
    ensures |Encode(slots)| % 2 == 0
  {
    if slots != [] {
      EncodeIsEven(slots[1..]);
      assert |EncodeSlot(slots[0])| % 2 == 0;
    }
  }

  lemma FunctionRoundTrip(f: RuntimeFunction)
    ensures FunctionAt(FunctionBytes(f)) == f
  {
    Capacities();
    var s := FunctionBytes(f);
    FromLeToLe(f.start, 4); FromLeToLe(f.end, 4); FromLeToLe(f.ptr, 4);
    assert s[..4] == ToLe(f.start, 4) && s[4..][..4] == ToLe(f.end, 4) && s[8..][..4] == ToLe(f.ptr, 4);
  }

  lemma FunctionBytesRoundTrip(s: seq<byte>)
    requires |s| == ENTRY_SIZE
    ensures FunctionBytes(FunctionAt(s)) == s
  {
    Capacities();
    ToLeFromLe(s[..4]); ToLeFromLe(s[4..][..4]); ToLeFromLe(s[8..][..4]);
  }

  /** Read two bytes early, the bytes of a non-empty function are never those of that function. */
  lemma ShiftedFunctionDiffers(f: RuntimeFunction, padding: seq<byte>)
    requires f.start != f.end && |padding| == 2
    ensures FunctionAt(padding + FunctionBytes(f)[..10]) != f
  {
    var b, x := FunctionBytes(f), padding + FunctionBytes(f)[..10];
    FunctionBytesRoundTrip(x);
    if FunctionAt(x) == f {
      assert x == b;
      assert forall i :: 2 <= i < 12 ==> b[i] == b[i-2];
      assert b[..4] == ToLe(f.start, 4) && b[4..8] == ToLe(f.end, 4);
      assert b[..4] == b[4..8];
      Capacities();
      FromLeToLe(f.start, 4); FromLeToLe(f.end, 4);
      assert false;
    }
  }

  /** Parsing gives back what was stored, except that the mother of an entry with an odd number of
      slots is looked for two bytes too early: the parser does not skip the padding slot. So
      exactly the chained entries with an odd number of slots are misread. */
  lemma ParsesBackUnlessPadded(i: UnwindInfo, rest: seq<byte>)
    requires Storable(i)
    ensures ParseInfo(EncodeInfo(i) + rest) == Some(EntryOf(i)) <==> (i.mother.None? || Count(i) % 2 == 0)
  {
    hide FunctionBytes, FunctionAt, Encode;
    EncodeIsEven(i.slots);
    var s := EncodeInfo(i) + rest;
    var codesEnd: int := 4 + 2 * Count(i);
    assert s[0] == Header(i)[0] && s[1] == Header(i)[1] && s[2] == Header(i)[2] && s[3] == Header(i)[3];
    assert s[4..codesEnd] == Encode(i.slots);
    if i.mother.Some? {
      var bytes := FunctionBytes(i.mother.value);
      FunctionRoundTrip(i.mother.value);
      ShiftedFunctionDiffers(i.mother.value, i.padding);
      if Count(i) % 2 == 0 {
        assert s[codesEnd..codesEnd + ENTRY_SIZE] == bytes;
      } else {
        assert s[codesEnd..codesEnd + ENTRY_SIZE] == i.padding + bytes[..10];
      }
    }
  }

  /** An entry is read exactly if its version is known and the codes it counts, and the mother it
      announces, are there; it is made of just those bytes. */
  lemma ParsesExactly(s: seq<byte>)
    ensures ParseInfo(s).Some? <==>
            |s| >= 4 && s[0] % 8 in {1, 2} && |s| >= 4 + 2 * s[2] as int + if s[0] / 32 % 2 == 1 then 12 else 0
    ensures ParseInfo(s).Some? ==>
              var f, size := ParseInfo(s).value, 2 * s[2] as int;
              && f.version == s[0] % 8 && f.unwindCodes == s[4..4 + size]
              && f.frameRegisterOffset == (if s[3] % 16 == 0 then None else Some(s[3] / 16 * 16))
              && (f.mother.Some? <==> s[0] / 32 % 2 == 1)
              && (f.mother.Some? ==> FunctionBytes(f.mother.value) == s[4 + size..16 + size])
  {
    hide FunctionBytes, FunctionAt;
    if ParseInfo(s).Some? && s[0] / 32 % 2 == 1 {
      FunctionBytesRoundTrip(s[4 + 2 * s[2] as int..16 + 2 * s[2] as int]);
    }
  }

  /** An entry is read where its `ptr` points in the image. */
  lemma EntryIsReadAtPtr(rf: RuntimeFunction, before: seq<byte>, i: UnwindInfo, rest: seq<byte>)
    requires Storable(i) && |before| == rf.ptr
    ensures Parse(before + EncodeInfo(i) + rest, rf) == Some(EntryOf(i)) <==> (i.mother.None? || Count(i) % 2 == 0)
  {
    hide ParseInfo, EncodeInfo, EntryOf, Encode;
    ParsesBackUnlessPadded(i, rest);
    assert (before + EncodeInfo(i) + rest)[rf.ptr..] == EncodeInfo(i) + rest;
  }

  function TableBytes(fs: seq<RuntimeFunction>): (s: seq<byte>)
    ensures |s| == ENTRY_SIZE * |fs|
  {
    if fs == [] then [] else FunctionBytes(fs[0]) + TableBytes(fs[1..])
  }

  lemma {:induction false} TableEntryAt(fs: seq<RuntimeFunction>, k: nat)
    requires k < |fs|
    ensures TableBytes(fs)[ENTRY_SIZE * k..ENTRY_SIZE * (k + 1)] == FunctionBytes(fs[k])
  {
    hide FunctionBytes;
    if k > 0 {
      TableEntryAt(fs[1..], k - 1);
      var rest := TableBytes(fs[1..]);
      assert TableBytes(fs)[ENTRY_SIZE * k..ENTRY_SIZE * (k + 1)] == rest[ENTRY_SIZE * (k - 1)..ENTRY_SIZE * k];
    }
  }

  /** The function table of an image is the list of which the directory holds the bytes. */
  lemma TableIsItsEntries(data: UnwindData, fs: seq<RuntimeFunction>)
    requires data.directory <= data.directoryEnd <= |data.content|
    requires data.content[data.directory..data.directoryEnd] == TableBytes(fs)
    ensures Functions(data) == fs
  {
    hide FunctionBytes, FunctionAt;
    assert |TableBytes(fs)| / ENTRY_SIZE == |fs|;
    forall k | 0 <= k < |fs| ensures Functions(data)[k] == fs[k] {
      TableEntryAt(fs, k);
      FunctionRoundTrip(fs[k]);
    }
  }
}
