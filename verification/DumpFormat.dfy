/** Dumps of a virtual machine: taking one, writing it to a file and reading it back. */
module DumpFormat {
  import opened Outcomes
  import opened Bytes
  import opened PhysicalMemory
  import opened RemappedMemory

  datatype Arch = X86_64 | Aarch64

  datatype Vcpu = Vcpu(registers: seq<byte>, special: seq<byte>, other: seq<byte>)

  datatype DumbDump = DumbDump(arch: Arch, vcpus: seq<Vcpu>, mem: Remap)

  datatype DumpError = Unreadable(error: MemoryError) | UnexpectedEof | BadMagic | UnsupportedArch | InvalidSize | Overflow

  const MAGIC: seq<byte> := [0xaa, 0x62, 0x6f, 0x78]
  const HEADER_SIZE: nat := 16
  const MAPPING_SIZE: nat := 16
  const BLOCK: nat := 0x1_0000

  /** Sizes of the three register blocks of a vcpu. */
  function RecordSizes(a: Arch): (nat, nat, nat) { if a.X86_64? then (144, 312, 16) else (272, 32, 0) }

  predicate IsRecord(a: Arch, v: Vcpu) {
    if a.X86_64? then |v.registers| == 144 && |v.special| == 312 && |v.other| == 16
    else |v.registers| == 272 && |v.special| == 32 && |v.other| == 0
  }

  // ---- Taking a dump

  function PartsOf(mem: Memory, ms: seq<Mapping>): (parts: seq<seq<byte>>)
    requires Ordered(ms)
    ensures |parts| == |ms|
  {
    seq(|ms|, i requires 0 <= i < |ms| => assert ms[i] in ms; Content(mem, ms[i].start, ms[i].end - ms[i].start))
  }

  lemma PartIs(mem: Memory, ms: seq<Mapping>, i: nat)
    requires Ordered(ms) && i < |ms|
    ensures ms[i].start <= ms[i].end && Size(ms[i]) == ms[i].end - ms[i].start
    ensures PartsOf(mem, ms)[i] == Content(mem, ms[i].start, ms[i].end - ms[i].start)
  {
    assert ms[i] in ms;
  }

  lemma ConcatNothing(parts: seq<seq<byte>>)
    ensures Concat(parts[..0]) == []
  {
  }

  lemma ConcatStep(parts: seq<seq<byte>>, i: nat)
    requires i < |parts|
    ensures Concat(parts[..i+1]) == Concat(parts[..i]) + parts[i]
    ensures |Concat(parts[..i+1])| <= |Concat(parts)|
  {
    ConcatPart(parts, i);
    assert parts[..i+1][..i] == parts[..i];
  }

  lemma AllPartSizes(mem: Memory, ms: seq<Mapping>)
    requires Ordered(ms)
    ensures forall i :: 0 <= i < |ms| ==> |PartsOf(mem, ms)[i]| == ms[i].end - ms[i].start
  {
    forall i | 0 <= i < |ms| ensures |PartsOf(mem, ms)[i]| == ms[i].end - ms[i].start {
      PartIs(mem, ms, i);
    }
  }

  method DumpVm(mem: Memory, mappings: seq<Mapping>, arch: Arch, vcpus: seq<Vcpu>) returns (r: Result<DumbDump, DumpError>)
    requires Ordered(mappings)
    ensures r.Ok? ==> r.value.arch == arch && r.value.vcpus == vcpus && r.value.mem.mappings == mappings
    ensures r.Ok? ==> Packs(r.value.mem, PartsOf(mem, mappings))
    ensures r.Err? ==>
              || (r.error == Overflow && !Fits(mappings))
              || (exists m :: m in mappings && mem.fault(m.start, m.end - m.start).Some?
                              && r.error == Unreadable(mem.fault(m.start, m.end - m.start).value))
  {
    hide PartsOf, Concat, Content, Size, TotalSize, Packs, Ordered;
    var sums := PrefixSums(mappings);
    if sums.None? {
      return Err(Overflow);
    }
    var (remapAt, total) := sums.value;
    ghost var parts := PartsOf(mem, mappings);
    AllPartSizes(mem, mappings);
    PackedSizes(mappings, parts);
    var packed := new byte[total];
    var offset := 0;
    assert packed[..0] == [] == Concat(parts[..0]) by { ConcatNothing(parts); }
    for i := 0 to |mappings|
      invariant offset == |Concat(parts[..i])| <= total && packed[..offset] == Concat(parts[..i])
    {
      PartIs(mem, mappings, i);
      ConcatStep(parts, i);
      ghost var before := packed[..offset];
      var nextOffset := offset + Size(mappings[i]);
      var fault := ReadPhysical(mem, mappings[i].start, packed, offset, nextOffset);
      if fault.Some? {
        return Err(Unreadable(fault.value));
      }
      assert packed[..offset] == before && packed[..nextOffset] == before + packed[offset..nextOffset];
      offset := nextOffset;
    }
    assert parts[..|mappings|] == parts && packed[..] == packed[..offset];
    PrefixSumsPack(mappings, remapAt, parts);
    r := Ok(DumbDump(arch, vcpus, Remap(mappings, remapAt, packed[..])));
  }

  /** Dumping preserves memory: what a dump reads in a range inside some mapping is what the
      original memory holds there, and other ranges cannot be read. */
  lemma DumpPreservesMemory(mem: Memory, d: Remap, addr: nat, len: nat)
    requires Ordered(d.mappings) && Packs(d, PartsOf(mem, d.mappings))
    ensures ReadAt(d, addr, len) ==
            if exists m :: m in d.mappings && m.Covers(addr, len) then Ok(Content(mem, addr, len)) else Err(OutOfBounds)
  {
    hide PartsOf, Concat, ReadAt, Packs, FirstCovering, Size;
    PackedRead(d, PartsOf(mem, d.mappings), addr, len);
    var j := FirstCovering(d.mappings, addr, len, 0);
    if j.Some? {
      var m := d.mappings[j.value];
      assert m in d.mappings;
      PartIs(mem, d.mappings, j.value);
      assert Content(mem, addr, len) == Content(mem, m.start, m.end - m.start)[addr - m.start..addr - m.start + len];
    }
  }

  // ---- Writing

  function MappingBytes(m: Mapping): (s: seq<byte>)
    ensures |s| == MAPPING_SIZE
  {
    ToLe(m.start, 8) + ToLe(m.end, 8)
  }

  function AllMappings(ms: seq<Mapping>): (s: seq<byte>)
    ensures |s| == MAPPING_SIZE * |ms|
  {
    if ms == [] then [] else MappingBytes(ms[0]) + AllMappings(ms[1..])
  }

  function VcpuBytes(v: Vcpu): seq<byte> { v.registers + v.special + v.other }

  function AllVcpus(vs: seq<Vcpu>): seq<byte> {
    if vs == [] then [] else AllVcpus(vs[..|vs|-1]) + VcpuBytes(vs[|vs|-1])
  }

  function Header(d: DumbDump): (s: seq<byte>)
    ensures |s| == HEADER_SIZE
  {
    MAGIC + ToLe(if d.arch.X86_64? then 0 else 1, 4)
    + ToLe(|d.mem.mappings| % 0x1_0000_0000, 4) + ToLe(|d.vcpus| % 0x1_0000_0000, 4)
  }

  /** One read after another. */
  function Append(done: seq<byte>, next: Read): Read {
    match next case Ok(bytes) => Ok(done + bytes) case Err(e) => Err(e)
  }

  /** Reading from `addr` up to `end` in whole blocks, the last of which may reach beyond. */
  ghost function Blocks(r: Remap, addr: nat, end: nat): Read
    requires |r.mappings| == |r.remapAt|
    decreases end - addr
  {
    if addr >= end then Ok([]) else
    match ReadAt(r, addr, BLOCK)
    case Err(e) => Err(e)
    case Ok(block) => Append(block, Blocks(r, addr + BLOCK, end))
  }

  ghost function DumpFrom(r: Remap, i: nat): Read
    requires |r.mappings| == |r.remapAt| && i <= |r.mappings|
    decreases |r.mappings| - i
  {
    if i == |r.mappings| then Ok([]) else
    match Blocks(r, r.mappings[i].start, r.mappings[i].end)
    case Err(e) => Err(e)
    case Ok(bytes) => Append(bytes, DumpFrom(r, i + 1))
  }

  method DumpBlocks(r: Remap, start: nat, end: nat) returns (bytes: Read)
    requires |r.mappings| == |r.remapAt|
    ensures bytes == Blocks(r, start, end)
  {
    var addr, done := start, [];
    AppendNothing(Blocks(r, start, end));
    while addr < end
      invariant Blocks(r, start, end) == Append(done, Blocks(r, addr, end))
      decreases end - addr
    {
      var block := ReadPhysicalRemapped(r, addr, BLOCK);
      if block.Err? {
        return block;
      }
      AppendTwice(done, block.value, Blocks(r, addr + BLOCK, end));
      done := done + block.value;
      addr := addr + BLOCK;
    }
    assert done + [] == done;
    bytes := Ok(done);
  }

  lemma AppendNothing(next: Read)
    ensures Append([], next) == next
  {
    if next.Ok? { assert [] + next.value == next.value; }
  }

  lemma AppendTwice(a: seq<byte>, b: seq<byte>, next: Read)
    ensures Append(a, Append(b, next)) == Append(a + b, next)
  {
    if next.Ok? { assert a + (b + next.value) == (a + b) + next.value; }
  }

  ghost function Written(d: DumbDump): Result<seq<byte>, DumpError>
    requires |d.mem.mappings| == |d.mem.remapAt|
  {
    match DumpFrom(d.mem, 0)
    case Err(e) => Err(Unreadable(e))
    case Ok(bytes) => Ok(Header(d) + AllMappings(d.mem.mappings) + AllVcpus(d.vcpus) + bytes)
  }

  method Write(d: DumbDump) returns (r: Result<seq<byte>, DumpError>)
    requires |d.mem.mappings| == |d.mem.remapAt|
    ensures r == Written(d)
  {
    hide Header, AllMappings, Blocks, MappingBytes, VcpuBytes;
    var out := Header(d) + AllMappings(d.mem.mappings);
    ghost var head := out;
    assert head + [] == head;
    for i := 0 to |d.vcpus|
      invariant out == head + AllVcpus(d.vcpus[..i])
    {
      assert d.vcpus[..i+1][..i] == d.vcpus[..i];
      out := out + VcpuBytes(d.vcpus[i]);
    }
    assert d.vcpus[..|d.vcpus|] == d.vcpus;
    var done: seq<byte> := [];
    AppendNothing(DumpFrom(d.mem, 0));
    for i := 0 to |d.mem.mappings|
      invariant DumpFrom(d.mem, 0) == Append(done, DumpFrom(d.mem, i))
    {
      var bytes := DumpBlocks(d.mem, d.mem.mappings[i].start, d.mem.mappings[i].end);
      if bytes.Err? {
        return Err(Unreadable(bytes.error));
      }
      AppendTwice(done, bytes.value, DumpFrom(d.mem, i + 1));
      done := done + bytes.value;
    }
    assert done + [] == done;
    r := Ok(out + done);
  }

  // ---- Reading

  function DecodeMappings(s: seq<byte>, n: nat): (ms: seq<Mapping>)
    requires |s| == MAPPING_SIZE * n
    ensures |ms| == n
  {
    if n == 0 then [] else [Mapping(U64At(s), U64At(s[8..]))] + DecodeMappings(s[MAPPING_SIZE..], n - 1)
  }

  function VcpuSize(a: Arch): nat { var (r, p, o) := RecordSizes(a); r + p + o }

  function DecodeVcpu(a: Arch, s: seq<byte>): Vcpu
    requires |s| == VcpuSize(a)
  {
    var (r, p, o) := RecordSizes(a); Vcpu(s[..r], s[r..r + p], s[r + p..])
  }

  /** The first `n` vcpus and what follows them. */
  function DecodeVcpus(a: Arch, s: seq<byte>, n: nat): Option<(seq<Vcpu>, seq<byte>)>
    decreases n
  {
    if n == 0 then Some(([], s))
    else if |s| < VcpuSize(a) then None
    else match DecodeVcpus(a, s[VcpuSize(a)..], n - 1)
         case None => None
         case Some((vs, rest)) => Some(([DecodeVcpu(a, s[..VcpuSize(a)])] + vs, rest))
  }

  ghost function Parse(file: seq<byte>): Result<DumbDump, DumpError> {
    if |file| < HEADER_SIZE then Err(UnexpectedEof)
    else if file[..4] != MAGIC then Err(BadMagic) else
    var (arch, nMappings, nVcpus) := (U32At(file[4..]), U32At(file[8..]), U32At(file[12..]));
    var rest := file[HEADER_SIZE..];
    if |rest| < MAPPING_SIZE * nMappings then Err(UnexpectedEof) else
    var mappings := DecodeMappings(rest[..MAPPING_SIZE * nMappings], nMappings);
    if !Fits(mappings) then Err(Overflow)
    else if arch > 1 then Err(UnsupportedArch) else
    var a := if arch == 0 then X86_64 else Aarch64;
    match DecodeVcpus(a, rest[MAPPING_SIZE * nMappings..], nVcpus)
    case None => Err(UnexpectedEof)
    case Some((vcpus, memory)) =>
      if |memory| != TotalSize(mappings) then Err(InvalidSize)
      else Ok(DumbDump(a, vcpus, Remap(mappings, Sums(mappings), memory)))
  }

  ghost function Sums(ms: seq<Mapping>): seq<nat>
    requires Fits(ms)
  {
    seq(|ms|, i requires 0 <= i < |ms| => TotalSize(ms[..i]))
  }

  method ReadVcpu(file: ByteCursor, a: Arch) returns (r: Option<Vcpu>)
    modifies file
    ensures var s := old(file.rest);
            if |s| < VcpuSize(a) then r == None
            else r == Some(DecodeVcpu(a, s[..VcpuSize(a)])) && file.rest == s[VcpuSize(a)..]
  {
    ghost var s := file.rest;
    var (size1, size2, size3) := RecordSizes(a);
    var registers := file.ReadSlice(size1);
    if registers.None? { return None; }
    var special := file.ReadSlice(size2);
    if special.None? { return None; }
    var other := file.ReadSlice(size3);
    if other.None? { return None; }
    ThreeRecords(s, size1, size2, size3);
    r := Some(Vcpu(registers.value, special.value, other.value));
  }

  lemma ThreeRecords(s: seq<byte>, a: nat, b: nat, c: nat)
    requires |s| >= a + b + c
    ensures var first := s[..a + b + c];
            && s[..a] == first[..a]
            && s[a..][..b] == first[a..a + b]
            && s[a..][b..][..c] == first[a + b..]
            && s[a..][b..][c..] == s[a + b + c..]
  {
    assert s[a..][b..] == s[a + b..];
  }

  lemma VcpusStep(a: Arch, s: seq<byte>, n: nat)
    requires n > 0
    ensures DecodeVcpus(a, s, n) ==
            if |s| < VcpuSize(a) then None
            else match DecodeVcpus(a, s[VcpuSize(a)..], n - 1)
                 case None => None
                 case Some((vs, rest)) => Some(([DecodeVcpu(a, s[..VcpuSize(a)])] + vs, rest))
  {
  }

  method ReadVcpus(file: ByteCursor, a: Arch, n: nat) returns (r: Option<seq<Vcpu>>)
    modifies file
    ensures match DecodeVcpus(a, old(file.rest), n)
            case None => r == None
            case Some((vcpus, rest)) => r == Some(vcpus) && file.rest == rest
  {
    hide DecodeVcpus, DecodeVcpu, VcpuSize;
    ghost var goal := DecodeVcpus(a, file.rest, n);
    var vcpus: seq<Vcpu> := [];
    assert goal.Some? ==> [] + goal.value.0 == goal.value.0;
    for i := 0 to n
      invariant |vcpus| == i
      invariant goal == match DecodeVcpus(a, file.rest, n - i)
                        case None => None
                        case Some((vs, rest)) => Some((vcpus + vs, rest))
    {
      VcpusStep(a, file.rest, n - i);
      var vcpu := ReadVcpu(file, a);
      if vcpu.None? { return None; }
      ghost var more := DecodeVcpus(a, file.rest, n - i - 1);
      assert more.Some? ==> vcpus + ([vcpu.value] + more.value.0) == (vcpus + [vcpu.value]) + more.value.0;
      vcpus := vcpus + [vcpu.value];
    }
    NoVcpus(a, file.rest);
    assert vcpus + [] == vcpus;
    r := Some(vcpus);
  }

  lemma NoVcpus(a: Arch, s: seq<byte>)
    ensures DecodeVcpus(a, s, 0) == Some(([], s))
  {
  }

  method ReadDump(bytes: seq<byte>) returns (r: Result<DumbDump, DumpError>)
    ensures r == Parse(bytes)
  {
    hide FromLe, DecodeVcpus, DecodeMappings;
    var file := new ByteCursor(bytes);
    var magic := file.ReadSlice(4);
    if magic.None? { return Err(UnexpectedEof); }
    var arch := file.ReadU32();
    if arch.None? { return Err(UnexpectedEof); }
    assert file.rest == bytes[8..];
    var nMappings := file.ReadU32();
    if nMappings.None? { return Err(UnexpectedEof); }
    assert file.rest == bytes[12..];
    var nVcpus := file.ReadU32();
    if nVcpus.None? { return Err(UnexpectedEof); }
    assert file.rest == bytes[HEADER_SIZE..];
    if magic.value != MAGIC {
      return Err(BadMagic);
    }
    var raw := file.ReadSlice(MAPPING_SIZE * nMappings.value);
    if raw.None? { return Err(UnexpectedEof); }
    var mappings := DecodeMappings(raw.value, nMappings.value);
    var sums := PrefixSums(mappings);
    if sums.None? { return Err(Overflow); }
    var (remapAt, memSize) := sums.value;
    assert remapAt == Sums(mappings);
    if arch.value > 1 {
      return Err(UnsupportedArch);
    }
    var vcpus := ReadVcpus(file, if arch.value == 0 then X86_64 else Aarch64, nVcpus.value);
    if vcpus.None? { return Err(UnexpectedEof); }
    if |file.rest| != memSize {
      return Err(InvalidSize);
    }
    r := Ok(DumbDump(if arch.value == 0 then X86_64 else Aarch64, vcpus.value, Remap(mappings, remapAt, file.rest)));
  }

  // ---- The round trip

  predicate WholeBlocks(m: Mapping) { (m.end - m.start) % 0x1_0000 == 0 }

  ghost predicate Disjoint(ms: seq<Mapping>) {
    forall i, j :: 0 <= i < j < |ms| ==> ms[i].end <= ms[j].start || ms[j].end <= ms[i].start
  }

  /** A dump as taking or reading one makes it: packed, with complete vcpus, in numbers that the
      header can hold. */
  ghost predicate Storable(d: DumbDump, parts: seq<seq<byte>>) {
    && Packs(d.mem, parts) && Ordered(d.mem.mappings)
    && |d.mem.mappings| < 0x1_0000_0000 && |d.vcpus| < 0x1_0000_0000
    && |d.mem.inner| < 0x8000_0000_0000_0000
    && forall v :: v in d.vcpus ==> IsRecord(d.arch, v)
  }

  /** From `addr` on, a mapping of a whole number of blocks is dumped as its part, and any other
      runs over its end, which no other mapping covers. */
  lemma {:induction false} BlocksOfMapping(r: Remap, parts: seq<seq<byte>>, i: nat, addr: nat)
    requires Packs(r, parts) && Disjoint(r.mappings) && i < |parts|
    requires r.mappings[i].start <= addr <= r.mappings[i].end
    ensures var m := r.mappings[i];
            Blocks(r, addr, m.end) ==
              if (m.end - addr) % BLOCK == 0 then Ok(parts[i][addr - m.start..]) else Err(OutOfBounds)
    decreases r.mappings[i].end - addr
  {
    hide ReadAt, Concat, Disjoint;
    var m := r.mappings[i];
    if addr < m.end {
      PackedRead(r, parts, addr, BLOCK);
      OnlyOneCovers(r.mappings, i, addr, BLOCK);
      if addr + BLOCK <= m.end {
        BlocksOfMapping(r, parts, i, addr + BLOCK);
        var from := addr - m.start;
        assert parts[i][from..from + BLOCK] + parts[i][from + BLOCK..] == parts[i][from..];
        assert (m.end - addr) % BLOCK == (m.end - (addr + BLOCK)) % BLOCK;
      }
    } else {
      assert parts[i][m.end - m.start..] == [];
    }
  }

  lemma OnlyOneCovers(ms: seq<Mapping>, i: nat, addr: nat, len: nat)
    requires Disjoint(ms) && i < |ms| && ms[i].start <= addr < ms[i].end && len > 0
    ensures FirstCovering(ms, addr, len, 0) == if addr + len <= ms[i].end then Some(i) else None
  {
    var j := FirstCovering(ms, addr, len, 0);
    if j.Some? {
      Apart(ms, i, j.value);
    }
  }

  lemma Apart(ms: seq<Mapping>, i: nat, j: nat)
    requires Disjoint(ms) && i < |ms| && j < |ms|
    ensures i == j || ms[i].end <= ms[j].start || ms[j].end <= ms[i].start
  {
  }

  lemma {:induction false} DumpOfMappings(r: Remap, parts: seq<seq<byte>>, i: nat)
    requires Packs(r, parts) && Disjoint(r.mappings) && Ordered(r.mappings) && i <= |parts|
    ensures |Concat(parts[..i])| <= |r.inner|
    ensures DumpFrom(r, i) ==
            if forall j :: i <= j < |parts| ==> WholeBlocks(r.mappings[j]) then Ok(r.inner[|Concat(parts[..i])|..])
            else Err(OutOfBounds)
    decreases |parts| - i
  {
    hide Blocks, Concat, Disjoint;
    if i == |parts| {
      assert parts[..i] == parts;
    } else {
      var m := r.mappings[i];
      assert m in r.mappings;
      BlocksOfMapping(r, parts, i, m.start);
      assert parts[i][0..] == parts[i];
      ConcatPart(parts, i);
      ConcatStep(parts, i);
      DumpOfMappings(r, parts, i + 1);
      var at, next := |Concat(parts[..i])|, |Concat(parts[..i+1])|;
      assert r.inner[at..] == r.inner[at..next] + r.inner[next..];
    }
  }

  lemma {:induction false} MappingsRoundTrip(ms: seq<Mapping>)
    ensures DecodeMappings(AllMappings(ms), |ms|) == ms
  {
    if ms != [] {
      Capacities();
      var (m, s) := (ms[0], AllMappings(ms));
      FromLeToLe(m.start, 8);
      FromLeToLe(m.end, 8);
      assert s[..8] == ToLe(m.start, 8) && s[8..][..8] == ToLe(m.end, 8);
      assert s[MAPPING_SIZE..] == AllMappings(ms[1..]);
      MappingsRoundTrip(ms[1..]);
    }
  }

  lemma {:induction false} AllVcpusCons(vs: seq<Vcpu>)
    requires vs != []
    ensures AllVcpus(vs) == VcpuBytes(vs[0]) + AllVcpus(vs[1..])
  {
    hide VcpuBytes;
    var n := |vs| - 1;
    if n == 0 {
      assert vs[..n] == [] && vs[1..] == [];
      assert [] + VcpuBytes(vs[0]) == VcpuBytes(vs[0]) + [];
    } else {
      AllVcpusCons(vs[..n]);
      var middle := AllVcpus(vs[..n][1..]);
      assert vs[..n][1..] == vs[1..][..n-1];
      assert AllVcpus(vs[1..]) == middle + VcpuBytes(vs[n]);
      assert VcpuBytes(vs[0]) + middle + VcpuBytes(vs[n]) == VcpuBytes(vs[0]) + (middle + VcpuBytes(vs[n]));
    }
  }

  lemma {:induction false} VcpusRoundTrip(a: Arch, vs: seq<Vcpu>, rest: seq<byte>)
    requires forall v :: v in vs ==> IsRecord(a, v)
    ensures DecodeVcpus(a, AllVcpus(vs) + rest, |vs|) == Some((vs, rest))
  {
    if vs == [] {
      assert AllVcpus(vs) + rest == rest;
    } else {
      AllVcpusCons(vs);
      var s, tail := AllVcpus(vs) + rest, AllVcpus(vs[1..]) + rest;
      assert vs[0] in vs;
      assert s == VcpuBytes(vs[0]) + tail;
      assert s[..VcpuSize(a)] == VcpuBytes(vs[0]) && s[VcpuSize(a)..] == tail;
      assert DecodeVcpu(a, VcpuBytes(vs[0])) == vs[0];
      VcpusRoundTrip(a, vs[1..], rest);
      assert [vs[0]] + vs[1..] == vs;
    }
  }

  lemma SumsArePositions(d: Remap, parts: seq<seq<byte>>)
    requires Packs(d, parts) && Ordered(d.mappings) && |d.inner| < 0x8000_0000_0000_0000
    ensures Fits(d.mappings) && Sums(d.mappings) == d.remapAt && TotalSize(d.mappings) == |d.inner|
  {
    var ms := d.mappings;
    forall i | 0 <= i <= |ms| ensures TotalSize(ms[..i]) == |Concat(parts[..i])| <= |d.inner| {
      PackedSizes(ms[..i], parts[..i]);
      if i < |ms| { ConcatPart(parts, i); } else { assert parts[..i] == parts; }
    }
    assert ms[..|ms|] == ms && parts[..|parts|] == parts;
  }

  lemma HeaderReads(d: DumbDump, rest: seq<byte>)
    requires |d.mem.mappings| < 0x1_0000_0000 && |d.vcpus| < 0x1_0000_0000
    ensures var file := Header(d) + rest;
            && file[..4] == MAGIC && file[HEADER_SIZE..] == rest
            && U32At(file[4..]) == (if d.arch.X86_64? then 0 else 1)
            && U32At(file[8..]) == |d.mem.mappings| && U32At(file[12..]) == |d.vcpus|
  {
    hide FromLe, ToLe, Capacity;
    Capacities();
    var arch := if d.arch.X86_64? then 0 else 1;
    FromLeToLe(arch, 4);
    FromLeToLe(|d.mem.mappings|, 4);
    FromLeToLe(|d.vcpus|, 4);
    FourWords(MAGIC, ToLe(arch, 4), ToLe(|d.mem.mappings|, 4), ToLe(|d.vcpus|, 4), rest);
  }

  lemma FourWords(a: seq<byte>, b: seq<byte>, c: seq<byte>, d: seq<byte>, rest: seq<byte>)
    requires |a| == |b| == |c| == |d| == 4
    ensures var file := a + b + c + d + rest;
            && file[..4] == a && file[4..][..4] == b && file[8..][..4] == c && file[12..][..4] == d
            && file[16..] == rest
  {
    var file := a + b + c + d + rest;
    assert file[4..] == b + c + d + rest;
    assert file[8..] == c + d + rest;
    assert file[12..] == d + rest;
    assert file[16..] == rest;
  }

  /** Reading back what was written gives the same dump: architecture, vcpus, mappings and every
      byte of memory. For disjoint mappings writing succeeds exactly if the size of each is a whole
      number of 64 KiB blocks; otherwise it fails, having run over the end of a mapping. */
  lemma WriteThenRead(d: DumbDump, parts: seq<seq<byte>>)
    requires Storable(d, parts) && Disjoint(d.mem.mappings)
    ensures if forall m :: m in d.mem.mappings ==> WholeBlocks(m)
            then Written(d).Ok? && Parse(Written(d).value) == Ok(d)
            else Written(d) == Err(Unreadable(OutOfBounds))
  {
    hide Header, AllMappings, AllVcpus, DumpFrom, Concat, TotalSize, DecodeMappings, DecodeVcpus, Fits, Sums, FromLe, WholeBlocks, IsRecord;
    DumpOfMappings(d.mem, parts, 0);
    assert |Concat(parts[..0])| == 0 by { ConcatNothing(parts); }
    assert d.mem.inner[0..] == d.mem.inner;
    EveryMapping(d.mem.mappings);
    if forall m :: m in d.mem.mappings ==> WholeBlocks(m) {
      ReadsBack(d, parts);
    }
  }

  lemma EveryMapping(ms: seq<Mapping>)
    ensures (forall m :: m in ms ==> WholeBlocks(m)) <==> (forall j :: 0 <= j < |ms| ==> WholeBlocks(ms[j]))
  {
    hide WholeBlocks;
    if forall j :: 0 <= j < |ms| ==> WholeBlocks(ms[j]) {
      forall m | m in ms ensures WholeBlocks(m) {
        var j :| 0 <= j < |ms| && ms[j] == m;
      }
    }
  }

  lemma ReadsBack(d: DumbDump, parts: seq<seq<byte>>)
    requires Storable(d, parts)
    ensures Parse(Header(d) + AllMappings(d.mem.mappings) + AllVcpus(d.vcpus) + d.mem.inner) == Ok(d)
  {
    hide Header, AllMappings, AllVcpus, TotalSize, Fits, Sums, IsRecord, Parse;
    SumsArePositions(d.mem, parts);
    DumpFileParses(Header(d) + AllMappings(d.mem.mappings) + AllVcpus(d.vcpus) + d.mem.inner, d);
  }

  // ---- What can be read

  /** A file is a dump: header, mappings, vcpus of the architecture and memory, in this order and
      with nothing else, the memory being of the total size of the mappings. */
  ghost predicate IsDumpFile(file: seq<byte>, d: DumbDump) {
    && |d.mem.mappings| < 0x1_0000_0000 && |d.vcpus| < 0x1_0000_0000
    && (forall v :: v in d.vcpus ==> IsRecord(d.arch, v))
    && Fits(d.mem.mappings) && d.mem.remapAt == Sums(d.mem.mappings)
    && |d.mem.inner| == TotalSize(d.mem.mappings)
    && file == Header(d) + AllMappings(d.mem.mappings) + AllVcpus(d.vcpus) + d.mem.inner
  }

  /** The converse of the round trip: reading gives a dump exactly for the files that are that
      dump, so every other file is an error. */
  lemma ParsesExactly(file: seq<byte>, d: DumbDump)
    ensures Parse(file) == Ok(d) <==> IsDumpFile(file, d)
  {
    if IsDumpFile(file, d) {
      DumpFileParses(file, d);
    }
    if Parse(file) == Ok(d) {
      ParsedIsDumpFile(file, d);
    }
  }

  lemma DumpFileParses(file: seq<byte>, d: DumbDump)
    requires IsDumpFile(file, d)
    ensures Parse(file) == Ok(d)
  {
    hide Parse, Header, AllMappings, AllVcpus, TotalSize, Fits, Sums, IsRecord;
    MemoryMustFit(file, d);
  }

  /** A dump that lacks some of its memory, or has more, is refused for that. */
  lemma MemoryMustFit(file: seq<byte>, d: DumbDump)
    requires |d.mem.mappings| < 0x1_0000_0000 && |d.vcpus| < 0x1_0000_0000
    requires forall v :: v in d.vcpus ==> IsRecord(d.arch, v)
    requires Fits(d.mem.mappings) && d.mem.remapAt == Sums(d.mem.mappings)
    requires file == Header(d) + AllMappings(d.mem.mappings) + AllVcpus(d.vcpus) + d.mem.inner
    ensures Parse(file) == if |d.mem.inner| == TotalSize(d.mem.mappings) then Ok(d) else Err(InvalidSize)
  {
    hide Header, AllMappings, AllVcpus, TotalSize, DecodeMappings, DecodeVcpus, Fits, Sums, FromLe, IsRecord;
    var maps, rest := AllMappings(d.mem.mappings), AllVcpus(d.vcpus) + d.mem.inner;
    assert file == Header(d) + (maps + rest);
    HeaderReads(d, maps + rest);
    assert (maps + rest)[..|maps|] == maps && (maps + rest)[|maps|..] == rest;
    MappingsRoundTrip(d.mem.mappings);
    VcpusRoundTrip(d.arch, d.vcpus, d.mem.inner);
  }

  /** Files without the magic number, and those of an architecture nobody knows, are refused for
      that. */
  lemma RefusedExactly(file: seq<byte>)
    ensures Parse(file) == Err(BadMagic) <==> |file| >= 16 && file[..4] != [0xaa, 0x62, 0x6f, 0x78]
    ensures Parse(file) == Err(UnsupportedArch) ==>
              |file| >= 16 && file[..4] == [0xaa, 0x62, 0x6f, 0x78] && file[4..8] != [0, 0, 0, 0] && file[4..8] != [1, 0, 0, 0]
    ensures |file| >= 16 && file[4..8] != [0, 0, 0, 0] && file[4..8] != [1, 0, 0, 0] ==>
              Parse(file).Err? && Parse(file).error in {BadMagic, UnexpectedEof, Overflow, UnsupportedArch}
  {
    hide DecodeMappings, DecodeVcpus, Fits, Sums, TotalSize;
    if |file| >= 16 {
      assert file[4..][..4] == file[4..8];
      SmallWords(file[4..8]);
    }
  }

  lemma SmallWords(s: seq<byte>)
    requires |s| == 4
    ensures FromLe(s) <= 1 <==> s == [0, 0, 0, 0] || s == [1, 0, 0, 0]
  {
    assert FromLe(s[3..]) == s[3] as int by { assert s[3..][1..] == []; }
    assert FromLe(s[2..]) == s[2] as int + 0x100 * FromLe(s[3..]) by { assert s[2..][1..] == s[3..]; }
    assert FromLe(s[1..]) == s[1] as int + 0x100 * FromLe(s[2..]) by { assert s[1..][1..] == s[2..]; }
    assert FromLe(s) == s[0] as int + 0x100 * FromLe(s[1..]);
  }

  lemma ParsedIsDumpFile(file: seq<byte>, d: DumbDump)
    requires Parse(file) == Ok(d)
    ensures IsDumpFile(file, d)
  {
    hide Header, AllMappings, AllVcpus, TotalSize, DecodeMappings, DecodeVcpus, Fits, Sums, FromLe, IsRecord, U32At;
    var nMappings, nVcpus := U32At(file[8..]), U32At(file[12..]);
    var rest := file[HEADER_SIZE..];
    var maps, records := rest[..MAPPING_SIZE * nMappings], rest[MAPPING_SIZE * nMappings..];
    MappingsWrittenBack(maps, nMappings);
    VcpusWrittenBack(d.arch, records, nVcpus);
    HeaderWrittenBack(file, d);
    assert file == file[..HEADER_SIZE] + rest && rest == maps + records;
  }

  lemma {:induction false} MappingsWrittenBack(s: seq<byte>, n: nat)
    requires |s| == MAPPING_SIZE * n
    ensures AllMappings(DecodeMappings(s, n)) == s
  {
    if n > 0 {
      MappingsWrittenBack(s[MAPPING_SIZE..], n - 1);
      Capacities();
      ToLeFromLe(s[..8]);
      ToLeFromLe(s[8..][..8]);
      assert s == s[..8] + s[8..][..8] + s[MAPPING_SIZE..];
      assert DecodeMappings(s, n)[1..] == DecodeMappings(s[MAPPING_SIZE..], n - 1);
    }
  }

  lemma {:induction false} VcpusWrittenBack(a: Arch, s: seq<byte>, n: nat)
    ensures DecodeVcpus(a, s, n).Some? ==>
              var (vs, rest) := DecodeVcpus(a, s, n).value;
              |vs| == n && s == AllVcpus(vs) + rest && forall v :: v in vs ==> IsRecord(a, v)
  {
    hide DecodeVcpu, VcpuSize, IsRecord, VcpuBytes, RecordSizes, AllVcpus;
    if n == 0 {
      NoneWritten();
      assert s == [] + s;
    } else if DecodeVcpus(a, s, n).Some? {
      var size := VcpuSize(a);
      VcpusWrittenBack(a, s[size..], n - 1);
      var (vs, rest) := DecodeVcpus(a, s[size..], n - 1).value;
      var v := DecodeVcpu(a, s[..size]);
      RecordWrittenBack(a, s[..size]);
      AllVcpusCons([v] + vs);
      assert ([v] + vs)[1..] == vs;
      Regrouped(s, size, AllVcpus(vs), rest);
    }
  }

  lemma NoneWritten()
    ensures AllVcpus([]) == []
  {
  }

  lemma RecordWrittenBack(a: Arch, s: seq<byte>)
    requires |s| == VcpuSize(a)
    ensures IsRecord(a, DecodeVcpu(a, s)) && VcpuBytes(DecodeVcpu(a, s)) == s
  {
  }

  lemma Regrouped(s: seq<byte>, k: nat, middle: seq<byte>, rest: seq<byte>)
    requires k <= |s| && s[k..] == middle + rest
    ensures s == (s[..k] + middle) + rest
  {
    assert s == s[..k] + s[k..];
  }

  /** How long a dump is: 16 bytes of header and for each mapping, 472 or 304 for each vcpu, and the
      memory. */
  lemma DumpFileLength(file: seq<byte>, d: DumbDump)
    requires IsDumpFile(file, d)
    ensures |file| == 16 + 16 * |d.mem.mappings| + (if d.arch.X86_64? then 472 else 304) * |d.vcpus| + TotalSize(d.mem.mappings)
  {
    hide Header, AllMappings, AllVcpus, Fits, Sums, TotalSize, IsRecord;
    VcpusLength(d.arch, d.vcpus);
  }

  lemma {:induction false} VcpusLength(a: Arch, vs: seq<Vcpu>)
    requires forall v :: v in vs ==> IsRecord(a, v)
    ensures |AllVcpus(vs)| == (if a.X86_64? then 472 else 304) * |vs|
  {
    if vs != [] {
      VcpusLength(a, vs[..|vs|-1]);
      assert vs[|vs|-1] in vs;
    }
  }

  lemma HeaderWrittenBack(file: seq<byte>, d: DumbDump)
    requires HEADER_SIZE <= |file| && file[..4] == MAGIC
    requires U32At(file[4..]) == (if d.arch.X86_64? then 0 else 1)
    requires U32At(file[8..]) == |d.mem.mappings| && U32At(file[12..]) == |d.vcpus|
    ensures Header(d) == file[..HEADER_SIZE]
  {
    hide FromLe, ToLe, Capacity;
    Capacities();
    ToLeFromLe(file[4..][..4]);
    ToLeFromLe(file[8..][..4]);
    ToLeFromLe(file[12..][..4]);
    assert file[..HEADER_SIZE] == file[..4] + file[4..][..4] + file[8..][..4] + file[12..][..4];
  }

  /** The header in bytes. */
  lemma HeaderBytes(d: DumbDump)
    ensures Header(d)[..4] == [0xaa, 0x62, 0x6f, 0x78]
    ensures Header(d)[4..8] == [if d.arch.X86_64? then 0 else 1, 0, 0, 0]
  {
    ToLeOne(if d.arch.X86_64? then 0 else 1);
  }

  lemma ToLeOne(n: byte)
    ensures ToLe(n, 4) == [n, 0, 0, 0]
  {
    assert ToLe(0, 1) == [0];
    assert ToLe(0, 2) == [0] + ToLe(0, 1);
    assert ToLe(0, 3) == [0] + ToLe(0, 2);
  }
}
