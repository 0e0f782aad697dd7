/** Memory kept as one packed byte sequence, and found again through its mappings. */
module RemappedMemory {
  import opened Outcomes
  import opened Bytes
  import opened PhysicalMemory

  datatype Mapping = Mapping(start: u64, end: u64) {
    predicate Covers(addr: nat, len: nat) { start <= addr && addr + len <= end }
  }

  /** `remapAt[i]` is where mapping `i` is in `inner`. */
  datatype Remap = Remap(mappings: seq<Mapping>, remapAt: seq<nat>, inner: seq<byte>)

  type Read = Result<seq<byte>, MemoryError>

  /** A flat byte sequence, such as a buffer or the end of a file. */
  function ReadFlat(bytes: seq<byte>, addr: nat, len: nat): Read {
    if addr + len <= |bytes| then Ok(bytes[addr..addr + len]) else Err(OutOfBounds)
  }

  /** The first mapping from index `i` on that covers the range. */
  function FirstCovering(mappings: seq<Mapping>, addr: nat, len: nat, i: nat): (r: Option<nat>)
    requires i <= |mappings|
    ensures r.Some? ==> i <= r.value < |mappings| && mappings[r.value].Covers(addr, len)
    ensures forall j :: i <= j < |mappings| && mappings[j].Covers(addr, len) ==> r.Some? && r.value <= j
    decreases |mappings| - i
  {
    if i == |mappings| then None
    else if mappings[i].Covers(addr, len) then Some(i)
    else FirstCovering(mappings, addr, len, i + 1)
  }

  ghost function ReadAt(r: Remap, addr: nat, len: nat): Read
    requires |r.mappings| == |r.remapAt|
  {
    match FirstCovering(r.mappings, addr, len, 0)
    case None => Err(OutOfBounds)
    case Some(i) => ReadFlat(r.inner, r.remapAt[i] + (addr - r.mappings[i].start), len)
  }

  method ReadPhysicalRemapped(r: Remap, addr: nat, len: nat) returns (bytes: Read)
    requires |r.mappings| == |r.remapAt|
    ensures bytes == ReadAt(r, addr, len)
  {
    var i := 0;
    while true
      invariant i <= |r.mappings|
      invariant FirstCovering(r.mappings, addr, len, 0) == FirstCovering(r.mappings, addr, len, i)
      decreases |r.mappings| - i
    {
      if i >= |r.mappings| {
        return Err(OutOfBounds);
      }
      var mapping := r.mappings[i];
      if mapping.start <= addr && addr + len <= mapping.end {
        break;
      }
      i := i + 1;
    }
    bytes := ReadFlat(r.inner, r.remapAt[i] + (addr - r.mappings[i].start), len);
  }

  // ---- Packing

  /** `end - start` as a signed 64-bit difference. */
  function Size(m: Mapping): (r: int)
    ensures -0x8000_0000_0000_0000 <= r < 0x8000_0000_0000_0000
    ensures (r - (m.end - m.start)) % 0x1_0000_0000_0000_0000 == 0
  {
    var d := m.end - m.start;
    if d >= 0x8000_0000_0000_0000 then d - 0x1_0000_0000_0000_0000
    else if d < -0x8000_0000_0000_0000 then d + 0x1_0000_0000_0000_0000
    else d
  }

  function TotalSize(ms: seq<Mapping>): int {
    if ms == [] then 0 else TotalSize(ms[..|ms|-1]) + Size(ms[|ms|-1])
  }

  /** No prefix sum leaves the address space. */
  ghost predicate Fits(ms: seq<Mapping>) {
    forall i :: 0 <= i <= |ms| ==> 0 <= TotalSize(ms[..i]) < 0x1_0000_0000_0000_0000
  }

  /** The prefix sums of the sizes, or None if an addition overflows. */
  method PrefixSums(ms: seq<Mapping>) returns (r: Option<(seq<nat>, nat)>)
    ensures r.Some? <==> Fits(ms)
    ensures r.Some? ==> |r.value.0| == |ms| && r.value.1 == TotalSize(ms)
    ensures r.Some? ==> forall i :: 0 <= i < |ms| ==> r.value.0[i] == TotalSize(ms[..i])
  {
    var remapAddr: int := 0;
    var remapAt: seq<nat> := [];
    for i := 0 to |ms|
      invariant |remapAt| == i && remapAddr == TotalSize(ms[..i])
      invariant forall j :: 0 <= j <= i ==> 0 <= TotalSize(ms[..j]) < 0x1_0000_0000_0000_0000
      invariant forall j :: 0 <= j < i ==> remapAt[j] == TotalSize(ms[..j])
    {
      remapAt := remapAt + [remapAddr];
      assert ms[..i+1][..i] == ms[..i];
      remapAddr := remapAddr + Size(ms[i]);
      if !(0 <= remapAddr < 0x1_0000_0000_0000_0000) {
        assert !Fits(ms) by { assert TotalSize(ms[..i+1]) == remapAddr; }
        return None;
      }
    }
    assert ms[..|ms|] == ms;
    r := Some((remapAt, remapAddr));
  }

  function Concat(parts: seq<seq<byte>>): seq<byte> {
    if parts == [] then [] else Concat(parts[..|parts|-1]) + parts[|parts|-1]
  }

  /** Mappings as a backend gives them. */
  ghost predicate Ordered(ms: seq<Mapping>) {
    forall m :: m in ms ==> m.start <= m.end && m.end - m.start < 0x8000_0000_0000_0000
  }

  /** `r` keeps `parts`, one for each mapping, packed without gap or overlap. */
  ghost predicate Packs(r: Remap, parts: seq<seq<byte>>) {
    && |parts| == |r.mappings| == |r.remapAt|
    && r.inner == Concat(parts)
    && forall i :: 0 <= i < |parts| ==>
         |parts[i]| == r.mappings[i].end - r.mappings[i].start && r.remapAt[i] == |Concat(parts[..i])|
  }

  lemma {:induction false} ConcatPart(parts: seq<seq<byte>>, i: nat)
    requires i < |parts|
    ensures |Concat(parts[..i])| + |parts[i]| <= |Concat(parts)|
    ensures Concat(parts)[|Concat(parts[..i])|..|Concat(parts[..i])| + |parts[i]|] == parts[i]
  {
    if i < |parts| - 1 {
      var front := parts[..|parts|-1];
      assert front[..i] == parts[..i];
      ConcatPart(front, i);
    }
  }

  /** Reading a packed memory reads the part of a mapping that covers the range. */
  lemma PackedRead(r: Remap, parts: seq<seq<byte>>, addr: nat, len: nat)
    requires Packs(r, parts)
    ensures match FirstCovering(r.mappings, addr, len, 0)
            case None => ReadAt(r, addr, len) == Err(OutOfBounds)
            case Some(j) =>
              var from := addr - r.mappings[j].start;
              ReadAt(r, addr, len) == Ok(parts[j][from..from + len])
  {
    hide Concat;
    var j := FirstCovering(r.mappings, addr, len, 0);
    if j.Some? {
      ConcatPart(parts, j.value);
      var at, from := |Concat(parts[..j.value])|, addr - r.mappings[j.value].start;
      assert r.inner[at..at + |parts[j.value]|][from..from + len] == r.inner[at + from..at + from + len];
    }
  }

  lemma {:induction false} PackedSizes(ms: seq<Mapping>, parts: seq<seq<byte>>)
    requires |ms| == |parts| && Ordered(ms)
    requires forall i :: 0 <= i < |ms| ==> |parts[i]| == ms[i].end - ms[i].start
    ensures TotalSize(ms) == |Concat(parts)|
  {
    if ms != [] {
      var n := |ms| - 1;
      PackedSizes(ms[..n], parts[..n]);
      assert ms[n] in ms;
    }
  }

  /** Prefix sums of the sizes are where the parts are. */
  lemma PrefixSumsPack(ms: seq<Mapping>, remapAt: seq<nat>, parts: seq<seq<byte>>)
    requires |ms| == |parts| == |remapAt| && Ordered(ms)
    requires forall i :: 0 <= i < |ms| ==> |parts[i]| == ms[i].end - ms[i].start
    requires forall i :: 0 <= i < |ms| ==> remapAt[i] == TotalSize(ms[..i])
    ensures Packs(Remap(ms, remapAt, Concat(parts)), parts)
  {
    forall i | 0 <= i < |ms| ensures remapAt[i] == |Concat(parts[..i])| {
      PackedSizes(ms[..i], parts[..i]);
    }
  }
}
