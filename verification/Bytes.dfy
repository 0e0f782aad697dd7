/** Bytes, little-endian numbers and the byte cursor the unwind data is read with. */
module Bytes {
  import opened Outcomes

  type byte = x: int | 0 <= x < 256
  type u16 = x: int | 0 <= x < 0x1_0000
  type u32 = x: int | 0 <= x < 0x1_0000_0000
  type u64 = x: int | 0 <= x < 0x1_0000_0000_0000_0000

  /** The number of values `width` bytes can hold. */
  function Capacity(width: nat): nat {
    if width == 0 then 1 else 256 * Capacity(width - 1)
  }

  function FromLe(s: seq<byte>): (n: nat)
    ensures n < Capacity(|s|)
  {
    if s == [] then 0 else s[0] + 256 * FromLe(s[1..])
  }

  function ToLe(n: nat, width: nat): (s: seq<byte>)
    ensures |s| == width
  {
    if width == 0 then [] else [n % 256] + ToLe(n / 256, width - 1)
  }

  lemma {:induction false} FromLeToLe(n: nat, width: nat)
    requires n < Capacity(width)
    ensures FromLe(ToLe(n, width)) == n
  {
    if width > 0 {
      FromLeToLe(n / 256, width - 1);
      assert ToLe(n, width)[1..] == ToLe(n / 256, width - 1);
    }
  }

  lemma {:induction false} ToLeFromLe(s: seq<byte>)
    ensures ToLe(FromLe(s), |s|) == s
  {
    if s != [] {
      ToLeFromLe(s[1..]);
      var rest := FromLe(s[1..]);
      assert FromLe(s) == s[0] + 256 * rest;
      assert FromLe(s) % 256 == s[0] && FromLe(s) / 256 == rest;
    }
  }

  lemma Capacities()
    ensures Capacity(1) == 0x100 && Capacity(2) == 0x1_0000
    ensures Capacity(4) == 0x1_0000_0000
    ensures Capacity(8) == 0x1_0000_0000_0000_0000
  {
    assert Capacity(3) == 256 * Capacity(2);
    assert Capacity(4) == 256 * Capacity(3);
    assert Capacity(5) == 256 * Capacity(4);
    assert Capacity(6) == 256 * Capacity(5);
    assert Capacity(7) == 256 * Capacity(6);
    assert Capacity(8) == 256 * Capacity(7);
  }

  function U16At(s: seq<byte>): (n: u16)
    requires 2 <= |s|
  {
    Capacities(); FromLe(s[..2])
  }

  function U32At(s: seq<byte>): (n: u32)
    requires 4 <= |s|
  {
    Capacities(); FromLe(s[..4])
  }

  function U64At(s: seq<byte>): (n: u64)
    requires 8 <= |s|
  {
    Capacities(); FromLe(s[..8])
  }

  /** A slice that reads consume from the front. A read that does not fit leaves it alone. */
  class ByteCursor {
    var rest: seq<byte>

    constructor (bytes: seq<byte>)
      ensures rest == bytes
    {
      rest := bytes;
    }

    method ReadSlice(len: nat) returns (r: Option<seq<byte>>)
      modifies this
      ensures r.Some? <==> len <= |old(rest)|
      ensures r.Some? ==> r.value == old(rest)[..len] && rest == old(rest)[len..]
      ensures r.None? ==> rest == old(rest)
    {
      if len <= |rest| {
        r := Some(rest[..len]);
        rest := rest[len..];
      } else {
        r := None;
      }
    }

    method ReadU8() returns (r: Option<byte>)
      modifies this
      ensures r.Some? <==> old(rest) != []
      ensures r.Some? ==> r.value == old(rest)[0] && rest == old(rest)[1..]
      ensures r.None? ==> rest == old(rest)
    {
      if rest == [] {
        return None;
      }
      r := Some(rest[0]);
      rest := rest[1..];
    }

    method ReadU16() returns (r: Option<u16>)
      modifies this
      ensures r.Some? <==> 2 <= |old(rest)|
      ensures r.Some? ==> r.value == U16At(old(rest)) && rest == old(rest)[2..]
      ensures r.None? ==> rest == old(rest)
    {
      if 2 <= |rest| {
        r := Some(U16At(rest));
        rest := rest[2..];
      } else {
        r := None;
      }
    }

    method ReadU32() returns (r: Option<u32>)
      modifies this
      ensures r.Some? <==> 4 <= |old(rest)|
      ensures r.Some? ==> r.value == U32At(old(rest)) && rest == old(rest)[4..]
      ensures r.None? ==> rest == old(rest)
    {
      if 4 <= |rest| {
        r := Some(U32At(rest));
        rest := rest[4..];
      } else {
        r := None;
      }
    }
  }
}
