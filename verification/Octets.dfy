/** Octet strings, their big-endian numbers, and where a piece stands in one. */
module Octets {
  import opened Basics

  type Bytes = seq<byte>

  const U32_MAX := 0xffff_ffff

  function U16(m: seq<byte>, p: nat): (v: int)
    requires p + 2 <= |m|
    ensures 0 <= v < 0x1_0000
  {
    m[p] as int * 256 + m[p + 1] as int
  }

  function U32(m: seq<byte>, p: nat): (v: int)
    requires p + 4 <= |m|
    ensures 0 <= v <= U32_MAX
  {
    U16(m, p) * 0x1_0000 + U16(m, p + 2)
  }

  function U16Bytes(v: int): (b: seq<byte>)
    requires 0 <= v < 0x1_0000
    ensures |b| == 2 && U16(b, 0) == v
  {
    [(v / 256) as byte, (v % 256) as byte]
  }

  function U32Bytes(v: int): (b: seq<byte>)
    requires 0 <= v <= U32_MAX
    ensures |b| == 4 && U32(b, 0) == v
  {
    var hi, lo := U16Bytes(v / 0x1_0000), U16Bytes(v % 0x1_0000);
    assert (hi + lo)[0..2] == hi && (hi + lo)[2..4] == lo;
    hi + lo
  }

  /** `data` holds `piece` at position `pos`. */
  ghost predicate Holds(data: seq<byte>, pos: nat, piece: seq<byte>) {
    pos + |piece| <= |data| && data[pos..pos + |piece|] == piece
  }

  lemma HoldsSplit(data: seq<byte>, pos: nat, a: seq<byte>, b: seq<byte>)
    requires Holds(data, pos, a + b)
    ensures Holds(data, pos, a) && Holds(data, pos + |a|, b)
  {
    assert data[pos..pos + |a|] == (a + b)[..|a|];
    assert data[pos + |a|..pos + |a| + |b|] == (a + b)[|a|..];
  }

  lemma HoldsFirst(data: seq<byte>, pos: nat, a: byte, b: seq<byte>)
    requires Holds(data, pos, [a] + b)
    ensures data[pos] == a && Holds(data, pos + 1, b)
  {
    HoldsSplit(data, pos, [a], b);
    assert data[pos..pos + 1][0] == data[pos];
  }

  lemma U16Held(data: seq<byte>, pos: nat, b: seq<byte>)
    requires |b| == 2 && Holds(data, pos, b)
    ensures U16(data, pos) == U16(b, 0)
  {
    assert data[pos] == data[pos..pos + 2][0] && data[pos + 1] == data[pos..pos + 2][1];
  }

  lemma U32Held(data: seq<byte>, pos: nat, b: seq<byte>)
    requires |b| == 4 && Holds(data, pos, b)
    ensures U32(data, pos) == U32(b, 0)
  {
    forall i | 0 <= i < 4 ensures data[pos + i] == b[i] {
      assert data[pos..pos + 4][i] == data[pos + i];
    }
  }

  lemma HoldsJoin(data: seq<byte>, pos: nat, a: seq<byte>, b: seq<byte>)
    requires Holds(data, pos, a) && Holds(data, pos + |a|, b)
    ensures Holds(data, pos, a + b)
  {
    assert data[pos..pos + |a + b|] == data[pos..pos + |a|] + data[pos + |a|..pos + |a| + |b|];
  }

  lemma U16Read(data: seq<byte>, pos: nat)
    requires pos + 2 <= |data|
    ensures Holds(data, pos, U16Bytes(U16(data, pos)))
  {
    assert data[pos..pos + 2] == [data[pos], data[pos + 1]];
  }

  lemma U32Read(data: seq<byte>, pos: nat)
    requires pos + 4 <= |data|
    ensures Holds(data, pos, U32Bytes(U32(data, pos)))
  {
    hide U16Bytes, U16;
    U16Read(data, pos);
    U16Read(data, pos + 2);
    HoldsJoin(data, pos, U16Bytes(U16(data, pos)), U16Bytes(U16(data, pos + 2)));
  }
}
