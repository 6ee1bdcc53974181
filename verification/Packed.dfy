/** Packed records: the byte images that memcpy moves between a packed C struct and a buffer.
    A layout is the list of the field widths of the struct, in bytes; integers are little-endian. */
module Packed {

  type byte = b: int | 0 <= b < 256

  /** One more than the largest integer that fits in `width` bytes. */
  function Limit(width: nat): (limit: nat) {
    if width == 0 then 1 else 256 * Limit(width - 1)
  }

  function PutInt(v: nat, width: nat): (s: seq<byte>)
    ensures |s| == width
  {
    if width == 0 then [] else [v % 256] + PutInt(v / 256, width - 1)
  }

  function GetInt(s: seq<byte>): (v: nat) {
    if s == [] then 0 else s[0] + 256 * GetInt(s[1..])
  }

  lemma {:induction false} GetPut(v: nat, width: nat)
    requires v < Limit(width)
    ensures GetInt(PutInt(v, width)) == v
  {
    if width == 0 {
    } else {
      GetPut(v / 256, width - 1);
      assert PutInt(v, width)[1..] == PutInt(v / 256, width - 1);
    }
  }

  /** The size of a packed struct. */
  function Size(layout: seq<nat>): (size: nat) {
    if layout == [] then 0 else layout[0] + Size(layout[1..])
  }

  function Pack(layout: seq<nat>, values: seq<nat>): (s: seq<byte>)
    requires |layout| == |values|
    ensures |s| == Size(layout)
  {
    if layout == [] then [] else PutInt(values[0], layout[0]) + Pack(layout[1..], values[1..])
  }

  function Unpack(layout: seq<nat>, s: seq<byte>): (values: seq<nat>)
    requires Size(layout) <= |s|
    ensures |values| == |layout|
  {
    if layout == [] then []
    else [GetInt(s[..layout[0]])] + Unpack(layout[1..], s[layout[0]..])
  }

  predicate Fits(layout: seq<nat>, values: seq<nat>) {
    && |layout| == |values|
    && forall i :: 0 <= i < |values| ==> values[i] < Limit(layout[i])
  }

  /** Copying a struct out of a buffer gives back the fields that were copied in. */
  lemma {:induction false} UnpackPack(layout: seq<nat>, values: seq<nat>)
    requires Fits(layout, values)
    ensures Unpack(layout, Pack(layout, values)) == values
  {
    if layout == [] {
    } else {
      var first, rest := PutInt(values[0], layout[0]), Pack(layout[1..], values[1..]);
      assert (first + rest)[..layout[0]] == first && (first + rest)[layout[0]..] == rest;
      GetPut(values[0], layout[0]);
      forall i | 0 <= i < |values[1..]| ensures values[1..][i] < Limit(layout[1..][i]) {
        assert values[i + 1] < Limit(layout[i + 1]);
      }
      UnpackPack(layout[1..], values[1..]);
      assert values == [values[0]] + values[1..];
    }
  }

  /** Only the bytes of the struct itself are looked at. */
  lemma {:induction false} UnpackExtend(layout: seq<nat>, s: seq<byte>, t: seq<byte>)
    requires Size(layout) <= |s|
    ensures Unpack(layout, s + t) == Unpack(layout, s)
  {
    if layout == [] {
    } else {
      assert (s + t)[..layout[0]] == s[..layout[0]];
      assert (s + t)[layout[0]..] == s[layout[0]..] + t;
      UnpackExtend(layout[1..], s[layout[0]..], t);
    }
  }

  /** A buffer that starts with the image of a struct reads back as that struct. */
  lemma UnpackFront(layout: seq<nat>, values: seq<nat>, s: seq<byte>)
    requires Fits(layout, values) && Size(layout) <= |s| && s[..Size(layout)] == Pack(layout, values)
    ensures Unpack(layout, s) == values
  {
    assert s == Pack(layout, values) + s[Size(layout)..];
    UnpackExtend(layout, Pack(layout, values), s[Size(layout)..]);
    UnpackPack(layout, values);
  }

  /** `count` fields of the same width: an array member of a struct. */
  function Repeat(width: nat, count: nat): (layout: seq<nat>)
    ensures |layout| == count && forall i :: 0 <= i < count ==> layout[i] == width
  {
    if count == 0 then [] else [width] + Repeat(width, count - 1)
  }

  lemma {:induction false} SizeRepeat(width: nat, count: nat)
    ensures Size(Repeat(width, count)) == width * count
  {
    if count == 0 {
    } else {
      assert Repeat(width, count)[1..] == Repeat(width, count - 1);
      SizeRepeat(width, count - 1);
      assert width * count == width + width * (count - 1);
    }
  }

  lemma {:induction false} SizeConcat(a: seq<nat>, b: seq<nat>)
    ensures Size(a + b) == Size(a) + Size(b)
  {
    if a == [] {
      assert a + b == b;
    } else {
      assert (a + b)[1..] == a[1..] + b;
      SizeConcat(a[1..], b);
    }
  }

  /** The limits of the integer types of the protocol. */
  lemma Limits()
    ensures Limit(1) == 0x100
    ensures Limit(2) == 0x1_0000
    ensures Limit(4) == 0x1_0000_0000
    ensures Limit(8) == 0x1_0000_0000_0000_0000
  {
    assert Limit(2) == 256 * Limit(1);
    assert Limit(4) == 256 * Limit(3) && Limit(3) == 256 * Limit(2);
    assert Limit(6) == 256 * Limit(5) && Limit(5) == 256 * Limit(4);
    assert Limit(8) == 256 * Limit(7) && Limit(7) == 256 * Limit(6);
  }
}
