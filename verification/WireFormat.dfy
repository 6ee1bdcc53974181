/** Where each field of a message is in its bytes, and that integers are little-endian. */
module WireFormat {
  import opened Packed
  import opened Messages

  /** Byte `j` of an integer, the least significant one first. */
  lemma {:induction false} IntBytes(v: nat, width: nat, j: nat)
    requires j < width
    ensures 0 < Limit(j) && PutInt(v, width)[j] == v / Limit(j) % 256
  {
    LimitPositive(j);
    if j != 0 {
      IntBytes(v / 256, width - 1, j - 1);
      DivTwice(v, Limit(j - 1));
    }
  }

  lemma {:induction false} LimitPositive(width: nat)
    ensures 0 < Limit(width)
  {
    if width != 0 { LimitPositive(width - 1); }
  }

  lemma DivTwice(v: nat, d: nat)
    requires 0 < d
    ensures v / 256 / d == v / (256 * d)
  {
    var q, r := v / 256 / d, v / 256 % d;
    assert v / 256 == q * d + r;
    var low := v % 256;
    assert v == 256 * (v / 256) + low;
    assert v == q * (256 * d) + (256 * r + low) by {
      assert 256 * (q * d + r) == q * (256 * d) + 256 * r;
    }
    assert 256 * r + low < 256 * d;
    DivExact(v, 256 * d, q, 256 * r + low);
  }

  lemma DivExact(v: nat, d: nat, q: nat, r: nat)
    requires 0 < d && v == q * d + r && r < d
    ensures v / d == q
  {
    var k := v / d;
    assert v == k * d + v % d;
    assert (k - q) * d == r - v % d;
    assert 1 <= k - q ==> d <= (k - q) * d;
    assert 1 <= q - k ==> d <= (q - k) * d;
  }

  /** A field of a packed record is in its place, behind those before it. */
  lemma {:induction false} FieldAt(layout: seq<nat>, values: seq<nat>, i: nat)
    requires |layout| == |values| && i < |layout|
    ensures var at := Size(layout[..i]);
      at + layout[i] <= Size(layout) && Pack(layout, values)[at..at + layout[i]] == PutInt(values[i], layout[i])
  {
    if i == 0 {
      assert layout[..0] == [];
      assert Pack(layout, values)[..layout[0]] == PutInt(values[0], layout[0]);
    } else {
      FieldAt(layout[1..], values[1..], i - 1);
      assert layout[..i][1..] == layout[1..][..i - 1];
      var first, rest, at := PutInt(values[0], layout[0]), Pack(layout[1..], values[1..]), Size(layout[1..][..i - 1]);
      assert (first + rest)[layout[0] + at..layout[0] + at + layout[i]] == rest[at..at + layout[i]];
    }
  }

  /** And it is read from there, whatever the bytes are. */
  lemma {:induction false} FieldRead(layout: seq<nat>, s: seq<byte>, i: nat)
    requires Size(layout) <= |s| && i < |layout|
    ensures var at := Size(layout[..i]);
      at + layout[i] <= |s| && Unpack(layout, s)[i] == GetInt(s[at..at + layout[i]])
  {
    hide GetInt;
    if i == 0 {
      assert layout[..0] == [];
    } else {
      hide Unpack;
      FieldRead(layout[1..], s[layout[0]..], i - 1);
      UnpackNext(layout, s, i);
      assert layout[..i][1..] == layout[1..][..i - 1];
      PartBehind(s, layout[0], Size(layout[1..][..i - 1]), layout[i]);
    }
  }

  lemma UnpackNext(layout: seq<nat>, s: seq<byte>, i: nat)
    requires Size(layout) <= |s| && 0 < i < |layout|
    ensures layout[0] <= |s| && Unpack(layout, s)[i] == Unpack(layout[1..], s[layout[0]..])[i - 1]
  {
    hide GetInt;
  }

  lemma PartBehind(s: seq<byte>, front: nat, at: nat, width: nat)
    requires front + at + width <= |s|
    ensures s[front..][at..at + width] == s[front + at..front + at + width]
  {
  }

  /** The bytes of a message from `at` on are those of an integer. */
  predicate IntAt(s: seq<byte>, at: nat, v: nat, width: nat) {
    at + width <= |s| && s[at..at + width] == PutInt(v, width)
  }

  /** The bytes from `at` on are those of a name, and zeros behind it up to the size of its array. */
  predicate NameAt(s: seq<byte>, at: nat, name: seq<nat>, size: nat) {
    && at + size <= |s| && |name| < size
    && forall i: nat :: i < size ==> CharAt(s, at, name, i)
  }

  predicate CharAt(s: seq<byte>, at: nat, name: seq<nat>, i: nat) {
    IntAt(s, at + i, if i < |name| then name[i] else 0, 1)
  }

  lemma Parts(m: Message)
    requires WellFormed(m)
    ensures Encode(m)[..2] == PutInt(MSG_VERSION, 2)
    ensures Encode(m)[2..31] == Pack(HeaderLayout(), HeaderValues(m.header))
    ensures Encode(m)[31..] == Pack(DataLayout(KindOf(m.header.msgCode)), DataValues(m))
  {
    hide Pack, PutInt;
    LayoutSizes(KindOf(m.header.msgCode));
  }

  /** Every message begins with version 1 and then the time, the thread, the number and the code. */
  lemma HeaderFields(m: Message)
    requires WellFormed(m)
    ensures var s, h := Encode(m), m.header;
      && s[..2] == [1, 0] && IntAt(s, 2, h.timeSec, 8) && IntAt(s, 10, h.timeUsec, 8) && IntAt(s, 18, h.threadId, 8)
      && IntAt(s, 26, h.msgNum, 4) && IntAt(s, 30, h.msgCode, 1)
  {
    hide Pack, Encode;
    Parts(m);
    VersionBytes();
    var layout, values := HeaderLayout(), HeaderValues(m.header);
    HeaderOffsets();
    forall i: nat | i < 5 ensures IntAt(Encode(m), 2 + Size(layout[..i]), values[i], layout[i]) {
      FieldAt(layout, values, i);
      PartOf(Encode(m), 2, 31, Size(layout[..i]), layout[i], PutInt(values[i], layout[i]));
    }
    assert IntAt(Encode(m), 2 + Size(layout[..0]), values[0], layout[0]);
    assert IntAt(Encode(m), 2 + Size(layout[..1]), values[1], layout[1]);
    assert IntAt(Encode(m), 2 + Size(layout[..2]), values[2], layout[2]);
    assert IntAt(Encode(m), 2 + Size(layout[..3]), values[3], layout[3]);
    assert IntAt(Encode(m), 2 + Size(layout[..4]), values[4], layout[4]);
  }

  lemma VersionBytes()
    ensures PutInt(MSG_VERSION, 2) == [1, 0]
  {
    assert PutInt(1, 2) == [1] + PutInt(0, 1) && PutInt(0, 1) == [0] + PutInt(0, 0);
  }

  lemma PartOf(s: seq<byte>, from: nat, to: nat, at: nat, width: nat, image: seq<byte>)
    requires from <= to <= |s| && at + width <= to - from && s[from..to][at..at + width] == image
    ensures from + at + width <= |s| && s[from + at..from + at + width] == image
  {
    forall j | 0 <= j < width ensures s[from + at..from + at + width][j] == image[j] {
      assert image[j] == s[from..to][at..at + width][j] == s[from..to][at + j] == s[from + at + j];
    }
  }

  lemma HeaderOffsets()
    ensures var layout := HeaderLayout();
      && Size(layout[..0]) == 0 && Size(layout[..1]) == 8 && Size(layout[..2]) == 16 && Size(layout[..3]) == 24
      && Size(layout[..4]) == 28 && Size(layout) == 29
  {
    var layout := HeaderLayout();
    NextOffset(layout, 0);
    NextOffset(layout, 1);
    NextOffset(layout, 2);
    NextOffset(layout, 3);
    NextOffset(layout, 4);
    assert layout[..5] == layout && layout[..0] == [];
  }

  lemma NextOffset(layout: seq<nat>, i: nat)
    requires i < |layout|
    ensures Size(layout[..i + 1]) == Size(layout[..i]) + layout[i]
  {
    assert layout[..i + 1] == layout[..i] + [layout[i]];
    SizeConcat(layout[..i], [layout[i]]);
    assert [layout[i]][1..] == [];
  }

  /** A field of the data of a message, behind the 31 bytes of version and header. */
  lemma DataField(m: Message, i: nat)
    requires WellFormed(m) && i < |DataValues(m)|
    ensures var layout := DataLayout(KindOf(m.header.msgCode));
      |layout| == |DataValues(m)| && IntAt(Encode(m), 31 + Size(layout[..i]), DataValues(m)[i], layout[i])
  {
    hide Pack, Encode;
    Parts(m);
    var layout := DataLayout(KindOf(m.header.msgCode));
    FieldAt(layout, DataValues(m), i);
    assert Encode(m)[31..] == Encode(m)[31..|Encode(m)|];
    PartOf(Encode(m), 31, |Encode(m)|, Size(layout[..i]), layout[i], PutInt(DataValues(m)[i], layout[i]));
  }

  /** A memory message goes on with the size, the address, the count and the address given back. */
  lemma MemoryFields(m: Message)
    requires WellFormed(m) && m.MemoryMessage?
    ensures var s := Encode(m);
      && |s| == 59 && IntAt(s, 31, m.allocSize, 8) && IntAt(s, 39, m.allocPtr, 8) && IntAt(s, 47, m.allocNum, 4)
      && IntAt(s, 51, m.freePtr, 8)
  {
    hide Encode, PutInt;
    var layout := DataLayout(Memory);
    NextOffset(layout, 0);
    NextOffset(layout, 1);
    NextOffset(layout, 2);
    assert layout[..0] == [];
    DataField(m, 0);
    DataField(m, 1);
    DataField(m, 2);
    DataField(m, 3);
  }

  lemma {:induction false} ArrayOffset(front: seq<nat>, width: nat, count: nat, back: seq<nat>, i: nat)
    requires i <= count
    ensures Size((front + Repeat(width, count) + back)[..|front| + i]) == Size(front) + width * i
  {
    var layout := front + Repeat(width, count) + back;
    if i == 0 {
      assert layout[..|front|] == front;
    } else {
      ArrayOffset(front, width, count, back, i - 1);
      NextOffset(layout, |front| + i - 1);
      assert layout[|front| + i - 1] == Repeat(width, count)[i - 1] == width;
    }
  }

  /** A thread message with the thread and its name. */
  lemma ThreadFields(m: Message)
    requires WellFormed(m) && m.ThreadMessage?
    ensures var s := Encode(m); |s| == 63 && IntAt(s, 31, m.threadId, 8) && NameAt(s, 39, m.threadName, 24)
  {
    hide Encode, PutInt, Repeat;
    var layout := DataLayout(Thread);
    assert layout == [8] + Repeat(1, 24) + [];
    ArrayOffset([8], 1, 24, [], 0);
    assert layout[..0] == [];
    DataField(m, 0);
    OneSize(8);
    forall i: nat | i < 24 ensures CharAt(Encode(m), 39, m.threadName, i) {
      ArrayOffset([8], 1, 24, [], i);
      DataField(m, 1 + i);
      assert layout[1 + i] == Repeat(1, 24)[i];
      assert DataValues(m)[1 + i] == Padded(m.threadName, 24)[i];
      PaddedAt(m.threadName, 24, i);
    }
  }

  lemma OneSize(width: nat)
    ensures Size([width]) == width && Size([]) == 0
  {
    assert [width][1..] == [];
  }

  /** A backtrace with the number of its operation, its length and its addresses. */
  lemma BacktraceFields(m: Message)
    requires WellFormed(m) && m.BacktraceMessage?
    ensures var s := Encode(m);
      && |s| == 436 && IntAt(s, 31, m.originMsgNum, 4) && IntAt(s, 35, |m.addrs|, 1)
      && forall i :: 0 <= i < |m.addrs| ==> IntAt(s, 36 + 8 * i, m.addrs[i], 8)
  {
    hide Encode, PutInt, Repeat;
    var layout := DataLayout(Backtrace);
    assert layout == [4, 1] + Repeat(8, 50) + [];
    assert layout[..0] == [];
    NextOffset(layout, 0);
    NextOffset(layout, 1);
    DataField(m, 0);
    DataField(m, 1);
    assert layout[..2] == [4, 1];
    forall i | 0 <= i < |m.addrs| ensures IntAt(Encode(m), 36 + 8 * i, m.addrs[i], 8) {
      ArrayOffset([4, 1], 8, 50, [], i);
      DataField(m, 2 + i);
      assert layout[2 + i] == Repeat(8, 50)[i];
      assert DataValues(m)[2 + i] == Padded(m.addrs, 50)[i] == Padded(m.addrs, 50)[..|m.addrs|][i];
    }
  }

  /** A symbol with its address, the object's name and address, and the symbol's. */
  lemma SymbolFields(m: Message)
    requires WellFormed(m) && m.SymbolMessage?
    ensures var s, infos := Encode(m), m.infos;
      && |s| == 407 && IntAt(s, 31, infos.addr, 8) && NameAt(s, 39, infos.objectName, 256)
      && IntAt(s, 295, infos.objectAddr, 8) && NameAt(s, 303, infos.symbolName, 96) &&
        IntAt(s, 399, infos.symbolAddr, 8)
  {
    hide Encode, PutInt, Repeat, Padded;
    var layout := DataLayout(Symbol);
    var middle := [8] + Repeat(1, 256) + [8];
    var back := [8] + Repeat(1, 96) + [8];
    OneSize(8);
    assert layout == [8] + Repeat(1, 256) + back && layout == middle + Repeat(1, 96) + [8];
    assert layout[..0] == [];
    DataField(m, 0);
    ObjectName(m, back);
    ArrayOffset([8], 1, 256, back, 256);
    DataField(m, 257);
    assert layout[257] == 8 && DataValues(m)[257] == m.infos.objectAddr;
    MiddleSize(middle);
    SymbolName(m, middle);
    ArrayOffset(middle, 1, 96, [8], 96);
    DataField(m, 354);
    assert layout[354] == 8 && DataValues(m)[354] == m.infos.symbolAddr;
  }

  lemma PaddedAt(values: seq<nat>, count: nat, i: nat)
    requires |values| <= count && i < count
    ensures Padded(values, count)[i] == if i < |values| then values[i] else 0
  {
  }

  lemma MiddleSize(middle: seq<nat>)
    requires middle == [8] + Repeat(1, 256) + [8]
    ensures Size(middle) == 272
  {
    SizeRepeat(1, 256);
    SizeConcat([8] + Repeat(1, 256), [8]);
    SizeConcat([8], Repeat(1, 256));
    OneSize(8);
  }

  lemma ObjectName(m: Message, back: seq<nat>)
    requires WellFormed(m) && m.SymbolMessage? && DataLayout(Symbol) == [8] + Repeat(1, 256) + back
    ensures NameAt(Encode(m), 39, m.infos.objectName, 256)
  {
    hide Encode, PutInt, Repeat;
    OneSize(8);
    forall i: nat | i < 256 ensures CharAt(Encode(m), 39, m.infos.objectName, i) {
      ArrayOffset([8], 1, 256, back, i);
      DataField(m, 1 + i);
      assert DataLayout(Symbol)[1 + i] == Repeat(1, 256)[i];
      assert DataValues(m)[1 + i] == Padded(m.infos.objectName, 256)[i];
      PaddedAt(m.infos.objectName, 256, i);
    }
  }

  lemma SymbolName(m: Message, middle: seq<nat>)
    requires WellFormed(m) && m.SymbolMessage? && |middle| == 258 && Size(middle) == 272
    requires DataLayout(Symbol) == middle + Repeat(1, 96) + [8]
    ensures NameAt(Encode(m), 303, m.infos.symbolName, 96)
  {
    hide Encode, PutInt, Repeat, Padded;
    forall i: nat | i < 96 ensures CharAt(Encode(m), 303, m.infos.symbolName, i) {
      ArrayOffset(middle, 1, 96, [8], i);
      DataField(m, 258 + i);
      assert DataLayout(Symbol)[258 + i] == Repeat(1, 96)[i];
      assert DataValues(m)[258 + i] == Padded(m.infos.symbolName, 96)[i];
      PaddedAt(m.infos.symbolName, 96, i);
    }
  }
}
