/** How the receiver finds the messages in a run of bytes, on values; the class in Receiver.dfy computes these
    functions. */
module Framing {
  import opened Packed
  import opened Messages
  import opened Sequences

  /** The outcome of looking for one message at the start of a buffer: a number of bytes used (with the
      handler calls made on the way), 0 for "not all there yet", or -1 for an unknown version. */
  datatype Parsed = Unsupported | Incomplete | Complete(size: nat, calls: seq<HandlerCall>)

  /** How many bytes must follow the header before the data of a message is read. A backtrace is held
      back until a whole backtrace message more would fit, header and version included. */
  function Required(kind: Kind): (size: nat) {
    if kind == Backtrace then BACKTRACE_MSG_SIZE else DataSize(kind)
  }

  function ParseV1(s: seq<byte>): (parsed: Parsed) {
    if |s| < HEADER_SIZE then Incomplete
    else
      LayoutSizes(App);
      var header := HeaderFrom(Unpack(HeaderLayout(), s));
      var kind := KindOf(header.msgCode);
      if |s| - HEADER_SIZE < Required(kind) then Incomplete
      else
        LayoutSizes(kind);
        Complete(HEADER_SIZE + DataSize(kind), DecodeCalls(header, Unpack(DataLayout(kind), s[HEADER_SIZE..])))
  }

  function Parse(s: seq<byte>): (parsed: Parsed)
    ensures parsed.Complete? ==> 31 <= parsed.size <= |s|
  {
    if |s| < VERSION_SIZE then Incomplete
    else if GetInt(s[..VERSION_SIZE]) != MSG_VERSION then Unsupported
    else
      match ParseV1(s[VERSION_SIZE..])
      case Complete(size, calls) => Complete(VERSION_SIZE + size, calls)
      case other => other
  }

  // ---- Laws of a single message ----

  /** A buffer of 467 bytes never looks incomplete, whatever the bytes are. */
  lemma ParseProgress(s: seq<byte>)
    requires 467 <= |s|
    ensures !Parse(s).Incomplete?
  {
    if GetInt(s[..VERSION_SIZE]) == MSG_VERSION {
      LayoutSizes(App);
      var header := HeaderFrom(Unpack(HeaderLayout(), s[VERSION_SIZE..]));
      assert Required(KindOf(header.msgCode)) <= 436;
    }
  }

  /** A message once recognised is recognised the same way when more bytes have arrived. */
  lemma ParseStable(s: seq<byte>, t: seq<byte>)
    requires !Parse(s).Incomplete?
    ensures Parse(s + t) == Parse(s)
  {
    assert (s + t)[..VERSION_SIZE] == s[..VERSION_SIZE];
    if GetInt(s[..VERSION_SIZE]) == MSG_VERSION {
      var v := s[VERSION_SIZE..];
      assert (s + t)[VERSION_SIZE..] == v + t;
      ParseV1Stable(v, t);
    }
  }

  lemma ParseV1Stable(v: seq<byte>, t: seq<byte>)
    requires ParseV1(v).Complete?
    ensures ParseV1(v + t) == ParseV1(v)
  {
    LayoutSizes(App);
    UnpackExtend(HeaderLayout(), v, t);
    var kind := KindOf(HeaderFrom(Unpack(HeaderLayout(), v)).msgCode);
    LayoutSizes(kind);
    assert (v + t)[HEADER_SIZE..] == v[HEADER_SIZE..] + t;
    UnpackExtend(DataLayout(kind), v[HEADER_SIZE..], t);
  }

  /** How many bytes must have arrived, from the start of a message, for it to be handed over. */
  function Needed(m: Message): (size: nat)
    ensures Length(m) <= size <= 467
  {
    VERSION_SIZE + HEADER_SIZE + Required(KindOf(m.header.msgCode))
  }

  /** Cutting a well-formed stream anywhere: its first message is recognised exactly when the bytes it
      needs are there, and its handler calls are then the ones it was encoded from. */
  lemma ParseCut(m: Message, t: seq<byte>, p: nat)
    requires WellFormed(m) && p <= |Encode(m) + t|
    ensures Parse((Encode(m) + t)[..p]) == if Needed(m) <= p then Complete(Length(m), CallsOf(m)) else Incomplete
  {
    hide Pack, PutInt, ParseV1, DataValues, CallsOf, Parse, Encode, WellFormed;
    LayoutSizes(KindOf(m.header.msgCode));
    var version := PutInt(MSG_VERSION, VERSION_SIZE);
    var header := Pack(HeaderLayout(), HeaderValues(m.header));
    var data := Pack(DataLayout(KindOf(m.header.msgCode)), DataValues(m));
    EncodeParts(m, t, version, header, data);
    if VERSION_SIZE <= p {
      CutBehind(version, header + (data + t), p);
      ParseVersion((Encode(m) + t)[..p]);
      ParseV1Cut(m, t, p - VERSION_SIZE, header, data);
    } else {
      ParseTooShort((Encode(m) + t)[..p]);
    }
  }

  lemma EncodeParts(m: Message, t: seq<byte>, version: seq<byte>, header: seq<byte>, data: seq<byte>)
    requires WellFormed(m)
    requires version == PutInt(MSG_VERSION, VERSION_SIZE) && header == Pack(HeaderLayout(), HeaderValues(m.header))
    requires data == Pack(DataLayout(KindOf(m.header.msgCode)), DataValues(m))
    ensures Encode(m) + t == version + (header + (data + t))
  {
    hide Pack, PutInt, DataValues, DataLayout;
    assert Encode(m) == version + header + data;
    Regroup(version, header, data, t);
  }

  lemma ParseVersion(s: seq<byte>)
    requires VERSION_SIZE <= |s| && s[..VERSION_SIZE] == PutInt(MSG_VERSION, VERSION_SIZE)
    ensures Parse(s) == match ParseV1(s[VERSION_SIZE..])
                        case Complete(size, calls) => Complete(VERSION_SIZE + size, calls)
                        case other => other
  {
    hide ParseV1;
    Limits();
    GetPut(MSG_VERSION, VERSION_SIZE);
  }

  lemma ParseTooShort(s: seq<byte>)
    requires |s| < VERSION_SIZE
    ensures Parse(s).Incomplete?
  {
  }

  lemma ParseV1Cut(m: Message, t: seq<byte>, p: nat, header: seq<byte>, data: seq<byte>)
    requires WellFormed(m)
    requires header == Pack(HeaderLayout(), HeaderValues(m.header))
    requires data == Pack(DataLayout(KindOf(m.header.msgCode)), DataValues(m))
    requires p <= |header + (data + t)|
    ensures ParseV1((header + (data + t))[..p]) ==
            if HEADER_SIZE + Required(KindOf(m.header.msgCode)) <= p
            then Complete(HEADER_SIZE + DataSize(KindOf(m.header.msgCode)), CallsOf(m)) else Incomplete
  {
    var v := (header + (data + t))[..p];
    LayoutSizes(App);
    if HEADER_SIZE <= p {
      CutBehind(header, data + t, p);
      ParseHeader(m, v);
      ParseData(m, v[HEADER_SIZE..], data);
    }
  }

  lemma ParseHeader(m: Message, v: seq<byte>)
    requires WellFormed(m) && HEADER_SIZE <= |v| && |Pack(HeaderLayout(), HeaderValues(m.header))| == HEADER_SIZE
    requires v[..HEADER_SIZE] == Pack(HeaderLayout(), HeaderValues(m.header))
    ensures Size(HeaderLayout()) == HEADER_SIZE && HeaderFrom(Unpack(HeaderLayout(), v)) == m.header
  {
    LayoutSizes(App);
    HeaderFits(m);
    UnpackFront(HeaderLayout(), HeaderValues(m.header), v);
  }

  lemma ParseData(m: Message, d: seq<byte>, data: seq<byte>)
    requires WellFormed(m) && data == Pack(DataLayout(KindOf(m.header.msgCode)), DataValues(m))
    requires |data| <= |d| ==> d[..|data|] == data
    ensures Size(DataLayout(KindOf(m.header.msgCode))) == DataSize(KindOf(m.header.msgCode)) == |data|
    ensures |data| <= |d| ==> DecodeCalls(m.header, Unpack(DataLayout(KindOf(m.header.msgCode)), d)) == CallsOf(m)
  {
    LayoutSizes(KindOf(m.header.msgCode));
    if |data| <= |d| {
      DataFits(m);
      UnpackFront(DataLayout(KindOf(m.header.msgCode)), DataValues(m), d);
      DecodeValues(m);
    }
  }

  // ---- A whole buffer ----

  /** What one pass over a buffer does: the bytes used, whether it met an unknown version, and for each
      message, in order, its handler calls. */
  datatype Drained = Drained(used: nat, unsupported: bool, steps: seq<seq<HandlerCall>>)

  function Drain(s: seq<byte>): (d: Drained)
    ensures d.used <= |s|
    ensures d.steps != [] ==> 31 <= d.used
    ensures d.steps == [] ==> d.used == 0
    decreases |s|
  {
    match Parse(s)
    case Unsupported => Drained(0, true, [])
    case Incomplete => Drained(0, false, [])
    case Complete(size, calls) =>
      var rest := Drain(s[size..]);
      Drained(size + rest.used, rest.unsupported, [calls] + rest.steps)
  }

  /** What is carried over to the next read is always short of 467 bytes: no input can overrun the 8192-byte buffer. */
  lemma {:induction false} CarryBound(s: seq<byte>)
    requires !Drain(s).unsupported
    ensures |s| - Drain(s).used <= 466
    decreases |s|
  {
    match Parse(s)
    case Unsupported =>
    case Incomplete =>
      if 467 <= |s| { ParseProgress(s); }
    case Complete(size, calls) =>
      CarryBound(s[size..]);
  }

  // ---- A whole device ----

  /** What doReadMsg does with a device that delivers `chunks` read by read: the handler calls message by message, how
      many of the reads it made, and the bytes left in the buffer when it returns. */
  datatype Received = Received(steps: seq<seq<HandlerCall>>, made: nat, left: seq<byte>)

  function Receive(carry: seq<byte>, chunks: seq<seq<byte>>): (r: Received)
    ensures r.made <= |chunks|
    decreases |chunks|
  {
    if chunks == [] then Received([], 0, carry)
    else if chunks[0] == [] then Received([], 1, carry)
    else
      var buffer := carry + chunks[0];
      var d := Drain(buffer);
      if d.unsupported || d.used == 0 then Received(d.steps, 1, buffer)
      else
        var rest := Receive(buffer[d.used..], chunks[1..]);
        Received(d.steps + rest.steps, 1 + rest.made, rest.left)
  }

  /** The message counter of the receiver: the messages since the last new connection, that one included. */
  function CountAfter(count: nat, steps: seq<seq<HandlerCall>>): (n: nat)
    decreases |steps|
  {
    if steps == [] then count
    else CountAfter(if steps[0] == [OnNewConnection] then 1 else count + 1, steps[1..])
  }

  lemma {:induction false} CountAfterConcat(count: nat, a: seq<seq<HandlerCall>>, b: seq<seq<HandlerCall>>)
    ensures CountAfter(count, a + b) == CountAfter(CountAfter(count, a), b)
    decreases |a|
  {
    if a == [] {
      assert a + b == b;
    } else {
      assert (a + b)[1..] == a[1..] + b;
      CountAfterConcat(if a[0] == [OnNewConnection] then 1 else count + 1, a[1..], b);
    }
  }
}
