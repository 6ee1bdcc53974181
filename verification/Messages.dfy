/** The messages of protocol version 1, their packed layouts and the handler calls they stand for. */
module Messages {
  import opened Packed
  import opened Sequences

  const MSG_VERSION := 1

  const CODE_INIT := 1
  const CODE_MALLOC := 11
  const CODE_FREE := 12
  const CODE_CALLOC := 13
  const CODE_REALLOC := 14
  const CODE_POSIX_MEMALIGN := 15
  const CODE_ALIGNED_ALLOC := 16
  const CODE_MEMALIGN := 17
  const CODE_VALLOC := 18
  const CODE_PVALLOC := 19
  const CODE_PTHREAD_CREATE := 31
  const CODE_PTHREAD_SET_NAME := 32
  const CODE_BACKTRACE := 41
  const CODE_SYMBOL_INFOS := 51

  const BACKTRACE_MAX_SIZE := 50
  const THREAD_NAME_SIZE := 24
  const OBJECT_NAME_SIZE := 256
  const SYMBOL_NAME_SIZE := 96

  const HEADER_SIZE := 29
  const VERSION_SIZE := 2
  const BACKTRACE_MSG_SIZE := 436
  const MAX_MSG_SIZE := 436

  datatype Header = Header(timeSec: nat, timeUsec: nat, threadId: nat, msgNum: nat, msgCode: nat)

  datatype SymbolInfos = SymbolInfos(addr: nat, objectName: seq<nat>, objectAddr: nat, symbolName: seq<nat>,
    symbolAddr: nat)

  datatype Message =
    | AppMessage(header: Header)
    | MemoryMessage(header: Header, allocSize: nat, allocPtr: nat, allocNum: nat, freePtr: nat)
    | ThreadMessage(header: Header, threadId: nat, threadName: seq<nat>)
    | BacktraceMessage(header: Header, originMsgNum: nat, addrs: seq<nat>)
    | SymbolMessage(header: Header, infos: SymbolInfos)

  /** The ranges of message codes the receiver tells apart; a code outside them has a header and no data. */
  datatype Kind = App | Memory | Thread | Backtrace | Symbol

  function KindOf(code: nat): (kind: Kind) {
    if 10 <= code < 20 then Memory
    else if 30 <= code < 40 then Thread
    else if 40 <= code < 50 then Backtrace
    else if 50 <= code < 60 then Symbol
    else App
  }

  /** What the receiver calls on its handler. */
  datatype HandlerCall =
    | OnNewConnection
    | OnMemoryOperation(header: Header, allocSize: nat, allocPtr: nat, allocNum: nat, freePtr: nat)
    | OnThreadOperation(header: Header, threadId: nat, threadName: seq<nat>)
    | OnBacktrace(originMsgNum: nat, addrs: seq<nat>)
    | OnSymbolInfos(infos: SymbolInfos)

  /** The handler calls a message asks for: at most one. */
  function CallsOf(m: Message): (calls: seq<HandlerCall>) {
    match m
    case AppMessage(h) => if h.msgCode == CODE_INIT then [OnNewConnection] else []
    case MemoryMessage(h, size, ptr, num, freePtr) => [OnMemoryOperation(h, size, ptr, num, freePtr)]
    case ThreadMessage(h, id, name) => [OnThreadOperation(h, id, name)]
    case BacktraceMessage(_, origin, addrs) => [OnBacktrace(origin, addrs)]
    case SymbolMessage(_, infos) => [OnSymbolInfos(infos)]
  }

  // ---- Layouts ----

  function HeaderLayout(): (layout: seq<nat>) { [8, 8, 8, 4, 1] }

  function DataLayout(kind: Kind): (layout: seq<nat>) {
    match kind
    case App => []
    case Memory => [8, 8, 4, 8]
    case Thread => [8] + Repeat(1, THREAD_NAME_SIZE)
    case Backtrace => [4, 1] + Repeat(8, BACKTRACE_MAX_SIZE)
    case Symbol => [8] + Repeat(1, OBJECT_NAME_SIZE) + [8] + Repeat(1, SYMBOL_NAME_SIZE) + [8]
  }

  function DataSize(kind: Kind): (size: nat) {
    match kind
    case App => 0
    case Memory => 28
    case Thread => 32
    case Backtrace => 405
    case Symbol => 376
  }

  /** The layouts fix the length of every message: 31, 59, 63, 436 and 407 bytes. */
  lemma LayoutSizes(kind: Kind)
    ensures Size(HeaderLayout()) == HEADER_SIZE
    ensures Size(DataLayout(kind)) == DataSize(kind)
  {
    HeaderLayoutSize();
    DataLayoutSize(kind);
  }

  lemma HeaderLayoutSize()
    ensures Size(HeaderLayout()) == HEADER_SIZE
  {
    assert HeaderLayout() == [8] + ([8] + ([8] + ([4] + [1])));
    SizeConcat([8], [8] + ([8] + ([4] + [1])));
    SizeConcat([8], [8] + ([4] + [1]));
    SizeConcat([8], [4] + [1]);
    SizeConcat([4], [1]);
  }

  lemma DataLayoutSize(kind: Kind)
    ensures Size(DataLayout(kind)) == DataSize(kind)
  {
    match kind
    case App =>
    case Memory =>
      assert DataLayout(Memory) == [8] + ([8] + ([4] + [8]));
      SizeConcat([8], [8] + ([4] + [8]));
      SizeConcat([8], [4] + [8]);
      SizeConcat([4], [8]);
    case Thread =>
      SizeRepeat(1, THREAD_NAME_SIZE);
      SizeConcat([8], Repeat(1, THREAD_NAME_SIZE));
    case Backtrace =>
      SizeRepeat(8, BACKTRACE_MAX_SIZE);
      SizeConcat([4], [1]);
      assert [4, 1] == [4] + [1];
      SizeConcat([4, 1], Repeat(8, BACKTRACE_MAX_SIZE));
    case Symbol =>
      SizeRepeat(1, OBJECT_NAME_SIZE);
      SizeRepeat(1, SYMBOL_NAME_SIZE);
      SizeConcat([8] + Repeat(1, OBJECT_NAME_SIZE) + [8] + Repeat(1, SYMBOL_NAME_SIZE), [8]);
      SizeConcat([8] + Repeat(1, OBJECT_NAME_SIZE) + [8], Repeat(1, SYMBOL_NAME_SIZE));
      SizeConcat([8] + Repeat(1, OBJECT_NAME_SIZE), [8]);
      SizeConcat([8], Repeat(1, OBJECT_NAME_SIZE));
  }

  // ---- Fields ----

  function HeaderValues(h: Header): (values: seq<nat>) {
    [h.timeSec, h.timeUsec, h.threadId, h.msgNum, h.msgCode]
  }

  function HeaderFrom(values: seq<nat>): (h: Header)
    requires |values| == 5
  {
    Header(values[0], values[1], values[2], values[3], values[4])
  }

  /** An array member of `count` fields, filled from the left and zero after that. */
  function Padded(values: seq<nat>, count: nat): (padded: seq<nat>)
    requires |values| <= count
    ensures |padded| == count
    ensures padded[..|values|] == values && forall i :: |values| <= i < count ==> padded[i] == 0
  {
    values + seq(count - |values|, _ => 0)
  }

  /** A char array read as a C string: everything before the first zero. */
  function CString(chars: seq<nat>): (text: seq<nat>) {
    if chars == [] || chars[0] == 0 then [] else [chars[0]] + CString(chars[1..])
  }

  lemma {:induction false} CStringPadded(text: seq<nat>, chars: seq<nat>)
    requires |text| < |chars| && chars[..|text|] == text && chars[|text|] == 0
    requires forall i :: 0 <= i < |text| ==> text[i] != 0
    ensures CString(chars) == text
  {
    if text == [] {
    } else {
      assert chars[0] == text[0];
      forall i | 0 <= i < |text[1..]| ensures text[1..][i] != 0 { assert text[i + 1] != 0; }
      assert chars[1..][..|text| - 1] == text[1..];
      CStringPadded(text[1..], chars[1..]);
    }
  }

  function DataValues(m: Message): (values: seq<nat>)
    requires WellFormed(m)
    ensures |values| == |DataLayout(KindOf(m.header.msgCode))|
  {
    match m
    case AppMessage(_) => []
    case MemoryMessage(_, size, ptr, num, freePtr) => [size, ptr, num, freePtr]
    case ThreadMessage(_, id, name) => [id] + Padded(name, THREAD_NAME_SIZE)
    case BacktraceMessage(_, origin, addrs) => [origin, |addrs|] + Padded(addrs, BACKTRACE_MAX_SIZE)
    case SymbolMessage(_, s) => SymbolValues(s)
  }

  function Min(a: nat, b: nat): (m: nat) { if a <= b then a else b }

  /** The handler calls the receiver makes for a header and the data fields that follow it. */
  function DecodeCalls(h: Header, values: seq<nat>): (calls: seq<HandlerCall>)
    requires |values| == |DataLayout(KindOf(h.msgCode))|
  {
    match KindOf(h.msgCode)
    case App => if h.msgCode == CODE_INIT then [OnNewConnection] else []
    case Memory => [OnMemoryOperation(h, values[0], values[1], values[2], values[3])]
    case Thread => [OnThreadOperation(h, values[0], CString(values[1..25]))]
    case Backtrace => [OnBacktrace(values[0], values[2..2 + Min(values[1], BACKTRACE_MAX_SIZE)])]
    case Symbol =>
      [OnSymbolInfos(SymbolInfos(values[0], CString(values[1..257]), values[257], CString(values[258..354]),
        values[354]))]
  }

  // ---- Well-formed messages ----

  predicate IsText(text: seq<nat>, size: nat) {
    && |text| < size
    && forall i :: 0 <= i < |text| ==> 0 < text[i] < 256
  }

  predicate Is64(v: nat) { v < 0x1_0000_0000_0000_0000 }

  predicate Is32(v: nat) { v < 0x1_0000_0000 }

  /** What the client guarantees of a message it builds: fields within their integer types, names
      shorter than their char arrays, at most BACKTRACE_MAX_SIZE addresses, a code of the right range. */
  predicate WellFormed(m: Message) {
    var h := m.header;
    && Is64(h.timeSec) && Is64(h.timeUsec) && Is64(h.threadId) && Is32(h.msgNum) && h.msgCode < 256
    && match m
       case AppMessage(_) => KindOf(h.msgCode) == App
       case MemoryMessage(_, size, ptr, num, freePtr) =>
         KindOf(h.msgCode) == Memory && Is64(size) && Is64(ptr) && Is32(num) && Is64(freePtr)
       case ThreadMessage(_, id, name) => KindOf(h.msgCode) == Thread && Is64(id) && IsText(name, THREAD_NAME_SIZE)
       case BacktraceMessage(_, origin, addrs) =>
         && KindOf(h.msgCode) == Backtrace && Is32(origin) && |addrs| <= BACKTRACE_MAX_SIZE
         && forall i :: 0 <= i < |addrs| ==> Is64(addrs[i])
       case SymbolMessage(_, s) =>
         && KindOf(h.msgCode) == Symbol && Is64(s.addr) && Is64(s.objectAddr) && Is64(s.symbolAddr)
         && IsText(s.objectName, OBJECT_NAME_SIZE) && IsText(s.symbolName, SYMBOL_NAME_SIZE)
  }

  lemma HeaderFits(m: Message)
    requires WellFormed(m)
    ensures Fits(HeaderLayout(), HeaderValues(m.header))
  {
    Limits();
  }

  lemma FitsConcat(a: seq<nat>, va: seq<nat>, b: seq<nat>, vb: seq<nat>)
    requires Fits(a, va) && Fits(b, vb)
    ensures Fits(a + b, va + vb)
  {
    hide Limit;
  }

  lemma FitsPadded(width: nat, values: seq<nat>, count: nat)
    requires 0 < width && |values| <= count && forall i :: 0 <= i < |values| ==> values[i] < Limit(width)
    ensures Fits(Repeat(width, count), Padded(values, count))
  {
    var padded := Padded(values, count);
    forall i | 0 <= i < count ensures padded[i] < Limit(width) {
      if i < |values| { assert padded[i] == padded[..|values|][i]; }
    }
  }

  lemma DataFits(m: Message)
    requires WellFormed(m)
    ensures Fits(DataLayout(KindOf(m.header.msgCode)), DataValues(m))
  {
    hide Limit, Repeat, Padded;
    Limits();
    match m
    case AppMessage(_) =>
    case MemoryMessage(_, _, _, _, _) =>
    case ThreadMessage(_, id, name) =>
      FitsPadded(1, name, THREAD_NAME_SIZE);
      FitsConcat([8], [id], Repeat(1, THREAD_NAME_SIZE), Padded(name, THREAD_NAME_SIZE));
    case BacktraceMessage(_, origin, addrs) =>
      FitsPadded(8, addrs, BACKTRACE_MAX_SIZE);
      FitsConcat([4, 1], [origin, |addrs|], Repeat(8, BACKTRACE_MAX_SIZE), Padded(addrs, BACKTRACE_MAX_SIZE));
    case SymbolMessage(_, s) =>
      var o, n := Padded(s.objectName, OBJECT_NAME_SIZE), Padded(s.symbolName, SYMBOL_NAME_SIZE);
      var lo, ln := Repeat(1, OBJECT_NAME_SIZE), Repeat(1, SYMBOL_NAME_SIZE);
      FitsPadded(1, s.objectName, OBJECT_NAME_SIZE);
      FitsPadded(1, s.symbolName, SYMBOL_NAME_SIZE);
      FitsConcat([8], [s.addr], lo, o);
      FitsConcat([8] + lo, [s.addr] + o, [8], [s.objectAddr]);
      FitsConcat([8] + lo + [8], [s.addr] + o + [s.objectAddr], ln, n);
      FitsConcat([8] + lo + [8] + ln, [s.addr] + o + [s.objectAddr] + n, [8], [s.symbolAddr]);
  }

  /** Decoding the fields of a message gives the handler calls of that message. */
  lemma DecodeValues(m: Message)
    requires WellFormed(m)
    ensures DecodeCalls(m.header, DataValues(m)) == CallsOf(m)
  {
    hide CString, Repeat;
    match m
    case AppMessage(_) =>
    case MemoryMessage(_, _, _, _, _) =>
    case ThreadMessage(_, id, name) =>
      NameField([id], name, THREAD_NAME_SIZE, []);
      assert DataValues(m) == [id] + Padded(name, THREAD_NAME_SIZE) + [];
    case BacktraceMessage(_, _, addrs) =>
      assert DataValues(m)[2..] == Padded(addrs, BACKTRACE_MAX_SIZE);
      assert DataValues(m)[2..2 + |addrs|] == DataValues(m)[2..][..|addrs|];
    case SymbolMessage(_, s) => DecodeSymbol(m);
  }

  lemma DecodeSymbol(m: Message)
    requires WellFormed(m) && m.SymbolMessage?
    ensures DecodeCalls(m.header, DataValues(m)) == CallsOf(m)
  {
    hide CString, Repeat;
    DecodeNames(m.infos);
  }

  function SymbolValues(s: SymbolInfos): (values: seq<nat>)
    requires |s.objectName| <= OBJECT_NAME_SIZE && |s.symbolName| <= SYMBOL_NAME_SIZE
  {
    [s.addr] + Padded(s.objectName, OBJECT_NAME_SIZE) + [s.objectAddr]
    + Padded(s.symbolName, SYMBOL_NAME_SIZE) + [s.symbolAddr]
  }

  lemma DecodeNames(s: SymbolInfos)
    requires IsText(s.objectName, OBJECT_NAME_SIZE) && IsText(s.symbolName, SYMBOL_NAME_SIZE)
    ensures CString(SymbolValues(s)[1..257]) == s.objectName
    ensures CString(SymbolValues(s)[258..354]) == s.symbolName
  {
    hide CString, Padded;
    var front := [s.addr] + Padded(s.objectName, OBJECT_NAME_SIZE) + [s.objectAddr];
    var back := [s.objectAddr] + Padded(s.symbolName, SYMBOL_NAME_SIZE) + [s.symbolAddr];
    NameField([s.addr], s.objectName, OBJECT_NAME_SIZE, back);
    NameField(front, s.symbolName, SYMBOL_NAME_SIZE, [s.symbolAddr]);
    assert SymbolValues(s) == [s.addr] + Padded(s.objectName, OBJECT_NAME_SIZE) + back;
  }

  /** A name between other fields reads back as the name. */
  lemma NameField(front: seq<nat>, name: seq<nat>, size: nat, back: seq<nat>)
    requires IsText(name, size)
    ensures CString((front + Padded(name, size) + back)[|front|..|front| + size]) == name
  {
    assert (front + Padded(name, size) + back)[|front|..|front| + size] == Padded(name, size);
    CStringPadded(name, Padded(name, size));
  }

  // ---- Encoding ----

  /** The number of bytes of a message. */
  function Length(m: Message): (length: nat)
    ensures 31 <= length <= MAX_MSG_SIZE
  {
    VERSION_SIZE + HEADER_SIZE + DataSize(KindOf(m.header.msgCode))
  }

  function Encode(m: Message): (s: seq<byte>)
    requires WellFormed(m)
    ensures |s| == Length(m)
  {
    LayoutSizes(KindOf(m.header.msgCode));
    PutInt(MSG_VERSION, VERSION_SIZE)
    + Pack(HeaderLayout(), HeaderValues(m.header))
    + Pack(DataLayout(KindOf(m.header.msgCode)), DataValues(m))
  }

  ghost predicate AllWellFormed(ms: seq<Message>) {
    forall i :: 0 <= i < |ms| ==> WellFormed(ms[i])
  }

  function Images(ms: seq<Message>): (images: seq<seq<byte>>)
    requires AllWellFormed(ms)
    ensures |images| == |ms|
    ensures forall i :: 0 <= i < |ms| ==> images[i] == Encode(ms[i])
  {
    seq(|ms|, i requires 0 <= i < |ms| => Encode(ms[i]))
  }

  /** The byte stream of a list of messages. */
  function EncodeAll(ms: seq<Message>): (s: seq<byte>)
    requires AllWellFormed(ms)
  {
    Flatten(Images(ms))
  }

  function TotalLength(ms: seq<Message>): (length: nat) {
    if ms == [] then 0 else Length(ms[0]) + TotalLength(ms[1..])
  }

  lemma EncodeAllStep(ms: seq<Message>)
    requires AllWellFormed(ms) && ms != []
    ensures EncodeAll(ms) == Encode(ms[0]) + EncodeAll(ms[1..])
  {
    assert Images(ms)[1..] == Images(ms[1..]);
  }

  lemma {:induction false} EncodeAllLength(ms: seq<Message>)
    requires AllWellFormed(ms)
    ensures |EncodeAll(ms)| == TotalLength(ms)
  {
    if ms == [] {
    } else {
      EncodeAllStep(ms);
      EncodeAllLength(ms[1..]);
    }
  }

  lemma EncodeAllConcat(a: seq<Message>, b: seq<Message>)
    requires AllWellFormed(a) && AllWellFormed(b)
    ensures AllWellFormed(a + b) && EncodeAll(a + b) == EncodeAll(a) + EncodeAll(b)
  {
    hide Encode;
    assert Images(a + b) == Images(a) + Images(b);
    FlattenConcat(Images(a), Images(b));
  }

  lemma {:induction false} TotalLengthConcat(a: seq<Message>, b: seq<Message>)
    ensures TotalLength(a + b) == TotalLength(a) + TotalLength(b)
  {
    if a == [] {
      assert a + b == b;
    } else {
      TotalLengthConcat(a[1..], b);
      assert (a + b)[1..] == a[1..] + b;
    }
  }
}
