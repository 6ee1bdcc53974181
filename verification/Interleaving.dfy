/** The client under threads: every hook is a few steps - the real call, the stamp under one lock, the send under
    another - and the steps of different threads interleave freely. */
module Interleaving {
  import opened Sequences
  import opened Messages
  import opened Operations
  import opened Transfer

  const MAX_INT := 0x7FFF_FFFF

  /** A hooked call. `Alloc` is one of the seven allocators and has got `ptr` from the real one, `Release` is a free of
      `ptr`, `Resize` a realloc that has turned `source` into `ptr`, `ThreadCall` one of the two thread hooks. */
  datatype Call =
    | Alloc(code: nat, size: nat, num: nat, ptr: nat)
    | Release(ptr: nat)
    | Resize(source: nat, size: nat, num: nat, ptr: nat)
    | ThreadCall(code: nat, id: nat, name: seq<nat>)

  predicate IsAllocator(code: nat) {
    HasAllocOperation(code) && code != CODE_FREE && code != CODE_REALLOC
  }

  predicate CallFits(call: Call) {
    match call
    case Alloc(code, size, num, ptr) => IsAllocator(code) && Is64(size) && Is32(num) && 0 < ptr && Is64(ptr)
    case Release(ptr) => 0 < ptr && Is64(ptr)
    case Resize(source, size, num, ptr) => Is64(source) && Is64(size) && Is32(num) && 0 < ptr && Is64(ptr)
    case ThreadCall(code, id, name) =>
      (code == CODE_PTHREAD_CREATE || code == CODE_PTHREAD_SET_NAME) && Is64(id) && IsText(name, THREAD_NAME_SIZE)
  }

  /** The message by which a call is reported. */
  function Report(call: Call, sec: nat, usec: nat, self: nat, n: nat): (m: Message) {
    match call
    case Alloc(code, size, num, ptr) => MemoryMessage(Header(sec, usec, self, n, code), size, ptr, num, 0)
    case Release(ptr) => MemoryMessage(Header(sec, usec, self, n, CODE_FREE), 0, 0, 0, ptr)
    case Resize(source, size, num, ptr) => MemoryMessage(Header(sec, usec, self, n, CODE_REALLOC), size, ptr, num,
      source)
    case ThreadCall(code, id, name) => ThreadMessage(Header(sec, usec, self, n, code), id, name)
  }

  function Opening(sec: nat, usec: nat, self: nat, n: nat): (m: Message)
    ensures Is64(sec) && Is64(usec) && Is64(self) && Is32(n) ==> WellFormed(m)
  {
    AppMessage(Header(sec, usec, self, n, CODE_INIT))
  }

  /** What can follow the report of a memory call: its backtrace, then symbols. */
  datatype Extra = Addresses(addrs: seq<nat>) | Symbols(infos: SymbolInfos)

  predicate ExtraFits(extra: Extra) {
    match extra
    case Addresses(addrs) => |addrs| <= BACKTRACE_MAX_SIZE && forall i :: 0 <= i < |addrs| ==> Is64(addrs[i])
    case Symbols(s) =>
      && Is64(s.addr) && Is64(s.objectAddr) && Is64(s.symbolAddr)
      && IsText(s.objectName, OBJECT_NAME_SIZE) && IsText(s.symbolName, SYMBOL_NAME_SIZE)
  }

  function Follow(extra: Extra, origin: nat, sec: nat, usec: nat, self: nat, n: nat): (m: Message) {
    match extra
    case Addresses(addrs) => BacktraceMessage(Header(sec, usec, self, n, CODE_BACKTRACE), origin, addrs)
    case Symbols(infos) => SymbolMessage(Header(sec, usec, self, n, CODE_SYMBOL_INFOS), infos)
  }

  /** Where a thread is: outside the hooks, before the stamp, between stamp and send, or after its report was sent.
      There `origin` is the number of the report, and `traced` says whether its backtrace has been stamped. */
  datatype Phase =
    | Idle
    | Acting(call: Call)
    | Reporting(call: Call, report: Message)
    | Reported(call: Call, origin: nat, traced: bool)
    | Following(call: Call, origin: nat, follow: Message)

  datatype Step =
    | Open(self: nat, fd: int, sec: nat, usec: nat)
    | Enter(self: nat, call: Call)
    | StampReport(self: nat, sec: nat, usec: nat)
    | StampFollow(self: nat, sec: nat, usec: nat, extra: Extra)
    | Send(self: nat)
    | Return(self: nat)

  /** The system: what the real allocator has handed out, what of it the program may free, the counter of the stamps,
      where each thread is, the messages sent so far in the order in which they go into the stream, how many of them
      were sent before the connection was opened, and the connection. The opening goes in front of what was sent before
      it. */
  datatype Sys = Sys(heap: set<nat>, held: set<nat>, msgNum: nat, threads: map<nat, Phase>, sent: seq<Message>,
    early: nat, link: Link) {

    function At(self: nat): (phase: Phase) {
      if self in threads then threads[self] else Idle
    }

    function Put(self: nat, phase: Phase): (s: Sys)
      ensures s.At(self) == phase && forall other: nat :: other != self ==> s.At(other) == At(other)
    {
      this.(threads := threads[self := phase])
    }

    /** An allocation returns a fresh address; the program frees, and resizes, what it holds. */
    predicate CanEnter(call: Call) {
      CallFits(call) &&
      match call
      case Alloc(_, _, _, ptr) => ptr !in heap
      case Release(ptr) => ptr in held
      case Resize(source, _, _, ptr) => (source == 0 || source in held) && (ptr == source || ptr !in heap)
      case ThreadCall(_, _, _) => true
    }

    /** The effect of a call where it begins: a free acts only when it ends. */
    function Begin(call: Call): (s: Sys) {
      match call
      case Alloc(_, _, _, ptr) => this.(heap := heap + {ptr})
      case Release(ptr) => this.(held := held - {ptr})
      case Resize(source, _, _, ptr) => this.(heap := heap - {source} + {ptr}, held := held - {source})
      case ThreadCall(_, _, _) => this
    }

    function Finish(call: Call): (s: Sys) {
      match call
      case Alloc(_, _, _, ptr) => this.(held := held + {ptr})
      case Release(ptr) => this.(heap := heap - {ptr})
      case Resize(_, _, _, ptr) => this.(held := held + {ptr})
      case ThreadCall(_, _, _) => this
    }

    function Transmit(m: Message): (s: Sys)
      requires WellFormed(m)
    {
      this.(sent := sent + [m], link := link.SendSafe(Encode(m)))
    }

    /** The connection is opened by a thread that is about to make its first call of some function; it is one step. */
    function Connect(fd: int, m: Message): (s: Sys)
      requires WellFormed(m)
    {
      this.(msgNum := m.header.msgNum, sent := [m] + sent, early := |sent|, link := link.Open(Some(fd), Encode(m)))
    }

    /** A step, if it can be taken. Backtraces are sent only once the connection is open. */
    function Next(step: Step): (s: Option<Sys>) {
      match step
      case Open(self, fd, sec, usec) =>
        if Is64(self) && At(self).Idle? && Is64(sec) && Is64(usec) && msgNum < MAX_INT && 0 < fd &&
          link.socket == NO_SOCKET then
          Some(Connect(fd, Opening(sec, usec, self, msgNum + 1)))
        else None
      case Enter(self, call) =>
        if Is64(self) && At(self).Idle? && CanEnter(call) then Some(Begin(call).Put(self, Acting(call))) else None
      case StampReport(self, sec, usec) =>
        if At(self).Acting? && Is64(sec) && Is64(usec) && msgNum < MAX_INT then
          var n := msgNum + 1;
          Some(this.(msgNum := n).Put(self, Reporting(At(self).call, Report(At(self).call, sec, usec, self, n))))
        else None
      case StampFollow(self, sec, usec, extra) =>
        if link.init && At(self).Reported? && extra.Addresses? != At(self).traced && ExtraFits(extra)
           && Is64(sec) && Is64(usec) && msgNum < MAX_INT then
          var n := msgNum + 1;
          Some(this.(msgNum := n).Put(self,
            Following(At(self).call, At(self).origin, Follow(extra, At(self).origin, sec, usec, self, n))))
        else None
      case Send(self) =>
        match At(self) {
          case Reporting(call, m) =>
            if WellFormed(m) then Some(Transmit(m).Put(self, if call.ThreadCall? then Idle
              else Reported(call, m.header.msgNum, false))) else None
          case Following(call, origin, m) =>
            if WellFormed(m) then Some(Transmit(m).Put(self, Reported(call, origin, true))) else None
          case _ => None
        }
      case Return(self) =>
        if At(self).Reported? then Some(Finish(At(self).call).Put(self, Idle)) else None
    }
  }

  /** The system before anything has happened. */
  function Start(): (s: Sys) { Sys({}, {}, 0, map[], [], 0, NewLink()) }

  /** A run, if all its steps can be taken. */
  function Exec(start: Sys, steps: seq<Step>): (s: Option<Sys>) {
    if steps == [] then Some(start)
    else
      var before := Exec(start, steps[..|steps| - 1]);
      if before.None? then None else before.value.Next(steps[|steps| - 1])
  }
}
