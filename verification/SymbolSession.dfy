/** End to end for one thread: which addresses the server can resolve. */
module SymbolSession {
  import opened Packed
  import opened Sequences
  import opened Messages
  import opened Framing
  import opened Chunking
  import opened Transfer
  import opened Delivery
  import opened Ledger
  import opened Streams
  import opened Interleaving
  import opened ClientStream
  import opened SymbolCache
  import opened SymbolSending
  import opened Pipeline

  /** A client that runs one hook after the other: some before it opens its connection as `fd`, then the others. */
  datatype Sitting = Sitting(env: Environment, size: nat, fd: int, before: seq<Hook>, hooks: seq<Hook>) {

    ghost predicate Fits() {
      && 0 < size && 0 < fd && env.Fits()
      && HooksFit(before) && (forall i :: 0 <= i < |before| ==> before[i].trace.None?)
      && HooksFit(hooks) && Is32(Rest().msgNum)
    }

    function Early(): (c: Client)
      requires 0 < size
    {
      Hooked(env, size, 0, before)
    }

    function Greeting(): (m: Message)
      requires 0 < size
    {
      var n := Early().msgNum + 1;
      Opening(env.clock(n).0, env.clock(n).1, env.self, n)
    }

    function Rest(): (c: Client)
      requires 0 < size
    {
      Hooked(env, size, Early().msgNum + 1, hooks)
    }

    function Sent(): (ms: seq<Message>)
      requires 0 < size
    {
      SessionMessages(Early().sent, Greeting(), Rest().sent)
    }

    /** The server has read all that was written up to the end of the connection. */
    ghost predicate ReadAs(chunks: seq<seq<byte>>)
      requires Fits()
    {
      AllSent(this);
      AllRead(Session(Early().sent, fd, Greeting(), Rest().sent).writes, chunks)
    }
  }

  lemma AllSent(s: Sitting)
    requires s.Fits()
    ensures AllWellFormed(s.Early().sent) && AllWellFormed(s.Rest().sent) && AllOrdinary(s.Early().sent + s.Rest().sent)
    ensures WellFormed(s.Greeting()) && IsOpening(s.Greeting()) && Held(s.Early().sent) == 0
  {
    hide WellFormed, Ordinary, Hooked, Environment.Fits, HooksFit, Held;
    var early := s.Early();
    HookedFits(s.env, s.size, 0, s.before);
    HookedFits(s.env, s.size, early.msgNum + 1, s.hooks);
    GreetingFits(s);
    NothingHeld(s);
  }

  lemma GreetingFits(s: Sitting)
    requires 0 < s.size && s.env.Fits() && Is32(s.Early().msgNum + 1)
    ensures WellFormed(s.Greeting()) && IsOpening(s.Greeting())
  {
    hide Hooked, WellFormed;
    var time := s.env.clock(s.Early().msgNum + 1);
  }

  lemma NothingHeld(s: Sitting)
    requires s.Fits() && AllWellFormed(s.Early().sent)
    ensures Held(s.Early().sent) == 0
  {
    hide Hooked, Environment.TraceWithSymbols, HooksFit, Environment.Fits;
    var before, sent := s.before, s.Early().sent;
    SentEarly(s);
    if sent != [] {
      var last := sent[|sent| - 1];
      assert WellFormed(last);
    }
  }

  /** The last message of those sent before the opening is a report. */
  lemma SentEarly(s: Sitting)
    requires 0 < s.size && forall i :: 0 <= i < |s.before| ==> s.before[i].trace.None?
    ensures var sent := s.Early().sent; sent != [] ==>
      sent[|sent| - 1].MemoryMessage? || sent[|sent| - 1].ThreadMessage?
  {
    hide Environment.TraceWithSymbols, After;
  }

  /** What the server keeps for an address, if anything. */
  function Kept(l: Ledger, addr: nat): (infos: Option<SymbolInfos>) {
    if addr in l.symbols then Some(l.symbols[addr]) else None
  }

  /** Whatever the server has seen before: what it keeps for an address is the first symbol sent for it behind the
      opening. */
  lemma FirstSymbolKept(l: Ledger, s: Sitting, chunks: seq<seq<byte>>, addr: nat)
    requires l.Valid() && s.Fits() && s.ReadAs(chunks)
    ensures Kept(ServerAfter(l, chunks), addr) == FirstSymbol(s.Rest().sent, addr)
  {
    hide Hooked, WellFormed, Ordinary, Environment.Fits, HooksFit, FirstSymbol, Receive, Run, Session, AllRead, Held,
      Steps, Flatten;
    AllSent(s);
    SessionReadUp(s.Early().sent, s.fd, s.Greeting(), s.Rest().sent, chunks);
    var sent := s.Sent();
    var ms := Delivered(sent);
    AllSentFits(s);
    DeliveredFirst(sent);
    OpeningClears(l, ms);
    NoSymbols(l);
    assert ServerAfter(l, chunks) == Feed(l, ms);
    assert sent[1..] == s.Early().sent + s.Rest().sent;
    assert forall i :: 0 <= i < |ms[1..]| ==> ms[1..][i] == sent[1..][i];
    SymbolsKept(l.Handle(OnNewConnection), ms[1..], addr);
    HeldNoSymbol(sent, addr);
    FirstSymbolConcat(s.Early().sent, s.Rest().sent, addr);
    SymbolsComplete(s.env, s.size, 0, s.before, addr);
  }

  lemma AllSentFits(s: Sitting)
    requires s.Fits()
    ensures AllWellFormed(s.Sent()) && s.Sent()[0] == s.Greeting()
  {
    hide Hooked, WellFormed, Ordinary, Environment.Fits, HooksFit;
    AllSent(s);
  }

  lemma NoSymbols(l: Ledger)
    requires l.Valid()
    ensures l.Handle(OnNewConnection).symbols == map[]
  {
  }

  /** A backtrace that does not get through is no symbol. */
  lemma HeldNoSymbol(ms: seq<Message>, addr: nat)
    requires AllWellFormed(ms) && ms != [] && IsOpening(ms[0])
    ensures Delivered(ms) != [] && FirstSymbol(Delivered(ms)[1..], addr) == FirstSymbol(ms[1..], addr)
  {
    hide WellFormed;
    DeliveredFirst(ms);
    if Held(ms) == 1 {
      var last := ms[|ms| - 1];
      assert WellFormed(last);
      HeldIsBacktrace(last);
      assert ms[1..] == Delivered(ms)[1..] + [last];
      FirstSymbolConcat(Delivered(ms)[1..], [last], addr);
      NoSymbolIn(last, addr);
    } else {
      assert Delivered(ms) == ms;
    }
  }

  lemma HeldIsBacktrace(m: Message)
    requires WellFormed(m) && KindOf(m.header.msgCode) == Backtrace
    ensures m.BacktraceMessage?
  {
  }

  /** Names and addresses, of the object and of the symbol, as the linker said them of this address. */
  predicate Tells(infos: SymbolInfos, addr: nat, said: SymbolInfos) {
    && infos.addr == addr
    && infos.objectName == said.objectName && infos.objectAddr == said.objectAddr
    && infos.symbolName == said.symbolName && infos.symbolAddr == said.symbolAddr
  }

  /** Whatever the size of the cache and whatever it evicted: when everything written has been read, the server resolves
      just the addresses that were in a backtrace, as the client's linker does; only 0 can be missing. */
  lemma ServerResolves(l: Ledger, s: Sitting, chunks: seq<seq<byte>>, addr: nat)
    requires l.Valid() && s.Fits() && s.ReadAs(chunks)
    ensures Kept(ServerAfter(l, chunks), addr).Some? ==>
      LookedUp(s.hooks, addr) && Tells(Kept(ServerAfter(l, chunks), addr).value, addr, s.env.dladdr(addr))
    ensures addr != 0 ==> (Kept(ServerAfter(l, chunks), addr).Some? <==> LookedUp(s.hooks, addr))
  {
    hide Hooked, Environment.Fits, HooksFit, FirstSymbol, ServerAfter, AllRead, Sitting.ReadAs;
    FirstSymbolKept(l, s, chunks, addr);
    SymbolsComplete(s.env, s.size, s.Early().msgNum + 1, s.hooks, addr);
  }

  // ---- Address 0 ----

  /** An address that was in a backtrace is resolved, in every run, by every server that has read it. */
  ghost predicate AlwaysResolved(env: Environment, size: nat, addr: nat) {
    forall l: Ledger, s: Sitting, chunks: seq<seq<byte>> ::
      l.Valid() && s.Fits() && s.env == env && s.size == size && s.ReadAs(chunks) && LookedUp(s.hooks, addr) ==>
        ResolvedAs(Kept(ServerAfter(l, chunks), addr), addr, env.dladdr(addr))
  }

  predicate ResolvedAs(kept: Option<SymbolInfos>, addr: nat, said: SymbolInfos) {
    kept.Some? && Tells(kept.value, addr, said)
  }

  /** The address 0 is the one exception: an unused slot of the cache passes for it, so that its symbol is not sent. */
  lemma AlwaysResolvedExactly(env: Environment, size: nat, addr: nat)
    requires 0 < size && env.Fits()
    ensures AlwaysResolved(env, size, addr) <==> addr != 0
  {
    hide Hooked, Environment.Fits, HooksFit, ServerAfter, Sitting.ReadAs, Sitting.Fits, Kept, Tells;
    if addr != 0 {
      forall l: Ledger, s: Sitting, chunks: seq<seq<byte>> |
        l.Valid() && s.Fits() && s.env == env && s.size == size && s.ReadAs(chunks) && LookedUp(s.hooks, addr)
        ensures ResolvedAs(Kept(ServerAfter(l, chunks), addr), addr, env.dladdr(addr))
      {
        ServerResolves(l, s, chunks, addr);
      }
    } else {
      ZeroUnresolved(env, size, NewLedger());
    }
  }

  lemma ZeroUnresolved(env: Environment, size: nat, l: Ledger)
    requires 0 < size && env.Fits() && l.Valid()
    ensures !AlwaysResolved(env, size, 0)
  {
    hide Hooked, Environment.Fits, HooksFit, ServerAfter, Sitting.Fits, Environment.InfosOf, Kept, AllRead;
    var s := ZeroRun(env, size);
    ZeroFits(env, size);
    AllSent(s);
    var chunks := NonEmpty(Session(s.Early().sent, s.fd, s.Greeting(), s.Rest().sent).writes);
    ReadByWrites(s);
    assert s.ReadAs(chunks);
    FirstSymbolKept(l, s, chunks, 0);
    ZeroNotSent(env, size);
  }

  lemma ReadByWrites(s: Sitting)
    requires s.Fits()
    ensures AllWellFormed(s.Early().sent) && AllWellFormed(s.Rest().sent) && WellFormed(s.Greeting())
    ensures s.ReadAs(NonEmpty(Session(s.Early().sent, s.fd, s.Greeting(), s.Rest().sent).writes))
  {
    hide Hooked, Environment.Fits, HooksFit, Session, Sitting.Early, Sitting.Greeting, Sitting.Rest, WellFormed;
    AllSent(s);
  }

  function ZeroRun(env: Environment, size: nat): (s: Sitting) {
    Sitting(env, size, 3, [], [Hook(Alloc(CODE_MALLOC, 8, 0, 16), Some([0]))])
  }

  /** The one hook of that run sends its report and its backtrace, and no symbol. */
  lemma ZeroHook(env: Environment, size: nat)
    requires 0 < size
    ensures Missed(NoSlots(size), [0]) == []
    ensures |HookMessages(env, NoSlots(size), 1, ZeroRun(env, size).hooks[0])| == 2
    ensures Hooked(env, size, 1, ZeroRun(env, size).hooks) ==
      Client(After(NoSlots(size), [0]), 3, HookMessages(env, NoSlots(size), 1, ZeroRun(env, size).hooks[0]))
  {
    hide Environment.TraceMessage, ReportOf;
    var slots, hook := NoSlots(size), ZeroRun(env, size).hooks[0];
    assert [hook][..0] == [] && [0][..0] == [] && [0][..1] == [0];
    assert Present(slots, 0) by { assert slots[0].addr == 0; }
    NoSlotsTidy(size);
    CheckLaws(slots, 0);
    assert After(slots, []) == slots;
    assert Missed(slots, []) == [];
    assert Hooked(env, size, 1, []) == Client(slots, 1, []);
  }

  lemma ZeroFits(env: Environment, size: nat)
    requires 0 < size && env.Fits()
    ensures ZeroRun(env, size).Fits() && LookedUp(ZeroRun(env, size).hooks, 0)
  {
    hide HookMessages, After, Missed, Environment.Fits;
    ZeroHook(env, size);
    var s := ZeroRun(env, size);
    assert s.Early().msgNum == 0;
    assert s.hooks[0].Fits() && 0 in s.hooks[0].Looked();
  }

  lemma ZeroNotSent(env: Environment, size: nat)
    requires 0 < size
    ensures FirstSymbol(ZeroRun(env, size).Rest().sent, 0).None?
  {
    hide HookMessages, After, Missed, FirstSymbol;
    ZeroHook(env, size);
    HookSymbols(env, NoSlots(size), 1, ZeroRun(env, size).hooks[0], 0);
  }
}
