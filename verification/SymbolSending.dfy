/** Sending a backtrace and the symbols it needs; and that nothing a server has to resolve is missing. */
module SymbolSending {
  import opened Sequences
  import opened Lists
  import opened Messages
  import opened Operations
  import opened Threads
  import opened Ledger
  import opened Transfer
  import opened Streams
  import opened Interleaving
  import opened ClientStream
  import opened SymbolCache

  /** What a sending thread takes from outside: its id, the time of each message, and what the dynamic linker says of an
      address. */
  datatype Environment = Environment(self: nat, clock: nat -> (nat, nat), dladdr: nat -> SymbolInfos) {

    ghost predicate Fits() {
      && Is64(self)
      && (forall n {:trigger clock(n)} :: Is64(clock(n).0) && Is64(clock(n).1))
      && (forall a {:trigger dladdr(a)} :: ExtraFits(Symbols(dladdr(a))))
    }

    function Stamp(n: nat, code: nat): (h: Header) {
      Header(clock(n).0, clock(n).1, self, n, code)
    }

    function TraceMessage(n: nat, origin: nat, addrs: seq<nat>): (m: Message) {
      BacktraceMessage(Stamp(n, CODE_BACKTRACE), origin, addrs)
    }

    function InfosOf(addr: nat): (infos: SymbolInfos) {
      dladdr(addr).(addr := addr)
    }

    /** The symbols of some addresses, with numbers from `n` on. */
    function SymbolMessages(n: nat, addrs: seq<nat>): (ms: seq<Message>)
      ensures |ms| == |addrs|
    {
      seq(|addrs|, i requires 0 <= i < |addrs| => SymbolMessage(Stamp(n + i, CODE_SYMBOL_INFOS), InfosOf(addrs[i])))
    }

    /** A backtrace, and the symbols of those of its first `i` addresses that are missed in the cache. */
    function TraceWithSymbols(slots: seq<Slot>, msgNum: nat, origin: nat, addrs: seq<nat>, i: nat): (ms: seq<Message>)
      requires slots != [] && i <= |addrs|
    {
      [TraceMessage(msgNum + 1, origin, addrs)] + SymbolMessages(msgNum + 2, Missed(slots, addrs[..i]))
    }
  }

  /** The addresses that are missed when they are looked up one after the other. */
  function Missed(slots: seq<Slot>, addrs: seq<nat>): (missed: seq<nat>)
    requires slots != []
    ensures |missed| <= |addrs|
    ensures forall a :: a in missed ==> a in addrs
  {
    if addrs == [] then []
    else
      var front, last := addrs[..|addrs| - 1], addrs[|addrs| - 1];
      Missed(slots, front) + if Check(After(slots, front), last).0 then [] else [last]
  }

  predicate AddressesFit(addrs: seq<nat>) {
    |addrs| <= BACKTRACE_MAX_SIZE && forall i :: 0 <= i < |addrs| ==> Is64(addrs[i])
  }

  lemma TraceFits(env: Environment, n: nat, origin: nat, addrs: seq<nat>)
    requires env.Fits() && AddressesFit(addrs) && Is32(origin) && Is32(n)
    ensures WellFormed(env.TraceMessage(n, origin, addrs))
  {
    var time := env.clock(n);
  }

  lemma SymbolFits(env: Environment, n: nat, addr: nat)
    requires env.Fits() && Is64(addr) && Is32(n)
    ensures WellFormed(SymbolMessage(env.Stamp(n, CODE_SYMBOL_INFOS), env.InfosOf(addr)))
  {
    var time := env.clock(n);
    assert ExtraFits(Symbols(env.dladdr(addr)));
  }

  lemma MissedPrefix(slots: seq<Slot>, addrs: seq<nat>, i: nat)
    requires slots != [] && i < |addrs|
    ensures After(slots, addrs[..i + 1]) == Check(After(slots, addrs[..i]), addrs[i]).1
    ensures Missed(slots, addrs[..i + 1]) == Missed(slots, addrs[..i]) +
      if Check(After(slots, addrs[..i]), addrs[i]).0 then [] else [addrs[i]]
  {
    assert addrs[..i + 1][..i] == addrs[..i];
  }

  lemma MoreSymbols(env: Environment, slots: seq<Slot>, n: nat, origin: nat, addrs: seq<nat>, i: nat)
    requires slots != [] && i < |addrs|
    ensures env.TraceWithSymbols(slots, n, origin, addrs, i + 1) == env.TraceWithSymbols(slots, n, origin, addrs, i) +
      if Check(After(slots, addrs[..i]), addrs[i]).0 then []
      else [SymbolMessage(env.Stamp(n + 2 + |Missed(slots, addrs[..i])|, CODE_SYMBOL_INFOS), env.InfosOf(addrs[i]))]
  {
    hide Check, Environment.InfosOf, Environment.TraceMessage;
    MissedPrefix(slots, addrs, i);
  }

  lemma NoSymbolsYet(env: Environment, slots: seq<Slot>, n: nat, origin: nat, addrs: seq<nat>)
    requires slots != []
    ensures env.TraceWithSymbols(slots, n, origin, addrs, 0) == [env.TraceMessage(n + 1, origin, addrs)]
    ensures Missed(slots, addrs[..0]) == [] && After(slots, addrs[..0]) == slots
  {
  }

  lemma SendOneMore(l: Link, ms: seq<Message>, m: Message)
    requires AllWellFormed(ms) && WellFormed(m)
    ensures AllWellFormed(ms + [m]) && SendAllSafe(l, ms + [m]) == SendAllSafe(l, ms).SendSafe(Encode(m))
  {
    hide Encode, WellFormed;
    assert (ms + [m])[..|ms|] == ms;
  }

  lemma SendFirst(l: Link, m: Message)
    requires WellFormed(m)
    ensures AllWellFormed([m]) && SendAllSafe(l, [m]) == l.SendSafe(Encode(m))
  {
    hide Encode, WellFormed;
    assert |[m][..0]| == 0;
  }

  method SymbolSend(comm: ServerComm, addr: nat, env: Environment)
    requires comm.Valid() && comm.socket != NO_SOCKET && env.Fits() && Is64(addr) && Is32(comm.msgNum + 1)
    modifies comm, comm.transferBuffer, comm.preInitBuffer
    ensures comm.Valid() && comm.socket == old(comm.socket) && comm.msgNum == old(comm.msgNum) + 1
    ensures var m := SymbolMessage(env.Stamp(comm.msgNum, CODE_SYMBOL_INFOS), env.InfosOf(addr));
      WellFormed(m) && comm.Value() == old(comm.Value()).SendSafe(Encode(m))
  {
    hide Encode, WellFormed, Link.SendSafe, Environment.Fits, Environment.InfosOf;
    SymbolFits(env, comm.msgNum + 1, addr);
    var header := comm.MsgHeaderInit(env.clock(comm.msgNum + 1).0, env.clock(comm.msgNum + 1).1, env.self);
    comm.SendSafe(Encode(SymbolMessage(header.(msgCode := CODE_SYMBOL_INFOS), env.InfosOf(addr))));
  }

  /** The hook's part that reports a backtrace: the message goes out first, then the symbols the cache misses, one by
      one. */
  method BacktraceSend(cache: AddrCache, comm: ServerComm, origin: nat, addrs: seq<nat>, env: Environment)
    requires cache.Valid() && comm.Valid() && comm.socket != NO_SOCKET
    requires env.Fits() && AddressesFit(addrs) && Is32(origin) && Is32(comm.msgNum + 1 + |addrs|)
    modifies cache.listAddr, cache.listAddrCount, comm, comm.transferBuffer, comm.preInitBuffer
    ensures cache.Valid() && comm.Valid() && cache.Value() == After(old(cache.Value()), addrs)
    ensures comm.msgNum == old(comm.msgNum) + 1 + |Missed(old(cache.Value()), addrs)|
    ensures var ms := env.TraceWithSymbols(old(cache.Value()), old(comm.msgNum), origin, addrs, |addrs|);
      AllWellFormed(ms) && comm.Value() == SendAllSafe(old(comm.Value()), ms)
  {
    hide Encode, WellFormed, SendAllSafe, Link.SendSafe, Check, Missed, After, Environment.TraceWithSymbols,
         Environment.Fits, Environment.InfosOf, AllWellFormed;
    ghost var slots, link, n := cache.Value(), comm.Value(), comm.msgNum;
    TraceFits(env, n + 1, origin, addrs);
    NoSymbolsYet(env, slots, n, origin, addrs);
    SendFirst(link, env.TraceMessage(n + 1, origin, addrs));
    var header := comm.MsgHeaderInit(env.clock(comm.msgNum + 1).0, env.clock(comm.msgNum + 1).1, env.self);
    comm.SendSafe(Encode(BacktraceMessage(header.(msgCode := CODE_BACKTRACE), origin, addrs)));
    var i := 0;
    while i < |addrs|
      invariant 0 <= i <= |addrs| && cache.Valid() && comm.Valid() && comm.socket != NO_SOCKET
      invariant cache.Value() == After(slots, addrs[..i])
      invariant comm.msgNum == n + 1 + |Missed(slots, addrs[..i])|
      invariant AllWellFormed(env.TraceWithSymbols(slots, n, origin, addrs, i))
      invariant comm.Value() == SendAllSafe(link, env.TraceWithSymbols(slots, n, origin, addrs, i))
    {
      MissedPrefix(slots, addrs, i);
      MoreSymbols(env, slots, n, origin, addrs, i);
      ghost var sent := env.TraceWithSymbols(slots, n, origin, addrs, i);
      var addr := addrs[i];
      var found := cache.CheckAddr(addr);
      if found {
        assert sent + [] == sent;
      } else {
        SymbolFits(env, comm.msgNum + 1, addr);
        SendOneMore(link, sent, SymbolMessage(env.Stamp(comm.msgNum + 1, CODE_SYMBOL_INFOS), env.InfosOf(addr)));
        SymbolSend(comm, addr, env);
      }
      i := i + 1;
    }
    assert addrs[..i] == addrs;
  }

  // ---- Sequential runs ----

  /** A hook: what it reports, and the backtrace it takes. Thread hooks take none, nor does any hook before the
      opening. */
  datatype Hook = Hook(call: Call, trace: Option<seq<nat>>) {
    function Looked(): (addrs: seq<nat>) { if trace.Some? then trace.value else [] }

    predicate Fits() { CallFits(call) && AddressesFit(Looked()) }
  }

  ghost predicate HooksFit(hooks: seq<Hook>) { forall i :: 0 <= i < |hooks| ==> hooks[i].Fits() }

  /** Some hook took a backtrace with this address. */
  ghost predicate LookedUp(hooks: seq<Hook>, addr: nat) { exists i :: 0 <= i < |hooks| && addr in hooks[i].Looked() }

  /** The client after some hooks, one after the other: its cache, its last number, and what it has sent. */
  datatype Client = Client(slots: seq<Slot>, msgNum: nat, sent: seq<Message>)

  function ReportOf(env: Environment, call: Call, n: nat): (m: Message)
    ensures !m.SymbolMessage?
  {
    Report(call, env.clock(n).0, env.clock(n).1, env.self, n)
  }

  /** What one hook sends when the last number was `n`. */
  function HookMessages(env: Environment, slots: seq<Slot>, n: nat, hook: Hook): (ms: seq<Message>)
    requires slots != []
  {
    [ReportOf(env, hook.call, n + 1)] +
    if hook.trace.Some? then env.TraceWithSymbols(slots, n + 1, n + 1, hook.Looked(), |hook.Looked()|) else []
  }

  /** Hooks with the numbers behind `first`. */
  function Hooked(env: Environment, size: nat, first: nat, hooks: seq<Hook>): (c: Client)
    requires 0 < size
    ensures c.slots != [] && first <= c.msgNum
  {
    if hooks == [] then Client(NoSlots(size), first, [])
    else
      var c, hook := Hooked(env, size, first, hooks[..|hooks| - 1]), hooks[|hooks| - 1];
      var ms := HookMessages(env, c.slots, c.msgNum, hook);
      Client(After(c.slots, hook.Looked()), c.msgNum + |ms|, c.sent + ms)
  }

  /** The first symbol sent for an address. */
  function FirstSymbol(ms: seq<Message>, addr: nat): (infos: Option<SymbolInfos>) {
    if ms == [] then None
    else
      var front, last := FirstSymbol(ms[..|ms| - 1], addr), ms[|ms| - 1];
      if front.Some? then front
      else if last.SymbolMessage? && last.infos.addr == addr then Some(last.infos)
      else None
  }

  lemma {:induction false} FirstSymbolConcat(a: seq<Message>, b: seq<Message>, addr: nat)
    ensures FirstSymbol(a + b, addr) == if FirstSymbol(a, addr).Some? then FirstSymbol(a, addr)
      else FirstSymbol(b, addr)
  {
    if b == [] {
      assert a + b == a;
    } else {
      assert (a + b)[..|a + b| - 1] == a + b[..|b| - 1];
      FirstSymbolConcat(a, b[..|b| - 1], addr);
    }
  }

  lemma {:induction false} SymbolsFor(env: Environment, n: nat, addrs: seq<nat>, addr: nat)
    ensures FirstSymbol(env.SymbolMessages(n, addrs), addr) == if addr in addrs then Some(env.InfosOf(addr)) else None
  {
    if addrs == [] {
    } else {
      var front := addrs[..|addrs| - 1];
      SymbolsFor(env, n, front, addr);
      assert env.SymbolMessages(n, addrs)[..|front|] == env.SymbolMessages(n, front);
    }
  }

  lemma HookSymbols(env: Environment, slots: seq<Slot>, n: nat, hook: Hook, addr: nat)
    requires slots != []
    ensures FirstSymbol(HookMessages(env, slots, n, hook), addr) ==
            if addr in Missed(slots, hook.Looked()) then Some(env.InfosOf(addr)) else None
  {
    hide Missed;
    var addrs, report := hook.Looked(), ReportOf(env, hook.call, n + 1);
    var missed := Missed(slots, addrs);
    NoSymbolIn(report, addr);
    if hook.trace.Some? {
      assert addrs[..|addrs|] == addrs;
      SymbolsFor(env, n + 3, missed, addr);
      NoSymbolIn(env.TraceMessage(n + 2, n + 1, addrs), addr);
      FirstSymbolConcat([env.TraceMessage(n + 2, n + 1, addrs)], env.SymbolMessages(n + 3, missed), addr);
      FirstSymbolConcat([report], env.TraceWithSymbols(slots, n + 1, n + 1, addrs, |addrs|), addr);
    } else {
      assert HookMessages(env, slots, n, hook) == [report];
    }
  }

  lemma NoSymbolIn(m: Message, addr: nat)
    requires !m.SymbolMessage?
    ensures FirstSymbol([m], addr).None?
  {
    assert [m][..0] == [];
  }

  /** An address found in the cache was there before, or has been missed since. */
  lemma {:induction false} PresentAfter(slots: seq<Slot>, addrs: seq<nat>, addr: nat)
    requires slots != []
    ensures Present(After(slots, addrs), addr) ==> Present(slots, addr) || addr in Missed(slots, addrs)
    ensures addr in addrs ==> Present(slots, addr) || addr in Missed(slots, addrs)
  {
    if addrs == [] {
    } else {
      var front, last := addrs[..|addrs| - 1], addrs[|addrs| - 1];
      PresentAfter(slots, front, addr);
      PresentCheck(After(slots, front), last, addr);
      assert addrs == front + [last];
    }
  }

  lemma PresentCheck(slots: seq<Slot>, addr: nat, other: nat)
    requires slots != []
    ensures Present(Check(slots, addr).1, other) && other != addr ==> Present(slots, other)
    ensures Check(slots, addr).0 ==> Present(slots, addr)
  {
    hide First, Victim;
    var after := Check(slots, addr).1;
    if Present(after, other) && other != addr {
      var i :| 0 <= i < |after| && after[i].addr == other;
      assert slots[i].addr == other;
    }
  }

  /** Which symbols are sent: just those of the addresses that were in a backtrace, each as the linker knows it,
      evictions or not; only that of address 0 can be missing. */
  lemma {:induction false} SymbolsComplete(env: Environment, size: nat, first: nat, hooks: seq<Hook>, addr: nat)
    requires 0 < size
    ensures var c := Hooked(env, size, first, hooks);
      && (FirstSymbol(c.sent, addr).Some? ==>
        LookedUp(hooks, addr) && FirstSymbol(c.sent, addr) == Some(env.InfosOf(addr)))
      && (addr != 0 && LookedUp(hooks, addr) ==> FirstSymbol(c.sent, addr).Some?)
      && (addr != 0 && Present(c.slots, addr) ==> FirstSymbol(c.sent, addr).Some?)
  {
    hide After, Missed, HookMessages, Environment.InfosOf, FirstSymbol, Hook.Looked;
    if hooks == [] {
      NothingSent(addr);
    } else {
      var front, hook := hooks[..|hooks| - 1], hooks[|hooks| - 1];
      var c := Hooked(env, size, first, front);
      SymbolsComplete(env, size, first, front, addr);
      LookedUpSnoc(front, hook, addr);
      assert hooks == front + [hook];
      PresentAfter(c.slots, hook.Looked(), addr);
      HookSymbols(env, c.slots, c.msgNum, hook, addr);
      FirstSymbolConcat(c.sent, HookMessages(env, c.slots, c.msgNum, hook), addr);
    }
  }

  lemma LookedUpSnoc(hooks: seq<Hook>, hook: Hook, addr: nat)
    ensures LookedUp(hooks + [hook], addr) <==> LookedUp(hooks, addr) || addr in hook.Looked()
  {
    var all := hooks + [hook];
    if LookedUp(hooks, addr) {
      var i :| 0 <= i < |hooks| && addr in hooks[i].Looked();
      assert addr in all[i].Looked();
    }
    if addr in hook.Looked() { assert addr in all[|hooks|].Looked(); }
  }

  lemma NothingSent(addr: nat)
    ensures FirstSymbol([], addr).None?
  {
  }

  // ---- On the server ----

  /** The server keeps the first symbol sent for each address, and no others. */
  lemma {:induction false} SymbolsKept(l: Ledger, ms: seq<Message>, addr: nat)
    requires l.Valid() && l.symbols == map[] && AllOrdinary(ms)
    ensures var symbols := Feed(l, ms).symbols;
      (if addr in symbols then Some(symbols[addr]) else None) == FirstSymbol(ms, addr)
  {
    hide Feed, Ordinary, Run;
    if ms == [] {
      FeedNothing(l);
    } else {
      var front, last := ms[..|ms| - 1], ms[|ms| - 1];
      assert AllOrdinary(front);
      SymbolsKept(l, front, addr);
      FeedSnoc(l, front, last);
      assert ms == front + [last];
      SymbolStep(Feed(l, front), last, addr);
    }
  }

  lemma SymbolStep(l: Ledger, m: Message, addr: nat)
    requires l.Valid() && Ordinary(m)
    ensures Run(l, CallsOf(m)).symbols ==
            if m.SymbolMessage? && m.infos.addr !in l.symbols then l.symbols[m.infos.addr := m.infos] else l.symbols
  {
    hide Run, Ordinary, Book.Add, Book.Attach, Roster.AddFree, Roster.AddAlloc, Stats.Record;
    if CallsOf(m) != [] {
      RunOne(l, CallsOf(m)[0]);
      assert CallsOf(m) == [CallsOf(m)[0]];
    } else {
      RunOne(l, OnNewConnection);
    }
    match m
    case AppMessage(_) => OrdinaryApp(m);
    case _ =>
  }

  // ---- What is sent fits ----

  lemma {:induction false} SymbolMessagesFit(env: Environment, n: nat, addrs: seq<nat>)
    requires env.Fits() && 0 < n && Is32(n + |addrs| - 1) && forall a :: a in addrs ==> Is64(a)
    ensures AllWellFormed(env.SymbolMessages(n, addrs)) && AllOrdinary(env.SymbolMessages(n, addrs))
  {
    hide WellFormed, Environment.Fits, Environment.InfosOf;
    forall i | 0 <= i < |addrs| ensures WellFormed(env.SymbolMessages(n, addrs)[i]) {
      SymbolFits(env, n + i, addrs[i]);
    }
  }

  lemma HookFits(env: Environment, slots: seq<Slot>, n: nat, hook: Hook)
    requires slots != [] && env.Fits() && hook.Fits() && Is32(n + |HookMessages(env, slots, n, hook)|)
    ensures AllWellFormed(HookMessages(env, slots, n, hook)) && AllOrdinary(HookMessages(env, slots, n, hook))
  {
    hide WellFormed, Missed, Environment.InfosOf, Report;
    var addrs, time := hook.Looked(), env.clock(n + 1);
    ReportFits(hook.call, time.0, time.1, env.self, n + 1);
    ReportOrdinary(hook.call, time.0, time.1, env.self, n + 1);
    if hook.trace.Some? {
      var missed := Missed(slots, addrs[..|addrs|]);
      assert addrs[..|addrs|] == addrs;
      TraceFits(env, n + 2, n + 1, addrs);
      SymbolMessagesFit(env, n + 3, missed);
    }
  }

  lemma ReportOrdinary(call: Call, sec: nat, usec: nat, self: nat, n: nat)
    requires CallFits(call)
    ensures Ordinary(Report(call, sec, usec, self, n))
  {
  }

  lemma {:induction false} HookedFits(env: Environment, size: nat, first: nat, hooks: seq<Hook>)
    requires 0 < size && env.Fits() && HooksFit(hooks) && Is32(Hooked(env, size, first, hooks).msgNum)
    ensures AllWellFormed(Hooked(env, size, first, hooks).sent) && AllOrdinary(Hooked(env, size, first, hooks).sent)
  {
    hide WellFormed, Ordinary, After, HookMessages, Hook.Fits, Environment.Fits;
    if hooks != [] {
      var front, hook := hooks[..|hooks| - 1], hooks[|hooks| - 1];
      var c := Hooked(env, size, first, front);
      HookedFits(env, size, first, front);
      assert hook.Fits();
      HookFits(env, c.slots, c.msgNum, hook);
    }
  }
}
