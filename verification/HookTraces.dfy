/** End to end for one thread: the server shows each hook's call with the backtrace that the hook took. */
module HookTraces {
  import opened Packed
  import opened Sequences
  import opened Messages
  import opened Framing
  import opened Chunking
  import opened Transfer
  import opened Operations
  import opened Ledger
  import opened Streams
  import opened Holdings
  import opened Interleaving
  import opened SymbolCache
  import opened SymbolSending
  import opened Pipeline
  import opened Contents
  import opened ShownCalls
  import opened SymbolSession

  // ---- Numbers and times ----

  /** Each message has the number of its place, the thread, and the time that the clock shows for that number. */
  predicate Stamped(env: Environment, m: Message, n: nat) {
    && m.header.msgNum == n && m.header.threadId == env.self
    && m.header.timeSec == env.clock(n).0 && m.header.timeUsec == env.clock(n).1
  }

  ghost predicate AllStamped(env: Environment, first: nat, ms: seq<Message>) {
    forall i :: 0 <= i < |ms| ==> Stamped(env, ms[i], first + 1 + i)
  }

  lemma SymbolsStamped(env: Environment, n: nat, addrs: seq<nat>)
    ensures AllStamped(env, n, env.SymbolMessages(n + 1, addrs))
  {
    hide Environment.InfosOf;
  }

  lemma TraceStamped(env: Environment, n: nat, origin: nat, addrs: seq<nat>)
    ensures AllStamped(env, n, [env.TraceMessage(n + 1, origin, addrs)])
  {
  }

  lemma ReportStamped(env: Environment, n: nat, call: Call)
    ensures AllStamped(env, n, [ReportOf(env, call, n + 1)])
  {
    hide Report;
    ReportDescribes(call, env.clock(n + 1).0, env.clock(n + 1).1, env.self, n + 1);
  }

  lemma HookStamped(env: Environment, slots: seq<Slot>, n: nat, hook: Hook)
    requires slots != []
    ensures AllStamped(env, n, HookMessages(env, slots, n, hook))
  {
    hide Missed, AllStamped, Environment.TraceMessage, Environment.SymbolMessages, ReportOf;
    ReportStamped(env, n, hook.call);
    if hook.trace.Some? {
      var missed := Missed(slots, hook.Looked()[..|hook.Looked()|]);
      TraceStamped(env, n + 1, n + 1, hook.Looked());
      SymbolsStamped(env, n + 2, missed);
      StampedConcat(env, n + 1, [env.TraceMessage(n + 2, n + 1, hook.Looked())], env.SymbolMessages(n + 3, missed));
      StampedConcat(env, n, [ReportOf(env, hook.call, n + 1)],
        env.TraceWithSymbols(slots, n + 1, n + 1, hook.Looked(), |hook.Looked()|));
    } else {
      assert HookMessages(env, slots, n, hook) == [ReportOf(env, hook.call, n + 1)];
    }
  }

  /** What hooks send one after the other has consecutive numbers. */
  lemma {:induction false} HookedStamped(env: Environment, size: nat, first: nat, hooks: seq<Hook>)
    requires 0 < size
    ensures var c := Hooked(env, size, first, hooks); c.msgNum == first + |c.sent| && AllStamped(env, first, c.sent)
  {
    if hooks == [] {
      assert AllStamped(env, first, []);
    } else {
      hide SymbolCache.After, HookMessages, AllStamped;
      var front, hook := hooks[..|hooks| - 1], hooks[|hooks| - 1];
      var c := Hooked(env, size, first, front);
      HookedStamped(env, size, first, front);
      HookStamped(env, c.slots, c.msgNum, hook);
      StampedConcat(env, first, c.sent, HookMessages(env, c.slots, c.msgNum, hook));
    }
  }

  lemma StampedConcat(env: Environment, first: nat, a: seq<Message>, b: seq<Message>)
    requires AllStamped(env, first, a) && AllStamped(env, first + |a|, b)
    ensures AllStamped(env, first, a + b)
  {
    hide Stamped;
    forall i | 0 <= i < |a + b| ensures Stamped(env, (a + b)[i], first + 1 + i) {
      if |a| <= i { assert Stamped(env, b[i - |a|], first + |a| + 1 + (i - |a|)); }
    }
  }

  // ---- Calls and backtraces ----

  /** The hooks that report memory. */
  function MemoryHooks(hooks: seq<Hook>): (memory: seq<Hook>) {
    if hooks == [] then []
    else
      var front, last := hooks[..|hooks| - 1], hooks[|hooks| - 1];
      MemoryHooks(front) + if last.call.ThreadCall? then [] else [last]
  }

  lemma {:induction false} MemoryHooksConcat(a: seq<Hook>, b: seq<Hook>)
    ensures MemoryHooks(a + b) == MemoryHooks(a) + MemoryHooks(b)
  {
    if b == [] {
      assert a + b == a;
    } else {
      assert (a + b)[..|a + b| - 1] == a + b[..|b| - 1];
      MemoryHooksConcat(a, b[..|b| - 1]);
    }
  }

  /** Thread hooks take no backtrace. */
  ghost predicate OnlyMemoryTraced(hooks: seq<Hook>) {
    forall i :: 0 <= i < |hooks| && hooks[i].call.ThreadCall? ==> hooks[i].trace.None?
  }

  /** The backtrace of a hook, as one of the operation with that number. */
  function TraceOf(hook: Hook, num: nat): (trace: Option<Trace>) {
    if hook.trace.Some? then Some(Trace(num, hook.trace.value)) else None
  }

  predicate HookTold(env: Environment, m: Message, hook: Hook, ms: seq<Message>) {
    && m.header.threadId == env.self && Describes(m, hook.call)
    && TraceFor(ms, m.header.msgNum) == TraceOf(hook, m.header.msgNum)
  }

  /** The memory messages of a list are the reports of these hooks, with their backtraces. */
  ghost predicate HooksTold(env: Environment, ms: seq<Message>, hooks: seq<Hook>, n: nat) {
    && Traceable(ms) && |InMemory(ms)| == |hooks| && MemoryNums(ms) == Nums(InMemory(ms))
    && (forall k :: 0 <= k < |hooks| ==>
         InMemory(ms)[k].header.msgNum <= n && HookTold(env, InMemory(ms)[k], hooks[k], ms))
    && (ms != [] && ms[|ms| - 1].BacktraceMessage? ==>
         hooks != [] && ms[|ms| - 1].originMsgNum == InMemory(ms)[|hooks| - 1].header.msgNum)
  }

  function Nums(ms: seq<Message>): (nums: seq<nat>) {
    seq(|ms|, k requires 0 <= k < |ms| => ms[k].header.msgNum)
  }

  lemma InMemorySnoc(ms: seq<Message>, m: Message)
    ensures InMemory(ms + [m]) == InMemory(ms) + if m.MemoryMessage? then [m] else []
    ensures Nums(InMemory(ms + [m])) == Nums(InMemory(ms)) + if m.MemoryMessage? then [m.header.msgNum] else []
  {
    assert (ms + [m])[..|ms|] == ms;
  }

  lemma ReportTold(env: Environment, ms: seq<Message>, hooks: seq<Hook>, n: nat, hook: Hook)
    requires HooksTold(env, ms, hooks, n)
    ensures var told := ms + [ReportOf(env, hook.call, n + 1)];
      HooksTold(env, told, hooks + if hook.call.ThreadCall? then [] else [Hook(hook.call, None)], n + 1)
  {
    hide InMemory, TraceFor, Traceable, MemoryNums, Describes;
    var m := ReportOf(env, hook.call, n + 1);
    ReportDescribes(hook.call, env.clock(n + 1).0, env.clock(n + 1).1, env.self, n + 1);
    InMemorySnoc(ms, m);
    TraceableNums(ms);
    IsMemory(m, hook.call);
    forall num: nat ensures TraceFor(ms + [m], num) == TraceFor(ms, num) { TraceForSnoc(ms, m, num); }
    TraceForSnoc(ms, m, n + 1);
    assert n + 1 !in MemoryNums(ms);
  }

  lemma IsMemory(m: Message, call: Call)
    requires Describes(m, call)
    ensures m.MemoryMessage? <==> !call.ThreadCall?
    ensures !m.BacktraceMessage?
  {
  }

  lemma TraceTold(env: Environment, ms: seq<Message>, hooks: seq<Hook>, n: nat, call: Call, addrs: seq<nat>)
    requires HooksTold(env, ms, hooks + [Hook(call, None)], n)
    requires InMemory(ms)[|hooks|].header.msgNum == n
    ensures HooksTold(env, ms + [env.TraceMessage(n + 1, n, addrs)], hooks + [Hook(call, Some(addrs))], n + 1)
  {
    hide InMemory, TraceFor, Traceable, MemoryNums, Describes;
    var m, old', all := env.TraceMessage(n + 1, n, addrs), hooks + [Hook(call, None)],
      hooks + [Hook(call, Some(addrs))];
    InMemorySnoc(ms, m);
    TraceableNums(ms);
    assert HookTold(env, InMemory(ms)[|hooks|], old'[|hooks|], ms);
    assert MemoryNums(ms)[|hooks|] == n;
    TraceForSnoc(ms, m, n);
    forall k | 0 <= k < |all| ensures HookTold(env, InMemory(ms)[k], all[k], ms + [m]) {
      TraceForSnoc(ms, m, InMemory(ms)[k].header.msgNum);
      assert HookTold(env, InMemory(ms)[k], old'[k], ms);
      assert k < |hooks| ==> MemoryNums(ms)[k] != MemoryNums(ms)[|hooks|];
    }
  }

  lemma {:induction false} SymbolsTold(env: Environment, ms: seq<Message>, hooks: seq<Hook>, n: nat,
    symbols: seq<Message>)
    requires HooksTold(env, ms, hooks, n) && forall i :: 0 <= i < |symbols| ==> symbols[i].SymbolMessage?
    ensures HooksTold(env, ms + symbols, hooks, n + |symbols|)
  {
    if symbols == [] {
      assert ms + symbols == ms;
    } else {
      hide HooksTold;
      var front, m := symbols[..|symbols| - 1], symbols[|symbols| - 1];
      SymbolsTold(env, ms, hooks, n, front);
      assert ms + symbols == (ms + front) + [m];
      SymbolTold(env, ms + front, hooks, n + |front|, m);
    }
  }

  lemma SymbolTold(env: Environment, ms: seq<Message>, hooks: seq<Hook>, n: nat, m: Message)
    requires HooksTold(env, ms, hooks, n) && m.SymbolMessage?
    ensures HooksTold(env, ms + [m], hooks, n + 1)
  {
    hide InMemory, TraceFor, Traceable, MemoryNums, Describes;
    InMemorySnoc(ms, m);
    TraceForSnoc(ms, m, 0);
    forall num: nat ensures TraceFor(ms + [m], num) == TraceFor(ms, num) { TraceForSnoc(ms, m, num); }
  }

  /** One more hook. */
  lemma OneHookTold(env: Environment, slots: seq<Slot>, ms: seq<Message>, hooks: seq<Hook>, n: nat, hook: Hook)
    requires slots != [] && HooksTold(env, ms, hooks, n) && (hook.call.ThreadCall? ==> hook.trace.None?)
    ensures var sent := HookMessages(env, slots, n, hook);
      HooksTold(env, ms + sent, hooks + if hook.call.ThreadCall? then [] else [hook], n + |sent|)
  {
    hide HooksTold, InMemory, Environment.TraceMessage, ReportOf, Missed;
    var report, addrs := ReportOf(env, hook.call, n + 1), hook.Looked();
    ReportTold(env, ms, hooks, n, hook);
    if hook.trace.Some? {
      LastReported(env, ms, hooks, n, hook.call);
      TraceTold(env, ms + [report], hooks, n + 1, hook.call, addrs);
      var trace, symbols := env.TraceMessage(n + 2, n + 1, addrs),
        env.SymbolMessages(n + 3, Missed(slots, addrs[..|addrs|]));
      SymbolsTold(env, ms + [report] + [trace], hooks + [hook], n + 2, symbols);
      assert ms + HookMessages(env, slots, n, hook) == ms + [report] + [trace] + symbols;
    } else {
      assert HookMessages(env, slots, n, hook) == [report];
      assert hook == Hook(hook.call, None);
    }
  }

  lemma LastReported(env: Environment, ms: seq<Message>, hooks: seq<Hook>, n: nat, call: Call)
    requires HooksTold(env, ms, hooks, n) && !call.ThreadCall?
    ensures var m := ReportOf(env, call, n + 1);
      |InMemory(ms + [m])| == |hooks| + 1 && InMemory(ms + [m])[|hooks|].header.msgNum == n + 1
  {
    var m := ReportOf(env, call, n + 1);
    ReportDescribes(call, env.clock(n + 1).0, env.clock(n + 1).1, env.self, n + 1);
    InMemorySnoc(ms, m);
  }

  lemma {:induction false} HookedTold(env: Environment, size: nat, first: nat, hooks: seq<Hook>, ms: seq<Message>,
    before: seq<Hook>)
    requires 0 < size && HooksTold(env, ms, before, first) && OnlyMemoryTraced(hooks)
    ensures var c := Hooked(env, size, first, hooks);
      HooksTold(env, ms + c.sent, before + MemoryHooks(hooks), c.msgNum)
  {
    hide HooksTold, HookMessages, SymbolCache.After;
    if hooks == [] {
      assert ms + [] == ms && before + [] == before;
    } else {
      var front, hook := hooks[..|hooks| - 1], hooks[|hooks| - 1];
      var c := Hooked(env, size, first, front);
      assert forall i :: 0 <= i < |front| ==> front[i] == hooks[i];
      HookedTold(env, size, first, front, ms, before);
      OneHookTold(env, c.slots, ms + c.sent, before + MemoryHooks(front), c.msgNum, hook);
      assert ms + Hooked(env, size, first, hooks).sent == (ms + c.sent) + HookMessages(env, c.slots, c.msgNum, hook);
      assert before + MemoryHooks(hooks) ==
        (before + MemoryHooks(front)) + if hook.call.ThreadCall? then [] else [hook];
    }
  }

  lemma NothingTold(env: Environment, n: nat)
    ensures HooksTold(env, [], [], n)
  {
  }

  lemma MoreNumbers(env: Environment, ms: seq<Message>, hooks: seq<Hook>, n: nat)
    requires HooksTold(env, ms, hooks, n)
    ensures HooksTold(env, ms, hooks, n + 1)
  {
  }

  /** All that a sitting sends but its opening. */
  lemma SittingTold(s: Sitting)
    requires 0 < s.size && OnlyMemoryTraced(s.before) && OnlyMemoryTraced(s.hooks)
    ensures HooksTold(s.env, s.Early().sent + s.Rest().sent, MemoryHooks(s.before + s.hooks), s.Rest().msgNum)
  {
    hide HooksTold, Hooked, MemoryHooks;
    NothingTold(s.env, 0);
    HookedTold(s.env, s.size, 0, s.before, [], []);
    assert [] + s.Early().sent == s.Early().sent && [] + MemoryHooks(s.before) == MemoryHooks(s.before);
    MoreNumbers(s.env, s.Early().sent, MemoryHooks(s.before), s.Early().msgNum);
    HookedTold(s.env, s.size, s.Early().msgNum + 1, s.hooks, s.Early().sent, MemoryHooks(s.before));
    MemoryHooksConcat(s.before, s.hooks);
  }

  // ---- On the server ----

  /** What an operation shows of a hook; the last backtrace may not have got through. */
  predicate ShowsHook(o: Operation, self: nat, hook: Hook, lost: bool) {
    && ShowsCall(o, self, hook.call)
    && o.backtrace == if lost then None else TraceOf(hook, o.msgNum)
  }

  /** End to end: when everything written has been read, the k-th operation that the server shows is that of the k-th
      memory hook, with its call and the addresses of its backtrace - but for a backtrace that was the very last
      message. */
  lemma ServerShowsHooks(l: Ledger, s: Sitting, chunks: seq<seq<byte>>, k: nat)
    requires l.Valid() && s.Fits() && s.ReadAs(chunks) && OnlyMemoryTraced(s.before) && OnlyMemoryTraced(s.hooks)
    ensures |ServerAfter(l, chunks).book.ops| == |MemoryHooks(s.before + s.hooks)|
    ensures k < |MemoryHooks(s.before + s.hooks)| ==>
      var hooks := MemoryHooks(s.before + s.hooks);
      ShowsHook(ServerAfter(l, chunks).book.ops[k], s.env.self, hooks[k], Held(s.Sent()) == 1 && k == |hooks| - 1)
  {
    hide *;
    SittingFed(l, s, chunks);
    SittingTold(s);
    var told, hooks := s.Early().sent + s.Rest().sent, MemoryHooks(s.before + s.hooks);
    var ms, opened' := Delivered(s.Sent())[1..], l.Handle(OnNewConnection);
    DeliveredTold(s.env, told, ms, hooks, s.Rest().msgNum, Held(s.Sent()));
    MemoryMessages(opened', ms);
    BacktracesAttached(opened', ms);
    if k < |hooks| {
      TracedAt(Feed(opened', ms).book.ops, ms, k);
      HookShown(s.env.self, Feed(opened', ms).book.ops[k], InMemory(ms)[k], hooks[k], ms,
        Held(s.Sent()) == 1 && k == |hooks| - 1);
    }
  }

  lemma SittingFed(l: Ledger, s: Sitting, chunks: seq<seq<byte>>)
    requires l.Valid() && s.Fits() && s.ReadAs(chunks)
    ensures 0 < s.size && Delivered(s.Sent()) != [] && l.Handle(OnNewConnection).book == NoBook()
    ensures var told, ms := s.Early().sent + s.Rest().sent, Delivered(s.Sent())[1..];
      && AllOrdinary(ms) && ServerAfter(l, chunks) == Feed(l.Handle(OnNewConnection), ms)
      && ms == told[..|told| - Held(s.Sent())]
      && (Held(s.Sent()) == 1 ==> told != [] && told[|told| - 1].BacktraceMessage?)
  {
    hide Hooked, WellFormed, Ordinary, Environment.Fits, HooksFit, Receive, Run, Session, AllRead, Steps, Flatten;
    AllSent(s);
    SessionReadUp(s.Early().sent, s.fd, s.Greeting(), s.Rest().sent, chunks);
    AllSentFits(s);
    DeliveredFirst(s.Sent());
    OpeningClears(l, Delivered(s.Sent()));
    var told := s.Early().sent + s.Rest().sent;
    assert s.Sent() == [s.Greeting()] + told;
    if Held(s.Sent()) == 1 {
      assert WellFormed(s.Sent()[|told|]);
      HeldIsBacktrace(s.Sent()[|told|]);
      assert told != [];
    }
  }

  /** What gets through still tells of all the hooks, but for the backtrace that is lost. */
  lemma DeliveredTold(env: Environment, told: seq<Message>, ms: seq<Message>, hooks: seq<Hook>, n: nat, held: nat)
    requires HooksTold(env, told, hooks, n) && held <= 1 && held <= |told| && ms == told[..|told| - held]
    requires held == 1 ==> told[|told| - 1].BacktraceMessage?
    ensures Traceable(ms) && |InMemory(ms)| == |hooks| && MemoryNums(ms) == Nums(InMemory(ms))
    ensures forall k :: 0 <= k < |hooks| ==>
      var m := InMemory(ms)[k];
      && m.header.threadId == env.self && Describes(m, hooks[k].call)
      && TraceFor(ms, m.header.msgNum) == if held == 1 && k == |hooks| - 1 then None
        else TraceOf(hooks[k], m.header.msgNum)
  {
    hide InMemory, TraceFor, Traceable, MemoryNums, Describes;
    if held == 0 {
      assert ms == told;
    } else {
      var last := told[|told| - 1];
      assert told == ms + [last];
      InMemorySnoc(ms, last);
      TraceForSnoc(ms, last, last.originMsgNum);
      TraceableNums(told);
      assert MemoryNums(ms) + [] == MemoryNums(ms) && Nums(InMemory(ms)) + [] == Nums(InMemory(ms));
      assert InMemory(ms) + [] == InMemory(ms);
      forall k | 0 <= k < |hooks| ensures var m := InMemory(ms)[k];
        TraceFor(ms, m.header.msgNum) == if k == |hooks| - 1 then None else TraceOf(hooks[k], m.header.msgNum)
      {
        TraceForSnoc(ms, last, InMemory(ms)[k].header.msgNum);
        assert HookTold(env, InMemory(told)[k], hooks[k], told);
        assert k < |hooks| - 1 ==> MemoryNums(told)[k] != MemoryNums(told)[|hooks| - 1];
      }
      forall k | 0 <= k < |hooks| ensures var m := InMemory(ms)[k];
        m.header.threadId == env.self && Describes(m, hooks[k].call)
      {
        assert HookTold(env, InMemory(told)[k], hooks[k], told);
      }
    }
  }

  lemma TracedAt(ops: seq<Operation>, ms: seq<Message>, k: nat)
    requires Traced(ops, ms) && k < |ops|
    ensures ops[k].backtrace == TraceFor(ms, ops[k].msgNum)
  {
  }

  lemma HookShown(self: nat, o: Operation, m: Message, hook: Hook, ms: seq<Message>, lost: bool)
    requires StandsFor(o, m) && m.header.threadId == self && Describes(m, hook.call)
    requires TraceFor(ms, m.header.msgNum) == if lost then None else TraceOf(hook, m.header.msgNum)
    requires o.backtrace == TraceFor(ms, o.msgNum)
    ensures ShowsHook(o, self, hook, lost)
  {
  }
}
