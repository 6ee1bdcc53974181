/** What the reader does with a message of another version: it stops there, and what came before stands. */
module Versions {
  import opened Packed
  import opened Messages
  import opened Framing
  import opened Chunking
  import opened WireFormat

  /** The first two bytes, the lower one first, are not those of version 1. */
  predicate OtherVersion(s: seq<byte>) {
    2 <= |s| && !(s[0] == 1 && s[1] == 0)
  }

  /** A message is refused exactly for its two version bytes, whatever follows them. */
  lemma RefusedExactly(s: seq<byte>)
    ensures Parse(s).Unsupported? <==> OtherVersion(s)
  {
    hide GetInt, Unpack, DecodeCalls, HeaderLayout, DataLayout;
    if 2 <= |s| {
      TwoBytes(s[..VERSION_SIZE]);
    }
  }

  lemma TwoBytes(v: seq<byte>)
    requires |v| == 2
    ensures GetInt(v) == v[0] as int + 256 * v[1] as int
  {
    assert |v[1..]| == 1 && |v[1..][1..]| == 0;
    assert GetInt(v[1..]) == v[1] as int + 256 * GetInt(v[1..][1..]);
  }

  /** Messages before another version are handed over, and nothing behind it is. (A backtrace counts only if 31 bytes
      follow it.) */
  lemma {:induction false} DrainStops(ms: seq<Message>, tail: seq<byte>)
    requires AllWellFormed(ms) && OtherVersion(tail) && (Held(ms) == 0 || 31 <= |tail|)
    ensures Drain(EncodeAll(ms) + tail) == Drained(|EncodeAll(ms)|, true, Steps(ms))
  {
    hide EncodeAll, Encode, WellFormed, Drain, CallsOf, Needed, Length, Steps, Held, OtherVersion;
    if ms == [] {
      EncodeNothing();
      assert EncodeAll(ms) + tail == tail;
      DrainRefused(tail);
      NothingReady(ms, 0);
      assert ms[..0] == ms;
    } else {
      var rest := EncodeAll(ms[1..]) + tail;
      EncodeAllStep(ms);
      HeldBehind(ms);
      DrainStops(ms[1..], tail);
      assert EncodeAll(ms) + tail == Encode(ms[0]) + rest;
      BehindIsLong(ms, tail);
      DrainFirst(ms[0], rest);
      StepsFirst(ms, |ms|);
      assert ms[..|ms|] == ms && ms[1..][..|ms| - 1] == ms[1..];
    }
  }

  lemma DrainRefused(tail: seq<byte>)
    requires OtherVersion(tail)
    ensures Drain(tail) == Drained(0, true, [])
  {
    hide Parse;
    RefusedExactly(tail);
  }

  lemma DrainFirst(m: Message, rest: seq<byte>)
    requires WellFormed(m) && Needed(m) <= |Encode(m) + rest|
    ensures Drain(Encode(m) + rest) ==
            var d := Drain(rest);
            Drained(Length(m) + d.used, d.unsupported, [CallsOf(m)] + d.steps)
  {
    hide Encode, Drain, CallsOf, Needed, WellFormed;
    DrainStep(m, rest, |Encode(m) + rest|);
    assert (Encode(m) + rest)[..|Encode(m) + rest|] == Encode(m) + rest && rest[..|rest|] == rest;
  }

  lemma EncodeNothing()
    ensures EncodeAll([]) == []
  {
  }

  lemma HeldBehind(ms: seq<Message>)
    requires ms != []
    ensures ms[1..] != [] ==> Held(ms[1..]) == Held(ms)
    ensures ms[1..] == [] ==> Held(ms[1..]) == 0 && (Held(ms) == 0 ==> KindOf(ms[0].header.msgCode) != Backtrace)
  {
  }

  /** What follows the first message is long enough for it to be recognised. */
  lemma BehindIsLong(ms: seq<Message>, tail: seq<byte>)
    requires AllWellFormed(ms) && ms != [] && (Held(ms) == 0 || 31 <= |tail|)
    ensures Needed(ms[0]) <= |Encode(ms[0])| + |EncodeAll(ms[1..])| + |tail|
  {
    hide Encode, WellFormed;
    if ms[1..] != [] {
      EncodeAllStep(ms[1..]);
    }
  }

  /** The reader makes no further read, whatever the device still holds. */
  lemma ReaderStops(ms: seq<Message>, tail: seq<byte>, carry: seq<byte>, chunks: seq<seq<byte>>)
    requires AllWellFormed(ms) && OtherVersion(tail) && (Held(ms) == 0 || 31 <= |tail|)
    requires chunks != [] && chunks[0] != [] && carry + chunks[0] == EncodeAll(ms) + tail
    ensures Receive(carry, chunks).steps == Steps(ms) && Receive(carry, chunks).made == 1
  {
    hide Drain, EncodeAll;
    DrainStops(ms, tail);
  }

  // ---- What the code says ----

  /** The kind of a message is in the tens of its code, byte 30: that fixes how many bytes are taken, and the one call
      that is made. Codes of no kind are skipped with the header alone, but for 1, which is a new connection. */
  lemma CodeDecides(s: seq<byte>)
    requires 467 <= |s| && s[0] == 1 && s[1] == 0
    ensures Parse(s).Complete?
    ensures var size, calls, tens := Parse(s).size, Parse(s).calls, s[30] / 10;
      && (tens == 1 ==> size == 59 && |calls| == 1 && calls[0].OnMemoryOperation?)
      && (tens == 3 ==> size == 63 && |calls| == 1 && calls[0].OnThreadOperation?)
      && (tens == 4 ==> size == 436 && |calls| == 1 && calls[0].OnBacktrace?)
      && (tens == 5 ==> size == 407 && |calls| == 1 && calls[0].OnSymbolInfos?)
      && (tens !in {1, 3, 4, 5} ==> size == 31 && calls == if s[30] == 1 then [OnNewConnection] else [])
  {
    hide Unpack, DataLayout, GetInt;
    TwoBytes(s[..VERSION_SIZE]);
    var v := s[VERSION_SIZE..];
    CodeRead(v);
    LayoutSizes(App);
    var h := HeaderFrom(Unpack(HeaderLayout(), v));
    LayoutSizes(KindOf(h.msgCode));
  }

  lemma CodeRead(v: seq<byte>)
    requires 29 <= |v|
    ensures Size(HeaderLayout()) == 29 && Unpack(HeaderLayout(), v)[4] == v[28]
  {
    hide Unpack;
    LayoutSizes(App);
    FieldRead(HeaderLayout(), v, 4);
    HeaderOffsets();
    OneByte(v[28..29]);
  }

  lemma OneByte(v: seq<byte>)
    requires |v| == 1
    ensures GetInt(v) == v[0]
  {
    assert |v[1..]| == 0;
  }

  // ---- The message counter ----

  /** The counter is the number of messages since the last new connection, that one included. */
  lemma {:induction false} CountedSince(count: nat, steps: seq<seq<HandlerCall>>, k: nat)
    requires k < |steps| && steps[k] == [OnNewConnection]
    requires forall i :: k < i < |steps| ==> steps[i] != [OnNewConnection]
    ensures CountAfter(count, steps) == |steps| - k
    decreases |steps|
  {
    if k == 0 {
      CountedOn(1, steps[1..]);
    } else {
      CountedSince(if steps[0] == [OnNewConnection] then 1 else count + 1, steps[1..], k - 1);
    }
  }

  /** Without one it goes on. */
  lemma {:induction false} CountedOn(count: nat, steps: seq<seq<HandlerCall>>)
    requires forall i :: 0 <= i < |steps| ==> steps[i] != [OnNewConnection]
    ensures CountAfter(count, steps) == count + |steps|
    decreases |steps|
  {
    if steps == [] {
    } else {
      CountedOn(count + 1, steps[1..]);
    }
  }
}
