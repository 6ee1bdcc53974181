/** What becomes of messages whatever opening the connection returned, and after it has been disposed of. */
module Connections {
  import opened Packed
  import opened Sequences
  import opened Messages
  import opened Transfer

  /** The bytes the operating system got, and behind them those that wait in the transfer buffer. */
  function Outgoing(l: Link): (s: seq<byte>) {
    Flatten(l.writes) + l.pending
  }

  /** Messages sent before an opening, the opening with whatever came back, and messages sent after it. */
  function Attempt(before: seq<Message>, fd: Option<int>, appMessage: Message, after: seq<Message>): (l: Link)
    requires AllWellFormed(before) && WellFormed(appMessage) && AllWellFormed(after)
  {
    SendAllSafe(SendAllSafe(NewLink(), before).Open(fd, Encode(appMessage)), after)
  }

  /** Without a pipe, or when it cannot be opened, nothing is written, ever: every message stays in the pre-init
      buffer, the opening is not sent, and disposing changes nothing. */
  lemma FailedOpening(before: seq<Message>, fd: Option<int>, appMessage: Message, after: seq<Message>)
    requires AllWellFormed(before) && WellFormed(appMessage) && AllWellFormed(after)
    requires fd.None? || fd.value == NO_SOCKET
    ensures AllWellFormed(before + after)
    ensures var l := Attempt(before, fd, appMessage, after);
      && l.writes == [] && l.pending == [] && l.preInit == EncodeAll(before + after)
      && l.Close() == l
  {
    hide Encode, EncodeAll, WellFormed, SendAllSafe;
    SendAllSafePreInit(NewLink(), before);
    SendAllSafePreInit(SendAllSafe(NewLink(), before).Open(fd, Encode(appMessage)), after);
    EncodeAllConcat(before, after);
  }

  /** A descriptor of 0 counts as a failure for the opening but as a socket for what follows: the opening is not
      sent, what was sent before it is never written, and later messages go out behind nothing. */
  lemma ZeroDescriptor(before: seq<Message>, appMessage: Message, after: seq<Message>)
    requires AllWellFormed(before) && WellFormed(appMessage) && AllWellFormed(after)
    ensures var l := Attempt(before, Some(0), appMessage, after);
      Outgoing(l) == EncodeAll(after) && l.preInit == EncodeAll(before)
  {
    hide Encode, EncodeAll, WellFormed, SendAllSafe, Flatten;
    SendAllSafePreInit(NewLink(), before);
    var l := SendAllSafe(NewLink(), before).Open(Some(0), Encode(appMessage));
    NothingOut(l);
    OpenSends(l, after);
  }

  /** With a pipe, the opening goes first, then what was sent before it, then the rest: nothing is held back. */
  lemma GoodDescriptor(before: seq<Message>, fd: int, appMessage: Message, after: seq<Message>)
    requires AllWellFormed(before) && WellFormed(appMessage) && AllWellFormed(after) && 0 < fd
    ensures var l := Attempt(before, Some(fd), appMessage, after);
      Outgoing(l) == Encode(appMessage) + EncodeAll(before) + EncodeAll(after) && l.preInit == []
  {
    hide Encode, EncodeAll, WellFormed, SendAllSafe, Flatten, GroupImages, OpeningGroups, Link.Open;
    var l := SendAllSafe(NewLink(), before).Open(Some(fd), Encode(appMessage));
    OpenWrites(before, fd, appMessage);
    ImagesFlatten(OpeningGroups(before, appMessage));
    OpeningFlatten(before, appMessage);
    EncodeOne(appMessage);
    EncodeAllConcat([appMessage], before);
    assert Outgoing(l) == Flatten(l.writes);
    OpenSends(l, after);
  }

  /** All that is sent goes out, the opening in front, exactly when the descriptor is positive. */
  lemma AllGoesOutExactly(before: seq<Message>, fd: Option<int>, appMessage: Message, after: seq<Message>)
    requires AllWellFormed(before) && WellFormed(appMessage) && AllWellFormed(after)
    requires fd.Some? ==> -1 <= fd.value
    ensures (Outgoing(Attempt(before, fd, appMessage, after)) ==
             Encode(appMessage) + EncodeAll(before) + EncodeAll(after)) <==> (fd.Some? && 0 < fd.value)
  {
    hide Encode, EncodeAll, WellFormed, Outgoing, Attempt;
    if fd.None? || fd.value == -1 {
      FailedOpening(before, fd, appMessage, after);
      NothingOut(Attempt(before, fd, appMessage, after));
    } else if fd.value == 0 {
      ZeroDescriptor(before, appMessage, after);
    } else {
      GoodDescriptor(before, fd.value, appMessage, after);
    }
  }

  lemma NothingOut(l: Link)
    requires l.writes == [] && l.pending == []
    ensures Outgoing(l) == []
  {
  }

  lemma OutgoingSend(l: Link, data: seq<byte>)
    requires l.buffered || l.pending == []
    ensures Outgoing(l.Send(data)) == Outgoing(l) + data
  {
    hide Flatten;
    FlattenSnoc(l.writes, l.pending);
    FlattenSnoc(l.writes, data);
  }

  /** With a socket, what is sent comes behind what was sent before, and the pre-init buffer is left alone. */
  lemma {:induction false} OpenSends(l: Link, ms: seq<Message>)
    requires AllWellFormed(ms) && l.socket != NO_SOCKET && l.buffered
    ensures var l' := SendAllSafe(l, ms);
      && Outgoing(l') == Outgoing(l) + EncodeAll(ms)
      && l'.preInit == l.preInit && l'.socket == l.socket && l'.buffered
  {
    hide Encode, EncodeAll, WellFormed, Outgoing;
    if ms == [] {
      EncodeNone(ms);
    } else {
      var front, m := ms[..|ms| - 1], ms[|ms| - 1];
      OpenSends(l, front);
      OutgoingSend(SendAllSafe(l, front), Encode(m));
      EncodeOne(m);
      EncodeAllConcat(front, [m]);
      assert ms == front + [m];
    }
  }

  // ---- After the disposal ----

  /** Disposing writes what waited and ends the buffering: every later message is a write of its own, at once.
      Disposing again writes nothing more, though the buffer still counts the bytes already written. */
  lemma {:induction false} DisposedWritesAtOnce(l: Link, ms: seq<Message>)
    requires AllWellFormed(ms) && l.socket != NO_SOCKET && l.buffered
    ensures l.Close().Close() == l.Close()
    ensures SendAllSafe(l.Close(), ms).writes == l.writes + [l.pending] + Images(ms)
    ensures var l' := SendAllSafe(l.Close(), ms);
      !l'.buffered && !l'.init && l'.socket == l.socket && l'.pending == l.pending && l'.preInit == l.preInit
  {
    hide Encode, WellFormed;
    if ms == [] {
    } else {
      var front, m := ms[..|ms| - 1], ms[|ms| - 1];
      DisposedWritesAtOnce(l, front);
      assert Images(ms) == Images(front) + [Encode(m)];
    }
  }
}
