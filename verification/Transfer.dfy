/** The client's side of the connection: messages are batched in a transfer buffer and written when it is full. */
module Transfer {
  import opened Packed
  import opened Sequences
  import opened Messages

  const BUFFER_SIZE := 4096
  const NO_SOCKET := -1

  /** The state of the connection on values: `writes` are the physical writes so far, `pending` the used part of the
      transfer buffer, `preInit` what was sent before there was a socket. */
  datatype Link = Link(socket: int, init: bool, buffered: bool, writes: seq<seq<byte>>, pending: seq<byte>,
    preInit: seq<byte>) {

    function Send(data: seq<byte>): (l: Link) {
      if !buffered then this.(writes := writes + [data])
      else if BUFFER_SIZE <= |pending| + |data| then this.(writes := writes + [pending], pending := data)
      else this.(pending := pending + data)
    }

    function SendSafe(data: seq<byte>): (l: Link) {
      if socket != NO_SOCKET then Send(data) else this.(preInit := preInit + data)
    }

    /** Opening the connection: `fd` is what opening the pipe returned, none if there is no pipe. */
    function Open(fd: Option<int>, appMessage: seq<byte>): (l: Link) {
      var connected := if fd.Some? then this.(socket := fd.value) else this;
      var greeted := if fd.Some? && 0 < fd.value then connected.SendSafe(appMessage) else connected;
      var flushed := if fd.Some? && 0 < fd.value && greeted.preInit != [] then
        greeted.Send(greeted.preInit).(preInit := []) else greeted;
      flushed.(buffered := true, init := true)
    }

    /** The transfer buffer is written out, but its used size is not set back. */
    function Close(): (l: Link) {
      if socket == NO_SOCKET then this
      else if buffered then this.(writes := writes + [pending], buffered := false, init := false)
      else this.(init := false)
    }
  }

  function NewLink(): (l: Link) { Link(NO_SOCKET, false, false, [], [], []) }

  /** The globals of the client's communication layer. */
  class ServerComm {
    var init: bool
    var socket: int
    var msgNum: nat
    var transferBufferEnabled: bool
    const transferBuffer: array<byte>
    var transferBufferSize: nat
    const preInitBuffer: array<byte>
    var preInitPos: nat
    /** The bytes handed to the operating system, write by write. */
    var writes: seq<seq<byte>>

    ghost predicate Valid()
      reads this
    {
      && transferBuffer.Length == preInitBuffer.Length == BUFFER_SIZE
      && transferBuffer != preInitBuffer
      && transferBufferSize <= BUFFER_SIZE && preInitPos <= BUFFER_SIZE
    }

    ghost function Value(): (l: Link)
      reads this, transferBuffer, preInitBuffer
      requires Valid()
    {
      Link(socket, init, transferBufferEnabled, writes, transferBuffer[..transferBufferSize],
        preInitBuffer[..preInitPos])
    }

    constructor ()
      ensures Valid() && Value() == NewLink() && msgNum == 0
      ensures fresh(transferBuffer) && fresh(preInitBuffer)
    {
      init, socket, msgNum, transferBufferEnabled, writes := false, NO_SOCKET, 0, false, [];
      transferBuffer := new byte[BUFFER_SIZE];
      preInitBuffer := new byte[BUFFER_SIZE];
      transferBufferSize, preInitPos := 0, 0;
    }

    method SendPhysical(data: seq<byte>)
      requires Valid()
      modifies this`writes
      ensures writes == old(writes) + [data]
    {
      writes := writes + [data];
    }

    method Send(data: seq<byte>)
      requires Valid() && |data| <= BUFFER_SIZE
      modifies this`writes, this`transferBufferSize, transferBuffer
      ensures Valid() && Value() == old(Value()).Send(data)
    {
      if transferBufferEnabled {
        var sendBuffer := false;
        if transferBufferSize + |data| >= BUFFER_SIZE {
          sendBuffer := true;
        }
        if sendBuffer {
          SendPhysical(transferBuffer[..transferBufferSize]);
          transferBufferSize := 0;
        }
        CopyTo(transferBuffer, transferBufferSize, data);
        transferBufferSize := transferBufferSize + |data|;
      } else {
        SendPhysical(data);
      }
    }

    static method CopyTo(buffer: array<byte>, at: nat, data: seq<byte>)
      requires at + |data| <= buffer.Length
      modifies buffer
      ensures buffer[..at + |data|] == old(buffer[..at]) + data
    {
      forall i | 0 <= i < |data| {
        buffer[at + i] := data[i];
      }
    }

    method SendSafe(data: seq<byte>)
      requires Valid() && |data| <= BUFFER_SIZE
      requires socket == NO_SOCKET ==> preInitPos + |data| <= BUFFER_SIZE
      modifies this`writes, this`transferBufferSize, this`preInitPos, transferBuffer, preInitBuffer
      ensures Valid() && Value() == old(Value()).SendSafe(data)
    {
      if socket != NO_SOCKET {
        Send(data);
      } else {
        CopyTo(preInitBuffer, preInitPos, data);
        preInitPos := preInitPos + |data|;
      }
    }

    /** A header for a new message; every one gets the next number. */
    method MsgHeaderInit(timeSec: nat, timeUsec: nat, self: nat) returns (h: Header)
      modifies this`msgNum
      ensures msgNum == old(msgNum) + 1
      ensures h == Header(timeSec, timeUsec, self, msgNum, CODE_INIT)
    {
      msgNum := msgNum + 1;
      h := Header(timeSec, timeUsec, self, msgNum, CODE_INIT);
    }

    /** `fd` is what opening the pipe returned, none if the pipe does not exist. */
    method Init(fd: Option<int>, timeSec: nat, timeUsec: nat, self: nat) returns (res: int)
      requires Valid() && !transferBufferEnabled && Is64(timeSec) && Is64(timeUsec) && Is64(self) && Is32(msgNum + 1)
      requires fd.Some? ==> -1 <= fd.value
      requires socket == NO_SOCKET
      modifies this, transferBuffer, preInitBuffer
      ensures Valid()
      ensures res == 0 <==> fd.Some? && 0 < fd.value
      ensures msgNum == if res == 0 then old(msgNum) + 1 else old(msgNum)
      ensures var m := AppMessage(Header(timeSec, timeUsec, self, old(msgNum) + 1, CODE_INIT));
        WellFormed(m) && Value() == old(Value()).Open(fd, Encode(m))
    {
      hide Encode;
      res := 0;
      if fd.Some? {
        socket := fd.value;
        if socket <= 0 {
          res := -1;
        }
      } else {
        res := -1;
      }
      if res == 0 {
        var header := MsgHeaderInit(timeSec, timeUsec, self);
        SendSafe(Encode(AppMessage(header)));
      }
      if res == 0 {
        if preInitPos > 0 {
          Send(preInitBuffer[..preInitPos]);
          preInitPos := 0;
        }
      }
      transferBufferEnabled := true;
      init := true;
    }

    method Dispose()
      requires Valid()
      modifies this`writes, this`transferBufferEnabled, this`init
      ensures Valid() && Value() == old(Value()).Close()
    {
      if socket != NO_SOCKET {
        if transferBufferEnabled {
          SendPhysical(transferBuffer[..transferBufferSize]);
          transferBufferEnabled := false;
        }
        init := false;
      }
    }
  }

  // ---- Batching, for every list of messages ----

  function SendAll(l: Link, ms: seq<Message>): (l': Link)
    requires AllWellFormed(ms)
  {
    if ms == [] then l else SendAll(l, ms[..|ms| - 1]).Send(Encode(ms[|ms| - 1]))
  }

  function SendAllSafe(l: Link, ms: seq<Message>): (l': Link)
    requires AllWellFormed(ms)
  {
    if ms == [] then l else SendAllSafe(l, ms[..|ms| - 1]).SendSafe(Encode(ms[|ms| - 1]))
  }

  /** The same, in whole messages: which of them went out together, and which still wait. */
  datatype Batches = Batches(written: seq<seq<Message>>, waiting: seq<Message>)

  function Batch(ms: seq<Message>): (b: Batches)
    ensures AllWellFormed(ms) ==> AllWellFormed(b.waiting)
    ensures AllWellFormed(ms) ==> forall k :: 0 <= k < |b.written| ==> AllWellFormed(b.written[k])
  {
    if ms == [] then Batches([], [])
    else
      var b, m := Batch(ms[..|ms| - 1]), ms[|ms| - 1];
      if BUFFER_SIZE <= TotalLength(b.waiting) + Length(m) then Batches(b.written + [b.waiting], [m])
      else Batches(b.written, b.waiting + [m])
  }

  /** Nothing is lost, repeated or reordered. */
  lemma {:induction false} BatchKeepsAll(ms: seq<Message>)
    ensures Flatten(Batch(ms).written) + Batch(ms).waiting == ms
    ensures ms != [] ==> Batch(ms).waiting != []
  {
    hide Length, TotalLength, Flatten;
    if ms == [] {
      FlattenNone<Message>();
    } else {
      var b, m := Batch(ms[..|ms| - 1]), ms[|ms| - 1];
      BatchKeepsAll(ms[..|ms| - 1]);
      FlattenSnoc(b.written, b.waiting);
      assert ms == Flatten(b.written) + b.waiting + [m];
      assert Flatten(b.written) + (b.waiting + [m]) == ms;
    }
  }

  /** The transfer buffer never fills up, and every write forced by a full buffer is of 3660 to 4095 bytes. */
  lemma {:induction false} BatchBounds(ms: seq<Message>)
    ensures TotalLength(Batch(ms).waiting) < BUFFER_SIZE
    ensures forall k :: 0 <= k < |Batch(ms).written| ==> 3660 <= TotalLength(Batch(ms).written[k]) < BUFFER_SIZE
  {
    hide Length;
    if ms == [] {
    } else {
      var b, m := Batch(ms[..|ms| - 1]), ms[|ms| - 1];
      BatchBounds(ms[..|ms| - 1]);
      TotalLengthOne(m);
      TotalLengthConcat(b.waiting, [m]);
    }
  }

  lemma TotalLengthOne(m: Message)
    ensures TotalLength([m]) == Length(m)
  {
    assert |[m][1..]| == 0;
  }

  /** The byte images of groups of messages. */
  function GroupImages(groups: seq<seq<Message>>): (images: seq<seq<byte>>)
    requires forall k :: 0 <= k < |groups| ==> AllWellFormed(groups[k])
    ensures |images| == |groups|
  {
    seq(|groups|, k requires 0 <= k < |groups| => EncodeAll(groups[k]))
  }

  /** The transfer buffer holds, and every write carries, whole messages. */
  lemma {:induction false} SendAllIsBatch(l: Link, ms: seq<Message>)
    requires AllWellFormed(ms) && l.buffered && l.pending == []
    ensures SendAll(l, ms) == l.(writes := l.writes + GroupImages(Batch(ms).written),
      pending := EncodeAll(Batch(ms).waiting))
  {
    hide Encode, EncodeAll;
    if ms == [] {
      EncodeNone([]);
      assert l.writes + GroupImages([]) == l.writes;
    } else {
      var b, m := Batch(ms[..|ms| - 1]), ms[|ms| - 1];
      SendAllIsBatch(l, ms[..|ms| - 1]);
      EncodeAllLength(b.waiting);
      EncodeOne(m);
      EncodeAllConcat(b.waiting, [m]);
      assert GroupImages(b.written + [b.waiting]) == GroupImages(b.written) + [EncodeAll(b.waiting)];
      assert l.writes + GroupImages(b.written + [b.waiting]) == (l.writes + GroupImages(b.written)) +
        [EncodeAll(b.waiting)];
    }
  }

  lemma EncodeNone(ms: seq<Message>)
    requires ms == []
    ensures EncodeAll(ms) == []
  {
  }

  lemma EncodeOne(m: Message)
    requires WellFormed(m)
    ensures AllWellFormed([m]) && EncodeAll([m]) == Encode(m)
  {
    hide EncodeAll;
    EncodeAllStep([m]);
    EncodeNone([m][1..]);
  }

  lemma {:induction false} SendAllSafePreInit(l: Link, ms: seq<Message>)
    requires AllWellFormed(ms) && l.socket == NO_SOCKET
    ensures SendAllSafe(l, ms) == l.(preInit := l.preInit + EncodeAll(ms))
  {
    hide Encode, EncodeAll;
    if ms == [] {
      EncodeNone(ms);
    } else {
      var front, m := ms[..|ms| - 1], ms[|ms| - 1];
      SendAllSafePreInit(l, front);
      EncodeOne(m);
      EncodeAllConcat(front, [m]);
      assert ms == front + [m];
    }
  }

  /** A whole session of the client: messages before there is a socket, the opening, messages, the closing. */
  function Session(before: seq<Message>, fd: int, appMessage: Message, after: seq<Message>): (l: Link)
    requires AllWellFormed(before) && WellFormed(appMessage) && AllWellFormed(after)
  {
    SendAll(SendAllSafe(NewLink(), before).Open(Some(fd), Encode(appMessage)), after).Close()
  }

  /** What the opening writes: the opening first and alone, then what was sent before it. */
  function OpeningGroups(before: seq<Message>, appMessage: Message): (groups: seq<seq<Message>>)
    ensures AllWellFormed(before) && WellFormed(appMessage) ==> forall k :: 0 <= k < |groups| ==>
      AllWellFormed(groups[k])
  {
    [[appMessage]] + if before == [] then [] else [before]
  }

  lemma OpeningFlatten(before: seq<Message>, appMessage: Message)
    ensures Flatten(OpeningGroups(before, appMessage)) == [appMessage] + before
  {
    hide Flatten;
    FlattenOne([appMessage]);
    FlattenOne(before);
    FlattenConcat([[appMessage]], if before == [] then [] else [before]);
    FlattenNone<Message>();
  }

  lemma OpenWrites(before: seq<Message>, fd: int, appMessage: Message)
    requires AllWellFormed(before) && WellFormed(appMessage) && 0 < fd
    ensures var l := SendAllSafe(NewLink(), before).Open(Some(fd), Encode(appMessage));
      && l.writes == GroupImages(OpeningGroups(before, appMessage))
      && l.buffered && l.init && l.socket == fd && l.pending == [] && l.preInit == []
  {
    hide Encode, EncodeAll, SendAllSafe;
    SendAllSafePreInit(NewLink(), before);
    assert [] + EncodeAll(before) == EncodeAll(before);
    EncodeAllLength(before);
    if before != [] { assert TotalLength(before) >= 31; }
    EncodeOne(appMessage);
    EncodeNone([]);
  }

  lemma ImagesJoin(a: seq<seq<Message>>, b: seq<seq<Message>>)
    requires forall k :: 0 <= k < |a| ==> AllWellFormed(a[k])
    requires forall k :: 0 <= k < |b| ==> AllWellFormed(b[k])
    ensures GroupImages(a + b) == GroupImages(a) + GroupImages(b)
  {
    hide EncodeAll, WellFormed;
  }

  lemma {:induction false} ImagesFlatten(groups: seq<seq<Message>>)
    requires forall k :: 0 <= k < |groups| ==> AllWellFormed(groups[k])
    ensures AllWellFormed(Flatten(groups)) && EncodeAll(Flatten(groups)) == Flatten(GroupImages(groups))
  {
    hide EncodeAll, WellFormed;
    if groups == [] {
      EncodeNone([]);
    } else {
      ImagesFlatten(groups[1..]);
      EncodeAllConcat(groups[0], Flatten(groups[1..]));
      assert GroupImages(groups)[1..] == GroupImages(groups[1..]);
    }
  }

  /** The groups of messages a session writes: the opening goes first and alone, then what was sent before it. */
  function SessionGroups(before: seq<Message>, appMessage: Message, after: seq<Message>): (groups: seq<seq<Message>>)
    ensures AllWellFormed(before) && WellFormed(appMessage) && AllWellFormed(after) ==>
      forall k :: 0 <= k < |groups| ==> AllWellFormed(groups[k])
  {
    OpeningGroups(before, appMessage) + Batch(after).written + [Batch(after).waiting]
  }

  lemma SessionWrites(before: seq<Message>, fd: int, appMessage: Message, after: seq<Message>)
    requires AllWellFormed(before) && WellFormed(appMessage) && AllWellFormed(after) && 0 < fd
    ensures Session(before, fd, appMessage, after).writes == GroupImages(SessionGroups(before, appMessage, after))
  {
    hide Encode, EncodeAll, SendAll, SendAllSafe, Batch, OpeningGroups, Link.Open;
    var connected := SendAllSafe(NewLink(), before).Open(Some(fd), Encode(appMessage));
    OpenWrites(before, fd, appMessage);
    SendAllIsBatch(connected, after);
    var b := Batch(after);
    assert GroupImages(SessionGroups(before, appMessage, after)) == connected.writes + GroupImages(b.written) +
      [EncodeAll(b.waiting)];
  }
}
