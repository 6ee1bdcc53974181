/** The receiving server: a byte buffer that is filled, parsed and shifted in place. */
module Receiver {
  import opened Packed
  import opened Sequences
  import opened Messages
  import opened Framing

  const READ_SIZE := 4096
  const BUFFER_SIZE := 8192

  lemma ParseV1Outcome(s: seq<byte>)
    ensures ParseV1(s).Incomplete? || (ParseV1(s).Complete? && 0 < ParseV1(s).size)
  {
  }

  /** The state of a pass over a buffer after `used` bytes: `steps` handed over so far. */
  ghost predicate Continues(whole: seq<byte>, used: nat, steps: seq<seq<HandlerCall>>)
    requires used <= |whole|
  {
    var d, rest := Drain(whole), Drain(whole[used..]);
    d.used == used + rest.used && d.unsupported == rest.unsupported && d.steps == steps + rest.steps
  }

  lemma ParseNothing(s: seq<byte>)
    requires s == []
    ensures Parse(s).Incomplete?
  {
  }

  lemma PassStart(whole: seq<byte>, log: seq<HandlerCall>, count: nat)
    ensures Continues(whole, 0, [])
    ensures log + Flatten<HandlerCall>([]) == log && CountAfter(count, []) == count
  {
    assert whole[0..] == whole;
  }

  lemma PassStep(whole: seq<byte>, used: nat, steps: seq<seq<HandlerCall>>)
    requires used <= |whole| && Continues(whole, used, steps)
    ensures match Parse(whole[used..])
      case Complete(size, calls) => Continues(whole, used + size, steps + [calls])
      case other => Drain(whole) == Drained(used, other.Unsupported?, steps)
    ensures used == |whole| ==> Parse(whole[used..]).Incomplete?
  {
    hide Parse;
    var s := whole[used..];
    if used == |whole| { ParseNothing(s); }
    match Parse(s)
    case Complete(size, calls) =>
      assert s[size..] == whole[used + size..];
      assert steps + ([calls] + Drain(s[size..]).steps) == (steps + [calls]) + Drain(s[size..]).steps;
    case other =>
      assert steps + [] == steps;
  }

  lemma NextStep(log: seq<HandlerCall>, count: nat, steps: seq<seq<HandlerCall>>, calls: seq<HandlerCall>)
    ensures log + Flatten(steps + [calls]) == log + Flatten(steps) + calls
    ensures CountAfter(count, steps + [calls]) ==
            if calls == [OnNewConnection] then 1 else CountAfter(count, steps) + 1
  {
    FlattenSnoc(steps, calls);
    CountAfterConcat(count, steps, [calls]);
    assert |[calls][1..]| == 0;
  }

  lemma DrainBounds(s: seq<byte>)
    ensures Drain(s).used <= |s|
    ensures !Drain(s).unsupported ==> |s| - Drain(s).used <= 466
  {
    if !Drain(s).unsupported { CarryBound(s); }
  }

  /** The state of the reading loop after `made` reads: `steps` handed over so far, `carry` left in the buffer. */
  ghost predicate Resumes(chunks: seq<seq<byte>>, steps: seq<seq<HandlerCall>>, made: nat, carry: seq<byte>)
    requires made <= |chunks|
  {
    var all, rest := Receive([], chunks), Receive(carry, chunks[made..]);
    all.made == made + rest.made && all.steps == steps + rest.steps
  }

  lemma LoopStart(empty: seq<byte>, chunks: seq<seq<byte>>, log: seq<HandlerCall>, count: nat)
    requires empty == []
    ensures Resumes(chunks, [], 0, empty)
    ensures log + Flatten<HandlerCall>([]) == log && CountAfter(count, []) == count
  {
    assert chunks[0..] == chunks;
  }

  lemma LoopStep(chunks: seq<seq<byte>>, steps: seq<seq<HandlerCall>>, made: nat, carry: seq<byte>)
    requires made < |chunks| && Resumes(chunks, steps, made, carry)
    ensures var all, d := Receive([], chunks), Drain(carry + chunks[made]);
      if chunks[made] == [] then all.made == made + 1 && all.steps == steps
      else if d.unsupported || d.used == 0 then all.made == made + 1 && all.steps == steps + d.steps
      else Resumes(chunks, steps + d.steps, made + 1, (carry + chunks[made])[d.used..])
  {
    hide Drain;
    assert chunks[made..][0] == chunks[made] && chunks[made..][1..] == chunks[made + 1..];
    var d := Drain(carry + chunks[made]);
    if chunks[made] == [] {
      assert steps + [] == steps;
    } else if !d.unsupported && d.used != 0 {
      var rest := Receive((carry + chunks[made])[d.used..], chunks[made + 1..]);
      assert steps + (d.steps + rest.steps) == (steps + d.steps) + rest.steps;
    }
  }

  lemma LoopEnd(chunks: seq<seq<byte>>, steps: seq<seq<HandlerCall>>, made: nat, carry: seq<byte>)
    requires made == |chunks| && Resumes(chunks, steps, made, carry)
    ensures Receive([], chunks).made == made && Receive([], chunks).steps == steps
  {
    assert |chunks[made..]| == 0 && steps + [] == steps;
  }

  /** What the device answers to a request to read: bytes, none at its end, or an error. */
  datatype Read = Bytes(data: seq<byte>) | Failed

  /** The bytes of the reads that did not fail. */
  function DataOf(answers: seq<Read>): (chunks: seq<seq<byte>>)
    ensures |chunks| <= |answers|
  {
    if answers == [] then []
    else
      var last := answers[|answers| - 1];
      DataOf(answers[..|answers| - 1]) + if last.Bytes? then [last.data] else []
  }

  lemma NextRead(answers: seq<Read>, made: nat)
    requires made < |answers|
    ensures DataOf(answers[..made + 1]) == DataOf(answers[..made]) + if answers[made].Bytes? then [answers[made].data]
      else []
  {
    hide DataOf;
    assert answers[..made + 1] == answers[..made] + [answers[made]];
    DataSnoc(answers[..made], answers[made]);
  }

  lemma DataSnoc(answers: seq<Read>, last: Read)
    ensures DataOf(answers + [last]) == DataOf(answers) + if last.Bytes? then [last.data] else []
  {
    assert (answers + [last])[..|answers|] == answers;
  }

  lemma {:induction false} DataPrefix(answers: seq<Read>, k: nat)
    requires k <= |answers|
    ensures DataOf(answers[..k]) <= DataOf(answers)
  {
    if k == |answers| {
      assert answers[..k] == answers;
    } else {
      var front := answers[..|answers| - 1];
      assert front[..k] == answers[..k];
      DataPrefix(front, k);
    }
  }

  class MemOpRcptServer {
    var msgCount: nat
    /** The calls made on the handler, oldest first. */
    var handlerCalls: seq<HandlerCall>

    constructor ()
      ensures msgCount == 0 && handlerCalls == []
    {
      msgCount := 0;
      handlerCalls := [];
    }

    /** One message of version 1, after its version field. */
    method DoProcessMsgV1(buffer: array<byte>, start: nat, maxSize: nat) returns (res: int)
      requires start + maxSize <= buffer.Length
      modifies this
      ensures match ParseV1(buffer[start..start + maxSize])
        case Complete(size, calls) =>
          res == size && handlerCalls == old(handlerCalls) + calls && msgCount == if calls == [OnNewConnection] then 0
            else old(msgCount)
        case _ => res == 0 && handlerCalls == old(handlerCalls) && msgCount == old(msgCount)
    {
      hide Unpack, Size, Repeat, CString;
      if maxSize < HEADER_SIZE {
        return 0;
      }
      ghost var s := buffer[start..start + maxSize];
      var header := CopyHeader(buffer, start, maxSize);
      assert s[HEADER_SIZE..] == buffer[start + HEADER_SIZE..start + maxSize];
      var sizeRead := HEADER_SIZE;

      if header.msgCode < 10 && header.msgCode == CODE_INIT {
        msgCount := 0;
        handlerCalls := handlerCalls + [OnNewConnection];
      }
      if 10 <= header.msgCode < 20 {
        if maxSize - sizeRead < DataSize(Memory) {
          return 0;
        }
        var data := CopyData(buffer, start + HEADER_SIZE, Memory, maxSize - HEADER_SIZE);
        sizeRead := sizeRead + DataSize(Memory);
        handlerCalls := handlerCalls + [OnMemoryOperation(header, data[0], data[1], data[2], data[3])];
      }
      if 30 <= header.msgCode < 40 {
        if maxSize - sizeRead < DataSize(Thread) {
          return 0;
        }
        var data := CopyData(buffer, start + HEADER_SIZE, Thread, maxSize - HEADER_SIZE);
        sizeRead := sizeRead + DataSize(Thread);
        handlerCalls := handlerCalls + [OnThreadOperation(header, data[0], CString(data[1..25]))];
      }
      if 40 <= header.msgCode < 50 {
        if maxSize - sizeRead < BACKTRACE_MSG_SIZE {
          return 0;
        }
        var data := CopyData(buffer, start + HEADER_SIZE, Backtrace, maxSize - HEADER_SIZE);
        sizeRead := sizeRead + DataSize(Backtrace);
        handlerCalls := handlerCalls + [OnBacktrace(data[0], data[2..2 + Min(data[1], BACKTRACE_MAX_SIZE)])];
      }
      if 50 <= header.msgCode < 60 {
        if maxSize - sizeRead < DataSize(Symbol) {
          return 0;
        }
        var data := CopyData(buffer, start + HEADER_SIZE, Symbol, maxSize - HEADER_SIZE);
        sizeRead := sizeRead + DataSize(Symbol);
        handlerCalls := handlerCalls +
          [OnSymbolInfos(SymbolInfos(data[0], CString(data[1..257]), data[257], CString(data[258..354]), data[354]))];
      }
      return sizeRead;
    }

    /** The header struct of a message, copied out of the buffer. */
    static method CopyHeader(buffer: array<byte>, start: nat, ghost available: nat) returns (header: Header)
      requires start + HEADER_SIZE <= start + available <= buffer.Length
      ensures Size(HeaderLayout()) == HEADER_SIZE
      ensures header == HeaderFrom(Unpack(HeaderLayout(), buffer[start..start + available]))
    {
      LayoutSizes(App);
      var image := buffer[start..start + HEADER_SIZE];
      ghost var s := buffer[start..start + available];
      assert s == image + s[HEADER_SIZE..];
      UnpackExtend(HeaderLayout(), image, s[HEADER_SIZE..]);
      header := HeaderFrom(Unpack(HeaderLayout(), image));
    }

    /** The data struct of a message, copied out of the buffer. */
    static method CopyData(buffer: array<byte>, start: nat, kind: Kind, ghost available: nat) returns (data: seq<nat>)
      requires start + DataSize(kind) <= start + available <= buffer.Length
      ensures Size(DataLayout(kind)) == DataSize(kind)
      ensures data == Unpack(DataLayout(kind), buffer[start..start + available])
    {
      LayoutSizes(kind);
      var image := buffer[start..start + DataSize(kind)];
      ghost var s := buffer[start..start + available];
      assert s == image + s[DataSize(kind)..];
      UnpackExtend(DataLayout(kind), image, s[DataSize(kind)..]);
      data := Unpack(DataLayout(kind), image);
    }

    method DoProcessMsg(buffer: array<byte>, start: nat, maxSize: nat) returns (res: int)
      requires start + maxSize <= buffer.Length
      modifies this
      ensures match Parse(buffer[start..start + maxSize])
        case Complete(size, calls) =>
          res == size && handlerCalls == old(handlerCalls) + calls && msgCount == if calls == [OnNewConnection] then 0
            else old(msgCount)
        case Incomplete => res == 0 && handlerCalls == old(handlerCalls) && msgCount == old(msgCount)
        case Unsupported => res == -1 && handlerCalls == old(handlerCalls) && msgCount == old(msgCount)
    {
      hide ParseV1;
      if maxSize < VERSION_SIZE {
        return 0;
      }
      ghost var s := buffer[start..start + maxSize];
      var msgVersion := GetInt(buffer[start..start + VERSION_SIZE]);
      assert s[..VERSION_SIZE] == buffer[start..start + VERSION_SIZE];
      if msgVersion == MSG_VERSION {
        assert s[VERSION_SIZE..] == buffer[start + VERSION_SIZE..start + maxSize];
        ParseV1Outcome(s[VERSION_SIZE..]);
        res := DoProcessMsgV1(buffer, start + VERSION_SIZE, maxSize - VERSION_SIZE);
        if res > 0 {
          return VERSION_SIZE + res;
        } else {
          return res;
        }
      }
      return -1;
    }

    /** One pass over the buffer: every message that is all there is handed over, in order. */
    method DoProcessDataRead(buffer: array<byte>, maxSize: nat) returns (res: int)
      requires maxSize <= buffer.Length
      modifies this
      ensures var d := Drain(buffer[..maxSize]);
        && res == (if d.unsupported then -1 else d.used)
        && handlerCalls == old(handlerCalls) + Flatten(d.steps)
        && msgCount == CountAfter(old(msgCount), d.steps)
    {
      hide Parse, Drain, CountAfter, Flatten;
      var sizeRead := 0;
      ghost var steps: seq<seq<HandlerCall>> := [];
      ghost var whole := buffer[..maxSize];
      assert buffer[0..maxSize] == whole;
      PassStart(whole, handlerCalls, msgCount);
      while true
        invariant sizeRead <= maxSize
        invariant buffer[..maxSize] == whole && Continues(whole, sizeRead, steps)
        invariant handlerCalls == old(handlerCalls) + Flatten(steps)
        invariant msgCount == CountAfter(old(msgCount), steps)
        decreases maxSize - sizeRead
      {
        PassStep(whole, sizeRead, steps);
        assert buffer[sizeRead..maxSize] == whole[sizeRead..];
        if sizeRead < maxSize {
          res := DoProcessMsg(buffer, sizeRead, maxSize - sizeRead);
          if res > 0 {
            ghost var calls := Parse(whole[sizeRead..]).calls;
            NextStep(old(handlerCalls), old(msgCount), steps, calls);
            steps := steps + [calls];
            sizeRead := sizeRead + res;
            msgCount := msgCount + 1;
          } else if res == 0 {
            return sizeRead;
          } else {
            return res;
          }
        } else {
          return sizeRead;
        }
      }
    }

    /** The reading loop, over all the reads that the device answers. A failed read is tried again. The result is always
        false: the local that holds it is never assigned again. */
    method DoReadMsg(answers: seq<Read>) returns (res: bool, made: nat)
      requires forall k :: 0 <= k < |answers| && answers[k].Bytes? ==> |answers[k].data| <= READ_SIZE
      modifies this
      ensures !res
      ensures var r := Receive([], DataOf(answers));
        && made <= |answers| && r.made == |DataOf(answers[..made])|
        && handlerCalls == old(handlerCalls) + Flatten(r.steps)
        && msgCount == CountAfter(old(msgCount), r.steps)
    {
      hide Drain, Receive, CountAfter, Flatten, DataOf;
      res := false;
      made := 0;
      var buffer := new byte[BUFFER_SIZE];
      var size := 0;
      ghost var chunks := DataOf(answers);
      ghost var steps: seq<seq<HandlerCall>> := [];
      assert DataOf(answers[..0]) == [];
      LoopStart(buffer[..0], chunks, handlerCalls, msgCount);
      while made < |answers|
        invariant made <= |answers| && size <= 466 && DataOf(answers[..made]) <= chunks
        invariant fresh(buffer)
        invariant Resumes(chunks, steps, |DataOf(answers[..made])|, buffer[..size])
        invariant handlerCalls == old(handlerCalls) + Flatten(steps)
        invariant msgCount == CountAfter(old(msgCount), steps)
      {
        ghost var carry, k := buffer[..size], |DataOf(answers[..made])|;
        var answer := answers[made];
        NextRead(answers, made);
        DataPrefix(answers, made + 1);
        made := made + 1;
        if answer.Bytes? {
          assert chunks[k] == DataOf(answers[..made])[k] == answer.data;
          LoopStep(chunks, steps, k, carry);
          if answer.data == [] {
            return;
          }
          ReadInto(buffer, size, answer.data);
          size := size + |answer.data|;
          ghost var d := Drain(buffer[..size]);
          var processed := DoProcessDataRead(buffer, size);
          FlattenConcat(steps, d.steps);
          CountAfterConcat(old(msgCount), steps, d.steps);
          steps := steps + d.steps;
          DrainBounds(buffer[..size]);
          if processed > 0 {
            ghost var full := buffer[..size];
            var remaining := size - processed;
            ShiftDown(buffer, processed, remaining);
            size := remaining;
            assert buffer[..size] == full[processed..];
          } else {
            return;
          }
        }
      }
      assert answers[..made] == answers;
      LoopEnd(chunks, steps, |chunks|, buffer[..size]);
    }

    static method ReadInto(buffer: array<byte>, at: nat, chunk: seq<byte>)
      requires at + |chunk| <= buffer.Length
      modifies buffer
      ensures buffer[..at + |chunk|] == old(buffer[..at]) + chunk
    {
      forall i | 0 <= i < |chunk| {
        buffer[at + i] := chunk[i];
      }
    }

    /** The copy of the unread bytes to the front: a forward copy, right even where the two ranges overlap. */
    static method ShiftDown(buffer: array<byte>, start: nat, count: nat)
      requires start + count <= buffer.Length
      modifies buffer
      ensures buffer[..count] == old(buffer[start..start + count])
    {
      for i := 0 to count
        invariant buffer[..i] == old(buffer[start..start + i])
        invariant forall j :: i <= j < buffer.Length ==> buffer[j] == old(buffer[j])
      {
        buffer[i] := buffer[start + i];
      }
    }
  }
}
