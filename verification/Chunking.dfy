/** Reading a well-formed stream does not depend on how it is cut into reads, up to a limit that is made exact here. */
module Chunking {
  import opened Packed
  import opened Sequences
  import opened Messages
  import opened Framing

  /** The number of bytes of the first `n` messages. */
  function Before(ms: seq<Message>, n: nat): (length: nat)
    requires n <= |ms|
  {
    TotalLength(ms[..n])
  }

  lemma BeforeStep(ms: seq<Message>, n: nat)
    requires 0 < n <= |ms|
    ensures Before(ms, n) == Length(ms[0]) + Before(ms[1..], n - 1)
  {
    assert ms[..n][0] == ms[0] && ms[..n][1..] == ms[1..][..n - 1];
  }

  lemma BeforeShift(ms: seq<Message>, n: nat, k: nat)
    requires n <= k <= |ms|
    ensures Before(ms, k) == Before(ms, n) + Before(ms[n..], k - n)
    ensures n < k ==> Before(ms, n) + 31 <= Before(ms, k)
  {
    assert ms[..k] == ms[..n] + ms[n..][..k - n];
    TotalLengthConcat(ms[..n], ms[n..][..k - n]);
    if n < k { BeforeStep(ms[n..], k - n); }
  }

  function Steps(ms: seq<Message>): (steps: seq<seq<HandlerCall>>) {
    seq(|ms|, i requires 0 <= i < |ms| => CallsOf(ms[i]))
  }

  /** How many messages can have been handed over once the first `p` bytes of the stream have arrived. */
  function Ready(ms: seq<Message>, p: nat): (n: nat)
    ensures n <= |ms|
  {
    if ms == [] || p < Needed(ms[0]) then 0 else 1 + Ready(ms[1..], p - Length(ms[0]))
  }

  lemma {:induction false} ReadyMonotone(ms: seq<Message>, p: nat, q: nat)
    requires p <= q
    ensures Ready(ms, p) <= Ready(ms, q)
  {
    if ms == [] || p < Needed(ms[0]) {
    } else {
      ReadyMonotone(ms[1..], p - Length(ms[0]), q - Length(ms[0]));
    }
  }

  /** Counting can start afresh after any messages already handed over. */
  lemma {:induction false} ReadyShift(ms: seq<Message>, n: nat, p: nat)
    requires n <= Ready(ms, p)
    ensures Before(ms, n) <= p
    ensures Ready(ms, p) == n + Ready(ms[n..], p - Before(ms, n))
  {
    if n == 0 {
      assert ms[n..] == ms;
    } else {
      BeforeStep(ms, n);
      assert ms[n..] == ms[1..][n - 1..];
      ReadyShift(ms[1..], n - 1, p - Length(ms[0]));
    }
  }

  /** One if a list of messages ends in a backtrace, which is then held back; zero otherwise. */
  function Held(ms: seq<Message>): (n: nat)
    ensures n <= 1 && n <= |ms|
  {
    if ms != [] && KindOf(ms[|ms| - 1].header.msgCode) == Backtrace then 1 else 0
  }

  /** At the end of any message everything before is ready, but for a backtrace just there. */
  lemma {:induction false} ReadyAtBoundary(ms: seq<Message>, n: nat)
    requires n <= |ms|
    ensures Ready(ms, Before(ms, n)) == n - Held(ms[..n])
  {
    if n == 0 {
      assert ms[..0] == [];
    } else {
      BeforeStep(ms, n);
      assert ms[..n][n - 1] == ms[n - 1];
      if n > 1 {
        BeforeStep(ms[1..], n - 1);
        assert ms[1..][..n - 1][n - 2] == ms[n - 1];
        ReadyAtBoundary(ms[1..], n - 1);
      } else {
        assert ms[1..][..0] == [];
        assert Before(ms[1..], 0) == 0;
        assert Ready(ms[1..], 0) == 0;
      }
    }
  }

  /** Everything is ready in the end, but for a backtrace that ends the stream. */
  lemma ReadyAll(ms: seq<Message>)
    ensures Ready(ms, TotalLength(ms)) == |ms| - Held(ms)
  {
    assert ms[..|ms|] == ms;
    ReadyAtBoundary(ms, |ms|);
  }

  lemma DrainStep(m: Message, rest: seq<byte>, p: nat)
    requires WellFormed(m) && p <= |Encode(m) + rest|
    ensures Drain((Encode(m) + rest)[..p]) ==
            if p < Needed(m) then Drained(0, false, [])
            else
              var d := Drain(rest[..p - Length(m)]);
              Drained(Length(m) + d.used, d.unsupported, [CallsOf(m)] + d.steps)
  {
    hide Encode;
    ParseCut(m, rest, p);
    var s := (Encode(m) + rest)[..p];
    if Needed(m) <= p {
      assert s[Length(m)..] == rest[..p - Length(m)];
    }
  }

  /** One pass over a cut stream hands over exactly the messages that are ready, and stops before the next one. */
  lemma {:induction false} DrainCut(ms: seq<Message>, p: nat)
    requires AllWellFormed(ms) && p <= |EncodeAll(ms)|
    ensures Drain(EncodeAll(ms)[..p]) == Drained(Before(ms, Ready(ms, p)), false, Steps(ms[..Ready(ms, p)]))
  {
    hide EncodeAll, Drain, CallsOf, Needed, Length, Before, Steps, WellFormed, Encode;
    var n := Ready(ms, p);
    if ms == [] {
      EncodeAllLength(ms);
      DrainNothing(EncodeAll(ms)[..p]);
      NothingReady(ms, p);
    } else {
      EncodeAllStep(ms);
      DrainStep(ms[0], EncodeAll(ms[1..]), p);
      if Needed(ms[0]) <= p {
        DrainCut(ms[1..], p - Length(ms[0]));
        BeforeStep(ms, n);
        StepsFirst(ms, n);
      } else {
        NothingReady(ms, p);
      }
    }
  }

  lemma StepsFirst(ms: seq<Message>, n: nat)
    requires 0 < n <= |ms|
    ensures Steps(ms[..n]) == [CallsOf(ms[0])] + Steps(ms[1..][..n - 1])
  {
    hide CallsOf;
  }

  lemma NothingReady(ms: seq<Message>, p: nat)
    requires ms == [] || p < Needed(ms[0])
    ensures Ready(ms, p) == 0 && Before(ms, 0) == 0 && Steps(ms[..0]) == []
  {
  }

  lemma DrainNothing(s: seq<byte>)
    requires s == []
    ensures Drain(s) == Drained(0, false, [])
  {
  }

  /** How many messages the reading loop has handed over when it returns, if `p` bytes have been dealt with and
      reads of the given sizes follow: it gives up at the first read that completes no message. */
  function Handed(ms: seq<Message>, p: nat, sizes: seq<nat>): (n: nat)
    decreases |sizes|
  {
    if sizes == [] || Ready(ms, p + sizes[0]) <= Ready(ms, p) then Ready(ms, p)
    else Handed(ms, p + sizes[0], sizes[1..])
  }

  function Sizes(chunks: seq<seq<byte>>): (sizes: seq<nat>)
    ensures |sizes| == |chunks|
  {
    seq(|chunks|, i requires 0 <= i < |chunks| => |chunks[i]|)
  }

  /** The stream from the end of message `n` on. */
  lemma StreamFrom(ms: seq<Message>, n: nat)
    requires AllWellFormed(ms) && n <= |ms|
    ensures Before(ms, n) <= |EncodeAll(ms)|
    ensures EncodeAll(ms)[Before(ms, n)..] == EncodeAll(ms[n..])
  {
    hide EncodeAll;
    assert ms == ms[..n] + ms[n..];
    EncodeAllConcat(ms[..n], ms[n..]);
    EncodeAllLength(ms[..n]);
  }

  /** A buffer that holds the stream from the first message not handed over at `p` up to `q`. */
  lemma DrainBuffer(ms: seq<Message>, p: nat, q: nat, n: nat, k: nat)
    requires AllWellFormed(ms) && p <= q <= |EncodeAll(ms)|
    requires n == Ready(ms, p) && k == Ready(ms, q)
    ensures n <= k && Before(ms, n) <= p && Before(ms, n) <= Before(ms, k) <= q
    ensures Drain(EncodeAll(ms)[Before(ms, n)..q]) == Drained(Before(ms, k) - Before(ms, n), false, Steps(ms[n..k]))
    ensures n < k ==> 0 < Before(ms, k) - Before(ms, n)
  {
    hide EncodeAll, Drain, Ready, Before, Steps;
    ReadyMonotone(ms, p, q);
    ReadyShift(ms, n, p);
    ReadyShift(ms, n, q);
    ReadyShift(ms, k, q);
    StreamFrom(ms, n);
    BeforeShift(ms, n, k);
    var start := Before(ms, n);
    assert EncodeAll(ms)[start..q] == EncodeAll(ms[n..])[..q - start];
    DrainCut(ms[n..], q - start);
    assert ms[n..][..k - n] == ms[n..k];
  }

  /** The reading loop, for every cut of a well-formed stream (or of a part of one) into reads: it makes the
      handler calls of the first `Handed` messages, in order, once each, and no others. */
  lemma {:induction false} ReceiveCut(ms: seq<Message>, p: nat, chunks: seq<seq<byte>>)
    requires AllWellFormed(ms) && p <= |EncodeAll(ms)|
    requires Flatten(chunks) <= EncodeAll(ms)[p..]
    ensures Ready(ms, p) <= Handed(ms, p, Sizes(chunks)) <= |ms|
    ensures Before(ms, Ready(ms, p)) <= p
    ensures Receive(EncodeAll(ms)[Before(ms, Ready(ms, p))..p], chunks).steps ==
            Steps(ms[Ready(ms, p)..Handed(ms, p, Sizes(chunks))])
    decreases |chunks|
  {
    hide EncodeAll, Drain, Ready, Before, Flatten, Steps;
    var stream, n := EncodeAll(ms), Ready(ms, p);
    ReadyShift(ms, n, p);
    if chunks == [] {
      assert ms[n..n] == [];
      StepsNone(ms[n..n]);
    } else {
      var start, q := Before(ms, n), p + |chunks[0]|;
      NextChunk(stream, start, p, chunks);
      var k := Ready(ms, q);
      DrainBuffer(ms, p, q, n, k);
      hide WellFormed;
      assert Sizes(chunks)[0] == |chunks[0]| && Sizes(chunks)[1..] == Sizes(chunks[1..]);
      if n < k {
        assert stream[start..q][Before(ms, k) - start..] == stream[Before(ms, k)..q];
        ReceiveCut(ms, q, chunks[1..]);
        StepsJoin(ms, n, k, Handed(ms, q, Sizes(chunks[1..])));
      } else {
        StepsNone(ms[n..k]);
        ReceiveNothing(stream[start..p], chunks, Steps(ms[n..k]));
      }
    }
  }

  lemma StepsNone(ms: seq<Message>)
    requires ms == []
    ensures Steps(ms) == []
  {
  }

  lemma StepsJoin(ms: seq<Message>, n: nat, k: nat, h: nat)
    requires n <= k <= h <= |ms|
    ensures Steps(ms[n..k]) + Steps(ms[k..h]) == Steps(ms[n..h])
  {
  }

  lemma ReceiveNothing(carry: seq<byte>, chunks: seq<seq<byte>>, steps: seq<seq<HandlerCall>>)
    requires chunks != [] && steps == [] && Drain(carry + chunks[0]) == Drained(0, false, steps)
    ensures Receive(carry, chunks).steps == []
  {
  }

  lemma NextChunk(stream: seq<byte>, start: nat, p: nat, chunks: seq<seq<byte>>)
    requires start <= p <= |stream| && chunks != [] && Flatten(chunks) <= stream[p..]
    ensures p + |chunks[0]| <= |stream|
    ensures stream[start..p] + chunks[0] == stream[start..p + |chunks[0]|]
    ensures Flatten(chunks[1..]) <= stream[p + |chunks[0]|..]
  {
    var c, rest := chunks[0], Flatten(chunks[1..]);
    var whole := stream[p..];
    assert Flatten(chunks) == c + rest;
    hide Flatten;
    assert c + rest == whole[..|c + rest|];
    assert c == (c + rest)[..|c|] == whole[..|c|] && rest == (c + rest)[|c|..] == whole[|c|..|c + rest|];
    assert whole[|c|..] == stream[p + |c|..];
    assert stream[start..p] + whole[..|c|] == stream[start..p + |c|];
  }

  /** What a whole stream should lead to, however it is cut: all its messages, but for a final backtrace. */
  ghost predicate ReadInFull(ms: seq<Message>, chunks: seq<seq<byte>>)
    requires AllWellFormed(ms)
  {
    Receive([], chunks).steps == Steps(ms[..Ready(ms, TotalLength(ms))])
  }

  function Sum(sizes: seq<nat>): (sum: nat) {
    if sizes == [] then 0 else sizes[0] + Sum(sizes[1..])
  }

  /** Read `k` completes a message, or no later read would have: it does not starve the loop. */
  ghost predicate Counts(ms: seq<Message>, p: nat, sizes: seq<nat>, k: nat)
    requires k < |sizes|
  {
    || Ready(ms, p + Sum(sizes[..k])) < Ready(ms, p + Sum(sizes[..k + 1]))
    || Ready(ms, p + Sum(sizes[..k])) == Ready(ms, p + Sum(sizes))
  }

  ghost predicate EveryReadCounts(ms: seq<Message>, p: nat, sizes: seq<nat>) {
    forall k :: 0 <= k < |sizes| ==> Counts(ms, p, sizes, k)
  }

  lemma {:induction false} HandedExactly(ms: seq<Message>, p: nat, sizes: seq<nat>)
    ensures Handed(ms, p, sizes) == Ready(ms, p + Sum(sizes)) <==> EveryReadCounts(ms, p, sizes)
    decreases |sizes|
  {
    hide Ready, Counts;
    if sizes == [] {
    } else {
      var q := p + sizes[0];
      if Ready(ms, q) <= Ready(ms, p) {
        ReadyMonotone(ms, p, q);
        FirstSettles(ms, p, sizes);
      } else {
        HandedExactly(ms, q, sizes[1..]);
        EveryReadCountsStep(ms, p, sizes);
      }
    }
  }

  /** If the first read completes nothing, the reads count exactly when there is nothing more to come. */
  lemma FirstSettles(ms: seq<Message>, p: nat, sizes: seq<nat>)
    requires sizes != [] && Ready(ms, p + sizes[0]) == Ready(ms, p)
    ensures Ready(ms, p) == Ready(ms, p + Sum(sizes)) <==> EveryReadCounts(ms, p, sizes)
  {
    hide Ready;
    if Ready(ms, p) == Ready(ms, p + Sum(sizes)) {
      forall k | 0 <= k < |sizes| ensures Counts(ms, p, sizes, k) {
        SumSplit(sizes, k);
        ReadyMonotone(ms, p, p + Sum(sizes[..k]));
        ReadyMonotone(ms, p + Sum(sizes[..k]), p + Sum(sizes));
      }
    } else {
      assert sizes[..0] == [] && sizes[..1][0] == sizes[0] && |sizes[..1][1..]| == 0;
      assert !Counts(ms, p, sizes, 0);
    }
  }

  lemma {:induction false} SumSplit(sizes: seq<nat>, k: nat)
    requires k <= |sizes|
    ensures Sum(sizes) == Sum(sizes[..k]) + Sum(sizes[k..])
  {
    if k == 0 {
      assert sizes[k..] == sizes;
    } else {
      assert sizes[..k][1..] == sizes[1..][..k - 1] && sizes[k..] == sizes[1..][k - 1..];
      SumSplit(sizes[1..], k - 1);
    }
  }

  lemma CountsStep(ms: seq<Message>, p: nat, sizes: seq<nat>, k: nat)
    requires 0 < k < |sizes|
    ensures Counts(ms, p, sizes, k) <==> Counts(ms, p + sizes[0], sizes[1..], k - 1)
  {
    assert sizes[..k][1..] == sizes[1..][..k - 1] && sizes[..k + 1][1..] == sizes[1..][..k];
  }

  lemma EveryReadCountsStep(ms: seq<Message>, p: nat, sizes: seq<nat>)
    requires sizes != [] && Ready(ms, p) < Ready(ms, p + sizes[0])
    ensures EveryReadCounts(ms, p, sizes) <==> EveryReadCounts(ms, p + sizes[0], sizes[1..])
  {
    hide Counts;
    assert Counts(ms, p, sizes, 0) by { FirstCounts(ms, p, sizes); }
    forall k | 0 < k < |sizes| ensures Counts(ms, p, sizes, k) <==> Counts(ms, p + sizes[0], sizes[1..], k - 1) {
      CountsStep(ms, p, sizes, k);
    }
    if EveryReadCounts(ms, p, sizes) {
      var q, rest := p + sizes[0], sizes[1..];
      forall k | 0 <= k < |rest| ensures Counts(ms, q, rest, k) {
        assert Counts(ms, p, sizes, k + 1);
      }
    }
  }

  lemma FirstCounts(ms: seq<Message>, p: nat, sizes: seq<nat>)
    requires sizes != [] && Ready(ms, p) < Ready(ms, p + sizes[0])
    ensures Counts(ms, p, sizes, 0)
  {
    assert sizes[..0] == [] && sizes[..1][0] == sizes[0] && |sizes[..1][1..]| == 0;
  }

  lemma {:induction false} SumSizes(chunks: seq<seq<byte>>)
    ensures Sum(Sizes(chunks)) == |Flatten(chunks)|
  {
    if chunks == [] {
    } else {
      assert Sizes(chunks)[1..] == Sizes(chunks[1..]);
      SumSizes(chunks[1..]);
    }
  }

  /** Chunking independence, exactly: a stream is read in full if and only if every read counts. */
  lemma ReadInFullExactly(ms: seq<Message>, chunks: seq<seq<byte>>)
    requires AllWellFormed(ms) && Flatten(chunks) == EncodeAll(ms)
    ensures ReadInFull(ms, chunks) <==> EveryReadCounts(ms, 0, Sizes(chunks))
  {
    hide EncodeAll, Ready, Handed, EveryReadCounts, Receive, Sum, WellFormed;
    ReceiveStart(ms, chunks);
    EncodeAllLength(ms);
    SumSizes(chunks);
    HandedExactly(ms, 0, Sizes(chunks));
    var h, n := Handed(ms, 0, Sizes(chunks)), Ready(ms, TotalLength(ms));
    assert |Steps(ms[..h])| == h && |Steps(ms[..n])| == n;
  }

  lemma ReceiveStart(ms: seq<Message>, chunks: seq<seq<byte>>)
    requires AllWellFormed(ms) && Flatten(chunks) <= EncodeAll(ms)
    ensures Handed(ms, 0, Sizes(chunks)) <= |ms|
    ensures Receive([], chunks).steps == Steps(ms[..Handed(ms, 0, Sizes(chunks))])
  {
    hide EncodeAll;
    assert EncodeAll(ms)[0..] == EncodeAll(ms);
    ReceiveCut(ms, 0, chunks);
    assert Ready(ms, 0) == 0 && ms[..0] == [];
    assert EncodeAll(ms)[0..0] == [];
    assert ms[0..Handed(ms, 0, Sizes(chunks))] == ms[..Handed(ms, 0, Sizes(chunks))];
  }

  /** All reads but the last deliver at least `least` bytes. */
  ghost predicate AtLeast(chunks: seq<seq<byte>>, least: nat) {
    forall k :: 0 <= k < |chunks| - 1 ==> least <= |chunks[k]|
  }

  lemma LongReadsCount(ms: seq<Message>, chunks: seq<seq<byte>>)
    requires AllWellFormed(ms) && AtLeast(chunks, 467) && Flatten(chunks) == EncodeAll(ms)
    ensures EveryReadCounts(ms, 0, Sizes(chunks))
  {
    hide EncodeAll, Ready;
    var sizes := Sizes(chunks);
    EncodeAllLength(ms);
    SumSizes(chunks);
    forall k | 0 <= k < |sizes| ensures Counts(ms, 0, sizes, k) {
      var p, q := Sum(sizes[..k]), Sum(sizes[..k + 1]);
      SumSplit(sizes[..k + 1], k);
      assert sizes[..k + 1][..k] == sizes[..k] && sizes[..k + 1][k..] == [sizes[k]];
      assert q == p + sizes[k] by { assert |[sizes[k]][1..]| == 0; }
      SumSplit(sizes, k);
      if k == |sizes| - 1 {
        assert sizes[..k + 1] == sizes;
        ReadyMonotone(ms, p, q);
      } else {
        assert 467 <= |chunks[k]|;
        LongReadCompletes(ms, p, q);
        ReadyMonotone(ms, p, Sum(sizes));
      }
    }
  }

  lemma LongReadCompletes(ms: seq<Message>, p: nat, q: nat)
    requires p + 467 <= q
    ensures Ready(ms, p) < Ready(ms, q) || Ready(ms, p) == |ms|
  {
    var n := Ready(ms, p);
    ReadyMonotone(ms, p, q);
    ReadyShift(ms, n, p);
    ReadyShift(ms, n, q);
  }

  /** A backtrace and one header-only message: 467 bytes, and nothing can be handed over before the last of them. */
  function TightStream(): (ms: seq<Message>) {
    [BacktraceMessage(Header(0, 0, 0, 1, CODE_BACKTRACE), 0, []), AppMessage(Header(0, 0, 0, 2, CODE_INIT))]
  }

  lemma TightStreamLength()
    ensures AllWellFormed(TightStream()) && |EncodeAll(TightStream())| == 467
    ensures Ready(TightStream(), 466) == 0 < Ready(TightStream(), 467)
  {
    hide EncodeAll;
    var ms := TightStream();
    assert ms[1..] == [ms[1]] && |ms[1..][1..]| == 0;
    assert TotalLength([ms[1]]) == Length(ms[1]) + TotalLength([]);
    EncodeAllLength(ms);
  }

  /** Reading 466 bytes of it first loses both messages, though the stream is well-formed and read to its end. */
  lemma ShortReadLosesMessages()
    ensures AllWellFormed(TightStream()) && |EncodeAll(TightStream())| == 467
    ensures var s := EncodeAll(TightStream());
      Flatten([s[..466], s[466..]]) == s && AtLeast([s[..466], s[466..]], 466) &&
        !ReadInFull(TightStream(), [s[..466], s[466..]])
  {
    hide EncodeAll;
    TightStreamLength();
    var ms, s := TightStream(), EncodeAll(TightStream());
    var chunks: seq<seq<byte>> := [s[..466], s[466..]];
    assert chunks[1..] == [s[466..]] && |chunks[1..][1..]| == 0;
    assert Flatten(chunks) == s[..466] + (s[466..] + Flatten<byte>([]));
    var sizes := Sizes(chunks);
    assert sizes == [466, 1] && sizes[1..] == [1] && |sizes[1..][1..]| == 0;
    assert sizes[..0] == [] && sizes[..0 + 1] == [466] && |[466][1..]| == 0 && |[1][1..]| == 0;
    assert Sum([1]) == 1 && Sum(sizes) == 467 && Sum(sizes[..1]) == 466;
    assert !EveryReadCounts(ms, 0, sizes) by {
      assert Ready(ms, 0) == 0;
      assert !Counts(ms, 0, sizes, 0);
    }
    ReadInFullExactly(ms, chunks);
  }

  /** Every cut with all reads but the last of at least `least` bytes is read in full. */
  ghost predicate SafeReadSize(least: nat) {
    forall ms: seq<Message>, chunks: seq<seq<byte>> ::
      AllWellFormed(ms) && AtLeast(chunks, least) && Flatten(chunks) == EncodeAll(ms) ==> ReadInFull(ms, chunks)
  }

  /** 467 bytes is the least size of a read that is always safe. */
  lemma SafeReadSizeExactly(least: nat)
    ensures SafeReadSize(least) <==> 467 <= least
  {
    hide EncodeAll;
    if 467 <= least {
      forall ms: seq<Message>, chunks: seq<seq<byte>> | AllWellFormed(ms) && AtLeast(chunks, least) &&
        Flatten(chunks) == EncodeAll(ms)
        ensures ReadInFull(ms, chunks)
      {
        LongReadsCount(ms, chunks);
        ReadInFullExactly(ms, chunks);
      }
    } else {
      ShortReadLosesMessages();
      var s := EncodeAll(TightStream());
      assert AtLeast([s[..466], s[466..]], least);
    }
  }
}
