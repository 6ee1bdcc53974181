/** From the client's writes to the server's handler calls. */
module Delivery {
  import opened Packed
  import opened Sequences
  import opened Messages
  import opened Framing
  import opened Chunking
  import opened Transfer

  /** Write `k` carries a single message, a backtrace, and nothing is held back from the write before. */
  ghost predicate LoneBacktrace(groups: seq<seq<Message>>, k: nat)
    requires k < |groups|
  {
    && |groups[k]| == 1 && Held(groups[k]) == 1
    && (k == 0 || Held(groups[k - 1]) == 0)
  }

  ghost predicate AllGroupsWellFormed(groups: seq<seq<Message>>) {
    forall k :: 0 <= k < |groups| ==> AllWellFormed(groups[k])
  }

  ghost predicate AreGroups(groups: seq<seq<Message>>) {
    forall k :: 0 <= k < |groups| ==> groups[k] != [] && AllWellFormed(groups[k])
  }

  /** The number of messages in the first `k` groups. */
  function Count(groups: seq<seq<Message>>, k: nat): (n: nat)
    requires k <= |groups|
  {
    |Flatten(groups[..k])|
  }

  lemma PrefixOfGroups(groups: seq<seq<Message>>, k: nat)
    requires k <= |groups|
    ensures Count(groups, k) <= |Flatten(groups)|
    ensures Flatten(groups)[..Count(groups, k)] == Flatten(groups[..k])
  {
    assert groups == groups[..k] + groups[k..];
    FlattenConcat(groups[..k], groups[k..]);
  }

  lemma {:induction false} GroupsAtMost(groups: seq<seq<Message>>)
    requires AreGroups(groups)
    ensures |groups| <= |Flatten(groups)|
  {
    hide WellFormed;
    if groups == [] {
    } else {
      assert AreGroups(groups[1..]);
      GroupsAtMost(groups[1..]);
    }
  }

  lemma NextGroup(groups: seq<seq<Message>>, k: nat)
    requires k < |groups|
    ensures Count(groups, k + 1) == Count(groups, k) + |groups[k]|
    ensures groups[k] != [] ==> Held(Flatten(groups[..k + 1])) == Held(groups[k])
  {
    assert groups[..k + 1] == groups[..k] + [groups[k]];
    FlattenSnoc(groups[..k], groups[k]);
  }

  /** How many messages are ready after the first `k` writes. */
  lemma ReadyAfter(groups: seq<seq<Message>>, k: nat)
    requires AreGroups(groups) && k <= |groups|
    ensures Ready(Flatten(groups), Sum(Sizes(GroupImages(groups))[..k])) ==
            Count(groups, k) - if k == 0 then 0 else Held(groups[k - 1])
  {
    hide EncodeAll, Ready, WellFormed, Flatten, Sizes, Sum, GroupImages;
    var ms, n := Flatten(groups), Count(groups, k);
    PrefixOfGroups(groups, k);
    SumOfWrites(groups, k);
    ReadyAtBoundary(ms, n);
    if k == 0 {
      assert groups[..0] == [];
      FlattenNone<Message>();
    } else {
      NextGroup(groups, k - 1);
    }
  }

  lemma SumOfWrites(groups: seq<seq<Message>>, k: nat)
    requires AreGroups(groups) && k <= |groups|
    ensures Sum(Sizes(GroupImages(groups))[..k]) == TotalLength(Flatten(groups[..k]))
  {
    hide EncodeAll, WellFormed;
    var images := GroupImages(groups);
    assert Sizes(images)[..k] == Sizes(images[..k]);
    SumSizes(images[..k]);
    assert images[..k] == GroupImages(groups[..k]);
    assert AreGroups(groups[..k]);
    ImagesFlatten(groups[..k]);
    EncodeAllLength(Flatten(groups[..k]));
  }

  lemma WriteCounts(groups: seq<seq<Message>>, k: nat)
    requires AreGroups(groups) && k < |groups|
    ensures Counts(Flatten(groups), 0, Sizes(GroupImages(groups)), k) <==>
            k == |groups| - 1 || !LoneBacktrace(groups, k)
  {
    hide EncodeAll, Ready, WellFormed, Flatten, Count, Sum, Counts, Sizes, GroupImages, Held, LoneBacktrace;
    var start, all := Count(groups, k), Count(groups, |groups|);
    var previous, last := if k == 0 then 0 else Held(groups[k - 1]), Held(groups[|groups| - 1]);
    ReadyAfter(groups, k);
    ReadyAfter(groups, k + 1);
    NextGroup(groups, k);
    WholeSum(groups);
    CountsByReady(Flatten(groups), Sizes(GroupImages(groups)), k, start - previous,
      start + |groups[k]| - Held(groups[k]), all - last);
    LoneByCount(groups, k);
  }

  lemma LoneByCount(groups: seq<seq<Message>>, k: nat)
    requires AreGroups(groups) && k < |groups|
    ensures var previous := if k == 0 then 0 else Held(groups[k - 1]);
      k == |groups| - 1 || !LoneBacktrace(groups, k) <==>
        || Count(groups, k) - previous < Count(groups, k) + |groups[k]| - Held(groups[k])
        || Count(groups, k) - previous == Count(groups, |groups|) - Held(groups[|groups| - 1])
  {
    hide WellFormed, Flatten, Count;
    if k < |groups| - 1 {
      LaterGroups(groups, k);
    } else {
      NextGroup(groups, k);
    }
  }

  lemma CountsByReady(ms: seq<Message>, sizes: seq<nat>, k: nat, start: int, end: int, all: int)
    requires k < |sizes|
    requires Ready(ms, Sum(sizes[..k])) == start && Ready(ms, Sum(sizes[..k + 1])) == end &&
      Ready(ms, Sum(sizes)) == all
    ensures Counts(ms, 0, sizes, k) <==> start < end || start == all
  {
    hide Ready;
  }

  lemma WholeSum(groups: seq<seq<Message>>)
    requires AreGroups(groups) && groups != []
    ensures Ready(Flatten(groups), Sum(Sizes(GroupImages(groups)))) ==
      Count(groups, |groups|) - Held(groups[|groups| - 1])
  {
    hide EncodeAll, Ready, WellFormed, Flatten;
    var sizes := Sizes(GroupImages(groups));
    ReadyAfter(groups, |groups|);
    assert sizes[..|groups|] == sizes;
  }

  lemma LaterGroups(groups: seq<seq<Message>>, k: nat)
    requires AreGroups(groups) && k < |groups| - 1
    ensures Count(groups, |groups|) - Held(groups[|groups| - 1]) >= Count(groups, k) + 1
  {
    hide WellFormed;
    assert groups[..|groups|] == groups[..k] + groups[k..];
    FlattenConcat(groups[..k], groups[k..]);
    assert AreGroups(groups[k..]);
    GroupsAtMost(groups[k..]);
  }

  /** Reading write by write: everything arrives, but for a final backtrace, exactly when no write but the last
      is a lone backtrace. */
  lemma WritesReadInFull(groups: seq<seq<Message>>)
    requires AreGroups(groups)
    ensures AllWellFormed(Flatten(groups))
    ensures ReadInFull(Flatten(groups), GroupImages(groups)) <==>
            forall k :: 0 <= k < |groups| - 1 ==> !LoneBacktrace(groups, k)
  {
    hide EncodeAll, Ready, WellFormed, Counts, LoneBacktrace, ReadInFull;
    ImagesFlatten(groups);
    ReadInFullExactly(Flatten(groups), GroupImages(groups));
    var sizes := Sizes(GroupImages(groups));
    forall k | 0 <= k < |groups|
      ensures Counts(Flatten(groups), 0, sizes, k) <==> k == |groups| - 1 || !LoneBacktrace(groups, k)
    {
      WriteCounts(groups, k);
    }
    if EveryReadCounts(Flatten(groups), 0, sizes) {
      forall k | 0 <= k < |groups| - 1 ensures !LoneBacktrace(groups, k) {
        assert Counts(Flatten(groups), 0, sizes, k);
      }
    }
  }

  /** An empty write puts nothing into the pipe. */
  function NonEmpty<T>(writes: seq<seq<T>>): (chunks: seq<seq<T>>) {
    if writes == [] then []
    else if writes[|writes| - 1] == [] then NonEmpty(writes[..|writes| - 1])
    else NonEmpty(writes[..|writes| - 1]) + [writes[|writes| - 1]]
  }

  lemma {:induction false} NonEmptySame<T>(writes: seq<seq<T>>)
    requires forall k :: 0 <= k < |writes| ==> writes[k] != []
    ensures NonEmpty(writes) == writes
  {
    if writes == [] {
    } else {
      var front := writes[..|writes| - 1];
      assert forall k :: 0 <= k < |front| ==> front[k] == writes[k];
      NonEmptySame(front);
      assert writes == front + [writes[|writes| - 1]];
    }
  }

  /** All the messages of a session, in the order in which they are written. */
  function SessionMessages(before: seq<Message>, appMessage: Message, after: seq<Message>): (ms: seq<Message>) {
    [appMessage] + before + after
  }

  lemma SessionFlatten(before: seq<Message>, appMessage: Message, after: seq<Message>)
    ensures Flatten(SessionGroups(before, appMessage, after)) == SessionMessages(before, appMessage, after)
  {
    hide Batch, Flatten, OpeningGroups;
    var b := Batch(after);
    var opening := OpeningGroups(before, appMessage);
    BatchKeepsAll(after);
    FlattenSnoc(opening + b.written, b.waiting);
    FlattenConcat(opening, b.written);
    OpeningFlatten(before, appMessage);
    assert SessionMessages(before, appMessage, after) == [appMessage] + before + (Flatten(b.written) + b.waiting);
  }

  /** What the reader of the pipe gets from a session, write by write. */
  function SessionReads(before: seq<Message>, fd: int, appMessage: Message,
    after: seq<Message>): (chunks: seq<seq<byte>>)
    requires AllWellFormed(before) && WellFormed(appMessage) && AllWellFormed(after)
  {
    NonEmpty(Session(before, fd, appMessage, after).writes)
  }

  /** The groups of a session that are not empty, and the bytes they are read as. */
  lemma SessionReadsGroups(before: seq<Message>, fd: int, appMessage: Message, after: seq<Message>)
    returns (groups: seq<seq<Message>>)
    requires AllWellFormed(before) && WellFormed(appMessage) && AllWellFormed(after) && 0 < fd
    ensures groups == if after == [] then OpeningGroups(before, appMessage)
      else SessionGroups(before, appMessage, after)
    ensures AreGroups(groups) && Flatten(groups) == SessionMessages(before, appMessage, after)
    ensures SessionReads(before, fd, appMessage, after) == GroupImages(groups)
  {
    hide Encode, EncodeAll, WellFormed, Session, Batch, Flatten, GroupImages, NonEmpty, TotalLength;
    SessionWrites(before, fd, appMessage, after);
    SessionFlatten(before, appMessage, after);
    BatchKeepsAll(after);
    BatchBounds(after);
    var all := SessionGroups(before, appMessage, after);
    assert AllGroupsWellFormed(all);
    if after == [] {
      groups := OpeningGroups(before, appMessage);
      BatchNothing(after);
      assert all == groups + [[]];
      FlattenSnoc(groups, []);
      LastWriteEmpty(groups, all);
    } else {
      groups := all;
      forall k | 0 <= k < |all| ensures all[k] != [] {
        WrittenNotEmpty(after);
      }
    }
    NoEmptyImages(groups);
  }

  lemma NoEmptyImages(groups: seq<seq<Message>>)
    requires AreGroups(groups)
    ensures NonEmpty(GroupImages(groups)) == GroupImages(groups)
  {
    hide EncodeAll, WellFormed;
    forall k | 0 <= k < |groups| ensures GroupImages(groups)[k] != [] {
      EncodeAllLength(groups[k]);
      LengthPositive(groups[k]);
    }
    NonEmptySame(GroupImages(groups));
  }

  lemma LastWriteEmpty(groups: seq<seq<Message>>, all: seq<seq<Message>>)
    requires all == groups + [[]] && AllGroupsWellFormed(all) && AllGroupsWellFormed(groups)
    ensures NonEmpty(GroupImages(all)) == NonEmpty(GroupImages(groups))
  {
    hide EncodeAll, WellFormed;
    EncodeNone([]);
    assert GroupImages(all) == GroupImages(groups) + [[]];
    assert GroupImages(all)[..|all| - 1] == GroupImages(groups);
  }

  lemma LengthPositive(ms: seq<Message>)
    requires ms != []
    ensures 31 <= TotalLength(ms)
  {
  }

  lemma BatchNothing(ms: seq<Message>)
    requires ms == []
    ensures Batch(ms) == Batches([], [])
  {
  }

  lemma WrittenNotEmpty(ms: seq<Message>)
    ensures forall k :: 0 <= k < |Batch(ms).written| ==> 9 <= |Batch(ms).written[k]|
  {
    BatchBounds(ms);
    forall k | 0 <= k < |Batch(ms).written| ensures 9 <= |Batch(ms).written[k]| {
      LengthAtMost(Batch(ms).written[k]);
    }
  }

  lemma {:induction false} LengthAtMost(ms: seq<Message>)
    ensures TotalLength(ms) <= 436 * |ms|
  {
    if ms == [] {
    } else {
      LengthAtMost(ms[1..]);
    }
  }

  /** End to end: for every session, reading write by write leads to the handler calls of its messages, in order, once
      each, up to a final backtrace - exactly unless a lone backtrace was sent before the opening and more came after
      it. (The client sends no backtrace before the opening: it starts to only when the opening is done.) */
  lemma SessionDelivered(before: seq<Message>, fd: int, appMessage: Message, after: seq<Message>)
    requires AllWellFormed(before) && WellFormed(appMessage) && KindOf(appMessage.header.msgCode) == App &&
      AllWellFormed(after) && 0 < fd
    ensures var ms := SessionMessages(before, appMessage, after);
      (Receive([], SessionReads(before, fd, appMessage, after)).steps == Steps(ms[..|ms| - Held(ms)])
       <==> !(|before| == 1 && Held(before) == 1 && after != []))
  {
    hide Encode, EncodeAll, WellFormed, Batch, Flatten, Receive;
    var ms := SessionMessages(before, appMessage, after);
    var groups := SessionReadsGroups(before, fd, appMessage, after);
    WritesReadInFull(groups);
    ReadyAll(ms);
    WrittenNotEmpty(after);
    assert groups[0] == [appMessage] && Held(groups[0]) == 0;
    if |before| == 1 && Held(before) == 1 && after != [] {
      assert LoneBacktrace(groups, 1);
    } else {
      forall k | 0 <= k < |groups| - 1 ensures !LoneBacktrace(groups, k) {
      }
    }
  }

  /** No read of a session is longer than the reader's request for 4096 bytes, if what came before the opening fits its
      buffer. */
  lemma SessionReadsFit(before: seq<Message>, fd: int, appMessage: Message, after: seq<Message>)
    requires AllWellFormed(before) && WellFormed(appMessage) && AllWellFormed(after) && 0 < fd
    requires TotalLength(before) <= Transfer.BUFFER_SIZE
    ensures forall k :: 0 <= k < |SessionReads(before, fd, appMessage, after)| ==>
      |SessionReads(before, fd, appMessage, after)[k]| <= Transfer.BUFFER_SIZE
  {
    hide Encode, EncodeAll, WellFormed, Batch, Flatten, TotalLength;
    var groups := SessionReadsGroups(before, fd, appMessage, after);
    BatchBounds(after);
    TotalLengthOne(appMessage);
    forall k | 0 <= k < |groups| ensures |GroupImages(groups)[k]| <= Transfer.BUFFER_SIZE {
      EncodeAllLength(groups[k]);
    }
  }
}
