/**
 * The table of calls waiting for a reply, keyed by serial. A history lists, in order, the calls sent that expect a
 * reply and the replies that arrive; what the table does is compared with what the history says should happen.
 */
module Replies {
  /**
   * `handlers` stands for the pair of callbacks given with the call, `failed` for an error rather than a return, and
   * `throws` for a callback that, if one is made, ends in an exception, which is swallowed further out.
   */
  datatype TableEvent = Called(serial: nat, handlers: nat) | Replied(serial: nat, failed: bool, throws: bool)

  /** One callback made: the failure callback of the pair for an error, the success callback for a return. */
  datatype Answer = Answer(serial: nat, handlers: nat, failed: bool, threw: bool)

  datatype Table = Table(waiting: map<nat, nat>, answers: seq<Answer>) {
    /** `emplace`: a key already there keeps its callbacks. A key is erased only after its callback has returned. */
    function After(e: TableEvent): Table {
      match e
      case Called(serial, handlers) =>
        if serial in waiting then this else this.(waiting := waiting[serial := handlers])
      case Replied(serial, failed, throws) =>
        if serial !in waiting then this
        else
          var answer := Answer(serial, waiting[serial], failed, throws);
          Table(if throws then waiting else waiting - {serial}, answers + [answer])
    }
  }

  const EMPTY_TABLE := Table(map[], [])

  function TableAfter(events: seq<TableEvent>): Table {
    if events == [] then EMPTY_TABLE else TableAfter(events[..|events| - 1]).After(events[|events| - 1])
  }

  // ----- what a history says

  /** A reply whose callback returns. */
  predicate Settles(e: TableEvent, serial: nat) {
    e.Replied? && !e.throws && e.serial == serial
  }

  /** Nothing settles the serial at any place from `from` up to `to`. */
  predicate Unsettled(events: seq<TableEvent>, serial: nat, from: nat, to: nat)
    requires to <= |events|
  {
    forall k :: from <= k < to ==> !Settles(events[k], serial)
  }

  /** The call at i is not settled yet. */
  predicate Open(events: seq<TableEvent>, i: nat) {
    i < |events| && events[i].Called? && Unsettled(events, events[i].serial, i + 1, |events|)
  }

  /** The reply at j comes while the call at i waits. */
  predicate Answered(events: seq<TableEvent>, i: nat, j: nat) {
    && i < j < |events| && events[i].Called? && events[j].Replied? && events[i].serial == events[j].serial
    && Unsettled(events, events[i].serial, i + 1, j)
  }

  predicate SameCall(a: TableEvent, b: TableEvent) {
    a.Called? && b.Called? && a.serial == b.serial
  }

  /** No serial is used for a second call while the first still waits. Calls with distinct serials satisfy this. */
  predicate Unambiguous(events: seq<TableEvent>) {
    forall i, j :: 0 <= i < j < |events| && SameCall(events[i], events[j]) ==>
      !Unsettled(events, events[i].serial, i + 1, j)
  }

  function CallCount(events: seq<TableEvent>): nat {
    if events == [] then 0
    else CallCount(events[..|events| - 1]) + if events[|events| - 1].Called? then 1 else 0
  }

  // ----- the keys

  /** Whatever the history, the keys are exactly the serials of calls not answered yet. */
  lemma {:induction false} KeysAreOpenCalls(events: seq<TableEvent>)
    ensures forall serial :: serial in TableAfter(events).waiting <==>
              exists i :: 0 <= i < |events| && Open(events, i) && events[i].serial == serial
  {
    if events != [] {
      var before := events[..|events| - 1];
      KeysAreOpenCalls(before);
      forall serial
        ensures serial in TableAfter(events).waiting
          <==> exists i :: 0 <= i < |events| && Open(events, i) && events[i].serial == serial
      {
        KeyAfter(before, events[|events| - 1], serial);
        assert before + [events[|events| - 1]] == events;
      }
    }
  }

  lemma {:induction false} KeyAfter(before: seq<TableEvent>, e: TableEvent, serial: nat)
    requires serial in TableAfter(before).waiting
      <==> exists i :: 0 <= i < |before| && Open(before, i) && before[i].serial == serial
    ensures serial in TableAfter(before + [e]).waiting <==>
              exists i :: 0 <= i < |before| + 1 && Open(before + [e], i) && (before + [e])[i].serial == serial
  {
    hide TableAfter, Open;
    var events := before + [e];
    TableGrows(before, e);
    assert events[|before|] == e && forall i :: 0 <= i < |before| ==> events[i] == before[i];
    OpensAfter(before, e);
  }

  lemma TableGrows(before: seq<TableEvent>, e: TableEvent)
    ensures TableAfter(before + [e]) == TableAfter(before).After(e)
  {
    assert (before + [e])[..|before|] == before;
  }

  lemma OpensAfter(before: seq<TableEvent>, e: TableEvent)
    ensures forall i :: 0 <= i < |before| ==>
      (Open(before + [e], i) <==> Open(before, i) && !Settles(e, before[i].serial))
    ensures Open(before + [e], |before|) <==> e.Called?
  {
    hide Settles;
    forall i | 0 <= i < |before|
      ensures Open(before + [e], i) <==> Open(before, i) && !Settles(e, before[i].serial)
    {
      OpenAfter(before, e, i);
    }
  }

  lemma OpenAfter(before: seq<TableEvent>, e: TableEvent, i: nat)
    requires i < |before|
    ensures Open(before + [e], i) <==> Open(before, i) && !Settles(e, before[i].serial)
  {
    var events := before + [e];
    if Open(events, i) {
      forall k | i + 1 <= k < |before|
        ensures !Settles(before[k], before[i].serial)
      {
        assert events[k] == before[k];
      }
      assert events[|before|] == e;
    }
  }

  /**
   * A reply nothing waits for, because it is unknown or a duplicate, leaves the table as it is; any other reply
   * changes it.
   */
  lemma IgnoredExactlyWhenNothingWaits(events: seq<TableEvent>, serial: nat, failed: bool, throws: bool)
    ensures TableAfter(events + [Replied(serial, failed, throws)]) == TableAfter(events)
            <==> forall i :: 0 <= i < |events| && events[i].serial == serial ==> !Open(events, i)
  {
    var more := events + [Replied(serial, failed, throws)];
    assert more[..|events|] == events;
    KeysAreOpenCalls(events);
    assert serial in TableAfter(events).waiting ==> |TableAfter(more).answers| == |TableAfter(events).answers| + 1;
  }

  // ----- the callbacks

  /**
   * Each answer belongs to one call and one reply that came while it waited; they are made in the order of the
   * replies.
   */
  ghost predicate Matches(events: seq<TableEvent>, answers: seq<Answer>, calls: seq<nat>, replies: seq<nat>) {
    && |calls| == |replies| == |answers|
    && (forall k :: 0 <= k < |answers| ==>
          Answered(events, calls[k], replies[k]) && answers[k] == AnswerTo(events[calls[k]], events[replies[k]]))
    && (forall k, l :: 0 <= k < l < |answers| ==> replies[k] < replies[l])
  }

  function AnswerTo(call: TableEvent, reply: TableEvent): Answer
    requires call.Called? && reply.Replied?
  {
    Answer(call.serial, call.handlers, reply.failed, reply.throws)
  }

  /** The pairs a matching leaves out: none. */
  ghost predicate Complete(events: seq<TableEvent>, calls: seq<nat>, replies: seq<nat>)
    requires |calls| == |replies|
  {
    forall i: nat, j: nat :: i < |events| && Answered(events, i, j) ==>
      exists k :: 0 <= k < |calls| && calls[k] == i && replies[k] == j
  }

  predicate Distinct(calls: seq<nat>) {
    forall k, l :: 0 <= k < l < |calls| ==> calls[k] != calls[l]
  }

  /** A callback threw and a further reply to the same serial followed. */
  predicate Retried(events: seq<TableEvent>) {
    exists i: nat, j: nat, l: nat ::
      i < |events| && j < l < |events| && Answered(events, i, j) && events[j].throws && RepliesAgain(events, j, l)
  }

  predicate RepliesAgain(events: seq<TableEvent>, j: nat, l: nat)
    requires j < l < |events|
  {
    events[j].Replied? && events[l].Replied? && events[l].serial == events[j].serial
  }

  /**
   * Callbacks are made for exactly the replies that come while a call waits, in their order, from the pair given with
   * that call and of the reply's kind. No call gets a second one if and only if no callback that throws is followed by
   * a further reply.
   */
  lemma EachCallAnsweredOnce(events: seq<TableEvent>) returns (calls: seq<nat>, replies: seq<nat>)
    requires Unambiguous(events)
    ensures Matches(events, TableAfter(events).answers, calls, replies)
    ensures Complete(events, calls, replies)
    ensures Distinct(calls) <==> !Retried(events)
  {
    calls, replies := CallbacksMatch(events);
    if !Distinct(calls) {
      SecondIsRetry(events, TableAfter(events).answers, calls, replies);
    }
    if Retried(events) {
      RetryIsSecond(events, calls, replies);
    }
  }

  lemma SecondIsRetry(events: seq<TableEvent>, answers: seq<Answer>, calls: seq<nat>, replies: seq<nat>)
    requires Matches(events, answers, calls, replies) && !Distinct(calls)
    ensures Retried(events)
  {
    var k, l :| 0 <= k < l < |calls| && calls[k] == calls[l];
    assert Answered(events, calls[k], replies[k]) && Answered(events, calls[l], replies[l]);
    assert !Settles(events[replies[k]], events[calls[k]].serial);
    assert RepliesAgain(events, replies[k], replies[l]);
  }

  lemma RetryIsSecond(events: seq<TableEvent>, calls: seq<nat>, replies: seq<nat>)
    requires |calls| == |replies| && Complete(events, calls, replies) && Retried(events)
    ensures !Distinct(calls)
  {
    var i: nat, j: nat, l: nat :|
      i < |events| && j < l < |events| && Answered(events, i, j) && events[j].throws && RepliesAgain(events, j, l);
    var next := NextReply(events, i, j, l);
    var k :| 0 <= k < |calls| && calls[k] == i && replies[k] == j;
    var m :| 0 <= m < |calls| && calls[m] == i && replies[m] == next;
    assert k != m;
  }

  /** The next reply after one that does not settle the call finds it waiting still. */
  lemma NextReply(events: seq<TableEvent>, i: nat, j: nat, l: nat) returns (next: nat)
    requires i < |events| && j < l < |events| && Answered(events, i, j) && events[j].throws &&
      RepliesAgain(events, j, l)
    ensures j < next && Answered(events, i, next)
    decreases l
  {
    if m: nat :| j < m < l && RepliesAgain(events, j, m) {
      next := NextReply(events, i, j, m);
    } else {
      next := l;
      forall k | i + 1 <= k < l
        ensures !Settles(events[k], events[i].serial)
      {
        assert j < k ==> !RepliesAgain(events, j, k);
      }
    }
  }

  lemma {:induction false} CallbacksMatch(events: seq<TableEvent>) returns (calls: seq<nat>, replies: seq<nat>)
    requires Unambiguous(events)
    ensures Matches(events, TableAfter(events).answers, calls, replies)
    ensures Complete(events, calls, replies)
  {
    if events == [] {
      return [], [];
    }
    var n := |events| - 1;
    var before, e := events[..n], events[n];
    assert before + [e] == events;
    UnambiguousBefore(before, e);
    calls, replies := CallbacksMatch(before);
    AnsweredAfter(before, e);
    if e.Replied? && e.serial in TableAfter(before).waiting {
      var i := WaitingCall(before, e.serial);
      NewAnswer(before, e, calls, replies, i);
      calls, replies := calls + [i], replies + [n];
    } else {
      NoNewAnswer(before, e, calls, replies);
    }
  }

  lemma UnambiguousBefore(before: seq<TableEvent>, e: TableEvent)
    requires Unambiguous(before + [e])
    ensures Unambiguous(before)
  {
    var events := before + [e];
    forall i, j | 0 <= i < j < |before| && SameCall(before[i], before[j])
      ensures !Unsettled(before, before[i].serial, i + 1, j)
    {
      assert events[i] == before[i] && events[j] == before[j];
      UnsettledBefore(before, e, before[i].serial, i + 1, j);
    }
  }

  lemma UnsettledBefore(before: seq<TableEvent>, e: TableEvent, serial: nat, from: nat, to: nat)
    requires to <= |before|
    ensures Unsettled(before + [e], serial, from, to) <==> Unsettled(before, serial, from, to)
  {
    var events := before + [e];
    assert forall k :: 0 <= k < |before| ==> events[k] == before[k];
  }

  /** Replies that found a call waiting stay such; a new one finds exactly the calls still open. */
  lemma AnsweredAfter(before: seq<TableEvent>, e: TableEvent)
    ensures forall i: nat, j: nat :: i < |before| && j < |before| ==>
      (Answered(before + [e], i, j) <==> Answered(before, i, j))
    ensures forall i :: 0 <= i < |before| ==>
              (Answered(before + [e], i, |before|) <==> e.Replied? && Open(before, i) && before[i].serial == e.serial)
  {
    var events := before + [e];
    forall i: nat, j: nat | i < |before| && j < |before|
      ensures Answered(events, i, j) <==> Answered(before, i, j)
    {
      if i < j {
        UnsettledBefore(before, e, before[i].serial, i + 1, j);
      }
    }
    forall i: nat | i < |before|
      ensures Answered(events, i, |before|) <==> e.Replied? && Open(before, i) && before[i].serial == e.serial
    {
      UnsettledBefore(before, e, before[i].serial, i + 1, |before|);
    }
  }

  /** The call a key stands for: the one that is open, with the callbacks given with it. */
  lemma {:induction false} WaitingCall(events: seq<TableEvent>, serial: nat) returns (i: nat)
    requires Unambiguous(events) && serial in TableAfter(events).waiting
    ensures Open(events, i) && events[i].serial == serial && events[i].handlers == TableAfter(events).waiting[serial]
    ensures forall l :: 0 <= l < |events| && Open(events, l) && events[l].serial == serial ==> l == i
  {
    var n := |events| - 1;
    var before, e := events[..n], events[n];
    assert before + [e] == events;
    UnambiguousBefore(before, e);
    forall l | 0 <= l < n
      ensures Open(events, l) <==> Open(before, l) && !Settles(e, before[l].serial)
    {
      OpenAfter(before, e, l);
    }
    if serial in TableAfter(before).waiting {
      i := WaitingCall(before, serial);
      if e.Called? && e.serial == serial {
        UnsettledBefore(before, e, serial, i + 1, n);
        assert false;
      }
    } else {
      i := n;
      KeysAreOpenCalls(before);
    }
  }

  lemma {:induction false} NewAnswer(before: seq<TableEvent>, e: TableEvent, calls: seq<nat>, replies: seq<nat>, i: nat)
    requires Matches(before, TableAfter(before).answers, calls, replies) && Complete(before, calls, replies)
    requires e.Replied? && e.serial in TableAfter(before).waiting
    requires Open(before, i) && before[i].serial == e.serial &&
      before[i].handlers == TableAfter(before).waiting[e.serial]
    requires forall l :: 0 <= l < |before| && Open(before, l) && before[l].serial == e.serial ==> l == i
    ensures Matches(before + [e], TableAfter(before + [e]).answers, calls + [i], replies + [|before|])
    ensures Complete(before + [e], calls + [i], replies + [|before|])
  {
    hide TableAfter, Answered, Complete;
    TableGrows(before, e);
    assert |calls| == |replies|;
    hide Matches;
    assert AnswerTo(before[i], e) == Answer(e.serial, TableAfter(before).waiting[e.serial], e.failed, e.throws);
    MatchAdded(before, e, TableAfter(before).answers, calls, replies, i);
    CompleteAfter(before, e, calls, replies, i);
  }

  lemma MatchAdded(before: seq<TableEvent>, e: TableEvent, answers: seq<Answer>, calls: seq<nat>, replies: seq<nat>,
                   i: nat)
    requires Matches(before, answers, calls, replies)
    requires e.Replied? && Open(before, i) && before[i].serial == e.serial
    ensures Matches(before + [e], answers + [AnswerTo(before[i], e)], calls + [i], replies + [|before|])
  {
    hide Answered, AnswerTo;
    var events, n := before + [e], |before|;
    AnsweredAfter(before, e);
    assert events[n] == e && forall k :: 0 <= k < n ==> events[k] == before[k];
    forall k | 0 <= k < |calls|
      ensures Answered(events, calls[k], replies[k]) && calls[k] < n && replies[k] < n
    {
      assert Answered(before, calls[k], replies[k]);
      AnsweredInside(before, calls[k], replies[k]);
    }
  }

  lemma AnsweredInside(events: seq<TableEvent>, i: nat, j: nat)
    requires Answered(events, i, j)
    ensures i < j < |events|
  {}

  lemma CompleteAfter(before: seq<TableEvent>, e: TableEvent, calls: seq<nat>, replies: seq<nat>, i: nat)
    requires |calls| == |replies| && Complete(before, calls, replies)
    requires e.Replied?
    requires forall l :: 0 <= l < |before| && Open(before, l) && before[l].serial == e.serial ==> l == i
    ensures Complete(before + [e], calls + [i], replies + [|before|])
  {
    hide Answered, Open;
    var events, n := before + [e], |before|;
    AnsweredAfter(before, e);
    var allCalls, allReplies := calls + [i], replies + [n];
    forall a: nat, j: nat | a < |events| && Answered(events, a, j)
      ensures exists k :: 0 <= k < |allCalls| && allCalls[k] == a && allReplies[k] == j
    {
      AnsweredInside(events, a, j);
      if j < n {
        assert Answered(before, a, j);
        var k :| 0 <= k < |calls| && calls[k] == a && replies[k] == j;
        assert allCalls[k] == a && allReplies[k] == j;
      } else {
        assert allCalls[|calls|] == a && allReplies[|calls|] == j;
      }
    }
  }

  lemma NoNewAnswer(before: seq<TableEvent>, e: TableEvent, calls: seq<nat>, replies: seq<nat>)
    requires Matches(before, TableAfter(before).answers, calls, replies) && Complete(before, calls, replies)
    requires e.Replied? ==> e.serial !in TableAfter(before).waiting
    ensures Matches(before + [e], TableAfter(before + [e]).answers, calls, replies)
    ensures Complete(before + [e], calls, replies)
  {
    var events, n := before + [e], |before|;
    assert events[..n] == before;
    AnsweredAfter(before, e);
    KeysAreOpenCalls(before);
    forall a: nat, j: nat | a < |events| && Answered(events, a, j)
      ensures exists k :: 0 <= k < |calls| && calls[k] == a && replies[k] == j
    {
      assert j < n;
      assert Answered(before, a, j);
    }
  }

  // ----- conservation

  /** The callbacks that returned. */
  function Returned(answers: seq<Answer>): nat {
    if answers == [] then 0
    else Returned(answers[..|answers| - 1]) + if answers[|answers| - 1].threw then 0 else 1
  }

  /**
   * Every call is either waiting or had a callback that returned, exactly as long as no serial is used again while it
   * waits.
   */
  lemma {:induction false} WaitingOrAnswered(events: seq<TableEvent>)
    ensures |TableAfter(events).waiting| + Returned(TableAfter(events).answers) <= CallCount(events)
    ensures |TableAfter(events).waiting| + Returned(TableAfter(events).answers) == CallCount(events)
            <==> Unambiguous(events)
  {
    if events != [] {
      var n := |events| - 1;
      var before, e := events[..n], events[n];
      assert before + [e] == events;
      WaitingOrAnswered(before);
      KeysAreOpenCalls(before);
      UnambiguousAfter(before, e);
      hide Unambiguous, Open;
      CountAfter(TableAfter(before), e);
    }
  }

  /** A new call adds one; a reply moves one from waiting to returned, or none if its callback throws. */
  lemma CountAfter(t: Table, e: TableEvent)
    ensures |t.After(e).waiting| + Returned(t.After(e).answers)
         == |t.waiting| + Returned(t.answers) + if e.Called? && e.serial !in t.waiting then 1 else 0
  {
    if e.Called? {
      assert e.serial !in t.waiting ==> |t.waiting[e.serial := e.handlers]| == |t.waiting| + 1;
    } else if e.serial in t.waiting {
      assert t.waiting == (t.waiting - {e.serial})[e.serial := t.waiting[e.serial]];
      assert t.After(e).answers[..|t.answers|] == t.answers;
    }
  }

  lemma UnambiguousAfter(before: seq<TableEvent>, e: TableEvent)
    ensures Unambiguous(before + [e]) <==>
              && Unambiguous(before)
              && !(e.Called? && exists i :: 0 <= i < |before| && Open(before, i) && before[i].serial == e.serial)
  {
    var events, n := before + [e], |before|;
    if Unambiguous(events) {
      UnambiguousBefore(before, e);
      forall i | 0 <= i < n && e.Called? && Open(before, i)
        ensures before[i].serial != e.serial
      {
        UnsettledBefore(before, e, before[i].serial, i + 1, n);
        assert events[i] == before[i] && events[n] == e;
      }
    } else {
      var i, j :| 0 <= i < j < |events| && SameCall(events[i], events[j])
                  && Unsettled(events, events[i].serial, i + 1, j);
      UnsettledBefore(before, e, events[i].serial, i + 1, j);
      if j < n {
        assert before[i].serial == before[j].serial;
      } else {
        assert Open(before, i);
      }
    }
  }

  /** Two calls with one serial: the callbacks of the second are never made. */
  lemma ReusedSerialLosesCallbacks(serial: nat, first: nat, second: nat, failed: bool)
    ensures var a, b, r := Called(serial, first), Called(serial, second), Replied(serial, failed, false);
            TableAfter([a, b, r, r]) == Table(map[], [Answer(serial, first, failed, false)])
  {
    var a, b, r := Called(serial, first), Called(serial, second), Replied(serial, failed, false);
    assert [a, b, r, r][..3] == [a, b, r] && [a, b, r][..2] == [a, b] && [a, b][..1] == [a] && [a][..0] == [];
    assert TableAfter([a]) == Table(map[serial := first], []);
    assert TableAfter([a, b]) == Table(map[serial := first], []);
    assert TableAfter([a, b, r]) == Table(map[], [Answer(serial, first, failed, false)]);
  }

  /** A callback that throws is made again for the next reply. */
  lemma ThrowingCallbackIsRepeated(serial: nat, handlers: nat, failed: bool)
    ensures var call, bad, good := Called(serial, handlers), Replied(serial, failed, true),
      Replied(serial, failed, false);
            TableAfter([call, bad, good])
            == Table(map[], [Answer(serial, handlers, failed, true), Answer(serial, handlers, failed, false)])
  {
    var call, bad, good := Called(serial, handlers), Replied(serial, failed, true), Replied(serial, failed, false);
    assert [call, bad, good][..2] == [call, bad] && [call, bad][..1] == [call] && [call][..0] == [];
    assert TableAfter([call]) == Table(map[serial := handlers], []);
    assert TableAfter([call, bad]) == Table(map[serial := handlers], [Answer(serial, handlers, failed, true)]);
  }
}
