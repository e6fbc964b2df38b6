/**
 * Which callbacks a session makes: each reply that finds its call waiting makes one of the pair sent with that call.
 */
module Callbacks {
  import opened Wrappers
  import opened Octets
  import opened Messages
  import opened Receiving
  import opened Protocol
  import opened Delivery
  import opened Transports
  import opened Authentication
  import opened Replies
  import opened Sessions
  import opened PacketBytes

  /** A call is entered in the table if and only if the packet that is sent asks for a reply. */
  lemma ReplyExpectedAsSent(o: Order, m: Outgoing)
    requires m.MethodCall?
    ensures |Packet(o, m)| >= 16 && (ReplyExpected(m) <==> Packet(o, m)[2] % 2 == 0)
  {
    hide Packet;
    FlagsAreSent(o, m);
  }

  /**
   * The k-th handling finds the call of the i-th event waiting: the call was sent with a reply expected before, when
   * `seen[i]` messages had been handled; the handling is a return or an error for its serial; and no callback for that
   * serial has returned in between.
   */
  predicate Finds(events: seq<Event>, seen: seq<nat>, handled: seq<Handling>, throws: set<nat>, i: nat, k: nat) {
    && i < |events| && i < |seen| && events[i].Send? && ReplyExpected(events[i].message)
    && seen[i] <= k < |handled| && RepliesTo(handled[k], events[i].message.serial)
    && Quiet(handled, throws, events[i].message.serial, seen[i], k)
  }

  /** No callback for the serial returned from `from` up to `to`. */
  predicate Quiet(handled: seq<Handling>, throws: set<nat>, serial: nat, from: nat, to: nat)
    requires to <= |handled|
  {
    forall l :: from <= l < to ==> !SettlesAt(handled[l], l, throws, serial)
  }

  /** The callback a handling makes: the failure callback for an error, the success callback for a return. */
  function CallbackMade(e: Event, h: Handling, threw: bool): Answer
    requires e.Send? && h.Dispatched?
  {
    Answer(e.message.serial, e.handlers, h.message.kind == 3, threw)
  }

  /** Callbacks, one by one: which call each is for, and which handling made it. */
  ghost predicate Made(events: seq<Event>, seen: seq<nat>, handled: seq<Handling>, throws: set<nat>,
                       answers: seq<Answer>, calls: seq<nat>, replies: seq<nat>) {
    && |calls| == |replies| == |answers|
    && (forall n :: 0 <= n < |answers| ==>
          && Finds(events, seen, handled, throws, calls[n], replies[n])
          && answers[n] == CallbackMade(events[calls[n]], handled[replies[n]], replies[n] in throws))
    && (forall n, p :: 0 <= n < p < |answers| ==> replies[n] < replies[p])
  }

  /** Every handling that finds a call waiting is among them. */
  ghost predicate AllMade(events: seq<Event>, seen: seq<nat>, handled: seq<Handling>, throws: set<nat>,
                          calls: seq<nat>, replies: seq<nat>)
    requires |calls| == |replies|
  {
    forall i: nat, k: nat :: Finds(events, seen, handled, throws, i, k) ==>
      exists n :: 0 <= n < |calls| && calls[n] == i && replies[n] == k
  }

  /** The i-th event is a call nothing has settled yet. */
  predicate Waits(events: seq<Event>, seen: seq<nat>, handled: seq<Handling>, throws: set<nat>, i: nat) {
    && i < |events| && i < |seen| && events[i].Send? && ReplyExpected(events[i].message)
    && seen[i] <= |handled| && Quiet(handled, throws, events[i].message.serial, seen[i], |handled|)
  }

  /** The keys of the table are the serials of waiting calls, and the callbacks kept are those sent with them. */
  ghost predicate Keyed(events: seq<Event>, seen: seq<nat>, handled: seq<Handling>, throws: set<nat>,
                        waiting: map<nat, nat>) {
    && (forall i: nat :: Waits(events, seen, handled, throws, i) ==> events[i].message.serial in waiting)
    && (forall serial :: serial in waiting ==> exists i: nat ::
          Waits(events, seen, handled, throws, i) && Kept(events[i], serial, waiting[serial]))
  }

  predicate Kept(e: Event, serial: nat, handlers: nat) {
    e.Send? && e.message.serial == serial && e.handlers == handlers
  }

  ghost predicate Tracked(events: seq<Event>, seen: seq<nat>, handled: seq<Handling>, throws: set<nat>, t: Table,
                          calls: seq<nat>, replies: seq<nat>) {
    && |seen| == |events| && (forall i :: 0 <= i < |seen| ==> seen[i] <= |handled|)
    && Made(events, seen, handled, throws, t.answers, calls, replies)
    && AllMade(events, seen, handled, throws, calls, replies)
    && Keyed(events, seen, handled, throws, t.waiting)
  }

  // ----- one event more

  /** An event that is no call changes nothing. */
  lemma OtherEventTracked(events: seq<Event>, seen: seq<nat>, handled: seq<Handling>, throws: set<nat>, t: Table,
                          calls: seq<nat>, replies: seq<nat>, e: Event, n: nat)
    requires Tracked(events, seen, handled, throws, t, calls, replies) && n <= |handled|
    requires e.Send? ==> !ReplyExpected(e.message)
    ensures Tracked(events + [e], seen + [n], handled, throws, t, calls, replies)
  {
    hide RepliesTo, SettlesAt, Quiet, ReplyExpected;
    EarlierEvents(events, seen, handled, throws, e, n);
  }

  lemma EarlierEvents(events: seq<Event>, seen: seq<nat>, handled: seq<Handling>, throws: set<nat>, e: Event, n: nat)
    requires |seen| == |events|
    ensures forall i: nat, k: nat :: i < |events| ==>
      (Finds(events + [e], seen + [n], handled, throws, i, k) <==> Finds(events, seen, handled, throws, i, k))
    ensures forall i: nat :: i < |events| ==>
      (Waits(events + [e], seen + [n], handled, throws, i) <==> Waits(events, seen, handled, throws, i))
  {
    hide RepliesTo, Quiet, ReplyExpected;
    assert forall i :: 0 <= i < |events| ==> (events + [e])[i] == events[i] && (seen + [n])[i] == seen[i];
  }

  /** A call with a serial of its own is entered. */
  lemma CallTracked(events: seq<Event>, seen: seq<nat>, handled: seq<Handling>, throws: set<nat>, t: Table,
                    calls: seq<nat>, replies: seq<nat>, e: Event)
    requires Tracked(events, seen, handled, throws, t, calls, replies)
    requires e.Send? && ReplyExpected(e.message)
    requires forall i :: 0 <= i < |events| && Calls(events[i], e.message.serial) ==> false
    ensures var after := t.After(Called(e.message.serial, e.handlers));
            Tracked(events + [e], seen + [|handled|], handled, throws, after, calls, replies)
  {
    hide RepliesTo, SettlesAt;
    var n := |events|;
    EarlierEvents(events, seen, handled, throws, e, |handled|);
    assert (events + [e])[n] == e && (seen + [|handled|])[n] == |handled|;
    var serial := e.message.serial;
    assert serial !in t.waiting;
    assert Waits(events + [e], seen + [|handled|], handled, throws, n);
    var waiting := t.waiting[serial := e.handlers];
    forall other | other in waiting
      ensures exists i: nat ::
        Waits(events + [e], seen + [|handled|], handled, throws, i) && Kept((events + [e])[i], other, waiting[other])
    {
      if other == serial {
        assert Kept((events + [e])[n], other, waiting[other]);
      } else {
        var i: nat :| Waits(events, seen, handled, throws, i) && Kept(events[i], other, t.waiting[other]);
        assert (events + [e])[i] == events[i];
      }
    }
  }

  // ----- one handling more

  /** What the table makes of a handling that is the n-th of the session. */
  function AfterHandling(t: Table, h: Handling, n: nat, throws: set<nat>): Table
    requires IsReply(h) ==> h.message.replySerial.Some?
  {
    if IsReply(h) then t.After(ReplyEvent(h, n in throws)) else t
  }

  lemma QuietAppends(handled: seq<Handling>, throws: set<nat>, serial: nat, from: nat, h: Handling)
    requires from <= |handled|
    ensures forall to :: from <= to <= |handled| ==>
      (Quiet(handled + [h], throws, serial, from, to) <==> Quiet(handled, throws, serial, from, to))
    ensures Quiet(handled + [h], throws, serial, from, |handled| + 1)
            <==> Quiet(handled, throws, serial, from, |handled|) && !SettlesAt(h, |handled|, throws, serial)
  {
    hide SettlesAt;
    var all := handled + [h];
    assert all[|handled|] == h && forall l :: 0 <= l < |handled| ==> all[l] == handled[l];
  }

  /**
   * Earlier finds stay; the new handling finds exactly the waiting calls it replies to; waiting goes on unless
   * settled.
   */
  lemma HandlingAppends(events: seq<Event>, seen: seq<nat>, handled: seq<Handling>, throws: set<nat>, h: Handling)
    requires |seen| == |events| && forall i :: 0 <= i < |seen| ==> seen[i] <= |handled|
    ensures forall i: nat, k: nat :: k < |handled| ==>
      (Finds(events, seen, handled + [h], throws, i, k) <==> Finds(events, seen, handled, throws, i, k))
    ensures forall i: nat ::
      (Finds(events, seen, handled + [h], throws, i, |handled|)
       <==> Waits(events, seen, handled, throws, i) && RepliesTo(h, events[i].message.serial))
    ensures forall i: nat ::
      (Waits(events, seen, handled + [h], throws, i)
       <==> Waits(events, seen, handled, throws, i) && !SettlesAt(h, |handled|, throws, events[i].message.serial))
  {
    hide RepliesTo, SettlesAt, Quiet, ReplyExpected;
    var all := handled + [h];
    forall i: nat, k: nat | k < |handled|
      ensures Finds(events, seen, all, throws, i, k) <==> Finds(events, seen, handled, throws, i, k)
    {
      if i < |events| && events[i].Send? {
        QuietAppends(handled, throws, events[i].message.serial, seen[i], h);
        assert all[k] == handled[k];
      }
    }
    forall i: nat
      ensures Finds(events, seen, all, throws, i, |handled|)
        <==> Waits(events, seen, handled, throws, i) && RepliesTo(h, events[i].message.serial)
      ensures Waits(events, seen, all, throws, i)
        <==> Waits(events, seen, handled, throws, i) && !SettlesAt(h, |handled|, throws, events[i].message.serial)
    {
      if i < |events| && events[i].Send? {
        QuietAppends(handled, throws, events[i].message.serial, seen[i], h);
        assert all[|handled|] == h;
      }
    }
  }

  lemma HandlingTracked(events: seq<Event>, seen: seq<nat>, handled: seq<Handling>, throws: set<nat>, t: Table,
                        calls: seq<nat>, replies: seq<nat>, h: Handling)
      returns (allCalls: seq<nat>, allReplies: seq<nat>)
    requires Tracked(events, seen, handled, throws, t, calls, replies) && CallSerialsDistinct(events)
    requires IsReply(h) ==> h.message.replySerial.Some?
    ensures Tracked(events, seen, handled + [h], throws, AfterHandling(t, h, |handled|, throws), allCalls, allReplies)
  {
    hide Quiet, ReplyExpected, CallSerialsDistinct;
    HandlingAppends(events, seen, handled, throws, h);
    if IsReply(h) && h.message.replySerial.value in t.waiting {
      var serial := h.message.replySerial.value;
      var i: nat :| Waits(events, seen, handled, throws, i) && Kept(events[i], serial, t.waiting[serial]);
      allCalls, allReplies := calls + [i], replies + [|handled|];
      OnlyOneWaits(events, seen, handled, throws, i);
      CallbackTracked(events, seen, handled, throws, t, calls, replies, h, i);
    } else {
      allCalls, allReplies := calls, replies;
      NoCallbackTracked(events, seen, handled, throws, t, calls, replies, h);
    }
  }

  /** No other call with its serial waits. */
  ghost predicate OnlyWaiting(events: seq<Event>, seen: seq<nat>, handled: seq<Handling>, throws: set<nat>, i: nat)
    requires i < |events| && events[i].Send?
  {
    forall j: nat :: Waits(events, seen, handled, throws, j) && Calls(events[j], events[i].message.serial) ==> j == i
  }

  lemma OnlyOneWaits(events: seq<Event>, seen: seq<nat>, handled: seq<Handling>, throws: set<nat>, i: nat)
    requires CallSerialsDistinct(events) && Waits(events, seen, handled, throws, i)
    ensures OnlyWaiting(events, seen, handled, throws, i)
  {
    hide Quiet, ReplyExpected;
  }

  lemma NoCallbackTracked(events: seq<Event>, seen: seq<nat>, handled: seq<Handling>, throws: set<nat>, t: Table,
                          calls: seq<nat>, replies: seq<nat>, h: Handling)
    requires Tracked(events, seen, handled, throws, t, calls, replies)
    requires IsReply(h) ==> h.message.replySerial.Some? && h.message.replySerial.value !in t.waiting
    ensures AfterHandling(t, h, |handled|, throws) == t
    ensures Tracked(events, seen, handled + [h], throws, t, calls, replies)
  {
    hide Quiet, ReplyExpected;
    HandlingAppends(events, seen, handled, throws, h);
    var all := handled + [h];
    assert forall k :: 0 <= k < |handled| ==> all[k] == handled[k];
    hide Finds, Waits;
    assert forall i: nat :: Waits(events, seen, handled, throws, i) ==> !RepliesTo(h, events[i].message.serial);
  }

  lemma CallbackTracked(events: seq<Event>, seen: seq<nat>, handled: seq<Handling>, throws: set<nat>, t: Table,
                        calls: seq<nat>, replies: seq<nat>, h: Handling, i: nat)
    requires Tracked(events, seen, handled, throws, t, calls, replies)
    requires IsReply(h) && h.message.replySerial.Some? && h.message.replySerial.value in t.waiting
    requires Waits(events, seen, handled, throws, i)
    requires Kept(events[i], h.message.replySerial.value, t.waiting[h.message.replySerial.value])
    requires OnlyWaiting(events, seen, handled, throws, i)
    ensures var after := AfterHandling(t, h, |handled|, throws);
            Tracked(events, seen, handled + [h], throws, after, calls + [i], replies + [|handled|])
  {
    var n := |handled|;
    var all, after := handled + [h], AfterHandling(t, h, n, throws);
    HandlingAppends(events, seen, handled, throws, h);
    assert all[n] == h && forall k :: 0 <= k < n ==> all[k] == handled[k];
    assert after.answers == t.answers + [CallbackMade(events[i], h, n in throws)];
    hide Quiet, ReplyExpected;
    MadeGrows(events, seen, handled, throws, t.answers, calls, replies, h, i);
    AllMadeGrows(events, seen, handled, throws, calls, replies, h, i);
    KeysGrow(events, seen, handled, throws, t, h);
  }

  lemma MadeGrows(events: seq<Event>, seen: seq<nat>, handled: seq<Handling>, throws: set<nat>, answers: seq<Answer>,
                  calls: seq<nat>, replies: seq<nat>, h: Handling, i: nat)
    requires |seen| == |events| && forall j :: 0 <= j < |seen| ==> seen[j] <= |handled|
    requires Made(events, seen, handled, throws, answers, calls, replies)
    requires Finds(events, seen, handled + [h], throws, i, |handled|)
    ensures var n := |handled|;
            Made(events, seen, handled + [h], throws, answers + [CallbackMade(events[i], h, n in throws)],
                 calls + [i], replies + [n])
  {
    hide Quiet, ReplyExpected;
    HandlingAppends(events, seen, handled, throws, h);
    var all, n := handled + [h], |handled|;
    assert all[n] == h && forall k :: 0 <= k < n ==> all[k] == handled[k];
    forall p | 0 <= p < |answers|
      ensures Finds(events, seen, all, throws, calls[p], replies[p]) && replies[p] < n
      ensures answers[p] == CallbackMade(events[calls[p]], all[replies[p]], replies[p] in throws)
    {
      assert Finds(events, seen, handled, throws, calls[p], replies[p]);
    }
  }

  lemma AllMadeGrows(events: seq<Event>, seen: seq<nat>, handled: seq<Handling>, throws: set<nat>,
                     calls: seq<nat>, replies: seq<nat>, h: Handling, i: nat)
    requires |seen| == |events| && forall j :: 0 <= j < |seen| ==> seen[j] <= |handled|
    requires |calls| == |replies| && AllMade(events, seen, handled, throws, calls, replies)
    requires Waits(events, seen, handled, throws, i) && RepliesTo(h, events[i].message.serial)
    requires OnlyWaiting(events, seen, handled, throws, i)
    ensures AllMade(events, seen, handled + [h], throws, calls + [i], replies + [|handled|])
  {
    hide Quiet, ReplyExpected;
    HandlingAppends(events, seen, handled, throws, h);
    var all, n := handled + [h], |handled|;
    forall j: nat, k: nat | Finds(events, seen, all, throws, j, k)
      ensures exists p :: 0 <= p < |calls| + 1 && (calls + [i])[p] == j && (replies + [n])[p] == k
    {
      if k < n {
        assert Finds(events, seen, handled, throws, j, k);
        var p :| 0 <= p < |calls| && calls[p] == j && replies[p] == k;
        assert (calls + [i])[p] == j && (replies + [n])[p] == k;
      } else {
        assert k == n && Waits(events, seen, handled, throws, j);
        assert (calls + [i])[|calls|] == j && (replies + [n])[|calls|] == k;
      }
    }
  }

  lemma KeysGrow(events: seq<Event>, seen: seq<nat>, handled: seq<Handling>, throws: set<nat>, t: Table, h: Handling)
    requires |seen| == |events| && forall j :: 0 <= j < |seen| ==> seen[j] <= |handled|
    requires Keyed(events, seen, handled, throws, t.waiting)
    requires IsReply(h) && h.message.replySerial.Some? && h.message.replySerial.value in t.waiting
    ensures Keyed(events, seen, handled + [h], throws, AfterHandling(t, h, |handled|, throws).waiting)
  {
    hide Quiet, ReplyExpected;
    HandlingAppends(events, seen, handled, throws, h);
    var all, n := handled + [h], |handled|;
    var after := AfterHandling(t, h, n, throws);
    hide Waits;
    forall serial | serial in after.waiting
      ensures exists j: nat :: Waits(events, seen, all, throws, j) && Kept(events[j], serial, after.waiting[serial])
    {
      var j: nat :| Waits(events, seen, handled, throws, j) && Kept(events[j], serial, t.waiting[serial]);
      assert Waits(events, seen, all, throws, j) && Kept(events[j], serial, after.waiting[serial]);
    }
  }

  // ----- whole runs

  /** How many messages had been handled when each event happened. */
  function Seen(host: Order, s: Session, events: seq<Event>): (seen: seq<nat>)
    requires Framed(s.state)
    ensures |seen| == |events|
  {
    if events == [] then []
    else
      var before := events[..|events| - 1];
      Seen(host, s, before) + [|Run(host, s, before).handled|]
  }

  lemma {:induction false} SeenAt(host: Order, s: Session, events: seq<Event>, i: nat)
    requires Framed(s.state) && i < |events|
    ensures Seen(host, s, events)[i] == |Run(host, s, events[..i]).handled|
  {
    hide Step, Run;
    var n := |events| - 1;
    if i < n {
      SeenAt(host, s, events[..n], i);
      assert events[..n][..i] == events[..i];
    }
  }

  lemma {:induction false} HandlingsTracked(events: seq<Event>, seen: seq<nat>, handled: seq<Handling>,
                                            throws: set<nat>, history: seq<TableEvent>, calls: seq<nat>,
                                            replies: seq<nat>, added: seq<Handling>)
      returns (allCalls: seq<nat>, allReplies: seq<nat>)
    requires Tracked(events, seen, handled, throws, TableAfter(history), calls, replies)
    requires CallSerialsDistinct(events) && ReplySerialsSet(added)
    ensures var more := RepliesOf(added, |handled|, throws);
            Tracked(events, seen, handled + added, throws, TableAfter(history + more), allCalls, allReplies)
  {
    hide Tracked, TableAfter, CallSerialsDistinct;
    if added == [] {
      assert handled + added == handled && history + RepliesOf(added, |handled|, throws) == history;
      return calls, replies;
    }
    var n := |added| - 1;
    var earlier, h := added[..n], added[n];
    assert added == earlier + [h];
    allCalls, allReplies := HandlingsTracked(events, seen, handled, throws, history, calls, replies, earlier);
    var before := history + RepliesOf(earlier, |handled|, throws);
    allCalls, allReplies :=
      HandlingTracked(events, seen, handled + earlier, throws, TableAfter(before), allCalls, allReplies, h);
    assert (handled + earlier) + [h] == handled + added;
    if IsReply(h) {
      var e := ReplyEvent(h, |handled| + n in throws);
      TableGrows(before, e);
      assert before + [e] == history + RepliesOf(added, |handled|, throws);
    } else {
      assert RepliesOf(added, |handled|, throws) == RepliesOf(earlier, |handled|, throws);
    }
  }

  lemma {:induction false} RunTracked(host: Order, required: AuthRequired, uid: nat, throws: set<nat>,
                                      events: seq<Event>)
      returns (calls: seq<nat>, replies: seq<nat>)
    requires CallSerialsDistinct(events) && Run(host, Opened(required, uid, throws), events).history.Some?
    ensures var start := Opened(required, uid, throws);
            var s := Run(host, start, events);
            Tracked(events, Seen(host, start, events), s.handled, throws, TableAfter(s.history.value), calls, replies)
  {
    hide Tracked, Step, Run, Seen, TableAfter, CallSerialsDistinct;
    var start := Opened(required, uid, throws);
    RunUnfolds(host, start, events);
    if events == [] {
      NothingTracked(throws);
      return [], [];
    }
    var n := |events| - 1;
    var before, e := events[..n], events[n];
    var s, seen := Run(host, start, before), Seen(host, start, before);
    DistinctBefore(events);
    StepHistory(host, s, e);
    calls, replies := RunTracked(host, required, uid, throws, before);
    match e
    case Send(m, handlers) =>
      SendTracked(host, events, s, seen, calls, replies);
    case Chunk(data) =>
      calls, replies := ChunkTracked(host, events, s, seen, calls, replies);
  }

  lemma RunUnfolds(host: Order, s: Session, events: seq<Event>)
    requires Framed(s.state)
    ensures events == [] ==> Run(host, s, events) == s && Seen(host, s, events) == []
    ensures events != [] ==>
      var before, last := events[..|events| - 1], events[|events| - 1];
      && Run(host, s, events) == Step(host, Run(host, s, before), last)
      && Seen(host, s, events) == Seen(host, s, before) + [|Run(host, s, before).handled|]
  {
    hide Step;
  }

  lemma SendTracked(host: Order, events: seq<Event>, s: Session, seen: seq<nat>, calls: seq<nat>, replies: seq<nat>)
    requires events != [] && events[|events| - 1].Send?
    requires Framed(s.state) && s.history.Some? && CallSerialsDistinct(events)
    requires Tracked(events[..|events| - 1], seen, s.handled, s.throws, TableAfter(s.history.value), calls, replies)
    ensures var r := Step(host, s, events[|events| - 1]);
            && r.history.Some?
            && Tracked(events, seen + [|s.handled|], r.handled, s.throws, TableAfter(r.history.value), calls, replies)
  {
    hide Tracked, TableAfter, CallSerialsDistinct, Packet, SendMessage;
    var n := |events| - 1;
    var before, e, t := events[..n], events[n], TableAfter(s.history.value);
    assert before + [e] == events;
    if ReplyExpected(e.message) {
      NoEarlierCall(events);
      CallTracked(before, seen, s.handled, s.throws, t, calls, replies, e);
      TableGrows(s.history.value, Called(e.message.serial, e.handlers));
    } else {
      OtherEventTracked(before, seen, s.handled, s.throws, t, calls, replies, e, |s.handled|);
    }
  }

  lemma ChunkTracked(host: Order, events: seq<Event>, s: Session, seen: seq<nat>, calls: seq<nat>, replies: seq<nat>)
      returns (allCalls: seq<nat>, allReplies: seq<nat>)
    requires events != [] && events[|events| - 1].Chunk?
    requires Framed(s.state) && s.history.Some? && CallSerialsDistinct(events)
    requires Step(host, s, events[|events| - 1]).history.Some?
    requires Tracked(events[..|events| - 1], seen, s.handled, s.throws, TableAfter(s.history.value), calls, replies)
    ensures var r := Step(host, s, events[|events| - 1]);
            Tracked(events, seen + [|s.handled|], r.handled, s.throws, TableAfter(r.history.value), allCalls,
              allReplies)
  {
    hide Tracked, TableAfter, CallSerialsDistinct, Receive, RepliesOf;
    var n := |events| - 1;
    var before, e, t := events[..n], events[n], TableAfter(s.history.value);
    assert before + [e] == events;
    OtherEventTracked(before, seen, s.handled, s.throws, t, calls, replies, e, |s.handled|);
    var added := ChunkAdds(host, s, e.data);
    allCalls, allReplies :=
      HandlingsTracked(events, seen + [|s.handled|], s.handled, s.throws, s.history.value, calls, replies, added);
  }

  lemma NothingTracked(throws: set<nat>)
    ensures Tracked([], [], [], throws, TableAfter([]), [], [])
  {}

  lemma DistinctBefore(events: seq<Event>)
    requires events != [] && CallSerialsDistinct(events)
    ensures CallSerialsDistinct(events[..|events| - 1])
  {}

  lemma NoEarlierCall(events: seq<Event>)
    requires events != [] && CallSerialsDistinct(events)
    requires events[|events| - 1].Send? && ReplyExpected(events[|events| - 1].message)
    ensures var before, last := events[..|events| - 1], events[|events| - 1];
            forall i :: 0 <= i < |before| ==> !Calls(before[i], last.message.serial)
  {}

  /**
   * The callbacks of any run whose calls have serials of their own: one for each handling that finds a call waiting,
   * in the order of the handlings, with the serial and the pair of the event that sent the call; the failure callback
   * if the handling is an error, the success callback if it is a return.
   */
  lemma CallbacksInRun(host: Order, required: AuthRequired, uid: nat, throws: set<nat>, events: seq<Event>)
      returns (calls: seq<nat>, replies: seq<nat>)
    requires CallSerialsDistinct(events) && Run(host, Opened(required, uid, throws), events).history.Some?
    ensures var start := Opened(required, uid, throws);
            var s, seen := Run(host, start, events), Seen(host, start, events);
            && Made(events, seen, s.handled, throws, TableAfter(s.history.value).answers, calls, replies)
            && AllMade(events, seen, s.handled, throws, calls, replies)
            && forall i :: 0 <= i < |events| ==> seen[i] == |Run(host, start, events[..i]).handled|
  {
    hide Made, AllMade, Keyed, TableAfter, CallSerialsDistinct, Run, Seen;
    var start := Opened(required, uid, throws);
    calls, replies := RunTracked(host, required, uid, throws, events);
    forall i | 0 <= i < |events|
      ensures Seen(host, start, events)[i] == |Run(host, start, events[..i]).handled|
    {
      SeenAt(host, start, events, i);
    }
  }

  // ----- with the peer's messages

  /** The k-th message of the peer answers the call of the i-th event while it waits. */
  predicate PeerFinds(events: seq<Event>, seen: seq<nat>, ms: seq<Outgoing>, throws: set<nat>, i: nat, k: nat) {
    && i < |events| && i < |seen| && events[i].Send? && ReplyExpected(events[i].message)
    && seen[i] <= k < |ms| && Answers(ms[k], events[i].message.serial)
    && forall l :: seen[i] <= l < k && l !in throws ==> !Answers(ms[l], events[i].message.serial)
  }

  lemma PeerFindsAlike(events: seq<Event>, seen: seq<nat>, ms: seq<Outgoing>, throws: set<nat>, i: nat, k: nat)
    requires forall m | m in ms :: SerialsOk(m)
    ensures Finds(events, seen, Deliveries(ms), throws, i, k) <==> PeerFinds(events, seen, ms, throws, i, k)
    ensures k < |ms| && (ms[k].MethodReturn? || ms[k].Error?) ==>
      && |Deliveries(ms)| == |ms| && Deliveries(ms)[k].Dispatched?
      && (Deliveries(ms)[k].message.kind == 3 <==> ms[k].Error?)
  {
    hide ReplyExpected, Deliveries, RepliesTo, Answers, SerialsOk, Arrival;
    ArrivalsInOrder(ms);
    forall l | 0 <= l < |ms|
      ensures forall serial :: RepliesTo(Deliveries(ms)[l], serial) <==> Answers(ms[l], serial)
    {
      forall serial
        ensures RepliesTo(Deliveries(ms)[l], serial) <==> Answers(ms[l], serial)
      {
        ArrivalReplies(ms[l], serial);
      }
    }
    if k < |ms| {
      ArrivalKind(ms[k]);
    }
  }

  lemma ArrivalKind(m: Outgoing)
    requires SerialsOk(m)
    ensures Arrival(m).Dispatched? && (Arrival(m).message.kind == 3 <==> m.Error?)
  {}

  /**
   * With the peer's messages marshalled, cut into any chunks and received: the callbacks made are, in order, those of
   * the messages that answer a call while it waits, each with the serial and the pair sent with that call; the failure
   * callback for an error, the success callback for a return.
   */
  lemma CallbacksForPeer(host: Order, o: Order, uid: nat, throws: set<nat>, accepted: bytes, ms: seq<Outgoing>,
                         events: seq<Event>) returns (calls: seq<nat>, replies: seq<nat>)
    requires FirstLine(accepted) == Some(|accepted|) && StartsWith(accepted, OK_WORD)
    requires forall m | m in ms :: Sendable(m) && SerialsOk(m)
    requires StreamOf(events) == accepted + Packets(o, ms) && CallSerialsDistinct(events)
    ensures var start := Opened(AuthBasic, uid, throws);
            var s, seen := Run(host, start, events), Seen(host, start, events);
            && s.history.Some?
            && var answers := TableAfter(s.history.value).answers;
               && |calls| == |replies| == |answers|
               && (forall n :: 0 <= n < |answers| ==> PeerFinds(events, seen, ms, throws, calls[n], replies[n]))
               && (forall n :: 0 <= n < |answers| ==>
                     var call, k := events[calls[n]], replies[n];
                     answers[n] == Answer(call.message.serial, call.handlers, ms[k].Error?, k in throws))
               && (forall n, p :: 0 <= n < p < |answers| ==> replies[n] < replies[p])
               && (forall i: nat, k: nat :: PeerFinds(events, seen, ms, throws, i, k) ==>
                     exists n :: 0 <= n < |calls| && calls[n] == i && replies[n] == k)
  {
    hide FirstLine, Process, Packets, Sendable, StreamOf, Run, Seen, TableAfter, CallSerialsDistinct, SerialsOk,
      Deliveries, Finds, Answers, ReplyExpected, Arrival;
    var start := Opened(AuthBasic, uid, throws);
    var s, seen := Run(host, start, events), Seen(host, start, events);
    SessionEndToEnd(host, o, uid, throws, accepted, ms, events);
    HistoryFromPeer(host, uid, throws, ms, events);
    calls, replies := CallbacksInRun(host, AuthBasic, uid, throws, events);
    forall i: nat, k: nat
      ensures Finds(events, seen, s.handled, throws, i, k) <==> PeerFinds(events, seen, ms, throws, i, k)
    {
      PeerFindsAlike(events, seen, ms, throws, i, k);
    }
    var answers := TableAfter(s.history.value).answers;
    forall n | 0 <= n < |answers|
      ensures PeerFinds(events, seen, ms, throws, calls[n], replies[n])
      ensures var call, k := events[calls[n]], replies[n];
              answers[n] == Answer(call.message.serial, call.handlers, ms[k].Error?, k in throws)
    {
      PeerFindsAlike(events, seen, ms, throws, calls[n], replies[n]);
      PeerFindsParts(events, seen, ms, throws, calls[n], replies[n]);
    }
  }

  lemma PeerFindsParts(events: seq<Event>, seen: seq<nat>, ms: seq<Outgoing>, throws: set<nat>, i: nat, k: nat)
    requires PeerFinds(events, seen, ms, throws, i, k)
    ensures i < |events| && events[i].Send? && k < |ms| && (ms[k].MethodReturn? || ms[k].Error?)
  {}

  lemma HistoryFromPeer(host: Order, uid: nat, throws: set<nat>, ms: seq<Outgoing>, events: seq<Event>)
    requires forall m | m in ms :: SerialsOk(m)
    requires Run(host, Opened(AuthBasic, uid, throws), events).handled == Deliveries(ms)
    ensures Run(host, Opened(AuthBasic, uid, throws), events).history.Some?
  {
    hide Run, SerialsOk, Arrival, Deliveries;
    ArrivalsInOrder(ms);
    HistoryKept(host, AuthBasic, uid, throws, events);
    forall k | 0 <= k < |ms|
      ensures IsReply(Deliveries(ms)[k]) ==> Deliveries(ms)[k].message.replySerial.Some?
    {
      ArrivalReplies(ms[k], 0);
    }
  }
}
