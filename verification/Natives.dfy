/** The `Native` object, proved to do to its transport, its protocols and its reply table what Sessions says. */
module Natives {
  import opened Wrappers
  import opened Octets
  import opened InputStreams
  import opened Messages
  import opened MessageWriting
  import opened Receiving
  import opened Protocol
  import opened MessageProtocols
  import opened Transports
  import opened Authentication
  import opened Replies
  import opened Sessions

  class Native {
    const host: Order
    const transport: Transport
    const auth: AuthenticationProtocol
    const protocol: MessageProtocol
    const throws: set<nat>                // which handlings end in an exception of the program's callback
    var authenticated: bool               // which of the two data handlers is set
    var messageQueue: map<nat, nat>
    var answers: seq<Answer>              // the success and failure callbacks made so far
    ghost var history: seq<TableEvent>

    ghost predicate Valid()
      reads this, protocol
    {
      && auth.transport == transport && protocol.host == host
      && Framed(protocol.StateOf()) && (protocol.phase.GetBody? ==> protocol.bodySize > 0)
      && Table(messageQueue, answers) == TableAfter(history)
    }

    ghost function StateOf(): Session
      reads this, transport, auth, protocol
    {
      Session(transport.StateOf(), auth.data, auth.authType, authenticated,
              protocol.StateOf(), protocol.octetCache, protocol.handled, false, Some(history), throws)
    }

    constructor (host: Order, throws: set<nat>)
      ensures Valid() && fresh(transport) && fresh(auth) && fresh(protocol) && this.host == host
      ensures StateOf() == Session(CONNECTED, [], auth.authType, false, START, [], [], false, Some([]), throws)
    {
      this.host, this.throws := host, throws;
      var t := new Transport();
      transport := t;
      auth := new AuthenticationProtocol(t);
      protocol := new MessageProtocol(host);
      authenticated, messageQueue, answers, history := false, map[], [], [];
    }

    method BeginAuth(required: AuthRequired, uid: nat)
      requires Valid()
      modifies transport, auth
      ensures Valid()
      ensures StateOf() == old(StateOf()).(link := WriteAll(old(transport.StateOf()), [AuthLine(uid)]),
                                           required := required)
    {
      auth.SendAuth(required, uid);
    }

    // ----- sending

    /** `emplace` keeps an entry that is already there. */
    method SendMethodCall(m: Outgoing, handlers: nat)
      requires Valid() && m.MethodCall?
      modifies this, transport
      ensures Valid() && StateOf() == Step(host, old(StateOf()), Send(m, handlers))
    {
      hide Packet, SendMessage;
      if m.flags % 2 == 0 {
        HistoryGrows(history, Called(m.serial, handlers));
        if m.serial !in messageQueue {
          messageQueue := messageQueue[m.serial := handlers];
        }
        history := history + [Called(m.serial, handlers)];
      }
      var data := MarshallCall(host, m);
      transport.SendString(data);
    }

    method SendMethodReturn(m: Outgoing)
      requires Valid() && m.MethodReturn?
      modifies transport
      ensures Valid() && StateOf() == Step(host, old(StateOf()), Send(m, 0))
    {
      hide Packet, SendMessage;
      var data := MarshallReturn(host, m);
      transport.SendString(data);
    }

    method SendError(m: Outgoing)
      requires Valid() && m.Error?
      modifies transport
      ensures Valid() && StateOf() == Step(host, old(StateOf()), Send(m, 0))
    {
      hide Packet, SendMessage;
      var data := MarshallError(host, m);
      transport.SendString(data);
    }

    method SendSignal(m: Outgoing)
      requires Valid() && m.Signal?
      modifies transport
      ensures Valid() && StateOf() == Step(host, old(StateOf()), Send(m, 0))
    {
      hide Packet, SendMessage;
      var data := MarshallSignal(host, m);
      transport.SendString(data);
    }

    // ----- receiving

    method OnReceiveMethodReturn(serial: nat, callbackThrows: bool)
      requires Valid()
      modifies `messageQueue, `answers, `history
      ensures Valid() && history == old(history) + [Replied(serial, false, callbackThrows)]
    {
      Conclude(serial, false, callbackThrows);
    }

    method OnReceiveError(serial: nat, callbackThrows: bool)
      requires Valid()
      modifies `messageQueue, `answers, `history
      ensures Valid() && history == old(history) + [Replied(serial, true, callbackThrows)]
    {
      Conclude(serial, true, callbackThrows);
    }

    /** Find the entry, make one of its callbacks, erase it. An exception of the callback comes before the erasing. */
    method Conclude(serial: nat, failed: bool, callbackThrows: bool)
      requires Valid()
      modifies `messageQueue, `answers, `history
      ensures Valid() && history == old(history) + [Replied(serial, failed, callbackThrows)]
    {
      HistoryGrows(history, Replied(serial, failed, callbackThrows));
      hide TableAfter;
      history := history + [Replied(serial, failed, callbackThrows)];
      if serial in messageQueue {
        answers := answers + [Answer(serial, messageQueue[serial], failed, callbackThrows)];
        if callbackThrows {
          return;
        }
        messageQueue := messageQueue - {serial};
      }
    }

    /**
     * The callbacks the protocol made, in their order, the first of them for the `from`-th handling. False where a
     * reply has no reply serial to look up.
     */
    method Dispatch(hs: seq<Handling>, from: nat) returns (ok: bool)
      requires Valid()
      modifies `messageQueue, `answers, `history
      ensures ok <==> ReplySerialsSet(hs)
      ensures ok ==> Valid() && history == old(history) + RepliesOf(hs, from, throws)
    {
      hide TableAfter, RepliesOf;
      NoReplies(history, from, throws);
      for i := 0 to |hs|
        invariant Valid() && ReplySerialsSet(hs[..i])
        invariant history == old(history) + RepliesOf(hs[..i], from, throws)
      {
        RepliesNext(hs, from, throws, i);
        if IsReply(hs[i]) {
          if hs[i].message.replySerial.None? {
            assert hs[i] in hs;
            return false;
          }
          if hs[i].message.kind == TYPE_ERROR {
            OnReceiveError(hs[i].message.replySerial.value, from + i in throws);
          } else {
            OnReceiveMethodReturn(hs[i].message.replySerial.value, from + i in throws);
          }
        }
      }
      assert hs[..|hs|] == hs;
      return true;
    }

    /** False where the session leaves what is modelled; otherwise the whole new state is given. */
    method OnReceiveMessageData(buffer: OctetBuffer) returns (ok: bool)
      requires Valid()
      modifies this, protocol, buffer
      ensures var after := ReceiveMessages(host, old(StateOf()), old(buffer.data));
              && (ok <==> !after.lost && after.history.Some?)
              && (ok ==> Valid() && StateOf() == after)
    {
      hide ReceiveChunk;
      ghost var before := StateOf();
      ghost var p := ReceiveChunk(host, before.state, before.cache, buffer.data);
      var made := |protocol.handled|;
      var status := protocol.OnReceiveData(buffer);
      if status.Stuck? {
        return false;
      }
      if status.Threw? {
        protocol.StartMessage();
      }
      assert protocol.handled[made..] == p.handled;
      ok := Dispatch(protocol.handled[made..], made);
    }

    method OnReceiveAuthData(buffer: OctetBuffer) returns (ok: bool)
      requires Valid() && !authenticated
      modifies this, transport, auth, protocol, buffer
      ensures var after := Receive(host, old(StateOf()), old(buffer.data));
              && (ok <==> !after.lost && after.history.Some?)
              && (ok ==> Valid() && StateOf() == after)
    {
      hide ReceiveMessages, Listen;
      var done := auth.OnReceiveData(buffer);
      if !done {
        return true;
      }
      HandlerSetLater(host, StateOf());
      ok := OnReceiveMessageData(buffer);
      authenticated := true;
    }

    /** A read from the socket goes to the handler that is set. */
    method HandleReadData(buffer: OctetBuffer) returns (ok: bool)
      requires Valid()
      modifies this, transport, auth, protocol, buffer
      ensures var after := Step(host, old(StateOf()), Chunk(old(buffer.data)));
              && (ok <==> !after.lost && after.history.Some?)
              && (ok ==> Valid() && StateOf() == after)
    {
      hide ReceiveMessages, Listen;
      if authenticated {
        ok := OnReceiveMessageData(buffer);
      } else {
        ok := OnReceiveAuthData(buffer);
      }
    }
  }

  /** The handler is set after the rest of the buffer is processed, which does not depend on it. */
  lemma HandlerSetLater(host: Order, s: Session)
    requires Framed(s.state)
    ensures forall chunk :: ReceiveMessages(host, s.(authenticated := true), chunk)
                         == ReceiveMessages(host, s, chunk).(authenticated := true)
  {
    hide ReceiveChunk;
  }

  lemma NoReplies(history: seq<TableEvent>, from: nat, throws: set<nat>)
    ensures history + RepliesOf([], from, throws) == history
  {}

  lemma HistoryGrows(history: seq<TableEvent>, e: TableEvent)
    ensures TableAfter(history + [e]) == TableAfter(history).After(e)
  {
    assert (history + [e])[..|history|] == history;
  }
}
