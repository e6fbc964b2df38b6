/** `Transport` as a sequential log of what is written to the socket. */
module Transports {
  import opened Octets

  /** m_ReadyToSend, m_BufferedMessages, the writes made so far, and the counters. */
  datatype Link = Link(ready: bool, buffered: seq<bytes>, log: seq<bytes>,
                       sent: nat, queued: nat, pumped: nat, bytesSent: nat)

  /** The octet written on connecting, which no counter sees. */
  const NUL_OCTET: bytes := [0]

  const CONNECTED := Link(false, [], [NUL_OCTET], 0, 0, 0, 0)

  function Total(ds: seq<bytes>): nat {
    if ds == [] then 0 else Total(ds[..|ds| - 1]) + |ds[|ds| - 1]|
  }

  lemma {:induction false} TotalConcat(a: seq<bytes>, b: seq<bytes>)
    ensures Total(a + b) == Total(a) + Total(b)
  {
    if b == [] {
      assert a + b == a;
    } else {
      var n := |a + b| - 1;
      assert (a + b)[..n] == a + b[..|b| - 1];
      TotalConcat(a, b[..|b| - 1]);
    }
  }

  /** Written at once, whatever is waiting. */
  function WriteAll(link: Link, ds: seq<bytes>): Link {
    link.(log := link.log + ds, sent := link.sent + |ds|, bytesSent := link.bytesSent + Total(ds))
  }

  lemma WriteNothing(link: Link)
    ensures WriteAll(link, []) == link
  {
    assert link.log + [] == link.log;
  }

  lemma WriteTwice(link: Link, a: seq<bytes>, b: seq<bytes>)
    ensures WriteAll(WriteAll(link, a), b) == WriteAll(link, a + b)
  {
    hide Total;
    TotalConcat(a, b);
    assert link.log + a + b == link.log + (a + b);
  }

  function SendMessage(link: Link, data: bytes): Link {
    if link.ready then WriteAll(link, [data])
    else link.(buffered := link.buffered + [data], queued := link.queued + 1)
  }

  /** `onAuthComplete`: the buffered messages go out in the order they came. */
  function Release(link: Link): Link {
    WriteAll(link, link.buffered).(ready := true, buffered := [], pumped := link.pumped + |link.buffered|)
  }

  class Transport {
    var readyToSend: bool
    var bufferedMessages: seq<bytes>
    var log: seq<bytes>
    var messagesSent: nat
    var messagesQueued: nat
    var messagesPumped: nat
    var bytesSent: nat

    function StateOf(): Link
      reads this
    {
      Link(readyToSend, bufferedMessages, log, messagesSent, messagesQueued, messagesPumped, bytesSent)
    }

    constructor ()
      ensures StateOf() == CONNECTED
    {
      readyToSend, bufferedMessages := false, [];
      messagesSent, messagesQueued, messagesPumped, bytesSent := 0, 0, 0, 0;
      log := [];
      new;
      SendOctetDirect(0);
    }

    method SendOctetDirect(data: byte)
      modifies `log
      ensures log == old(log) + [[data]]
    {
      log := log + [[data]];
    }

    method SendStringDirect(data: bytes)
      modifies this
      ensures StateOf() == WriteAll(old(StateOf()), [data])
    {
      log := log + [data];
      messagesSent := messagesSent + 1;
      bytesSent := bytesSent + |data|;
      assert [data][..0] == [];
      assert Total([data]) == |data|;
    }

    method AddToMessageQueue(data: bytes)
      modifies this
      ensures StateOf() == old(StateOf()).(buffered := old(bufferedMessages) + [data],
                                           queued := old(messagesQueued) + 1)
    {
      bufferedMessages := bufferedMessages + [data];
      messagesQueued := messagesQueued + 1;
    }

    method SendString(data: bytes)
      modifies this
      ensures StateOf() == SendMessage(old(StateOf()), data)
    {
      if readyToSend {
        SendStringDirect(data);
      } else {
        AddToMessageQueue(data);
      }
    }

    method OnAuthComplete()
      modifies this
      ensures StateOf() == Release(old(StateOf()))
    {
      hide Total;
      ghost var before := StateOf();
      WriteNothing(before);
      for i := 0 to |bufferedMessages|
        invariant bufferedMessages == before.buffered
        invariant StateOf() == WriteAll(before, before.buffered[..i]).(pumped := before.pumped + i)
      {
        SendStringDirect(bufferedMessages[i]);
        messagesPumped := messagesPumped + 1;
        WriteTwice(before, before.buffered[..i], [before.buffered[i]]);
        assert before.buffered[..i + 1] == before.buffered[..i] + [before.buffered[i]];
      }
      assert before.buffered[..|before.buffered|] == before.buffered;
      bufferedMessages := [];
      readyToSend := true;
    }
  }
}
