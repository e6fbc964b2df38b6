/** The `MessageProtocol` object, proved to do to its cache and its callbacks what Protocol says. */
module MessageProtocols {
  import opened Octets
  import opened Values
  import opened Unmarshalling
  import opened InputStreams
  import opened Receiving
  import opened MessageReading
  import opened Protocol

  /** A step of the object ended as the step it models did. */
  predicate Follows(r: Result<bool>, step: Result<State>, after: State) {
    match step
    case Success(next) => r == Success(true) && after == next
    case Exception => r == Exception
    case Unmodelled => r == Unmodelled
  }

  /** How a step that does not carry on ends the processing of a buffer. */
  function Ending(r: Result<bool>): Status {
    if r.Success? then Waiting else if r.Exception? then Threw else Stuck
  }

  class MessageProtocol {
    const host: Order
    var phase: Phase
    var headerSize: nat
    var bodySize: nat
    var header: seq<Value>
    var octetCache: bytes
    var handled: seq<Handling>    // the callbacks made so far, and the messages dropped between them

    constructor (host: Order)
      ensures this.host == host && StateOf() == START && octetCache == [] && handled == [] && Valid()
    {
      this.host := host;
      phase, headerSize, bodySize, header := GetHeaderSize, 0, 0, [];
      octetCache, handled := [], [];
    }

    function StateOf(): State
      reads this
    {
      State(phase, headerSize, bodySize, header)
    }

    /** Between calls: a framed state with fewer bytes cached than it waits for, so never a message body of no bytes. */
    ghost predicate Valid()
      reads this
    {
      Framed(StateOf()) && |octetCache| < Needed(StateOf())
    }

    /** `reset` and `startMessage`: the cache stays. */
    method StartMessage()
      modifies `phase, `headerSize, `bodySize, `header
      ensures StateOf() == START
    {
      phase, headerSize, bodySize, header := GetHeaderSize, 0, 0, [];
    }

    /** False while there are too few bytes; an exception when the field array is too long. */
    method ReadHeaderSize(buffer: OctetBuffer) returns (r: Result<bool>)
      requires Framed(StateOf()) && phase.GetHeaderSize?
      modifies `phase, `headerSize
      ensures r == Success(false) <==> |buffer.data| < 16
      ensures |buffer.data| < 16 ==> StateOf() == old(StateOf())
      ensures |buffer.data| >= 16 ==> Follows(r, SizeStep(host, old(StateOf()), buffer.data), StateOf())
      ensures r == Success(true) ==>
        && Framed(StateOf()) && phase.UnmarshallHeader?
        && Process(host, old(StateOf()), buffer.data) == Process(host, StateOf(), buffer.data)
      ensures r != Success(true) ==>
        Process(host, old(StateOf()), buffer.data) == Progress([], old(StateOf()), buffer.data, Ending(r))
    {
      hide WordValue, HeaderSize, Process;
      SizeTurn(host, StateOf(), buffer.data);
      if |buffer.data| < 16 {
        return Success(false);
      }
      var size := WordValue(host, buffer.data[12..16]);
      if SwapRequired(host, buffer.data[0]) {
        SwapReadsOtherOrder(host, buffer.data[12..16]);
        size := ByteSwap(size, 4);
      }
      if size > MAX_ARRAY_SIZE {
        return Exception;
      }
      headerSize := PaddedHeader(size);
      phase := UnmarshallHeader;
      return Success(true);
    }

    /** Sixteen bytes of fixed header, then up to the next boundary, as the source computes it. */
    static function PaddedHeader(size: nat): (n: nat)
      ensures n == HeaderSize(size)
    {
      var n := size + 16;
      n + if n % 8 == 0 then 0 else 8 - n % 8
    }

    method ReadHeader(buffer: OctetBuffer) returns (r: Result<bool>)
      requires Framed(StateOf()) && phase.UnmarshallHeader?
      modifies `phase, `bodySize, `header, buffer
      ensures r == Success(false) <==> |old(buffer.data)| < headerSize
      ensures |old(buffer.data)| < headerSize ==> StateOf() == old(StateOf()) && buffer.data == old(buffer.data)
      ensures |old(buffer.data)| >= headerSize ==>
        Follows(r, HeaderStep(host, old(StateOf()), old(buffer.data)), StateOf())
      ensures r == Success(true) ==>
        && Framed(StateOf()) && phase.GetBody?
        && buffer.data == old(buffer.data)[headerSize..] && |buffer.data| < |old(buffer.data)|
        && Process(host, old(StateOf()), old(buffer.data)) == Process(host, StateOf(), buffer.data)
      ensures r != Success(true) ==>
        Process(host, old(StateOf()), old(buffer.data)) == Progress([], old(StateOf()), old(buffer.data), Ending(r))
    {
      hide UnmarshallStruct, NumberOf, Process;
      HeaderTurn(host, StateOf(), buffer.data);
      if |buffer.data| < headerSize {
        return Success(false);
      }
      var istream := new MessageIStream(buffer.data[..headerSize], host, SwapRequired(host, buffer.data[0]));
      var unmarshalled := UnmarshallStructFrom(HEADER_SIGNATURE_TEXT, istream);
      var v := Settle(unmarshalled);
      if v.IsFailure() {
        return v.PropagateFailure();
      }
      if !v.value.Struct? || |v.value.fields| != 7 {
        return Unmodelled;
      }
      var removed := buffer.RemovePrefix(headerSize);
      header := header + v.value.fields;
      var size := NumberOf(v.value.fields[4], WORD_LIMIT);
      if size.IsFailure() {
        return size.PropagateFailure();
      }
      bodySize := size.value;
      if headerSize + bodySize > MAX_MESSAGE_SIZE {
        return Exception;
      }
      phase := GetBody;
      return Success(true);
    }

    method ReadBody(buffer: OctetBuffer) returns (r: Result<bool>)
      requires Framed(StateOf()) && phase.GetBody?
      modifies this, buffer
      ensures octetCache == old(octetCache) && r != Exception
      ensures r == Success(false) <==> |old(buffer.data)| < old(bodySize)
      ensures r == Success(false) ==> StateOf() == old(StateOf()) && buffer.data == old(buffer.data)
      ensures r == Success(true) ==>
        && StateOf() == START && Framed(START) && buffer.data == old(buffer.data)[old(bodySize)..]
        && handled == old(handled) + [Handle(old(header), old(buffer.data)[..old(bodySize)])]
        && Process(host, old(StateOf()), old(buffer.data))
           == Process(host, START, buffer.data).After([Handle(old(header), old(buffer.data)[..old(bodySize)])])
      ensures r != Success(true) ==>
        && handled == old(handled)
        && Process(host, old(StateOf()), old(buffer.data)) == Progress([], old(StateOf()), old(buffer.data), Ending(r))
    {
      hide Handle, Process;
      BodyTurn(host, StateOf(), buffer.data);
      if |buffer.data| < bodySize {
        return Success(false);
      }
      var body := buffer.data[..bodySize];
      var removed := buffer.RemovePrefix(bodySize);
      r := OnBodyComplete(body);
    }

    /** A message that cannot be built is dropped; the next one is awaited either way. */
    method OnBodyComplete(body: bytes) returns (r: Result<bool>)
      modifies this
      ensures octetCache == old(octetCache)
      ensures var handling := Handle(old(header), body);
              if handling.Unknown? then r == Unmodelled && handled == old(handled) else
              r == Success(true) && StateOf() == START && handled == old(handled) + [handling]
    {
      hide Build;
      var built := BuildFrom(host, header, body);
      if built.Unmodelled? {
        return Unmodelled;
      }
      handled := handled + [if built.Success? && built.value.Some? then Dispatched(built.value.value) else Dropped];
      StartMessage();
      return Success(true);
    }

    /** `processData`. On Waiting the whole new state is given; an exception leaves the caller to reset. */
    method ProcessData(buffer: OctetBuffer) returns (status: Status)
      requires Framed(StateOf()) && (phase.GetBody? ==> bodySize > 0)
      modifies this, buffer
      ensures octetCache == old(octetCache)
      ensures var p := Process(host, old(StateOf()), old(buffer.data));
              && status == p.status && handled == old(handled) + p.handled
              && (status.Waiting? ==> StateOf() == p.state && buffer.data == p.rest)
    {
      hide Process, Handle, HeaderStep, SizeStep, Follows, Framed;
      ghost var whole := Process(host, StateOf(), buffer.data);
      AfterNothing(whole);
      ghost var done: seq<Handling> := [];
      while |buffer.data| != 0
        invariant Framed(StateOf()) && (phase.GetBody? ==> bodySize > 0)
        invariant octetCache == old(octetCache) && handled == old(handled) + done
        invariant whole == Process(host, StateOf(), buffer.data).After(done)
        decreases |buffer.data|
      {
        ghost var turn := |buffer.data|;
        if phase.GetHeaderSize? {
          var r := ReadHeaderSize(buffer);
          if r != Success(true) {
            return Ending(r);
          }
        }
        if phase.UnmarshallHeader? {
          var r := ReadHeader(buffer);
          if r != Success(true) {
            return Ending(r);
          }
        }
        assert |buffer.data| < turn || (phase.GetBody? && bodySize > 0);
        if phase.GetBody? {
          ghost var handling := if |buffer.data| >= bodySize then Handle(header, buffer.data[..bodySize]) else Dropped;
          var r := ReadBody(buffer);
          if r != Success(true) {
            return Ending(r);
          }
          AfterAfter(Process(host, START, buffer.data), done, [handling]);
          done := done + [handling];
        }
      }
      EmptyWaits(host, StateOf());
      return Waiting;
    }

    /** `onReceiveData`: the buffer is always emptied into the cache; after an exception the cache is not trimmed. */
    method OnReceiveData(buffer: OctetBuffer) returns (status: Status)
      requires Framed(StateOf()) && (phase.GetBody? ==> bodySize > 0)
      modifies this, buffer
      ensures var p := ReceiveChunk(host, old(StateOf()), old(octetCache), old(buffer.data));
              && status == p.status && handled == old(handled) + p.handled && octetCache == p.rest
              && (status.Waiting? ==> Valid() && StateOf() == p.state && buffer.data == [])
    {
      hide Process;
      ghost var chunk := buffer.data;
      if octetCache == [] {
        status := ProcessData(buffer);
        if !status.Waiting? {
          return;
        }
      }
      octetCache := octetCache + buffer.data;
      var removed := buffer.RemovePrefix(|buffer.data|);
      if octetCache != [] {
        ghost var before := StateOf();
        var cachedBuffer := new OctetBuffer(octetCache);
        status := ProcessData(cachedBuffer);
        if !status.Waiting? {
          return;
        }
        RestIsSuffix(host, before, octetCache);
        octetCache := octetCache[|octetCache| - |cachedBuffer.data|..];
      }
      status := Waiting;
    }
  }
}
