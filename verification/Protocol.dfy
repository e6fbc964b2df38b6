/**
 * `MessageProtocol`: cutting a byte stream into messages. First what processing a buffer means, then that the
 * cuts do not depend on how the bytes arrive, then the class that does it with a cache.
 */
module Protocol {
  import opened Octets
  import opened Signatures
  import opened Values
  import opened Unmarshalling
  import opened Messages
  import opened Receiving

  datatype Phase = GetHeaderSize | UnmarshallHeader | GetBody

  /** m_State, m_headerSize, m_bodySize and m_HeaderStruct. */
  datatype State = State(phase: Phase, headerSize: nat, bodySize: nat, header: seq<Value>)

  /** `startMessage`. */
  const START := State(GetHeaderSize, 0, 0, [])

  const HEADER_SIGNATURE_TEXT: bytes := Print(StructOf(HEADER_TYPES))

  predicate SwapRequired(host: Order, flag: byte) {
    (flag == LITTLE_FLAG && host != Little) || (flag == BIG_FLAG && host != Big)
  }

  /** The order a header is read in. A flag that is neither 'l' nor 'B' leaves the host's own. */
  function HeaderOrder(host: Order, flag: byte): Order {
    if SwapRequired(host, flag) then host.Other() else host
  }

  /** Whatever host wrote the flag, every host reads the order it stands for. */
  lemma FlagTellsOrder(host: Order, writer: Order)
    ensures HeaderOrder(host, Flag(writer)) == writer
  {}

  // ----- one step

  /** `getHeaderSize`, on at least sixteen bytes. */
  function SizeStep(host: Order, st: State, buffer: bytes): Result<State>
    requires |buffer| >= 16
  {
    var n := WordValue(HeaderOrder(host, buffer[0]), buffer[12..16]);
    if n > MAX_ARRAY_SIZE then Exception
    else Success(st.(headerSize := HeaderSize(n), phase := UnmarshallHeader))
  }

  /** `unmarshallHeader`, once the whole header is there. The struct being filled was cleared by `startMessage`. */
  function HeaderStep(host: Order, st: State, buffer: bytes): Result<State>
    requires 0 < st.headerSize <= |buffer|
  {
    var v :- Settle(UnmarshallStruct(HeaderOrder(host, buffer[0]), HEADER_SIGNATURE_TEXT, buffer[..st.headerSize], 0));
    if !v.Struct? || |v.fields| != 7 then Unmodelled
    else
      var header := st.header + v.fields;
      var bodySize :- NumberOf(v.fields[4], WORD_LIMIT);
      if st.headerSize + bodySize > MAX_MESSAGE_SIZE then Exception
      else Success(st.(header := header, bodySize := bodySize, phase := GetBody))
  }

  // ----- a whole buffer

  /** Waiting for more bytes, stopped by an exception from a header, or outside what is modelled. */
  datatype Status = Waiting | Threw | Stuck

  datatype Progress = Progress(handled: seq<Handling>, state: State, rest: bytes, status: Status) {
    function After(earlier: seq<Handling>): Progress {
      this.(handled := earlier + handled)
    }
  }

  /** The sizes a state holds belong to its phase. */
  predicate Framed(st: State) {
    match st.phase
    case GetHeaderSize => st == START
    case UnmarshallHeader =>
      && st.header == [] && st.bodySize == 0
      && 16 <= st.headerSize <= MAX_ARRAY_SIZE + 16 && st.headerSize % 8 == 0
    case GetBody =>
      && |st.header| == 7 && st.headerSize >= 16 && st.headerSize % 8 == 0
      && st.headerSize + st.bodySize <= MAX_MESSAGE_SIZE
  }

  /** How many bytes a state waits for. */
  function Needed(st: State): nat {
    match st.phase
    case GetHeaderSize => 16
    case UnmarshallHeader => st.headerSize
    case GetBody => st.bodySize
  }

  function Rank(phase: Phase): nat {
    match phase
    case GetBody => 2
    case GetHeaderSize => 1
    case UnmarshallHeader => 0
  }

  lemma HeaderSizeFacts(n: nat)
    requires n <= MAX_ARRAY_SIZE
    ensures HeaderSize(n) % 8 == 0 && 16 + n <= HeaderSize(n) < 16 + n + 8 && HeaderSize(n) <= MAX_ARRAY_SIZE + 16
  {
    PaddingFacts(8, 16 + n);
    hide Padding;
  }

  /** What `processData` makes of a buffer: message after message until too few bytes are left. */
  function Process(host: Order, st: State, buffer: bytes): (p: Progress)
    requires Framed(st)
    ensures Framed(p.state)
    ensures p.status.Waiting? ==> |p.rest| < Needed(p.state)
    decreases |buffer|, Rank(st.phase)
  {
    if |buffer| < Needed(st) then Progress([], st, buffer, Waiting)
    else
      match st.phase
      case GetHeaderSize =>
        (match SizeStep(host, st, buffer)
         case Success(next) =>
           HeaderSizeFacts(WordValue(HeaderOrder(host, buffer[0]), buffer[12..16]));
           Process(host, next, buffer)
         case Exception => Progress([], st, buffer, Threw)
         case Unmodelled => Progress([], st, buffer, Stuck))
      case UnmarshallHeader =>
        (match HeaderStep(host, st, buffer)
         case Success(next) => Process(host, next, buffer[st.headerSize..])
         case Exception => Progress([], st, buffer, Threw)
         case Unmodelled => Progress([], st, buffer, Stuck))
      case GetBody =>
        var handling := Handle(st.header, buffer[..st.bodySize]);
        if handling.Unknown? then Progress([], st, buffer, Stuck)
        else Process(host, START, buffer[st.bodySize..]).After([handling])
  }

  // ----- one phase of a turn

  lemma SizeTurn(host: Order, st: State, buffer: bytes)
    requires Framed(st) && st.phase.GetHeaderSize?
    ensures |buffer| < 16 ==> Process(host, st, buffer) == Progress([], st, buffer, Waiting)
    ensures |buffer| >= 16 ==>
      match SizeStep(host, st, buffer)
      case Success(next) =>
        Framed(next) && next.phase.UnmarshallHeader? && Process(host, st, buffer) == Process(host, next, buffer)
      case Exception => Process(host, st, buffer) == Progress([], st, buffer, Threw)
      case Unmodelled => Process(host, st, buffer) == Progress([], st, buffer, Stuck)
  {
    hide HeaderSize, WordValue;
    if |buffer| >= 16 && SizeStep(host, st, buffer).Success? {
      HeaderSizeFacts(WordValue(HeaderOrder(host, buffer[0]), buffer[12..16]));
    }
  }

  lemma HeaderTurn(host: Order, st: State, buffer: bytes)
    requires Framed(st) && st.phase.UnmarshallHeader?
    ensures |buffer| < st.headerSize ==> Process(host, st, buffer) == Progress([], st, buffer, Waiting)
    ensures |buffer| >= st.headerSize ==>
      match HeaderStep(host, st, buffer)
      case Success(next) =>
        Framed(next) && next.phase.GetBody? && Process(host, st, buffer) == Process(host, next, buffer[st.headerSize..])
      case Exception => Process(host, st, buffer) == Progress([], st, buffer, Threw)
      case Unmodelled => Process(host, st, buffer) == Progress([], st, buffer, Stuck)
  {
    hide UnmarshallStruct, NumberOf, WordValue;
  }

  lemma BodyTurn(host: Order, st: State, buffer: bytes)
    requires Framed(st) && st.phase.GetBody?
    ensures |buffer| < st.bodySize ==> Process(host, st, buffer) == Progress([], st, buffer, Waiting)
    ensures |buffer| >= st.bodySize ==>
      var handling := Handle(st.header, buffer[..st.bodySize]);
      if handling.Unknown? then Process(host, st, buffer) == Progress([], st, buffer, Stuck)
      else Process(host, st, buffer) == Process(host, START, buffer[st.bodySize..]).After([handling])
  {
    hide Handle;
  }

  lemma EmptyWaits(host: Order, st: State)
    requires Framed(st) && (st.phase.GetBody? ==> st.bodySize > 0)
    ensures Process(host, st, []) == Progress([], st, [], Waiting)
  {}

  /** Processing only takes bytes from the front. */
  lemma {:induction false} RestIsSuffix(host: Order, st: State, buffer: bytes)
    requires Framed(st)
    ensures var rest := Process(host, st, buffer).rest;
            |rest| <= |buffer| && rest == buffer[|buffer| - |rest|..]
    decreases |buffer|, Rank(st.phase)
  {
    hide Process, Handle, HeaderStep, SizeStep;
    match st.phase
    case GetHeaderSize =>
      SizeTurn(host, st, buffer);
      if |buffer| >= 16 && SizeStep(host, st, buffer).Success? {
        RestIsSuffix(host, SizeStep(host, st, buffer).value, buffer);
      }
    case UnmarshallHeader =>
      HeaderTurn(host, st, buffer);
      if |buffer| >= st.headerSize && HeaderStep(host, st, buffer).Success? {
        RestIsSuffix(host, HeaderStep(host, st, buffer).value, buffer[st.headerSize..]);
      }
    case GetBody =>
      BodyTurn(host, st, buffer);
      if |buffer| >= st.bodySize && !Handle(st.header, buffer[..st.bodySize]).Unknown? {
        RestIsSuffix(host, START, buffer[st.bodySize..]);
      }
  }

  // ----- bytes that arrive later

  /**
   * Processing a buffer and then more bytes is processing them all at once; and what stops the shorter buffer
   * stops the longer one at the same place.
   */
  lemma {:induction false} ProcessAppend(host: Order, st: State, a: bytes, b: bytes)
    requires Framed(st)
    ensures var first, all := Process(host, st, a), Process(host, st, a + b);
            && (first.status.Waiting? ==> all == Process(host, first.state, first.rest + b).After(first.handled))
            && (!first.status.Waiting? ==> all.handled == first.handled && all.status == first.status)
    decreases |a|, Rank(st.phase)
  {
    hide Handle, HeaderSize, NumberOf, UnmarshallStruct, WordValue;
    if |a| < Needed(st) {
      assert Process(host, st, a).handled == [];
      AfterNothing(Process(host, st, a + b));
    } else {
      match st.phase
      case GetHeaderSize => SizeAppend(host, st, a, b);
      case UnmarshallHeader => HeaderAppend(host, st, a, b);
      case GetBody => BodyAppend(host, st, a, b);
    }
  }

  lemma AfterNothing(p: Progress)
    ensures p.After([]) == p
  {
    assert [] + p.handled == p.handled;
  }

  lemma {:induction false} SizeAppend(host: Order, st: State, a: bytes, b: bytes)
    requires Framed(st) && st.phase.GetHeaderSize? && |a| >= 16
    ensures var first, all := Process(host, st, a), Process(host, st, a + b);
            && (first.status.Waiting? ==> all == Process(host, first.state, first.rest + b).After(first.handled))
            && (!first.status.Waiting? ==> all.handled == first.handled && all.status == first.status)
    decreases |a|, Rank(st.phase), 0
  {
    hide HeaderSize, WordValue;
    assert (a + b)[0] == a[0] && (a + b)[12..16] == a[12..16];
    assert SizeStep(host, st, a + b) == SizeStep(host, st, a);
    var step := SizeStep(host, st, a);
    if step.Success? {
      HeaderSizeFacts(WordValue(HeaderOrder(host, a[0]), a[12..16]));
      ProcessAppend(host, step.value, a, b);
    }
  }

  lemma {:induction false} HeaderAppend(host: Order, st: State, a: bytes, b: bytes)
    requires Framed(st) && st.phase.UnmarshallHeader? && |a| >= st.headerSize
    ensures var first, all := Process(host, st, a), Process(host, st, a + b);
            && (first.status.Waiting? ==> all == Process(host, first.state, first.rest + b).After(first.handled))
            && (!first.status.Waiting? ==> all.handled == first.handled && all.status == first.status)
    decreases |a|, Rank(st.phase), 0
  {
    var n := st.headerSize;
    assert (a + b)[0] == a[0] && (a + b)[..n] == a[..n] && (a + b)[n..] == a[n..] + b;
    assert HeaderStep(host, st, a + b) == HeaderStep(host, st, a);
    var step := HeaderStep(host, st, a);
    if step.Success? {
      assert Framed(step.value);
      hide HeaderStep;
      ProcessAppend(host, step.value, a[n..], b);
    }
  }

  lemma {:induction false} BodyAppend(host: Order, st: State, a: bytes, b: bytes)
    requires Framed(st) && st.phase.GetBody? && |a| >= st.bodySize
    ensures var first, all := Process(host, st, a), Process(host, st, a + b);
            && (first.status.Waiting? ==> all == Process(host, first.state, first.rest + b).After(first.handled))
            && (!first.status.Waiting? ==> all.handled == first.handled && all.status == first.status)
    decreases |a|, Rank(st.phase), 0
  {
    hide Handle;
    var n := st.bodySize;
    assert (a + b)[..n] == a[..n] && (a + b)[n..] == a[n..] + b;
    var handling := Handle(st.header, a[..n]);
    if !handling.Unknown? {
      ProcessAppend(host, START, a[n..], b);
      var inner := Process(host, START, a[n..]);
      if inner.status.Waiting? {
        AfterAfter(Process(host, inner.state, inner.rest + b), [handling], inner.handled);
      }
    }
  }

  lemma AfterAfter(p: Progress, first: seq<Handling>, second: seq<Handling>)
    ensures p.After(second).After(first) == p.After(first + second)
  {
    assert first + (second + p.handled) == (first + second) + p.handled;
  }

  /** Running `processData` again on what it left changes nothing. */
  lemma ProcessIsIdempotent(host: Order, st: State, buffer: bytes)
    requires Framed(st)
    ensures var p := Process(host, st, buffer);
            p.status.Waiting? ==> Process(host, p.state, p.rest) == Progress([], p.state, p.rest, Waiting)
  {}

  // ----- `onReceiveData`

  /**
   * One call with a chunk: straight from the chunk if nothing is cached, then the leftover is cached and the
   * whole cache processed, perhaps for the second time.
   */
  function ReceiveChunk(host: Order, st: State, cache: bytes, chunk: bytes): (p: Progress)
    requires Framed(st)
    ensures Framed(p.state)
  {
    var direct := if cache == [] then Process(host, st, chunk) else Progress([], st, chunk, Waiting);
    if !direct.status.Waiting? then direct.(rest := cache)
    else
      var cached := cache + direct.rest;
      if cached == [] then direct.(rest := cached)
      else
        var again := Process(host, direct.state, cached);
        if again.status.Waiting? then again.After(direct.handled)
        else again.(rest := cached).After(direct.handled)
  }

  /** The direct and the cached pass together are one pass over the cache followed by the chunk. */
  lemma ReceiveChunkIsProcess(host: Order, st: State, cache: bytes, chunk: bytes)
    requires Framed(st)
    ensures var p, all := ReceiveChunk(host, st, cache, chunk), Process(host, st, cache + chunk);
            && (|cache| < Needed(st) && all.status.Waiting? ==> p == all)
            && (|cache| < Needed(st) && !all.status.Waiting? ==> p.handled == all.handled && p.status == all.status)
  {
    hide Process;
    if cache == [] {
      assert cache + chunk == chunk;
      var direct := Process(host, st, chunk);
      if direct.status.Waiting? {
        assert [] + direct.rest == direct.rest;
        ProcessIsIdempotent(host, st, chunk);
        assert direct.handled + [] == direct.handled;
      }
    } else {
      AfterNothing(Process(host, st, cache + chunk));
      if !Process(host, st, cache + chunk).status.Waiting? {
        AfterNothing(Process(host, st, cache + chunk).(rest := cache + chunk));
      }
    }
  }

  // ----- after an exception

  /**
   * What an exception leaves cached: the cache and the whole chunk, or nothing of either if nothing was cached before.
   */
  lemma ThrowLeaves(host: Order, st: State, cache: bytes, chunk: bytes)
    requires Framed(st) && |cache| < Needed(st) && ReceiveChunk(host, st, cache, chunk).status.Threw?
    ensures ReceiveChunk(host, st, cache, chunk).rest == if cache == [] then [] else cache + chunk
  {
    hide Process;
    if cache == [] && Process(host, st, chunk).status.Waiting? {
      assert [] + Process(host, st, chunk).rest == Process(host, st, chunk).rest;
      ProcessIsIdempotent(host, st, chunk);
    }
  }

  /**
   * The reset keeps the cache. If what is cached is refused from the start of a message, every later chunk dispatches
   * the same messages again, is refused again, and only makes the cache longer.
   */
  lemma RefusedCacheRepeats(host: Order, cache: bytes, chunk: bytes)
    requires cache != [] && Process(host, START, cache).status.Threw?
    ensures var again, all := Process(host, START, cache), Process(host, START, cache + chunk);
            && ReceiveChunk(host, START, cache, chunk) == Progress(again.handled, all.state, cache + chunk, Threw)
            && all.status.Threw? && all.handled == again.handled
  {
    hide Process;
    ProcessAppend(host, START, cache, chunk);
    AfterNothing(Process(host, START, cache + chunk).(rest := cache + chunk));
  }

  // ----- any number of chunks

  function Flatten(chunks: seq<bytes>): bytes {
    if chunks == [] then [] else chunks[0] + Flatten(chunks[1..])
  }

  /** A run of `onReceiveData` calls, up to the first that does not end normally. */
  function ReceiveAll(host: Order, st: State, cache: bytes, chunks: seq<bytes>): (p: Progress)
    requires Framed(st)
    ensures Framed(p.state)
    decreases |chunks|
  {
    if chunks == [] then Progress([], st, cache, Waiting)
    else
      var p := ReceiveChunk(host, st, cache, chunks[0]);
      if p.status.Waiting? then ReceiveAll(host, p.state, p.rest, chunks[1..]).After(p.handled)
      else p
  }

  /**
   * Chunking invariance, on any bytes at all: if the stream as a whole ends normally, every way of cutting it gives the
   * same messages and leaves the same state and the same cached bytes; if it does not, every way dispatches the same
   * messages first and stops for the same reason.
   */
  lemma {:induction false} ChunkingInvariance(host: Order, st: State, cache: bytes, chunks: seq<bytes>)
    requires Framed(st) && |cache| < Needed(st)
    ensures var p, all := ReceiveAll(host, st, cache, chunks), Process(host, st, cache + Flatten(chunks));
            && (all.status.Waiting? ==> p == all)
            && (!all.status.Waiting? ==> p.handled == all.handled && p.status == all.status)
    decreases |chunks|
  {
    hide Process, ReceiveChunk;
    if chunks == [] {
      assert cache + Flatten(chunks) == cache;
      ShortBufferWaits(host, st, cache);
    } else {
      var first, tail := Process(host, st, cache + chunks[0]), Flatten(chunks[1..]);
      assert cache + Flatten(chunks) == (cache + chunks[0]) + tail;
      ReceiveChunkIsProcess(host, st, cache, chunks[0]);
      ProcessAppend(host, st, cache + chunks[0], tail);
      if first.status.Waiting? {
        ChunkingInvariance(host, first.state, first.rest, chunks[1..]);
      }
    }
  }

  lemma ShortBufferWaits(host: Order, st: State, buffer: bytes)
    requires Framed(st) && |buffer| < Needed(st)
    ensures Process(host, st, buffer) == Progress([], st, buffer, Waiting)
  {}
}
