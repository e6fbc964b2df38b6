/**
 * The handshake that comes before the first message: lines out, lines in, and the hand-over to the message protocol.
 */
module Authentication {
  import opened Wrappers
  import opened Octets
  import opened Numerals
  import opened Transports
  import opened InputStreams
  import opened WireBytes

  datatype AuthRequired = AuthBasic | AuthNegotiateUnixFd

  const OK_WORD: bytes := [79, 75]
  const ERROR_WORD: bytes := [69, 82, 82, 79, 82]
  const REJECTED_WORD: bytes := [82, 69, 74, 69, 67, 84, 69, 68]
  const AGREE_UNIX_FD_WORD: bytes := [65, 71, 82, 69, 69, 95, 85, 78, 73, 88, 95, 70, 68]
  const DATA_WORD: bytes := [68, 65, 84, 65]
  const AUTH_WORD: bytes := [65, 85, 84, 72]
  const NEGOTIATE_UNIX_FD_WORD: bytes := [78, 69, 71, 79, 84, 73, 65, 84, 69, 95, 85, 78, 73, 88, 95, 70, 68]
  const CANCEL_WORD: bytes := [67, 65, 78, 67, 69, 76]

  const CR: byte := 13
  const LF: byte := 10
  const BEGIN_LINE: bytes := [66, 69, 71, 73, 78, CR, LF]
  const NEGOTIATE_LINE: bytes := NEGOTIATE_UNIX_FD_WORD + [CR, LF]
  // With the blank that follows.
  const AUTH_EXTERNAL: bytes := [65, 85, 84, 72, 32, 69, 88, 84, 69, 82, 78, 65, 76, 32]

  /** The line that opens the handshake: the user's number, in decimal, in hexadecimal. */
  function AuthLine(uid: nat): bytes {
    AUTH_EXTERNAL + ToHex(Decimal(uid)) + [CR, LF]
  }

  // ----- lines

  predicate LineEndsAt(s: bytes, n: nat) {
    2 <= n <= |s| && s[n - 2] == CR && s[n - 1] == LF
  }

  /** How long the first line is, with the CR LF that ends it. */
  function FirstLine(s: bytes): (r: Option<nat>)
    ensures r.Some? ==> LineEndsAt(s, r.value) && forall k: nat :: k < r.value ==> !LineEndsAt(s, k)
    ensures r.None? ==> forall k: nat :: !LineEndsAt(s, k)
  {
    FirstLineFrom(s, 2)
  }

  function FirstLineFrom(s: bytes, n: nat): (r: Option<nat>)
    requires n >= 2 && forall k: nat :: k < n ==> !LineEndsAt(s, k)
    ensures r.Some? ==> LineEndsAt(s, r.value) && forall k: nat :: k < r.value ==> !LineEndsAt(s, k)
    ensures r.None? ==> forall k: nat :: !LineEndsAt(s, k)
    decreases |s| - n
  {
    if n > |s| then None
    else if LineEndsAt(s, n) then Some(n)
    else FirstLineFrom(s, n + 1)
  }

  /** More bytes do not change what the first line is. */
  lemma FirstLineStays(s: bytes, t: bytes)
    ensures FirstLine(s).Some? ==>
      FirstLine(s + t) == FirstLine(s) && (s + t)[..FirstLine(s).value] == s[..FirstLine(s).value]
  {
    hide FirstLine;
    if FirstLine(s).Some? {
      LineEndsAlike(s, t, FirstLine(s).value);
      FirstLineIs(s + t, FirstLine(s).value);
    }
  }

  lemma LineEndsAlike(s: bytes, t: bytes, n: nat)
    requires n <= |s|
    ensures forall k: nat :: k <= n ==> (LineEndsAt(s + t, k) <==> LineEndsAt(s, k))
  {}

  lemma FirstLineIs(s: bytes, n: nat)
    requires LineEndsAt(s, n) && forall k: nat :: k < n ==> !LineEndsAt(s, k)
    ensures FirstLine(s) == Some(n)
  {
    hide FirstLine;
    assert FirstLine(s).Some? && !(n < FirstLine(s).value);
  }

  predicate StartsWith(s: bytes, word: bytes) {
    |word| <= |s| && s[..|word|] == word
  }

  // ----- answers

  /** What a received line leads to. */
  datatype Reaction = Begin | Negotiate | Ignore

  function React(required: AuthRequired, command: bytes): Reaction {
    if StartsWith(command, OK_WORD) then (if required.AuthBasic? then Begin else Negotiate)
    else if StartsWith(command, AGREE_UNIX_FD_WORD) then Begin
    else Ignore
  }

  function Perform(link: Link, reaction: Reaction): Link {
    match reaction
    case Begin => Release(WriteAll(link, [BEGIN_LINE]))
    case Negotiate => WriteAll(link, [NEGOTIATE_LINE])
    case Ignore => link
  }

  /** What the first line of a stream leads to, once it is there. */
  function FirstReaction(required: AuthRequired, stream: bytes): Reaction {
    if FirstLine(stream).Some? then React(required, stream[..FirstLine(stream).value]) else Ignore
  }

  /** The stream so far completes the handshake: its first line is one that leads to BEGIN. */
  predicate Accepted(required: AuthRequired, stream: bytes) {
    FirstReaction(required, stream).Begin?
  }

  lemma ReactionStays(required: AuthRequired, s: bytes, t: bytes)
    ensures FirstLine(s).Some? ==> FirstReaction(required, s + t) == FirstReaction(required, s)
    ensures FirstReaction(required, s) != Ignore ==> FirstLine(s).Some?
  {
    hide FirstLine, React;
    FirstLineStays(s, t);
  }

  /**
   * What listening to a buffer leaves: m_data, the transport, the bytes not consumed, and whether the handshake is
   * over.
   */
  datatype Heard = Heard(data: bytes, link: Link, rest: bytes, authenticated: bool)

  /** Up to and including the first LF, or everything. */
  function PieceLength(buffer: bytes): (n: nat)
    requires buffer != []
    ensures 0 < n <= |buffer| && LF !in buffer[..n - 1] && (n < |buffer| ==> buffer[n - 1] == LF)
  {
    if buffer[0] == LF || |buffer| == 1 then 1
    else
      var n := PieceLength(buffer[1..]);
      assert buffer[..n + 1 - 1] == [buffer[0]] + buffer[1..][..n - 1];
      n + 1
  }

  /** `onReceiveData` with `processData`: m_data keeps every line, so it is always the first one that is acted on. */
  function Listen(required: AuthRequired, data: bytes, link: Link, buffer: bytes): Heard
    decreases |buffer|
  {
    if buffer == [] then Heard(data, link, [], false)
    else
      var n := PieceLength(buffer);
      var more := data + buffer[..n];
      var reaction := FirstReaction(required, more);
      if reaction.Begin? then Heard(more, Perform(link, reaction), buffer[n..], true)
      else Listen(required, more, Perform(link, reaction), buffer[n..])
  }

  /** k requests to pass file descriptors. */
  function Negotiations(k: nat): (ls: seq<bytes>)
    ensures |ls| == k && forall l :: l in ls ==> l == NEGOTIATE_LINE
  {
    if k == 0 then [] else Negotiations(k - 1) + [NEGOTIATE_LINE]
  }

  lemma {:induction false} NegotiationsAdd(j: nat, k: nat)
    ensures Negotiations(j) + Negotiations(k) == Negotiations(j + k)
  {
    if k > 0 {
      NegotiationsAdd(j, k - 1);
    }
  }

  /**
   * However the bytes are cut, listening ends the handshake exactly when the whole stream's first line is an accepted
   * one. It then has written BEGIN once, released the waiting messages, and consumed exactly through that line.
   */
  lemma {:induction false} ListenIsByFirstLine(required: AuthRequired, data: bytes, link: Link, buffer: bytes)
      returns (k: nat)
    requires !Accepted(required, data)
    ensures var h, stream := Listen(required, data, link, buffer), data + buffer;
            && (h.authenticated <==> Accepted(required, stream))
            && (h.authenticated ==>
                  && |data| < FirstLine(stream).value && h.rest == stream[FirstLine(stream).value..]
                  && h.link == Release(WriteAll(link, [BEGIN_LINE])))
            && (!h.authenticated ==> h.rest == [] && h.data == stream && h.link == WriteAll(link, Negotiations(k)))
    ensures (required.AuthBasic? ==> k == 0) && (k > 0 ==> FirstLine(data + buffer).Some?)
    decreases |buffer|
  {
    hide FirstLine, PieceLength, FirstReaction, Perform, WriteAll, Release, Negotiations;
    if buffer == [] {
      assert data + buffer == data && Negotiations(0) == [] by { NoNegotiations(); }
      WriteNothing(link);
      return 0;
    }
    var n := PieceLength(buffer);
    var more, tail := data + buffer[..n], buffer[n..];
    assert more + tail == data + buffer;
    if FirstLine(data).None? {
      PieceEndsLine(data, buffer[..n]);
    }
    FirstLineStays(data, buffer[..n]);
    FirstLineStays(more, tail);
    ReactionStays(required, data, buffer[..n]);
    ReactionStays(required, more, tail);
    var reaction := FirstReaction(required, more);
    if reaction.Begin? {
      PerformBegin(link);
      assert FirstLine(more) == Some(|more|);
      return 0;
    }
    OnlyNegotiatesAskedTo(required, more);
    PerformIgnore(link);
    var next := Perform(link, reaction);
    var later := ListenIsByFirstLine(required, more, next, tail);
    var now: nat := if reaction.Negotiate? then 1 else 0;
    PerformIsNegotiations(link, reaction, later);
    k := now + later;
  }

  lemma NoNegotiations()
    ensures Negotiations(0) == []
  {}

  lemma PerformBegin(link: Link)
    ensures Perform(link, Begin) == Release(WriteAll(link, [BEGIN_LINE]))
  {}

  lemma OnlyNegotiatesAskedTo(required: AuthRequired, stream: bytes)
    ensures required.AuthBasic? ==> !FirstReaction(required, stream).Negotiate?
  {
    hide FirstLine;
  }

  lemma PerformIsNegotiations(link: Link, reaction: Reaction, later: nat)
    requires !reaction.Begin?
    ensures WriteAll(Perform(link, reaction), Negotiations(later))
         == WriteAll(link, Negotiations((if reaction.Negotiate? then 1 else 0) + later))
  {
    if reaction.Negotiate? {
      assert Negotiations(1) == Negotiations(0) + [NEGOTIATE_LINE] == [NEGOTIATE_LINE];
      NegotiationsAdd(1, later);
      WriteTwice(link, [NEGOTIATE_LINE], Negotiations(later));
    }
  }

  /** A piece has no LF but at its end, so a first line it completes ends with it. */
  lemma PieceEndsLine(data: bytes, piece: bytes)
    requires piece != [] && LF !in piece[..|piece| - 1] && FirstLine(data).None?
    ensures FirstLine(data + piece).Some? ==> FirstLine(data + piece).value == |data + piece|
  {
    hide FirstLine;
    var s := data + piece;
    LineEndsAlike(data, piece, |data|);
    forall n | |data| < n < |s|
      ensures !LineEndsAt(s, n)
    {
      assert piece[..|piece| - 1][n - 1 - |data|] == s[n - 1];
    }
  }

  /**
   * After OK to a request for file descriptors, nothing that follows ends the handshake, not even the agreement asked
   * for.
   */
  lemma NegotiationNeverEnds(line: bytes, rest: bytes)
    requires FirstLine(line) == Some(|line|) && StartsWith(line, OK_WORD)
    ensures !Accepted(AuthNegotiateUnixFd, line + rest)
  {
    hide FirstLine;
    FirstLineStays(line, rest);
    assert line[..|line|] == line;
  }

  // ----- the handshake in letters

  /** The lines that are written. */
  lemma HandshakeTexts(uid: nat)
    ensures BEGIN_LINE == Ascii("BEGIN\r\n") && NEGOTIATE_LINE == Ascii("NEGOTIATE_UNIX_FD\r\n")
    ensures AuthLine(uid) == Ascii("AUTH EXTERNAL ") + ToHex(Decimal(uid)) + Ascii("\r\n")
  {
    hide ToHex, Decimal;
  }

  /** A stream whose first line, up to the first CR LF, starts with the letters of the word. */
  ghost predicate FirstLineSays(stream: bytes, word: string)
    requires forall i :: 0 <= i < |word| ==> word[i] as int < 256
  {
    exists n: nat ::
      && LineEndsAt(stream, n) && (forall k: nat :: k < n ==> !LineEndsAt(stream, k))
      && |word| <= n && stream[..|word|] == Ascii(word)
  }

  lemma FirstLineStarts(stream: bytes, word: string)
    requires forall i :: 0 <= i < |word| ==> word[i] as int < 256
    ensures FirstLineSays(stream, word)
            <==> FirstLine(stream).Some? && StartsWith(stream[..FirstLine(stream).value], Ascii(word))
  {
    hide FirstLine;
    if FirstLineSays(stream, word) {
      var n: nat :|
        && LineEndsAt(stream, n) && (forall k: nat :: k < n ==> !LineEndsAt(stream, k))
        && |word| <= n && stream[..|word|] == Ascii(word);
      FirstLineIs(stream, n);
      assert stream[..n][..|word|] == stream[..|word|];
    }
    if FirstLine(stream).Some? && StartsWith(stream[..FirstLine(stream).value], Ascii(word)) {
      var n := FirstLine(stream).value;
      assert stream[..n][..|word|] == stream[..|word|];
    }
  }

  /** The streams that complete the handshake. */
  lemma AcceptedExactly(required: AuthRequired, stream: bytes)
    ensures Accepted(required, stream)
            <==> (required.AuthBasic? && FirstLineSays(stream, "OK")) || FirstLineSays(stream, "AGREE_UNIX_FD")
  {
    hide FirstLine, FirstLineSays, AuthLine, Ascii;
    FirstLineStarts(stream, "OK");
    FirstLineStarts(stream, "AGREE_UNIX_FD");
    WordLetters();
    if FirstLine(stream).Some? {
      WordsExclude(stream[..FirstLine(stream).value]);
    }
  }

  lemma WordLetters()
    ensures OK_WORD == Ascii("OK") && AGREE_UNIX_FD_WORD == Ascii("AGREE_UNIX_FD")
  {}

  lemma WordsExclude(line: bytes)
    ensures !(StartsWith(line, OK_WORD) && StartsWith(line, AGREE_UNIX_FD_WORD))
  {
    if StartsWith(line, OK_WORD) {
      assert line[0] == line[..|OK_WORD|][0] == 79;
    }
    if StartsWith(line, AGREE_UNIX_FD_WORD) {
      assert line[0] == line[..|AGREE_UNIX_FD_WORD|][0] == 65;
    }
  }

  /**
   * For any cut of the stream: the handshake ends if and only if the first line starts with OK, when that was asked for
   * without file descriptors, or with AGREE_UNIX_FD. Only then is anything released or BEGIN written; a first line that
   * starts with neither leaves the transport as it is.
   */
  lemma HandshakeEndsExactly(required: AuthRequired, data: bytes, link: Link, buffer: bytes)
    requires !(required.AuthBasic? && FirstLineSays(data, "OK")) && !FirstLineSays(data, "AGREE_UNIX_FD")
    ensures var h, stream := Listen(required, data, link, buffer), data + buffer;
            var ends := (required.AuthBasic? && FirstLineSays(stream, "OK")) || FirstLineSays(stream, "AGREE_UNIX_FD");
            && h.authenticated == ends
            && (ends ==> h.link == Release(WriteAll(link, [Ascii("BEGIN\r\n")])))
            && (!ends && !FirstLineSays(stream, "OK") ==> h.link == link)
  {
    hide FirstLine, FirstLineSays, Listen, Accepted, Release, WriteAll, Ascii, AuthLine;
    AcceptedExactly(required, data);
    AcceptedExactly(required, data + buffer);
    var k := ListenIsByFirstLine(required, data, link, buffer);
    HandshakeTexts(0);
    NoNegotiations();
    WriteNothing(link);
    if !Accepted(required, data + buffer) && !FirstLineSays(data + buffer, "OK") {
      ListenWithoutOk(required, data, link, buffer);
    }
  }

  /**
   * When file descriptors were asked for, a first line that starts with OK is answered with the request, at least
   * once.
   */
  lemma {:induction false} OkIsAnsweredWithRequest(data: bytes, link: Link, buffer: bytes) returns (k: nat)
    requires !FirstLineSays(data, "OK") && FirstLineSays(data + buffer, "OK")
    ensures k > 0 && Listen(AuthNegotiateUnixFd, data, link, buffer).link == WriteAll(link, Negotiations(k))
    decreases |buffer|
  {
    hide FirstLine, FirstLineSays, PieceLength, FirstReaction, Perform, WriteAll, Release, Negotiations, Ascii;
    var required := AuthNegotiateUnixFd;
    assert data + [] == data;
    var n := PieceLength(buffer);
    var more, tail := data + buffer[..n], buffer[n..];
    assert more + tail == data + buffer;
    RequestsAfterOk(more, tail);
    if FirstLineSays(more, "OK") {
      var next := Perform(link, Negotiate);
      var later := ListenIsByFirstLine(required, more, next, tail);
      PerformIsNegotiations(link, Negotiate, later);
      k := 1 + later;
    } else {
      PerformIgnore(link);
      k := OkIsAnsweredWithRequest(more, link, tail);
    }
  }

  lemma RequestsAfterOk(more: bytes, tail: bytes)
    requires FirstLineSays(more + tail, "OK")
    ensures !Accepted(AuthNegotiateUnixFd, more + tail) && !Accepted(AuthNegotiateUnixFd, more)
    ensures FirstReaction(AuthNegotiateUnixFd, more) == if FirstLineSays(more, "OK") then Negotiate else Ignore
  {
    hide FirstLine, FirstLineSays, Ascii;
    FirstLineStays(more, tail);
    FirstLineStarts(more + tail, "OK");
    FirstLineStarts(more, "OK");
    WordLetters();
  }

  lemma {:induction false} ListenWithoutOk(required: AuthRequired, data: bytes, link: Link, buffer: bytes)
    requires !FirstLineSays(data + buffer, "OK") && !Accepted(required, data + buffer)
    ensures Listen(required, data, link, buffer).link == link
    decreases |buffer|
  {
    hide FirstLine, FirstLineSays, PieceLength, FirstReaction, Perform, Ascii;
    if buffer != [] {
      var n := PieceLength(buffer);
      var more, tail := data + buffer[..n], buffer[n..];
      assert more + tail == data + buffer;
      ReactionStays(required, more, tail);
      FirstLineStays(more, tail);
      IgnoredWithoutOk(required, more, tail);
      PerformIgnore(link);
      ListenWithoutOk(required, more, link, tail);
    }
  }

  lemma IgnoredWithoutOk(required: AuthRequired, more: bytes, tail: bytes)
    requires !FirstLineSays(more + tail, "OK") && !Accepted(required, more + tail)
    ensures FirstReaction(required, more) == Ignore
  {
    hide FirstLine, FirstLineSays, Ascii;
    FirstLineStays(more, tail);
    FirstLineStarts(more + tail, "OK");
    WordLetters();
  }

  // ----- the object

  const WORDS: seq<bytes> :=
    [OK_WORD, ERROR_WORD, REJECTED_WORD, AGREE_UNIX_FD_WORD, DATA_WORD, AUTH_WORD, NEGOTIATE_UNIX_FD_WORD, CANCEL_WORD]

  class AuthenticationProtocol {
    const transport: Transport
    var data: bytes
    var authType: AuthRequired

    /** m_AuthType is not given a value until `sendAuth`. */
    constructor (transport: Transport)
      ensures this.transport == transport && data == []
    {
      this.transport := transport;
      data := [];
    }

    method SendWire(line: bytes)
      modifies transport
      ensures transport.StateOf() == WriteAll(old(transport.StateOf()), [line])
    {
      transport.SendStringDirect(line);
    }

    method SendAuth(required: AuthRequired, uid: nat)
      modifies transport, `authType
      ensures authType == required && transport.StateOf() == WriteAll(old(transport.StateOf()), [AuthLine(uid)])
    {
      authType := required;
      var auth := ConvertBinaryToHexString(AUTH_EXTERNAL, Decimal(uid));
      auth := auth + [CR, LF];
      SendWire(auth);
    }

    method SendBegin()
      modifies transport
      ensures transport.StateOf() == Perform(old(transport.StateOf()), Begin)
    {
      SendWire(BEGIN_LINE);
      transport.OnAuthComplete();
    }

    method SendNegotiateUnixFd()
      modifies transport
      ensures transport.StateOf() == Perform(old(transport.StateOf()), Negotiate)
    {
      SendWire(NEGOTIATE_LINE);
    }

    /** The address the server gives is decoded and not used. */
    method OnOk(guid: bytes) returns (authenticated: bool)
      modifies transport
      ensures authenticated == authType.AuthBasic?
      ensures transport.StateOf() == Perform(old(transport.StateOf()), if authType.AuthBasic? then Begin else Negotiate)
    {
      var address := ConvertHexStringToBinary([], guid);
      if authType.AuthBasic? {
        SendBegin();
        return true;
      }
      SendNegotiateUnixFd();
      return false;
    }

    method OnAgreeUnixFd() returns (authenticated: bool)
      modifies transport
      ensures authenticated && transport.StateOf() == Perform(old(transport.StateOf()), Begin)
    {
      SendBegin();
      return true;
    }

    /** The first of the eight words the line starts with decides; what follows the word and a blank is its argument. */
    method OnCommand(command: bytes) returns (authenticated: bool)
      requires LineEndsAt(command, |command|)
      modifies transport
      ensures authenticated == React(authType, command).Begin?
      ensures transport.StateOf() == Perform(old(transport.StateOf()), React(authType, command))
    {
      hide Perform;
      PerformIgnore(transport.StateOf());
      for i := 0 to |WORDS|
        invariant transport.StateOf() == old(transport.StateOf())
        invariant forall k :: 0 <= k < i ==> !StartsWith(command, WORDS[k])
      {
        if StartsWith(command, WORDS[i]) {
          RoomForArgument(command, WORDS[i]);
          var argument := command[|WORDS[i]| + 1..];
          WordsApart(command, i);
          if i == 0 {
            authenticated := OnOk(argument);
          } else if i == 3 {
            authenticated := OnAgreeUnixFd();
          } else {
            authenticated := false;
          }
          return;
        }
      }
      assert WORDS[0] == OK_WORD && WORDS[3] == AGREE_UNIX_FD_WORD;
      return false;
    }

    method ProcessData() returns (authenticated: bool)
      modifies transport
      ensures var reaction := FirstReaction(authType, data);
              authenticated == reaction.Begin? && transport.StateOf() == Perform(old(transport.StateOf()), reaction)
    {
      hide FirstLine, React, Perform;
      PerformIgnore(transport.StateOf());
      match FirstLine(data)
      case Some(n) =>
        authenticated := OnCommand(data[..n]);
      case None =>
        return false;
    }

    method OnReceiveData(buffer: OctetBuffer) returns (authenticated: bool)
      modifies transport, `data, buffer
      ensures Heard(data, transport.StateOf(), buffer.data, authenticated)
           == Listen(authType, old(data), old(transport.StateOf()), old(buffer.data))
    {
      hide FirstReaction, Perform, PieceLength;
      ghost var all := Listen(authType, data, transport.StateOf(), buffer.data);
      authenticated := false;
      while |buffer.data| != 0 && !authenticated
        invariant authenticated ==> Heard(data, transport.StateOf(), buffer.data, true) == all
        invariant !authenticated ==> Listen(authType, data, transport.StateOf(), buffer.data) == all
        decreases |buffer.data|
      {
        var found := buffer.Find(LF);
        var n := if found.None? then |buffer.data| else found.value + 1;
        PieceIs(buffer.data, n);
        data := data + buffer.data[..n];
        var removed := buffer.RemovePrefix(n);
        authenticated := ProcessData();
      }
    }
  }

  lemma PerformIgnore(link: Link)
    ensures Perform(link, Ignore) == link
  {}

  lemma PieceIs(buffer: bytes, n: nat)
    requires 0 < n <= |buffer| && LF !in buffer[..n - 1] && (n < |buffer| ==> buffer[n - 1] == LF)
    ensures PieceLength(buffer) == n
  {
    hide PieceLength;
    var m := PieceLength(buffer);
    assert forall k :: 0 <= k < n - 1 ==> buffer[..n - 1][k] == buffer[k];
    assert forall k :: 0 <= k < m - 1 ==> buffer[..m - 1][k] == buffer[k];
  }

  /** A line that starts with one of the words has a byte after it, so the argument is always there. */
  lemma RoomForArgument(command: bytes, word: bytes)
    requires LineEndsAt(command, |command|) && word in WORDS && StartsWith(command, word)
    ensures |word| + 1 <= |command|
  {
    assert word[|word| - 1] != LF;
    assert command[..|word|][|word| - 1] == word[|word| - 1];
  }

  /** No line starts with two of the words, so their order does not matter. */
  lemma WordsApart(command: bytes, i: nat)
    requires i < |WORDS| && StartsWith(command, WORDS[i])
    ensures i != 0 ==> !StartsWith(command, OK_WORD)
    ensures i != 3 ==> !StartsWith(command, AGREE_UNIX_FD_WORD)
  {
    var word := WORDS[i];
    assert command[0] == word[0] && command[1] == word[1];
    if StartsWith(command, OK_WORD) {
      assert command[0] == OK_WORD[0];
    }
    if StartsWith(command, AGREE_UNIX_FD_WORD) {
      assert command[0] == AGREE_UNIX_FD_WORD[0] && command[1] == AGREE_UNIX_FD_WORD[1];
    }
  }
}
