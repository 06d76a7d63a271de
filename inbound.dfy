/** What the client handlers of both servers make of one received chunk: the string the
    buffer holds once the terminator is written after the received bytes, and the routing
    directive that string is (a broadcast, or `@recipient message`). */
module Inbound {
  import opened Wrappers
  import opened LibC

  const AT: Byte := '@'
  const SPACE: Byte := ' '
  const NEWLINE: Byte := '\n'

  /** A NUL written after `a` ends its C string there, even if `a` is cut short by a NUL of its own. */
  lemma CStrBeforeNul(a: seq<Byte>, b: seq<Byte>)
    ensures CStr(a + [NUL] + b) == CStr(a)
  {
    var r := CStr(a);
    assert r <= a + [NUL] + b;
    CStrUnique(a + [NUL] + b, r);
  }

  // ---------------------------------------------------------------------------------
  // Terminating a received chunk

  /** The length both handlers pass to `recv`: the size of the whole buffer. */
  function RecvLengthAsWritten(bufferSize: nat): nat
  {
    bufferSize
  }

  /** The buffer after `recv` stored `chunk` at its start and the handler ran
      `buffer[bytes] = '\0'`, as the code is written: `recv` may return as many bytes as
      it was asked for, and None stands for the write one past the end of the buffer. */
  function TerminateAsWritten(buffer: seq<Byte>, chunk: seq<Byte>): (r: Option<seq<Byte>>)
    requires 0 < |chunk| <= RecvLengthAsWritten(|buffer|)
    ensures r.Some? <==> |chunk| < |buffer|
  {
    if |chunk| < |buffer| then Some(Terminate(buffer, chunk)) else None
  }

  /** A read that fills the buffer leaves no room for the terminator. */
  lemma FullReadOverruns(buffer: seq<Byte>, chunk: seq<Byte>)
    requires |buffer| > 0 && |chunk| == RecvLengthAsWritten(|buffer|)
    ensures TerminateAsWritten(buffer, chunk) == None
  {
  }

  /** The length `recv` must be passed so that the terminator always fits. */
  function RecvLength(bufferSize: nat): nat
    requires bufferSize > 0
  {
    bufferSize - 1
  }

  /** The buffer after `recv` stored `chunk` (at most RecvLength bytes) and the terminator
      was written after it: the buffer keeps its size, and the C string it holds is the
      C string of the chunk, whatever the buffer held before. */
  function Terminate(buffer: seq<Byte>, chunk: seq<Byte>): (r: seq<Byte>)
    requires |buffer| > 0 && |chunk| <= RecvLength(|buffer|)
    ensures |r| == |buffer|
    ensures CStr(r) == CStr(chunk)
  {
    CStrBeforeNul(chunk, buffer[|chunk| + 1..]);
    chunk + [NUL] + buffer[|chunk| + 1..]
  }

  /** The buffer after `recv` stored `chunk` at its start and nothing else was written:
      the bytes after the chunk are whatever the buffer held before. */
  function RecvInto(buffer: seq<Byte>, chunk: seq<Byte>): (r: seq<Byte>)
    requires |chunk| <= |buffer|
    ensures |r| == |buffer| && r[..|chunk|] == chunk && r[|chunk|..] == buffer[|chunk|..]
  {
    chunk + buffer[|chunk|..]
  }

  // ---------------------------------------------------------------------------------
  // The username field

  /** The size of the `username` field of a client record, in both servers. */
  const USERNAME_SIZE: nat := 32

  /** The `username` field the JSON relay's `handle_client` stores from its terminated
      buffer: `strncpy` of at most 31 bytes and a NUL in the last byte. It is always
      terminated, and read back it is the buffer's C string, cut to 31 bytes. */
  function UsernameField(buffer: seq<Byte>): (u: seq<Byte>)
    ensures |u| == USERNAME_SIZE && u[USERNAME_SIZE - 1] == NUL
    ensures CStr(u) == if |CStr(buffer)| < USERNAME_SIZE then CStr(buffer) else CStr(buffer)[..USERNAME_SIZE - 1]
  {
    StrNCpy(buffer, USERNAME_SIZE - 1) + [NUL]
  }

  // ---------------------------------------------------------------------------------
  // Classifying a line

  /** What one received line asks the server to do. */
  datatype Directive =
    | Broadcast(text: seq<Byte>)
    | Private(recipient: seq<Byte>, text: seq<Byte>)
      /** A line starting with '@' for which `strtok` found no recipient or no message. */
    | Incomplete

  predicate IsDirectiveLine(line: seq<Byte>)
  {
    |line| > 0 && line[0] == AT
  }

  /** The handlers' classifier: a line whose first byte is '@' is split by
      `strtok(buffer + 1, " ")` into the recipient and by `strtok(NULL, "\n")` into the
      message; any other line is broadcast as it is. */
  function ParseLine(line: seq<Byte>): (d: Directive)
    ensures IsDirectiveLine(line) <==> !d.Broadcast?
    ensures d.Broadcast? ==> d.text == line
    ensures d.Private? ==> |d.recipient| > 0 && SPACE !in d.recipient
    ensures d.Private? ==> |d.text| > 0 && NEWLINE !in d.text
  {
    if IsDirectiveLine(line) then
      match StrTok(line[1..], {SPACE})
      case None => Incomplete
      case Some(r) =>
        match StrTok(r.rest, {NEWLINE})
        case None => Incomplete
        case Some(m) => Private(r.text, m.text)
    else
      Broadcast(line)
  }

  /** `@recipient message`, optionally followed by a newline and more, is a private
      message with exactly that recipient and message. */
  lemma ParseDirective(recipient: seq<Byte>, message: seq<Byte>, tail: seq<Byte>)
    requires |recipient| > 0 && SPACE !in recipient
    requires |message| > 0 && NEWLINE !in message
    requires tail == [] || tail[0] == NEWLINE
    ensures ParseLine([AT] + recipient + [SPACE] + message + tail) == Private(recipient, message)
  {
    var line := [AT] + recipient + [SPACE] + message + tail;
    assert line[1..] == [] + recipient + [SPACE] + (message + tail);
    StrTokFinds([], recipient, SPACE, message + tail, {SPACE});
    if tail == [] {
      assert message + tail == [] + message;
      StrTokFindsLast([], message, {NEWLINE});
    } else {
      assert message + tail == [] + message + [NEWLINE] + tail[1..];
      StrTokFinds([], message, NEWLINE, tail[1..], {NEWLINE});
    }
  }

  /** `@bob`, `@bob ` and `@bob ` followed only by newlines have no message. */
  lemma ParseMissingMessage(recipient: seq<Byte>, gap: seq<Byte>)
    requires |recipient| > 0 && SPACE !in recipient
    requires forall i :: 0 <= i < |gap| ==> gap[i] == NEWLINE
    ensures ParseLine([AT] + recipient) == Incomplete
    ensures ParseLine([AT] + recipient + [SPACE] + gap) == Incomplete
  {
    ParseBareRecipient(recipient);
    ParseEmptyMessage(recipient, gap);
  }

  lemma ParseBareRecipient(recipient: seq<Byte>)
    requires |recipient| > 0 && SPACE !in recipient
    ensures ParseLine([AT] + recipient) == Incomplete
  {
    assert ([AT] + recipient)[1..] == [] + recipient;
    StrTokFindsLast([], recipient, {SPACE});
    assert StrTok([], {NEWLINE}) == None;
  }

  lemma ParseEmptyMessage(recipient: seq<Byte>, gap: seq<Byte>)
    requires |recipient| > 0 && SPACE !in recipient
    requires forall i :: 0 <= i < |gap| ==> gap[i] == NEWLINE
    ensures ParseLine([AT] + recipient + [SPACE] + gap) == Incomplete
  {
    var line := [AT] + recipient + [SPACE] + gap;
    assert line[1..] == [] + recipient + [SPACE] + gap;
    StrTokFinds([], recipient, SPACE, gap, {SPACE});
    assert StrTok(gap, {NEWLINE}) == None;
  }

  /** Every private message comes from a line of this shape: '@', spaces, the recipient,
      one space, then (in `body`) newlines, the message, and nothing or a newline and more. */
  lemma ParsePrivateShape(line: seq<Byte>) returns (lead: seq<Byte>, body: seq<Byte>, gap: seq<Byte>, tail: seq<Byte>)
    requires ParseLine(line).Private?
    ensures line[0] == AT
    ensures line[1..] == lead + ParseLine(line).recipient + [SPACE] + body
    ensures body == gap + ParseLine(line).text + tail
    ensures forall i :: 0 <= i < |lead| ==> lead[i] == SPACE
    ensures forall i :: 0 <= i < |gap| ==> gap[i] == NEWLINE
    ensures tail == [] || tail[0] == NEWLINE
  {
    var r := StrTok(line[1..], {SPACE}).value;
    var m := StrTok(r.rest, {NEWLINE}).value;
    assert ParseLine(line) == Private(r.text, m.text);
    lead, body := RecipientSplit(line[1..]);
    gap, tail := MessageSplit(body);
  }

  lemma RecipientSplit(s: seq<Byte>) returns (lead: seq<Byte>, body: seq<Byte>)
    requires StrTok(s, {SPACE}).Some?
    requires StrTok(StrTok(s, {SPACE}).value.rest, {NEWLINE}).Some?
    ensures body == StrTok(s, {SPACE}).value.rest
    ensures s == lead + StrTok(s, {SPACE}).value.text + [SPACE] + body
    ensures forall i :: 0 <= i < |lead| ==> lead[i] == SPACE
  {
    var sep;
    lead, sep := StrTokSplits(s, {SPACE});
    body := StrTok(s, {SPACE}).value.rest;
    assert sep == [SPACE];
  }

  lemma MessageSplit(body: seq<Byte>) returns (gap: seq<Byte>, tail: seq<Byte>)
    requires StrTok(body, {NEWLINE}).Some?
    ensures body == gap + StrTok(body, {NEWLINE}).value.text + tail
    ensures forall i :: 0 <= i < |gap| ==> gap[i] == NEWLINE
    ensures tail == [] || tail[0] == NEWLINE
  {
    var tok := StrTok(body, {NEWLINE}).value;
    var sep;
    gap, sep := StrTokSplits(body, {NEWLINE});
    tail := sep + tok.rest;
    JoinTail(gap, tok.text, sep, tok.rest);
  }

  /** A separator of at most one newline, and a rest that is empty when there is no
      separator, join into a tail that is empty or starts with a newline. */
  lemma JoinTail(gap: seq<Byte>, text: seq<Byte>, sep: seq<Byte>, rest: seq<Byte>)
    requires |sep| <= 1 && (forall i :: 0 <= i < |sep| ==> sep[i] in {NEWLINE})
    requires sep == [] ==> rest == []
    ensures gap + text + sep + rest == gap + text + (sep + rest)
    ensures sep + rest == [] || (sep + rest)[0] == NEWLINE
  {
    if sep != [] {
      assert sep[0] in {NEWLINE};
    }
  }
}
