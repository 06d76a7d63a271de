/** The plain-text relay (server.c). Its client table is a fixed array of MAX_CLIENTS
    records held by value; a record whose socket is 0 marks a free slot. Messages go
    out as `<sender>: <text>`, private ones as `[PM from <sender>] <text>`. */
module PlainRelay {
  import opened Wrappers
  import opened LibC
  import opened Inbound
  import opened Routing

  const MAX_CLIENTS: nat := 10
  const BUFFER_SIZE: nat := 1024

  // ---------------------------------------------------------------------------------
  // Payloads

  /** The text the broadcast loop formats with `snprintf`. */
  function ChatLine(sender: seq<Byte>, text: seq<Byte>): seq<Byte>
  {
    sender + ": " + text
  }

  /** The text the private-message loop formats with `snprintf`. */
  function PmLine(sender: seq<Byte>, text: seq<Byte>): seq<Byte>
  {
    "[PM from " + sender + "] " + text
  }

  /** What the broadcast loop sends: the line, cut to BUFFER_SIZE - 1 bytes. */
  function BroadcastPayload(sender: seq<Byte>, text: seq<Byte>): (p: seq<Byte>)
    ensures |p| < BUFFER_SIZE && p <= ChatLine(sender, text)
    ensures |ChatLine(sender, text)| < BUFFER_SIZE ==> p == ChatLine(sender, text)
  {
    Snprintf(BUFFER_SIZE, ChatLine(sender, text))
  }

  /** What the private-message loop sends: the tagged line, cut to BUFFER_SIZE - 1 bytes. */
  function PrivatePayload(sender: seq<Byte>, text: seq<Byte>): (p: seq<Byte>)
    ensures |p| < BUFFER_SIZE && p <= PmLine(sender, text)
    ensures |PmLine(sender, text)| < BUFFER_SIZE ==> p == PmLine(sender, text)
  {
    Snprintf(BUFFER_SIZE, PmLine(sender, text))
  }

  /** With C-string arguments the formatted buffers hold no NUL, so `strlen` covers the
      whole payload and `send` transmits all of it. */
  lemma PayloadsAreCStrings(sender: seq<Byte>, text: seq<Byte>)
    requires IsCString(sender) && IsCString(text)
    ensures IsCString(BroadcastPayload(sender, text))
    ensures IsCString(PrivatePayload(sender, text))
  {
    assert IsCString(ChatLine(sender, text));
    SnprintfIsCString(BUFFER_SIZE, ChatLine(sender, text));
    assert IsCString(PmLine(sender, text));
    SnprintfIsCString(BUFFER_SIZE, PmLine(sender, text));
  }

  // ---------------------------------------------------------------------------------
  // Slots

  /** One `Client` record of the table: its socket and the 32 bytes of its `username`. */
  datatype Slot = Slot(socket: int, username: seq<Byte>)

  /** The username as `strcmp` and `%s` read it. */
  function Name(c: Slot): seq<Byte>
  {
    CStr(c.username)
  }

  /** A record as the routing loops read it: socket 0 is a free slot. */
  function EntryOf(c: Slot): Option<Entry>
  {
    if c.socket == 0 then None else Some(Entry(c.socket, Name(c)))
  }

  /** The table as the routing loops read it. */
  function ViewOf(s: seq<Slot>): (t: Table)
    ensures |t| == |s|
    ensures forall i :: 0 <= i < |s| ==> t[i] == EntryOf(s[i])
  {
    seq(|s|, i requires 0 <= i < |s| => EntryOf(s[i]))
  }

  /** A slot is free exactly when its socket is 0, and an occupied slot is seen with its
      own socket and name. */
  lemma FreeExactlyWhenZero(s: seq<Slot>, i: nat)
    requires i < |s|
    ensures ViewOf(s)[i].None? <==> s[i].socket == 0
    ensures ViewOf(s)[i].Some? ==> ViewOf(s)[i].value == Entry(s[i].socket, Name(s[i]))
  {
  }

  // ---------------------------------------------------------------------------------
  // Allocating and releasing slots

  /** The slot `main` gives an accepted socket: the lowest one whose socket is 0. */
  function FirstFree(s: seq<Slot>): (r: Option<nat>)
    ensures r.Some? ==> r.value < |s| && s[r.value].socket == 0
    ensures r.Some? ==> forall j :: 0 <= j < r.value ==> s[j].socket != 0
    ensures r.None? ==> forall j :: 0 <= j < |s| ==> s[j].socket != 0
  {
    if s == [] then None
    else
      var n := |s| - 1;
      assert forall j :: 0 <= j < n ==> s[..n][j] == s[j];
      match FirstFree(s[..n])
      case Some(i) => Some(i)
      case None => if s[n].socket == 0 then Some(n) else None
  }

  /** The table after `main` accepted socket `sock`. Only the socket is written: the
      slot keeps the username its previous occupant left. */
  function Accepted(s: seq<Slot>, sock: int): seq<Slot>
  {
    match FirstFree(s)
    case None => s
    case Some(i) => s[i := s[i].(socket := sock)]
  }

  /** `main` writes the new socket into the lowest free slot and changes nothing else;
      with every slot taken the table is unchanged. */
  lemma AcceptFirstFit(s: seq<Slot>, sock: int)
    ensures |Accepted(s, sock)| == |s|
    ensures (forall j :: 0 <= j < |s| ==> s[j].socket != 0) ==> Accepted(s, sock) == s
    ensures forall i :: 0 <= i < |s| && s[i].socket == 0 && (forall j :: 0 <= j < i ==> s[j].socket != 0)
                        ==> Accepted(s, sock) == s[i := Slot(sock, s[i].username)]
  {
    forall i | 0 <= i < |s| && s[i].socket == 0 && (forall j :: 0 <= j < i ==> s[j].socket != 0)
      ensures Accepted(s, sock) == s[i := Slot(sock, s[i].username)]
    {
      var r := FirstFree(s);
      assert !(r.value < i) && !(i < r.value);
    }
  }

  /** Until its handler stores a username, a client accepted into a reused slot is seen
      under the name of the slot's previous occupant; every other slot reads as before. */
  lemma AcceptInheritsName(s: seq<Slot>, sock: int, i: nat)
    requires i < |s| && s[i].socket == 0 && (forall j :: 0 <= j < i ==> s[j].socket != 0)
    requires sock != 0
    ensures ViewOf(Accepted(s, sock)) == ViewOf(s)[i := Some(Entry(sock, Name(s[i])))]
  {
    AcceptFirstFit(s, sock);
    assert Accepted(s, sock) == s[i := Slot(sock, s[i].username)];
  }

  /** An accepted socket 0 is indistinguishable from a free slot: the table does not change. */
  lemma AcceptZeroInvisible(s: seq<Slot>)
    ensures Accepted(s, 0) == s
  {
    var r := FirstFree(s);
    if r.Some? {
      assert s[r.value := s[r.value].(socket := 0)] == s;
    }
  }

  /** The slot the handler releases on disconnect: the lowest one holding `sock`. */
  function FirstWithSocket(s: seq<Slot>, sock: int): (r: Option<nat>)
    ensures r.Some? ==> r.value < |s| && s[r.value].socket == sock
    ensures r.Some? ==> forall j :: 0 <= j < r.value ==> s[j].socket != sock
    ensures r.None? ==> forall j :: 0 <= j < |s| ==> s[j].socket != sock
  {
    if s == [] then None
    else
      var n := |s| - 1;
      assert forall j :: 0 <= j < n ==> s[..n][j] == s[j];
      match FirstWithSocket(s[..n], sock)
      case Some(i) => Some(i)
      case None => if s[n].socket == sock then Some(n) else None
  }

  /** The table after the handler released socket `sock`: only the socket is cleared. */
  function Released(s: seq<Slot>, sock: int): seq<Slot>
  {
    match FirstWithSocket(s, sock)
    case None => s
    case Some(i) => s[i := s[i].(socket := 0)]
  }

  /** Release resets the socket of the lowest slot holding `sock` to 0 and changes no
      other slot; that slot keeps its username. With no match nothing changes. */
  lemma ReleaseFirstMatch(s: seq<Slot>, sock: int)
    ensures |Released(s, sock)| == |s|
    ensures (forall j :: 0 <= j < |s| ==> s[j].socket != sock) ==> Released(s, sock) == s
    ensures forall i :: 0 <= i < |s| && s[i].socket == sock && (forall j :: 0 <= j < i ==> s[j].socket != sock)
                        ==> Released(s, sock) == s[i := Slot(0, s[i].username)]
  {
    forall i | 0 <= i < |s| && s[i].socket == sock && (forall j :: 0 <= j < i ==> s[j].socket != sock)
      ensures Released(s, sock) == s[i := Slot(0, s[i].username)]
    {
      var r := FirstWithSocket(s, sock);
      assert !(r.value < i) && !(i < r.value);
    }
  }

  /** As the routing loops see it, a release frees the one released slot. */
  lemma ReleaseFreesSlot(s: seq<Slot>, sock: int, i: nat)
    requires i < |s| && s[i].socket == sock && (forall j :: 0 <= j < i ==> s[j].socket != sock)
    ensures ViewOf(Released(s, sock)) == ViewOf(s)[i := None]
  {
    ReleaseFirstMatch(s, sock);
    assert Released(s, sock) == s[i := Slot(0, s[i].username)];
  }

  /** Releasing socket 0 finds a free slot, or none, and changes nothing. */
  lemma ReleaseZeroInvisible(s: seq<Slot>)
    ensures Released(s, 0) == s
  {
    var r := FirstWithSocket(s, 0);
    if r.Some? {
      assert s[r.value := s[r.value].(socket := 0)] == s;
    }
  }

  /** No two occupied slots hold the same socket. */
  ghost predicate UniqueSockets(s: seq<Slot>)
  {
    forall i, j :: 0 <= i < j < |s| && s[i].socket != 0 ==> s[i].socket != s[j].socket
  }

  /** Accepting a socket that no slot holds keeps sockets unique. */
  lemma AcceptKeepsUnique(s: seq<Slot>, sock: int)
    requires UniqueSockets(s)
    requires forall j :: 0 <= j < |s| ==> s[j].socket != sock
    ensures UniqueSockets(Accepted(s, sock))
  {
    var f := FirstFree(s);
    if f.Some? {
      var r := Accepted(s, sock);
      forall i, j | 0 <= i < j < |r| && r[i].socket != 0
        ensures r[i].socket != r[j].socket
      {
        if i == f.value {
          assert s[j].socket != sock;
        } else if j == f.value {
          assert s[i].socket != sock;
        }
      }
    }
  }

  /** With unique sockets, one release of a non-zero socket leaves no slot holding it,
      so releasing it again changes nothing. */
  lemma ReleaseIdempotent(s: seq<Slot>, sock: int)
    requires UniqueSockets(s) && sock != 0
    ensures UniqueSockets(Released(s, sock))
    ensures forall j :: 0 <= j < |s| ==> Released(s, sock)[j].socket != sock
    ensures Released(Released(s, sock), sock) == Released(s, sock)
  {
    var r := Released(s, sock);
    ReleaseFirstMatch(r, sock);
  }

  // ---------------------------------------------------------------------------------
  // The username

  /** The username field as `handle_client` stores it from its first `recv`, as the code
      is written: the received bytes are not terminated, so `strcpy` reads on into
      whatever the buffer held before (`stale`). None stands for undefined behaviour:
      the string met no terminator, or it and its terminator overflow the field. */
  function UsernameAsWritten(field: seq<Byte>, stale: seq<Byte>, chunk: seq<Byte>): (u: Option<seq<Byte>>)
    requires |chunk| <= |stale|
    ensures var b := RecvInto(stale, chunk);
            u.Some? <==> NUL in b && |CStr(b)| < |field|
    ensures u.Some? ==> |u.value| == |field| && CStr(u.value) == CStr(RecvInto(stale, chunk))
  {
    StrCpy(field, RecvInto(stale, chunk))
  }

  /** A name sent without its terminator, as the client sends it, followed in the buffer
      by a non-zero byte, is never stored as sent: it picks up the stale bytes or its copy
      is undefined. */
  lemma UnterminatedNameTakesStaleBytes(field: seq<Byte>, stale: seq<Byte>, chunk: seq<Byte>)
    requires |chunk| < |stale| && NUL !in chunk && stale[|chunk|] != NUL
    ensures var u := UsernameAsWritten(field, stale, chunk);
            u.None? || CStr(u.value) != chunk
  {
  }

  /** A name longer than the field overflows it. */
  lemma LongNameOverflows(field: seq<Byte>, stale: seq<Byte>, chunk: seq<Byte>)
    requires |chunk| <= |stale| && NUL !in chunk && |chunk| >= |field|
    ensures UsernameAsWritten(field, stale, chunk).None?
  {
  }

  /** The username field as evidently intended, as the JSON relay stores it: the first
      chunk is terminated in the buffer, then at most 31 bytes are copied and the last
      byte of the field is NUL. */
  function StoredUsername(stale: seq<Byte>, chunk: seq<Byte>): (u: seq<Byte>)
    requires |stale| > 0 && |chunk| <= RecvLength(|stale|)
    ensures |u| == USERNAME_SIZE
    ensures CStr(u) == if |CStr(chunk)| < USERNAME_SIZE then CStr(chunk) else CStr(chunk)[..USERNAME_SIZE - 1]
  {
    UsernameField(Terminate(stale, chunk))
  }

  /** Wherever the code as written is defined and the client did send a terminator, the
      intended field reads back the same name. */
  lemma StoredUsernameAgrees(field: seq<Byte>, stale: seq<Byte>, chunk: seq<Byte>)
    requires |field| == USERNAME_SIZE && |stale| > 0 && |chunk| <= RecvLength(|stale|)
    requires NUL in chunk && |CStr(chunk)| < USERNAME_SIZE
    ensures UsernameAsWritten(field, stale, chunk).Some?
    ensures CStr(UsernameAsWritten(field, stale, chunk).value) == CStr(StoredUsername(stale, chunk))
  {
    var b := RecvInto(stale, chunk);
    var s := CStr(chunk);
    assert |s| < |chunk|;
    assert chunk[|s|] == NUL;
    CStrUnique(b, s);
    assert b[|s|] == NUL;
  }

  // ---------------------------------------------------------------------------------
  // Routing one line and a whole session

  /** Whether the handler's pass over `line` is defined for the server as written. A '@'
      line for which `strtok` found no recipient passes NULL to `strcmp` once the loop
      meets an occupied slot, so it is defined only when every slot is free. A '@' line
      with a recipient but no message passes NULL to `snprintf` only at a slot carrying
      the recipient's name, so it is defined exactly when no occupied slot carries it. */
  predicate LineDefined(t: Table, line: seq<Byte>)
  {
    ParseLine(line).Incomplete? ==>
      && IsDirectiveLine(line)
      && match StrTok(line[1..], {SPACE})
         case None => forall i :: 0 <= i < |t| ==> t[i].None?
         case Some(r) => FirstNamed(t, r.text).None?
  }

  /** The sends of one received line from the client with socket `senderFd` and username
      `senderName`. A defined line lacking a recipient or a message sends nothing. */
  function LineLog(t: Table, senderFd: int, senderName: seq<Byte>, line: seq<Byte>): seq<Send>
    requires LineDefined(t, line)
  {
    match ParseLine(line)
    case Broadcast(text) => BroadcastLog(t, senderFd, BroadcastPayload(senderName, text))
    case Private(recipient, text) => PrivateLog(t, recipient, PrivatePayload(senderName, text))
    case Incomplete => []
  }

  /** A line not starting with '@' is broadcast verbatim; a '@' line is never broadcast:
      it yields at most one send, to the first occupied slot with the recipient's name,
      and none when it lacks a recipient or a message. */
  lemma LineRouting(t: Table, senderFd: int, senderName: seq<Byte>, line: seq<Byte>)
    requires LineDefined(t, line)
    ensures !IsDirectiveLine(line) ==>
              LineLog(t, senderFd, senderName, line) == BroadcastLog(t, senderFd, BroadcastPayload(senderName, line))
    ensures IsDirectiveLine(line) ==>
              var d := ParseLine(line);
              || (d.Private? && LineLog(t, senderFd, senderName, line) == PrivateLog(t, d.recipient, PrivatePayload(senderName, d.text)))
              || (d.Incomplete? && LineLog(t, senderFd, senderName, line) == [])
    ensures IsDirectiveLine(line) ==> |LineLog(t, senderFd, senderName, line)| <= 1
  {
  }

  /** `@bob` with no message is defined exactly when no occupied slot is called `bob`,
      and then sends nothing. */
  lemma LineMissingMessage(t: Table, senderFd: int, senderName: seq<Byte>, recipient: seq<Byte>)
    requires |recipient| > 0 && SPACE !in recipient
    ensures LineDefined(t, [AT] + recipient) <==> FirstNamed(t, recipient).None?
    ensures LineDefined(t, [AT] + recipient) ==> LineLog(t, senderFd, senderName, [AT] + recipient) == []
  {
    ParseBareRecipient(recipient);
    assert ([AT] + recipient)[1..] == [] + recipient;
    StrTokFindsLast([], recipient, {SPACE});
  }

  /** A lone `@` has no recipient: it is defined exactly when every slot is free, and then
      sends nothing. */
  lemma LineMissingRecipient(t: Table, senderFd: int, senderName: seq<Byte>)
    ensures LineDefined(t, [AT]) <==> forall i :: 0 <= i < |t| ==> t[i].None?
    ensures LineDefined(t, [AT]) ==> LineLog(t, senderFd, senderName, [AT]) == []
  {
    assert [AT][1..] == [];
  }

  /** `@bob hello` delivers exactly PrivateLog for recipient `bob` and message `hello`. */
  lemma LineDirective(t: Table, senderFd: int, senderName: seq<Byte>, recipient: seq<Byte>, message: seq<Byte>)
    requires |recipient| > 0 && SPACE !in recipient
    requires |message| > 0 && NEWLINE !in message
    ensures LineDefined(t, [AT] + recipient + [SPACE] + message + [NEWLINE])
    ensures LineLog(t, senderFd, senderName, [AT] + recipient + [SPACE] + message + [NEWLINE])
         == PrivateLog(t, recipient, PrivatePayload(senderName, message))
  {
    ParseDirective(recipient, message, [NEWLINE]);
  }

  /** Whether every chunk's line is defined for the server as written. */
  predicate Routable(t: Table, chunks: seq<seq<Byte>>)
  {
    forall k :: 0 <= k < |chunks| ==> LineDefined(t, CStr(chunks[k]))
  }

  /** Every prefix of a routable session is routable. */
  lemma RoutablePrefix(t: Table, chunks: seq<seq<Byte>>, n: nat)
    requires Routable(t, chunks) && n <= |chunks|
    ensures Routable(t, chunks[..n])
  {
    forall k | 0 <= k < n
      ensures LineDefined(t, CStr(chunks[..n][k]))
    {
      assert chunks[..n][k] == chunks[k];
    }
  }

  /** The sends for each chunk of a session, chunk by chunk. */
  function LineLogs(t: Table, senderFd: int, senderName: seq<Byte>, chunks: seq<seq<Byte>>): (logs: seq<seq<Send>>)
    requires Routable(t, chunks)
    ensures |logs| == |chunks|
    ensures forall k :: 0 <= k < |chunks| ==> logs[k] == LineLog(t, senderFd, senderName, CStr(chunks[k]))
  {
    seq(|chunks|, k requires 0 <= k < |chunks| => LineLog(t, senderFd, senderName, CStr(chunks[k])))
  }

  /** The sends of a session: the lines of the chunks, routed one after another. */
  function SessionLog(t: Table, senderFd: int, senderName: seq<Byte>, chunks: seq<seq<Byte>>): seq<Send>
    requires Routable(t, chunks)
  {
    Concat(LineLogs(t, senderFd, senderName, chunks))
  }

  /** Routing one more chunk appends that chunk's sends. */
  lemma SessionLogSnoc(t: Table, senderFd: int, senderName: seq<Byte>, chunks: seq<seq<Byte>>, c: seq<Byte>)
    requires Routable(t, chunks + [c])
    ensures Routable(t, chunks) && LineDefined(t, CStr(c))
    ensures SessionLog(t, senderFd, senderName, chunks + [c])
         == SessionLog(t, senderFd, senderName, chunks) + LineLog(t, senderFd, senderName, CStr(c))
  {
    assert forall k :: 0 <= k < |chunks| ==> (chunks + [c])[k] == chunks[k];
    assert (chunks + [c])[|chunks|] == c;
    var logs := LineLogs(t, senderFd, senderName, chunks);
    var line := LineLog(t, senderFd, senderName, CStr(c));
    assert LineLogs(t, senderFd, senderName, chunks + [c]) == logs + [line];
    ConcatAppend(logs, [line]);
    assert Concat([line]) == Concat([]) + line;
  }

  // ---------------------------------------------------------------------------------
  // The client table

  /** The global `clients` array. Each method is one critical section under
      `clients_mutex`; a handler refers to its record by the index `main` gave it. */
  class ClientTable {
    const slots: array<Slot>

    ghost predicate Valid()
    {
      slots.Length == MAX_CLIENTS
    }

    /** The zero-initialised global array: every slot free, every username empty. */
    constructor ()
      ensures Valid() && fresh(slots)
      ensures forall i :: 0 <= i < slots.Length ==> slots[i] == Slot(0, Zeros(USERNAME_SIZE))
    {
      slots := new Slot[MAX_CLIENTS](_ => Slot(0, Zeros(USERNAME_SIZE)));
    }

    /** `main`'s accept step: write `newSocket` into the first slot whose socket is 0 and
        start a handler for that slot. None means every slot was taken: nothing is
        stored and no handler is started. */
    method Accept(newSocket: int) returns (handler: Option<nat>)
      requires Valid()
      modifies slots
      ensures handler == FirstFree(old(slots[..]))
      ensures slots[..] == Accepted(old(slots[..]), newSocket)
    {
      handler := None;
      var i := 0;
      while i < MAX_CLIENTS
        invariant 0 <= i <= MAX_CLIENTS
        invariant slots[..] == old(slots[..]) && handler == None
        invariant forall j :: 0 <= j < i ==> slots[j].socket != 0
      {
        if slots[i].socket == 0 {
          assert FirstFree(old(slots[..])) == Some(i) by {
            var r := FirstFree(old(slots[..]));
            assert !(r.value < i) && !(i < r.value);
          }
          slots[i] := slots[i].(socket := newSocket);
          handler := Some(i);
          break;
        }
        i := i + 1;
      }
    }

    /** The handler's disconnect step: reset the first slot holding `sock` to socket 0. */
    method Release(sock: int)
      requires Valid()
      modifies slots
      ensures slots[..] == Released(old(slots[..]), sock)
    {
      var i := 0;
      while i < MAX_CLIENTS
        invariant 0 <= i <= MAX_CLIENTS
        invariant slots[..] == old(slots[..])
        invariant forall j :: 0 <= j < i ==> slots[j].socket != sock
      {
        if slots[i].socket == sock {
          assert FirstWithSocket(old(slots[..]), sock) == Some(i) by {
            var r := FirstWithSocket(old(slots[..]), sock);
            assert !(r.value < i) && !(i < r.value);
          }
          slots[i] := slots[i].(socket := 0);
          break;
        }
        i := i + 1;
      }
    }

    /** The private-message loop of the handler for slot `self`: send to the first slot
        with a non-zero socket whose username equals `recipient`, and stop there. None
        stands for a NULL token: `strcmp` with a NULL recipient is undefined, so then
        every slot must be free; `snprintf` with a NULL message is undefined, so then no
        occupied slot may carry the recipient's name. Either way nothing is sent. */
    method SendPrivate(self: nat, recipient: Option<seq<Byte>>, message: Option<seq<Byte>>) returns (sent: seq<Send>)
      requires Valid() && self < MAX_CLIENTS
      requires recipient.None? ==> forall i :: 0 <= i < slots.Length ==> slots[i].socket == 0
      requires recipient.Some? && message.None? ==> FirstNamed(ViewOf(slots[..]), recipient.value).None?
      ensures recipient.Some? && message.Some? ==>
                sent == PrivateLog(ViewOf(slots[..]), recipient.value, PrivatePayload(Name(slots[self]), message.value))
      ensures recipient.None? || message.None? ==> sent == []
    {
      ghost var t := ViewOf(slots[..]);
      sent := [];
      var i := 0;
      while i < MAX_CLIENTS
        invariant 0 <= i <= MAX_CLIENTS
        invariant sent == []
        invariant recipient.Some? ==> forall j :: 0 <= j < i ==> !NamedAt(t, j, recipient.value)
      {
        if slots[i].socket != 0 && recipient.Some? && Name(slots[i]) == recipient.value {
          if message.Some? {
            var privateMsg := PrivatePayload(Name(slots[self]), message.value);
            sent := [Send(slots[i].socket, privateMsg)];
            PrivateLogAt(t, recipient.value, privateMsg, i);
          }
          break;
        }
        i := i + 1;
      }
    }

    /** The broadcast loop of the handler for slot `self`: send to every slot whose
        socket is neither 0 nor the handler's own, in slot order. */
    method SendBroadcast(self: nat, line: seq<Byte>) returns (sent: seq<Send>)
      requires Valid() && self < MAX_CLIENTS
      ensures sent == BroadcastLog(ViewOf(slots[..]), slots[self].socket, BroadcastPayload(Name(slots[self]), line))
      ensures forall s :: s in sent ==> s.socket != 0 && s.socket != slots[self].socket
    {
      ghost var payload := BroadcastPayload(Name(slots[self]), line);
      var own := slots[self].socket;
      sent := [];
      var i := 0;
      while i < MAX_CLIENTS
        invariant 0 <= i <= MAX_CLIENTS
        invariant sent == BroadcastLog(ViewOf(slots[..i]), own, payload)
      {
        if slots[i].socket != 0 && slots[i].socket != own {
          var broadcastMsg := BroadcastPayload(Name(slots[self]), line);
          sent := sent + [Send(slots[i].socket, broadcastMsg)];
        }
        assert slots[..i + 1] == slots[..i] + [slots[i]];
        assert ViewOf(slots[..i + 1]) == ViewOf(slots[..i]) + [EntryOf(slots[i])];
        BroadcastLogSnoc(ViewOf(slots[..i]), EntryOf(slots[i]), own, payload);
        i := i + 1;
      }
      assert slots[..i] == slots[..];
      BroadcastSkipsSender(ViewOf(slots[..]), own, payload);
      forall s | s in sent
        ensures s.socket != 0
      {
        BroadcastReaches(ViewOf(slots[..]), own, payload, s.socket);
      }
    }

    /** One pass of the handler's loop for one line (the buffer's C string): a '@' line
        is split by `strtok` and delivered privately, any other line is broadcast. After
        a first `strtok` that found nothing, the second finds nothing either. */
    method HandleLine(self: nat, line: seq<Byte>) returns (sent: seq<Send>)
      requires Valid() && self < MAX_CLIENTS
      requires LineDefined(ViewOf(slots[..]), line)
      ensures sent == LineLog(ViewOf(slots[..]), slots[self].socket, Name(slots[self]), line)
    {
      if |line| > 0 && line[0] == AT {
        var recipient := StrTok(line[1..], {SPACE});
        var rest := if recipient.Some? then recipient.value.rest else [];
        var message := StrTok(rest, {NEWLINE});
        var r := if recipient.Some? then Some(recipient.value.text) else None;
        var m := if message.Some? then Some(message.value.text) else None;
        sent := SendPrivate(self, r, m);
      } else {
        sent := SendBroadcast(self, line);
      }
    }

    /** The handler's receive loop: each chunk `recv` returns is terminated in the buffer
        and routed, until `recv` reports end of stream or an error. */
    method ReceiveLoop(self: nat, buffer: seq<Byte>, chunks: seq<seq<Byte>>) returns (sent: seq<Send>)
      requires Valid() && self < MAX_CLIENTS && |buffer| == BUFFER_SIZE
      requires forall k :: 0 <= k < |chunks| ==> 0 < |chunks[k]| <= RecvLength(BUFFER_SIZE)
      requires Routable(ViewOf(slots[..]), chunks)
      ensures sent == SessionLog(ViewOf(slots[..]), slots[self].socket, Name(slots[self]), chunks)
    {
      ghost var t := ViewOf(slots[..]);
      ghost var own := slots[self].socket;
      ghost var name := Name(slots[self]);
      var buf := buffer;
      sent := [];
      var k := 0;
      while k < |chunks|
        invariant 0 <= k <= |chunks| && |buf| == BUFFER_SIZE
        invariant Routable(t, chunks[..k])
        invariant sent == SessionLog(t, own, name, chunks[..k])
      {
        assert chunks[..k + 1] == chunks[..k] + [chunks[k]];
        RoutablePrefix(t, chunks, k + 1);
        buf := Terminate(buf, chunks[k]);
        var out := HandleLine(self, CStr(buf));
        SessionLogSnoc(t, own, name, chunks[..k], chunks[k]);
        sent := sent + out;
        k := k + 1;
      }
      assert chunks[..k] == chunks;
    }

    /** `handle_client` for slot `self`, with the intended username store. When the
        first `recv` fails the handler returns at once and the slot stays taken.
        Otherwise the first chunk becomes the username, the remaining chunks are routed,
        and at end of stream the slot holding the client's socket is released.
        `stale` is what the handler's buffer holds before the first `recv`. */
    method HandleClient(self: nat, stale: seq<Byte>, chunks: seq<seq<Byte>>) returns (sent: seq<Send>)
      requires Valid() && self < MAX_CLIENTS && |stale| == BUFFER_SIZE
      requires forall k :: 0 <= k < |chunks| ==> 0 < |chunks[k]| <= RecvLength(BUFFER_SIZE)
      requires |chunks| > 0 ==>
                 Routable(ViewOf(slots[..][self := slots[self].(username := StoredUsername(stale, chunks[0]))]), chunks[1..])
      modifies slots
      ensures chunks == [] ==> sent == [] && slots[..] == old(slots[..])
      ensures chunks != [] ==>
                var named := old(slots[..])[self := old(slots[self]).(username := StoredUsername(stale, chunks[0]))];
                sent == SessionLog(ViewOf(named), old(slots[self].socket), Name(named[self]), chunks[1..])
                && slots[..] == Released(named, old(slots[self].socket))
    {
      if chunks == [] {
        sent := [];
        return;
      }
      var buffer := Terminate(stale, chunks[0]);
      slots[self] := slots[self].(username := UsernameField(buffer));
      var own := slots[self].socket;
      sent := ReceiveLoop(self, buffer, chunks[1..]);
      Release(own);
    }
  }
}
