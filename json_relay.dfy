/** The JSON relay (server/server.c). Its client table is a fixed array of MAX_CLIENTS
    pointers to heap-allocated client records, NULL marking a free slot. Messages go out
    as `{"sender":"<name>","text":"<text>"}` objects; the sender of a private message
    is tagged " (PM)". */
module JsonRelay {
  import opened Wrappers
  import opened LibC
  import opened Inbound
  import opened Routing

  const MAX_CLIENTS: nat := 100
  const BUFFER_SIZE: nat := 2048

  // ---------------------------------------------------------------------------------
  // Payloads

  /** The object both send functions format with `snprintf`. */
  function JsonMessage(sender: seq<Byte>, text: seq<Byte>): seq<Byte>
  {
    "{\"sender\":\"" + sender + "\",\"text\":\"" + text + "\"}"
  }

  /** What `broadcast_message` sends: the object, cut to BUFFER_SIZE - 1 bytes. */
  function BroadcastPayload(sender: seq<Byte>, text: seq<Byte>): (p: seq<Byte>)
    ensures |p| < BUFFER_SIZE && p <= JsonMessage(sender, text)
    ensures |JsonMessage(sender, text)| < BUFFER_SIZE ==> p == JsonMessage(sender, text)
  {
    Snprintf(BUFFER_SIZE, JsonMessage(sender, text))
  }

  /** What `send_private_message` sends: the object with " (PM)" after the sender's
      name, cut to BUFFER_SIZE - 1 bytes. */
  function PrivatePayload(sender: seq<Byte>, text: seq<Byte>): (p: seq<Byte>)
    ensures |p| < BUFFER_SIZE && p <= JsonMessage(sender + " (PM)", text)
    ensures |JsonMessage(sender + " (PM)", text)| < BUFFER_SIZE ==> p == JsonMessage(sender + " (PM)", text)
  {
    Snprintf(BUFFER_SIZE, JsonMessage(sender + " (PM)", text))
  }

  /** With C-string arguments the formatted buffers hold no NUL, so `strlen` covers the
      whole payload and `send` transmits all of it. */
  lemma PayloadsAreCStrings(sender: seq<Byte>, text: seq<Byte>)
    requires IsCString(sender) && IsCString(text)
    ensures IsCString(BroadcastPayload(sender, text))
    ensures IsCString(PrivatePayload(sender, text))
  {
    assert IsCString(JsonMessage(sender, text));
    SnprintfIsCString(BUFFER_SIZE, JsonMessage(sender, text));
    assert IsCString(sender + " (PM)");
    assert IsCString(JsonMessage(sender + " (PM)", text));
    SnprintfIsCString(BUFFER_SIZE, JsonMessage(sender + " (PM)", text));
  }

  // ---------------------------------------------------------------------------------
  // Client records

  /** A client record (`client_t`). */
  class Client {
    /** Stored by `main` right after `accept`, never changed afterwards. */
    const socket: int
    /** The 32 bytes of the `username` field. */
    var username: seq<Byte>

    /** `main`: allocate a record for the accepted socket. `malloc` leaves `username`
        indeterminate; the model starts it zero-filled. */
    constructor (socket: int)
      ensures this.socket == socket && username == Zeros(USERNAME_SIZE)
    {
      this.socket := socket;
      username := Zeros(USERNAME_SIZE);
    }

    /** The username as `strcmp` and `%s` read it. */
    function Name(): seq<Byte>
      reads this
    {
      CStr(username)
    }

    /** `handle_client`: copy the received buffer into `username` and terminate it. */
    method SetUsername(buffer: seq<Byte>)
      modifies this
      ensures username == UsernameField(buffer)
    {
      username := StrNCpy(buffer, USERNAME_SIZE - 1);
      username := username + [NUL];
    }
  }

  /** The slot a record occupies, as the routing loops read it. */
  function EntryOf(c: Client?): Option<Entry>
    reads c
  {
    if c == null then None else Some(Entry(c.socket, c.Name()))
  }

  /** The table as the routing loops read it: a NULL slot is free. */
  function ViewOf(s: seq<Client?>): (t: Table)
    reads s
    ensures |t| == |s|
    ensures forall i :: 0 <= i < |s| ==> t[i] == EntryOf(s[i])
  {
    seq(|s|, i requires 0 <= i < |s| reads s => EntryOf(s[i]))
  }

  // ---------------------------------------------------------------------------------
  // Registering and removing clients

  /** The slot `add_client` fills: the lowest NULL one. */
  function FirstFree(s: seq<Client?>): (r: Option<nat>)
    ensures r.Some? ==> r.value < |s| && s[r.value] == null
    ensures r.Some? ==> forall j :: 0 <= j < r.value ==> s[j] != null
    ensures r.None? ==> forall j :: 0 <= j < |s| ==> s[j] != null
  {
    if s == [] then None
    else
      var n := |s| - 1;
      assert forall j :: 0 <= j < n ==> s[..n][j] == s[j];
      match FirstFree(s[..n])
      case Some(i) => Some(i)
      case None => if s[n] == null then Some(n) else None
  }

  /** The table after `add_client(cli)`. */
  function Added(s: seq<Client?>, cli: Client): seq<Client?>
  {
    match FirstFree(s)
    case None => s
    case Some(i) => s[i := cli]
  }

  /** `add_client` stores the record in the lowest free slot and changes no other slot;
      with every slot taken the table is unchanged and the client is not registered. */
  lemma AddFirstFit(s: seq<Client?>, cli: Client)
    ensures |Added(s, cli)| == |s|
    ensures (forall j :: 0 <= j < |s| ==> s[j] != null) ==> Added(s, cli) == s
    ensures forall i :: 0 <= i < |s| && s[i] == null && (forall j :: 0 <= j < i ==> s[j] != null)
                        ==> Added(s, cli) == s[i := cli]
    ensures (exists i :: 0 <= i < |s| && s[i] == null) ==> cli in Added(s, cli)
  {
    forall i | 0 <= i < |s| && s[i] == null && (forall j :: 0 <= j < i ==> s[j] != null)
      ensures Added(s, cli) == s[i := cli]
    {
      var r := FirstFree(s);
      assert !(r.value < i) && !(i < r.value);
    }
  }

  /** Whether slot `i` holds a record for socket `sock`. */
  predicate HoldsSocket(s: seq<Client?>, i: int, sock: int)
    requires 0 <= i < |s|
  {
    s[i] != null && s[i].socket == sock
  }

  /** The slot `remove_client(sock)` clears: the lowest one holding `sock`. */
  function FirstWithSocket(s: seq<Client?>, sock: int): (r: Option<nat>)
    ensures r.Some? ==> r.value < |s| && HoldsSocket(s, r.value, sock)
    ensures r.Some? ==> forall j :: 0 <= j < r.value ==> !HoldsSocket(s, j, sock)
    ensures r.None? ==> forall j :: 0 <= j < |s| ==> !HoldsSocket(s, j, sock)
  {
    if s == [] then None
    else
      var n := |s| - 1;
      assert forall j :: 0 <= j < n ==> HoldsSocket(s[..n], j, sock) == HoldsSocket(s, j, sock);
      match FirstWithSocket(s[..n], sock)
      case Some(i) => Some(i)
      case None => if HoldsSocket(s, n, sock) then Some(n) else None
  }

  /** The table after `remove_client(sock)`. */
  function Removed(s: seq<Client?>, sock: int): seq<Client?>
  {
    match FirstWithSocket(s, sock)
    case None => s
    case Some(i) => s[i := null]
  }

  /** `remove_client(sock)` clears the lowest slot holding `sock` and no other slot;
      when no slot holds it nothing changes. */
  lemma RemoveFirstMatch(s: seq<Client?>, sock: int)
    ensures |Removed(s, sock)| == |s|
    ensures (forall j :: 0 <= j < |s| ==> !HoldsSocket(s, j, sock)) ==> Removed(s, sock) == s
    ensures forall i :: 0 <= i < |s| && HoldsSocket(s, i, sock) && (forall j :: 0 <= j < i ==> !HoldsSocket(s, j, sock))
                        ==> Removed(s, sock) == s[i := null]
  {
    forall i | 0 <= i < |s| && HoldsSocket(s, i, sock) && (forall j :: 0 <= j < i ==> !HoldsSocket(s, j, sock))
      ensures Removed(s, sock) == s[i := null]
    {
      var r := FirstWithSocket(s, sock);
      assert !(r.value < i) && !(i < r.value);
    }
  }

  /** No two occupied slots hold the same socket. */
  ghost predicate UniqueSockets(s: seq<Client?>)
  {
    forall i, j :: 0 <= i < j < |s| && s[i] != null && s[j] != null ==> s[i].socket != s[j].socket
  }

  /** Registering a client whose socket is not in the table keeps sockets unique. */
  lemma AddKeepsUnique(s: seq<Client?>, cli: Client)
    requires UniqueSockets(s)
    requires forall j :: 0 <= j < |s| ==> !HoldsSocket(s, j, cli.socket)
    ensures UniqueSockets(Added(s, cli))
  {
    var f := FirstFree(s);
    if f.Some? {
      var r := Added(s, cli);
      forall i, j | 0 <= i < j < |r| && r[i] != null && r[j] != null
        ensures r[i].socket != r[j].socket
      {
        if i == f.value {
          assert !HoldsSocket(s, j, cli.socket);
        } else if j == f.value {
          assert !HoldsSocket(s, i, cli.socket);
        }
      }
    }
  }

  /** With unique sockets, one `remove_client(sock)` leaves no slot holding `sock`, so a
      second call changes nothing. */
  lemma RemoveIdempotent(s: seq<Client?>, sock: int)
    requires UniqueSockets(s)
    ensures UniqueSockets(Removed(s, sock))
    ensures forall j :: 0 <= j < |s| ==> !HoldsSocket(Removed(s, sock), j, sock)
    ensures Removed(Removed(s, sock), sock) == Removed(s, sock)
  {
    var r := Removed(s, sock);
    RemoveFirstMatch(r, sock);
  }

  // ---------------------------------------------------------------------------------
  // Routing one line and a whole session

  /** The sends `handle_client` makes for one received line from the client with socket
      `senderFd` and username `senderName`. */
  function LineLog(t: Table, senderFd: int, senderName: seq<Byte>, line: seq<Byte>): seq<Send>
  {
    match ParseLine(line)
    case Broadcast(text) => BroadcastLog(t, senderFd, BroadcastPayload(senderName, text))
    case Private(recipient, text) => PrivateLog(t, recipient, PrivatePayload(senderName, text))
    case Incomplete => []
  }

  /** A line not starting with '@' is broadcast verbatim; a line starting with '@' is
      never broadcast: it yields at most one send, the private message its tokens name. */
  lemma LineRouting(t: Table, senderFd: int, senderName: seq<Byte>, line: seq<Byte>)
    ensures !IsDirectiveLine(line) ==>
              LineLog(t, senderFd, senderName, line) == BroadcastLog(t, senderFd, BroadcastPayload(senderName, line))
    ensures IsDirectiveLine(line) ==> |LineLog(t, senderFd, senderName, line)| <= 1
    ensures IsDirectiveLine(line) && LineLog(t, senderFd, senderName, line) != [] ==>
              var d := ParseLine(line);
              d.Private? && LineLog(t, senderFd, senderName, line) == PrivateLog(t, d.recipient, PrivatePayload(senderName, d.text))
  {
  }

  /** `@bob hello` delivers exactly PrivateLog for recipient `bob` and message `hello`;
      `@bob` alone has no message and sends nothing. */
  lemma LineDirective(t: Table, senderFd: int, senderName: seq<Byte>, recipient: seq<Byte>, message: seq<Byte>)
    requires |recipient| > 0 && SPACE !in recipient
    requires |message| > 0 && NEWLINE !in message
    ensures LineLog(t, senderFd, senderName, [AT] + recipient + [SPACE] + message)
         == PrivateLog(t, recipient, PrivatePayload(senderName, message))
    ensures LineLog(t, senderFd, senderName, [AT] + recipient) == []
  {
    ParseDirective(recipient, message, []);
    assert [AT] + recipient + [SPACE] + message + [] == [AT] + recipient + [SPACE] + message;
    ParseMissingMessage(recipient, []);
  }

  /** The sends for each chunk of a session, chunk by chunk. */
  function LineLogs(t: Table, senderFd: int, senderName: seq<Byte>, chunks: seq<seq<Byte>>): (logs: seq<seq<Send>>)
    ensures |logs| == |chunks|
    ensures forall k :: 0 <= k < |chunks| ==> logs[k] == LineLog(t, senderFd, senderName, CStr(chunks[k]))
  {
    seq(|chunks|, k requires 0 <= k < |chunks| => LineLog(t, senderFd, senderName, CStr(chunks[k])))
  }

  /** The sends of a session: the lines of the chunks, routed one after another. */
  function SessionLog(t: Table, senderFd: int, senderName: seq<Byte>, chunks: seq<seq<Byte>>): seq<Send>
  {
    Concat(LineLogs(t, senderFd, senderName, chunks))
  }

  /** The log of the first k + 1 chunks extends that of the first k by chunk k's sends. */
  lemma SessionLogNext(t: Table, senderFd: int, senderName: seq<Byte>, chunks: seq<seq<Byte>>, k: nat)
    requires k < |chunks|
    ensures SessionLog(t, senderFd, senderName, chunks[..k + 1])
         == SessionLog(t, senderFd, senderName, chunks[..k]) + LineLog(t, senderFd, senderName, CStr(chunks[k]))
  {
    assert chunks[..k + 1] == chunks[..k] + [chunks[k]];
    SessionLogSnoc(t, senderFd, senderName, chunks[..k], chunks[k]);
  }

  /** Routing one more chunk appends that chunk's sends. */
  lemma SessionLogSnoc(t: Table, senderFd: int, senderName: seq<Byte>, chunks: seq<seq<Byte>>, c: seq<Byte>)
    ensures SessionLog(t, senderFd, senderName, chunks + [c])
         == SessionLog(t, senderFd, senderName, chunks) + LineLog(t, senderFd, senderName, CStr(c))
  {
    var logs := LineLogs(t, senderFd, senderName, chunks);
    var line := LineLog(t, senderFd, senderName, CStr(c));
    assert LineLogs(t, senderFd, senderName, chunks + [c]) == logs + [line];
    ConcatAppend(logs, [line]);
    assert Concat([line]) == Concat([]) + line;
  }

  /** A session's sends keep the order of its lines: routing two runs of chunks one after
      the other sends what the first run sends, then what the second sends. */
  lemma SessionLogAppend(t: Table, senderFd: int, senderName: seq<Byte>, c1: seq<seq<Byte>>, c2: seq<seq<Byte>>)
    ensures SessionLog(t, senderFd, senderName, c1 + c2)
         == SessionLog(t, senderFd, senderName, c1) + SessionLog(t, senderFd, senderName, c2)
  {
    var a := LineLogs(t, senderFd, senderName, c1);
    var b := LineLogs(t, senderFd, senderName, c2);
    var ab := LineLogs(t, senderFd, senderName, c1 + c2);
    forall k | 0 <= k < |ab|
      ensures ab[k] == (a + b)[k]
    {
      if k < |c1| {
        assert (c1 + c2)[k] == c1[k];
      } else {
        assert (c1 + c2)[k] == c2[k - |c1|];
      }
    }
    assert ab == a + b;
    ConcatAppend(a, b);
  }

  // ---------------------------------------------------------------------------------
  // The client table

  /** The global `clients` table. Each method is one critical section under `clients_mutex`. */
  class ClientTable {
    const slots: array<Client?>

    ghost predicate Valid()
    {
      slots.Length == MAX_CLIENTS
    }

    /** The table at program start: every slot NULL. */
    constructor ()
      ensures Valid() && fresh(slots)
      ensures forall i :: 0 <= i < slots.Length ==> slots[i] == null
    {
      slots := new Client?[MAX_CLIENTS](_ => null);
    }

    /** `add_client`: store `cli` in the first NULL slot, if there is one. */
    method AddClient(cli: Client)
      requires Valid()
      modifies slots
      ensures slots[..] == Added(old(slots[..]), cli)
    {
      var i := 0;
      while i < MAX_CLIENTS
        invariant 0 <= i <= MAX_CLIENTS
        invariant slots[..] == old(slots[..])
        invariant forall j :: 0 <= j < i ==> slots[j] != null
      {
        if slots[i] == null {
          slots[i] := cli;
          assert FirstFree(old(slots[..])) == Some(i) by {
            var r := FirstFree(old(slots[..]));
            assert !(r.value < i) && !(i < r.value);
          }
          break;
        }
        i := i + 1;
      }
    }

    /** `remove_client`: clear the first slot whose record holds `sock`, if there is one. */
    method RemoveClient(sock: int)
      requires Valid()
      modifies slots
      ensures slots[..] == Removed(old(slots[..]), sock)
    {
      var i := 0;
      while i < MAX_CLIENTS
        invariant 0 <= i <= MAX_CLIENTS
        invariant slots[..] == old(slots[..])
        invariant forall j :: 0 <= j < i ==> !HoldsSocket(slots[..], j, sock)
      {
        if slots[i] != null && slots[i].socket == sock {
          assert FirstWithSocket(old(slots[..]), sock) == Some(i) by {
            var r := FirstWithSocket(old(slots[..]), sock);
            assert HoldsSocket(old(slots[..]), i, sock);
            assert !(r.value < i) && !(i < r.value);
          }
          slots[i] := null;
          break;
        }
        i := i + 1;
      }
    }

    /** `broadcast_message`: send the payload to every occupied slot whose socket is not
        `senderFd`, in slot order. The sender's username is a parameter. */
    method BroadcastMessage(senderFd: int, senderName: seq<Byte>, message: seq<Byte>) returns (sent: seq<Send>)
      requires Valid()
      ensures sent == BroadcastLog(ViewOf(slots[..]), senderFd, BroadcastPayload(senderName, message))
      ensures forall s :: s in sent ==> s.socket != senderFd && s.data == BroadcastPayload(senderName, message)
    {
      ghost var payload := BroadcastPayload(senderName, message);
      sent := [];
      var i := 0;
      while i < MAX_CLIENTS
        invariant 0 <= i <= MAX_CLIENTS
        invariant sent == BroadcastLog(ViewOf(slots[..i]), senderFd, payload)
      {
        if slots[i] != null && slots[i].socket != senderFd {
          var jsonMsg := BroadcastPayload(senderName, message);
          sent := sent + [Send(slots[i].socket, jsonMsg)];
        }
        assert slots[..i + 1] == slots[..i] + [slots[i]];
        assert ViewOf(slots[..i + 1]) == ViewOf(slots[..i]) + [EntryOf(slots[i])];
        BroadcastLogSnoc(ViewOf(slots[..i]), EntryOf(slots[i]), senderFd, payload);
        i := i + 1;
      }
      assert slots[..i] == slots[..];
      BroadcastSkipsSender(ViewOf(slots[..]), senderFd, payload);
    }

    /** `send_private_message`: send to the first occupied slot whose username equals
        `recipient`, and stop there. */
    method SendPrivateMessage(senderName: seq<Byte>, recipient: seq<Byte>, message: seq<Byte>) returns (sent: seq<Send>)
      requires Valid()
      ensures sent == PrivateLog(ViewOf(slots[..]), recipient, PrivatePayload(senderName, message))
    {
      ghost var t := ViewOf(slots[..]);
      sent := [];
      var i := 0;
      while i < MAX_CLIENTS
        invariant 0 <= i <= MAX_CLIENTS
        invariant sent == []
        invariant forall j :: 0 <= j < i ==> !NamedAt(t, j, recipient)
      {
        if slots[i] != null && slots[i].Name() == recipient {
          var formattedMsg := PrivatePayload(senderName, message);
          sent := [Send(slots[i].socket, formattedMsg)];
          PrivateLogAt(t, recipient, formattedMsg, i);
          break;
        }
        i := i + 1;
      }
    }

    /** The body of `handle_client`'s loop for one line (the buffer's C string): a line
        starting with '@' is split by `strtok` and delivered privately when both tokens
        exist; any other line is broadcast. */
    method HandleLine(senderFd: int, senderName: seq<Byte>, line: seq<Byte>) returns (sent: seq<Send>)
      requires Valid()
      ensures sent == LineLog(ViewOf(slots[..]), senderFd, senderName, line)
    {
      if |line| > 0 && line[0] == AT {
        var recipient := StrTok(line[1..], {SPACE});
        var message := if recipient.Some? then StrTok(recipient.value.rest, {NEWLINE}) else None;
        if recipient.Some? && message.Some? {
          sent := SendPrivateMessage(senderName, recipient.value.text, message.value.text);
        } else {
          sent := [];
        }
      } else {
        sent := BroadcastMessage(senderFd, senderName, line);
      }
    }

    /** `handle_client`'s receive loop: each chunk `recv` returns is terminated in the
        buffer and routed, until `recv` reports end of stream or an error. */
    method ReceiveLoop(senderFd: int, senderName: seq<Byte>, chunks: seq<seq<Byte>>) returns (sent: seq<Send>)
      requires Valid()
      requires forall k :: 0 <= k < |chunks| ==> 0 < |chunks[k]| <= RecvLength(BUFFER_SIZE)
      ensures sent == SessionLog(ViewOf(slots[..]), senderFd, senderName, chunks)
    {
      ghost var t := ViewOf(slots[..]);
      var buffer := Zeros(BUFFER_SIZE);
      sent := [];
      var k := 0;
      while k < |chunks|
        invariant 0 <= k <= |chunks| && |buffer| == BUFFER_SIZE
        invariant sent == SessionLog(t, senderFd, senderName, chunks[..k])
      {
        buffer := Terminate(buffer, chunks[k]);
        var out := HandleLine(senderFd, senderName, CStr(buffer));
        sent := sent + out;
        SessionLogNext(t, senderFd, senderName, chunks, k);
        k := k + 1;
      }
      assert chunks[..k] == chunks;
    }

    /** `handle_client` for a client that is not an HTTP request. When the first `recv`
        fails the handler returns at once. Otherwise the first chunk becomes the client's
        username, the remaining chunks are routed, and at end of stream the client's
        slot is released. The sender's username is taken from its own record. */
    method HandleClient(cli: Client, chunks: seq<seq<Byte>>) returns (sent: seq<Send>)
      requires Valid()
      requires forall k :: 0 <= k < |chunks| ==> 0 < |chunks[k]| <= RecvLength(BUFFER_SIZE)
      modifies cli, slots
      ensures chunks == [] ==> sent == [] && cli.username == old(cli.username) && slots[..] == old(slots[..])
      ensures chunks != [] ==> cli.username == UsernameField(chunks[0])
      ensures chunks != [] ==> sent == SessionLog(ViewOf(old(slots[..])), cli.socket, cli.Name(), chunks[1..])
      ensures chunks != [] ==> slots[..] == Removed(old(slots[..]), cli.socket)
    {
      if chunks == [] {
        sent := [];
        return;
      }
      var buffer := Terminate(Zeros(BUFFER_SIZE), chunks[0]);
      cli.SetUsername(buffer);
      assert StrNCpy(buffer, USERNAME_SIZE - 1) == StrNCpy(chunks[0], USERNAME_SIZE - 1);
      sent := ReceiveLoop(cli.socket, cli.Name(), chunks[1..]);
      RemoveClient(cli.socket);
    }
  }
}
