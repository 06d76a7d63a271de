# Chat relay: client registry and message routing

This model covers the two C chat servers of the repository. Both keep a fixed table of
connected clients under one mutex. A handler thread per client reads chunks from its
socket and routes each chunk as one line:

- A line starting with `@` is a private message. `strtok` splits it into a recipient
  (up to the first space) and a message (up to the next newline). The message goes to
  the first occupied slot whose username equals the recipient, and to no other slot.
- Any other line is broadcast verbatim, in slot order, to every occupied slot except
  the sender's own socket.

The two variants differ in how they hold the table and format payloads:

- **JSON relay** (`server/server.c`, module `JsonRelay`):
  - The table is an array of `MAX_CLIENTS` = 100 pointers to heap records. `NULL`
    marks a free slot.
  - Records are registered with `add_client` and removed with `remove_client`.
  - Payloads are `{"sender":"<name>","text":"<text>"}` objects. A private message tags
    the sender with ` (PM)`.
- **Plain-text relay** (`server.c`, module `PlainRelay`):
  - The table is an array of `MAX_CLIENTS` = 10 records held by value. Socket 0 marks a
    free slot.
  - `main` writes an accepted socket into the first free slot. The handler zeroes that
    socket on disconnect.
  - Payloads are `<name>: <text>` and `[PM from <name>] <text>`.

Shared modules:

- `LibC` models the C library calls the servers use:
  - C strings, i.e. the bytes before the first NUL;
  - `strncpy`, `strcpy` and the truncation done by `snprintf`;
  - `strtok`, as a pure function that returns the token and the rest of the string.
- `Inbound` covers a received chunk. It models terminating the chunk in the handler's
  buffer, the username field, and the classification of a line.
- `Routing` states the routing rules once, over an abstract `Table` of optional
  `(socket, username)` entries. Each variant maps its own table onto a `Table` with
  `ViewOf`.
- `Variants` proves that the two servers send every line whose handling is defined in
  the plain-text relay to the same sockets, in the same order.

Each `send(socket, buf, strlen(buf), 0)` is modelled as appending `Send(socket, bytes)`
to an output log. A handler's session is the sequence of non-empty chunks its `recv`
calls return. The end of that sequence stands for `recv` returning 0 or an error.

The table methods are imperative:

- They loop over `array`s exactly as the C `for` loops do, with the same tests and
  `break`s.
- Each is proved against a function of the table:
  - `Added`, `Removed`, `Accepted` and `Released` give the new table;
  - `BroadcastLog` and `PrivateLog` give the sends.
- The properties the code promises are lemmas about those functions.

Observations on the code as written. The model follows the code in each case:

- `main` in `server/server.c` creates a record and a handler but never calls
  `add_client`. In that program the table therefore stays empty, and every broadcast
  and private message reaches nobody. `JsonRelay.ClientTable.AddClient` models
  `add_client` as it is written.
- Neither server sends an error back to the sender:
  - a second client with the same username is accepted;
  - both servers silently drop a message to an unknown recipient;
  - `server/server.c` silently drops `@bob` with no message. `server.c` drops it only
    when no occupied slot is named `bob`. Otherwise the NULL message reaches `snprintf`
    (see the `PlainRelay.ClientTable.ReceiveLoop` line under "## Left out").

  `Routing.PrivateLog` therefore delivers to the lowest-index match.
  `Routing.PrivateReachesUniqueName` states the delivery that holds when usernames are
  unique.
- In `server.c`, a handler whose first `recv` fails returns without releasing its slot
  (server.c:25-29). The slot stays taken by a closed socket.
  `PlainRelay.ClientTable.HandleClient` keeps the table unchanged in that case.
- In `server.c`, `main` writes only the socket of a reused slot. Until the new handler
  stores a username, the new client is seen under its predecessor's name
  (`PlainRelay.AcceptInheritsName`).
- Both servers send a private message to its own sender when the sender names
  itself. Neither server excludes the sender's own slot from that search.

## Model

| member | source | states |
|---|---|---|
| LibC.CStr | server.c:60 | the string `strcmp` reads is a NUL-free prefix of the buffer, followed by a NUL when shorter than the buffer |
| LibC.StrNCpy | server/server.c:135 | `strncpy(dst, src, n)` yields exactly `n` bytes; read back, they are `src`'s string, cut to `n` bytes |
| LibC.Snprintf | server/server.c:87-89 | the formatted text is cut to at most `size - 1` bytes, and is kept whole when it fits |
| LibC.SnprintfIsCString | server/server.c:90 | a NUL-free text stays NUL-free after truncation, so `strlen` sends all of it |
| LibC.StrTok | server/server.c:145-146 | there is no token exactly when the string is all delimiters; otherwise the token is non-empty, free of delimiters and no longer than the input |
| LibC.StrTokSplits | server/server.c:145-146 | the input is leading delimiters, then the token, then at most one consumed delimiter, then the rest; no delimiter consumed means nothing remains |
| LibC.StrTokFinds | server/server.c:145-146 | after leading delimiters, a delimiter-free token ended by a delimiter is found, and scanning resumes after that delimiter |
| LibC.StrTokFindsLast | server/server.c:146 | a token running to the end of the string is found, with nothing left over |
| LibC.StrCpy | server.c:30 | `strcpy` is defined exactly when the source is terminated and fits the destination; then it keeps the destination's size, reads back as the source's string and leaves the bytes after the terminator alone |
| Inbound.TerminateAsWritten | server/server.c:139-142 | with `recv` asked for the whole buffer, writing the terminator stays inside the buffer exactly when the read is shorter than the buffer |
| Inbound.FullReadOverruns | server/server.c:139-142 | a read that fills the buffer puts the terminator one byte past the end |
| Inbound.Terminate | server/server.c:142 | with reads of at most size - 1 bytes, the buffer keeps its size, and its string is the chunk's string whatever the buffer held before |
| Inbound.RecvInto | server.c:25 | after a `recv` with no terminator written, the buffer starts with the chunk and keeps its old bytes after it |
| Inbound.UsernameField | server/server.c:134-136 | the stored field is 32 bytes with a NUL last; read back, it is the received string cut to 31 bytes |
| Inbound.ParseLine | server/server.c:144-152 | a line is a broadcast exactly when it does not start with `@`, and is then broadcast verbatim; a private directive has a non-empty, space-free recipient and a non-empty, newline-free message |
| Inbound.ParseDirective | server/server.c:145-146 | `@<recipient> <message>`, optionally followed by a newline, parses to exactly that recipient and message |
| Inbound.ParseMissingMessage | server/server.c:147-149 | `@<recipient>` with no message, or with only newlines after the space, is incomplete and is not routed |
| Inbound.ParsePrivateShape | server/server.c:144-146 | every parsed private directive is `@`, then spaces, then the recipient, a space, then newlines, the message, and a tail that is empty or starts with a newline |
| Routing.BroadcastLog | server/server.c:84-92 | a broadcast makes at most one send per slot |
| Routing.BroadcastLogSnoc | server/server.c:84-92 | scanning one more slot adds at most the send to that slot |
| Routing.ReceiverSlots | server/server.c:85 | the receiving slots in strictly increasing order: each is occupied by a socket other than the sender's, and every such slot is listed |
| Routing.BroadcastFollowsSlots | server/server.c:84-91 | the broadcast is exactly one send per receiving slot, in slot order, each carrying the payload |
| Routing.BroadcastSkipsSender | server/server.c:85 | no broadcast send goes to the sender's socket, and every send carries the payload |
| Routing.BroadcastReaches | server/server.c:84-91 | a socket is sent to exactly when it differs from the sender's and some occupied slot holds it |
| Routing.BroadcastTargetsIgnorePayload | server/server.c:84-91 | who a broadcast reaches, and in which order, does not depend on the payload |
| Routing.FirstNamed | server/server.c:98-99 | the slot found is the lowest occupied slot with that username; none means no slot has it |
| Routing.PrivateLog | server/server.c:98-107 | a private message makes at most one send; none exactly when no occupied slot has the recipient's name; otherwise one send to the lowest such slot |
| Routing.PrivateLogAt | server/server.c:98-106 | a loop that stops at the lowest matching slot makes exactly the one send `PrivateLog` describes |
| Routing.PrivateReachesUniqueName | server/server.c:98-106 | with a unique matching username, the one send goes to that client's socket |
| Routing.PrivateTargetsIgnorePayload | server/server.c:98-106 | who a private message reaches does not depend on the payload |
| JsonRelay.BroadcastPayload | server/server.c:86-89 | at most `BUFFER_SIZE - 1` bytes, a prefix of the JSON object, and the whole object when it fits |
| JsonRelay.PrivatePayload | server/server.c:100-103 | the same bounds for the object whose sender is tagged ` (PM)` |
| JsonRelay.PayloadsAreCStrings | server/server.c:90 | for C-string arguments both payloads are NUL-free, so `send` transmits all of them |
| JsonRelay.Client.constructor | server/server.c:204-205 | a new record holds the accepted socket and an empty (zeroed) username |
| JsonRelay.Client.SetUsername | server/server.c:134-136 | the username field becomes the terminated 31-byte copy of the buffer |
| JsonRelay.ViewOf | server/server.c:85 | slot by slot, a NULL pointer is a free slot and a record is seen with its socket and username |
| JsonRelay.FirstFree | server/server.c:61-62 | the slot chosen is the lowest NULL one; none means every slot is taken |
| JsonRelay.AddFirstFit | server/server.c:59-68 | `add_client` stores the record in the lowest free slot and changes nothing else; with no free slot the table is unchanged and the record is not registered |
| JsonRelay.FirstWithSocket | server/server.c:72-73 | the slot chosen is the lowest one whose record holds the socket; none means no slot does |
| JsonRelay.RemoveFirstMatch | server/server.c:70-80 | `remove_client` clears only the lowest slot holding the socket; with no match nothing changes |
| JsonRelay.AddKeepsUnique | server/server.c:59-68 | registering a socket that is not in the table keeps sockets unique |
| JsonRelay.RemoveIdempotent | server/server.c:70-80 | with unique sockets, after one removal no slot holds the socket, so removing it again changes nothing |
| JsonRelay.LineRouting | server/server.c:144-152 | a line not starting with `@` is broadcast verbatim; an `@` line makes at most one send, the private message its tokens name |
| JsonRelay.LineDirective | server/server.c:144-149 | `@bob hello` is delivered as a private message to `bob`; `@bob` sends nothing |
| JsonRelay.SessionLogSnoc | server/server.c:138-153 | routing one more chunk appends exactly that line's sends |
| JsonRelay.SessionLogNext | server/server.c:138-153 | the log of the first k + 1 chunks is that of the first k followed by chunk k's sends |
| JsonRelay.SessionLogAppend | server/server.c:138-153 | a session's sends keep the order of its lines |
| JsonRelay.ClientTable.constructor | server/server.c:20 | the table at start has every slot NULL |
| JsonRelay.ClientTable.AddClient | server/server.c:59-68 | the new table is `Added(old table, cli)` |
| JsonRelay.ClientTable.RemoveClient | server/server.c:70-80 | the new table is `Removed(old table, sock)` |
| JsonRelay.ClientTable.BroadcastMessage | server/server.c:82-94 | the sends are `BroadcastLog` of the table, and none goes to the sender |
| JsonRelay.ClientTable.SendPrivateMessage | server/server.c:96-109 | the sends are `PrivateLog` of the table for the recipient |
| JsonRelay.ClientTable.HandleLine | server/server.c:144-152 | the sends for one line are `LineLog` of the table |
| JsonRelay.ClientTable.ReceiveLoop | server/server.c:138-153 | the sends of the loop are the chunks' lines routed in order (`SessionLog`) |
| JsonRelay.ClientTable.HandleClient | server/server.c:126-157 | a failed first read changes nothing; otherwise the username is stored, the remaining chunks are routed and the client's slot is removed |
| PlainRelay.BroadcastPayload | server.c:73-74 | at most `BUFFER_SIZE - 1` bytes, a prefix of `<name>: <text>`, and all of it when it fits |
| PlainRelay.PrivatePayload | server.c:61-62 | the same bounds for `[PM from <name>] <text>` |
| PlainRelay.PayloadsAreCStrings | server.c:63 | for C-string arguments both payloads are NUL-free, so `send` transmits all of them |
| PlainRelay.ViewOf | server.c:72 | slot by slot, socket 0 is a free slot and any other record is seen with its socket and username |
| PlainRelay.FreeExactlyWhenZero | server.c:72 | a slot reads as free exactly when its socket is 0 |
| PlainRelay.FirstFree | server.c:126-127 | the slot chosen is the lowest one with socket 0; none means every slot is taken |
| PlainRelay.AcceptFirstFit | server.c:125-134 | the accepted socket goes into the lowest free slot and nothing else changes; with no free slot the table is unchanged |
| PlainRelay.AcceptInheritsName | server.c:128 | the accepted client is seen under the username its slot's previous occupant left |
| PlainRelay.AcceptZeroInvisible | server.c:127-128 | accepting socket 0 leaves the table unchanged |
| PlainRelay.FirstWithSocket | server.c:40-41 | the slot chosen is the lowest one holding the socket; none means no slot does |
| PlainRelay.ReleaseFirstMatch | server.c:39-46 | a release zeroes the socket of only the lowest slot holding it, keeps that slot's username and changes no other slot; with no match nothing changes |
| PlainRelay.ReleaseFreesSlot | server.c:40-43 | as the routing loops see it, a release frees exactly the released slot |
| PlainRelay.ReleaseZeroInvisible | server.c:41-42 | releasing socket 0 changes nothing |
| PlainRelay.AcceptKeepsUnique | server.c:125-134 | accepting a socket that no slot holds keeps sockets unique |
| PlainRelay.ReleaseIdempotent | server.c:39-46 | with unique sockets, after one release no slot holds the socket, so releasing it again changes nothing |
| PlainRelay.UnterminatedNameTakesStaleBytes | server.c:25-30 | a name received without its terminator, followed in the buffer by a non-zero byte, is never stored as it was sent |
| PlainRelay.LongNameOverflows | server.c:30 | a name of 32 or more bytes overflows the `username` field |
| PlainRelay.UsernameAsWritten | server.c:25-30 | the field `strcpy` leaves after an unterminated `recv`: defined exactly when the buffer holds a NUL and its string fits the field, and then reading back as that string; None when `strcpy` is undefined |
| PlainRelay.StoredUsername | server.c:30 | the intended field is 32 bytes; read back, it is the received string cut to 31 bytes |
| PlainRelay.StoredUsernameAgrees | server.c:25-30 | when the client sends a terminated name that fits, the code as written is defined and stores the same name as the intended copy |
| PlainRelay.LineRouting | server.c:54-79 | a line not starting with `@` is broadcast verbatim; an `@` line makes at most one send: the private message its tokens name, or nothing when a token is missing |
| PlainRelay.LineMissingMessage | server.c:55-62 | `@bob` with no message is defined exactly when no occupied slot is called `bob`, and then sends nothing |
| PlainRelay.LineMissingRecipient | server.c:55-60 | a lone `@` is defined exactly when every slot is free, and then sends nothing |
| PlainRelay.LineDirective | server.c:54-66 | `@bob hello` followed by a newline is delivered as a private message to `bob` |
| PlainRelay.SessionLogSnoc | server.c:34-79 | routing one more chunk appends exactly that line's sends |
| PlainRelay.ClientTable.constructor | server.c:17 | the zero-initialised array: every slot free and every username empty |
| PlainRelay.ClientTable.Accept | server.c:125-134 | the new table is `Accepted(old table, sock)`, and the handler's slot is the first free one; with no free slot no handler is started |
| PlainRelay.ClientTable.Release | server.c:39-46 | the new table is `Released(old table, sock)` |
| PlainRelay.ClientTable.SendPrivate | server.c:58-67 | with both tokens, the sends are `PrivateLog` of the table, with the payload formatted from the handler's own username; with a NULL token it sends nothing |
| PlainRelay.ClientTable.SendBroadcast | server.c:70-78 | the sends are `BroadcastLog` of the table for the handler's socket; none goes to socket 0 or to the handler's socket |
| PlainRelay.ClientTable.HandleLine | server.c:53-79 | the sends for one line are `LineLog` of the table |
| PlainRelay.ClientTable.ReceiveLoop | server.c:34-79 | the sends of the loop are the chunks' lines routed in order (`SessionLog`) |
| PlainRelay.ClientTable.HandleClient | server.c:24-47 | a failed first read changes nothing; otherwise the username is stored, the remaining chunks are routed and the slot holding the client's socket is released |
| Variants.SameTargets | server.c:59-77 | for every line defined in the plain-text relay, both relays send to the same sockets in the same order |

## Left out

- Sockets, `bind`, `listen`, `accept`, `recv`, `send` and `close` are I/O. An accepted socket is a parameter, a session is the sequence of chunks `recv` returns, and sends go to a log.
- Threads and `clients_mutex` are concurrency. Each locked region is one sequential method, and the table is held fixed while a session's lines are routed.
- The HTTP peek and response branch and the page it serves (server/server.c:24-57, 115-124) are transport plumbing.
- The database, `server/auth.c`, `server/protocol.h` and the client programs are not part of this model.
- Logging through `printf` and `perror` leaves no trace in the model.
- `malloc` and `free` are left out. A record's username, which `malloc` leaves indeterminate, starts zero-filled, and pointer aliasing beyond the table's own slots is not modelled.
- `strtok` writes NULs into the buffer in place. The model computes the tokens as values and does not record those writes.
- `pthread_create` is left out. `PlainRelay.ClientTable.Accept` returns the index of the slot the new handler is given.
- The sender's username is not looked up as `clients[sender_fd]` (server/server.c:89, 103), because it indexes the table by file descriptor. It reads the wrong slot, which may hold another client or be NULL, and it reads past the end once the descriptor reaches `MAX_CLIENTS`. It is a parameter of the JSON relay's send methods. The plain-text relay reads it from the handler's own slot.
- JsonRelay.ClientTable.ReceiveLoop: requires every read to be at most `BUFFER_SIZE - 1` bytes. A read that fills the buffer is undefined (the terminator is written past its end), and only `Inbound.FullReadOverruns` covers it.
- JsonRelay.ClientTable.HandleClient: has the same bound on reads, for the same reason.
- PlainRelay.ClientTable.ReceiveLoop: has the same bound on reads. It also requires every line to be defined over the table (`Routable`). An `@` line with no recipient passes NULL to `strcmp` (server.c:60) at the first occupied slot, so it is defined only when every slot is free. An `@` line with a recipient but no message passes NULL to `snprintf` (server.c:62) only at a slot named like the recipient, so it is defined exactly when no occupied slot carries that name; it then sends nothing. These two cases are the only ones excluded.
- PlainRelay.ClientTable.HandleClient: has the same two requirements. It also stores the intended username (`StoredUsername`) rather than what the `strcpy` at server.c:30 stores (`UsernameAsWritten`). That copy is the received bytes followed by stale buffer bytes up to the first NUL, and it is undefined only when no NUL falls inside the field.
- PlainRelay.LineLog: is defined only for lines defined over the table (`LineDefined`), for the same reason.

## Findings

| source | as written | input that shows it | evidently intended | confidence | as-written member | corrected member |
|---|---|---|---|---|---|---|
| server/server.c:139-142 | `recv` is asked for the whole buffer, then `buffer[bytes] = '\0'` is written; the code in server/server.c:127-134 and server.c:35-50 does the same | a read that returns exactly `BUFFER_SIZE` bytes (2048 here, 1024 in server.c) writes the terminator one byte past the buffer | ask `recv` for at most `BUFFER_SIZE - 1` bytes, so the terminator always fits | high, not executed | Inbound.TerminateAsWritten, Inbound.FullReadOverruns | Inbound.Terminate |
| server.c:25-30 | the first `recv` leaves the name unterminated, and `strcpy` then copies it into the 32-byte `username` | client.c:56 sends `bob` without its NUL; if the next buffer byte is not zero, the stored name is not `bob`, and a name of 32 bytes or more overflows `username` | terminate the received bytes and copy at most 31 of them, as server/server.c:134-136 does | high, not executed | PlainRelay.UnterminatedNameTakesStaleBytes, PlainRelay.LongNameOverflows | PlainRelay.StoredUsername |
