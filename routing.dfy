/** The routing rules both servers apply to their client table while holding the table's
    mutex: a broadcast goes, in slot order, to every occupied slot whose socket is not the
    sender's; a private message goes to the first occupied slot whose username equals the
    recipient, and to no other. Each server's table is viewed here as a Table; how a
    server marks a free slot (a NULL pointer, a zero socket) is its own abstraction. */
module Routing {
  import opened Wrappers
  import opened LibC

  /** What a routing loop reads in an occupied slot: the client's socket and its
      username as a C string. */
  datatype Entry = Entry(socket: int, name: seq<Byte>)

  /** The client table slot by slot; None is a free slot. */
  type Table = seq<Option<Entry>>

  /** Whether a broadcast loop sends to this slot. */
  predicate Receives(e: Option<Entry>, senderFd: int)
  {
    e.Some? && e.value.socket != senderFd
  }

  // ---------------------------------------------------------------------------------
  // Broadcast

  /** The sends a broadcast loop makes over `t`, in slot order. */
  function BroadcastLog(t: Table, senderFd: int, payload: seq<Byte>): (log: seq<Send>)
    ensures |log| <= |t|
  {
    if t == [] then []
    else
      var last := t[|t| - 1];
      BroadcastLog(t[..|t| - 1], senderFd, payload)
        + if Receives(last, senderFd) then [Send(last.value.socket, payload)] else []
  }

  /** Looking at one more slot adds at most the send to that slot. */
  lemma BroadcastLogSnoc(t: Table, e: Option<Entry>, senderFd: int, payload: seq<Byte>)
    ensures BroadcastLog(t + [e], senderFd, payload)
         == BroadcastLog(t, senderFd, payload)
            + if Receives(e, senderFd) then [Send(e.value.socket, payload)] else []
  {
    assert (t + [e])[..|t|] == t;
  }

  /** The indices of the slots a broadcast reaches, in increasing order: a reference
      description of the loop independent of the sends it makes. */
  function ReceiverSlots(t: Table, senderFd: int): (idx: seq<nat>)
    ensures forall k :: 0 <= k < |idx| ==> idx[k] < |t| && Receives(t[idx[k]], senderFd)
    ensures forall j, k :: 0 <= j < k < |idx| ==> idx[j] < idx[k]
    ensures forall i :: 0 <= i < |t| && Receives(t[i], senderFd) ==> i in idx
  {
    if t == [] then []
    else
      var n := |t| - 1;
      var front := ReceiverSlots(t[..n], senderFd);
      assert forall k :: 0 <= k < |front| ==> t[..n][front[k]] == t[front[k]];
      assert forall i :: 0 <= i < n ==> t[..n][i] == t[i];
      front + if Receives(t[n], senderFd) then [n] else []
  }

  /** The k-th send of a broadcast goes to the k-th receiving slot and carries the
      payload: exactly one send per receiving slot, in slot order. */
  lemma {:induction false} BroadcastFollowsSlots(t: Table, senderFd: int, payload: seq<Byte>)
    ensures var log, idx := BroadcastLog(t, senderFd, payload), ReceiverSlots(t, senderFd);
            && |log| == |idx|
            && forall k :: 0 <= k < |log| ==> log[k] == Send(t[idx[k]].value.socket, payload)
  {
    if t != [] {
      var n := |t| - 1;
      BroadcastFollowsSlots(t[..n], senderFd, payload);
      var front := ReceiverSlots(t[..n], senderFd);
      assert forall k :: 0 <= k < |front| ==> t[..n][front[k]] == t[front[k]];
    }
  }

  /** No broadcast send goes to the sender's socket, and every send carries the payload. */
  lemma BroadcastSkipsSender(t: Table, senderFd: int, payload: seq<Byte>)
    ensures forall s :: s in BroadcastLog(t, senderFd, payload) ==> s.socket != senderFd && s.data == payload
  {
    BroadcastFollowsSlots(t, senderFd, payload);
  }

  /** A socket receives the broadcast exactly when it is not the sender's and some
      occupied slot holds it. */
  lemma BroadcastReaches(t: Table, senderFd: int, payload: seq<Byte>, sock: int)
    ensures (exists s :: s in BroadcastLog(t, senderFd, payload) && s.socket == sock)
        <==> sock != senderFd && exists i :: 0 <= i < |t| && t[i].Some? && t[i].value.socket == sock
  {
    var log, idx := BroadcastLog(t, senderFd, payload), ReceiverSlots(t, senderFd);
    BroadcastFollowsSlots(t, senderFd, payload);
    if sock != senderFd && exists i :: 0 <= i < |t| && t[i].Some? && t[i].value.socket == sock {
      var i :| 0 <= i < |t| && t[i].Some? && t[i].value.socket == sock;
      assert Receives(t[i], senderFd);
      var k :| 0 <= k < |idx| && idx[k] == i;
      assert log[k] in log && log[k].socket == sock;
    }
    if exists s :: s in log && s.socket == sock {
      var s :| s in log && s.socket == sock;
      var k :| 0 <= k < |log| && log[k] == s;
      assert idx[k] < |t| && t[idx[k]].Some? && t[idx[k]].value.socket == sock;
    }
  }

  /** The sockets a log sends to, in order. */
  function Targets(log: seq<Send>): (r: seq<int>)
    ensures |r| == |log|
    ensures forall k :: 0 <= k < |log| ==> r[k] == log[k].socket
  {
    seq(|log|, k requires 0 <= k < |log| => log[k].socket)
  }

  /** Who a broadcast reaches, and in which order, does not depend on what is sent. */
  lemma BroadcastTargetsIgnorePayload(t: Table, senderFd: int, p: seq<Byte>, q: seq<Byte>)
    ensures Targets(BroadcastLog(t, senderFd, p)) == Targets(BroadcastLog(t, senderFd, q))
  {
    BroadcastFollowsSlots(t, senderFd, p);
    BroadcastFollowsSlots(t, senderFd, q);
  }

  // ---------------------------------------------------------------------------------
  // Private message

  /** Whether slot `i` is occupied by a client called `name` (`strcmp(...) == 0`). */
  predicate NamedAt(t: Table, i: int, name: seq<Byte>)
    requires 0 <= i < |t|
  {
    t[i].Some? && t[i].value.name == name
  }

  /** The slot a private message loop stops at: the lowest occupied slot called `name`. */
  function FirstNamed(t: Table, name: seq<Byte>): (r: Option<nat>)
    ensures r.Some? ==> r.value < |t| && NamedAt(t, r.value, name)
    ensures r.Some? ==> forall j :: 0 <= j < r.value ==> !NamedAt(t, j, name)
    ensures r.None? ==> forall j :: 0 <= j < |t| ==> !NamedAt(t, j, name)
  {
    if t == [] then None
    else
      var n := |t| - 1;
      assert forall j :: 0 <= j < n ==> NamedAt(t[..n], j, name) == NamedAt(t, j, name);
      match FirstNamed(t[..n], name)
      case Some(i) => Some(i)
      case None => if NamedAt(t, n, name) then Some(n) else None
  }

  /** The sends a private message loop makes over `t`: at most one, to the lowest
      occupied slot whose username is `recipient`, and none when no slot is. */
  function PrivateLog(t: Table, recipient: seq<Byte>, payload: seq<Byte>): (log: seq<Send>)
    ensures |log| <= 1
    ensures log == [] <==> forall i :: 0 <= i < |t| ==> !NamedAt(t, i, recipient)
    ensures log != [] ==>
              exists i :: && 0 <= i < |t| && NamedAt(t, i, recipient)
                          && (forall j :: 0 <= j < i ==> !NamedAt(t, j, recipient))
                          && log[0] == Send(t[i].value.socket, payload)
  {
    match FirstNamed(t, recipient)
    case None => []
    case Some(i) => [Send(t[i].value.socket, payload)]
  }

  /** A loop that stops at slot `i`, the lowest one called `recipient`, makes the one send
      PrivateLog describes. */
  lemma PrivateLogAt(t: Table, recipient: seq<Byte>, payload: seq<Byte>, i: nat)
    requires i < |t| && NamedAt(t, i, recipient)
    requires forall j :: 0 <= j < i ==> !NamedAt(t, j, recipient)
    ensures PrivateLog(t, recipient, payload) == [Send(t[i].value.socket, payload)]
  {
    var r := FirstNamed(t, recipient);
    assert r.Some?;
    assert !(r.value < i);
    assert !(i < r.value);
  }

  /** Usernames that are unique among the occupied slots make the private message reach
      the one client called `recipient`, whichever slot it occupies. */
  lemma PrivateReachesUniqueName(t: Table, recipient: seq<Byte>, payload: seq<Byte>, i: nat)
    requires i < |t| && NamedAt(t, i, recipient)
    requires forall j :: 0 <= j < |t| && j != i ==> !NamedAt(t, j, recipient)
    ensures PrivateLog(t, recipient, payload) == [Send(t[i].value.socket, payload)]
  {
    assert forall j :: 0 <= j < i ==> !NamedAt(t, j, recipient);
    PrivateLogAt(t, recipient, payload, i);
  }

  /** Who a private message reaches does not depend on what is sent. */
  lemma PrivateTargetsIgnorePayload(t: Table, recipient: seq<Byte>, p: seq<Byte>, q: seq<Byte>)
    ensures Targets(PrivateLog(t, recipient, p)) == Targets(PrivateLog(t, recipient, q))
  {
  }
}
