/** The two servers side by side. Over the same table they route a line alike: the
    same sockets receive it, in the same order, and only the payload's format differs. */
module Variants {
  import opened LibC
  import opened Inbound
  import opened Routing
  import JsonRelay
  import PlainRelay

  /** For every line whose handling is defined in the plain-text relay, both relays send to the same
      sockets in the same order. */
  lemma SameTargets(t: Table, senderFd: int, senderName: seq<Byte>, line: seq<Byte>)
    requires PlainRelay.LineDefined(t, line)
    ensures Targets(JsonRelay.LineLog(t, senderFd, senderName, line))
         == Targets(PlainRelay.LineLog(t, senderFd, senderName, line))
  {
    match ParseLine(line)
    case Broadcast(text) =>
      BroadcastTargetsIgnorePayload(t, senderFd, JsonRelay.BroadcastPayload(senderName, text),
                                    PlainRelay.BroadcastPayload(senderName, text));
    case Private(recipient, text) =>
      PrivateTargetsIgnorePayload(t, recipient, JsonRelay.PrivatePayload(senderName, text),
                                  PlainRelay.PrivatePayload(senderName, text));
    case Incomplete =>
  }
}
