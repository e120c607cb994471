/** The XMPP values the plugin inspects: addresses (JIDs), messages and the
    other packets an interceptor can see. */
module Xmpp {
  import opened Wrappers

  /** node@domain/resource; node and resource may be absent. */
  datatype Jid = Jid(node: Option<string>, domain: string, resource: Option<string>)

  /** The address without its resource, as a string: `node@domain`, or just
      `domain` for an address without a node. */
  function ToBareJid(j: Jid): string
  {
    match j.node
    case Some(n) => n + "@" + j.domain
    case None => j.domain
  }

  /** The address without its resource. */
  function AsBareJid(j: Jid): (b: Jid)
    ensures b.resource.None?
    ensures b.node == j.node && b.domain == j.domain
    ensures ToBareJid(b) == ToBareJid(j)
  {
    j.(resource := None)
  }

  /** A message with no type attribute has type normal. */
  datatype MessageType = Normal | Chat | Groupchat | Headline | Error

  /** A message stanza. The sender is always set: the server stamps it on
      every stanza it accepts from a session. */
  datatype Message = Message(
    kind: MessageType,
    to: Option<Jid>,
    from: Jid,
    subject: Option<string>,
    body: Option<string>)

  /** What an interceptor is handed: a message, or any other stanza
      (presence or IQ), which the plugin never acts on. */
  datatype Packet =
    | MessagePacket(msg: Message)
    | OtherPacket(to: Option<Jid>, from: Jid)
}
