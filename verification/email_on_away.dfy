/** The packet interceptor: decides whether a chat message to an away user
    is forwarded by e-mail, and if so which mail is sent and which
    confirmation is routed back to the sender. */
module EmailOnAway {
  import opened Wrappers
  import opened Strings
  import opened Xmpp
  import opened Server
  import opened Settings
  import opened Template
  import opened Resolver
  import opened Notification

  /** The arguments of one call to the mail service. */
  datatype Mail = Mail(
    toName: string,
    toEmail: string,
    fromName: string,
    fromEmail: string,
    subject: string,
    plainBody: Option<string>,
    htmlBody: Option<string>)

  /** A side effect of the interceptor, in the order it is performed. */
  datatype Effect = SendMail(mail: Mail) | Route(message: Message)

  /** The away test: "away" occurs in the lower-cased presence text. */
  predicate IsAway(presence: string)
  {
    Contains(Lower(presence), "away")
  }

  /** The away test looks at letters only up to case. */
  lemma AwayIgnoresCase(p: string, q: string)
    requires |p| == |q|
    requires forall i :: 0 <= i < |p| ==> LowerChar(p[i]) == LowerChar(q[i])
    ensures IsAway(p) <==> IsAway(q)
  {
    assert Lower(p) == Lower(q);
  }

  /** The away test is a plain substring test on the lower-cased text. */
  lemma AwayIsSubstring(presence: string)
    ensures IsAway(presence) <==> exists i :: OccursAt(Lower(presence), "away", i)
  {
    // The fact itself is the contract of Contains; this only restates the
    // witness so that the solver matches the two existentials.
    if IsAway(presence) {
      var i :| OccursAt(Lower(presence), "away", i);
      assert exists k :: OccursAt(Lower(presence), "away", k);
    }
  }

  /** An unprocessed, unread chat message to a known local user reads that
      user's presence, and the presence manager returns none for a user who
      is offline, on which the plugin fails. In exactly that case the
      recipient must have a presence; no other presence is ever read. */
  predicate RecipientPresenceKnown(env: Env, packet: Packet, read: bool, processed: bool)
  {
    (&& !processed
     && !read
     && packet.MessagePacket?
     && packet.msg.to.Some?
     && packet.msg.kind == Chat
     && env.isLocal(packet.msg.to.value)
     && GetUser(env, packet.msg.to.value.node).Some?)
    ==> packet.msg.to.value.node.value in env.presence
  }

  /** Every check of the interceptor, in the order it makes them. */
  ghost predicate Qualifies(env: Env, packet: Packet, read: bool, processed: bool)
    requires RecipientPresenceKnown(env, packet, read, processed)
  {
    && !processed
    && !read
    && packet.MessagePacket?
    && packet.msg.to.Some?
    && packet.msg.kind == Chat
    && env.isLocal(packet.msg.to.value)
    && GetUser(env, packet.msg.to.value.node).Some?
    && IsAway(env.presence[packet.msg.to.value.node.value])
    && packet.msg.body.Some?
  }

  /** The interceptor's decision for one packet, as the list of effects it
      performs: none, or one mail followed by one routed confirmation. A
      failed user lookup is caught and ends in no effects. */
  function Intercept(env: Env, config: Config, packet: Packet, read: bool, processed: bool): (effects: seq<Effect>)
    requires RecipientPresenceKnown(env, packet, read, processed)
    // already handled upstream, not a message, or no recipient
    ensures processed || read || !packet.MessagePacket? || packet.msg.to.None? ==> effects == []
    // not a chat message, a remote recipient, or an unknown recipient
    ensures packet.MessagePacket? && packet.msg.kind != Chat ==> effects == []
    ensures packet.MessagePacket? && packet.msg.to.Some? && !env.isLocal(packet.msg.to.value) ==> effects == []
    ensures packet.MessagePacket? && packet.msg.to.Some? && GetUser(env, packet.msg.to.value.node).None? ==> effects == []
    // recipient not away, or no body
    ensures (packet.MessagePacket? && packet.msg.to.Some? && packet.msg.to.value.node.Some?
             && packet.msg.to.value.node.value in env.users
             && packet.msg.to.value.node.value in env.presence
             && !IsAway(env.presence[packet.msg.to.value.node.value])) ==> effects == []
    ensures packet.MessagePacket? && packet.msg.body.None? ==> effects == []
    // forwarding happens exactly when every check passes
    ensures effects != [] <==> Qualifies(env, packet, read, processed)
    ensures effects == [] || (|effects| == 2 && effects[0].SendMail? && effects[1].Route?)
    // the mail
    ensures effects != [] ==>
      var to, from, body, mail := packet.msg.to.value, packet.msg.from, packet.msg.body.value, effects[0].mail;
      && mail.toName == DetermineName(env, to)
      && mail.toEmail == DetermineEmailAddress(env, config, to)
      && mail.fromName == DetermineName(env, from)
      && mail.fromEmail == DetermineEmailAddress(env, config, from)
      && mail.subject == config.subject
      && mail.plainBody == Render(config.plainTemplate, body)
      && mail.htmlBody == Render(config.htmlTemplate, body)
    // the confirmation
    ensures effects != [] ==>
      effects[1].message == CreateServerMessage(config, AsBareJid(packet.msg.from), AsBareJid(packet.msg.to.value), effects[0].mail.toEmail)
    ensures effects != [] ==>
      var to, from, conf := packet.msg.to.value, packet.msg.from, effects[1].message;
      && conf.to == Some(AsBareJid(from))
      && conf.from == AsBareJid(to)
      && conf.subject == Some(AwaySubject)
      && conf.body.Some?
      && (config.showEmail ==> Contains(conf.body.value, effects[0].mail.toEmail))
      && ShownEmail(conf.body.value) == (if config.showEmail then Some(effects[0].mail.toEmail) else None)
  {
    if processed || read || !packet.MessagePacket? || packet.msg.to.None? then []
    else
      var msg := packet.msg;
      var to := msg.to.value;
      if msg.kind != Chat then []
      else if !env.isLocal(to) then []
      else
        match GetUser(env, to.node)
        case None => []   // UserNotFoundException, caught and logged
        case Some(_) =>
          if !IsAway(env.presence[to.node.value]) then []
          else if msg.body.None? then []
          else
            var body := msg.body.value;
            var emailTo := DetermineEmailAddress(env, config, to);
            var emailFrom := DetermineEmailAddress(env, config, msg.from);
            var mail := Mail(
              DetermineName(env, to), emailTo,
              DetermineName(env, msg.from), emailFrom,
              config.subject,
              Render(config.plainTemplate, body),
              Render(config.htmlTemplate, body));
            var confirmation := CreateServerMessage(config, AsBareJid(msg.from), AsBareJid(to), emailTo);
            ConfirmationShowsEmailIff(config, AsBareJid(msg.from), AsBareJid(to), emailTo);
            [SendMail(mail), Route(confirmation)]
  }

  /** Only a missing body blocks forwarding: an empty body is forwarded. */
  lemma EmptyBodyIsForwarded(env: Env, config: Config, msg: Message)
    requires msg.to.Some? && msg.kind == Chat && env.isLocal(msg.to.value)
    requires GetUser(env, msg.to.value.node).Some?
    requires msg.to.value.node.value in env.presence
    requires IsAway(env.presence[msg.to.value.node.value])
    requires msg.body == Some("")
    ensures |Intercept(env, config, MessagePacket(msg), false, false)| == 2
  {
  }
}
