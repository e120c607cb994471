/** The plugin's six configuration properties, read as one snapshot. */
module Settings {

  datatype Config = Config(
    showEmail: bool,          // plugin.emailonaway.showemail
    subject: string,          // plugin.emailonaway.email.subject
    plainTemplate: string,    // plugin.emailonaway.email.body.plain
    htmlTemplate: string,     // plugin.emailonaway.email.body.html
    useXmppAsEmail: bool,     // plugin.emailonaway.use_xmpp_as_email_address
    defaultEmail: string)     // plugin.emailonaway.email.default_mail_address

  /** The values the properties take when nothing is configured, for a
      server whose XMPP domain is `xmppDomain`. */
  function DefaultConfig(xmppDomain: string): (c: Config)
    ensures c.showEmail && c.useXmppAsEmail
    ensures c.subject == "IM"
    ensures c.plainTemplate == "$$IMBODY$$"
    ensures c.htmlTemplate == ""
    ensures c.defaultEmail == "no-reply@" + xmppDomain
  {
    Config(true, "IM", "$$IMBODY$$", "", true, "no-reply@" + xmppDomain)
  }
}
