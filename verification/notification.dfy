/** The confirmation the plugin sends back to the sender of a forwarded
    chat message. */
module Notification {
  import opened Wrappers
  import opened Strings
  import opened Xmpp
  import opened Settings

  const AwaySubject: string := "I'm away"

  /** The text both confirmation bodies start with. */
  const ForwardedText: string := "I'm currently away. Your message has been forwarded to my email address"

  /** What precedes the e-mail address in the body that shows it; note the
      two spaces before the parenthesis. */
  const ShownPrefix: string := ForwardedText + "  ("

  const ShownSuffix: string := ")."

  /** The body that omits the e-mail address. */
  const HiddenBody: string := ForwardedText + "."

  /** The confirmation message: from `from` to `to`, with a fixed subject and
      a body that shows `emailTo` only when the configuration says so. A new
      message has type normal. */
  function CreateServerMessage(config: Config, to: Jid, from: Jid, emailTo: string): (m: Message)
    ensures m.to == Some(to) && m.from == from
    ensures m.kind == Normal
    ensures m.subject == Some(AwaySubject)
    ensures m.body.Some?
    ensures config.showEmail ==> Contains(m.body.value, emailTo)
    ensures !config.showEmail ==> m.body == Some(HiddenBody)
  {
    var body := if config.showEmail then ShownPrefix + emailTo + ShownSuffix else HiddenBody;
    if config.showEmail then
      assert OccursAt(body, emailTo, |ShownPrefix|) by {
        assert body[|ShownPrefix|..|ShownPrefix| + |emailTo|] == emailTo;
      }
      Message(Normal, Some(to), from, Some(AwaySubject), Some(body))
    else
      Message(Normal, Some(to), from, Some(AwaySubject), Some(body))
  }

  /** Reads the e-mail address back out of a confirmation body: Some when
      the body has the shape of the one that shows an address. */
  function ShownEmail(body: string): Option<string>
  {
    if |ShownPrefix| + |ShownSuffix| <= |body|
       && body[..|ShownPrefix|] == ShownPrefix
       && body[|body| - |ShownSuffix|..] == ShownSuffix
    then Some(body[|ShownPrefix|..|body| - |ShownSuffix|])
    else None
  }

  /** The confirmation carries the recipient's e-mail address exactly when
      the configuration shows it, and then carries exactly that address. */
  lemma ConfirmationShowsEmailIff(config: Config, to: Jid, from: Jid, emailTo: string)
    ensures ShownEmail(CreateServerMessage(config, to, from, emailTo).body.value)
      == if config.showEmail then Some(emailTo) else None
  {
    var body := CreateServerMessage(config, to, from, emailTo).body.value;
    if config.showEmail {
      assert body == ShownPrefix + emailTo + ShownSuffix;
      assert body[..|ShownPrefix|] == ShownPrefix;
      assert body[|body| - |ShownSuffix|..] == ShownSuffix;
      assert body[|ShownPrefix|..|body| - |ShownSuffix|] == emailTo;
    } else {
      assert |body| < |ShownPrefix| + |ShownSuffix|;
    }
  }
}
