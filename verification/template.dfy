/** The e-mail body templates: the placeholder is replaced by the chat
    message's body, and an empty template leaves that variant out. */
module Template {
  import opened Wrappers
  import opened Strings
  import opened Settings

  const ImBody: string := "$$IMBODY$$"

  /** One body variant of the e-mail: None for an empty template, otherwise
      the template with every placeholder replaced by `body`. */
  function Render(template: string, body: string): (r: Option<string>)
    ensures r.None? <==> template == []
    ensures r.Some? ==> r.value == ReplaceAll(template, ImBody, body)
    ensures template != [] && !Contains(template, ImBody) ==> r == Some(template)
    ensures |body| != |ImBody| ==> (r == Some(template) <==> template != [] && !Contains(template, ImBody))
  {
    if template == [] then None
    else
      ReplaceAbsent(template, ImBody, body);
      ReplaceUnchangedIff(template, ImBody, body);
      Some(ReplaceAll(template, ImBody, body))
  }

  /** With the default plain template the plain-text e-mail is the chat body itself. */
  lemma DefaultPlainIsBody(xmppDomain: string, body: string)
    ensures Render(DefaultConfig(xmppDomain).plainTemplate, body) == Some(body)
  {
    ReplaceWhole(ImBody, body);
  }

  /** With the default HTML template no HTML variant is sent. */
  lemma DefaultHtmlOmitted(xmppDomain: string, body: string)
    ensures Render(DefaultConfig(xmppDomain).htmlTemplate, body).None?
  {
  }
}
