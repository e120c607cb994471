# Email on Away — a Dafny model

The Openfire "Email on Away" plugin watches every packet passing through the
server. When a chat message reaches a local user whose presence says "away",
the plugin e-mails the message to that user. It then sends the original
sender a confirmation that the message went to e-mail.

This project models that decision procedure as pure functions over an
immutable snapshot of the server. The snapshot (`Server.Env`) holds the
locality predicate, the vCard store, the user store and each user's presence
text. The configuration (`Settings.Config`) holds the plugin's six
properties. The interceptor (`EmailOnAway.Intercept`) returns the list of
side effects it would perform: either none, or one `SendMail` followed by
one `Route`. Modules:

- `Wrappers`: `Option`, standing for a Java reference that may be null.
- `Strings`: the Java string operations used: ASCII lower-casing, substring
  search, and `String.replace` as a spec function and as a loop.
- `Xmpp`: JIDs, messages and other packets.
- `Server`: the snapshot of the collaborators; a failed user lookup is `None`.
- `Settings`: the six properties and their default values.
- `Template`: substitution of `$$IMBODY$$` into the e-mail body templates.
- `Resolver`: `DetermineName` and `DetermineEmailAddress`, each written the
  way the plugin writes it, and proved equal to "first non-empty entry of an
  ordered candidate chain, else a fallback".
- `Notification`: the confirmation message.
- `EmailOnAway`: the interceptor.
- `Scenarios`: worked examples (alice is away, bob writes to her).

Behaviours of the plugin that the model keeps as they are:

- Only a null body stops forwarding; an empty body is forwarded
  (`EmailOnAway.EmptyBodyIsForwarded`).
- The away test is a substring test: "away" must occur in the lower-cased
  string form of the recipient's presence.
- When the vCard full name is present but empty and there is no non-empty
  given name, the empty name is kept, and a non-empty family name is
  appended after a space, giving `" Family"`.
- The body that shows the e-mail address has two spaces before `(`.

## Model

| member | source | states |
|---|---|---|
| EmailOnAway.Intercept | src/java/com/tempstop/EmailOnAwayPlugin.java:129-182 | No effects when the packet is already processed or read, is not a message, or has no recipient. No effects when the message is not chat, the recipient is not local, the recipient user is unknown (the lookup error is caught), the presence is not away, or the body is null. Effects exist exactly when every check passes. They are then exactly one mail followed by one routed confirmation. The mail carries the resolved names and e-mails of both parties, the configured subject and both rendered bodies. The confirmation goes to the sender's bare JID from the recipient's bare JID with subject "I'm away". It shows the mail's recipient address exactly when showemail is set. |
| EmailOnAway.EmptyBodyIsForwarded | src/java/com/tempstop/EmailOnAwayPlugin.java:155-157 | A message whose body is the empty string, and which passes every other check, is forwarded. |
| EmailOnAway.AwayIsSubstring | src/java/com/tempstop/EmailOnAwayPlugin.java:150 | The away test holds exactly when "away" occurs at some index of the lower-cased presence text. |
| EmailOnAway.AwayIgnoresCase | src/java/com/tempstop/EmailOnAwayPlugin.java:150 | Two presence texts that agree up to ASCII case get the same away verdict. |
| EmailOnAway.IsAway | src/java/com/tempstop/EmailOnAwayPlugin.java:150 | The away test: "away" occurs in the lower-cased presence text. |
| EmailOnAway.Qualifies | src/java/com/tempstop/EmailOnAwayPlugin.java:135-157 | The conjunction of every check the interceptor makes, in its order: not processed, not read, a message, a recipient, type chat, local recipient, known recipient user, away presence, non-null body. |
| Strings.ReplaceAll | src/java/com/tempstop/EmailOnAwayPlugin.java:170-171 | `String.replace` for a non-empty target: a left-to-right scan that replaces each non-overlapping occurrence and never rescans the replacement text. |
| Resolver.JoinedName | src/java/com/tempstop/EmailOnAwayPlugin.java:200-212 | The given/family step of the name chain, started from the null or empty full name. |
| Resolver.EmailFallback | src/java/com/tempstop/EmailOnAwayPlugin.java:264-268 | The bare JID when use-XMPP-as-e-mail is set, the configured default address otherwise. |
| Strings.Lower | src/java/com/tempstop/EmailOnAwayPlugin.java:150 | Lower-casing keeps the length and maps each character to its lower-case form. |
| Strings.Contains | src/java/com/tempstop/EmailOnAwayPlugin.java:150 | The left-to-right scan answers true exactly when the target occurs at some index. |
| Strings.Replace | src/java/com/tempstop/EmailOnAwayPlugin.java:170-171 | An index loop that appends to its result is proved equal to `ReplaceAll` on every input. |
| Strings.ReplaceAbsent | src/java/com/tempstop/EmailOnAwayPlugin.java:170-171 | A template without the placeholder is left unchanged. |
| Strings.ReplaceSelf | src/java/com/tempstop/EmailOnAwayPlugin.java:170-171 | Replacing the target by itself gives back the input. |
| Strings.ReplaceWhole | src/java/com/tempstop/EmailOnAwayPlugin.java:170-171 | A template that is exactly the placeholder becomes exactly the body. |
| Strings.ReplaceLength | src/java/com/tempstop/EmailOnAwayPlugin.java:170-171 | Each replaced occurrence changes the length by the length of the body minus the length of the placeholder. |
| Strings.ReplacementsZeroIff | src/java/com/tempstop/EmailOnAwayPlugin.java:170-171 | Replacement replaces something exactly when the placeholder occurs. |
| Strings.ReplaceUnchangedIff | src/java/com/tempstop/EmailOnAwayPlugin.java:170-171 | When the body and the placeholder differ in length, the output equals the template exactly when the placeholder does not occur. |
| Template.Render | src/java/com/tempstop/EmailOnAwayPlugin.java:170-171 | An empty template gives no body variant (null), and only an empty one does. Otherwise every placeholder occurrence is replaced by the chat body. A template without a placeholder is sent as it is. |
| Template.DefaultPlainIsBody | src/java/com/tempstop/EmailOnAwayPlugin.java:52-57 | With the default plain template "$$IMBODY$$", the plain body is the chat body. |
| Template.DefaultHtmlOmitted | src/java/com/tempstop/EmailOnAwayPlugin.java:62-67 | With the default empty HTML template, no HTML body is sent. |
| Settings.DefaultConfig | src/java/com/tempstop/EmailOnAwayPlugin.java:32-87 | Default values: showemail true, subject "IM", plain template "$$IMBODY$$", HTML template empty, use-XMPP-as-e-mail true, default address "no-reply@" followed by the XMPP domain. |
| Xmpp.AsBareJid | src/java/com/tempstop/EmailOnAwayPlugin.java:174 | The bare JID keeps node and domain, drops the resource, and has the same bare string. |
| Server.VCardProperty | src/java/com/tempstop/EmailOnAwayPlugin.java:195 | A vCard lookup is non-null exactly when the user has that property, and then it is that property's text. |
| Server.GetUser | src/java/com/tempstop/EmailOnAwayPlugin.java:149 | A user lookup succeeds exactly when the username is in the user store; otherwise it is the not-found error. |
| Resolver.FirstNonEmpty | src/java/com/tempstop/EmailOnAwayPlugin.java:195-225 | An ordered chain yields nothing exactly when no entry is non-empty. Otherwise it yields a non-empty entry, and every entry before it is null or empty. |
| Resolver.FirstNonEmptyAppend | src/java/com/tempstop/EmailOnAwayPlugin.java:195-225 | A chain that has found a value ignores every later step. A chain that found nothing hands over to the steps that follow. |
| Resolver.ChainIgnoresLater | src/java/com/tempstop/EmailOnAwayPlugin.java:195-225 | Two chains that agree up to and including a non-empty entry pick the same value. |
| Resolver.ChatUserLabel | src/java/com/tempstop/EmailOnAwayPlugin.java:231 | The fallback label is "Chat User " followed by the bare JID. |
| Resolver.JoinedNameCases | src/java/com/tempstop/EmailOnAwayPlugin.java:200-215 | Given and family both present: "given family". Only given: given. Only family: family, or " family" when the full name is the empty string. Neither: nothing non-empty. |
| Resolver.DetermineName | src/java/com/tempstop/EmailOnAwayPlugin.java:190-232 | The name is never empty. A non-local address gets "Chat User " plus its bare JID. A non-empty FN always wins. An unknown user whose vCard steps are all empty gets the label. |
| Resolver.DetermineNameIsFirstOfChain | src/java/com/tempstop/EmailOnAwayPlugin.java:190-232 | For a local address the name is the first non-empty of FN, the given/family join, NICKNAME and the account name. When none is non-empty, or the address is not local, it is the "Chat User" label. |
| Resolver.NameIgnoresLaterSteps | src/java/com/tempstop/EmailOnAwayPlugin.java:195-225 | Once a step of the name chain is non-empty, changing only later steps does not change the name. |
| Resolver.DetermineEmailAddress | src/java/com/tempstop/EmailOnAwayPlugin.java:240-269 | A non-local address gets the bare JID when use-XMPP-as-e-mail is set, and the default address otherwise. A non-empty vCard EMAIL always wins. An unknown user with empty EMAIL and EMAIL:USERID gets that same configured fallback. |
| Resolver.DetermineEmailIsFirstOfChain | src/java/com/tempstop/EmailOnAwayPlugin.java:240-269 | For a local address the e-mail is the first non-empty of EMAIL, EMAIL:USERID and the account e-mail. When none is non-empty, or the address is not local, it is the configured fallback. |
| Resolver.EmailIgnoresLaterSteps | src/java/com/tempstop/EmailOnAwayPlugin.java:245-258 | Once a step of the e-mail chain is non-empty, changing only later steps does not change the address. |
| Notification.CreateServerMessage | src/java/com/tempstop/EmailOnAwayPlugin.java:116-127 | The confirmation is a normal-type message addressed to `to` from `from` with subject "I'm away". With showemail set its body contains the recipient's e-mail address; otherwise it is the fixed text without the address. |
| Notification.ConfirmationShowsEmailIff | src/java/com/tempstop/EmailOnAwayPlugin.java:121-125 | Reading the address back out of the body gives exactly the e-mail address when showemail is set, and nothing when it is not. |
| Scenarios.ForwardedToProfileEmail | src/java/com/tempstop/EmailOnAwayPlugin.java:159-174 | alice is away and has vCard EMAIL alice.personal@mail.com; bob, whose FN is "Bob Jones", sends "hello". The mail goes to that address with plain body "hello" and no HTML body, and names Bob Jones as sender. The confirmation goes to bob's bare JID and contains alice's address. |
| Scenarios.FallsBackToBareAddress | src/java/com/tempstop/EmailOnAwayPlugin.java:264-265 | alice has no e-mail in her vCard or account; with the default configuration her address resolves to alice@example.com. |
| Scenarios.ReadMessageToOfflineUserIsPassthrough | src/java/com/tempstop/EmailOnAwayPlugin.java:135-136 | A chat message already marked read, to a local user who has no presence, causes no effects. |
| Scenarios.NotAwayIsPassthrough | src/java/com/tempstop/EmailOnAwayPlugin.java:150-153 | A recipient whose presence is "dnd" causes no effects. |

## Left out

- Plugin lifecycle (constructor, `initializePlugin`, `destroyPlugin`) and interceptor registration: plumbing with no decisions in it.
- `SystemProperty` builder mechanics, dynamic reload and persistence: the configuration is one immutable snapshot, with the defaults in `Settings.DefaultConfig`.
- The e-mail service, message router, vCard manager, user manager and presence manager: they are the `Server.Env` snapshot and the returned `Effect` list. Failures of mail sending or routing belong to those services.
- The `Session` argument of the interceptor: the plugin never reads it. `PacketRejectedException` is declared but never thrown.
- Presence serialisation: the string form of a user's presence is an opaque string in `Env.presence`.
- Offline recipients: an unprocessed, unread chat message to a known local user reads that user's presence, and the plugin throws a NullPointerException when the presence is null (the user is offline). `EmailOnAway.Intercept` requires `EmailOnAway.RecipientPresenceKnown`: the presence must be there in exactly that case. Every other packet, to an offline user or not, is accepted and passed through as the plugin does.
- A null sender, which likewise throws a NullPointerException: the sender of a `Xmpp.Message` is always set.
- `Strings.Lower`: lower-cases ASCII letters only, not the whole of Unicode as Java does. The away test is unaffected: apart from `A`, `W` and `Y`, no character lower-cases to `a`, `w` or `y`.
- Strings are sequences of Unicode characters, not of UTF-16 code units.
- The JID class and the server's locality test are not part of this model. `isLocal` is a predicate in the snapshot. `ToBareJid` is assumed to print `node@domain`, or `domain` alone when there is no node. A JID without a node is assumed to have no vCard and no user account.
- Logging, and the thread-safety of concurrent interceptor calls.
- Resolver idempotence: the resolvers are pure functions of the snapshot, so two calls on the same snapshot agree by construction. No lemma states it.
