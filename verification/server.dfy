/** A read-only snapshot of the server state the plugin queries: which
    addresses are local, the vCard store, the user store and the presence of
    each user. */
module Server {
  import opened Wrappers
  import opened Xmpp

  /** An account in the user store; either field may be unset. */
  datatype User = User(name: Option<string>, email: Option<string>)

  /** `vcard` maps (username, property path) to the property's text;
      `presence` maps a username to the string form of that user's presence
      stanza. */
  datatype Env = Env(
    isLocal: Jid -> bool,
    vcard: map<(string, string), string>,
    users: map<string, User>,
    presence: map<string, string>)

  /** A vCard property of a user, or None when unset. An address without a
      node has no vCard. */
  function VCardProperty(env: Env, username: Option<string>, path: string): (r: Option<string>)
    ensures r.Some? <==> username.Some? && (username.value, path) in env.vcard
    ensures r.Some? ==> r.value == env.vcard[(username.value, path)]
  {
    match username
    case Some(u) => if (u, path) in env.vcard then Some(env.vcard[(u, path)]) else None
    case None => None
  }

  /** The user store's lookup; None stands for UserNotFoundException, which
      is also what a lookup without a username gives. */
  function GetUser(env: Env, username: Option<string>): (r: Option<User>)
    ensures r.Some? <==> username.Some? && username.value in env.users
    ensures r.Some? ==> r.value == env.users[username.value]
  {
    match username
    case Some(u) => if u in env.users then Some(env.users[u]) else None
    case None => None
  }
}
