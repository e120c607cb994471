/** Display name and e-mail address of an XMPP address, each found by an
    ordered chain of lookups in which the first non-empty value wins. */
module Resolver {
  import opened Wrappers
  import opened Xmpp
  import opened Server
  import opened Settings

  /** A lookup result that is neither null nor the empty string. */
  predicate NonEmpty(o: Option<string>)
  {
    o.Some? && o.value != []
  }

  /** No candidate before index `k` is non-empty. */
  ghost predicate NoneNonEmptyBefore(cands: seq<Option<string>>, k: int)
  {
    forall j :: 0 <= j < k && j < |cands| ==> !NonEmpty(cands[j])
  }

  /** The first non-empty candidate of an ordered chain of lookups. */
  function FirstNonEmpty(cands: seq<Option<string>>): (r: Option<string>)
    ensures r.None? <==> NoneNonEmptyBefore(cands, |cands|)
    ensures r.Some? ==> NonEmpty(r)
    ensures r.Some? ==> exists i :: 0 <= i < |cands| && cands[i] == r && NoneNonEmptyBefore(cands, i)
    decreases |cands|
  {
    if cands == [] then None
    else if NonEmpty(cands[0]) then cands[0]
    else
      var r := FirstNonEmpty(cands[1..]);
      assert forall j :: 1 <= j < |cands| ==> cands[j] == cands[1..][j - 1];
      assert r.Some? ==> exists i :: 1 <= i < |cands| && cands[i] == r && NoneNonEmptyBefore(cands, i) by {
        if r.Some? {
          var i :| 0 <= i < |cands[1..]| && cands[1..][i] == r && NoneNonEmptyBefore(cands[1..], i);
          assert cands[i + 1] == r && NoneNonEmptyBefore(cands, i + 1);
        }
      }
      r
  }

  /** A chain that has already found a value ignores whatever follows it;
      a chain that found nothing hands over to what follows. */
  lemma {:induction false} FirstNonEmptyAppend(a: seq<Option<string>>, b: seq<Option<string>>)
    ensures FirstNonEmpty(a + b) == if FirstNonEmpty(a).Some? then FirstNonEmpty(a) else FirstNonEmpty(b)
    decreases |a|
  {
    if a == [] {
      assert a + b == b;
    } else {
      assert (a + b)[0] == a[0];
      assert (a + b)[1..] == a[1..] + b;
      FirstNonEmptyAppend(a[1..], b);
    }
  }

  /** The label used when no name can be found. */
  function ChatUserLabel(j: Jid): (r: string)
    ensures |r| == 10 + |ToBareJid(j)|
    ensures r[..10] == "Chat User " && r[10..] == ToBareJid(j)
  {
    "Chat User " + ToBareJid(j)
  }

  /** The second step of the name chain, reached when the full name `fn` is
      null or empty: the given name replaces it when non-empty, and a
      non-empty family name is appended after a space to whatever the name
      then is, even an empty full name. */
  function JoinedName(fn: Option<string>, given: Option<string>, family: Option<string>): Option<string>
  {
    var name := if NonEmpty(given) then given else fn;
    if NonEmpty(family) then
      if name.Some? then Some(name.value + " " + family.value) else family
    else name
  }

  /** The four shapes the given/family step can take. */
  lemma JoinedNameCases(fn: Option<string>, given: Option<string>, family: Option<string>)
    requires !NonEmpty(fn)
    ensures NonEmpty(given) && NonEmpty(family) ==>
      JoinedName(fn, given, family) == Some(given.value + " " + family.value)
    ensures NonEmpty(given) && !NonEmpty(family) ==> JoinedName(fn, given, family) == given
    ensures !NonEmpty(given) && NonEmpty(family) ==>
      JoinedName(fn, given, family) == if fn == Some("") then Some(" " + family.value) else family
    ensures !NonEmpty(given) && !NonEmpty(family) ==> !NonEmpty(JoinedName(fn, given, family))
  {
    if fn == Some("") && NonEmpty(family) {
      assert "" + " " + family.value == " " + family.value;
    }
  }

  /** The account field of a user, or None when the user cannot be found. */
  function AccountName(env: Env, username: Option<string>): Option<string>
  {
    match GetUser(env, username)
    case Some(u) => u.name
    case None => None
  }

  function AccountEmail(env: Env, username: Option<string>): Option<string>
  {
    match GetUser(env, username)
    case Some(u) => u.email
    case None => None
  }

  /** The name chain of a local address, in priority order. */
  function NameCandidates(env: Env, j: Jid): seq<Option<string>>
  {
    var fn := VCardProperty(env, j.node, "FN");
    [ fn,
      JoinedName(fn, VCardProperty(env, j.node, "N:GIVEN"), VCardProperty(env, j.node, "N:FAMILY")),
      VCardProperty(env, j.node, "NICKNAME"),
      AccountName(env, j.node) ]
  }

  /** The e-mail chain of a local address, in priority order. */
  function EmailCandidates(env: Env, j: Jid): seq<Option<string>>
  {
    [ VCardProperty(env, j.node, "EMAIL"),
      VCardProperty(env, j.node, "EMAIL:USERID"),
      AccountEmail(env, j.node) ]
  }

  /** A human-readable name for an address. */
  function DetermineName(env: Env, j: Jid): (r: string)
    ensures |r| > 0
    ensures !env.isLocal(j) ==> r == ChatUserLabel(j)
    ensures env.isLocal(j) && NonEmpty(VCardProperty(env, j.node, "FN")) ==>
      r == VCardProperty(env, j.node, "FN").value
    ensures (&& GetUser(env, j.node).None?
             && !NonEmpty(VCardProperty(env, j.node, "FN"))
             && !NonEmpty(JoinedName(VCardProperty(env, j.node, "FN"), VCardProperty(env, j.node, "N:GIVEN"),
                                     VCardProperty(env, j.node, "N:FAMILY")))
             && !NonEmpty(VCardProperty(env, j.node, "NICKNAME")))
            ==> r == ChatUserLabel(j)
  {
    if env.isLocal(j) then
      var username := j.node;
      var fn := VCardProperty(env, username, "FN");
      if NonEmpty(fn) then fn.value
      else
        var joined := JoinedName(fn, VCardProperty(env, username, "N:GIVEN"), VCardProperty(env, username, "N:FAMILY"));
        if NonEmpty(joined) then joined.value
        else
          var nick := VCardProperty(env, username, "NICKNAME");
          if NonEmpty(nick) then nick.value
          else
            match GetUser(env, username)
            case None => ChatUserLabel(j)   // UserNotFoundException
            case Some(user) => if NonEmpty(user.name) then user.name.value else ChatUserLabel(j)
    else ChatUserLabel(j)
  }

  /** What the address resolves to when no e-mail address can be looked up. */
  function EmailFallback(config: Config, j: Jid): string
  {
    if config.useXmppAsEmail then ToBareJid(j) else config.defaultEmail
  }

  /** An e-mail address for the owner of an address. */
  function DetermineEmailAddress(env: Env, config: Config, j: Jid): (r: string)
    ensures !env.isLocal(j) && config.useXmppAsEmail ==> r == ToBareJid(j)
    ensures !env.isLocal(j) && !config.useXmppAsEmail ==> r == config.defaultEmail
    ensures env.isLocal(j) && NonEmpty(VCardProperty(env, j.node, "EMAIL")) ==>
      r == VCardProperty(env, j.node, "EMAIL").value
    ensures (&& GetUser(env, j.node).None?
             && !NonEmpty(VCardProperty(env, j.node, "EMAIL"))
             && !NonEmpty(VCardProperty(env, j.node, "EMAIL:USERID")))
            ==> r == EmailFallback(config, j)
  {
    if env.isLocal(j) then
      var username := j.node;
      var email := VCardProperty(env, username, "EMAIL");
      if NonEmpty(email) then email.value
      else
        var userid := VCardProperty(env, username, "EMAIL:USERID");
        if NonEmpty(userid) then userid.value
        else
          match GetUser(env, username)
          case None => EmailFallback(config, j)   // UserNotFoundException
          case Some(user) => if NonEmpty(user.email) then user.email.value else EmailFallback(config, j)
    else EmailFallback(config, j)
  }

  /** The name of a local address is the first non-empty value of its name
      chain, and the synthesized label when the chain is exhausted. */
  lemma DetermineNameIsFirstOfChain(env: Env, j: Jid)
    ensures DetermineName(env, j) ==
      if env.isLocal(j) then FirstNonEmpty(NameCandidates(env, j)).GetOr(ChatUserLabel(j))
      else ChatUserLabel(j)
  {
    var c := NameCandidates(env, j);
    assert FirstNonEmpty(c) == if NonEmpty(c[0]) then c[0] else FirstNonEmpty(c[1..]);
    assert FirstNonEmpty(c[1..]) == if NonEmpty(c[1]) then c[1] else FirstNonEmpty(c[2..]);
    assert FirstNonEmpty(c[2..]) == if NonEmpty(c[2]) then c[2] else FirstNonEmpty(c[3..]);
    assert FirstNonEmpty(c[3..]) == if NonEmpty(c[3]) then c[3] else FirstNonEmpty(c[4..]);
    assert c[4..] == [];
  }

  /** The e-mail address of a local address is the first non-empty value of
      its e-mail chain, and the configured fallback when it is exhausted. */
  lemma DetermineEmailIsFirstOfChain(env: Env, config: Config, j: Jid)
    ensures DetermineEmailAddress(env, config, j) ==
      if env.isLocal(j) then FirstNonEmpty(EmailCandidates(env, j)).GetOr(EmailFallback(config, j))
      else EmailFallback(config, j)
  {
    var c := EmailCandidates(env, j);
    assert FirstNonEmpty(c) == if NonEmpty(c[0]) then c[0] else FirstNonEmpty(c[1..]);
    assert FirstNonEmpty(c[1..]) == if NonEmpty(c[1]) then c[1] else FirstNonEmpty(c[2..]);
    assert FirstNonEmpty(c[2..]) == if NonEmpty(c[2]) then c[2] else FirstNonEmpty(c[3..]);
    assert c[3..] == [];
  }

  /** Two chains that agree up to and including a non-empty entry pick the
      same value, whatever follows. */
  lemma ChainIgnoresLater(c1: seq<Option<string>>, c2: seq<Option<string>>, k: nat)
    requires k < |c1| && k < |c2|
    requires c1[..k + 1] == c2[..k + 1]
    requires NonEmpty(c1[k])
    ensures FirstNonEmpty(c1) == FirstNonEmpty(c2)
  {
    var p := c1[..k + 1];
    FoundWithin(p, k);
    assert c1 == p + c1[k + 1..];
    assert c2 == p + c2[k + 1..];
    FirstNonEmptyAppend(p, c1[k + 1..]);
    FirstNonEmptyAppend(p, c2[k + 1..]);
  }

  /** A chain with a non-empty entry finds something. */
  lemma FoundWithin(c: seq<Option<string>>, k: nat)
    requires k < |c| && NonEmpty(c[k])
    ensures FirstNonEmpty(c).Some?
  {
    assert !NoneNonEmptyBefore(c, |c|);
  }

  /** An earlier non-empty step of the name chain always wins over the later
      ones: changing only later steps leaves the name unchanged. */
  lemma NameIgnoresLaterSteps(env1: Env, env2: Env, j: Jid, k: nat)
    requires env1.isLocal(j) && env2.isLocal(j)
    requires k < 4
    requires NameCandidates(env1, j)[..k + 1] == NameCandidates(env2, j)[..k + 1]
    requires NonEmpty(NameCandidates(env1, j)[k])
    ensures DetermineName(env1, j) == DetermineName(env2, j)
  {
    DetermineNameIsFirstOfChain(env1, j);
    DetermineNameIsFirstOfChain(env2, j);
    ChainIgnoresLater(NameCandidates(env1, j), NameCandidates(env2, j), k);
  }

  /** An earlier non-empty step of the e-mail chain always wins over the
      later ones: changing only later steps leaves the address unchanged. */
  lemma EmailIgnoresLaterSteps(env1: Env, env2: Env, config: Config, j: Jid, k: nat)
    requires env1.isLocal(j) && env2.isLocal(j)
    requires k < 3
    requires EmailCandidates(env1, j)[..k + 1] == EmailCandidates(env2, j)[..k + 1]
    requires NonEmpty(EmailCandidates(env1, j)[k])
    ensures DetermineEmailAddress(env1, config, j) == DetermineEmailAddress(env2, config, j)
  {
    DetermineEmailIsFirstOfChain(env1, config, j);
    DetermineEmailIsFirstOfChain(env2, config, j);
    ChainIgnoresLater(EmailCandidates(env1, j), EmailCandidates(env2, j), k);
  }
}
