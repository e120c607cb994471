/** Worked examples: alice@example.com is away and bob@example.com writes to her. */
module Scenarios {
  import opened Wrappers
  import opened Strings
  import opened Xmpp
  import opened Server
  import opened Settings
  import opened Template
  import opened Resolver
  import opened EmailOnAway

  const Alice: Jid := Jid(Some("alice"), "example.com", Some("laptop"))
  const Bob: Jid := Jid(Some("bob"), "example.com", Some("phone"))

  function ExampleEnv(alicePresence: string, aliceVCard: map<(string, string), string>): Env
  {
    Env(
      (j: Jid) => j.domain == "example.com",
      aliceVCard + map[("bob", "FN") := "Bob Jones"],
      map["alice" := User(None, None), "bob" := User(None, None)],
      map["alice" := alicePresence, "bob" := "<presence/>"])
  }

  function Hello(): Packet
  {
    MessagePacket(Message(Chat, Some(Alice), Bob, None, Some("hello")))
  }

  /** The recipient's vCard e-mail receives the body; the sender is told that address. */
  lemma ForwardedToProfileEmail(presence: string)
    requires IsAway(presence)
    ensures var env := ExampleEnv(presence, map[("alice", "EMAIL") := "alice.personal@mail.com"]);
      var effects := Intercept(env, DefaultConfig("example.com"), Hello(), false, false);
      && |effects| == 2
      && effects[0].mail.toEmail == "alice.personal@mail.com"
      && effects[0].mail.fromName == "Bob Jones"
      && effects[0].mail.plainBody == Some("hello")
      && effects[0].mail.htmlBody == None
      && effects[1].message.to == Some(Jid(Some("bob"), "example.com", None))
      && effects[1].message.body.Some?
      && Contains(effects[1].message.body.value, "alice.personal@mail.com")
  {
    var env := ExampleEnv(presence, map[("alice", "EMAIL") := "alice.personal@mail.com"]);
    var config := DefaultConfig("example.com");
    assert GetUser(env, Alice.node) == Some(User(None, None));
    assert env.presence["alice"] == presence;
    assert Qualifies(env, Hello(), false, false);
    assert VCardProperty(env, Alice.node, "EMAIL") == Some("alice.personal@mail.com");
    assert VCardProperty(env, Bob.node, "FN") == Some("Bob Jones");
    DefaultPlainIsBody("example.com", "hello");
    DefaultHtmlOmitted("example.com", "hello");
  }

  /** Without any e-mail field the bare address is used. */
  lemma FallsBackToBareAddress()
    ensures var env := ExampleEnv("away", map[]);
      DetermineEmailAddress(env, DefaultConfig("example.com"), Alice) == "alice@example.com"
  {
  }

  /** A recipient who is not away causes no effects. */
  lemma NotAwayIsPassthrough()
    ensures Intercept(ExampleEnv("dnd", map[]), DefaultConfig("example.com"), Hello(), false, false) == []
  {
    assert !Contains(Lower("dnd"), "away");
  }

  /** A message already read upstream is passed through even when its
      recipient is offline: no presence is needed for it. */
  lemma ReadMessageToOfflineUserIsPassthrough()
    ensures var env := Env((j: Jid) => j.domain == "example.com", map[], map["alice" := User(None, None)], map[]);
      Intercept(env, DefaultConfig("example.com"), Hello(), true, false) == []
  {
  }
}
