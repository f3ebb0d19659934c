/** Clients of the handlers, following one conversation between two users from login to history. */
module Scenario {
  import opened Wrappers
  import opened Directory
  import opened History
  import opened Presence
  import opened Server

  /** A fresh messenger in which "alice" and then "bob" have logged in. */
  method BothLogIn() returns (app: Messenger, alice: Session)
    ensures fresh(app) && app.Valid() && alice.username == Some("alice")
    ensures app.users == [User(1, "alice"), User(2, "bob")] && app.contacts == []
  {
    app := new Messenger();
    alice := new Session();
    var bob := new Session();
    var status, name := app.Login(alice, "alice");
    status, name := app.Login(bob, "bob");
  }

  /** After both logins, "alice" adds "bob": the first add of the pair succeeds. */
  method AliceAddsBobOnce() returns (app: Messenger, alice: Session)
    ensures fresh(app) && app.Valid() && alice.username == Some("alice")
    ensures app.users == [User(1, "alice"), User(2, "bob")] && app.contacts == [Contact(1, 1, 2)]
  {
    app, alice := BothLogIn();
    assert app.users[0] == User(1, "alice") && app.users[1] == User(2, "bob");
    FindUserUnique(app.users, User(1, "alice"));
    FindUserUnique(app.users, User(2, "bob"));
    var status := app.AddContact(alice, Some("bob"));
  }

  /** The contact list then names "bob", and a second identical add is refused. */
  method AliceAddsBob() {
    var app, alice := AliceAddsBobOnce();
    assert Owned(app.contacts, 1) == [Contact(1, 1, 2)];
    var contacts := app.GetContacts(alice);
    assert contacts == ["bob"];
    var status := app.AddContact(alice, Some("bob"));
    assert status == Error;
  }

  /** A fresh messenger in which "alice" has logged in. */
  method AliceLogsIn() returns (app: Messenger, alice: Session)
    ensures fresh(app) && fresh(alice) && app.Valid() && alice.username == Some("alice")
    ensures app.messages == [] && app.outbox == [] && app.rooms == map[]
  {
    app := new Messenger();
    alice := new Session();
    var status, name := app.Login(alice, "alice");
  }

  /** Connection "sid-a" joins the room "alice" and connection "sid-b" the room "bob". */
  method BothJoin(app: Messenger)
    requires app.Valid() && app.rooms == map[]
    modifies app`rooms
    ensures app.Valid() && RoomsOf(app.rooms, "sid-a") == {"alice"} && RoomsOf(app.rooms, "sid-b") == {"bob"}
      && RoomsOf(app.rooms, "sid-c") == {}
  {
    var ok := app.OnJoin("sid-a", map["username" := "alice"]);
    ok := app.OnJoin("sid-b", map["username" := "bob"]);
  }

  /** Both users join their rooms and "alice" sends "hi" to "bob". */
  method JoinAndSend(hi: Payload) returns (app: Messenger, alice: Session)
    requires hi == map["sender" := "alice", "receiver" := "bob", "text" := "hi"]
    ensures fresh(app) && app.Valid() && alice.username == Some("alice")
    ensures RoomsOf(app.rooms, "sid-a") == {"alice"} && RoomsOf(app.rooms, "sid-b") == {"bob"}
      && RoomsOf(app.rooms, "sid-c") == {}
    ensures app.outbox == Fanout(hi, app.rooms) && app.messages == [Message(1, "alice", "bob", "hi")]
    ensures GetHistory(app.messages, Some("alice"), Some("bob")) == [Entry("alice", "hi")]
  {
    app, alice := AliceLogsIn();
    BothJoin(app);
    assert GetHistory(app.messages, Some("alice"), Some("bob")) == [];
    var ok := app.HandleMessage(hi);
    assert app.outbox == [] + Fanout(hi, app.rooms);
  }

  /**
   * Each of the two connections receives the message once, and the sender's history holds it. A
   * connection that joins "bob" only after the send receives nothing.
   */
  method AliceMessagesBob() {
    var hi := map["sender" := "alice", "receiver" := "bob", "text" := "hi"];
    var app, alice := JoinAndSend(hi);
    assert hi["sender"] == "alice" && hi["receiver"] == "bob" && "alice" != "bob";
    FanoutReaches(app.rooms, "sid-b", hi);
    FanoutReaches(app.rooms, "sid-a", hi);
    FanoutReaches(app.rooms, "sid-c", hi);
    assert |Inbox("sid-b", app.outbox)| == 1;
    assert |Inbox("sid-a", app.outbox)| == 1;
    assert GetHistory(app.messages, alice.username, Some("bob")) == [Entry("alice", "hi")];

    assert RoomsOf(app.rooms, "sid-c") == {};
    var ok := app.OnJoin("sid-c", map["username" := "bob"]);
    assert "bob" in RoomsOf(app.rooms, "sid-c");
    assert |Inbox("sid-c", app.outbox)| == 0;
  }
}
