/**
 * The messenger as one sequential state machine: the database tables, the Socket.IO room membership
 * and the log of emissions, changed by the HTTP and socket handlers one atomic step at a time.
 */
module Server {
  import opened Wrappers
  import opened Directory
  import opened History
  import opened Presence

  /** The `status` field of the JSON replies of login and add_contact. */
  datatype Status = Success | Added | Error

  /** `data` holds the sender, receiver and text of the stored message `m`. */
  predicate Carries(data: Payload, m: Message) {
    && "sender" in data && "receiver" in data && "text" in data
    && data["sender"] == m.sender && data["receiver"] == m.receiver && data["text"] == m.text
  }

  /**
   * Persist first, then fan out: message by message, the outbox holds that message's two emissions
   * (to the receiver's room, then to the sender's) and nothing else, so no emission lacks a stored row.
   */
  ghost predicate Persisted(messages: seq<Message>, outbox: seq<Emission>)
    decreases |messages|
  {
    if messages == [] then outbox == []
    else
      && |outbox| >= 2
      && Carries(outbox[|outbox| - 2].payload, messages[|messages| - 1])
      && IsFanout(outbox[|outbox| - 2..], outbox[|outbox| - 2].payload)
      && Persisted(messages[..|messages| - 1], outbox[..|outbox| - 2])
  }

  /** Storing a message and emitting its fan-out keeps the outbox in step with the message table. */
  lemma PersistedAfterSend(messages: seq<Message>, outbox: seq<Emission>, m: Message, data: Payload, rooms: Rooms)
    requires Persisted(messages, outbox) && Carries(data, m)
    ensures Persisted(messages + [m], outbox + Fanout(data, rooms))
  {
    var ms, ob := messages + [m], outbox + Fanout(data, rooms);
    assert ms[..|ms| - 1] == messages;
    assert ob[..|ob| - 2] == outbox;
    assert ob[|ob| - 2..] == Fanout(data, rooms);
  }

  /** Emission `i` of the outbox is one of the two emissions of message `i / 2`: receiver's room first. */
  lemma {:induction false} EmissionIsPersisted(messages: seq<Message>, outbox: seq<Emission>, i: nat)
    requires Persisted(messages, outbox) && i < |outbox|
    ensures |outbox| == 2 * |messages|
    ensures Carries(outbox[i].payload, messages[i / 2]) && outbox[i].event == NewMessage
    ensures outbox[i].room == if i % 2 == 0 then messages[i / 2].receiver else messages[i / 2].sender
  {
    var n := |messages| - 1;
    var k := |outbox| - 2;
    if i < k {
      EmissionIsPersisted(messages[..n], outbox[..k], i);
      assert outbox[..k][i] == outbox[i] && messages[..n][i / 2] == messages[i / 2];
    } else {
      if k > 0 {
        EmissionIsPersisted(messages[..n], outbox[..k], 0);
      }
      assert outbox[k..][i - k] == outbox[i];
    }
  }

  /** Whatever was emitted can be fetched later by either party with get_history. */
  lemma EmittedMessageInHistory(messages: seq<Message>, outbox: seq<Emission>, i: nat)
    requires Persisted(messages, outbox) && i < |outbox|
    ensures "sender" in outbox[i].payload && "receiver" in outbox[i].payload && "text" in outbox[i].payload
    ensures var p := outbox[i].payload;
      && Entry(p["sender"], p["text"]) in GetHistory(messages, Some(p["sender"]), Some(p["receiver"]))
      && Entry(p["sender"], p["text"]) in GetHistory(messages, Some(p["receiver"]), Some(p["sender"]))
  {
    EmissionIsPersisted(messages, outbox, i);
    assert messages[i / 2] in messages;
  }

  /** The Flask session of one caller: the username stored by its last login. */
  class Session {
    var username: Option<string>

    constructor ()
      ensures username == None
    {
      username := None;
    }
  }

  class Messenger {
    var users: seq<User>
    var contacts: seq<Contact>
    var messages: seq<Message>
    var rooms: Rooms
    var outbox: seq<Emission>

    /** The invariant every handler keeps. */
    ghost predicate Valid()
      reads this
    {
      && UniqueNames(users) && UserIds(users)
      && EdgesResolve(users, contacts) && UniqueEdges(contacts) && ContactIds(contacts)
      && MessageIds(messages)
      && Persisted(messages, outbox)
    }

    /** Empty tables, no connection in any room, nothing emitted. */
    constructor ()
      ensures Valid()
      ensures users == [] && contacts == [] && messages == [] && rooms == map[] && outbox == []
    {
      users, contacts, messages := [], [], [];
      rooms, outbox := map[], [];
    }

    /** login: create the user if the name is new, then remember the name in the caller's session. */
    method Login(s: Session, username: string) returns (status: Status, name: string)
      requires Valid()
      modifies this`users, s`username
      ensures Valid()
      ensures FindUser(old(users), username).Some? ==> users == old(users)
      ensures FindUser(old(users), username).None? ==> users == old(users) + [User(|old(users)| + 1, username)]
      ensures users == Registered(old(users), username)
      ensures FindUser(users, username).Some?
      ensures s.username == Some(username) && status == Success && name == username
    {
      RegisteredKeepsInvariants(users, username);
      RegisteredFinds(users, username);
      EdgesResolveGrow(users, Registered(users, username), contacts);
      var user := FindUser(users, username);
      if user.None? {
        users := users + [User(|users| + 1, username)];
      }
      s.username := Some(username);
      status, name := Success, username;
    }

    /** add_contact: insert the edge from the caller to `target` when both are users and the edge is new. */
    method AddContact(s: Session, target: Option<string>) returns (status: Status)
      requires Valid()
      modifies this`contacts
      ensures Valid()
      ensures status == Added <==> CanAdd(users, old(contacts), s.username, target)
      ensures status == Added || status == Error
      ensures status == Added ==> (contacts == old(contacts) +
        [Contact(|old(contacts)| + 1, Resolve(users, s.username).value.id, Resolve(users, target).value.id)])
      ensures status == Error ==> contacts == old(contacts)
      ensures contacts == AddedEdges(users, old(contacts), s.username, target)
    {
      AddedEdgesKeepInvariants(users, contacts, s.username, target);
      var curr := Resolve(users, s.username);
      var tgt := Resolve(users, target);
      if curr.Some? && tgt.Some? {
        var duplicate := HasEdge(contacts, curr.value.id, tgt.value.id);
        if !duplicate {
          contacts := contacts + [Contact(|contacts| + 1, curr.value.id, tgt.value.id)];
          return Added;
        }
      }
      return Error;
    }

    /** get_contacts: the username of each contact of the caller, one per owned edge, in edge order. */
    method GetContacts(s: Session) returns (names: seq<string>)
      requires Valid()
      ensures names == ContactsOf(users, contacts, s.username)
    {
      var curr := Resolve(users, s.username);
      if curr.None? {
        return [];
      }
      var edges := Owned(contacts, curr.value.id);
      names := [];
      var i := 0;
      while i < |edges|
        invariant 0 <= i <= |edges|
        invariant names == ContactNames(users, edges[..i])
      {
        var u := FindById(users, edges[i].contactId);
        assert edges[..i + 1] == edges[..i] + [edges[i]];
        ContactNamesAppend(users, edges[..i], edges[i]);
        names := names + [u.value.username];
        i := i + 1;
      }
      assert edges[..i] == edges;
    }

    /** on_join: the connection `sid` also listens to the room named by the payload's username. */
    method OnJoin(sid: Sid, data: Payload) returns (ok: bool)
      requires Valid()
      modifies this`rooms
      ensures Valid()
      ensures ok <==> "username" in data
      ensures ok ==> rooms == Join(old(rooms), sid, data["username"])
      ensures !ok ==> rooms == old(rooms)
    {
      if "username" !in data {
        return false;
      }
      rooms := Join(rooms, sid, data["username"]);
      ok := true;
    }

    /**
     * send_message: store the message, then emit the unchanged payload to the receiver's room and
     * to the sender's room, each reaching the connections in that room at that moment. A payload
     * missing a field stores and emits nothing.
     */
    method HandleMessage(data: Payload) returns (ok: bool)
      requires Valid()
      modifies this`messages, this`outbox
      ensures Valid()
      ensures ok <==> "sender" in data && "receiver" in data && "text" in data
      ensures ok ==> messages == old(messages) + [Message(|old(messages)| + 1, data["sender"], data["receiver"], data["text"])]
      ensures ok ==> outbox == old(outbox) + Fanout(data, rooms)
      ensures !ok ==> messages == old(messages) && outbox == old(outbox)
      ensures users == old(users) && contacts == old(contacts) && rooms == old(rooms)
      ensures ok ==> (GetHistory(messages, Some(data["sender"]), Some(data["receiver"])) ==
        old(GetHistory(messages, Some(data["sender"]), Some(data["receiver"]))) + [Entry(data["sender"], data["text"])])
      ensures ok ==> forall sid :: Inbox(sid, outbox) == Inbox(sid, old(outbox)) + Inbox(sid, Fanout(data, rooms))
    {
      if !("sender" in data && "receiver" in data && "text" in data) {
        return false;
      }
      var sender, receiver, text := data["sender"], data["receiver"], data["text"];
      var msg := Message(|messages| + 1, sender, receiver, text);
      ghost var ms, ob := messages, outbox;
      PersistedAfterSend(ms, ob, msg, data, rooms);
      HistoryAfterSend(ms, msg, Some(sender), Some(receiver));
      messages := messages + [msg];
      outbox := outbox + [Emit(rooms, NewMessage, data, receiver)];
      outbox := outbox + [Emit(rooms, NewMessage, data, sender)];
      assert outbox == ob + Fanout(data, rooms);
      forall sid ensures Inbox(sid, outbox) == Inbox(sid, ob) + Inbox(sid, Fanout(data, rooms)) {
        InboxAppend(sid, ob, Fanout(data, rooms));
      }
      ok := true;
    }
  }
}
