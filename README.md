# Messenger core in Dafny

A model of a small direct-messaging server (a Flask application with Socket.IO; everything is in
`app.py`). Under the web framework the server is a sequential state machine over:

- the `user` table `(id, username)`, where usernames are unique;
- the `contact` table `(id, owner_id, contact_id)`, which holds directed edges between users;
- the append-only `message` table `(id, sender, receiver, text)`, where sender and receiver are usernames;
- the Socket.IO room membership: which connection (`sid`) listens to which room (a username);
- the per-caller Flask session, which holds the username of the caller's last login;
- the log of `emit` calls: each entry is an event, a payload, a room, and the connections that were in
  that room when the call was made.

Each handler is one atomic step over that state. `login`, `add_contact`, `on_join` and
`handle_message` change state. They are methods of the class `Server.Messenger`, and each has a
`modifies` frame and says exactly what the new state is. The caller's session is the class
`Server.Session`. `get_contacts` is a read-only method with a loop. `search_user` and `get_history`
are pure functions over the tables.

Files and modules:

- `wrappers.dfy` (`Wrappers`): `Option`, for a query that finds no row and for a session without a username.
- `directory.dfy` (`Directory`): the user and contact tables, the lookups, and the specification
  functions of login, add_contact, get_contacts and search_user, with their lemmas.
- `history.dfy` (`History`): the message table, the two-party filter and get_history.
- `presence.dfy` (`Presence`): rooms, emissions, `Join`, the two-emission fan-out, and what a connection receives.
- `server.dfy` (`Server`): the state machine, its invariant `Valid()`, and the handlers.
- `scenario.dfy` (`Scenario`): a client that walks through the handlers. Alice and bob log in, alice adds
  bob, both join their rooms, alice sends "hi". Each connection gets one copy, and alice's history is `[{alice, hi}]`.

The invariant `Valid()` holds after the constructor and after every handler. It states:

- usernames are unique;
- primary keys are 1, 2, 3, … in insertion order (SQLite's rowid rule when nothing is ever deleted);
- both ends of every contact edge are users;
- each `(owner_id, contact_id)` pair occurs at most once;
- the outbox is, message by message, the two emissions of that message (`Persisted`). So no emission
  exists without a stored message row.

Behaviour of the code worth noting:

- A duplicate contact answers `{'status': 'error'}`, the same answer as an unknown user. There is no
  separate "already exists" status.
- Empty usernames are accepted, because only NULL is refused.
- Socket.IO rooms allow one connection to be in several rooms at once. There is no `leave` and no
  disconnect handling, so none is modelled.
- `search_user` matching is not simply case-sensitive. It is left abstract (see below).

## Model

| member | source | states |
|---|---|---|
| Directory.FindUser | app.py:42 | The lookup by username finds a row exactly when some row has that username, and the row it returns is a stored row with that username |
| Directory.FindById | app.py:82 | The lookup by primary key finds a row exactly when some row has that id, and returns a stored row with that id |
| Directory.FindUserUnique | app.py:17 | Since usernames are unique, looking up a stored row's username returns that very row |
| Directory.SameNameSameUser | app.py:17 | Two stored rows with the same username are the same row |
| Directory.Resolve | app.py:61 | A username from the session or the request names a user exactly when it is present and some row carries it, and the row found carries that name. A missing username (compared with IS NULL) names no user |
| Directory.FindByIdOf | app.py:16 | With ids assigned 1, 2, 3, … the lookup by primary key returns the row that carries the id |
| Directory.Registered | app.py:42-46 | Login keeps every row and appends at most one. The table grows exactly when no row has the name, and afterwards some row has it |
| Directory.RegisteredFinds | app.py:42-47 | After login the name resolves. An existing user keeps its row and id; a new name resolves to the appended row with the next id |
| Directory.RegisteredKeepsInvariants | app.py:42-46 | Login keeps every existing row, adds at most one, and keeps usernames unique and ids sequential |
| Directory.RegisteredIdempotent | app.py:39-48 | Logging in twice with one name leaves the same user table as logging in once |
| Directory.EdgesResolveGrow | app.py:21-22 | Adding users never breaks the two foreign keys of an existing contact edge |
| Directory.CanAdd | app.py:61-67 | An add can succeed only when both the caller's session username and the target username are present and name stored users |
| Directory.AddedEdges | app.py:64-70 | add_contact keeps every edge and appends at most one. It appends exactly when both names resolve and the edge is new |
| Directory.AddedEdgesKeepInvariants | app.py:64-70 | add_contact only appends. Afterwards both ends of every edge are users, every pair is unique, and ids stay sequential |
| Directory.AddedEdgesIdempotent | app.py:64-71 | Once both names resolve, the edge exists after add_contact. A second identical call cannot insert and leaves the table unchanged |
| Directory.EdgeCountUnique | app.py:66-70 | With unique pairs, an edge occurs exactly once if present and zero times otherwise, so repeated adds give one edge |
| Directory.AddContactTwice | app.py:64-70 | After two identical add_contact calls whose names resolve, the edge between the two users occurs exactly once |
| Directory.Owned | app.py:79 | The owner filter keeps exactly the stored edges with that owner_id |
| Directory.OwnedAppend | app.py:79 | An appended edge appears at the end of its owner's edges and nowhere else |
| Directory.OwnedUnique | app.py:79 | Filtering by owner keeps the pairs unique |
| Directory.ContactNames | app.py:80-83 | One name per edge, and name k is the username of the stored user whose id is the contact_id of edge k |
| Directory.ContactNamesAppend | app.py:80-83 | Naming one more edge appends that contact's username at the end |
| Directory.ContactsOf | app.py:76-83 | get_contacts answers [] when the session names no user. Otherwise it lists one name per edge the caller owns, and every name is a stored username |
| Directory.ContactsAfterAdd | app.py:58-84 | After a successful add_contact, the caller's get_contacts list is the old list followed by the target's username |
| Directory.ContactsDistinct | app.py:74-84 | get_contacts never lists a username twice (unique pairs, unique usernames) |
| Directory.Search | app.py:50-56 | Every result is a stored username that matches the query and is not the caller's own. Every matching username other than the caller's is in the result. The result is no longer than the table |
| History.Conversation | app.py:91-94 | The history filter returns no more messages than are stored, and every message it returns is between the two parties |
| History.ConversationMembers | app.py:91-94 | The history filter keeps exactly the stored messages from the caller to the partner or from the partner to the caller, and none when the session has no username or the request has no partner |
| History.GetHistory | app.py:86-95 | An entry is in get_history's answer exactly when some stored two-party message has that sender and text |
| History.HistoryAfterSend | app.py:91-95 | A newly stored message comes after every older one in the history; it is added exactly when it is between the two parties |
| History.ConversationSymmetric | app.py:91-94 | Asking as a about b and as b about a give the same conversation |
| History.WholeConversation | app.py:91-94 | When all messages are between a and b, in either direction, the history is all of them in send order |
| Presence.Join | app.py:98-101 | Joining adds the room to the connection's rooms and changes no other connection's rooms |
| Presence.MembersAfterJoin | app.py:101 | After a join, the room's members are the old members plus the connection; every other room keeps its members |
| Presence.JoinIdempotent | app.py:101 | Joining the same room twice is the same as joining it once |
| Presence.Members | app.py:115-116 | The members of a room are exactly the connections that have joined it |
| Presence.Emit | app.py:115 | An emit records its event, payload and room, and its recipients are exactly the connections in that room at the moment of the call |
| Presence.Fanout | app.py:115-116 | handle_message makes two emissions, both `new_message` events that carry the unchanged payload: first to the receiver's room, then to the sender's. Each reaches the members its room has at the time of the send |
| Presence.Inbox | app.py:115-116 | A connection receives exactly the emissions it was a recipient of when they were emitted |
| Presence.InboxAppend | app.py:115-116 | What a connection receives from a longer log is what it received before, followed by what it receives from the new part |
| Presence.FanoutReaches | app.py:115-116 | A sent message reaches a connection once for each of the receiver's and the sender's rooms it was in at the time of the send (twice for a message to oneself), always with the payload. A connection that joins later does not receive it |
| Server.PersistedAfterSend | app.py:110-116 | Storing a message and then emitting its two emissions keeps the outbox in step with the message table |
| Server.EmissionIsPersisted | app.py:109-116 | Emission i of the outbox is a `new_message` for stored message i/2: first to its receiver's room, then to its sender's. The outbox holds two emissions per message |
| Server.EmittedMessageInHistory | app.py:109-116 | Everything that was emitted can later be fetched with get_history by either party |
| Server.Session.constructor | app.py:47 | A new session holds no username until a login stores one |
| Server.Messenger.constructor | app.py:31-32 | The server starts with empty tables, no room membership and an empty outbox, and satisfies the invariant |
| Server.Messenger.Login | app.py:39-48 | If the username exists, the user table is unchanged. Otherwise exactly one row with the next id is appended. Either way the name then resolves, the session holds it, the status is success, and the invariant holds |
| Server.Messenger.AddContact | app.py:58-72 | Returns added and appends exactly the edge (caller id, target id) iff both names resolve and the edge is new. Otherwise returns error and leaves the table unchanged; this includes a session without a username and a request without a target username. The invariant holds |
| Server.Messenger.GetContacts | app.py:74-84 | Returns [] when the session resolves to no user. Otherwise returns the username of each owned edge, in edge order. Changes nothing |
| Server.Messenger.OnJoin | app.py:98-101 | The connection also joins the payload's username room and leaves no room. A payload without a username changes nothing |
| Server.Messenger.HandleMessage | app.py:103-116 | With all three fields present, it stores one message and then appends the two emissions of the unchanged payload (receiver's room, then sender's room), each addressed to that room's members at the time. What every connection receives grows by what it receives from those two. The sender's history gains the message at its end. Users, contacts and rooms are unchanged. A missing field stores and emits nothing |

## Left out

- HTTP routing, JSON parsing, `render_template` and starting the server (app.py:35-37, 118-119) are I/O plumbing.
- The secret key and database configuration (app.py:7-9) are not modelled.
- Database mechanics: commit failures, the `String(50)` length limit and schema creation are out. Each
  commit is an atomic update of an in-memory sequence. The model starts with empty tables; the real
  database file may already hold rows from an earlier run.
- Queries without `ORDER BY` (app.py:79, 91-94) promise no order. The model keeps tables in insertion
  order, so the order statements in `Owned`, `ContactsOf`, `GetHistory` and `WholeConversation` are a
  modelling assumption.
- Directory.Search: the match is SQL `LIKE '%query%'`, which is ASCII case-insensitive and treats `%`
  and `_` as wildcards. It is the parameter `matches`, not a definition, so the model proves only the filtering and the exclusion of the caller.
- A request body without `username` (login) or `query` (search_user) makes the database raise an
  error. These requests are not modelled; the username and query are plain strings.
- Socket.IO transport: real delivery to connections, connection identity, the room every connection
  gets under its own sid, and disconnects are out. Emissions are appended to the outbox together with the connections they reach.
- Socket payload values are JSON values. The model takes them as strings. Extra keys are carried
  unchanged into the emissions.
- Concurrent requests and event-loop scheduling are out. Each handler is one atomic step.
