/** The `user` and `contact` tables of the messenger and the queries the HTTP handlers run on them. */
module Directory {
  import opened Wrappers

  /** A row of the `user` table. */
  datatype User = User(id: nat, username: string)

  /** A row of the `contact` table: a directed edge from the user `ownerId` to the user `contactId`. */
  datatype Contact = Contact(id: nat, ownerId: nat, contactId: nat)

  // ---------------------------------------------------------------------------
  // Table invariants
  // ---------------------------------------------------------------------------

  /** The username column is unique: no two rows share a username. */
  ghost predicate UniqueNames(users: seq<User>) {
    forall i, j :: 0 <= i < j < |users| ==> users[i].username != users[j].username
  }

  /** Rows are never deleted, so the integer primary keys are 1, 2, 3, ... in insertion order. */
  ghost predicate UserIds(users: seq<User>) {
    forall i :: 0 <= i < |users| ==> users[i].id == i + 1
  }

  ghost predicate ContactIds(contacts: seq<Contact>) {
    forall i :: 0 <= i < |contacts| ==> contacts[i].id == i + 1
  }

  /** Some user row has primary key `id`. */
  ghost predicate HasId(users: seq<User>, id: nat) {
    exists i :: 0 <= i < |users| && users[i].id == id
  }

  /** Both ends of every edge are users (the two foreign keys of the contact table). */
  ghost predicate EdgesResolve(users: seq<User>, contacts: seq<Contact>) {
    forall c :: c in contacts ==> HasId(users, c.ownerId) && HasId(users, c.contactId)
  }

  /** Each (owner, contact) pair occurs at most once. */
  ghost predicate UniqueEdges(contacts: seq<Contact>) {
    forall i, j :: 0 <= i < j < |contacts| ==>
      contacts[i].ownerId != contacts[j].ownerId || contacts[i].contactId != contacts[j].contactId
  }

  // ---------------------------------------------------------------------------
  // Lookups
  // ---------------------------------------------------------------------------

  /** The first user row whose username is `name`, if any (lookup by the username column). */
  function FindUser(users: seq<User>, name: string): (r: Option<User>)
    ensures r.Some? <==> exists i :: 0 <= i < |users| && users[i].username == name
    ensures r.Some? ==> r.value in users && r.value.username == name
  {
    if users == [] then None
    else if users[0].username == name then Some(users[0])
    else
      var r := FindUser(users[1..], name);
      assert forall i :: 1 <= i < |users| ==> users[i] == users[1..][i - 1];
      r
  }

  /** The user row whose primary key is `id`, if any (lookup by primary key). */
  function FindById(users: seq<User>, id: nat): (r: Option<User>)
    ensures r.Some? <==> HasId(users, id)
    ensures r.Some? ==> r.value in users && r.value.id == id
  {
    if users == [] then None
    else if users[0].id == id then Some(users[0])
    else
      var r := FindById(users[1..], id);
      assert forall i :: 1 <= i < |users| ==> users[i] == users[1..][i - 1];
      r
  }

  /**
   * The user a possibly missing username resolves to. A missing name (the session without a username,
   * a request body without the key) is compared as NULL, and no row has a NULL username.
   */
  function Resolve(users: seq<User>, name: Option<string>): (r: Option<User>)
    ensures r.Some? ==> name == Some(r.value.username) && r.value in users
    ensures r.None? <==> name.None? || forall i :: 0 <= i < |users| ==> users[i].username != name.value
  {
    if name.Some? then FindUser(users, name.value) else None
  }

  /** A row with a given username is the one the lookup returns, since usernames are unique. */
  lemma {:induction false} FindUserUnique(users: seq<User>, u: User)
    requires UniqueNames(users) && u in users
    ensures FindUser(users, u.username) == Some(u)
  {
    if users[0] != u {
      assert users[0].username != u.username by {
        var k :| 0 <= k < |users| && users[k] == u;
        assert k > 0;
      }
      assert UniqueNames(users[1..]) by {
        forall i, j | 0 <= i < j < |users[1..]|
          ensures users[1..][i].username != users[1..][j].username
        {
          assert users[1..][i] == users[i + 1] && users[1..][j] == users[j + 1];
        }
      }
      FindUserUnique(users[1..], u);
    }
  }

  /** Two rows with the same username are the same row. */
  lemma SameNameSameUser(users: seq<User>, u: User, v: User)
    requires UniqueNames(users) && u in users && v in users
    ensures u.username == v.username ==> u == v
  {
    var i :| 0 <= i < |users| && users[i] == u;
    var j :| 0 <= j < |users| && users[j] == v;
    assert i < j ==> users[i].username != users[j].username;
    assert j < i ==> users[j].username != users[i].username;
  }

  /** With sequential ids the lookup by primary key returns the row that has it. */
  lemma FindByIdOf(users: seq<User>, u: User)
    requires UserIds(users) && u in users
    ensures FindById(users, u.id) == Some(u)
  {
    var i :| 0 <= i < |users| && users[i] == u;
    var v := FindById(users, u.id).value;
    var j :| 0 <= j < |users| && users[j] == v;
    assert i == j;
  }

  // ---------------------------------------------------------------------------
  // login: create-or-get
  // ---------------------------------------------------------------------------

  /** The user table after a login as `name`: unchanged when the name is taken, else one new row. */
  function Registered(users: seq<User>, name: string): (r: seq<User>)
    ensures users <= r && |r| <= |users| + 1
    ensures |r| == |users| <==> exists i :: 0 <= i < |users| && users[i].username == name
    ensures exists i :: 0 <= i < |r| && r[i].username == name
  {
    if FindUser(users, name).Some? then users
    else
      var r := users + [User(|users| + 1, name)];
      assert r[|users|].username == name;
      r
  }

  /** After a login the name resolves, to the row it resolved to before if there was one. */
  lemma RegisteredFinds(users: seq<User>, name: string)
    requires UniqueNames(users) && UserIds(users)
    ensures FindUser(Registered(users, name), name).Some?
    ensures FindUser(users, name).Some? ==>
      FindUser(Registered(users, name), name) == FindUser(users, name)
    ensures FindUser(users, name).None? ==>
      FindUser(Registered(users, name), name) == Some(User(|users| + 1, name))
  {
    var r := Registered(users, name);
    if FindUser(users, name).None? {
      assert r[|users|] == User(|users| + 1, name);
      RegisteredKeepsInvariants(users, name);
      FindUserUnique(r, User(|users| + 1, name));
    }
  }

  /** A login keeps every existing row and keeps usernames unique and ids sequential. */
  lemma RegisteredKeepsInvariants(users: seq<User>, name: string)
    requires UniqueNames(users) && UserIds(users)
    ensures users <= Registered(users, name) && |Registered(users, name)| <= |users| + 1
    ensures UniqueNames(Registered(users, name)) && UserIds(Registered(users, name))
  {
    var r := Registered(users, name);
    if FindUser(users, name).None? {
      forall i, j | 0 <= i < j < |r| ensures r[i].username != r[j].username {
        if j == |users| {
          assert r[i] == users[i];
        }
      }
    }
  }

  /** Logging in twice with the same name is the same as logging in once. */
  lemma RegisteredIdempotent(users: seq<User>, name: string)
    requires UniqueNames(users) && UserIds(users)
    ensures Registered(Registered(users, name), name) == Registered(users, name)
  {
    RegisteredFinds(users, name);
  }

  /** Adding user rows never breaks an edge's foreign keys. */
  lemma EdgesResolveGrow(users: seq<User>, more: seq<User>, contacts: seq<Contact>)
    requires EdgesResolve(users, contacts) && users <= more
    ensures EdgesResolve(more, contacts)
  {
    forall c | c in contacts ensures HasId(more, c.ownerId) && HasId(more, c.contactId) {
      var i :| 0 <= i < |users| && users[i].id == c.ownerId;
      var j :| 0 <= j < |users| && users[j].id == c.contactId;
      assert more[i] == users[i] && more[j] == users[j];
    }
  }

  // ---------------------------------------------------------------------------
  // add_contact: guarded, de-duplicated insert
  // ---------------------------------------------------------------------------

  /** Some edge from `owner` to `target` already exists (the duplicate check). */
  predicate HasEdge(contacts: seq<Contact>, owner: nat, target: nat) {
    exists i :: 0 <= i < |contacts| && contacts[i].ownerId == owner && contacts[i].contactId == target
  }

  /** add_contact inserts exactly when the caller and the target are users and the edge is new. */
  predicate CanAdd(users: seq<User>, contacts: seq<Contact>, me: Option<string>, target: Option<string>)
    ensures CanAdd(users, contacts, me, target) ==>
      && (exists i :: 0 <= i < |users| && Some(users[i].username) == me)
      && (exists j :: 0 <= j < |users| && Some(users[j].username) == target)
  {
    && Resolve(users, me).Some?
    && Resolve(users, target).Some?
    && !HasEdge(contacts, Resolve(users, me).value.id, Resolve(users, target).value.id)
  }

  /** The contact table after add_contact. */
  function AddedEdges(users: seq<User>, contacts: seq<Contact>, me: Option<string>, target: Option<string>): (r: seq<Contact>)
    ensures contacts <= r && |r| <= |contacts| + 1
    ensures |r| == |contacts| + 1 <==> CanAdd(users, contacts, me, target)
  {
    if CanAdd(users, contacts, me, target) then
      contacts + [Contact(|contacts| + 1, Resolve(users, me).value.id, Resolve(users, target).value.id)]
    else contacts
  }

  /** add_contact keeps both ends of every edge resolvable, the pairs unique and the ids sequential. */
  lemma AddedEdgesKeepInvariants(users: seq<User>, contacts: seq<Contact>, me: Option<string>, target: Option<string>)
    requires EdgesResolve(users, contacts) && UniqueEdges(contacts) && ContactIds(contacts)
    ensures contacts <= AddedEdges(users, contacts, me, target)
    ensures EdgesResolve(users, AddedEdges(users, contacts, me, target))
    ensures UniqueEdges(AddedEdges(users, contacts, me, target))
    ensures ContactIds(AddedEdges(users, contacts, me, target))
  {
    var r := AddedEdges(users, contacts, me, target);
    if CanAdd(users, contacts, me, target) {
      var e := r[|contacts|];
      assert HasId(users, e.ownerId) && HasId(users, e.contactId) by {
        var o := Resolve(users, me).value;
        var t := Resolve(users, target).value;
        var i :| 0 <= i < |users| && users[i] == o;
        var j :| 0 <= j < |users| && users[j] == t;
      }
      forall i, j | 0 <= i < j < |r|
        ensures r[i].ownerId != r[j].ownerId || r[i].contactId != r[j].contactId
      {
        if j == |contacts| {
          assert r[i] == contacts[i];
        }
      }
    }
  }

  /** Once add_contact has resolved both names, the edge exists, so a second identical call inserts nothing. */
  lemma AddedEdgesIdempotent(users: seq<User>, contacts: seq<Contact>, me: Option<string>, target: Option<string>)
    requires Resolve(users, me).Some? && Resolve(users, target).Some?
    ensures HasEdge(AddedEdges(users, contacts, me, target), Resolve(users, me).value.id, Resolve(users, target).value.id)
    ensures !CanAdd(users, AddedEdges(users, contacts, me, target), me, target)
    ensures AddedEdges(users, AddedEdges(users, contacts, me, target), me, target) == AddedEdges(users, contacts, me, target)
  {
    var r := AddedEdges(users, contacts, me, target);
    if CanAdd(users, contacts, me, target) {
      assert r[|contacts|].ownerId == Resolve(users, me).value.id;
    }
  }

  /** The number of edges from `owner` to `target`. */
  function EdgeCount(contacts: seq<Contact>, owner: nat, target: nat): nat {
    if contacts == [] then 0
    else EdgeCount(contacts[..|contacts| - 1], owner, target)
         + (if contacts[|contacts| - 1].ownerId == owner && contacts[|contacts| - 1].contactId == target then 1 else 0)
  }

  /** Unique pairs mean each pair is counted at most once; an existing pair exactly once. */
  lemma {:induction false} EdgeCountUnique(contacts: seq<Contact>, owner: nat, target: nat)
    requires UniqueEdges(contacts)
    ensures EdgeCount(contacts, owner, target) == if HasEdge(contacts, owner, target) then 1 else 0
  {
    if contacts != [] {
      var n := |contacts| - 1;
      var init := contacts[..n];
      assert UniqueEdges(init);
      EdgeCountUnique(init, owner, target);
      if contacts[n].ownerId == owner && contacts[n].contactId == target {
        forall i | 0 <= i < |init| ensures init[i].ownerId != owner || init[i].contactId != target {
          assert contacts[i] == init[i];
        }
      } else {
        assert HasEdge(contacts, owner, target) <==> HasEdge(init, owner, target) by {
          if HasEdge(init, owner, target) {
            var i :| 0 <= i < |init| && init[i].ownerId == owner && init[i].contactId == target;
            assert contacts[i] == init[i];
          }
          if HasEdge(contacts, owner, target) {
            var i :| 0 <= i < |contacts| && contacts[i].ownerId == owner && contacts[i].contactId == target;
            assert init[i] == contacts[i];
          }
        }
      }
    }
  }

  /** Adding the same contact twice leaves exactly one edge from the caller to the target. */
  lemma AddContactTwice(users: seq<User>, contacts: seq<Contact>, me: Option<string>, target: Option<string>)
    requires EdgesResolve(users, contacts) && UniqueEdges(contacts) && ContactIds(contacts)
    requires Resolve(users, me).Some? && Resolve(users, target).Some?
    ensures var twice := AddedEdges(users, AddedEdges(users, contacts, me, target), me, target);
      EdgeCount(twice, Resolve(users, me).value.id, Resolve(users, target).value.id) == 1
  {
    var once := AddedEdges(users, contacts, me, target);
    AddedEdgesIdempotent(users, contacts, me, target);
    AddedEdgesKeepInvariants(users, contacts, me, target);
    EdgeCountUnique(once, Resolve(users, me).value.id, Resolve(users, target).value.id);
  }

  // ---------------------------------------------------------------------------
  // get_contacts
  // ---------------------------------------------------------------------------

  /** The edges owned by `owner`, in table order. */
  function Owned(contacts: seq<Contact>, owner: nat): (r: seq<Contact>)
    ensures forall c :: c in r <==> c in contacts && c.ownerId == owner
    ensures |r| <= |contacts|
  {
    if contacts == [] then []
    else
      var n := |contacts| - 1;
      assert contacts == contacts[..n] + [contacts[n]];
      Owned(contacts[..n], owner) + (if contacts[n].ownerId == owner then [contacts[n]] else [])
  }

  /** Taking the owned edges of a longer table takes those of the shorter one, then the new edge if owned. */
  lemma OwnedAppend(contacts: seq<Contact>, e: Contact, owner: nat)
    ensures Owned(contacts + [e], owner) == Owned(contacts, owner) + (if e.ownerId == owner then [e] else [])
  {
    assert (contacts + [e])[..|contacts|] == contacts;
  }

  /** The username behind each edge's contact, in edge order; every contact must be a user. */
  function ContactNames(users: seq<User>, edges: seq<Contact>): (r: seq<string>)
    requires forall c :: c in edges ==> FindById(users, c.contactId).Some?
    ensures |r| == |edges|
    ensures forall k :: 0 <= k < |r| ==> User(edges[k].contactId, r[k]) in users
  {
    seq(|edges|, i requires 0 <= i < |edges| => FindById(users, edges[i].contactId).value.username)
  }

  /** Naming one more edge adds one name at the end. */
  lemma ContactNamesAppend(users: seq<User>, edges: seq<Contact>, e: Contact)
    requires forall c :: c in edges + [e] ==> FindById(users, c.contactId).Some?
    ensures ContactNames(users, edges + [e]) == ContactNames(users, edges) + [FindById(users, e.contactId).value.username]
  {
    var a, b := ContactNames(users, edges + [e]), ContactNames(users, edges);
    forall k | 0 <= k < |b| ensures a[k] == b[k] {
      assert (edges + [e])[k] == edges[k];
    }
  }

  /** get_contacts' answer: nothing for a caller who is no user, else the username behind each owned edge. */
  function ContactsOf(users: seq<User>, contacts: seq<Contact>, me: Option<string>): (r: seq<string>)
    requires EdgesResolve(users, contacts)
    ensures Resolve(users, me).None? ==> r == []
    ensures Resolve(users, me).Some? ==> |r| == |Owned(contacts, Resolve(users, me).value.id)|
    ensures forall k :: 0 <= k < |r| ==> exists i :: 0 <= i < |users| && users[i].username == r[k]
  {
    var cur := Resolve(users, me);
    if cur.None? then [] else ContactNames(users, Owned(contacts, cur.value.id))
  }

  /** A successful add_contact adds the target's username at the end of the caller's contact list. */
  lemma ContactsAfterAdd(users: seq<User>, contacts: seq<Contact>, me: Option<string>, target: Option<string>)
    requires UniqueNames(users) && UserIds(users)
    requires EdgesResolve(users, contacts) && UniqueEdges(contacts) && ContactIds(contacts)
    requires CanAdd(users, contacts, me, target)
    ensures EdgesResolve(users, AddedEdges(users, contacts, me, target))
    ensures ContactsOf(users, AddedEdges(users, contacts, me, target), me) == ContactsOf(users, contacts, me) + [target.value]
  {
    AddedEdgesKeepInvariants(users, contacts, me, target);
    var owner := Resolve(users, me).value.id;
    var t := Resolve(users, target).value;
    var e := Contact(|contacts| + 1, owner, t.id);
    OwnedAppend(contacts, e, owner);
    FindByIdOf(users, t);
    ContactNamesAppend(users, Owned(contacts, owner), e);
  }

  /** Owning edges keeps the pairs unique. */
  lemma {:induction false} OwnedUnique(contacts: seq<Contact>, owner: nat)
    requires UniqueEdges(contacts)
    ensures UniqueEdges(Owned(contacts, owner))
  {
    if contacts != [] {
      var n := |contacts| - 1;
      var init := contacts[..n];
      assert UniqueEdges(init);
      OwnedUnique(init, owner);
      var o := Owned(init, owner);
      if contacts[n].ownerId == owner {
        var r := Owned(contacts, owner);
        assert r == o + [contacts[n]];
        forall i, j | 0 <= i < j < |r| ensures r[i].ownerId != r[j].ownerId || r[i].contactId != r[j].contactId {
          if j == |o| {
            assert r[i] in init;
            var k :| 0 <= k < |init| && init[k] == r[i];
            assert contacts[k] == r[i];
          }
        }
      }
    }
  }

  /** A caller's contact list names each contact once. */
  lemma ContactsDistinct(users: seq<User>, contacts: seq<Contact>, me: Option<string>)
    requires UniqueNames(users) && EdgesResolve(users, contacts) && UniqueEdges(contacts)
    ensures forall i, j :: 0 <= i < j < |ContactsOf(users, contacts, me)| ==>
      ContactsOf(users, contacts, me)[i] != ContactsOf(users, contacts, me)[j]
  {
    var names := ContactsOf(users, contacts, me);
    var cur := Resolve(users, me);
    if cur.Some? {
      var edges := Owned(contacts, cur.value.id);
      OwnedUnique(contacts, cur.value.id);
      forall i, j | 0 <= i < j < |names| ensures names[i] != names[j] {
        var u := FindById(users, edges[i].contactId).value;
        var v := FindById(users, edges[j].contactId).value;
        assert edges[i].ownerId == edges[j].ownerId;
        SameNameSameUser(users, u, v);
      }
    }
  }

  // ---------------------------------------------------------------------------
  // search_user
  // ---------------------------------------------------------------------------

  /**
   * search_user's answer: the usernames for which `matches(username, query)` holds, except the
   * caller's own, in table order. `matches` stands for the database's substring match.
   */
  function Search(users: seq<User>, me: Option<string>, query: string, matches: (string, string) -> bool): (r: seq<string>)
    ensures |r| <= |users|
    ensures forall k :: 0 <= k < |r| ==>
      matches(r[k], query) && me != Some(r[k]) && exists i :: 0 <= i < |users| && users[i].username == r[k]
    ensures forall i :: 0 <= i < |users| && matches(users[i].username, query) && me != Some(users[i].username) ==>
      users[i].username in r
  {
    if users == [] then []
    else
      var n := |users| - 1;
      var u := users[n];
      var rest := Search(users[..n], me, query, matches);
      assert forall i :: 0 <= i < n ==> users[..n][i] == users[i];
      rest + (if matches(u.username, query) && me != Some(u.username) then [u.username] else [])
  }
}
