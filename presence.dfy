/** Socket.IO rooms: which connection listens to which username, and the emissions sent to rooms. */
module Presence {

  /** A connection's session id. */
  type Sid = string

  /** A socket event's JSON object, with string keys and, in this model, string values. */
  type Payload = map<string, string>

  /**
   * One emit call: an event name and its payload, addressed to `room`, with the connections that were
   * in the room when it was emitted. Only those connections receive it.
   */
  datatype Emission = Emission(event: string, payload: Payload, room: string, recipients: set<Sid>)

  const NewMessage: string := "new_message"

  /** The rooms each connection has joined. */
  type Rooms = map<Sid, set<string>>

  /** The rooms `sid` has joined; none before its first join. */
  function RoomsOf(rooms: Rooms, sid: Sid): set<string> {
    if sid in rooms then rooms[sid] else {}
  }

  /** The connections in `room`: those an emission to `room` reaches. */
  function Members(rooms: Rooms, room: string): (r: set<Sid>)
    ensures forall sid :: sid in r <==> room in RoomsOf(rooms, sid)
  {
    set sid | sid in rooms && room in rooms[sid]
  }

  /** The membership after `sid` joins `room`. */
  function Join(rooms: Rooms, sid: Sid, room: string): (r: Rooms)
    ensures forall c :: RoomsOf(r, c) == if c == sid then RoomsOf(rooms, c) + {room} else RoomsOf(rooms, c)
  {
    rooms[sid := RoomsOf(rooms, sid) + {room}]
  }

  /** Joining puts the connection into the room and changes the membership of no other room. */
  lemma MembersAfterJoin(rooms: Rooms, sid: Sid, room: string, other: string)
    ensures Members(Join(rooms, sid, room), room) == Members(rooms, room) + {sid}
    ensures other != room ==> Members(Join(rooms, sid, room), other) == Members(rooms, other)
  {
    var r := Join(rooms, sid, room);
    assert forall c :: c in Members(r, room) <==> c in Members(rooms, room) + {sid} by {
      forall c ensures c in Members(r, room) <==> c in Members(rooms, room) + {sid} {
        assert RoomsOf(r, c) == if c == sid then RoomsOf(rooms, c) + {room} else RoomsOf(rooms, c);
      }
    }
    if other != room {
      forall c ensures c in Members(r, other) <==> c in Members(rooms, other) {
        assert RoomsOf(r, c) == if c == sid then RoomsOf(rooms, c) + {room} else RoomsOf(rooms, c);
      }
    }
  }

  /** Joining a room twice is the same as joining it once. */
  lemma JoinIdempotent(rooms: Rooms, sid: Sid, room: string)
    ensures Join(Join(rooms, sid, room), sid, room) == Join(rooms, sid, room)
  {
    var once := Join(rooms, sid, room);
    assert RoomsOf(once, sid) + {room} == RoomsOf(once, sid);
  }

  /** An emit to `room` under the membership `rooms`: it reaches the room's members at that moment. */
  function Emit(rooms: Rooms, event: string, payload: Payload, room: string): (e: Emission)
    ensures e.event == event && e.payload == payload && e.room == room
    ensures forall sid :: sid in e.recipients <==> room in RoomsOf(rooms, sid)
  {
    Emission(event, payload, room, Members(rooms, room))
  }

  /** `es` are the two emissions of the message `data`: to the receiver's room, then to the sender's. */
  predicate IsFanout(es: seq<Emission>, data: Payload) {
    && |es| == 2 && "sender" in data && "receiver" in data
    && es[0].event == NewMessage && es[0].payload == data && es[0].room == data["receiver"]
    && es[1].event == NewMessage && es[1].payload == data && es[1].room == data["sender"]
  }

  /** The two emits of a sent message under the membership `rooms`. */
  function Fanout(data: Payload, rooms: Rooms): (r: seq<Emission>)
    requires "sender" in data && "receiver" in data
    ensures IsFanout(r, data)
    ensures forall k :: 0 <= k < |r| ==> r[k].recipients == Members(rooms, r[k].room)
  {
    [Emit(rooms, NewMessage, data, data["receiver"]), Emit(rooms, NewMessage, data, data["sender"])]
  }

  /** The emissions of `es` that reached connection `sid`, in order. */
  function Inbox(sid: Sid, es: seq<Emission>): (r: seq<Emission>)
    ensures forall e :: e in r <==> e in es && sid in e.recipients
  {
    if es == [] then []
    else
      var n := |es| - 1;
      assert es == es[..n] + [es[n]];
      Inbox(sid, es[..n]) + (if sid in es[n].recipients then [es[n]] else [])
  }

  /** What a connection receives from a log is what it receives from each part, in order. */
  lemma {:induction false} InboxAppend(sid: Sid, a: seq<Emission>, b: seq<Emission>)
    ensures Inbox(sid, a + b) == Inbox(sid, a) + Inbox(sid, b)
  {
    if b != [] {
      var n := |b| - 1;
      var last := if sid in b[n].recipients then [b[n]] else [];
      assert (a + b)[..|a + b| - 1] == a + b[..n] && (a + b)[|a + b| - 1] == b[n];
      assert Inbox(sid, a + b) == Inbox(sid, a + b[..n]) + last;
      InboxAppend(sid, a, b[..n]);
      assert Inbox(sid, b) == Inbox(sid, b[..n]) + last;
    } else {
      assert a + b == a;
    }
  }

  /**
   * A sent message reaches a connection once for each of the receiver's and the sender's rooms it was
   * in at the time of the send: twice when it listens to both, or to the one room of a message sent to
   * oneself, and never when it joins only afterwards.
   */
  lemma FanoutReaches(rooms: Rooms, sid: Sid, data: Payload)
    requires "sender" in data && "receiver" in data
    ensures |Inbox(sid, Fanout(data, rooms))| ==
      (if data["receiver"] in RoomsOf(rooms, sid) then 1 else 0) + (if data["sender"] in RoomsOf(rooms, sid) then 1 else 0)
    ensures forall e :: e in Inbox(sid, Fanout(data, rooms)) ==> e.event == NewMessage && e.payload == data
  {
    var f := Fanout(data, rooms);
    assert f[..1] == [f[0]] && [f[0]][..0] == [];
    assert Inbox(sid, [f[0]]) == if sid in f[0].recipients then [f[0]] else [];
    assert Inbox(sid, f) == Inbox(sid, [f[0]]) + (if sid in f[1].recipients then [f[1]] else []);
  }
}
