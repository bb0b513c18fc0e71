/**
 Rules about the Participant table: how many members a room has, the
 capacity validator run before a join, and the (room, user) uniqueness
 constraint the store enforces.
 */
module ParticipantRules {
  import opened Chat

  /** The participants of `room` (the `Room.participants` query). */
  function RoomParticipants(ps: map<ParticipantId, Participant>, room: RoomId): (rs: set<ParticipantId>)
    ensures rs <= ps.Keys
    ensures forall id :: id in rs ==> ps[id].room == room
  {
    set id | id in ps && ps[id].room == room
  }

  /** `room.participants.count()`. */
  function ParticipantCount(ps: map<ParticipantId, Participant>, room: RoomId): (n: nat)
    ensures n == 0 <==> forall id :: id in ps ==> ps[id].room != room
  {
    var rs := RoomParticipants(ps, room);
    assert forall id :: id in ps && ps[id].room == room ==> id in rs;
    assert (forall id :: id in ps ==> ps[id].room != room) ==> rs == {};
    |rs|
  }

  /** Some participant row already binds `user` to `room`. */
  predicate Enrolled(ps: map<ParticipantId, Participant>, room: RoomId, user: UserId)
  {
    exists id :: id in ps && ps[id].room == room && ps[id].user == user
  }

  /** The table honours `unique_together = (room, user)`. */
  predicate PairsUnique(ps: map<ParticipantId, Participant>)
  {
    forall i, j :: i in ps && j in ps && ps[i].room == ps[j].room && ps[i].user == ps[j].user ==> i == j
  }

  /** The validator run before `p` is stored: it raises "Room full!" when the
      room already holds `max_participants` members or more. Dereferencing a
      room the store does not hold fails as a missing reference. */
  function ValidateRoomMaxParticipants(rooms: map<RoomId, Room>, ps: map<ParticipantId, Participant>, p: Participant): (o: Outcome)
    ensures o.Pass? <==> p.room in rooms && ParticipantCount(ps, p.room) < rooms[p.room].maxParticipants
    ensures o.Fail? && p.room in rooms ==> o.error == RoomFull
  {
    if p.room !in rooms then Fail(MissingReference)
    else if ParticipantCount(ps, p.room) >= rooms[p.room].maxParticipants then Fail(RoomFull)
    else Pass
  }

  /** Storing one new participant raises its room's count by exactly one and
      leaves every other room's count alone. */
  lemma CountAfterInsert(ps: map<ParticipantId, Participant>, id: ParticipantId, p: Participant)
    requires id !in ps
    ensures ParticipantCount(ps[id := p], p.room) == ParticipantCount(ps, p.room) + 1
    ensures forall room :: room != p.room ==> ParticipantCount(ps[id := p], room) == ParticipantCount(ps, room)
  {
    assert RoomParticipants(ps[id := p], p.room) == RoomParticipants(ps, p.room) + {id};
    forall room | room != p.room
      ensures ParticipantCount(ps[id := p], room) == ParticipantCount(ps, room)
    {
      assert RoomParticipants(ps[id := p], room) == RoomParticipants(ps, room);
    }
  }

  /** A join that passed the capacity validator never takes the room past
      `max_participants`. */
  lemma ValidatedJoinWithinCapacity(rooms: map<RoomId, Room>, ps: map<ParticipantId, Participant>, id: ParticipantId, p: Participant)
    requires id !in ps
    requires ValidateRoomMaxParticipants(rooms, ps, p).Pass?
    ensures ParticipantCount(ps[id := p], p.room) <= rooms[p.room].maxParticipants
  {
    CountAfterInsert(ps, id, p);
  }

  /** Inserting a (room, user) pair that is not yet present keeps the table
      free of duplicates, and afterwards the pair is present. */
  lemma InsertKeepsPairsUnique(ps: map<ParticipantId, Participant>, id: ParticipantId, p: Participant)
    requires PairsUnique(ps) && id !in ps && !Enrolled(ps, p.room, p.user)
    ensures PairsUnique(ps[id := p])
    ensures Enrolled(ps[id := p], p.room, p.user)
  {
    assert ps[id := p][id] == p;
  }
}
