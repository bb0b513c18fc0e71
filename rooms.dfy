/**
 Rules about rooms: group status, the naming validator, and the hook that
 joins a room's creator as its first admin.
 */
module RoomRules {
  import opened Chat
  import opened ParticipantRules

  /** A group room is one that admits more than two participants. */
  predicate IsGroup(r: Room)
  {
    r.maxParticipants > 2
  }

  /** The naming validator run before a room is stored: unnamed group rooms are
      refused, everything else passes. */
  function ValidateName(r: Room): (o: Outcome)
    ensures o.Fail? <==> IsGroup(r) && r.name == []
    ensures o.Fail? ==> o.error == GroupRoomNeedsName
  {
    if r.name == [] && r.maxParticipants > 2 then Fail(GroupRoomNeedsName) else Pass
  }

  /** Some participant row, in any room, belongs to `user`. */
  predicate HasParticipation(ps: map<ParticipantId, Participant>, user: UserId)
  {
    exists id :: id in ps && ps[id].user == user
  }

  /** The Participant table after the auto-join hook of room `room`, created by
      `creator` at `now`, with `id` the identifier the store would give a new
      row. The guard asks whether the creator participates in ANY room. */
  function AutoJoined(ps: map<ParticipantId, Participant>, room: RoomId, creator: UserId, id: ParticipantId, now: Timestamp): (r: map<ParticipantId, Participant>)
    ensures HasParticipation(r, creator)
    ensures r == ps <==> HasParticipation(ps, creator)
  {
    if HasParticipation(ps, creator) then ps
    else
      var joined := ps[id := Participant(room, creator, true, now)];
      assert joined[id].user == creator;
      joined
  }

  /** The hook adds at most one row, never changes an existing one, and leaves
      the creator with a participation; when the creator had none before, the
      new row makes them an admin of this room. */
  lemma AutoJoinAddsCreator(ps: map<ParticipantId, Participant>, room: RoomId, creator: UserId, id: ParticipantId, now: Timestamp)
    requires id !in ps
    ensures var ps' := AutoJoined(ps, room, creator, id, now);
      && HasParticipation(ps', creator)
      && ps.Keys <= ps'.Keys <= ps.Keys + {id}
      && (forall k :: k in ps ==> ps'[k] == ps[k])
      && (!HasParticipation(ps, creator) ==> id in ps' && ps'[id] == Participant(room, creator, true, now))
  {
    if !HasParticipation(ps, creator) {
      var ps' := ps[id := Participant(room, creator, true, now)];
      assert ps'[id].user == creator;
    }
  }

  /** Running the hook a second time never adds a duplicate row. */
  lemma AutoJoinIdempotent(ps: map<ParticipantId, Participant>, room: RoomId, creator: UserId, id: ParticipantId, id2: ParticipantId, now: Timestamp, now2: Timestamp)
    requires id !in ps
    ensures var ps' := AutoJoined(ps, room, creator, id, now);
      AutoJoined(ps', room, creator, id2, now2) == ps'
  {
    AutoJoinAddsCreator(ps, room, creator, id, now);
  }

  /** The hook keeps the (room, user) uniqueness constraint. */
  lemma AutoJoinKeepsPairsUnique(ps: map<ParticipantId, Participant>, room: RoomId, creator: UserId, id: ParticipantId, now: Timestamp)
    requires PairsUnique(ps) && id !in ps
    ensures PairsUnique(AutoJoined(ps, room, creator, id, now))
  {
  }

  /** As written, a creator who already participates in some other room is
      not joined to the room they have just created. */
  lemma AutoJoinSkipsCreatorSeatedElsewhere(ps: map<ParticipantId, Participant>, room: RoomId, creator: UserId, id: ParticipantId, now: Timestamp)
    requires id !in ps
    requires ParticipantCount(ps, room) == 0
    requires HasParticipation(ps, creator)
    ensures !Enrolled(AutoJoined(ps, room, creator, id, now), room, creator)
  {
    assert RoomParticipants(ps, room) == {};
    assert forall k :: k in ps && ps[k].room == room ==> k in RoomParticipants(ps, room);
  }
}
