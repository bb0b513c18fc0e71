/**
 The data store of the chat add-on: its four tables, the identifiers it hands
 out, the constraints it enforces, and the lifecycle operations of the model
 classes that write to it (adding a contact, creating a room and auto-joining
 its creator, joining a room, posting and re-saving a message, and the
 expired-message sweep).
 */
module ChatStore {
  import opened Chat
  import opened ParticipantRules
  import opened RoomRules
  import opened MessageRules

  /** Some contact row already records `person` for `owner`. */
  predicate ContactPairTaken(cs: map<ContactId, Contact>, owner: UserId, person: UserId)
  {
    exists id :: id in cs && cs[id] == Contact(owner, person)
  }

  /** The Contact table honours `unique_together = (owner, person)`. */
  predicate ContactPairsUnique(cs: map<ContactId, Contact>)
  {
    forall i, j :: i in cs && j in cs && cs[i] == cs[j] ==> i == j
  }

  /** The Message table's share of the store's constraints: identifiers below
      `nextId`, participant and reply-to keys that resolve, and every
      disappearing row already stamped with its expiry. */
  ghost predicate MessageTableValid(msgs: map<MessageId, Message>, ps: map<ParticipantId, Participant>, nextId: nat)
  {
    && (forall id :: id in msgs ==> id < nextId)
    && (forall id :: id in msgs ==> msgs[id].participant in ps)
    && RepliesResolve(msgs)
    && (forall id :: id in msgs && msgs[id].disappering ==> msgs[id].disapperingAt.Some?)
  }

  /** Saving a message whose keys resolve, under an existing identifier or
      the next one, keeps the Message table's constraints; re-saving a stored
      row unchanged writes back the same table. */
  lemma SaveKeepsMessageTableValid(msgs: map<MessageId, Message>, ps: map<ParticipantId, Participant>, nextId: nat, id: MessageId, m: Message, now: Timestamp)
    requires MessageTableValid(msgs, ps, nextId)
    requires id in msgs || id == nextId
    requires m.participant in ps && (m.replyTo.Some? ==> m.replyTo.value in msgs)
    ensures MessageTableValid(msgs[id := Stamped(m, now)], ps, if id == nextId then nextId + 1 else nextId)
    ensures id in msgs && m == msgs[id] ==> msgs[id := Stamped(m, now)] == msgs
  {
  }

  class Store {
    var contacts: map<ContactId, Contact>
    var rooms: map<RoomId, Room>
    var participants: map<ParticipantId, Participant>
    var messages: map<MessageId, Message>
    /** The next identifier the store hands out; one sequence serves all tables. */
    var nextId: nat

    /** The constraints the store guarantees: fresh identifiers, both
        uniqueness constraints, and foreign keys that resolve. The room
        capacity is NOT among them: only the validator run before a join
        checks it, and the row the auto-join hook creates is taken not to go
        through that validator. */
    ghost predicate Valid()
      reads this
    {
      && (forall id :: id in contacts ==> id < nextId)
      && (forall id :: id in rooms ==> id < nextId)
      && (forall id :: id in participants ==> id < nextId)
      && ContactPairsUnique(contacts)
      && PairsUnique(participants)
      && (forall id :: id in participants ==> participants[id].room in rooms)
      && MessageTableValid(messages, participants, nextId)
    }

    constructor ()
      ensures Valid()
      ensures contacts == map[] && rooms == map[] && participants == map[] && messages == map[]
      ensures nextId == 0
    {
      contacts, rooms, participants, messages := map[], map[], map[], map[];
      nextId := 0;
    }

    /** Registers `person` as a contact of `owner`; a pair already registered
        is refused by the uniqueness constraint. */
    method AddContact(owner: UserId, person: UserId) returns (r: Result<ContactId>)
      requires Valid()
      modifies this
      ensures Valid()
      ensures r.Ok? <==> !ContactPairTaken(old(contacts), owner, person)
      ensures r.Ok? ==> r.value !in old(contacts) && contacts == old(contacts)[r.value := Contact(owner, person)]
      ensures r.Ok? ==> r.value == old(nextId) && nextId == old(nextId) + 1
      ensures r.Err? ==> r.error == NotUnique && contacts == old(contacts) && nextId == old(nextId)
      ensures ContactPairTaken(contacts, owner, person)
      ensures rooms == old(rooms) && participants == old(participants) && messages == old(messages)
    {
      if ContactPairTaken(contacts, owner, person) {
        return Err(NotUnique);
      }
      var id := nextId;
      contacts := contacts[id := Contact(owner, person)];
      nextId := nextId + 1;
      assert contacts[id] == Contact(owner, person);
      r := Ok(id);
    }

    /** `Room.auto_join_room`: the creator becomes an admin participant of
        room `id` unless they already participate in some room. */
    method AutoJoinRoom(id: RoomId, now: Timestamp)
      requires Valid() && id in rooms
      modifies this
      ensures Valid()
      ensures participants == AutoJoined(old(participants), id, old(rooms)[id].createdBy, old(nextId), now)
      ensures HasParticipation(participants, old(rooms)[id].createdBy)
      ensures HasParticipation(old(participants), old(rooms)[id].createdBy) ==> participants == old(participants)
      ensures nextId == if HasParticipation(old(participants), old(rooms)[id].createdBy) then old(nextId) else old(nextId) + 1
      ensures contacts == old(contacts) && rooms == old(rooms) && messages == old(messages)
    {
      var creator := rooms[id].createdBy;
      AutoJoinAddsCreator(participants, id, creator, nextId, now);
      AutoJoinKeepsPairsUnique(participants, id, creator, nextId, now);
      if !HasParticipation(participants, creator) {
        participants := participants[nextId := Participant(id, creator, true, now)];
        nextId := nextId + 1;
      }
    }

    /** Creates a room (`room.createdBy` is its creator): the naming validator
        runs first; once the row is stored, the auto-join hook runs. */
    method CreateRoom(room: Room, now: Timestamp) returns (r: Result<RoomId>)
      requires Valid()
      modifies this
      ensures Valid()
      ensures r.Ok? <==> ValidateName(room).Pass?
      ensures r.Err? ==> r.error == GroupRoomNeedsName
      ensures r.Err? ==> rooms == old(rooms) && participants == old(participants) && nextId == old(nextId)
      ensures r.Ok? ==>
        && r.value == old(nextId)
        && r.value !in old(rooms)
        && nextId == (if HasParticipation(old(participants), room.createdBy) then old(nextId) + 1 else old(nextId) + 2)
        && rooms == old(rooms)[r.value := room.(creationTimestamp := now)]
        && participants == AutoJoined(old(participants), r.value, room.createdBy, r.value + 1, now)
      ensures contacts == old(contacts) && messages == old(messages)
    {
      var v := ValidateName(room);
      if v.Fail? {
        return Err(v.error);
      }
      var id := nextId;
      rooms := rooms[id := room.(creationTimestamp := now)];
      nextId := nextId + 1;
      AutoJoinRoom(id, now);
      r := Ok(id);
    }

    /** `user` joins room `room`: the capacity validator runs first, then the
        store refuses a (room, user) pair it already holds. */
    method JoinRoom(room: RoomId, user: UserId, isAdmin: bool, now: Timestamp) returns (r: Result<ParticipantId>)
      requires Valid()
      modifies this
      ensures Valid()
      ensures r.Ok? <==>
        && ValidateRoomMaxParticipants(old(rooms), old(participants), Participant(room, user, isAdmin, now)).Pass?
        && !Enrolled(old(participants), room, user)
      ensures room !in old(rooms) ==> r == Err(MissingReference)
      ensures r.Err? && room in old(rooms) && ParticipantCount(old(participants), room) >= old(rooms)[room].maxParticipants ==>
        r.error == RoomFull
      ensures r.Err? && room in old(rooms) && ParticipantCount(old(participants), room) < old(rooms)[room].maxParticipants ==>
        r.error == NotUnique
      ensures r.Err? ==> participants == old(participants) && nextId == old(nextId)
      ensures r.Ok? ==>
        && r.value == old(nextId)
        && nextId == old(nextId) + 1
        && r.value !in old(participants)
        && participants == old(participants)[r.value := Participant(room, user, isAdmin, now)]
        && ParticipantCount(participants, room) == ParticipantCount(old(participants), room) + 1
        && ParticipantCount(participants, room) <= rooms[room].maxParticipants
      ensures contacts == old(contacts) && rooms == old(rooms) && messages == old(messages)
    {
      var p := Participant(room, user, isAdmin, now);
      var v := ValidateRoomMaxParticipants(rooms, participants, p);
      if v.Fail? {
        return Err(v.error);
      }
      if Enrolled(participants, room, user) {
        return Err(NotUnique);
      }
      var id := nextId;
      CountAfterInsert(participants, id, p);
      ValidatedJoinWithinCapacity(rooms, participants, id, p);
      InsertKeepsPairsUnique(participants, id, p);
      participants := participants[id := p];
      nextId := nextId + 1;
      r := Ok(id);
    }

    /** The write at the end of `Message.save`: the disappearing stamp is
        applied first, then the row is written under `id`, as a new row when
        `id` is the next identifier and over the stored row otherwise. */
    method WriteMessage(id: MessageId, m: Message, now: Timestamp)
      requires Valid() && (id in messages || id == nextId)
      requires m.participant in participants && (m.replyTo.Some? ==> m.replyTo.value in messages)
      requires ValidateAdminsOnly(rooms, participants, m).Pass?
      requires m.creationTimestamp == if id in messages then messages[id].creationTimestamp else now
      modifies this
      ensures Valid()
      ensures messages == old(messages)[id := Stamped(m, now)]
      ensures nextId == if id == old(nextId) then old(nextId) + 1 else old(nextId)
      ensures contacts == old(contacts) && rooms == old(rooms) && participants == old(participants)
    {
      var row := m;
      if row.disappering && row.disapperingAt.None? {
        row := row.(disapperingAt := Some(now + OneHour));
      }
      assert row == Stamped(m, now);
      SaveKeepsMessageTableValid(messages, participants, nextId, id, m, now);
      messages := messages[id := row];
      if id == nextId {
        nextId := nextId + 1;
      }
    }

    /** Saves the stored message `id` again with the fields of `m`: the
        posting validator runs first, a reply target the store does not hold
        is refused, and the row keeps the creation time it was stored with. */
    method SaveMessage(id: MessageId, m: Message, now: Timestamp) returns (o: Outcome)
      requires Valid() && id in messages
      modifies this
      ensures Valid()
      ensures o.Pass? <==>
        && ValidateAdminsOnly(old(rooms), old(participants), m).Pass?
        && (m.replyTo.Some? ==> m.replyTo.value in old(messages))
      ensures ValidateAdminsOnly(old(rooms), old(participants), m).Fail? ==> o == ValidateAdminsOnly(old(rooms), old(participants), m)
      ensures o.Fail? ==> o.error in {AdminsOnly, MissingReference} && messages == old(messages)
      ensures o.Pass? ==> messages == old(messages)[id := Stamped(m.(creationTimestamp := old(messages)[id].creationTimestamp), now)]
      ensures o.Pass? && m.disapperingAt.Some? ==> messages[id].disapperingAt == m.disapperingAt
      ensures m == old(messages)[id] ==> messages == old(messages)
      ensures contacts == old(contacts) && rooms == old(rooms) && participants == old(participants)
      ensures nextId == old(nextId)
    {
      var v := ValidateAdminsOnly(rooms, participants, m);
      if v.Fail? {
        return v;
      }
      if m.replyTo.Some? && m.replyTo.value !in messages {
        return Fail(MissingReference);
      }
      var row := m.(creationTimestamp := messages[id].creationTimestamp);
      SaveKeepsMessageTableValid(messages, participants, nextId, id, row, now);
      WriteMessage(id, row, now);
      o := Pass;
    }

    /** Posts a new message: the posting validator runs first, a reply target
        the store does not hold is refused, then the message is stamped and
        stored under the next identifier with `now` as its creation time. */
    method PostMessage(m: Message, now: Timestamp) returns (r: Result<MessageId>)
      requires Valid()
      modifies this
      ensures Valid()
      ensures r.Ok? <==>
        && ValidateAdminsOnly(old(rooms), old(participants), m).Pass?
        && (m.replyTo.Some? ==> m.replyTo.value in old(messages))
      ensures ValidateAdminsOnly(old(rooms), old(participants), m).Fail? ==> r == Err(ValidateAdminsOnly(old(rooms), old(participants), m).error)
      ensures r.Err? ==> r.error in {AdminsOnly, MissingReference} && messages == old(messages) && nextId == old(nextId)
      ensures r.Ok? ==>
        && r.value == old(nextId)
        && nextId == old(nextId) + 1
        && r.value !in old(messages)
        && messages == old(messages)[r.value := Stamped(m.(creationTimestamp := now), now)]
      ensures contacts == old(contacts) && rooms == old(rooms) && participants == old(participants)
    {
      var v := ValidateAdminsOnly(rooms, participants, m);
      if v.Fail? {
        return Err(v.error);
      }
      if m.replyTo.Some? && m.replyTo.value !in messages {
        return Err(MissingReference);
      }
      r := Ok(nextId);
      WriteMessage(nextId, m.(creationTimestamp := now), now);
    }

    /** `Message.delete_disappearing_messages` at `now`: deletes every
        message whose expiry is set and not after `now`, and, through the
        cascading reply-to key, every reply to a deleted message. */
    method DeleteDisappearingMessages(now: Timestamp)
      requires Valid()
      modifies this
      ensures Valid()
      ensures messages.Keys <= old(messages).Keys
      ensures forall id :: id in messages ==> messages[id] == old(messages)[id]
      ensures LeastCascade(old(messages), now, old(messages).Keys - messages.Keys)
      ensures ExpiredIds(messages, now) == {}
      ensures LeastCascade(messages, now, {})
      ensures contacts == old(contacts) && rooms == old(rooms) && participants == old(participants)
      ensures nextId == old(nextId)
    {
      var doomed := CollectDoomed(messages, now);
      SweepLeavesNothingToDelete(messages, now, doomed);
      assert messages.Keys - (messages - doomed).Keys == doomed;
      messages := messages - doomed;
    }
  }
}
