/**
 Rules about messages: who may post, the one-shot self-destruction stamp, the
 `replies` relation, and the set of rows the expired-message sweep deletes
 once the cascading reply-to key has been followed.
 */
module MessageRules {
  import opened Chat

  /** The posting validator: in a room marked admins-only, only admins may
      post. Dereferencing a participant or room the store does not hold fails
      as a missing reference. */
  function ValidateAdminsOnly(rooms: map<RoomId, Room>, ps: map<ParticipantId, Participant>, m: Message): (o: Outcome)
    ensures o == Fail(AdminsOnly) <==>
      m.participant in ps && ps[m.participant].room in rooms &&
      rooms[ps[m.participant].room].adminsOnly && !ps[m.participant].isAdmin
    ensures o.Fail? ==> o.error in {AdminsOnly, MissingReference}
  {
    if m.participant !in ps || ps[m.participant].room !in rooms then Fail(MissingReference)
    else if rooms[ps[m.participant].room].adminsOnly && !ps[m.participant].isAdmin then Fail(AdminsOnly)
    else Pass
  }

  /** An admin of an existing room may always post, whatever the room's
      settings, and in a room that is not admins-only so may everyone. */
  lemma AdminsMayAlwaysPost(rooms: map<RoomId, Room>, ps: map<ParticipantId, Participant>, m: Message)
    requires m.participant in ps && ps[m.participant].room in rooms
    requires ps[m.participant].isAdmin || !rooms[ps[m.participant].room].adminsOnly
    ensures ValidateAdminsOnly(rooms, ps, m) == Pass
  {
  }

  /** The message as it is stored when saved at `now`: a disappearing message
      that has no expiry yet is given one an hour later; nothing else changes. */
  function Stamped(m: Message, now: Timestamp): (r: Message)
    ensures r.disapperingAt.Some? <==> m.disapperingAt.Some? || m.disappering
    ensures m.disapperingAt.Some? ==> r == m
    ensures m.disapperingAt.None? && m.disappering ==> r.disapperingAt == Some(now + OneHour)
    ensures r.(disapperingAt := m.disapperingAt) == m
  {
    if m.disappering && m.disapperingAt.None? then m.(disapperingAt := Some(now + OneHour)) else m
  }

  /** The stamp is set once: saving again, at any later time, keeps it. */
  lemma StampedOnce(m: Message, now: Timestamp, later: Timestamp)
    ensures Stamped(Stamped(m, now), later) == Stamped(m, now)
  {
  }

  /** The sweep's filter: an expiry is set and is not after `now`. */
  predicate Expired(m: Message, now: Timestamp)
  {
    m.disapperingAt.Some? && m.disapperingAt.value <= now
  }

  function ExpiredIds(msgs: map<MessageId, Message>, now: Timestamp): set<MessageId>
  {
    set id | id in msgs && Expired(msgs[id], now)
  }

  /** The messages that reply to `id` (the `Message.replies` query). */
  function Replies(msgs: map<MessageId, Message>, id: MessageId): (rs: set<MessageId>)
    ensures rs <= msgs.Keys
    ensures rs == RepliesTo(msgs, {id})
  {
    set r | r in msgs && msgs[r].replyTo == Some(id)
  }

  /** Deleting every row of `s` would, through the cascading reply-to key,
      delete no further row. */
  ghost predicate ClosedUnderReplies(msgs: map<MessageId, Message>, s: set<MessageId>)
  {
    forall id :: id in s ==> Replies(msgs, id) <= s
  }

  /** `s` is a set of rows whose deletion removes every expired message and
      leaves no reply behind to a deleted one. */
  ghost predicate Cascades(msgs: map<MessageId, Message>, now: Timestamp, s: set<MessageId>)
  {
    ExpiredIds(msgs, now) <= s && ClosedUnderReplies(msgs, s)
  }

  /** `d` is exactly what the sweep deletes: the least such set inside the
      table, i.e. the expired messages and their replies, transitively. */
  ghost predicate LeastCascade(msgs: map<MessageId, Message>, now: Timestamp, d: set<MessageId>)
  {
    && d <= msgs.Keys
    && Cascades(msgs, now, d)
    && forall s {:trigger Cascades(msgs, now, s)} :: Cascades(msgs, now, s) ==> d <= s
  }

  /** The replies to any message of `d` whose parent is in `d`. */
  function RepliesTo(msgs: map<MessageId, Message>, d: set<MessageId>): set<MessageId>
  {
    set r | r in msgs && msgs[r].replyTo.Some? && msgs[r].replyTo.value in d
  }

  lemma SubsetMissingOneSmaller<T>(a: set<T>, b: set<T>, x: T)
    requires a <= b && x in b && x !in a
    ensures |a| < |b|
  {
    var c := b - {x};
    assert c == a + (c - a);
    assert |c| == |b| - 1;
  }

  /** Collects the rows `delete_disappearing_messages` deletes at `now`: the
      expired messages, then the replies to collected messages, until no new
      reply is found. */
  method CollectDoomed(msgs: map<MessageId, Message>, now: Timestamp) returns (doomed: set<MessageId>)
    ensures LeastCascade(msgs, now, doomed)
  {
    doomed := ExpiredIds(msgs, now);
    var more := RepliesTo(msgs, doomed);
    while !(more <= doomed)
      invariant ExpiredIds(msgs, now) <= doomed <= msgs.Keys
      invariant more == RepliesTo(msgs, doomed)
      invariant forall s {:trigger Cascades(msgs, now, s)} :: Cascades(msgs, now, s) ==> doomed <= s
      decreases |msgs.Keys - doomed|
    {
      var grown := doomed + more;
      var r :| r in more && r !in doomed;
      SubsetMissingOneSmaller(msgs.Keys - grown, msgs.Keys - doomed, r);
      forall s | Cascades(msgs, now, s)
        ensures grown <= s
      {
        forall r | r in more
          ensures r in s
        {
          assert r in Replies(msgs, msgs[r].replyTo.value);
        }
      }
      doomed := grown;
      more := RepliesTo(msgs, doomed);
    }
    forall id | id in doomed
      ensures Replies(msgs, id) <= doomed
    {
      assert Replies(msgs, id) <= RepliesTo(msgs, doomed);
    }
  }

  /** The sweep deletes a message exactly when it has expired or it replies
      to a deleted message. */
  lemma DoomedExactly(msgs: map<MessageId, Message>, now: Timestamp, d: set<MessageId>, id: MessageId)
    requires LeastCascade(msgs, now, d)
    requires id in msgs
    ensures id in d <==>
      Expired(msgs[id], now) || (msgs[id].replyTo.Some? && msgs[id].replyTo.value in d)
  {
    var m := msgs[id];
    if m.replyTo.Some? && m.replyTo.value in d {
      assert id in Replies(msgs, m.replyTo.value);
    }
    if id in d && !Expired(m, now) && !(m.replyTo.Some? && m.replyTo.value in d) {
      var smaller := d - {id};
      forall p | p in smaller
        ensures Replies(msgs, p) <= smaller
      {
        forall r | r in Replies(msgs, p)
          ensures r in smaller
        {
          assert r in d;
          assert msgs[r].replyTo == Some(p);
        }
      }
      assert Cascades(msgs, now, smaller);
      assert false;
    }
  }

  /** Only one set of rows answers the description: the sweep is determined. */
  lemma LeastCascadeUnique(msgs: map<MessageId, Message>, now: Timestamp, d1: set<MessageId>, d2: set<MessageId>)
    requires LeastCascade(msgs, now, d1) && LeastCascade(msgs, now, d2)
    ensures d1 == d2
  {
  }

  /** Every reply-to key resolves to a stored message. */
  predicate RepliesResolve(msgs: map<MessageId, Message>)
  {
    forall id :: id in msgs && msgs[id].replyTo.Some? ==> msgs[id].replyTo.value in msgs
  }

  /** What survives the sweep holds no expired message and no dangling
      reply-to key, and a second sweep at the same `now` deletes nothing. */
  lemma SweepLeavesNothingToDelete(msgs: map<MessageId, Message>, now: Timestamp, d: set<MessageId>)
    requires LeastCascade(msgs, now, d)
    ensures ExpiredIds(msgs - d, now) == {}
    ensures RepliesResolve(msgs) ==> RepliesResolve(msgs - d)
    ensures LeastCascade(msgs - d, now, {})
  {
  }
}
