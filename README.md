# sapp_chat domain model in Dafny

This project models the chat add-on of the `sapp` web application (`models.py`).
It covers four record kinds:

- **Contact**: a directed acquaintance between two users.
- **Room**: a conversation.
- **Participant**: one user's membership of one room.
- **Message**: a post by a participant. It may reply to another message and may be set to disappear.

The database behind the ORM becomes a `Store` class. Its four tables are `map` fields keyed by identifier, and one counter hands out fresh identifiers. Time is an integer count of seconds since the Unix epoch, in UTC. Every operation that reads the clock takes the time as a parameter `now`.

Files, one module each:

- `chat.dfy` (`Chat`): identifiers, records, errors and result types.
- `participants.dfy` (`ParticipantRules`): participant count, the "Room full!" validator, and the `(room, user)` uniqueness constraint.
- `rooms.dfy` (`RoomRules`): `is_group`, the "Group Rooms need a name!" validator, and the auto-join hook, as a function on the Participant table.
- `messages.dfy` (`MessageRules`): the admins-only validator, the one-shot disappearing stamp, `replies`, and the expired-message sweep. The sweep is the least set of rows that holds every expired message and is closed under replies. `CollectDoomed` computes it.
- `stats.dfy` (`VolumeStats`): the 24 rolling one-hour buckets keyed by `HH:MM`. The returned dictionary is a `map` together with the sequence of its keys in insertion order, which is the order a Python dictionary iterates in.
- `store.dfy` (`ChatStore`): the `Store` class. Its `Valid()` invariant covers fresh identifiers, both uniqueness constraints, resolving foreign keys, and stamped disappearing rows. Each method states its whole new state.

In three places the model follows the code as written, though the evident intent may differ:

- **Auto-join guard.** `auto_join_room` (models.py:69) checks whether the creator has a Participant row in *any* room, not in the room just created. So a creator who already sits in another room is not joined. `RoomRules.AutoJoinSkipsCreatorSeatedElsewhere` states this.
- **Sweep cascades.** The sweep deletes through the cascading reply-to key (models.py:123). So it also removes replies to expired messages, transitively, even replies that have not expired themselves.
- **`set_name` is a no-op.** Its guard compares a query set with the integer 2, which is never true in Python. It is not modelled (see below).

## Model

| member | source | states |
|---|---|---|
| `ParticipantRules.RoomParticipants` | models.py:45-47 | the `Room.participants` query: row identifiers of the table, each naming this room |
| `ParticipantRules.ParticipantCount` | models.py:45-47 | `room.participants.count()`: zero exactly when no participant row names the room |
| `ParticipantRules.ValidateRoomMaxParticipants` | models.py:106-108 | passes exactly when the participant's room exists and holds fewer than `max_participants` rows; in an existing room every failure is "Room full!" |
| `ParticipantRules.CountAfterInsert` | models.py:45-47 | storing a new participant raises its room's `participants.count()` by exactly one and leaves every other room's count unchanged |
| `ParticipantRules.ValidatedJoinWithinCapacity` | models.py:106-108 | a join that passed the capacity validator leaves the room with at most `max_participants` members |
| `ParticipantRules.InsertKeepsPairsUnique` | models.py:91-92 | inserting a (room, user) pair not yet present keeps `unique_together` and makes the pair present |
| `RoomRules.IsGroup` | models.py:49-51 | the definition of `is_group`: the room admits more than two participants; `ValidateName` is stated through it |
| `RoomRules.ValidateName` | models.py:49-58 | fails exactly for a group room (`max_participants > 2`, i.e. `is_group`) with an empty name, and then with "Group Rooms need a name!" |
| `RoomRules.AutoJoined` | models.py:68-74 | the Participant table after the hook: the creator always has a participation afterwards, and the table is unchanged exactly when they had one before (in any room) |
| `RoomRules.AutoJoinAddsCreator` | models.py:68-74 | the hook adds at most one row and changes no existing row; afterwards the creator has a participation; if they had none, the new row makes them an admin of this room, stamped `now` |
| `RoomRules.AutoJoinIdempotent` | models.py:68-74 | running the hook a second time leaves the Participant table unchanged, so it never adds a duplicate |
| `RoomRules.AutoJoinKeepsPairsUnique` | models.py:68-74 | the hook keeps the (room, user) uniqueness constraint |
| `RoomRules.AutoJoinSkipsCreatorSeatedElsewhere` | models.py:69 | a creator who already participates in some other room is not enrolled in the new, empty room (the guard as written) |
| `MessageRules.ValidateAdminsOnly` | models.py:130-132 | raises "Only admins can post messages in this room." exactly when the participant's room is admins-only and the participant is not an admin; the only other failure is a dangling participant or room reference |
| `MessageRules.AdminsMayAlwaysPost` | models.py:130-132 | an admin, or anyone in a room that is not admins-only, always passes the posting validator |
| `MessageRules.Stamped` | models.py:134-136 | a disappearing message without an expiry gets `now + 3600`; a message that already has an expiry is returned unchanged; no other field ever changes |
| `MessageRules.StampedOnce` | models.py:134-140 | saving an already-stamped message again, at any later time, keeps its expiry |
| `MessageRules.Replies` | models.py:126-128 | the `replies` query: stored messages only, and the same set as the replies to the one-element set `{id}` that the sweep follows |
| `MessageRules.CollectDoomed` | models.py:146-148 | returns the least set of stored messages that holds every message whose expiry is set and not after `now` and is closed under `replies` (the cascade) |
| `MessageRules.DoomedExactly` | models.py:123-128 | a stored message is swept exactly when it has expired or it replies to a swept message |
| `MessageRules.LeastCascadeUnique` | models.py:146-148 | only one set of rows answers that description, so the sweep is fully determined |
| `MessageRules.SweepLeavesNothingToDelete` | models.py:146-148 | after the sweep no remaining message has expired; reply-to keys that resolved before still resolve; a second sweep at the same `now` deletes nothing |
| `VolumeStats.HourMinute` | models.py:160 | `strftime("%H:%M")`: a five-character label with `:` in the middle |
| `VolumeStats.HourMinuteParts` | models.py:160 | the label's first two characters are the zero-padded UTC hour and its last two the zero-padded minute |
| `VolumeStats.TwoDigits` | models.py:160 | `%H` and `%M` print exactly two decimal digit characters, which spell the number (tens then units) |
| `VolumeStats.BucketLabelsDistinct` | models.py:158-160 | the 24 bucket starts of one call, one hour apart, get pairwise different `HH:MM` labels |
| `VolumeStats.CountSplit` | models.py:160 | the number of messages created in [lo, hi) is the number in [lo, mid) plus the number in [mid, hi) |
| `VolumeStats.BucketsPartitionWindow` | models.py:155-161 | the hourly bucket counts from a start time add up to the number of messages created in the whole window they cover |
| `VolumeStats.BucketLabelsAre` | models.py:158-160 | the label set built over the first `n` loop turns holds exactly the `HH:MM` of those buckets' start times |
| `VolumeStats.LabelIsNew` | models.py:158-160 | the label of bucket `i` is none of the labels of the buckets before it, so no turn overwrites an earlier entry |
| `VolumeStats.AddBucket` | models.py:158-160 | one loop turn adds a label not yet in `data` and keeps every earlier bucket's count |
| `VolumeStats.WindowTotal` | models.py:155-161 | the counts stored under the 24 labels add up to the number of messages created in [`now - 24h`, `now`) |
| `VolumeStats.GetMessageVolumeStats` | models.py:154-161 | exactly 24 keys, the labels of the bucket starts `now - 24h + i h` (`BucketLabels`); key `i` maps to the count of messages created in [`now - 24h + i h`, `now - 24h + (i + 1) h`); the counts add up to the messages created in [`now - 24h`, `now`); the keys are inserted in bucket order, oldest first, and are pairwise different |
| `ChatStore.SaveKeepsMessageTableValid` | models.py:120-140 | saving a message whose participant and reply target exist keeps the Message table's constraints (fresh ids, resolving keys, every disappearing row stamped); re-saving a stored row unchanged writes back the same table |
| `ChatStore.Store.AddContact` | models.py:19-23 | stores the (owner, person) contact under the next identifier exactly when that pair is not yet registered, otherwise fails with a uniqueness error and changes nothing; afterwards the pair is registered |
| `ChatStore.Store.AutoJoinRoom` | models.py:68-78 | the Participant table becomes the auto-join result for the room's creator, consuming one identifier exactly when a row is added; if the creator already participated anywhere, the store is unchanged; the store invariant is kept |
| `ChatStore.Store.CreateRoom` | models.py:56-62 | the room is stored exactly when the naming validator passes, and the auto-join hook then runs on the new row; otherwise it fails with "Group Rooms need a name!" and nothing changes |
| `ChatStore.Store.JoinRoom` | models.py:91-108 | the join succeeds exactly when the capacity validator passes and the (room, user) pair is new; a missing room is a missing reference, a room at capacity gives "Room full!", and a duplicate pair in a room below capacity the uniqueness error; on success one row is added under the next identifier, the room's count rises by exactly one and stays within `max_participants`; on failure nothing changes |
| `ChatStore.Store.WriteMessage` | models.py:134-140 | `save` writes the stamped message, as a new row under the next identifier or over a stored row, and keeps the store invariant; it is reached only after the posting validator has passed, with the creation time of the creating call (`now` for a new row, the stored one for a re-save) |
| `ChatStore.Store.SaveMessage` | models.py:130-140 | re-saving a stored message runs the posting validator first and refuses a missing reply target; on success the row becomes the stamped message with its original creation time, an existing expiry is kept; on failure, or when the row is saved unchanged, the table is unchanged |
| `ChatStore.Store.PostMessage` | models.py:130-140 | the message is stored under the next identifier, stamped and timestamped `now`, exactly when the posting validator passes and the reply target exists; a failing validator's error is returned as is (a non-admin in an admins-only room gets the admins-only error); on failure nothing changes |
| `ChatStore.Store.DeleteDisappearingMessages` | models.py:146-148 | removes exactly the least cascade set (expired messages and their replies, transitively) and leaves every other row unchanged; afterwards nothing has expired and a repeated sweep would delete nothing |

## Left out

- `set_name` (models.py:64-66): its guard compares a query set with the integer 2, which Python never finds equal, so the method never changes a room. It is not modelled, and the auto-naming it seems to intend is not invented.
- `get_message_volume_stats_api` (models.py:150-152): a REST wrapper that ignores its arguments and delegates to the modelled statistic.
- `Room.messages` and `Participant.messages` (models.py:41-43, 99-101): plain filter queries that no rule uses.
- The views and app configuration (`views.py`, `apps.py`): a template render and framework wiring.
- Display and UI metadata (`icon`, `list_field_names`, `cols_css_class`, `per_page`, `queryset_names`, `__str__`, `list_url`).
- Field length limits (`max_length` 256, 512 and 1024) and the rich-text handling of `text`: strings are unbounded and opaque.
- The `SM` base class is not part of this model. It supplies `created_by`, `creation_timestamp` and the hook ordering. The model assumes the following:
  - the validators run before the row is written;
  - `after_save` of a room runs once, right after the room is created;
  - `creation_timestamp` is the `now` of the creating call, and a later save keeps it.
  - The row `auto_join_room` creates (models.py:70-74) does not pass through `validate_room_max_participants`. If the base class ran that validator there, creating a room with `max_participants` of 0 or less would fail to join its creator.
  - Re-running `auto_join_room` when an existing room is saved again is not modelled.
- The wall clock: `now` is a parameter. The statistic is computed in UTC, as `timezone.now()` gives it. A deployment without time-zone support, which would use naive local time, is not modelled.
- The users table: user identifiers are opaque, and the model does not check that users exist. Deletion cascades from users, rooms and participants are not modelled, because no modelled operation deletes those rows.
- Identifiers: a single counter serves all four tables. The database keeps one sequence per table. Only freshness matters to the rules.
- `Store.JoinRoom` checks its failures in a fixed order: a missing room first, then capacity, then uniqueness. In the framework, which error surfaces first depends on the `SM` validation pipeline, which is not part of this model.
- The race between two concurrent joins that both pass the capacity check is a database concurrency concern. Each operation of the model is atomic.
