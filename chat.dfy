/**
 The records of the chat add-on (Contact, Room, Participant, Message), the
 identifiers the data store hands out for them, and the errors its rules raise.
 Time is a whole number of seconds since the Unix epoch, in UTC.
 */
module Chat {

  type UserId = nat
  type ContactId = nat
  type RoomId = nat
  type ParticipantId = nat
  type MessageId = nat

  /** Seconds since the Unix epoch (UTC). */
  type Timestamp = int

  const OneHour: int := 3600
  const OneDay: int := 24 * OneHour

  datatype Option<+T> = None | Some(value: T)

  /** Everything an operation of the chat domain can fail with. */
  datatype ChatError =
    | GroupRoomNeedsName   // Room.validate_name: "Group Rooms need a name!"
    | RoomFull             // Participant.validate_room_max_participants: "Room full!"
    | AdminsOnly           // Message.validate_admins_only: "Only admins can post messages in this room."
    | NotUnique            // the store refused a duplicate (owner, person) or (room, user) pair
    | MissingReference     // a foreign key names a row the store does not hold

  /** The result of a validator: it passes, or it raises an error. */
  datatype Outcome = Pass | Fail(error: ChatError)

  /** The result of an operation that creates a row. */
  datatype Result<+T> = Ok(value: T) | Err(error: ChatError)

  /** A directed acquaintance: `owner` keeps `person` among their contacts. */
  datatype Contact = Contact(owner: UserId, person: UserId)

  datatype Room = Room(
    profilePicture: Option<string>,
    name: string,
    about: Option<string>,
    maxParticipants: int,
    adminsOnly: bool,
    erasableMessages: bool,
    createdBy: UserId,
    creationTimestamp: Timestamp)

  datatype Participant = Participant(
    room: RoomId,
    user: UserId,
    isAdmin: bool,
    dateJoined: Timestamp)

  /** `disappering` and `disapperingAt` keep the spelling of the stored columns;
      `replyTo` is the nullable self-reference the source calls `message`. */
  datatype Message = Message(
    text: Option<string>,
    disappering: bool,
    disapperingAt: Option<Timestamp>,
    replyTo: Option<MessageId>,
    participant: ParticipantId,
    creationTimestamp: Timestamp)
}
