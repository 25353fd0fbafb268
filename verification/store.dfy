/** The persistent state the booking engine reads and writes, as one immutable value:
    users with the bans they issued, rooms, and participant rows. The repositories'
    lookups (findById, findByUserId, findByIdAndStatus, isParticipant) are functions of it. */
module Store {
  import Validators

  type UserId = string
  type RoomId = int

  /** The RoomStatus constant that findByIdAndStatus is asked for. */
  const ActiveStatus := "active"

  /** A user and the destinations of the bans they issued (their banSrcList). */
  datatype User = User(banned: seq<UserId>)

  /** A room as the engine sees it: its owner, meeting time (seconds), location text,
      RoomStatus name and the MenuName names linked to it. */
  datatype Room = Room(owner: UserId, meetTime: int, location: string, status: string,
                       menus: seq<string>)

  /** One participant row: `user` is committed to `room`'s time slot. */
  datatype Participant = Participant(user: UserId, room: RoomId)

  /** Rows are kept in insertion order; `lastId` is the last id the generator handed out,
      so the next saved room receives `lastId + 1`. */
  datatype Store = Store(users: map<UserId, User>, rooms: map<RoomId, Room>,
                         participants: seq<Participant>, lastId: nat)

  /** The id the next saved room receives; generated ids start at 1. */
  function NextId(s: Store): RoomId {
    s.lastId + 1
  }

  /** Generated ids are positive and already handed out, and every participant row points
      at a stored room. */
  predicate Wf(s: Store) {
    && (forall id :: id in s.rooms ==> 1 <= id <= s.lastId)
    && (forall i :: 0 <= i < |s.participants| ==> s.participants[i].room in s.rooms)
  }

  /** findByIdAndStatus(id, active) finds a room. */
  predicate IsActive(s: Store, id: RoomId) {
    id in s.rooms && s.rooms[id].status == ActiveStatus
  }

  /** The rows of one user, in insertion order. */
  function RowsOf(rows: seq<Participant>, user: UserId): (r: seq<Participant>)
    ensures |r| <= |rows|
    ensures forall p :: p in r <==> p in rows && p.user == user
  {
    if |rows| == 0 then []
    else
      var rest := RowsOf(rows[1..], user);
      if rows[0].user == user then [rows[0]] + rest else rest
  }

  /** participantRepository.findByUserId. */
  function UserParts(s: Store, user: UserId): seq<Participant> {
    RowsOf(s.participants, user)
  }

  /** partService.isParticipant: a row links the user to the room. */
  predicate IsParticipant(s: Store, room: RoomId, user: UserId) {
    Participant(user, room) in s.participants
  }

  /** The no-double-booking rule: any two rows of the same user whose rooms are both
      active name meeting times more than an hour apart. */
  predicate Separated(s: Store) {
    forall i, j :: 0 <= i < j < |s.participants|
      && s.participants[i].user == s.participants[j].user
      && IsActive(s, s.participants[i].room) && IsActive(s, s.participants[j].room)
      ==> Validators.IsValidTime(s.rooms[s.participants[i].room].meetTime,
                                 s.rooms[s.participants[j].room].meetTime)
  }
}
