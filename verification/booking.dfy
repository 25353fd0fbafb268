/** The booking operations of RoomService over the store: createRoom, enterRoom,
    exitRoom and searchMyRooms, each returning the documented integer code together
    with the store it leaves behind, or the place where the source throws. */
module Booking {
  import opened Wrappers
  import opened Validators
  import opened Store
  import DateTime

  /** The places where the source throws instead of returning a code. A throw ends the
      request and its transaction is rolled back, so it carries no store. */
  datatype Site =
    | UnparsableMeetTime      // LocalDateTime.parse runs before the -1 check
    | InactiveParticipation   // Optional.get() on a participated room that is not active
    | UnknownStatus           // RoomStatus.valueOf is case-sensitive
    | UnknownMenu             // MenuName.valueOf is case-sensitive

  datatype Outcome<T> = Returned(value: T) | Threw(site: Site)

  /** A returned code and the store after the call. */
  datatype Step = Step(code: int, store: Store)

  /** The fields of the RoomDto that createRoom reads. */
  datatype RoomRequest = RoomRequest(meetTime: string, location: string, menus: seq<string>,
                                     status: string)

  /** A participant row that does not stop a booking at time `t`: its room is active and
      its meeting time is more than an hour away from `t`. */
  predicate Fits(s: Store, p: Participant, t: int) {
    IsActive(s, p.room) && IsValidTime(s.rooms[p.room].meetTime, t)
  }

  /** Where the loop over a user's rows stops: the first row that does not fit. */
  function FirstMisfit(s: Store, rows: seq<Participant>, t: int): (k: nat)
    ensures k <= |rows|
    ensures forall i :: 0 <= i < k ==> Fits(s, rows[i], t)
    ensures k < |rows| ==> !Fits(s, rows[k], t)
  {
    if |rows| == 0 || !Fits(s, rows[0], t) then 0
    else 1 + FirstMisfit(s, rows[1..], t)
  }

  datatype Scan = Clear | Conflict | Inactive

  /** The conflict loop of createRoom and enterRoom: rows are visited in order; the first
      whose room is not active throws, the first whose time clashes returns -2. */
  function CheckConflicts(s: Store, rows: seq<Participant>, t: int): (r: Scan)
    ensures r == Clear <==> forall i :: 0 <= i < |rows| ==> Fits(s, rows[i], t)
    ensures r == Inactive <==> exists k :: (0 <= k < |rows| && !IsActive(s, rows[k].room)
      && forall i :: 0 <= i < k ==> Fits(s, rows[i], t))
    ensures r == Conflict <==> exists k :: (0 <= k < |rows| && IsActive(s, rows[k].room)
      && !IsValidTime(s.rooms[rows[k].room].meetTime, t)
      && forall i :: 0 <= i < k ==> Fits(s, rows[i], t))
  {
    var k := FirstMisfit(s, rows, t);
    if k == |rows| then Clear
    else if !IsActive(s, rows[k].room) then Inactive
    else Conflict
  }

  /** Lines 56-63 pass: the meeting time parses, the user exists, the location and every
      entry of the menu list pass the case-insensitive checks. */
  predicate Validated(cat: Catalog, s: Store, userId: UserId, req: RoomRequest) {
    && DateTime.ParseTime(req.meetTime).Some?
    && userId in s.users
    && IsInLocation(cat, req.location)
    && forall i :: 0 <= i < |req.menus| ==> IsInMenuName(cat, req.menus[i])
  }

  /** The store after saving the new room (id `NextId(s)`) and the owner's participant row. */
  function WithRoom(s: Store, userId: UserId, t: int, req: RoomRequest): Store {
    s.(rooms := s.rooms[NextId(s) := Room(userId, t, req.location, req.status, req.menus)],
       participants := s.participants + [Participant(userId, NextId(s))],
       lastId := NextId(s))
  }

  /** createRoom. */
  function CreateRoom(cat: Catalog, s: Store, userId: UserId, req: RoomRequest): (r: Outcome<Step>)
    ensures r == Threw(UnparsableMeetTime) <==> DateTime.ParseTime(req.meetTime).None?
    ensures r.Returned? ==> r.value.code != ParseError
    ensures r.Returned? && r.value.code == UnknownUser <==>
      DateTime.ParseTime(req.meetTime).Some? && userId !in s.users
    ensures r.Returned? && r.value.code == InvalidEnum <==>
      && DateTime.ParseTime(req.meetTime).Some? && userId in s.users
      && !Validated(cat, s, userId, req)
    ensures r.Returned? && r.value.code == TimeConflict <==>
      && Validated(cat, s, userId, req)
      && CheckConflicts(s, UserParts(s, userId), DateTime.ParseTime(req.meetTime).value) == Conflict
    ensures r.Returned? && r.value.code < 0 ==> r.value.store == s
    ensures r.Returned? && r.value.code >= 0 ==>
      && Validated(cat, s, userId, req)
      && (forall i :: 0 <= i < |UserParts(s, userId)| ==>
            Fits(s, UserParts(s, userId)[i], DateTime.ParseTime(req.meetTime).value))
      && req.status in cat.statuses
      && (forall i :: 0 <= i < |req.menus| ==> req.menus[i] in cat.menus)
      && r.value.code == NextId(s)
      && r.value.store == WithRoom(s, userId, DateTime.ParseTime(req.meetTime).value, req)
    ensures r == Threw(InactiveParticipation) <==>
      && Validated(cat, s, userId, req)
      && CheckConflicts(s, UserParts(s, userId), DateTime.ParseTime(req.meetTime).value)
         == Inactive
    ensures r == Threw(UnknownStatus) <==>
      && Validated(cat, s, userId, req)
      && CheckConflicts(s, UserParts(s, userId), DateTime.ParseTime(req.meetTime).value) == Clear
      && req.status !in cat.statuses
    ensures r == Threw(UnknownMenu) <==>
      && Validated(cat, s, userId, req)
      && CheckConflicts(s, UserParts(s, userId), DateTime.ParseTime(req.meetTime).value) == Clear
      && req.status in cat.statuses
      && (exists i :: 0 <= i < |req.menus| && req.menus[i] !in cat.menus)
    ensures
      && Validated(cat, s, userId, req)
      && CheckConflicts(s, UserParts(s, userId), DateTime.ParseTime(req.meetTime).value) == Clear
      && req.status in cat.statuses
      && (forall i :: 0 <= i < |req.menus| ==> req.menus[i] in cat.menus)
      ==> r == Returned(Step(NextId(s),
                             WithRoom(s, userId, DateTime.ParseTime(req.meetTime).value, req)))
  {
    match DateTime.ParseTime(req.meetTime)
    case None => Threw(UnparsableMeetTime)
    case Some(t) =>
      if userId !in s.users then Returned(Step(UnknownUser, s))
      else if !IsInLocation(cat, req.location) then Returned(Step(InvalidEnum, s))
      else if exists i :: 0 <= i < |req.menus| && !IsInMenuName(cat, req.menus[i]) then
        Returned(Step(InvalidEnum, s))
      else match CheckConflicts(s, UserParts(s, userId), t)
        case Inactive => Threw(InactiveParticipation)
        case Conflict => Returned(Step(TimeConflict, s))
        case Clear =>
          if req.status !in cat.statuses then Threw(UnknownStatus)
          else if exists i :: 0 <= i < |req.menus| && req.menus[i] !in cat.menus then
            Threw(UnknownMenu)
          else Returned(Step(NextId(s), WithRoom(s, userId, t, req)))
  }

  /** createRoom with the documented -1 restored: the parse check decides before the
      text is parsed, so a meeting time that does not parse (the sentinel included, which
      names no time to book) is reported as -1 instead of thrown. Every other input
      behaves exactly as createRoom. */
  function CreateRoomChecked(cat: Catalog, s: Store, userId: UserId, req: RoomRequest)
    : (r: Outcome<Step>)
    ensures r.Threw? ==> r.site != UnparsableMeetTime
    ensures r.Returned? && r.value.code == ParseError <==>
      DateTime.ParseTime(req.meetTime).None?
    ensures DateTime.ParseTime(req.meetTime).Some? ==> r == CreateRoom(cat, s, userId, req)
    ensures r.Returned? && r.value.code < 0 ==> r.value.store == s
  {
    if DateTime.ParseTime(req.meetTime).None? then Returned(Step(ParseError, s))
    else CreateRoom(cat, s, userId, req)
  }

  /** enterRoom. */
  function EnterRoom(s: Store, userId: UserId, roomId: string): (r: Outcome<Step>)
    ensures r.Returned? && r.value.code == ParseError <==> IsParsableRoomId(roomId) < 0
    ensures r.Returned? && r.value.code == UnknownRoom <==>
      IsParsableRoomId(roomId) >= 0 && IsParsableRoomId(roomId) !in s.rooms
    ensures r.Returned? && r.value.code == TimeConflict <==>
      && IsParsableRoomId(roomId) >= 0 && IsParsableRoomId(roomId) in s.rooms
      && CheckConflicts(s, UserParts(s, userId), s.rooms[IsParsableRoomId(roomId)].meetTime)
         == Conflict
    ensures r.Threw? ==> r.site == InactiveParticipation
    ensures r.Returned? && r.value.code < 0 ==> r.value.store == s
    ensures r.Returned? && r.value.code >= 0 ==>
      && r.value.code == IsParsableRoomId(roomId) && r.value.code in s.rooms
      && (forall i :: 0 <= i < |UserParts(s, userId)| ==>
            Fits(s, UserParts(s, userId)[i], s.rooms[r.value.code].meetTime))
      && r.value.store == s.(participants := s.participants + [Participant(userId, r.value.code)])
    ensures r.Threw? <==>
      && IsParsableRoomId(roomId) >= 0 && IsParsableRoomId(roomId) in s.rooms
      && CheckConflicts(s, UserParts(s, userId), s.rooms[IsParsableRoomId(roomId)].meetTime)
         == Inactive
    ensures
      && IsParsableRoomId(roomId) >= 0 && IsParsableRoomId(roomId) in s.rooms
      && CheckConflicts(s, UserParts(s, userId), s.rooms[IsParsableRoomId(roomId)].meetTime)
         == Clear
      ==> r == Returned(Step(IsParsableRoomId(roomId),
                             s.(participants := s.participants
                                  + [Participant(userId, IsParsableRoomId(roomId))])))
  {
    var id := IsParsableRoomId(roomId);
    if id < 0 then Returned(Step(ParseError, s))
    else if id !in s.rooms then Returned(Step(UnknownRoom, s))
    else match CheckConflicts(s, UserParts(s, userId), s.rooms[id].meetTime)
      case Inactive => Threw(InactiveParticipation)
      case Conflict => Returned(Step(TimeConflict, s))
      case Clear => Returned(Step(id, s.(participants := s.participants + [Participant(userId, id)])))
  }

  /** exitRoom: only the checks exist; nothing is removed. */
  function ExitRoom(s: Store, userId: UserId, roomId: string): (r: Step)
    ensures r.store == s
    ensures r.code in {ParseError, UnknownRoom, NotAParticipant, ExitOk}
    ensures r.code == ParseError <==> IsParsableRoomId(roomId) < 0
    ensures r.code == UnknownRoom <==>
      IsParsableRoomId(roomId) >= 0 && IsParsableRoomId(roomId) !in s.rooms
    ensures r.code == ExitOk <==>
      && IsParsableRoomId(roomId) >= 0 && IsParsableRoomId(roomId) in s.rooms
      && IsParticipant(s, IsParsableRoomId(roomId), userId)
  {
    var id := IsParsableRoomId(roomId);
    if id < 0 then Step(ParseError, s)
    else if id !in s.rooms then Step(UnknownRoom, s)
    else if !IsParticipant(s, id, userId) then Step(NotAParticipant, s)
    else Step(ExitOk, s)
  }

  function RoomsOfRows(rows: seq<Participant>): (ids: seq<RoomId>)
    ensures |ids| == |rows|
    ensures forall i :: 0 <= i < |rows| ==> ids[i] == rows[i].room
  {
    seq(|rows|, i requires 0 <= i < |rows| => rows[i].room)
  }

  /** searchMyRooms: None (the source's null) when the user has no rows; otherwise the
      room of every row, in row order, each converted once. */
  function SearchMyRooms(s: Store, userId: UserId): (r: Outcome<Option<seq<RoomId>>>)
    ensures r == Returned(None) <==> |UserParts(s, userId)| == 0
    ensures r.Threw? <==> exists i :: (0 <= i < |UserParts(s, userId)|
      && !IsActive(s, UserParts(s, userId)[i].room))
    ensures r.Threw? ==> r.site == InactiveParticipation
    ensures r.Returned? && r.value.Some? ==>
      && |r.value.value| == |UserParts(s, userId)| > 0
      && forall i :: 0 <= i < |r.value.value| ==>
           r.value.value[i] == UserParts(s, userId)[i].room && IsActive(s, r.value.value[i])
  {
    var rows := UserParts(s, userId);
    if |rows| == 0 then Returned(None)
    else if exists i :: 0 <= i < |rows| && !IsActive(s, rows[i].room) then
      Threw(InactiveParticipation)
    else Returned(Some(RoomsOfRows(rows)))
  }
}
