/** Properties relating the booking operations to each other and to the store's
    invariants: what a successful booking writes, that the no-double-booking rule and
    well-formedness survive every call, and how the operations compose. */
module BookingFacts {
  import opened Wrappers
  import opened Validators
  import opened Store
  import opened Booking
  import DateTime

  lemma {:induction false} RowsOfAppend(rows: seq<Participant>, p: Participant, user: UserId)
    ensures RowsOf(rows + [p], user) == RowsOf(rows, user) + (if p.user == user then [p] else [])
  {
    if |rows| > 0 {
      RowsOfAppend(rows[1..], p, user);
      assert (rows + [p])[1..] == rows[1..] + [p];
    }
  }

  /** A successful createRoom adds exactly one row, for the owner and the new room, whose
      id was free and whose meeting time is the parsed one; no other user's rows change and
      no existing room changes. */
  lemma CreateRoomAddsOneRow(cat: Catalog, s: Store, userId: UserId, req: RoomRequest)
    requires Wf(s)
    requires CreateRoom(cat, s, userId, req).Returned?
    requires CreateRoom(cat, s, userId, req).value.code >= 0
    ensures var step := CreateRoom(cat, s, userId, req).value;
      && step.code >= 1 && step.code !in s.rooms
      && step.store.rooms[step.code].meetTime == DateTime.ParseTime(req.meetTime).value
      && step.store.rooms[step.code].owner == userId
      && (forall id :: id in s.rooms ==> id in step.store.rooms && step.store.rooms[id] == s.rooms[id])
      && UserParts(step.store, userId) == UserParts(s, userId) + [Participant(userId, step.code)]
      && (forall other :: other != userId ==> UserParts(step.store, other) == UserParts(s, other))
  {
    var step := CreateRoom(cat, s, userId, req).value;
    RowsOfAppend(s.participants, Participant(userId, step.code), userId);
    forall other | other != userId
      ensures UserParts(step.store, other) == UserParts(s, other)
    {
      RowsOfAppend(s.participants, Participant(userId, step.code), other);
    }
  }

  /** Every outcome of createRoom keeps the store well formed and keeps the rule that a
      user's active rooms are more than an hour apart. */
  lemma CreateRoomPreservesInvariants(cat: Catalog, s: Store, userId: UserId, req: RoomRequest)
    requires Wf(s) && Separated(s)
    requires CreateRoom(cat, s, userId, req).Returned?
    ensures Wf(CreateRoom(cat, s, userId, req).value.store)
    ensures Separated(CreateRoom(cat, s, userId, req).value.store)
  {
    if CreateRoom(cat, s, userId, req).value.code >= 0 {
      SavedRoomKeepsInvariants(s, userId, DateTime.ParseTime(req.meetTime).value, req);
    }
  }

  /** Saving a room whose time fits every row of its owner keeps both invariants. */
  lemma SavedRoomKeepsInvariants(s: Store, userId: UserId, t: int, req: RoomRequest)
    requires Wf(s) && Separated(s)
    requires forall i :: 0 <= i < |UserParts(s, userId)| ==> Fits(s, UserParts(s, userId)[i], t)
    ensures Wf(WithRoom(s, userId, t, req)) && Separated(WithRoom(s, userId, t, req))
  {
    var n := WithRoom(s, userId, t, req);
    var rows := UserParts(s, userId);
    forall i, j | 0 <= i < j < |n.participants|
      && n.participants[i].user == n.participants[j].user
      && IsActive(n, n.participants[i].room) && IsActive(n, n.participants[j].room)
      ensures IsValidTime(n.rooms[n.participants[i].room].meetTime,
                          n.rooms[n.participants[j].room].meetTime)
    {
      var p := n.participants[i];
      assert p == s.participants[i];
      if j < |s.participants| {
        assert n.participants[j] == s.participants[j];
      } else {
        assert p in rows;
        var k :| 0 <= k < |rows| && rows[k] == p;
        assert Fits(s, rows[k], t);
      }
    }
  }

  /** The corrected createRoom keeps both invariants on every outcome as well. */
  lemma CreateRoomCheckedPreservesInvariants(cat: Catalog, s: Store, userId: UserId,
                                             req: RoomRequest)
    requires Wf(s) && Separated(s)
    requires CreateRoomChecked(cat, s, userId, req).Returned?
    ensures Wf(CreateRoomChecked(cat, s, userId, req).value.store)
    ensures Separated(CreateRoomChecked(cat, s, userId, req).value.store)
  {
    if DateTime.ParseTime(req.meetTime).Some? {
      CreateRoomPreservesInvariants(cat, s, userId, req);
    }
  }

  /** A successful enterRoom adds exactly the row linking the user to the room, and the
      user was not linked to that room before: entering a room twice never succeeds,
      because a room's own meeting time always clashes with itself. */
  lemma EnterRoomAddsNewRow(s: Store, userId: UserId, roomId: string)
    requires EnterRoom(s, userId, roomId).Returned?
    requires EnterRoom(s, userId, roomId).value.code >= 0
    ensures var step := EnterRoom(s, userId, roomId).value;
      && !IsParticipant(s, step.code, userId)
      && IsParticipant(step.store, step.code, userId)
      && UserParts(step.store, userId) == UserParts(s, userId) + [Participant(userId, step.code)]
      && (forall other :: other != userId ==> UserParts(step.store, other) == UserParts(s, other))
  {
    var step := EnterRoom(s, userId, roomId).value;
    var rows := UserParts(s, userId);
    var p := Participant(userId, step.code);
    forall k | 0 <= k < |rows|
      ensures rows[k] != p
    {
      assert Fits(s, rows[k], s.rooms[step.code].meetTime);
    }
    RowsOfAppend(s.participants, p, userId);
    forall other | other != userId
      ensures UserParts(step.store, other) == UserParts(s, other)
    {
      RowsOfAppend(s.participants, p, other);
    }
  }

  /** Every outcome of enterRoom keeps the store well formed and keeps the
      no-double-booking rule. */
  lemma EnterRoomPreservesInvariants(s: Store, userId: UserId, roomId: string)
    requires Wf(s) && Separated(s)
    requires EnterRoom(s, userId, roomId).Returned?
    ensures Wf(EnterRoom(s, userId, roomId).value.store)
    ensures Separated(EnterRoom(s, userId, roomId).value.store)
  {
    var step := EnterRoom(s, userId, roomId).value;
    if step.code >= 0 {
      var n := step.store;
      var t := s.rooms[step.code].meetTime;
      var rows := UserParts(s, userId);
      forall i, j | 0 <= i < j < |n.participants|
        && n.participants[i].user == n.participants[j].user
        && IsActive(n, n.participants[i].room) && IsActive(n, n.participants[j].room)
        ensures IsValidTime(n.rooms[n.participants[i].room].meetTime,
                            n.rooms[n.participants[j].room].meetTime)
      {
        var p := n.participants[i];
        assert p == s.participants[i];
        if j < |s.participants| {
          assert n.participants[j] == s.participants[j];
        } else {
          assert p in rows;
          var k :| 0 <= k < |rows| && rows[k] == p;
          assert Fits(s, rows[k], t);
        }
      }
    }
  }

  /** A room created with the active status shows up, last, in the owner's own rooms. */
  lemma CreateThenSearchMine(cat: Catalog, s: Store, userId: UserId, req: RoomRequest)
    requires Wf(s)
    requires req.status == ActiveStatus
    requires CreateRoom(cat, s, userId, req).Returned?
    requires CreateRoom(cat, s, userId, req).value.code >= 0
    ensures var step := CreateRoom(cat, s, userId, req).value;
      SearchMyRooms(step.store, userId)
        == Returned(Some(RoomsOfRows(UserParts(s, userId)) + [step.code]))
  {
    var step := CreateRoom(cat, s, userId, req).value;
    var t := DateTime.ParseTime(req.meetTime).value;
    CreateRoomAddsOneRow(cat, s, userId, req);
    var rows := UserParts(s, userId);
    CreatedRowsActive(s, userId, t, req);
    RoomsOfRowsAppend(rows, Participant(userId, step.code));
    AllActiveListed(step.store, userId);
  }

  /** After a room with the active status is saved, every row of its owner points at an
      active room, provided every earlier row passed the conflict loop. */
  lemma CreatedRowsActive(s: Store, userId: UserId, t: int, req: RoomRequest)
    requires Wf(s)
    requires req.status == ActiveStatus
    requires forall i :: 0 <= i < |UserParts(s, userId)| ==> Fits(s, UserParts(s, userId)[i], t)
    ensures var n := WithRoom(s, userId, t, req);
      forall i :: 0 <= i < |UserParts(n, userId)| ==> IsActive(n, UserParts(n, userId)[i].room)
  {
    var n := WithRoom(s, userId, t, req);
    var rows := UserParts(s, userId);
    RowsOfAppend(s.participants, Participant(userId, NextId(s)), userId);
    var rows' := UserParts(n, userId);
    assert rows' == rows + [Participant(userId, NextId(s))];
    forall i | 0 <= i < |rows'|
      ensures IsActive(n, rows'[i].room)
    {
      if i < |rows| {
        assert rows'[i] == rows[i];
        assert Fits(s, rows[i], t);
        assert NextId(s) !in s.rooms;
      }
    }
  }

  lemma RoomsOfRowsAppend(rows: seq<Participant>, p: Participant)
    ensures RoomsOfRows(rows + [p]) == RoomsOfRows(rows) + [p.room]
  {
    assert forall i :: 0 <= i < |rows| ==> (rows + [p])[i] == rows[i];
  }

  /** A user with rows, all of whose rooms are active, sees every row's room listed. */
  lemma AllActiveListed(s: Store, userId: UserId)
    requires |UserParts(s, userId)| > 0
    requires forall i :: 0 <= i < |UserParts(s, userId)| ==> IsActive(s, UserParts(s, userId)[i].room)
    ensures SearchMyRooms(s, userId) == Returned(Some(RoomsOfRows(UserParts(s, userId))))
  {
  }

  /** Entering a room and then leaving it passes exitRoom's checks; exitRoom removes
      nothing, so the row stays. */
  lemma EnterThenExit(s: Store, userId: UserId, roomId: string)
    requires EnterRoom(s, userId, roomId).Returned?
    requires EnterRoom(s, userId, roomId).value.code >= 0
    ensures var step := EnterRoom(s, userId, roomId).value;
      ExitRoom(step.store, userId, roomId) == Step(ExitOk, step.store)
  {
    EnterRoomAddsNewRow(s, userId, roomId);
  }

  /** A user with a row whose room is not active can neither create nor enter a room
      past validation, nor list their rooms: each call ends in the failing Optional.get(). */
  lemma InactiveRowBlocksUser(cat: Catalog, s: Store, userId: UserId, req: RoomRequest,
                              roomId: string)
    requires exists i :: (0 <= i < |UserParts(s, userId)|
      && !IsActive(s, UserParts(s, userId)[i].room))
    ensures SearchMyRooms(s, userId) == Threw(InactiveParticipation)
    ensures Validated(cat, s, userId, req) ==>
      CreateRoom(cat, s, userId, req) == Threw(InactiveParticipation)
            || CreateRoom(cat, s, userId, req) == Returned(Step(TimeConflict, s))
    ensures EnterRoom(s, userId, roomId).Returned? ==> EnterRoom(s, userId, roomId).value.code < 0
  {
  }
}
