# Room booking engine — a Dafny model

This project models the room-booking engine of a meet-up back end: the `RoomService`
class that creates rooms, lets users enter and leave them, lists a user's own rooms and
searches rooms with filters. A room has an owner, a meeting time, a location, a status
and a set of menus. The engine's central rule is that a user may not hold two active
rooms whose meeting times are within an hour of each other. Failures are reported as
the integer codes documented on the class: -1 parse error, -2 time conflict, -3 unknown
user, -4 value outside an enum, -5 unknown room, -6 user not in the room. On success the
engine returns the room's id (or 1 for `exitRoom`).

The model is functional. The database is one immutable `Store` value holding users with
the bans they issued, rooms, participant rows in insertion order, and the last generated
room id. The validators are pure functions. `createRoom` and `enterRoom` return the code
and the store they leave behind, or `Threw(site)` where the Java code throws. A throw
rolls back the `@Transactional` request, so it carries no store. `exitRoom` returns its
code and the unchanged store. `searchRooms` takes the repository's paged query as a
function argument.

Modules, one per file:

- `Wrappers`: the `Option` type.
- `Decimal`: ASCII digit strings, `Long.parseLong` and `Long.toString`.
- `Strings`: case-insensitive enum lookup and Java's `String.split(",")`.
- `DateTime`: parsing with the pattern `yyyy-MM-dd HH:mm:ss` under java.time's SMART
  resolver, giving seconds on the proleptic Gregorian timeline. `LocalDateTime` has no
  zone, so `isAfter` is `>` on these counts (`DateTime.SecondsOrder`) and `plusHours(1)`
  adds 3600. A parsed text's count is the count of the date-time the resolver builds,
  after clamping the day or turning `24:00:00` into the next midnight
  (`DateTime.ResolvedSeconds`), so the comparison covers every parsed time.
- `Validators`: `isValidTime`, `isParsableTime`, `isParsableRoomId`, `isInLocation`,
  `isInMenuName`, `paramsCheck`, the result codes, and the enum catalog. The catalog's
  constant names are a parameter because the enums' values are not part of this model.
- `Store`: the store, its well-formedness, the repository lookups, and the
  no-double-booking invariant `Separated`.
- `Booking`: `createRoom`, `enterRoom`, `exitRoom`, `searchMyRooms`, and the conflict
  loop they share.
- `BookingFacts`: what each booking operation writes, that the invariants survive every
  operation, and how the operations compose.
- `Search`: `searchRooms`, `getMenuName`, `getRoomPage`, `composeDto`, `IsExcludedRoom`.
- `Scenarios`: concrete cases and edge cases of the code as written, including the
  11:00/12:00 example from `isValidTime`'s doc comment.

Behaviour of the code that the model keeps, where a reader might expect otherwise:

- `createRoom` parses the meeting time before its -1 check, so the -1 code is
  unreachable. A meeting time that does not parse throws instead, and so does `"default"`,
  which `isParsableTime` accepts. See Findings.
- `isValidTime` is false for times exactly one hour apart, because `isBefore` is strict.
  Its doc comment gives "11:00, 12:00 : true" as an example; the code returns false
  (`Scenarios.ElevenAndNoonClash`).
- Re-entering a room already joined never succeeds, because a room's time clashes with
  itself. It returns -2, or throws when that room or the room of an earlier row is not
  active (the `.get()` at line 152). So duplicate rows never arise from `enterRoom`.
- The menu check accepts names in any case, and an entry that is itself a comma list or
  `"default"`. `MenuName.valueOf` is case-sensitive and then throws on those entries. The
  same holds for the status and `RoomStatus.valueOf`.
- A user with a row whose room is not active cannot pass the conflict loop or list their
  rooms: `Optional.get()` throws. The code never checks the status of the room being
  entered, and `createRoom` accepts any `RoomStatus` name.
- The ban rule in `IsExcludedRoom` hides a room when one of its participants has banned
  the searching user. One might expect the opposite direction (hiding rooms that contain
  a user whom the searcher banned); the model follows the code (`Scenarios.BanDirection`).
- `enterRoom` never looks the user up (unlike `createRoom`'s -3 check), so entry by a
  user who is not stored succeeds like any other and stores a row for that id. The ban
  rule reads such a user as having banned nobody. Whether `partService.setParticipate`
  would then fail is outside this model.
- `paramsCheck` and `isInMenuName` accept `","`. Java's split drops every trailing empty
  piece, so the string splits into no pieces at all.

## Model

| member | source | states |
|---|---|---|
| Validators.IsValidTime | src/main/java/com/example/projectprototype/service/RoomService.java:278-284 | two meeting times may coexist exactly when they are more than one hour apart, in either order |
| Validators.IsValidTimeSymmetric | src/main/java/com/example/projectprototype/service/RoomService.java:273-284 | the rule is symmetric; equal times and an exactly-one-hour gap clash; one hour and one second does not |
| Scenarios.ElevenAndNoonClash | src/main/java/com/example/projectprototype/service/RoomService.java:273-284 | 11:00 and 12:00 on the same day clash, contrary to the doc comment's example |
| DateTime.DecodeFormat | src/main/java/com/example/projectprototype/service/RoomService.java:42 | reading the pattern's fields back from printed text gives the fields |
| DateTime.FormatDecode | src/main/java/com/example/projectprototype/service/RoomService.java:42 | any text the pattern's layout accepts is the printed form of the fields read from it |
| DateTime.ParseTimeExact | src/main/java/com/example/projectprototype/service/RoomService.java:286-295 | the parse succeeds exactly on printed forms of field values the SMART resolver accepts |
| DateTime.ParseFormat | src/main/java/com/example/projectprototype/service/RoomService.java:289 | every date-time with a four-digit year prints to text that parses back to that instant |
| DateTime.SecondsOrder | src/main/java/com/example/projectprototype/service/RoomService.java:279-282 | LocalDateTime order (field by field) is the order of second counts, and equal counts mean equal date-times |
| DateTime.ResolvedSeconds | src/main/java/com/example/projectprototype/service/RoomService.java:56 | the instant a resolvable text parses to is the second count of the date-time the SMART resolver builds: the day clamped to the month's length, and 24:00:00 moved to midnight of the next day, month or year |
| DateTime.ParseTimeIsSeconds | src/main/java/com/example/projectprototype/service/RoomService.java:56 | every parsed instant is the second count of some LocalDateTime (year at most 10000), so the order lemma applies to parsed times |
| Decimal.ParseLong | src/main/java/com/example/projectprototype/service/RoomService.java:299 | a parsed id always lies in the range of a long |
| Decimal.ParseLongToString | src/main/java/com/example/projectprototype/service/RoomService.java:299 | Long.parseLong reads back every long Long.toString prints |
| Validators.IsParsableRoomId | src/main/java/com/example/projectprototype/service/RoomService.java:297-304 | the result is always a long: the value Long.parseLong reads when it succeeds, and -1 when it throws |
| Validators.RoomIdFailures | src/main/java/com/example/projectprototype/service/RoomService.java:297-304 | -1 for the empty text, a bare sign, a non-digit after the optional leading sign, and digits beyond the long range, whether unsigned, after '+', or after '-' with a magnitude above 2^63 |
| Validators.RoomIdRoundTrip | src/main/java/com/example/projectprototype/service/RoomService.java:297-304 | a printed id is read back as itself, so "-1" cannot be told apart from a failed parse |
| Strings.FindIgnoreCase | src/main/java/com/example/projectprototype/service/RoomService.java:310 | the lookup finds the first enum name equal to the text up to case, and fails exactly when no name matches |
| Strings.JavaSplitJoin | src/main/java/com/example/projectprototype/service/RoomService.java:322 | comma-free names whose last is not empty split back into exactly those names once joined with commas |
| Strings.JavaSplitKeepsPrefix | src/main/java/com/example/projectprototype/service/RoomService.java:220 | Java's split keeps a prefix of the pieces, drops only empty ones, and the pieces rejoin to the input |
| Validators.MenuListAccepted | src/main/java/com/example/projectprototype/service/RoomService.java:319-331 | a comma list of menu names, each in any case, passes the menu check |
| Validators.MenuListRejected | src/main/java/com/example/projectprototype/service/RoomService.java:319-331 | a comma list with one piece matching no menu name fails the menu check |
| Validators.IsParsableTime | src/main/java/com/example/projectprototype/service/RoomService.java:286-295 | "default" or exactly the printed forms of field values the SMART resolver accepts |
| Validators.IsInLocation | src/main/java/com/example/projectprototype/service/RoomService.java:307-316 | "default" or a text equal to some Location constant name up to ASCII case |
| Validators.IsInMenuName | src/main/java/com/example/projectprototype/service/RoomService.java:319-331 | "default" or a text whose every piece under Java's split on commas equals some MenuName constant name up to ASCII case |
| Validators.ParamsCheck | src/main/java/com/example/projectprototype/service/RoomService.java:264-271 | -4 exactly when the location or the menu check fails; -1 exactly when both pass and a time bound does not parse; 0 exactly when all four pass |
| Validators.DefaultPassesParamsCheck | src/main/java/com/example/projectprototype/service/RoomService.java:264-271 | "default" passes every check of paramsCheck |
| Store.RowsOf | src/main/java/com/example/projectprototype/service/RoomService.java:66 | a user's rows are exactly the participant rows naming that user |
| Booking.FirstMisfit | src/main/java/com/example/projectprototype/service/RoomService.java:74-80 | the conflict loop stops at the first row whose room is inactive or whose time clashes; every earlier row fits |
| Booking.CheckConflicts | src/main/java/com/example/projectprototype/service/RoomService.java:150-158 | the loop passes exactly when every row's room is active and far enough away; it throws when the first misfit is inactive; it reports a conflict when the first misfit is active but clashes |
| Booking.CreateRoom | src/main/java/com/example/projectprototype/service/RoomService.java:55-86 | throws exactly when the meeting time does not parse and never returns -1; then -3, then -4 in order; -2 exactly on a clash; nothing is written on failure; after validation, throws at the inactive row exactly when the loop meets one first, then at RoomStatus.valueOf exactly when the status is not a constant name, then at MenuName.valueOf exactly when a menu is not; success exactly when every check passes, returning the next id and saving the room with the owner's row |
| Booking.CreateRoomChecked | src/main/java/com/example/projectprototype/service/RoomService.java:56-58 | corrected createRoom: returns -1 exactly when the meeting time does not parse, never throws for it, and otherwise behaves as createRoom |
| Booking.EnterRoom | src/main/java/com/example/projectprototype/service/RoomService.java:140-163 | -1 exactly when the id does not parse or is negative; -5 exactly when no room has it; -2 exactly when the loop meets a clash first; a throw exactly when it meets an inactive row first; success exactly when every row fits, returning the id and appending one row |
| Booking.ExitRoom | src/main/java/com/example/projectprototype/service/RoomService.java:165-180 | returns -1, -5 or -6 in that order, and 1 exactly when the user has a row for the room; the store never changes |
| Booking.SearchMyRooms | src/main/java/com/example/projectprototype/service/RoomService.java:92-113 | None exactly when the user has no rows; throws exactly when one of their rooms is not active; otherwise lists each row's room in row order |
| BookingFacts.CreateRoomAddsOneRow | src/main/java/com/example/projectprototype/service/RoomService.java:82-85 | a created room takes a fresh positive id, has the parsed time and the owner, leaves existing rooms alone, and adds exactly one row, to the owner's rows only |
| BookingFacts.CreateRoomPreservesInvariants | src/main/java/com/example/projectprototype/service/RoomService.java:66-85 | every outcome of createRoom keeps the store well formed and no user's active rooms within an hour of each other |
| BookingFacts.SavedRoomKeepsInvariants | src/main/java/com/example/projectprototype/service/RoomService.java:74-85 | saving a room whose time fits every row of its owner keeps the store well formed and every user's active rooms more than an hour apart |
| BookingFacts.CreatedRowsActive | src/main/java/com/example/projectprototype/service/RoomService.java:74-85 | after an active room is saved for an owner whose rows all passed the conflict loop, every row of that owner points at an active room |
| BookingFacts.CreateRoomCheckedPreservesInvariants | src/main/java/com/example/projectprototype/service/RoomService.java:55-86 | the corrected createRoom keeps both invariants too |
| BookingFacts.EnterRoomAddsNewRow | src/main/java/com/example/projectprototype/service/RoomService.java:149-162 | a successful entry adds exactly one row, which did not exist before, to that user's rows only |
| BookingFacts.EnterRoomPreservesInvariants | src/main/java/com/example/projectprototype/service/RoomService.java:149-162 | every outcome of enterRoom keeps both invariants |
| BookingFacts.CreateThenSearchMine | src/main/java/com/example/projectprototype/service/RoomService.java:82-113 | a room created with the active status is listed last among the owner's rooms |
| BookingFacts.EnterThenExit | src/main/java/com/example/projectprototype/service/RoomService.java:161-179 | after entering a room, exiting it returns 1 and removes nothing |
| BookingFacts.InactiveRowBlocksUser | src/main/java/com/example/projectprototype/service/RoomService.java:75 | with one inactive room among their rows, a user's own listing throws, a validated creation throws or reports a clash, and no entry succeeds |
| Search.KeywordPattern | src/main/java/com/example/projectprototype/service/RoomService.java:125-128 | "default" becomes the match-anything pattern; any other keyword is wrapped in '%' and unwrapping gives it back |
| Search.LocationPattern | src/main/java/com/example/projectprototype/service/RoomService.java:129 | "default" becomes the match-anything pattern and any other location is kept |
| Search.GetMenuName | src/main/java/com/example/projectprototype/service/RoomService.java:214-225 | "default" gives every menu name in enum order; otherwise comma-free pieces |
| Search.GetRoomPage | src/main/java/com/example/projectprototype/service/RoomService.java:202-212 | the untimed query is chosen exactly when either bound is "default"; the other arguments pass through |
| Search.AllDefaultQuery | src/main/java/com/example/projectprototype/service/RoomService.java:121-133 | with every filter at "default" the search is the untimed match-anything query over all menu names |
| Search.QueryCarriesFilters | src/main/java/com/example/projectprototype/service/RoomService.java:121-133 | a comma list of names reaches the query as exactly those names, and two given bounds select the timed query |
| Search.Visible | src/main/java/com/example/projectprototype/service/RoomService.java:182-188 | a room is visible exactly when it is on the page and none of its participants banned the searching user |
| Search.VisibleIsOrderedSubsequence | src/main/java/com/example/projectprototype/service/RoomService.java:182-188 | the visible rooms come from increasing positions of the page |
| Search.VisibleCounts | src/main/java/com/example/projectprototype/service/RoomService.java:182-188 | the filter works per occurrence: a room no participant's ban hides appears as often as on the page, a hidden one never |
| Search.IsExcludedRoom | src/main/java/com/example/projectprototype/service/RoomService.java:191-200 | the nested loop answers true exactly when some participant row of the room belongs to a user who banned the searcher |
| Search.ComposeDto | src/main/java/com/example/projectprototype/service/RoomService.java:182-188 | the loop keeps exactly the visible rooms of the page, in page order |
| Search.SearchRooms | src/main/java/com/example/projectprototype/service/RoomService.java:121-138 | the result is the visible part of the page the repository returns for the normalised query |
| Scenarios.CreateRoomClashes | src/main/java/com/example/projectprototype/service/RoomService.java:74-79 | a room at 10:30 clashes with the user's room at 10:00 and writes nothing |
| Scenarios.CreateRoomSucceeds | src/main/java/com/example/projectprototype/service/RoomService.java:82-85 | a room at 11:30:01 next to one at 10:00 is created with the next id |
| Scenarios.LowerCaseMenuThrows | src/main/java/com/example/projectprototype/service/RoomService.java:240 | a menu name in lower case passes the check and then throws at MenuName.valueOf |
| Scenarios.EnterRoomSamples | src/main/java/com/example/projectprototype/service/RoomService.java:140-163 | "abc" and "-1" give -1, an absent id gives -5, re-entering gives -2, a first entry returns the id |
| Scenarios.ExitRoomSamples | src/main/java/com/example/projectprototype/service/RoomService.java:165-180 | a non-participant gets -6 and a participant gets 1, with the store unchanged |
| Scenarios.MenuCommaPasses | src/main/java/com/example/projectprototype/service/RoomService.java:319-331 | a lone comma passes the menu check |
| Scenarios.MenuTrailingCommaPasses | src/main/java/com/example/projectprototype/service/RoomService.java:319-331 | a trailing comma is ignored by the menu check |
| Scenarios.MenuEmptyFails | src/main/java/com/example/projectprototype/service/RoomService.java:319-331 | the empty string fails the menu check |
| Scenarios.MenuEmptyPieceFails | src/main/java/com/example/projectprototype/service/RoomService.java:319-331 | an empty piece between two names fails the menu check |
| Scenarios.UnparsableMeetTimeThrows | src/main/java/com/example/projectprototype/service/RoomService.java:56-58 | "default" passes isParsableTime, yet it and "10:30" make createRoom throw instead of returning -1 |
| Scenarios.UnparsableMeetTimeReported | src/main/java/com/example/projectprototype/service/RoomService.java:56-58 | the corrected createRoom returns -1 for "10:30" and writes nothing |
| Scenarios.BanDirection | src/main/java/com/example/projectprototype/service/RoomService.java:191-200 | a participant's ban of the searcher hides the room; the searcher's own ban hides nothing |

## Left out

- Search.GetMenuName: `MenuName.getNames` is assumed to list the enum's constant names in
  declaration order, the same names `findEnumInsensitiveCase` and `MenuName.valueOf`
  match; its code and the `MenuName` enum are not part of this model.
- Store.RowsOf: `findByUserId` is a derived query without an ORDER BY, so the database
  may return a user's rows in any order; the model fixes insertion order. For a user with
  both an inactive row and a clashing row, whether createRoom and enterRoom throw or
  return -2 depends on that order, and so does the order of `searchMyRooms`'s list.
- Booking.CreateRoom: the new room's id is modelled as the last id plus one. An id the
  database hands out to an insert that is later rolled back (the room is saved at line
  235 before `MenuName.valueOf` at line 240 can throw) is not modelled as consumed.
- LoginService (OAuth token exchange, profile lookup, sessions): an interface with no logic.
- The repository queries `SearchRoomsWithTime` and `SearchRoomsWithoutTime`: SQL `LIKE`
  matching, time-window filtering, pagination and ordering are defined outside
  `RoomService`. `Search.SearchRooms` takes the repository as a function from query to
  page. The `Pageable` argument is part of that function.
- DTO conversion (`roomMapper.toEntity`/`toDto`, `userService.convertToUserDto`,
  `convertToRoomDTO`): mapping code that is not part of this model. Results are the ids of
  the converted rooms, one per kept room or per participant row. A throw inside
  `roomMapper.toEntity` is not modelled.
- The collaborators are modelled by assumption. `userService.userIdCheck` is "the user is
  stored". `partService.setParticipate` appends one row. `partService.isParticipant` is
  "a row exists". `menuRepository.findByName` is not modelled. ParticipantService and
  UserService are not part of this model.
- The `RoomMenu` links are kept as the room's list of menu names rather than as separate
  rows.
- `@Transactional` itself, `printStackTrace` logging, and the check-then-act race between
  concurrent requests: framework, I/O and concurrency concerns. Calls are sequential, and
  a throw leaves no store behind.
- Null arguments: Java throws `NullPointerException` on them. Strings and lists here are
  values.
- java.time details beyond the fixed-width pattern: years written with a '+' sign and more
  than four digits are not accepted by `DateTime.ParseTime`. Day-of-month clamping,
  year-of-era at least 1, and `24:00:00` are modelled.
- `Decimal.ParseLong`: accepts ASCII digits only. `Long.parseLong` also accepts other
  Unicode decimal digits.
- `Strings.EqualsIgnoreCase`: folds ASCII letters only. `compareToIgnoreCase` also folds
  some non-ASCII letters (a dotless i, a long s, the Kelvin sign) onto ASCII ones.
- The intents written only as comments: capacity, an active-status check on entry,
  removing the participant on exit, owner hand-off, closing a room at zero participants,
  leaving the rooms the user already joined out of `searchRooms`' result (line 135), and
  filtering `searchMyRooms` by room status (line 91). There is no code to model; the model
  follows the code, so a joined room can appear in a search and `searchMyRooms` throws on
  an inactive room instead of leaving it out.
- The date check on room creation that the comments ask for ("a time before now must
  fail"): not implemented in the code; the clock is not part of this model.

## Findings

| source | as written | input that shows it | evidently intended | confidence | as-written member | corrected member |
|---|---|---|---|---|---|---|
| src/main/java/com/example/projectprototype/service/RoomService.java:56-58 | the meeting time is parsed before the `isParsableTime` check, so text that does not parse throws DateTimeParseException and the documented -1 is never returned | `createRoom` with meeting time "10:30" (or "default") | return -1, the documented parse-error code | medium; not executed | Booking.CreateRoom (Scenarios.UnparsableMeetTimeThrows) | Booking.CreateRoomChecked (Scenarios.UnparsableMeetTimeReported, BookingFacts.CreateRoomCheckedPreservesInvariants) |
