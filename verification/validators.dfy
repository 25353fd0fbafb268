/** The pure checks of the booking engine (RoomService.isValidTime, isParsableTime,
    isParsableRoomId, isInLocation, isInMenuName, paramsCheck) and the integer codes
    the engine returns. */
module Validators {
  import opened Wrappers
  import Decimal
  import Strings
  import DateTime

  /** The reserved input meaning "no constraint". */
  const Default := "default"
  const OneHour := DateTime.SecondsPerHour

  /** The codes documented on RoomService; a created or entered room's id is returned
      on success instead. */
  const ParseError := -1
  const TimeConflict := -2
  const UnknownUser := -3
  const InvalidEnum := -4
  const UnknownRoom := -5
  const NotAParticipant := -6
  const ExitOk := 1

  /** The constant names of the Location, MenuName and RoomStatus enums, in declaration
      order (the order MenuName.getNames lists them). */
  datatype Catalog = Catalog(locations: seq<string>, menus: seq<string>, statuses: seq<string>)

  /** isValidTime: whether a meeting at `time2` may be kept alongside one at `time1`. */
  function IsValidTime(time1: int, time2: int): (r: bool)
    ensures r <==> time1 - time2 > OneHour || time2 - time1 > OneHour
  {
    if time1 > time2 then time2 + OneHour < time1 else time1 + OneHour < time2
  }

  /** isParsableTime: the sentinel, or text the date-time pattern parses, which is the
      printed form of field values the resolver accepts. */
  function IsParsableTime(time: string): (r: bool)
    ensures r <==> (time == Default
      || exists f :: DateTime.Printable(f) && DateTime.Resolvable(f) && DateTime.Format(f) == time)
  {
    DateTime.ParseTimeExact(time);
    time == Default || DateTime.ParseTime(time).Some?
  }

  /** isParsableRoomId: the long the text spells, or -1 when Long.parseLong throws. */
  function IsParsableRoomId(roomId: string): (id: int)
    ensures Decimal.MinLong <= id <= Decimal.MaxLong
    ensures Decimal.ParseLong(roomId).None? ==> id == -1
    ensures Decimal.ParseLong(roomId).Some? ==> Decimal.ParseLong(roomId) == Some(id)
  {
    match Decimal.ParseLong(roomId)
    case Some(v) => v
    case None => -1
  }

  /** isInLocation: the sentinel, or a Location name up to case. */
  function IsInLocation(cat: Catalog, location: string): (r: bool)
    ensures r <==> (location == Default
      || exists j :: 0 <= j < |cat.locations| && Strings.EqualsIgnoreCase(cat.locations[j], location))
  {
    location == Default || Strings.FindIgnoreCase(cat.locations, location).Some?
  }

  /** isInMenuName: the sentinel, or text whose every comma-separated piece is a MenuName
      name up to case. */
  function IsInMenuName(cat: Catalog, menuName: string): (r: bool)
    ensures r <==> (menuName == Default
      || forall piece :: piece in Strings.JavaSplit(menuName, ',') ==>
           exists j :: 0 <= j < |cat.menus| && Strings.EqualsIgnoreCase(cat.menus[j], piece))
  {
    menuName == Default
    || forall piece :: piece in Strings.JavaSplit(menuName, ',') ==>
         Strings.FindIgnoreCase(cat.menus, piece).Some?
  }

  /** paramsCheck: the code of the first failing check, 0 when all pass. */
  function ParamsCheck(cat: Catalog, location: string, menu: string,
                       startTime: string, endTime: string): (code: int)
    ensures code in {0, InvalidEnum, ParseError}
    ensures code == InvalidEnum <==> !IsInLocation(cat, location) || !IsInMenuName(cat, menu)
    ensures code == ParseError <==>
      && IsInLocation(cat, location) && IsInMenuName(cat, menu)
      && (!IsParsableTime(startTime) || !IsParsableTime(endTime))
    ensures code == 0 <==>
      && IsInLocation(cat, location) && IsInMenuName(cat, menu)
      && IsParsableTime(startTime) && IsParsableTime(endTime)
  {
    if !IsInLocation(cat, location) then InvalidEnum
    else if !IsInMenuName(cat, menu) then InvalidEnum
    else if !IsParsableTime(startTime) then ParseError
    else if !IsParsableTime(endTime) then ParseError
    else 0
  }

  /** The separation rule is symmetric and holds exactly when the times are more than an
      hour apart either way; equal times and times exactly an hour apart always clash. */
  lemma IsValidTimeSymmetric(a: int, b: int)
    ensures IsValidTime(a, b) == IsValidTime(b, a)
    ensures !IsValidTime(a, a)
    ensures !IsValidTime(a, a + OneHour) && !IsValidTime(a + OneHour, a)
    ensures IsValidTime(a, a + OneHour + 1)
  {
  }

  /** The sentinel passes every check of paramsCheck. */
  lemma DefaultPassesParamsCheck(cat: Catalog)
    ensures ParamsCheck(cat, Default, Default, Default, Default) == 0
  {
  }

  /** Room ids round-trip: every long that Long.toString prints is read back as itself
      (so a printed negative id reads as negative, and "-1" is indistinguishable from
      a parse failure). */
  lemma RoomIdRoundTrip(n: int)
    requires Decimal.MinLong <= n <= Decimal.MaxLong
    ensures IsParsableRoomId(Decimal.LongToString(n)) == n
  {
    Decimal.ParseLongToString(n);
  }

  /** The texts isParsableRoomId answers -1 for: the empty text, a bare sign, a character
      other than a digit after the optional leading sign, and digits, unsigned or after
      either sign, spelling a number beyond the long range. */
  lemma RoomIdFailures(roomId: string)
    ensures |roomId| == 0 ==> IsParsableRoomId(roomId) == -1
    ensures roomId == "-" || roomId == "+" ==> IsParsableRoomId(roomId) == -1
    ensures |roomId| > 0 && roomId[0] != '-' && roomId[0] != '+' && !Decimal.IsDigit(roomId[0])
      ==> IsParsableRoomId(roomId) == -1
    ensures forall i :: (1 <= i < |roomId| && !Decimal.IsDigit(roomId[i])
                         ==> IsParsableRoomId(roomId) == -1)
    ensures Decimal.AllDigits(roomId) && Decimal.Value(roomId) > Decimal.MaxLong
      ==> IsParsableRoomId(roomId) == -1
    ensures |roomId| > 1 && roomId[0] == '+' && Decimal.AllDigits(roomId[1..])
      && Decimal.Value(roomId[1..]) > Decimal.MaxLong
      ==> IsParsableRoomId(roomId) == -1
    ensures |roomId| > 1 && roomId[0] == '-' && Decimal.AllDigits(roomId[1..])
      && Decimal.Value(roomId[1..]) > -Decimal.MinLong
      ==> IsParsableRoomId(roomId) == -1
  {
  }

  /** A menu list built from names of the catalog, each spelled in any case, separated by
      commas, passes isInMenuName; a list with one piece matching no name fails. */
  lemma MenuListAccepted(cat: Catalog, names: seq<string>)
    requires |names| >= 1 && names[|names| - 1] != ""
    requires forall i :: 0 <= i < |names| ==> ',' !in names[i]
    requires forall i :: 0 <= i < |names| ==> Strings.FindIgnoreCase(cat.menus, names[i]).Some?
    ensures IsInMenuName(cat, Strings.Join(names, ','))
  {
    Strings.JavaSplitJoin(names, ',');
  }

  lemma MenuListRejected(cat: Catalog, names: seq<string>, k: nat)
    requires |names| >= 1 && names[|names| - 1] != ""
    requires forall i :: 0 <= i < |names| ==> ',' !in names[i]
    requires k < |names| && Strings.FindIgnoreCase(cat.menus, names[k]).None?
    requires Strings.Join(names, ',') != Default
    ensures !IsInMenuName(cat, Strings.Join(names, ','))
  {
    Strings.JavaSplitJoin(names, ',');
    assert names[k] in Strings.JavaSplit(Strings.Join(names, ','), ',');
  }
}
