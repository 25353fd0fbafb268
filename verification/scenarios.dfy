/** Concrete cases and edge cases of the booking engine's code as written; ElevenAndNoonClash
    is the example from isValidTime's doc comment. */
module Scenarios {
  import opened Wrappers
  import opened Validators
  import opened Store
  import opened Booking
  import Decimal
  import Strings
  import DateTime
  import Search

  /** A clock time on 2024-01-01. */
  function At(hour: int, minute: int, second: int): DateTime.Fields {
    DateTime.Fields(2024, 1, 1, hour, minute, second)
  }

  /** Seconds on 2024-01-01 are midnight's count plus the clock time. */
  lemma ClockSeconds(hour: int, minute: int, second: int)
    requires 0 <= hour <= 23 && 0 <= minute <= 59 && 0 <= second <= 59
    ensures DateTime.CalendarValid(At(hour, minute, second))
    ensures DateTime.Seconds(At(hour, minute, second))
      == DateTime.DayNumber(2024, 1, 1) * DateTime.SecondsPerDay
         + hour * DateTime.SecondsPerHour + minute * 60 + second
  {
  }

  lemma YearPad()
    ensures Decimal.Pad(2024, 4) == "2024"
  {
    assert Decimal.Pad(2, 1) == "2" && Decimal.Pad(20, 2) == "20";
    assert Decimal.Pad(202, 3) == "202";
  }

  /** The two-digit fields the samples use. */
  lemma ClockPads()
    ensures Decimal.Pad(0, 2) == "00" && Decimal.Pad(1, 2) == "01"
    ensures Decimal.Pad(10, 2) == "10" && Decimal.Pad(11, 2) == "11"
    ensures Decimal.Pad(12, 2) == "12" && Decimal.Pad(30, 2) == "30"
  {
    assert Decimal.Pad(0, 1) == "0" && Decimal.Pad(1, 1) == "1";
    assert Decimal.Pad(3, 1) == "3";
  }

  /** The text of a clock time on 2024-01-01, field by field. */
  lemma PrintedOnNewYear(hour: int, minute: int, second: int)
    requires 0 <= hour < 24 && 0 <= minute < 60 && 0 <= second < 60
    ensures DateTime.Format(At(hour, minute, second))
      == "2024" + "-" + "01" + "-" + "01" + " " + Decimal.Pad(hour, 2) + ":"
         + Decimal.Pad(minute, 2) + ":" + Decimal.Pad(second, 2)
  {
    YearPad();
    ClockPads();
  }

  /** A sample text parses to the instant its clock fields name. */
  lemma ParseAt(hour: int, minute: int, second: int, text: string)
    requires 0 <= hour < 24 && 0 <= minute < 60 && 0 <= second < 60
    requires text == "2024" + "-" + "01" + "-" + "01" + " " + Decimal.Pad(hour, 2) + ":"
                     + Decimal.Pad(minute, 2) + ":" + Decimal.Pad(second, 2)
    ensures DateTime.ParseTime(text) == Some(DateTime.Seconds(At(hour, minute, second)))
  {
    PrintedOnNewYear(hour, minute, second);
    DateTime.ParseFormat(At(hour, minute, second));
  }

  lemma ParseEleven()
    ensures DateTime.ParseTime("2024-01-01 11:00:00") == Some(DateTime.Seconds(At(11, 0, 0)))
  {
    ClockPads();
    assert "2024-01-01 11:00:00" == "2024" + "-" + "01" + "-" + "01" + " " + "11" + ":" + "00"
                                    + ":" + "00";
    ParseAt(11, 0, 0, "2024-01-01 11:00:00");
  }

  lemma ParseNoon()
    ensures DateTime.ParseTime("2024-01-01 12:00:00") == Some(DateTime.Seconds(At(12, 0, 0)))
  {
    ClockPads();
    assert "2024-01-01 12:00:00" == "2024" + "-" + "01" + "-" + "01" + " " + "12" + ":" + "00"
                                    + ":" + "00";
    ParseAt(12, 0, 0, "2024-01-01 12:00:00");
  }

  lemma ElevenAndNoonClash()
    ensures DateTime.ParseTime("2024-01-01 11:00:00")
      == Some(DateTime.Seconds(DateTime.Fields(2024, 1, 1, 11, 0, 0)))
    ensures DateTime.ParseTime("2024-01-01 12:00:00")
      == Some(DateTime.Seconds(DateTime.Fields(2024, 1, 1, 12, 0, 0)))
    ensures !IsValidTime(DateTime.ParseTime("2024-01-01 11:00:00").value,
                         DateTime.ParseTime("2024-01-01 12:00:00").value)
  {
    ParseEleven();
    ParseNoon();
  }

  /** An illustrative catalog; the enums' real constant names play no role in the rules. */
  const Cat := Catalog(["GAEPO", "SEOCHO"], ["KOREAN", "CHINESE"], ["active", "closed"])

  /** 2024-01-01 10:00:00. */
  function Ten(): int {
    DateTime.Seconds(At(10, 0, 0))
  }

  /** "amy" is committed to room 1 at 2024-01-01 10:00:00; "bob" has no rows. */
  function AmyBooked(): Store {
    Store(map["amy" := User([]), "bob" := User([])],
          map[1 := Room("amy", Ten(), "GAEPO", ActiveStatus, ["KOREAN"])],
          [Participant("amy", 1)], 1)
  }

  function Request(meetTime: string, menus: seq<string>): RoomRequest {
    RoomRequest(meetTime, "gaepo", menus, ActiveStatus)
  }

  lemma ParseTenThirty()
    ensures DateTime.ParseTime("2024-01-01 10:30:00") == Some(DateTime.Seconds(At(10, 30, 0)))
  {
    ClockPads();
    assert "2024-01-01 10:30:00" == "2024" + "-" + "01" + "-" + "01" + " " + "10" + ":" + "30"
                                    + ":" + "00";
    ParseAt(10, 30, 0, "2024-01-01 10:30:00");
  }

  lemma ParseElevenThirtyOne()
    ensures DateTime.ParseTime("2024-01-01 11:30:01") == Some(DateTime.Seconds(At(11, 30, 1)))
  {
    ClockPads();
    assert "2024-01-01 11:30:01" == "2024" + "-" + "01" + "-" + "01" + " " + "11" + ":" + "30"
                                    + ":" + "01";
    ParseAt(11, 30, 1, "2024-01-01 11:30:01");
  }

  /** "amy" holds exactly one row, for room 1, which is active and meets at 10:00;
      "bob" holds none. */
  lemma AmyRows()
    ensures UserParts(AmyBooked(), "amy") == [Participant("amy", 1)]
    ensures UserParts(AmyBooked(), "bob") == []
    ensures IsActive(AmyBooked(), 1) && AmyBooked().rooms[1].meetTime == Ten()
  {
    var rows := AmyBooked().participants;
    assert rows[1..] == [];
  }

  lemma LocationSample()
    ensures IsInLocation(Cat, "gaepo")
  {
    assert Strings.EqualsIgnoreCase("GAEPO", "gaepo");
  }

  lemma MenuSamples()
    ensures IsInMenuName(Cat, "KOREAN") && IsInMenuName(Cat, "korean")
    ensures "korean" !in Cat.menus
  {
    assert Strings.JavaSplit("KOREAN", ',') == ["KOREAN"];
    assert Strings.JavaSplit("korean", ',') == ["korean"];
    assert Strings.EqualsIgnoreCase("KOREAN", "KOREAN");
    assert Strings.EqualsIgnoreCase("KOREAN", "korean");
  }

  /** The requests below pass createRoom's validation. */
  lemma RequestValidated(meetTime: string, menu: string)
    requires DateTime.ParseTime(meetTime).Some?
    requires menu == "KOREAN" || menu == "korean"
    ensures Validated(Cat, AmyBooked(), "amy", Request(meetTime, [menu]))
  {
    LocationSample();
    MenuSamples();
  }

  /** Half an hour after a room the user is in clashes. */
  lemma CreateRoomClashes()
    ensures CreateRoom(Cat, AmyBooked(), "amy", Request("2024-01-01 10:30:00", ["KOREAN"]))
      == Returned(Step(TimeConflict, AmyBooked()))
  {
    TenThirtyClashes();
    RequestValidated("2024-01-01 10:30:00", "KOREAN");
  }

  /** 10:30 parses, and Amy's room at 10:00 lies within the hour. */
  lemma TenThirtyClashes()
    ensures DateTime.ParseTime("2024-01-01 10:30:00") == Some(Ten() + 1800)
    ensures CheckConflicts(AmyBooked(), UserParts(AmyBooked(), "amy"), Ten() + 1800) == Conflict
  {
    ParseTenThirty();
    ClockSeconds(10, 30, 0);
    ClockSeconds(10, 0, 0);
    AmyRows();
    assert !IsValidTime(Ten(), Ten() + 1800);
    assert FirstMisfit(AmyBooked(), [Participant("amy", 1)], Ten() + 1800) == 0;
  }

  /** What createRoom does once validation and the conflict loop pass: the status and the
      menu names decide between the two throws and a new room. */
  lemma PastTheChecks(cat: Catalog, s: Store, userId: UserId, req: RoomRequest, t: int)
    requires Validated(cat, s, userId, req)
    requires DateTime.ParseTime(req.meetTime) == Some(t)
    requires CheckConflicts(s, UserParts(s, userId), t) == Clear
    requires req.status in cat.statuses
    ensures CreateRoom(cat, s, userId, req)
      == if exists i :: 0 <= i < |req.menus| && req.menus[i] !in cat.menus
         then Threw(UnknownMenu)
         else Returned(Step(NextId(s), WithRoom(s, userId, t, req)))
  {
  }

  /** 11:30:01 parses, and Amy's room at 10:00 lies more than an hour before it. */
  lemma ElevenThirtyOneIsClear()
    ensures DateTime.ParseTime("2024-01-01 11:30:01") == Some(Ten() + 5401)
    ensures CheckConflicts(AmyBooked(), UserParts(AmyBooked(), "amy"), Ten() + 5401) == Clear
  {
    ParseElevenThirtyOne();
    ClockSeconds(11, 30, 1);
    ClockSeconds(10, 0, 0);
    AmyRows();
    assert Fits(AmyBooked(), Participant("amy", 1), Ten() + 5401);
  }

  /** An hour and a half and a second later does not clash, and the new room gets the
      next id. */
  lemma CreateRoomSucceeds()
    ensures var r := CreateRoom(Cat, AmyBooked(), "amy", Request("2024-01-01 11:30:01", ["KOREAN"]));
      r.Returned? && r.value.code == 2
  {
    ElevenThirtyOneIsClear();
    var req := Request("2024-01-01 11:30:01", ["KOREAN"]);
    RequestValidated(req.meetTime, "KOREAN");
    assert forall i :: 0 <= i < |req.menus| ==> req.menus[i] in Cat.menus;
    PastTheChecks(Cat, AmyBooked(), "amy", req, Ten() + 5401);
  }

  /** The same request naming the menu in lower case passes the case-insensitive check
      and then throws at the case-sensitive MenuName.valueOf. */
  lemma LowerCaseMenuThrows()
    ensures CreateRoom(Cat, AmyBooked(), "amy", Request("2024-01-01 11:30:01", ["korean"]))
      == Threw(UnknownMenu)
  {
    ElevenThirtyOneIsClear();
    MenuSamples();
    var req := Request("2024-01-01 11:30:01", ["korean"]);
    RequestValidated(req.meetTime, "korean");
    assert req.menus[0] !in Cat.menus;
    PastTheChecks(Cat, AmyBooked(), "amy", req, Ten() + 5401);
  }

  /** A room id that is not a number, one that names no room, re-entering a room already
      joined, and a first entry. */
  lemma EnterRoomSamples()
    ensures EnterRoom(AmyBooked(), "bob", "abc") == Returned(Step(ParseError, AmyBooked()))
    ensures EnterRoom(AmyBooked(), "bob", "-1") == Returned(Step(ParseError, AmyBooked()))
    ensures EnterRoom(AmyBooked(), "bob", "7") == Returned(Step(UnknownRoom, AmyBooked()))
    ensures EnterRoom(AmyBooked(), "amy", "1") == Returned(Step(TimeConflict, AmyBooked()))
    ensures EnterRoom(AmyBooked(), "bob", "1").value.code == 1
  {
    IdSamples();
    AmyRows();
    assert !Fits(AmyBooked(), Participant("amy", 1), Ten());
  }

  lemma IdSamples()
    ensures IsParsableRoomId("abc") == -1 && IsParsableRoomId("-1") == -1
    ensures IsParsableRoomId("7") == 7 && IsParsableRoomId("1") == 1
  {
    assert Decimal.ParseLong("abc") == None by {
      assert !Decimal.IsDigit("abc"[0]);
    }
    assert Decimal.ParseLong("-1") == Some(-1) by {
      assert "-1"[1..] == "1";
    }
    assert Decimal.ParseLong("7") == Some(7);
    assert Decimal.ParseLong("1") == Some(1);
  }

  /** exitRoom reports, and changes nothing. */
  lemma ExitRoomSamples()
    ensures ExitRoom(AmyBooked(), "bob", "1") == Step(NotAParticipant, AmyBooked())
    ensures ExitRoom(AmyBooked(), "amy", "1") == Step(ExitOk, AmyBooked())
  {
    IdSamples();
  }

  /** Edge cases of the menu check as written: a lone comma splits into no pieces and
      passes, and trailing empty pieces are dropped. */
  lemma MenuCommaPasses()
    ensures IsInMenuName(Cat, ",")
  {
    assert Strings.SplitAll(",", ',') == ["", ""];
    assert Strings.JavaSplit(",", ',') == [] by {
      assert ","[0] == ',';
    }
  }

  lemma MenuTrailingCommaPasses()
    ensures IsInMenuName(Cat, "KOREAN,")
  {
    TrailingCommaSplit();
    MenuSamples();
  }

  lemma TrailingCommaSplit()
    ensures Strings.JavaSplit("KOREAN,", ',') == ["KOREAN"]
  {
    assert Strings.SplitAll("KOREAN,", ',') == ["KOREAN", ""] by {
      Strings.SplitAllPrefix("KOREAN", "", ',');
      assert "KOREAN" + [','] + "" == "KOREAN,";
      Strings.SplitAllNoSep("", ',');
    }
    assert "KOREAN,"[6] == ',';
  }

  /** An empty string, or an empty piece between names, matches no constant and fails. */
  lemma MenuEmptyFails()
    ensures !IsInMenuName(Cat, "")
  {
    assert Strings.JavaSplit("", ',') == [""];
    assert Strings.FindIgnoreCase(Cat.menus, "") == None;
  }

  lemma MenuEmptyPieceFails()
    ensures !IsInMenuName(Cat, "KOREAN,,CHINESE")
  {
    var names := ["KOREAN", "", "CHINESE"];
    assert Strings.Join(names, ',') == "KOREAN,,CHINESE" by {
      assert Strings.Join(names[2..], ',') == "CHINESE";
      assert Strings.Join(names[1..], ',') == ",CHINESE";
    }
    assert Strings.FindIgnoreCase(Cat.menus, "") == None;
    MenuListRejected(Cat, names, 1);
  }

  /** The documented -1 for a meeting time that does not parse is never returned: the
      parse on the first line throws first, for "default" as well, which isParsableTime
      accepts. */
  lemma UnparsableMeetTimeThrows()
    ensures IsParsableTime("default")
    ensures CreateRoom(Cat, AmyBooked(), "amy", Request("default", ["KOREAN"]))
      == Threw(UnparsableMeetTime)
    ensures CreateRoom(Cat, AmyBooked(), "amy", Request("10:30", ["KOREAN"]))
      == Threw(UnparsableMeetTime)
  {
  }

  /** The corrected createRoom reports the same unparsable meeting time as -1. */
  lemma UnparsableMeetTimeReported()
    ensures CreateRoomChecked(Cat, AmyBooked(), "amy", Request("10:30", ["KOREAN"]))
      == Returned(Step(ParseError, AmyBooked()))
  {
  }

  /** The ban rule hides a room from a user whom one of its participants banned; a ban the
      searching user issued hides nothing. */
  lemma BanDirection()
    ensures var s := AmyBooked().(users := map["amy" := User(["bob"]), "bob" := User([])]);
      Search.Visible(s, "bob", [1]) == [] && Search.Visible(s, "amy", [1]) == [1]
    ensures var s := AmyBooked().(users := map["amy" := User([]), "bob" := User(["amy"])]);
      Search.Visible(s, "bob", [1]) == [1]
  {
    var s := AmyBooked().(users := map["amy" := User(["bob"]), "bob" := User([])]);
    assert Search.Excluded(s, "bob", 1) by {
      assert s.participants[0].room == 1 && "bob" in Search.BansBy(s, "amy");
    }
    assert [1][..0] == [];
  }
}
