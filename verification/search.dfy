/** Room search (RoomService.searchRooms): the filter arguments are normalised into one of
    the repository's two paged queries, and the page it returns is filtered by the ban
    rule (composeDto / IsExcludedRoom). The queries themselves are the store's business;
    the model takes the repository as a function from query to page. */
module Search {
  import opened Validators
  import opened Store
  import Strings

  /** SearchRoomsWithoutTime and SearchRoomsWithTime with their arguments. */
  datatype Query =
    | WithoutTime(location: string, keyword: string, menus: seq<string>)
    | WithTime(location: string, startTime: string, endTime: string, keyword: string,
               menus: seq<string>)

  /** The LIKE pattern searched for: match-anything for the sentinel, otherwise the keyword
      as a substring. */
  function KeywordPattern(keyword: string): (p: string)
    ensures keyword == Default ==> p == "%"
    ensures keyword != Default ==>
      |p| == |keyword| + 2 && p[0] == '%' && p[|p| - 1] == '%' && p[1..|p| - 1] == keyword
  {
    if keyword == Default then "%" else "%" + keyword + "%"
  }

  /** The LIKE pattern for the location: match-anything for the sentinel. */
  function LocationPattern(location: string): (p: string)
    ensures p == "%" <==> location == Default || location == "%"
    ensures location != Default ==> p == location
  {
    if location == Default then "%" else location
  }

  /** getMenuName: every MenuName name for the sentinel, otherwise the comma-separated
      pieces as Java's split returns them. */
  function GetMenuName(cat: Catalog, menu: string): (names: seq<string>)
    ensures menu == Default ==> names == cat.menus
    ensures menu != Default ==> forall i :: 0 <= i < |names| ==> ',' !in names[i]
  {
    if menu == Default then cat.menus
    else
      Strings.SplitAllPiecesClean(menu, ',');
      Strings.JavaSplit(menu, ',')
  }

  /** getRoomPage: the untimed query whenever either bound is the sentinel. */
  function GetRoomPage(location: string, startTime: string, endTime: string, keyword: string,
                       menus: seq<string>): (q: Query)
    ensures q.WithoutTime? <==> startTime == Default || endTime == Default
    ensures q.location == location && q.keyword == keyword && q.menus == menus
    ensures q.WithTime? ==> q.startTime == startTime && q.endTime == endTime
  {
    if startTime == Default || endTime == Default then WithoutTime(location, keyword, menus)
    else WithTime(location, startTime, endTime, keyword, menus)
  }

  /** The query searchRooms sends for its arguments. */
  function SearchQuery(cat: Catalog, location: string, menu: string, startTime: string,
                       endTime: string, keyword: string): Query
  {
    GetRoomPage(LocationPattern(location), startTime, endTime, KeywordPattern(keyword),
                GetMenuName(cat, menu))
  }

  /** The destinations of the bans a user issued; a user who is not stored (enterRoom
      does not check the user) is read as having issued none. */
  function BansBy(s: Store, user: UserId): seq<UserId> {
    if user in s.users then s.users[user].banned else []
  }

  /** The ban rule: some participant of the room has banned the searching user. */
  predicate Excluded(s: Store, userId: UserId, room: RoomId) {
    exists i :: 0 <= i < |s.participants| && s.participants[i].room == room
      && userId in BansBy(s, s.participants[i].user)
  }

  /** The rooms of a page that the searching user may see, in page order. */
  function Visible(s: Store, userId: UserId, page: seq<RoomId>): (r: seq<RoomId>)
    ensures |r| <= |page|
    ensures forall x :: x in r <==> x in page && !Excluded(s, userId, x)
  {
    if |page| == 0 then []
    else
      var last := page[|page| - 1];
      Visible(s, userId, page[..|page| - 1]) + (if Excluded(s, userId, last) then [] else [last])
  }

  /** The filter is per occurrence: a visible room is kept as many times as the page lists
      it, and an excluded one never. */
  lemma {:induction false} VisibleCounts(s: Store, userId: UserId, page: seq<RoomId>)
    ensures forall x :: (multiset(Visible(s, userId, page))[x]
                         == if Excluded(s, userId, x) then 0 else multiset(page)[x])
  {
    if |page| > 0 {
      var init := page[..|page| - 1];
      VisibleCounts(s, userId, init);
      assert page == init + [page[|page| - 1]];
    }
  }

  /** `a` is `b` with some elements left out and the rest kept in order. */
  ghost predicate SubsequenceOf(a: seq<RoomId>, b: seq<RoomId>) {
    exists idx: seq<nat> :: IndexMap(idx, a, b)
  }

  ghost predicate IndexMap(idx: seq<nat>, a: seq<RoomId>, b: seq<RoomId>) {
    && |idx| == |a|
    && (forall k :: 0 <= k < |idx| ==> idx[k] < |b| && a[k] == b[idx[k]])
    && (forall k, l :: 0 <= k < l < |idx| ==> idx[k] < idx[l])
  }

  lemma IndexMapSkip(idx: seq<nat>, a: seq<RoomId>, b: seq<RoomId>, x: RoomId)
    requires IndexMap(idx, a, b)
    ensures IndexMap(idx, a, b + [x])
  {
  }

  lemma IndexMapTake(idx: seq<nat>, a: seq<RoomId>, b: seq<RoomId>, x: RoomId)
    requires IndexMap(idx, a, b)
    ensures IndexMap(idx + [|b|], a + [x], b + [x])
  {
    var idx', a', b' := idx + [|b|], a + [x], b + [x];
    forall k | 0 <= k < |idx'|
      ensures idx'[k] < |b'| && a'[k] == b'[idx'[k]]
    {
      if k < |idx| {
        assert idx'[k] == idx[k] && a'[k] == a[k] && b'[idx[k]] == b[idx[k]];
      }
    }
  }

  /** The visible rooms keep the page's order: each sits at a position of the page, and
      the positions increase. Together with Visible's contract (a room is visible exactly
      when it is on the page and not excluded) this makes composeDto an order-preserving
      filter. */
  lemma {:induction false} VisibleIsOrderedSubsequence(s: Store, userId: UserId, page: seq<RoomId>)
    returns (idx: seq<nat>)
    ensures IndexMap(idx, Visible(s, userId, page), page)
    ensures SubsequenceOf(Visible(s, userId, page), page)
  {
    if |page| == 0 {
      idx := [];
    } else {
      var init := page[..|page| - 1];
      var last := page[|page| - 1];
      assert page == init + [last];
      var sub := VisibleIsOrderedSubsequence(s, userId, init);
      var vInit := Visible(s, userId, init);
      if Excluded(s, userId, last) {
        idx := sub;
        assert Visible(s, userId, page) == vInit;
        IndexMapSkip(sub, vInit, init, last);
      } else {
        idx := sub + [|init|];
        assert Visible(s, userId, page) == vInit + [last];
        IndexMapTake(sub, vInit, init, last);
      }
    }
    assert IndexMap(idx, Visible(s, userId, page), page);
  }

  /** IsExcludedRoom: visits the room's participant rows and each row's bans, stopping at
      the first ban of the searching user. */
  method IsExcludedRoom(s: Store, userId: UserId, room: RoomId) returns (excluded: bool)
    ensures excluded <==> Excluded(s, userId, room)
  {
    var i := 0;
    while i < |s.participants|
      invariant 0 <= i <= |s.participants|
      invariant forall k :: 0 <= k < i && s.participants[k].room == room ==>
        userId !in BansBy(s, s.participants[k].user)
    {
      var part := s.participants[i];
      if part.room == room {
        var bans := BansBy(s, part.user);
        var j := 0;
        while j < |bans|
          invariant 0 <= j <= |bans|
          invariant forall m :: 0 <= m < j ==> bans[m] != userId
        {
          if bans[j] == userId {
            return true;
          }
          j := j + 1;
        }
      }
      i := i + 1;
    }
    return false;
  }

  /** Visible over a prefix one room longer. */
  lemma VisibleStep(s: Store, userId: UserId, page: seq<RoomId>, i: nat)
    requires i < |page|
    ensures Visible(s, userId, page[..i + 1])
      == Visible(s, userId, page[..i]) + (if Excluded(s, userId, page[i]) then [] else [page[i]])
  {
    assert page[..i + 1][..i] == page[..i];
  }

  /** composeDto: one entry for every room of the page that the ban rule lets through. */
  method ComposeDto(s: Store, userId: UserId, page: seq<RoomId>) returns (kept: seq<RoomId>)
    ensures kept == Visible(s, userId, page)
  {
    kept := [];
    var i := 0;
    while i < |page|
      invariant 0 <= i <= |page|
      invariant kept == Visible(s, userId, page[..i])
    {
      var excluded := IsExcludedRoom(s, userId, page[i]);
      VisibleStep(s, userId, page, i);
      if !excluded {
        kept := kept + [page[i]];
      }
      i := i + 1;
    }
    assert page[..|page|] == page;
  }

  /** searchRooms: the page `repository` returns for the normalised query, filtered by the
      ban rule. */
  method SearchRooms(s: Store, cat: Catalog, userId: UserId, location: string, menu: string,
                     startTime: string, endTime: string, keyword: string,
                     repository: Query -> seq<RoomId>)
    returns (rooms: seq<RoomId>)
    ensures rooms == Visible(s, userId, repository(SearchQuery(cat, location, menu, startTime,
                                                               endTime, keyword)))
  {
    var kw := KeywordPattern(keyword);
    var loc := LocationPattern(location);
    var menuNames := GetMenuName(cat, menu);
    var page := repository(GetRoomPage(loc, startTime, endTime, kw, menuNames));
    rooms := ComposeDto(s, userId, page);
  }

  /** With every filter at the sentinel, the search is the untimed query matching any
      location and keyword over every menu name. */
  lemma AllDefaultQuery(cat: Catalog)
    ensures SearchQuery(cat, Default, Default, Default, Default, Default)
      == WithoutTime("%", "%", cat.menus)
  {
  }

  /** A menu filter written as comma-separated names reaches the query as exactly those
      names, and both time bounds given select the timed query. */
  lemma QueryCarriesFilters(cat: Catalog, location: string, names: seq<string>,
                            startTime: string, endTime: string, keyword: string)
    requires |names| >= 1 && names[|names| - 1] != ""
    requires forall i :: 0 <= i < |names| ==> ',' !in names[i]
    requires Strings.Join(names, ',') != Default
    requires startTime != Default && endTime != Default
    ensures var q := SearchQuery(cat, location, Strings.Join(names, ','), startTime, endTime,
                                 keyword);
      q.WithTime? && q.menus == names && q.startTime == startTime && q.endTime == endTime
  {
    Strings.JavaSplitJoin(names, ',');
  }
}
