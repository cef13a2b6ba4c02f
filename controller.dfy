/** The bookmarks controller: the per-user session values that steer the
    listing (search, sort direction, grouping, the bookmark being viewed), the
    listing itself, the title-conflict query and the rule that Edit and Delete
    act on the bookmark recorded in the session, never on an id sent by the
    client.

    The repository is outside the model: the listing and the conflict query
    receive what `Bookmarks.ToList()` returns, `Bookmarks.Get` is passed in as
    a function, and Edit and Delete return the `Update` or `Delete` call they
    would make instead of making it. */
module BookmarksController {
  import opened Wrappers
  import opened Text
  import opened Models
  import opened Collections

  /** The session values that steer `GetBookmarks`, once every key is set. */
  datatype Query = Query(
    search: bool,
    searchString: string,
    searchCategory: string,
    groupByTitles: bool,
    sortAscending: bool)

  /** The search string occurs in the lower-cased title. */
  predicate TitleMatches(q: Query, b: Bookmark)
    ensures q.searchString == [] ==> TitleMatches(q, b)
    ensures TitleMatches(q, b) ==> |q.searchString| <= |b.title|
  {
    Contains(ToLower(b.title), q.searchString)
  }

  /** The lower-cased category equals the lower-cased search category: the
      two agree character by character once letters are lower-cased. */
  predicate CategoryMatches(q: Query, b: Bookmark)
    ensures CategoryMatches(q, b) <==>
      |b.category| == |q.searchCategory| &&
      forall i :: 0 <= i < |b.category| ==> LowerChar(b.category[i]) == LowerChar(q.searchCategory[i])
  {
    var x, y := ToLower(b.category), ToLower(q.searchCategory);
    assert |x| == |y| && (forall i :: 0 <= i < |x| ==> x[i] == y[i]) ==> x == y;
    x == y
  }

  /** A bookmark passes the search filters: its title matches and, unless the
      search category is the wildcard "*", so does its category. */
  predicate Selected(q: Query, b: Bookmark) {
    TitleMatches(q, b) && (q.searchCategory == "*" || CategoryMatches(q, b))
  }

  /** The search branch of `GetBookmarks`: filter by title, sort by title,
      then filter by category unless the category is "*". */
  function SearchResults(bookmarks: seq<Bookmark>, q: Query, dir: Direction): (r: seq<Bookmark>)
    ensures SortedBy(r, TitleKey, dir)
    ensures forall b :: multiset(r)[b] == if Selected(q, b) then multiset(bookmarks)[b] else 0
  {
    var byTitle := OrderBy(Where(bookmarks, b => TitleMatches(q, b)), TitleKey, dir);
    if q.searchCategory != "*" then
      WhereSorted(byTitle, b => CategoryMatches(q, b), TitleKey, dir);
      Where(byTitle, b => CategoryMatches(q, b))
    else
      byTitle
  }

  /** The bookmarks `GetBookmarks` hands to the view for the session values
      `q`. Searching applies only while grouping by titles; grouping by
      categories always sorts titles ascending. */
  function Listing(bookmarks: seq<Bookmark>, q: Query): (r: seq<Bookmark>)
    ensures q.groupByTitles && q.sortAscending ==> SortedBy(r, TitleKey, Ascending)
    ensures q.groupByTitles && !q.sortAscending ==> SortedBy(r, TitleKey, Descending)
    ensures !q.groupByTitles ==> SortedBy(r, TitleKey, Ascending)
    ensures !(q.search && q.groupByTitles) ==> multiset(r) == multiset(bookmarks)
    ensures q.search && q.groupByTitles ==>
      forall b :: multiset(r)[b] == if Selected(q, b) then multiset(bookmarks)[b] else 0
  {
    var dir := if q.sortAscending then Ascending else Descending;
    if q.search && q.groupByTitles then SearchResults(bookmarks, q, dir)
    else if q.groupByTitles then OrderBy(bookmarks, TitleKey, dir)
    else OrderBy(bookmarks, TitleKey, Ascending)
  }

  /** In search mode every listed bookmark's lower-cased title contains the
      search string and, unless the category is "*", its lower-cased category
      equals the lower-cased search category; the listing is drawn from the
      bookmarks without adding any. */
  lemma SearchResultsMatch(bookmarks: seq<Bookmark>, q: Query)
    requires q.search && q.groupByTitles
    ensures forall b :: b in Listing(bookmarks, q) ==> b in bookmarks && TitleMatches(q, b)
    ensures q.searchCategory != "*" ==> forall b :: b in Listing(bookmarks, q) ==> CategoryMatches(q, b)
    ensures multiset(Listing(bookmarks, q)) <= multiset(bookmarks)
  {
    var r := Listing(bookmarks, q);
    forall b | b in r
      ensures b in bookmarks && Selected(q, b)
    {
      assert multiset(r)[b] > 0;
    }
  }

  /** Searching with the default search string "" and category "*" drops
      nothing. */
  lemma EmptySearchKeepsAll(bookmarks: seq<Bookmark>, q: Query)
    requires q.searchString == [] && q.searchCategory == "*"
    ensures multiset(Listing(bookmarks, q)) == multiset(bookmarks)
  {
  }

  /** While grouping by categories the sort flag has no effect. */
  lemma SortFlagIgnoredByCategory(bookmarks: seq<Bookmark>, q: Query)
    requires !q.groupByTitles
    ensures Listing(bookmarks, q) == Listing(bookmarks, q.(sortAscending := !q.sortAscending))
  {
  }

  /** The `Session` dictionary of one user. A field is `None` while its key
      is missing. */
  class Session {
    var currentBookmarkId: Option<int>
    var currentBookmarkTitle: Option<string>
    var search: Option<bool>
    var searchString: Option<string>
    var searchCategory: Option<string>
    var groupByTitles: Option<bool>
    var sortAscending: Option<bool>

    /** A new session holds no keys. */
    constructor ()
      ensures currentBookmarkId == None && currentBookmarkTitle == None
      ensures search == None && searchString == None && searchCategory == None
      ensures groupByTitles == None && sortAscending == None
    {
      currentBookmarkId, currentBookmarkTitle := None, None;
      search, searchString, searchCategory := None, None, None;
      groupByTitles, sortAscending := None, None;
    }

    /** Every key is set. */
    predicate Initialized()
      reads this
    {
      && currentBookmarkId.Some? && currentBookmarkTitle.Some?
      && search.Some? && searchString.Some? && searchCategory.Some?
      && groupByTitles.Some? && sortAscending.Some?
    }

    /** Each key keeps the value it had and a missing key gets its default:
        id 0, title "", no search, search string "", category "*", grouped
        by titles, ascending. */
    twostate predicate DefaultsFilled()
      reads this
    {
      && currentBookmarkId == Some(old(currentBookmarkId).GetOr(0))
      && currentBookmarkTitle == Some(old(currentBookmarkTitle).GetOr(""))
      && search == Some(old(search).GetOr(false))
      && searchString == Some(old(searchString).GetOr(""))
      && searchCategory == Some(old(searchCategory).GetOr("*"))
      && groupByTitles == Some(old(groupByTitles).GetOr(true))
      && sortAscending == Some(old(sortAscending).GetOr(true))
    }

    /** The session values as a query, once every key is set. */
    function Flags(): Query
      reads this
      requires Initialized()
    {
      Query(search.value, searchString.value, searchCategory.value,
            groupByTitles.value, sortAscending.value)
    }

    /** The bookmark id the actions use: the one recorded in the session,
        or 0 when none is. */
    function CurrentId(): (id: int)
      reads this
      ensures currentBookmarkId.Some? ==> id == currentBookmarkId.value
      ensures currentBookmarkId.None? ==> id == 0
    {
      currentBookmarkId.GetOr(0)
    }

    /** `InitSessionVariables`: give every missing key its default, leave the
        others alone; on an initialized session it changes nothing. */
    method InitSessionVariables()
      modifies this
      ensures Initialized() && DefaultsFilled()
      ensures old(Initialized()) ==> unchanged(this)
    {
      if currentBookmarkId == None { currentBookmarkId := Some(0); }
      if currentBookmarkTitle == None { currentBookmarkTitle := Some(""); }
      if search == None { search := Some(false); }
      if searchString == None { searchString := Some(""); }
      if searchCategory == None { searchCategory := Some("*"); }
      if groupByTitles == None { groupByTitles := Some(true); }
      if sortAscending == None { sortAscending := Some(true); }
    }

    /** `ResetCurrentBookmarkInfo`, run by the `List` action: no bookmark is
        current any more. */
    method ResetCurrentBookmarkInfo()
      modifies this`currentBookmarkId, this`currentBookmarkTitle
      ensures currentBookmarkId == Some(0) && currentBookmarkTitle == Some("")
      ensures CurrentId() == 0
    {
      currentBookmarkId := Some(0);
      currentBookmarkTitle := Some("");
    }

    /** `GetBookmarks(forceRefresh)`: nothing unless a refresh is forced or
        the repository reports a change; otherwise fill in the defaults and
        return the listing for the session values. */
    method GetBookmarks(bookmarks: seq<Bookmark>, forceRefresh: bool, hasChanged: bool)
      returns (result: Option<seq<Bookmark>>)
      modifies this
      ensures result.Some? <==> forceRefresh || hasChanged
      ensures !(forceRefresh || hasChanged) ==> unchanged(this)
      ensures (forceRefresh || hasChanged) ==>
        Initialized() && DefaultsFilled() && result.value == Listing(bookmarks, Flags())
    {
      result := None;
      if forceRefresh || hasChanged {
        InitSessionVariables();
        result := Some(Listing(bookmarks, Flags()));
      }
    }

    /** `Details(id)`: record `id` as the current bookmark, whether or not it
        exists; when `Get(id)` finds it, record its title and show it. */
    method Details(id: int, get: int -> Option<Bookmark>) returns (shown: Option<Bookmark>)
      modifies this`currentBookmarkId, this`currentBookmarkTitle
      ensures currentBookmarkId == Some(id) && CurrentId() == id
      ensures shown == get(id)
      ensures shown.Some? ==> currentBookmarkTitle == Some(shown.value.title)
      ensures shown.None? ==> currentBookmarkTitle == old(currentBookmarkTitle)
    {
      currentBookmarkId := Some(id);
      shown := get(id);
      if shown.Some? {
        currentBookmarkTitle := Some(shown.value.title);
      }
    }

    /** `ToggleSort`: flip the sort direction. Unboxing a missing key throws,
        so `ok` is false and nothing changes when the key is missing. */
    method ToggleSort() returns (ok: bool)
      modifies this`sortAscending
      ensures ok <==> old(sortAscending).Some?
      ensures ok ==> sortAscending == Some(!old(sortAscending).value)
      ensures !ok ==> sortAscending == old(sortAscending)
    {
      ok := sortAscending.Some?;
      if ok {
        sortAscending := Some(!sortAscending.value);
      }
    }

    /** `ToggleSort` as the default-aware `ToggleSearch` handles its key: a
        missing key counts as its `InitSessionVariables` default, ascending,
        so the toggle always takes effect. */
    method ToggleSortDefaulted()
      modifies this`sortAscending
      ensures sortAscending == Some(!old(sortAscending).GetOr(true))
      ensures sortAscending.Some?
    {
      if sortAscending == None { sortAscending := Some(true); }
      sortAscending := Some(!sortAscending.value);
    }

    /** `GroupByTitles`. */
    method GroupByTitles()
      modifies this`groupByTitles
      ensures groupByTitles == Some(true)
    {
      groupByTitles := Some(true);
    }

    /** `GroupByCategories`. */
    method GroupByCategories()
      modifies this`groupByTitles
      ensures groupByTitles == Some(false)
    {
      groupByTitles := Some(false);
    }

    /** `ToggleSearch`: a missing key counts as false, then the flag flips. */
    method ToggleSearch()
      modifies this`search
      ensures search == Some(!old(search).GetOr(false))
    {
      if search == None { search := Some(false); }
      search := Some(!search.value);
    }

    /** `SetSearchString(value)`: the search string is kept lower-cased. */
    method SetSearchString(value: string)
      modifies this`searchString
      ensures searchString == Some(ToLower(value))
      ensures ToLower(searchString.value) == searchString.value
    {
      searchString := Some(ToLower(value));
      ToLowerIdempotent(value);
    }

    /** `SetSearchCategory(value)`: the search category is kept lower-cased. */
    method SetSearchCategory(value: string)
      modifies this`searchCategory
      ensures searchCategory == Some(ToLower(value))
      ensures ToLower(searchCategory.value) == searchCategory.value
    {
      searchCategory := Some(ToLower(value));
      ToLowerIdempotent(value);
    }

    /** `CheckTitleConflict(title)`: some bookmark other than the current one
        already has exactly this title. */
    function CheckTitleConflict(bookmarks: seq<Bookmark>, title: string): (conflict: bool)
      reads this
      ensures conflict <==> exists b :: b in bookmarks && b.title == title && b.id != CurrentId()
    {
      var id := CurrentId();
      var others := Where(bookmarks, (c: Bookmark) => c.title == title && c.id != id);
      assert forall b :: b in bookmarks && b.title == title && b.id != id ==> b in multiset(others);
      |others| > 0
    }

    /** `Edit()`: the form is shown only for a current bookmark that exists. */
    function EditForm(get: int -> Option<Bookmark>): (shown: Option<Bookmark>)
      reads this
      ensures shown.Some? <==> CurrentId() != 0 && get(CurrentId()).Some?
      ensures shown.Some? ==> shown == get(CurrentId())
    {
      var id := CurrentId();
      if id != 0 then get(id) else None
    }

    /** `Edit(bookmark)`: the `Update` call the action makes, if any. It
        updates only a current bookmark that `Get` finds, and the id it
        writes is the session's, whatever id the form carried. */
    function Edit(form: Bookmark, get: int -> Option<Bookmark>): (update: Option<Bookmark>)
      reads this
      ensures update.Some? <==> get(CurrentId()).Some?
      ensures update.Some? ==> update.value.id == CurrentId()
      ensures update.Some? ==>
        update.value.title == form.title && update.value.url == form.url
        && update.value.category == form.category
    {
      var id := CurrentId();
      if get(id).Some? then Some(form.(id := id)) else None
    }

    /** `Delete()`: the `Delete` call the action makes, if any: only for a
        current bookmark id other than 0. */
    function Delete(): (target: Option<int>)
      reads this
      ensures target.Some? <==> CurrentId() != 0
      ensures target.Some? ==> target.value == CurrentId()
    {
      var id := CurrentId();
      if id != 0 then Some(id) else None
    }
  }

  /** The id a client puts in the edit form has no effect on what is updated. */
  lemma EditIgnoresFormId(session: Session, form: Bookmark, forged: int, get: int -> Option<Bookmark>)
    ensures session.Edit(form.(id := forged), get) == session.Edit(form, get)
  {
  }

  /** On a new (or expired) session, `ToggleSort` as written fails: the key it
      unboxes is missing. */
  method ToggleSortOnNewSession() returns (ok: bool)
    ensures !ok
  {
    var session := new Session();
    ok := session.ToggleSort();
  }

  /** On the same session the default-aware toggle switches to descending. */
  method ToggleSortDefaultedOnNewSession() returns (ascending: Option<bool>)
    ensures ascending == Some(false)
  {
    var session := new Session();
    session.ToggleSortDefaulted();
    ascending := session.sortAscending;
  }
}
