# BookmarksApp core in Dafny

This project models the logic of a small ASP.NET bookmark manager. A bookmark
has an id, a title, a url and a category. The model covers two parts.

- **The category list of the data-access layer** (`DB.BookmarkCategories`).
  It orders the bookmarks by category, then walks them and appends each
  category that `IndexOf` does not find in the list yet. It is modelled as a
  method with a loop. The method is proved equal to a specification function,
  and that function is proved to give a strictly ascending list with no
  duplicates. The list holds exactly the categories in use. Two strictly
  ascending lists with the same elements are equal, so the list is fully
  determined. Categories "b", "a", "a", "c" give "a", "b", "c".
- **The bookmarks controller** (`BookmarksController`). The per-user session
  dictionary is a class, `Session`, with one `Option` field per key; `None`
  means the key is missing. Each session action is a method that changes only
  the keys it sets. `GetBookmarks` fills in the defaults and returns the
  listing. The listing is a pure function of the bookmarks and the session
  values (`Query`). It filters by lower-cased title and by category only when
  searching while grouped by titles, and it sorts by title. `CheckTitleConflict`,
  `Edit` and `Delete` read the current bookmark id from the session, never
  from the client.

The repository class (`Repository<T>`) is not part of this model. The model
passes the bookmark list that `Bookmarks.ToList()` returns as a `seq<Bookmark>`.
`Bookmarks.Get` is passed in as a function `int -> Option<Bookmark>`.
`HasChanged` is a boolean input. `Edit` and `Delete` return the `Update` or
`Delete` call the action would make, and the caller makes it. The repository
is where ids are allocated, changes are detected and the JSON file is written;
since its code is not part of this model, none of that is modelled, and the
model follows the controller and `DB` code only.

String order and lower-casing are culture-sensitive in .NET. The model uses the
ordinal lexicographic order (module `Text`) and lower-cases ASCII letters only.
`Text` proves that the order is reflexive, antisymmetric, transitive and total.
The sorting and category proofs use only those laws.

Files: `wrappers.dfy` (Option), `text.dfy` (string order, `ToLower`,
`Contains`), `models.dfy` (`Bookmark`), `collections.dfy` (LINQ `Where`,
`OrderBy`/`OrderByDescending` as a stable insertion sort, `List.IndexOf`),
`db.dfy`, `controller.dfy`.

## Model

| member | source | states |
|---|---|---|
| Text.ToLower | Controllers/BookmarksController.cs:206 | lower-casing keeps the length and maps each character on its own |
| Text.ToLowerIdempotent | Controllers/BookmarksController.cs:58-59 | lower-casing an already lower-cased string changes nothing, so a stored search value compares the same after another `ToLower` |
| Text.ContainsOccurs | Controllers/BookmarksController.cs:54 | `Contains(s, sub)` holds exactly when `sub` occurs at some position of `s` |
| Text.ContainsEmpty | Controllers/BookmarksController.cs:24 | the empty search string is contained in every title |
| Text.Contains | Controllers/BookmarksController.cs:54 | `String.Contains`: the empty string is contained in every string, and a contained string is never longer than the one containing it |
| Text.LessEqReflexive | DAL/DB.cs:23 | the string order used for sorting is reflexive |
| Text.LessEqAntisymmetric | DAL/DB.cs:23 | two strings ordered both ways are equal |
| Text.LessEqTransitive | DAL/DB.cs:23 | the string order is transitive |
| Text.LessEqTotal | DAL/DB.cs:23 | any two strings are ordered one way or the other |
| Text.LessEq | DAL/DB.cs:23 | the order `OrderBy` compares keys with: a prefix sorts before the longer string, and strings differing at their first character are ordered by that character |
| Collections.Where | Controllers/BookmarksController.cs:54 | the result holds each element satisfying the predicate as many times as the input does, and nothing else |
| Collections.WhereAppend | Controllers/BookmarksController.cs:54 | filtering a concatenation is the concatenation of the filtered parts, so the kept elements stay in their input order |
| Collections.WhereSorted | Controllers/BookmarksController.cs:58-59 | filtering a sorted sequence keeps it sorted |
| Collections.Insert | DAL/DB.cs:23 | inserting adds exactly one element to the multiset |
| Collections.InsertSorted | DAL/DB.cs:23 | inserting into a sorted sequence keeps it sorted |
| Collections.OrderBy | Controllers/BookmarksController.cs:66-71 | `OrderBy`/`OrderByDescending` return a permutation of the input, sorted by the key in the given direction |
| Collections.IndexOf | DAL/DB.cs:25 | `IndexOf` is -1 exactly when the value is absent; otherwise it is the first index holding the value |
| DB.DistinctCategories | DAL/DB.cs:22-29 | the categories collected by the loop are duplicate-free, no more than the bookmarks visited, and exactly the categories of those bookmarks |
| DB.DistinctCategoriesStrict | DAL/DB.cs:23-28 | collecting over bookmarks sorted by category gives a strictly ascending list |
| DB.CategoryList | DAL/DB.cs:20-31 | the value `BookmarkCategories` returns (order by category, keep each category once) has no duplicates and no more entries than there are bookmarks |
| DB.CategoryListCorrect | DAL/DB.cs:20-31 | the category list is strictly ascending, holds exactly the categories in use and is no longer than the bookmark list |
| DB.BookmarkCategories | DAL/DB.cs:20-31 | the loop returns the category list: strictly ascending, no duplicates, exactly the categories in use, empty for an empty repository |
| DB.StrictlyAscendingUnique | DAL/DB.cs:19-31 | a strictly ascending list is determined by its set of elements |
| DB.CategoryListDetermined | DAL/DB.cs:19-31 | any strictly ascending list of exactly the categories in use is the category list |
| DB.CategoryListExample | DAL/DB.cs:20-31 | bookmarks in categories "b", "a", "a", "c" give the list "a", "b", "c" |
| BookmarksController.SearchResults | Controllers/BookmarksController.cs:51-60 | the search branch is sorted by title in the given direction and holds exactly the bookmarks whose lower-cased title contains the search string and, unless the category is "*", whose lower-cased category matches, each as often as in the repository |
| BookmarksController.TitleMatches | Controllers/BookmarksController.cs:54 | the title filter `c.Title.ToLower().Contains(searchString)`: the default empty search string matches every title, and a matching title is at least as long as the search string |
| BookmarksController.CategoryMatches | Controllers/BookmarksController.cs:59 | the category filter `c.Category.ToLower() == searchCategory.ToLower()` holds exactly when the two have the same length and agree character by character once letters are lower-cased |
| BookmarksController.Listing | Controllers/BookmarksController.cs:47-72 | the result is sorted by title, ascending or descending per the sort flag while grouped by titles and always ascending while grouped by categories; outside search it is a permutation of all bookmarks; in search it holds exactly the selected bookmarks |
| BookmarksController.SearchResultsMatch | Controllers/BookmarksController.cs:51-59 | in search mode every listed bookmark comes from the repository, its lower-cased title contains the search string, its lower-cased category matches unless the category is "*", and the listing is a sub-multiset of the bookmarks |
| BookmarksController.EmptySearchKeepsAll | Controllers/BookmarksController.cs:51-59 | searching with search string "" and category "*" drops no bookmark |
| BookmarksController.SortFlagIgnoredByCategory | Controllers/BookmarksController.cs:63-71 | while grouped by categories, flipping the sort flag does not change the listing |
| BookmarksController.Session.constructor | Controllers/BookmarksController.cs:17-19 | a new session holds no keys |
| BookmarksController.Session.InitSessionVariables | Controllers/BookmarksController.cs:15-28 | every missing key gets its default (0, "", false, "", "*", true, true), every present key keeps its value, and an initialized session is left unchanged |
| BookmarksController.Session.ResetCurrentBookmarkInfo | Controllers/BookmarksController.cs:29-33 | the current id becomes 0 and the current title "", nothing else changes |
| BookmarksController.Session.CurrentId | Controllers/BookmarksController.cs:145 | the id that `Edit()`, `Edit(Bookmark)`, `CheckTitleConflict` and `Delete()` use (lines 127, 145, 163, 171): the session's current id when the key is set, otherwise 0 |
| BookmarksController.Session.GetBookmarks | Controllers/BookmarksController.cs:37-76 | no result and no change unless a refresh is forced or the repository changed; otherwise the defaults are filled in and the result is the listing for the session values |
| BookmarksController.Session.Details | Controllers/BookmarksController.cs:89-101 | the requested id becomes current whether or not it exists; the title is recorded and the bookmark shown only when `Get` finds it |
| BookmarksController.Session.ToggleSort | Controllers/BookmarksController.cs:179-183 | the sort flag is negated; with the key missing the action fails and nothing changes; no other key changes |
| BookmarksController.Session.ToggleSortDefaulted | Controllers/BookmarksController.cs:179-183 | corrected toggle: a missing key counts as ascending, so the flag is always set and flipped |
| BookmarksController.Session.GroupByTitles | Controllers/BookmarksController.cs:185-189 | the grouping flag becomes true, nothing else changes |
| BookmarksController.Session.GroupByCategories | Controllers/BookmarksController.cs:191-195 | the grouping flag becomes false, nothing else changes |
| BookmarksController.Session.ToggleSearch | Controllers/BookmarksController.cs:197-202 | the search flag is negated, a missing key counting as false; nothing else changes |
| BookmarksController.Session.SetSearchString | Controllers/BookmarksController.cs:204-208 | the lower-cased value is stored, so lower-casing it again changes nothing; nothing else changes |
| BookmarksController.Session.SetSearchCategory | Controllers/BookmarksController.cs:210-214 | the lower-cased value is stored, so lower-casing it again changes nothing; nothing else changes |
| BookmarksController.Session.CheckTitleConflict | Controllers/BookmarksController.cs:161-167 | true exactly when some bookmark has exactly this title and an id other than the session's current id (0 when unset) |
| BookmarksController.Session.EditForm | Controllers/BookmarksController.cs:119-136 | the edit form is shown exactly when the session's current id is non-zero and `Get` finds it, and it shows that bookmark |
| BookmarksController.Session.Edit | Controllers/BookmarksController.cs:140-155 | `Update` is called exactly when `Get(session id)` finds a bookmark, with the form's fields and the session's id |
| BookmarksController.EditIgnoresFormId | Controllers/BookmarksController.cs:142-151 | the id carried by the form never affects which bookmark is updated |
| BookmarksController.Session.Delete | Controllers/BookmarksController.cs:169-177 | `Delete` is called exactly when the session's current id is non-zero, with that id |
| BookmarksController.ToggleSortOnNewSession | Controllers/BookmarksController.cs:179-183 | on a session with no keys, `ToggleSort` as written fails |
| BookmarksController.ToggleSortDefaultedOnNewSession | Controllers/BookmarksController.cs:179-183 | on a session with no keys, the corrected toggle sets the sort to descending |

## Findings

| source | as written | input that shows it | evidently intended | confidence | as-written member | corrected member |
|---|---|---|---|---|---|---|
| Controllers/BookmarksController.cs:181 | `ToggleSort` unboxes `Session["SortAscending"]` without a null check, so it throws when the key is missing | a request to `ToggleSort` on a new or expired session, before any `GetBookmarks` has filled in the defaults | treat the missing key as its default, as `ToggleSearch` does on line 199 and `InitSessionVariables` does on line 27 (ascending), then flip it | medium, not executed | BookmarksController.ToggleSortOnNewSession | BookmarksController.Session.ToggleSortDefaulted |

## Left out

- Repository internals (`Repository<T>`): storage format, id allocation, locking and how `HasChanged` is computed. That code is not part of this model. `Get` is a function parameter, `HasChanged` a boolean input, and the bookmark list a value.
- `Create(Bookmark)` and the repository calls `Add`, `Update` and `Delete`: `Create` only forwards the form to `Add`, and the others are returned as the call to make, not performed.
- The `DB` singleton and its static `Bookmarks` property: the bookmark list is passed explicitly. `BookmarkCategories` therefore cannot change the repository.
- MVC plumbing: views, partial views, redirects (including the `Details/` + id redirect after Edit), `ViewBag.BookmarkCategories`, JSON responses, the `About` action, and the `[HttpPost]`/`[ValidateAntiForgeryToken]` attributes.
- Concurrent requests, and the session's 20-minute timeout. An expired session is modelled only as a session with no keys.
- Culture-sensitive string comparison and `ToLower`: the ordinal order and ASCII lower-casing stand in for them.
- Null strings: a null title, category or argument makes `ToLower` throw in the source. Strings here are never null.
- Session values of the wrong type: the dictionary holds objects, and a value of another type would make a cast throw. The model's fields are typed.
- BookmarksController.Session.ToggleSort: models the exception on a missing key as `ok == false` with nothing changed, not as an error page.
- Collections.OrderBy: does not state that bookmarks with equal keys keep their input order, although LINQ's sort is stable and so is the insertion sort modelled.
