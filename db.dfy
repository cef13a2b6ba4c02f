/** The data-access layer's one piece of logic: the list of bookmark
    categories offered by the views. The repository itself is outside the
    model; `BookmarkCategories` receives what `Bookmarks.ToList()` returns. */
module DB {
  import opened Text
  import opened Models
  import opened Collections

  /** The categories used by the bookmarks of `s`. */
  ghost function CategorySet(s: seq<Bookmark>): set<string> {
    set b | b in s :: b.category
  }

  ghost predicate NoDuplicates(s: seq<string>) {
    forall i, j :: 0 <= i < j < |s| ==> s[i] != s[j]
  }

  /** Ascending in the string order, with no value repeated. */
  ghost predicate StrictlyAscending(s: seq<string>) {
    forall i, j :: 0 <= i < j < |s| ==> LessEq(s[i], s[j]) && s[i] != s[j]
  }

  /** The categories of `s` in order of first appearance, each once: what the
      loop of `BookmarkCategories` has built after visiting `s`. */
  function DistinctCategories(s: seq<Bookmark>): (r: seq<string>)
    ensures |r| <= |s|
    ensures NoDuplicates(r)
    ensures forall c :: c in r <==> c in CategorySet(s)
  {
    if s == [] then []
    else
      var d := DistinctCategories(s[..|s| - 1]);
      var c := s[|s| - 1].category;
      assert s == s[..|s| - 1] + [s[|s| - 1]];
      assert CategorySet(s) == CategorySet(s[..|s| - 1]) + {c};
      if c in d then d else d + [c]
  }

  /** Over bookmarks sorted by category, the distinct categories come out
      strictly ascending. */
  lemma {:induction false} DistinctCategoriesStrict(s: seq<Bookmark>)
    requires SortedBy(s, CategoryKey, Ascending)
    ensures StrictlyAscending(DistinctCategories(s))
  {
    if s != [] {
      var n := |s| - 1;
      var init := s[..n];
      var c := s[n].category;
      var d := DistinctCategories(init);
      assert SortedBy(init, CategoryKey, Ascending) by {
        forall i, j | 0 <= i < j < |init|
          ensures LessEq(init[i].category, init[j].category)
        {
          assert init[i] == s[i] && init[j] == s[j];
        }
      }
      DistinctCategoriesStrict(init);
      if c !in d {
        var r := d + [c];
        forall i, j | 0 <= i < j < |r|
          ensures LessEq(r[i], r[j]) && r[i] != r[j]
        {
          if j == |d| {
            assert r[i] in CategorySet(init);
            var b :| b in init && b.category == r[i];
            var k :| 0 <= k < n && init[k] == b;
            assert s[k] == b;
          } else {
            assert r[i] == d[i] && r[j] == d[j];
          }
        }
      }
    }
  }

  /** What `BookmarkCategories` returns: the bookmarks ordered by category,
      then each category kept once. */
  function CategoryList(bookmarks: seq<Bookmark>): (r: seq<string>)
    ensures NoDuplicates(r)
    ensures |r| <= |bookmarks|
  {
    DistinctCategories(OrderBy(bookmarks, CategoryKey, Ascending))
  }

  /** The category list is strictly ascending and holds exactly the categories
      in use, so it has no duplicates and is no longer than the repository. */
  lemma CategoryListCorrect(bookmarks: seq<Bookmark>)
    ensures StrictlyAscending(CategoryList(bookmarks))
    ensures forall c :: c in CategoryList(bookmarks) <==> c in CategorySet(bookmarks)
    ensures |CategoryList(bookmarks)| <= |bookmarks|
  {
    var sorted := OrderBy(bookmarks, CategoryKey, Ascending);
    DistinctCategoriesStrict(sorted);
    forall b | b in bookmarks
      ensures b in sorted
    {
      assert b in multiset(bookmarks);
    }
    forall b | b in sorted
      ensures b in bookmarks
    {
      assert b in multiset(sorted);
    }
    assert CategorySet(sorted) == CategorySet(bookmarks);
  }

  /** `DB.BookmarkCategories()`: sort the bookmarks by category, then append
      each category that `IndexOf` does not find in the list yet. */
  method BookmarkCategories(bookmarks: seq<Bookmark>) returns (categories: seq<string>)
    ensures categories == CategoryList(bookmarks)
    ensures StrictlyAscending(categories)
    ensures NoDuplicates(categories)
    ensures forall c :: c in categories <==> c in CategorySet(bookmarks)
    ensures |categories| <= |bookmarks|
  {
    categories := [];
    var sorted := OrderBy(bookmarks, CategoryKey, Ascending);
    for i := 0 to |sorted|
      invariant categories == DistinctCategories(sorted[..i])
    {
      var bookmark := sorted[i];
      assert sorted[..i + 1] == sorted[..i] + [bookmark];
      if IndexOf(categories, bookmark.category) == -1 {
        categories := categories + [bookmark.category];
      }
    }
    assert sorted[..|sorted|] == sorted;
    CategoryListCorrect(bookmarks);
  }

  /** Two strictly ascending lists with the same elements are equal: the
      category list is determined by the set of categories in use. */
  lemma {:induction false} StrictlyAscendingUnique(a: seq<string>, b: seq<string>)
    requires StrictlyAscending(a) && StrictlyAscending(b)
    requires forall c :: c in a <==> c in b
    ensures a == b
  {
    assert b != [] ==> b[0] in b;
    if a == [] {
    } else {
      assert a[0] in b;
      assert b != [];
      var k :| 0 <= k < |b| && b[k] == a[0];
      assert b[0] in a;
      var m :| 0 <= m < |a| && a[m] == b[0];
      if k != 0 {
        assert LessEq(b[0], a[0]) && b[0] != a[0];
        assert m != 0;
        assert LessEq(a[0], b[0]);
        LessEqAntisymmetric(a[0], b[0]);
        assert false;
      }
      forall c
        ensures c in a[1..] <==> c in b[1..]
      {
        if c in a[1..] {
          var i :| 0 <= i < |a[1..]| && a[1..][i] == c;
          assert a[i + 1] == c && c != a[0];
          assert c in b;
        }
        if c in b[1..] {
          var i :| 0 <= i < |b[1..]| && b[1..][i] == c;
          assert b[i + 1] == c && c != b[0];
          assert c in a;
        }
      }
      StrictlyAscendingUnique(a[1..], b[1..]);
      assert a == [a[0]] + a[1..];
      assert b == [b[0]] + b[1..];
    }
  }

  /** The category list is the one strictly ascending list of the
      categories in use. */
  lemma CategoryListDetermined(bookmarks: seq<Bookmark>, expected: seq<string>)
    requires StrictlyAscending(expected)
    requires forall c :: c in expected <==> c in CategorySet(bookmarks)
    ensures CategoryList(bookmarks) == expected
  {
    CategoryListCorrect(bookmarks);
    StrictlyAscendingUnique(CategoryList(bookmarks), expected);
  }

  /** Categories "b", "a", "a", "c" are listed as "a", "b", "c". */
  lemma CategoryListExample()
    ensures CategoryList([Bookmark(1, "t1", "u1", "b"), Bookmark(2, "t2", "u2", "a"),
                          Bookmark(3, "t3", "u3", "a"), Bookmark(4, "t4", "u4", "c")]) == ["a", "b", "c"]
  {
    var s := [Bookmark(1, "t1", "u1", "b"), Bookmark(2, "t2", "u2", "a"),
              Bookmark(3, "t3", "u3", "a"), Bookmark(4, "t4", "u4", "c")];
    var expected := ["a", "b", "c"];
    assert CategorySet(s) == {"a", "b", "c"} by {
      assert s[0].category == "b" && s[1].category == "a" && s[3].category == "c";
    }
    assert LessEq("a", "b") && LessEq("b", "c") && LessEq("a", "c");
    CategoryListDetermined(s, expected);
  }
}
