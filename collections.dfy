/** The collection operations the core composes: LINQ's `Where`, `OrderBy`
    and `OrderByDescending`, and `List<T>.IndexOf`. */
module Collections {
  import opened Text

  /** `OrderBy` sorts ascending, `OrderByDescending` descending. */
  datatype Direction = Ascending | Descending

  /** Key `x` may come before key `y` in direction `dir`. */
  predicate InOrder(dir: Direction, x: string, y: string) {
    if dir == Ascending then LessEq(x, y) else LessEq(y, x)
  }

  lemma InOrderTransitive(dir: Direction, x: string, y: string, z: string)
    requires InOrder(dir, x, y) && InOrder(dir, y, z)
    ensures InOrder(dir, x, z)
  {
    if dir == Ascending {
      LessEqTransitive(x, y, z);
    } else {
      LessEqTransitive(z, y, x);
    }
  }

  lemma InOrderTotal(dir: Direction, x: string, y: string)
    ensures InOrder(dir, x, y) || InOrder(dir, y, x)
  {
    LessEqTotal(x, y);
  }

  /** Every element's key is in order with every later element's key. */
  ghost predicate SortedBy<T>(s: seq<T>, key: T -> string, dir: Direction) {
    forall i, j :: 0 <= i < j < |s| ==> InOrder(dir, key(s[i]), key(s[j]))
  }

  /** `x`'s key is in order with the key of every element of `s`. */
  ghost predicate Precedes<T>(x: T, s: seq<T>, key: T -> string, dir: Direction) {
    forall y :: y in s ==> InOrder(dir, key(x), key(y))
  }

  lemma SortedCons<T>(x: T, s: seq<T>, key: T -> string, dir: Direction)
    requires SortedBy(s, key, dir) && Precedes(x, s, key, dir)
    ensures SortedBy([x] + s, key, dir)
  {
  }

  /** `Where(p)`: the elements satisfying `p`, in their original order (see
      `WhereAppend`). */
  function Where<T(==,!new)>(s: seq<T>, p: T -> bool): (r: seq<T>)
    ensures forall x :: multiset(r)[x] == if p(x) then multiset(s)[x] else 0
    ensures forall x :: x in r ==> x in s && p(x)
    ensures |r| <= |s|
  {
    if s == [] then []
    else
      var rest := Where(s[1..], p);
      assert s == [s[0]] + s[1..];
      if p(s[0]) then [s[0]] + rest else rest
  }

  /** `Where` on a sequence that starts with `x`. */
  lemma WhereCons<T(!new)>(x: T, s: seq<T>, p: T -> bool)
    ensures Where([x] + s, p) == (if p(x) then [x] else []) + Where(s, p)
  {
    assert ([x] + s)[0] == x && ([x] + s)[1..] == s;
  }

  lemma AppendAssociative<T>(x: seq<T>, y: seq<T>, z: seq<T>)
    ensures x + (y + z) == (x + y) + z
  {
  }

  /** Filtering distributes over concatenation; with `Where([x], p)` being
      `[x]` or `[]`, this fixes the order of the kept elements. */
  lemma {:induction false} WhereAppend<T(!new)>(a: seq<T>, b: seq<T>, p: T -> bool)
    ensures Where(a + b, p) == Where(a, p) + Where(b, p)
  {
    if a == [] {
      assert a + b == b;
    } else {
      var x, rest := a[0], a[1..];
      var head := if p(x) then [x] else [];
      assert a == [x] + rest && a + b == [x] + (rest + b);
      WhereCons(x, rest + b, p);
      WhereCons(x, rest, p);
      WhereAppend(rest, b, p);
      AppendAssociative(head, Where(rest, p), Where(b, p));
    }
  }

  /** Filtering keeps a sorted sequence sorted. */
  lemma {:induction false} WhereSorted<T(!new)>(s: seq<T>, p: T -> bool, key: T -> string, dir: Direction)
    requires SortedBy(s, key, dir)
    ensures SortedBy(Where(s, p), key, dir)
  {
    if s != [] {
      var rest := Where(s[1..], p);
      WhereSorted(s[1..], p, key, dir);
      if p(s[0]) {
        forall y | y in rest
          ensures InOrder(dir, key(s[0]), key(y))
        {
          var k :| 0 <= k < |s[1..]| && s[1..][k] == y;
          assert s[k + 1] == y;
        }
        SortedCons(s[0], rest, key, dir);
      }
    }
  }

  /** One step of a stable insertion sort: `x` goes before the first element
      it is in order with. */
  function Insert<T(==)>(x: T, s: seq<T>, key: T -> string, dir: Direction): (r: seq<T>)
    ensures multiset(r) == multiset(s) + multiset{x}
    ensures |r| == |s| + 1
  {
    if s == [] then [x]
    else if InOrder(dir, key(x), key(s[0])) then [x] + s
    else
      assert s == [s[0]] + s[1..];
      [s[0]] + Insert(x, s[1..], key, dir)
  }

  lemma {:induction false} InsertSorted<T>(x: T, s: seq<T>, key: T -> string, dir: Direction)
    requires SortedBy(s, key, dir)
    ensures SortedBy(Insert(x, s, key, dir), key, dir)
  {
    if s == [] {
    } else if InOrder(dir, key(x), key(s[0])) {
      forall y | y in s
        ensures InOrder(dir, key(x), key(y))
      {
        var k :| 0 <= k < |s| && s[k] == y;
        if k > 0 {
          InOrderTransitive(dir, key(x), key(s[0]), key(y));
        }
      }
      SortedCons(x, s, key, dir);
    } else {
      var rest := Insert(x, s[1..], key, dir);
      InsertSorted(x, s[1..], key, dir);
      InOrderTotal(dir, key(x), key(s[0]));
      forall y | y in rest
        ensures InOrder(dir, key(s[0]), key(y))
      {
        assert y in multiset(rest);
        if y != x {
          var k :| 0 <= k < |s[1..]| && s[1..][k] == y;
          assert s[k + 1] == y;
        }
      }
      SortedCons(s[0], rest, key, dir);
    }
  }

  /** `OrderBy(key)` (ascending) and `OrderByDescending(key)`: the same
      elements, sorted by key. */
  function OrderBy<T(==)>(s: seq<T>, key: T -> string, dir: Direction): (r: seq<T>)
    ensures multiset(r) == multiset(s)
    ensures |r| == |s|
    ensures SortedBy(r, key, dir)
  {
    if s == [] then []
    else
      var rest := OrderBy(s[1..], key, dir);
      assert s == [s[0]] + s[1..];
      InsertSorted(s[0], rest, key, dir);
      Insert(s[0], rest, key, dir)
  }

  /** `List<T>.IndexOf(x)`: the first index holding `x`, or -1. */
  function IndexOf<T(==)>(s: seq<T>, x: T): (r: int)
    ensures -1 <= r < |s|
    ensures r == -1 <==> x !in s
    ensures 0 <= r ==> s[r] == x && x !in s[..r]
  {
    if s == [] then -1
    else if s[0] == x then 0
    else
      var k := IndexOf(s[1..], x);
      assert s == [s[0]] + s[1..];
      if k == -1 then -1
      else
        assert s[..k + 1] == [s[0]] + s[1..][..k];
        k + 1
  }
}
