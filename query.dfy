/**
 * Rows of the category and tag tables and the store's `findMany`/`count` over them:
 * a `where` filter, an `orderBy` on one field, then `skip` and `take`.
 */
module Query {
  import opened Wrappers
  import opened Js

  /** A category or tag row. */
  datatype Named = Named(id: nat, name: string, createdAt: int, updatedAt: int)

  /** `{}` or `{ name: { contains: term } }`. */
  datatype Where = All | NameContains(term: string)

  predicate Matches(w: Where, x: Named)
  {
    match w
    case All => true
    case NameContains(term) => Includes(x.name, term)
  }

  /** The rows that match `w`, in their original order. */
  function Filter(s: seq<Named>, w: Where): (r: seq<Named>)
    ensures |r| <= |s|
    ensures forall i :: 0 <= i < |r| ==> Matches(w, r[i])
  {
    if s == [] then []
    else
      assert s == [s[0]] + s[1..];
      (if Matches(w, s[0]) then [s[0]] else []) + Filter(s[1..], w)
  }

  /** A row is kept exactly when it is stored and matches. */
  lemma {:induction false} FilterMembers(s: seq<Named>, w: Where, x: Named)
    ensures x in Filter(s, w) <==> x in s && Matches(w, x)
  {
    if s != [] {
      FilterMembers(s[1..], w, x);
      assert s == [s[0]] + s[1..];
    }
  }

  /** `count({ where })`: the number of matching rows, counted on its own. */
  function Count(s: seq<Named>, w: Where): (n: nat)
    ensures n <= |s|
  {
    if s == [] then 0 else Count(s[..|s| - 1], w) + (if Matches(w, s[|s| - 1]) then 1 else 0)
  }

  /** The count is 0 exactly when no row matches. */
  lemma {:induction false} CountZero(s: seq<Named>, w: Where)
    ensures Count(s, w) == 0 <==> forall i :: 0 <= i < |s| ==> !Matches(w, s[i])
  {
    if s != [] {
      var init := s[..|s| - 1];
      CountZero(init, w);
      assert forall i :: 0 <= i < |init| ==> init[i] == s[i];
    }
  }

  /** The count and the page are taken under the same filter, so they agree. */
  lemma {:induction false} CountIsFilterSize(s: seq<Named>, w: Where)
    ensures Count(s, w) == |Filter(s, w)|
  {
    if s != [] {
      var init, last := s[..|s| - 1], s[|s| - 1];
      CountIsFilterSize(init, w);
      FilterAppend(init, [last], w);
      assert s == init + [last];
      assert Filter([last], w) == (if Matches(w, last) then [last] else []) + Filter([], w);
    }
  }

  lemma {:induction false} FilterAppend(a: seq<Named>, b: seq<Named>, w: Where)
    ensures Filter(a + b, w) == Filter(a, w) + Filter(b, w)
  {
    if a == [] {
      assert a + b == b;
    } else {
      assert (a + b)[1..] == a[1..] + b;
      FilterAppend(a[1..], b, w);
    }
  }

  /** No filter keeps every row. */
  lemma {:induction false} FilterAll(s: seq<Named>)
    ensures Filter(s, All) == s
  {
    if s != [] {
      FilterAll(s[1..]);
      assert s == [s[0]] + s[1..];
    }
  }

  // ----- ordering -----

  datatype SortField = Name | CreatedAt | UpdatedAt
  datatype SortOrder = Asc | Desc

  /** Lexicographic order on strings, by code point. */
  predicate StrLe(a: string, b: string)
  {
    a == [] || (b != [] && (a[0] < b[0] || (a[0] == b[0] && StrLe(a[1..], b[1..]))))
  }

  lemma {:induction false} StrLeTotal(a: string, b: string)
    ensures StrLe(a, b) || StrLe(b, a)
  {
    if a != [] && b != [] && a[0] == b[0] {
      StrLeTotal(a[1..], b[1..]);
    }
  }

  lemma {:induction false} StrLeTransitive(a: string, b: string, c: string)
    requires StrLe(a, b) && StrLe(b, c)
    ensures StrLe(a, c)
  {
    if a != [] && b != [] && c != [] && a[0] == b[0] == c[0] {
      StrLeTransitive(a[1..], b[1..], c[1..]);
    }
  }

  /** The ascending order on the field `field`. */
  predicate KeyLe(field: SortField, x: Named, y: Named)
  {
    match field
    case Name => StrLe(x.name, y.name)
    case CreatedAt => x.createdAt <= y.createdAt
    case UpdatedAt => x.updatedAt <= y.updatedAt
  }

  /** `x` may come before `y` under `orderBy: { [field]: order }`. */
  predicate Precedes(field: SortField, order: SortOrder, x: Named, y: Named)
  {
    if order == Asc then KeyLe(field, x, y) else KeyLe(field, y, x)
  }

  lemma PrecedesTotal(field: SortField, order: SortOrder, x: Named, y: Named)
    ensures Precedes(field, order, x, y) || Precedes(field, order, y, x)
  {
    if field == Name {
      StrLeTotal(x.name, y.name);
    }
  }

  lemma PrecedesTransitive(field: SortField, order: SortOrder, x: Named, y: Named, z: Named)
    requires Precedes(field, order, x, y) && Precedes(field, order, y, z)
    ensures Precedes(field, order, x, z)
  {
    if field == Name {
      if order == Asc {
        StrLeTransitive(x.name, y.name, z.name);
      } else {
        StrLeTransitive(z.name, y.name, x.name);
      }
    }
  }

  predicate Ordered(s: seq<Named>, field: SortField, order: SortOrder)
  {
    forall i, j :: 0 <= i < j < |s| ==> Precedes(field, order, s[i], s[j])
  }

  /** Places `x` before the first element it may precede. */
  function Insert(x: Named, s: seq<Named>, field: SortField, order: SortOrder): (r: seq<Named>)
    ensures |r| == |s| + 1
  {
    if s == [] then [x]
    else if Precedes(field, order, x, s[0]) then [x] + s
    else
      assert s == [s[0]] + s[1..];
      [s[0]] + Insert(x, s[1..], field, order)
  }

  /** Orders the rows by `field` in direction `order`; rows with equal keys keep their relative order. */
  function Sort(s: seq<Named>, field: SortField, order: SortOrder): (r: seq<Named>)
    ensures |r| == |s|
  {
    if s == [] then [] else Insert(s[0], Sort(s[1..], field, order), field, order)
  }

  /** Inserting adds exactly `x`. */
  lemma {:induction false} InsertPermutes(x: Named, s: seq<Named>, field: SortField, order: SortOrder)
    ensures multiset(Insert(x, s, field, order)) == multiset(s) + multiset{x}
  {
    if s != [] && !Precedes(field, order, x, s[0]) {
      InsertPermutes(x, s[1..], field, order);
      assert s == [s[0]] + s[1..];
    }
  }

  /** Sorting only reorders: the sorted rows are the given rows, each as often. */
  lemma {:induction false} SortPermutes(s: seq<Named>, field: SortField, order: SortOrder)
    ensures multiset(Sort(s, field, order)) == multiset(s)
  {
    if s != [] {
      SortPermutes(s[1..], field, order);
      InsertPermutes(s[0], Sort(s[1..], field, order), field, order);
      assert s == [s[0]] + s[1..];
    }
  }

  predicate PrecedesAll(field: SortField, order: SortOrder, y: Named, s: seq<Named>)
  {
    forall e :: e in s ==> Precedes(field, order, y, e)
  }

  lemma ConsOrdered(field: SortField, order: SortOrder, y: Named, s: seq<Named>)
    requires Ordered(s, field, order) && PrecedesAll(field, order, y, s)
    ensures Ordered([y] + s, field, order)
  {
    var r := [y] + s;
    forall i, j | 0 <= i < j < |r| ensures Precedes(field, order, r[i], r[j]) {
      if i == 0 {
        assert r[j] in s;
      } else {
        assert r[i] == s[i - 1] && r[j] == s[j - 1];
      }
    }
  }

  lemma HeadPrecedesTail(field: SortField, order: SortOrder, s: seq<Named>)
    requires s != [] && Ordered(s, field, order)
    ensures Ordered(s[1..], field, order) && PrecedesAll(field, order, s[0], s[1..])
  {
    forall e | e in s[1..] ensures Precedes(field, order, s[0], e) {
      var k :| 0 <= k < |s[1..]| && s[1..][k] == e;
      assert s[k + 1] == e;
    }
  }

  lemma {:induction false} InsertOrdered(x: Named, s: seq<Named>, field: SortField, order: SortOrder)
    requires Ordered(s, field, order)
    ensures Ordered(Insert(x, s, field, order), field, order)
  {
    if s == [] {
    } else {
      HeadPrecedesTail(field, order, s);
      if Precedes(field, order, x, s[0]) {
        forall e | e in s ensures Precedes(field, order, x, e) {
          if e != s[0] {
            assert e in s[1..] by { assert s == [s[0]] + s[1..]; }
            PrecedesTransitive(field, order, x, s[0], e);
          }
        }
        ConsOrdered(field, order, x, s);
      } else {
        PrecedesTotal(field, order, x, s[0]);
        var tail := Insert(x, s[1..], field, order);
        InsertOrdered(x, s[1..], field, order);
        InsertPermutes(x, s[1..], field, order);
        forall e | e in tail ensures Precedes(field, order, s[0], e) {
          assert e in multiset(tail);
          assert e == x || e in multiset(s[1..]);
        }
        ConsOrdered(field, order, s[0], tail);
      }
    }
  }

  lemma {:induction false} SortOrdered(s: seq<Named>, field: SortField, order: SortOrder)
    ensures Ordered(Sort(s, field, order), field, order)
  {
    if s != [] {
      SortOrdered(s[1..], field, order);
      InsertOrdered(s[0], Sort(s[1..], field, order), field, order);
    }
  }

  /** `skip` then `take`: the part of `s` from position `skip` holding at most `take` rows. */
  function Window(s: seq<Named>, skip: nat, take: nat): (r: seq<Named>)
    ensures |r| == Min(take, Max(0, |s| - skip))
    ensures forall i :: 0 <= i < |r| ==> r[i] == s[skip + i]
  {
    s[Min(skip, |s|)..Min(skip + take, |s|)]
  }

  lemma WindowOrdered(s: seq<Named>, skip: nat, take: nat, field: SortField, order: SortOrder)
    requires Ordered(s, field, order)
    ensures Ordered(Window(s, skip, take), field, order)
  {
    var r := Window(s, skip, take);
    forall i, j | 0 <= i < j < |r| ensures Precedes(field, order, r[i], r[j]) {
      assert r[i] == s[skip + i] && r[j] == s[skip + j];
    }
  }

  lemma WindowMembers(s: seq<Named>, skip: nat, take: nat)
    ensures forall x :: x in Window(s, skip, take) ==> x in s
  {
    var r := Window(s, skip, take);
    forall x | x in r ensures x in s {
      var i :| 0 <= i < |r| && r[i] == x;
      assert s[skip + i] == x;
    }
  }

  /** `findMany({ where, orderBy, skip, take })`: filter, then sort, then skip, then take. */
  function FindMany(rows: seq<Named>, w: Where, field: SortField, order: SortOrder, skip: nat, take: nat): (r: seq<Named>)
    ensures |r| <= take
  {
    Window(Sort(Filter(rows, w), field, order), skip, take)
  }

  /** A page holds as many rows as remain after `skip` among the `count` matching ones, and at most `take`. */
  lemma FindManySize(rows: seq<Named>, w: Where, field: SortField, order: SortOrder, skip: nat, take: nat)
    ensures |FindMany(rows, w, field, order, skip, take)| == Min(take, Max(0, Count(rows, w) - skip))
  {
    var sorted := Sort(Filter(rows, w), field, order);
    SortedCount(rows, w, field, order);
    assert FindMany(rows, w, field, order, skip, take) == Window(sorted, skip, take);
    WindowSize(sorted, skip, take, Count(rows, w));
  }

  /** Sorting the matching rows keeps as many as the count says. */
  lemma SortedCount(rows: seq<Named>, w: Where, field: SortField, order: SortOrder)
    ensures |Sort(Filter(rows, w), field, order)| == Count(rows, w)
  {
    CountIsFilterSize(rows, w);
  }

  lemma WindowSize(s: seq<Named>, skip: nat, take: nat, n: nat)
    requires |s| == n
    ensures |Window(s, skip, take)| == Min(take, Max(0, n - skip))
  {
  }

  /** Every row on a page is a stored row that matches the filter. */
  lemma FindManyMembers(rows: seq<Named>, w: Where, field: SortField, order: SortOrder, skip: nat, take: nat)
    ensures forall x :: x in FindMany(rows, w, field, order, skip, take) ==> x in rows && Matches(w, x)
  {
    var matching := Filter(rows, w);
    var sorted := Sort(matching, field, order);
    WindowMembers(sorted, skip, take);
    SortPermutes(matching, field, order);
    forall x | x in sorted ensures x in rows && Matches(w, x) {
      assert x in multiset(sorted);
      FilterMembers(rows, w, x);
    }
  }

  /** A page follows the requested order. */
  lemma FindManyOrdered(rows: seq<Named>, w: Where, field: SortField, order: SortOrder, skip: nat, take: nat)
    ensures Ordered(FindMany(rows, w, field, order, skip, take), field, order)
  {
    var matching := Filter(rows, w);
    var sorted := Sort(matching, field, order);
    SortOrdered(matching, field, order);
    WindowOrdered(sorted, skip, take, field, order);
  }
}
