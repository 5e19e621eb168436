/**
 * Views of a store table. A table is a map from a server-generated id to its row;
 * the store hands rows out in ascending id order, and a lookup by a non-key field is
 * the first row of that order that matches.
 */
module Tables {
  import opened Wrappers

  /** `findUnique({ where: { id } })`: the row stored under exactly that id; a negative id matches none. */
  function ById<T>(rows: map<nat, T>, id: int): (r: Option<T>)
    ensures r.Some? <==> id >= 0 && id as nat in rows
    ensures r.Some? ==> r.value == rows[id as nat]
  {
    if id >= 0 && id as nat in rows then Some(rows[id as nat]) else None
  }

  /** The rows whose id is below `n`, in ascending id order. */
  function Ascending<T>(rows: map<nat, T>, n: nat): (s: seq<T>)
    ensures |s| <= n
  {
    if n == 0 then [] else Ascending(rows, n - 1) + (if n - 1 in rows then [rows[n - 1]] else [])
  }

  /** The sequence view holds exactly the rows stored under an id below `n`. */
  lemma {:induction false} AscendingMembers<T>(rows: map<nat, T>, n: nat, x: T)
    ensures x in Ascending(rows, n) <==> exists id :: id in rows && id < n && rows[id] == x
  {
    if n > 0 {
      AscendingMembers(rows, n - 1, x);
      var tail := if n - 1 in rows then [rows[n - 1]] else [];
      assert Ascending(rows, n) == Ascending(rows, n - 1) + tail;
      if x in Ascending(rows, n) && x !in Ascending(rows, n - 1) {
        assert x in tail;
        assert rows[n - 1] == x;
      }
      if x !in Ascending(rows, n) {
        forall id | id in rows && id < n ensures rows[id] != x {
          if id == n - 1 {
            assert rows[id] in tail;
          }
        }
      }
    }
  }

  /** Storing under id `n` leaves the view of the ids below `n` as it was. */
  lemma {:induction false} AscendingBelow<T>(rows: map<nat, T>, n: nat, m: nat, x: T)
    requires m <= n
    ensures Ascending(rows[n := x], m) == Ascending(rows, m)
  {
    if m > 0 {
      AscendingBelow(rows, n, m - 1, x);
    }
  }

  /** A row stored under id `n` comes last in the view of the ids up to `n`. */
  lemma AscendingInsert<T>(rows: map<nat, T>, n: nat, x: T)
    ensures Ascending(rows[n := x], n + 1) == Ascending(rows, n) + [x]
  {
    AscendingBelow(rows, n, n, x);
  }

  /** The first element of `s` that satisfies `p`. */
  function FirstWhere<T>(s: seq<T>, p: T -> bool): (r: Option<T>)
    ensures r.Some? ==> r.value in s && p(r.value)
    ensures r.None? ==> forall x :: x in s ==> !p(x)
  {
    if s == [] then None
    else if p(s[0]) then Some(s[0])
    else FirstWhere(s[1..], p)
  }
}
