/**
 * What the relational gateway does with a table, once the table is an
 * in-memory sequence of rows in table order: a WHERE clause selects rows,
 * a DELETE removes them, a column list projects them.
 */
module Relational {

  /** `SELECT * ... WHERE p`: the rows satisfying `p`, in table order. */
  function Where<T(!new)>(s: seq<T>, p: T -> bool): (r: seq<T>)
    ensures |r| <= |s|
    ensures forall x :: x in r <==> x in s && p(x)
    decreases |s|
  {
    if s == [] then []
    else
      assert s == [s[0]] + s[1..];
      (if p(s[0]) then [s[0]] else []) + Where(s[1..], p)
  }

  /** A WHERE clause selects nothing exactly when no row satisfies it. */
  lemma WhereEmpty<T(!new)>(s: seq<T>, p: T -> bool)
    ensures Where(s, p) == [] <==> forall x | x in s :: !p(x)
  {
  }

  /** `DELETE ... WHERE p`: the rows that remain, in table order. */
  function DeleteWhere<T(!new)>(s: seq<T>, p: T -> bool): (r: seq<T>)
    ensures |r| <= |s|
    ensures forall x :: x in r <==> x in s && !p(x)
  {
    Where(s, x => !p(x))
  }

  /** `UPDATE ... SET f WHERE p`: the rows satisfying `p` rewritten by `f`, in place. */
  function UpdateWhere<T>(s: seq<T>, p: T -> bool, f: T -> T): (r: seq<T>)
    ensures |r| == |s|
    ensures forall i | 0 <= i < |s| :: r[i] == if p(s[i]) then f(s[i]) else s[i]
  {
    seq(|s|, i requires 0 <= i < |s| => if p(s[i]) then f(s[i]) else s[i])
  }

  /** A column list applied to every row. */
  function Project<T, U>(s: seq<T>, f: T -> U): (r: seq<U>)
    ensures |r| == |s|
    ensures forall i | 0 <= i < |s| :: r[i] == f(s[i])
  {
    seq(|s|, i requires 0 <= i < |s| => f(s[i]))
  }

  /** Selecting from rows appended to a table selects from each part. */
  lemma {:induction false} WhereAppend<T(!new)>(s: seq<T>, t: seq<T>, p: T -> bool)
    ensures Where(s + t, p) == Where(s, p) + Where(t, p)
    decreases |s|
  {
    if s == [] {
      assert s + t == t;
    } else {
      var head := if p(s[0]) then [s[0]] else [];
      assert (s + t)[0] == s[0] && (s + t)[1..] == s[1..] + t;
      assert Where(s + t, p) == head + Where(s[1..] + t, p);
      WhereAppend(s[1..], t, p);
      assert Where(s, p) == head + Where(s[1..], p);
      assert head + (Where(s[1..], p) + Where(t, p)) == (head + Where(s[1..], p)) + Where(t, p);
    }
  }

  /** Deleting the rows of `p` does not touch the rows a disjoint `q` selects. */
  lemma {:induction false} WhereAfterDelete<T(!new)>(s: seq<T>, p: T -> bool, q: T -> bool)
    requires forall x :: q(x) ==> !p(x)
    ensures Where(DeleteWhere(s, p), q) == Where(s, q)
    decreases |s|
  {
    if s != [] {
      WhereAfterDelete(s[1..], p, q);
      assert DeleteWhere(s, p) == (if !p(s[0]) then [s[0]] else []) + DeleteWhere(s[1..], p);
      WhereAppend(if !p(s[0]) then [s[0]] else [], DeleteWhere(s[1..], p), q);
    }
  }

  /** After deleting the rows of `p`, nothing satisfies `p`. */
  lemma {:induction false} WhereDeleted<T(!new)>(s: seq<T>, p: T -> bool)
    ensures Where(DeleteWhere(s, p), p) == []
    decreases |s|
  {
    if s != [] {
      WhereDeleted(s[1..], p);
      var head := if !p(s[0]) then [s[0]] else [];
      assert DeleteWhere(s, p) == head + DeleteWhere(s[1..], p);
      WhereAppend(head, DeleteWhere(s[1..], p), p);
    }
  }

  /**
   * Selection keeps every selected row as often as the table holds it and
   * drops every other row: it loses and invents no row.
   */
  lemma {:induction false} WhereCounts<T(!new)>(s: seq<T>, p: T -> bool, x: T)
    ensures multiset(Where(s, p))[x] == if p(x) then multiset(s)[x] else 0
    decreases |s|
  {
    if s != [] {
      WhereCounts(s[1..], p, x);
      assert s == [s[0]] + s[1..];
      var head := if p(s[0]) then [s[0]] else [];
      assert multiset(Where(s, p)) == multiset(head) + multiset(Where(s[1..], p));
    }
  }

  lemma ProjectAppend<T, U>(s: seq<T>, t: seq<T>, f: T -> U)
    ensures Project(s + t, f) == Project(s, f) + Project(t, f)
  {
  }

  /**
   * Selecting after an update that moves no row into or out of `q` is
   * updating the selection.
   */
  lemma {:induction false} WhereUpdateCommute<T(!new)>(s: seq<T>, p: T -> bool, f: T -> T, q: T -> bool)
    requires forall x :: p(x) ==> q(f(x)) == q(x)
    ensures Where(UpdateWhere(s, p, f), q) == UpdateWhere(Where(s, q), p, f)
    decreases |s|
  {
    if s != [] {
      var u := UpdateWhere(s, p, f);
      assert u[1..] == UpdateWhere(s[1..], p, f);
      WhereUpdateCommute(s[1..], p, f, q);
      var head := if q(s[0]) then [s[0]] else [];
      assert Where(s, q) == head + Where(s[1..], q);
      assert UpdateWhere(head + Where(s[1..], q), p, f)
          == UpdateWhere(head, p, f) + UpdateWhere(Where(s[1..], q), p, f);
    }
  }

  /**
   * An update that moves no row into or out of `q` leaves the rows `q`
   * selects where they were, each rewritten as the update rewrote it.
   */
  lemma WhereAfterUpdate<T(!new)>(s: seq<T>, p: T -> bool, f: T -> T, q: T -> bool)
    requires forall x :: p(x) ==> q(f(x)) == q(x)
    ensures |Where(UpdateWhere(s, p, f), q)| == |Where(s, q)|
    ensures forall i | 0 <= i < |Where(s, q)| ::
      Where(UpdateWhere(s, p, f), q)[i] == if p(Where(s, q)[i]) then f(Where(s, q)[i]) else Where(s, q)[i]
    ensures (forall x :: q(x) ==> !p(x)) ==> Where(UpdateWhere(s, p, f), q) == Where(s, q)
  {
    WhereUpdateCommute(s, p, f, q);
  }
}
