/**
 * The two ORM queries the handlers issue, over a table held as a sequence of
 * rows in primary-key order: `filter_by(...).first()` and `filter_by(...).all()`.
 */
module Query {
  import opened Wrappers

  /** `i` is the position of the row that `.first()` returns for the filter `p`. */
  ghost predicate IsFirst<T>(s: seq<T>, p: T -> bool, i: int) {
    0 <= i < |s| && p(s[i]) && forall j :: 0 <= j < i ==> !p(s[j])
  }

  /** `filter_by(...).first()`: the position of the first matching row, or None. */
  function First<T>(s: seq<T>, p: T -> bool): (r: Option<nat>)
    ensures r.Some? ==> IsFirst(s, p, r.value)
    ensures r.None? <==> forall j :: 0 <= j < |s| ==> !p(s[j])
  {
    if s == [] then None
    else if p(s[0]) then Some(0)
    else match First(s[1..], p)
      case None => None
      case Some(i) =>
        assert forall j :: 1 <= j <= i ==> s[j] == s[1..][j - 1];
        Some(i + 1)
  }

  /** At most one position is the first match. */
  lemma IsFirstUnique<T>(s: seq<T>, p: T -> bool, i: int, k: int)
    requires IsFirst(s, p, i) && IsFirst(s, p, k)
    ensures i == k
  {
  }

  /** Overwriting the first match with another matching row keeps it the first match. */
  lemma IsFirstReplace<T>(s: seq<T>, p: T -> bool, i: int, x: T)
    requires IsFirst(s, p, i) && p(x)
    ensures IsFirst(s[i := x], p, i)
  {
  }

  /** `filter_by(...).all()`: the matching rows, in table order. */
  function Filter<T(!new)>(s: seq<T>, p: T -> bool): (r: seq<T>)
    ensures |r| <= |s|
    ensures forall x :: x in r <==> x in s && p(x)
  {
    if s == [] then []
    else (if p(s[0]) then [s[0]] else []) + Filter(s[1..], p)
  }

  /** A filter no row matches lists nothing. */
  lemma {:induction false} FilterNone<T(!new)>(s: seq<T>, p: T -> bool)
    requires forall j :: 0 <= j < |s| ==> !p(s[j])
    ensures Filter(s, p) == []
  {
    if s != [] {
      FilterNone(s[1..], p);
    }
  }

  /** A row appended to the table shows up at the end of a filtered listing exactly when it matches. */
  lemma {:induction false} FilterAppend<T(!new)>(s: seq<T>, x: T, p: T -> bool)
    ensures Filter(s + [x], p) == Filter(s, p) + (if p(x) then [x] else [])
  {
    if s == [] {
      assert [x][1..] == [];
    } else {
      var t := s + [x];
      assert t[0] == s[0] && t[1..] == s[1..] + [x];
      FilterAppend(s[1..], x, p);
      calc {
        Filter(t, p);
        (if p(s[0]) then [s[0]] else []) + Filter(s[1..] + [x], p);
        (if p(s[0]) then [s[0]] else []) + (Filter(s[1..], p) + (if p(x) then [x] else []));
        Filter(s, p) + (if p(x) then [x] else []);
      }
    }
  }
}
