/**
 * A database table as a sequence of rows in primary-key order, with the three
 * writes the handlers commit: an INSERT with an engine-chosen key, and an
 * UPDATE and a DELETE addressed by primary key.
 */
module Table {
  /** Rows strictly ascending by primary key: keys are unique and a scan yields key order. */
  ghost predicate Keyed<T>(s: seq<T>, key: T -> int) {
    forall i, j :: 0 <= i < j < |s| ==> key(s[i]) < key(s[j])
  }

  /**
   * The key SQLite gives a row inserted without one into a rowid table: one
   * more than the largest key present, or 1 when the table is empty.
   */
  function NextKey<T>(s: seq<T>, key: T -> int): (k: int)
    ensures forall x :: x in s ==> key(x) < k
    ensures s == [] ==> k == 1
    ensures s != [] ==> exists x :: x in s && key(x) == k - 1
  {
    if |s| <= 1 then (if s == [] then 1 else key(s[0]) + 1)
    else
      var rest := NextKey(s[1..], key);
      assert forall x :: x in s[1..] ==> x in s;
      if key(s[0]) + 1 > rest then key(s[0]) + 1 else rest
  }

  /** The table after `DELETE ... WHERE key = k`. */
  function Delete<T(!new)>(s: seq<T>, key: T -> int, k: int): (r: seq<T>)
    ensures |r| <= |s|
    ensures forall x :: x in r <==> x in s && key(x) != k
  {
    if s == [] then []
    else (if key(s[0]) == k then [] else [s[0]]) + Delete(s[1..], key, k)
  }

  /** The table after an `UPDATE ... WHERE key = key(row)` that writes `row`. */
  function Update<T>(s: seq<T>, key: T -> int, row: T): (r: seq<T>)
    ensures |r| == |s|
    ensures forall i :: 0 <= i < |s| ==> r[i] == (if key(s[i]) == key(row) then row else s[i])
  {
    if s == [] then []
    else [if key(s[0]) == key(row) then row else s[0]] + Update(s[1..], key, row)
  }

  /** Deleting a key no row has leaves the table as it was. */
  lemma {:induction false} DeleteAbsent<T(!new)>(s: seq<T>, key: T -> int, k: int)
    requires forall j :: 0 <= j < |s| ==> key(s[j]) != k
    ensures Delete(s, key, k) == s
  {
    if s != [] {
      DeleteAbsent(s[1..], key, k);
    }
  }

  /** Dropping the first row keeps a table keyed. */
  lemma KeyedTail<T>(s: seq<T>, key: T -> int)
    requires Keyed(s, key) && s != []
    ensures Keyed(s[1..], key)
  {
    var tail := s[1..];
    forall a, b | 0 <= a < b < |tail| ensures key(tail[a]) < key(tail[b]) {
      assert tail[a] == s[a + 1] && tail[b] == s[b + 1];
    }
  }

  /** In a keyed table, deleting the first row's key leaves the rest. */
  lemma DeleteFirst<T(!new)>(s: seq<T>, key: T -> int)
    requires Keyed(s, key) && s != []
    ensures Delete(s, key, key(s[0])) == s[1..]
  {
    var tail := s[1..];
    forall j | 0 <= j < |tail| ensures key(tail[j]) != key(s[0]) {
      assert tail[j] == s[j + 1];
    }
    DeleteAbsent(tail, key, key(s[0]));
  }

  /** In a keyed table, deleting the key of row `i` removes that row and nothing else. */
  lemma {:induction false} DeleteAt<T(!new)>(s: seq<T>, key: T -> int, i: int)
    requires Keyed(s, key) && 0 <= i < |s|
    ensures Delete(s, key, key(s[i])) == s[..i] + s[i + 1..]
  {
    if i == 0 {
      DeleteFirst(s, key);
      assert s[..0] + s[1..] == s[1..];
    } else {
      KeyedTail(s, key);
      assert s[1..][i - 1] == s[i];
      DeleteAt(s[1..], key, i - 1);
      assert key(s[0]) < key(s[i]);
      SpliceTail(s, i);
    }
  }

  /** Removing row `i > 0` is keeping the first row and removing row `i - 1` of the rest. */
  lemma SpliceTail<T>(s: seq<T>, i: int)
    requires 0 < i < |s|
    ensures [s[0]] + (s[1..][..i - 1] + s[1..][i..]) == s[..i] + s[i + 1..]
  {
    assert [s[0]] + s[1..][..i - 1] == s[..i];
    assert s[1..][i..] == s[i + 1..];
  }

  /** In a keyed table, updating with the key of row `i` replaces that row and nothing else. */
  lemma UpdateAt<T>(s: seq<T>, key: T -> int, i: int, row: T)
    requires Keyed(s, key) && 0 <= i < |s| && key(row) == key(s[i])
    ensures Update(s, key, row) == s[i := row]
  {
  }

  /** Removing a row keeps a table keyed. */
  lemma KeyedRemove<T>(s: seq<T>, key: T -> int, i: int)
    requires Keyed(s, key) && 0 <= i < |s|
    ensures Keyed(s[..i] + s[i + 1..], key)
  {
    var r := s[..i] + s[i + 1..];
    forall a, b | 0 <= a < b < |r| ensures key(r[a]) < key(r[b]) {
      var a' := if a < i then a else a + 1;
      var b' := if b < i then b else b + 1;
      assert r[a] == s[a'] && r[b] == s[b'];
    }
  }

  /** Replacing a row by one with the same key keeps a table keyed. */
  lemma KeyedReplace<T>(s: seq<T>, key: T -> int, i: int, row: T)
    requires Keyed(s, key) && 0 <= i < |s| && key(row) == key(s[i])
    ensures Keyed(s[i := row], key)
  {
  }

  /** Appending a row whose key is above every other keeps a table keyed. */
  lemma KeyedAppend<T>(s: seq<T>, key: T -> int, x: T)
    requires Keyed(s, key) && forall y :: y in s ==> key(y) < key(x)
    ensures Keyed(s + [x], key)
  {
    var r := s + [x];
    forall a, b | 0 <= a < b < |r| ensures key(r[a]) < key(r[b]) {
      assert r[a] in s;
    }
  }
}
