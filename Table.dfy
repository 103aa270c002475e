/**
 * The row semantics Room gives a table whose primary key is an integer: the rows are
 * held in key order (as SQLite's rowid B-tree holds them), `@Insert(onConflict = REPLACE)`
 * deletes any row with the same key and stores the new one, `@Update` rewrites the row
 * with the same key if there is one, and `@Delete` removes the row with the same key.
 * Every function takes the table's key function, so both tables share these definitions.
 */
module Table {
  import opened Wrappers

  /** Keys strictly increase along `rows`; this also makes the key unique. */
  predicate Ascending<T(!new)>(rows: seq<T>, key: T -> int)
  {
    forall i, j :: 0 <= i < j < |rows| ==> key(rows[i]) < key(rows[j])
  }

  /** Keys strictly decrease along `rows`: the order of `ORDER BY id DESC`. */
  predicate Descending<T(!new)>(rows: seq<T>, key: T -> int)
  {
    forall i, j :: 0 <= i < j < |rows| ==> key(rows[i]) > key(rows[j])
  }

  /** Some row of `rows` has key `k`. */
  ghost predicate HasKey<T(!new)>(rows: seq<T>, key: T -> int, k: int)
  {
    exists i :: 0 <= i < |rows| && key(rows[i]) == k
  }

  /** Rows with equal keys are equal rows. */
  ghost predicate KeyDetermines<T(!new)>(rows: seq<T>, key: T -> int)
  {
    forall i, j :: 0 <= i < |rows| && 0 <= j < |rows| && key(rows[i]) == key(rows[j]) ==> rows[i] == rows[j]
  }

  /** The rows that satisfy `p`, in their original order (a `WHERE` clause). */
  function Where<T(!new)>(rows: seq<T>, p: T -> bool): (r: seq<T>)
    ensures |r| <= |rows|
    ensures forall x :: x in r <==> x in rows && p(x)
  {
    if |rows| == 0 then []
    else if p(rows[0]) then [rows[0]] + Where(rows[1..], p)
    else Where(rows[1..], p)
  }

  /** `rows` back to front. */
  function Reverse<T(!new)>(s: seq<T>): (r: seq<T>)
    ensures |r| == |s|
    ensures forall i :: 0 <= i < |s| ==> r[i] == s[|s| - 1 - i]
    ensures forall x :: x in r <==> x in s
  {
    if |s| == 0 then []
    else
      assert s == [s[0]] + s[1..];
      Reverse(s[1..]) + [s[0]]
  }

  /** The predicate "the key is not `k`". */
  function KeyIsNot<T(!new)>(key: T -> int, k: int): T -> bool
  {
    x => key(x) != k
  }

  /** `DELETE ... WHERE id = k`. */
  function Remove<T(!new)>(rows: seq<T>, key: T -> int, k: int): (r: seq<T>)
    ensures forall x :: x in r <==> x in rows && key(x) != k
    ensures Ascending(rows, key) ==> Ascending(r, key)
  {
    WhereKeepsOrder(rows, KeyIsNot(key, k), key);
    Where(rows, KeyIsNot(key, k))
  }

  /** The row with key `k`, if there is one. */
  function Find<T(!new)>(rows: seq<T>, key: T -> int, k: int): (r: Option<T>)
    ensures r.Some? ==> r.value in rows && key(r.value) == k
    ensures r.None? <==> forall x :: x in rows ==> key(x) != k
  {
    if |rows| == 0 then None
    else if key(rows[0]) == k then Some(rows[0])
    else Find(rows[1..], key, k)
  }

  /** Stores `x`, whose key is new, at its place in key order. */
  function Insert<T(!new)>(rows: seq<T>, key: T -> int, x: T): (r: seq<T>)
    requires Ascending(rows, key)
    requires forall y :: y in rows ==> key(y) != key(x)
    ensures |r| == |rows| + 1
    ensures Ascending(r, key)
    ensures forall y :: y in r <==> y in rows || y == x
  {
    if |rows| == 0 || key(x) < key(rows[0]) then [x] + rows
    else
      var tail := Insert(rows[1..], key, x);
      assert forall y :: y in tail ==> key(rows[0]) < key(y);
      [rows[0]] + tail
  }

  /** `INSERT OR REPLACE`: drops the row with `x`'s key, if any, and stores `x`. */
  function Upsert<T(!new)>(rows: seq<T>, key: T -> int, x: T): (r: seq<T>)
    requires Ascending(rows, key)
    ensures Ascending(r, key)
    ensures x in r
    ensures forall y :: y in r && key(y) == key(x) ==> y == x
    ensures forall y :: key(y) != key(x) ==> (y in r <==> y in rows)
  {
    Insert(Remove(rows, key, key(x)), key, x)
  }

  /** `UPDATE ... WHERE id = key(x)`: every row with `x`'s key becomes `x`; no other row changes. */
  function Replace<T(!new)>(rows: seq<T>, key: T -> int, x: T): (r: seq<T>)
    ensures |r| == |rows|
    ensures forall i :: 0 <= i < |rows| ==> r[i] == (if key(rows[i]) == key(x) then x else rows[i])
  {
    if |rows| == 0 then []
    else [if key(rows[0]) == key(x) then x else rows[0]] + Replace(rows[1..], key, x)
  }

  /** One `DELETE` per victim, in order. */
  function RemoveEach<T(!new)>(rows: seq<T>, key: T -> int, victims: seq<T>): (r: seq<T>)
    ensures Ascending(rows, key) ==> Ascending(r, key)
    ensures forall y :: y in r <==> y in rows && !HasKey(victims, key, key(y))
    decreases |victims|
  {
    if |victims| == 0 then rows
    else
      var n := |victims| - 1;
      var before := RemoveEach(rows, key, victims[..n]);
      HasKeySnoc(victims, key);
      Remove(before, key, key(victims[n]))
  }

  /** One `INSERT OR REPLACE` per item, in order. */
  function ReinsertEach<T(!new)>(rows: seq<T>, key: T -> int, items: seq<T>): (r: seq<T>)
    requires Ascending(rows, key)
    ensures Ascending(r, key)
    decreases |items|
  {
    if |items| == 0 then rows
    else
      var n := |items| - 1;
      Upsert(ReinsertEach(rows, key, items[..n]), key, items[n])
  }

  // ---------------------------------------------------------------------------
  // Lemmas

  /** Deleting one more victim is one more `Remove`. */
  lemma RemoveEachStep<T(!new)>(rows: seq<T>, key: T -> int, victims: seq<T>, i: nat)
    requires i < |victims|
    ensures RemoveEach(rows, key, victims[..i + 1]) == Remove(RemoveEach(rows, key, victims[..i]), key, key(victims[i]))
  {
    assert victims[..i + 1][..i] == victims[..i];
  }

  /** Re-inserting one more item is one more `Upsert`. */
  lemma ReinsertEachStep<T(!new)>(rows: seq<T>, key: T -> int, items: seq<T>, i: nat)
    requires Ascending(rows, key)
    requires i < |items|
    ensures ReinsertEach(rows, key, items[..i + 1]) == Upsert(ReinsertEach(rows, key, items[..i]), key, items[i])
  {
    assert items[..i + 1][..i] == items[..i];
  }

  /** Splitting off the last element of a sequence splits `HasKey`. */
  lemma HasKeySnoc<T(!new)>(s: seq<T>, key: T -> int)
    requires |s| > 0
    ensures forall k :: HasKey(s, key, k) <==> HasKey(s[..|s| - 1], key, k) || key(s[|s| - 1]) == k
  {
    var n := |s| - 1;
    forall k | HasKey(s, key, k) ensures HasKey(s[..n], key, k) || key(s[n]) == k {
      var i :| 0 <= i < |s| && key(s[i]) == k;
      if i < n { assert key(s[..n][i]) == k; }
    }
    forall k | HasKey(s[..n], key, k) ensures HasKey(s, key, k) {
      var i :| 0 <= i < n && key(s[..n][i]) == k;
      assert key(s[i]) == k;
    }
  }

  /** A filter keeps the rows in key order. */
  lemma {:induction false} WhereKeepsOrder<T(!new)>(rows: seq<T>, p: T -> bool, key: T -> int)
    ensures Ascending(rows, key) ==> Ascending(Where(rows, p), key)
  {
    if |rows| > 0 && Ascending(rows, key) {
      WhereKeepsOrder(rows[1..], p, key);
      var tail := Where(rows[1..], p);
      forall y | y in tail ensures key(rows[0]) < key(y) {
        var j :| 0 <= j < |rows[1..]| && rows[1..][j] == y;
        assert rows[j + 1] == y;
      }
    }
  }

  /** A filter that every row passes returns the rows. */
  lemma {:induction false} WhereAll<T(!new)>(rows: seq<T>, p: T -> bool)
    requires forall x :: x in rows ==> p(x)
    ensures Where(rows, p) == rows
  {
    if |rows| > 0 {
      assert rows[0] in rows;
      assert forall x :: x in rows[1..] ==> x in rows;
      WhereAll(rows[1..], p);
    }
  }

  /** A filter of a concatenation is the concatenation of the filters. */
  lemma {:induction false} WhereConcat<T(!new)>(a: seq<T>, b: seq<T>, p: T -> bool)
    ensures Where(a + b, p) == Where(a, p) + Where(b, p)
  {
    if |a| > 0 {
      assert (a + b)[1..] == a[1..] + b;
      WhereConcat(a[1..], b, p);
    } else {
      assert a + b == b;
    }
  }

  /** Reversing a concatenation reverses and swaps the parts. */
  lemma ReverseConcat<T(!new)>(a: seq<T>, b: seq<T>)
    ensures Reverse(a + b) == Reverse(b) + Reverse(a)
  {
    var l, r := Reverse(a + b), Reverse(b) + Reverse(a);
    assert |l| == |r|;
    forall i | 0 <= i < |l| ensures l[i] == r[i] {
      if i < |b| {
        assert l[i] == (a + b)[|a| + |b| - 1 - i] == b[|b| - 1 - i];
      } else {
        assert l[i] == (a + b)[|a| + |b| - 1 - i] == a[|a| + |b| - 1 - i];
      }
    }
  }

  /** Reversing a key-ordered table gives the `ORDER BY id DESC` order. */
  lemma ReverseDescends<T(!new)>(rows: seq<T>, key: T -> int)
    requires Ascending(rows, key)
    ensures Descending(Reverse(rows), key)
  {
  }

  /** In a key-ordered table the first row does not occur again. */
  lemma HeadNotInTail<T(!new)>(rows: seq<T>, key: T -> int)
    requires Ascending(rows, key)
    requires |rows| > 0
    ensures rows[0] !in rows[1..]
  {
    forall k | 0 <= k < |rows| - 1 ensures rows[1..][k] != rows[0] {
      assert key(rows[0]) < key(rows[k + 1]);
    }
  }

  /** In a key-ordered table a key identifies at most one row. */
  lemma AscendingKeyDetermines<T(!new)>(rows: seq<T>, key: T -> int)
    requires Ascending(rows, key)
    ensures forall x, y :: x in rows && y in rows && key(x) == key(y) ==> x == y
  {
    forall x, y | x in rows && y in rows && key(x) == key(y) ensures x == y {
      var i :| 0 <= i < |rows| && rows[i] == x;
      var j :| 0 <= j < |rows| && rows[j] == y;
      assert i == j;
    }
  }

  /** Two key-ordered tables with the same rows are the same sequence. */
  lemma {:induction false} AscendingUnique<T(!new)>(a: seq<T>, b: seq<T>, key: T -> int)
    requires Ascending(a, key) && Ascending(b, key)
    requires forall x :: x in a <==> x in b
    ensures a == b
    decreases |a|
  {
    if |a| > 0 { assert a[0] in b; }
    if |b| > 0 { assert b[0] in a; }
    if |a| > 0 {
      var j :| 0 <= j < |b| && b[j] == a[0];
      assert b[0] in a;
      var i :| 0 <= i < |a| && a[i] == b[0];
      assert key(a[0]) <= key(a[i]);
      assert j == 0;
      forall x | x in a[1..] ensures x in b[1..] {
        var k :| 0 <= k < |a[1..]| && a[1..][k] == x;
        assert key(a[0]) < key(x);
        assert x in b;
        var m :| 0 <= m < |b| && b[m] == x;
        assert m != 0;
        assert b[1..][m - 1] == x;
      }
      forall x | x in b[1..] ensures x in a[1..] {
        var k :| 0 <= k < |b[1..]| && b[1..][k] == x;
        assert key(b[0]) < key(x);
        assert x in a;
        var m :| 0 <= m < |a| && a[m] == x;
        assert m != 0;
        assert a[1..][m - 1] == x;
      }
      AscendingUnique(a[1..], b[1..], key);
      assert a == [a[0]] + a[1..] && b == [b[0]] + b[1..];
    }
  }

  /** A row whose key is larger than every stored key is appended at the end. */
  lemma UpsertFresh<T(!new)>(rows: seq<T>, key: T -> int, x: T)
    requires Ascending(rows, key)
    requires forall y :: y in rows ==> key(y) < key(x)
    ensures Upsert(rows, key, x) == rows + [x]
  {
    var r := Upsert(rows, key, x);
    forall y ensures y in r <==> y in rows + [x] {
      if key(y) == key(x) {
        assert y in rows + [x] <==> y == x;
      }
    }
    AscendingUnique(r, rows + [x], key);
  }

  /** `Remove` of a key no row has changes nothing. */
  lemma RemoveAbsent<T(!new)>(rows: seq<T>, key: T -> int, k: int)
    requires forall y :: y in rows ==> key(y) != k
    ensures Remove(rows, key, k) == rows
  {
    WhereAll(rows, KeyIsNot(key, k));
  }

  /** `Replace` of a key no row has changes nothing. */
  lemma ReplaceAbsent<T(!new)>(rows: seq<T>, key: T -> int, x: T)
    requires forall y :: y in rows ==> key(y) != key(x)
    ensures Replace(rows, key, x) == rows
  {
    var r := Replace(rows, key, x);
    forall i | 0 <= i < |rows| ensures r[i] == rows[i] {
      assert rows[i] in rows;
    }
  }

  /** `Replace` keeps the keys, hence the key order. */
  lemma ReplaceKeepsOrder<T(!new)>(rows: seq<T>, key: T -> int, x: T)
    requires Ascending(rows, key)
    ensures Ascending(Replace(rows, key, x), key)
  {
  }

  /** When the key is present, `UPDATE` and `INSERT OR REPLACE` leave the same table. */
  lemma ReplaceIsUpsert<T(!new)>(rows: seq<T>, key: T -> int, x: T)
    requires Ascending(rows, key)
    requires HasKey(rows, key, key(x))
    ensures Replace(rows, key, x) == Upsert(rows, key, x)
  {
    var r := Replace(rows, key, x);
    var u := Upsert(rows, key, x);
    ReplaceKeepsOrder(rows, key, x);
    var i :| 0 <= i < |rows| && key(rows[i]) == key(x);
    assert r[i] == x;
    forall y ensures y in r <==> y in u {
      if y in r {
        var j :| 0 <= j < |r| && r[j] == y;
        if key(rows[j]) != key(x) { assert rows[j] in rows; }
      }
      if y in u && key(y) != key(x) {
        var j :| 0 <= j < |rows| && rows[j] == y;
        assert r[j] == y;
      }
    }
    AscendingUnique(r, u, key);
  }

  /** Deleting a row and then inserting it again restores the table. */
  lemma RemoveThenUpsert<T(!new)>(rows: seq<T>, key: T -> int, x: T)
    requires Ascending(rows, key)
    requires x in rows
    ensures Upsert(Remove(rows, key, key(x)), key, x) == rows
  {
    var u := Upsert(Remove(rows, key, key(x)), key, x);
    AscendingKeyDetermines(rows, key);
    AscendingUnique(u, rows, key);
  }

  /** When equal keys mean equal items, the re-inserted table holds the untouched rows and the items. */
  lemma {:induction false} ReinsertEachRows<T(!new)>(rows: seq<T>, key: T -> int, items: seq<T>)
    requires Ascending(rows, key)
    requires KeyDetermines(items, key)
    ensures forall y :: y in ReinsertEach(rows, key, items) <==>
      (y in rows && !HasKey(items, key, key(y))) || y in items
    decreases |items|
  {
    if |items| > 0 {
      var n := |items| - 1;
      assert KeyDetermines(items[..n], key);
      ReinsertEachRows(rows, key, items[..n]);
      HasKeySnoc(items, key);
      forall y ensures y in ReinsertEach(rows, key, items) <==>
        (y in rows && !HasKey(items, key, key(y))) || y in items
      {
        if key(y) == key(items[n]) && y in items {
          var i :| 0 <= i < |items| && items[i] == y;
          assert y == items[n];
        }
        assert y in items <==> y in items[..n] || y == items[n];
        if y in items[..n] {
          var i :| 0 <= i < n && items[..n][i] == y;
          assert items[i] == y;
        }
      }
    }
  }

  /**
   * Deleting rows of the table one by one and then re-inserting the same rows one by
   * one restores the table exactly.
   */
  lemma UndoRestores<T(!new)>(rows: seq<T>, key: T -> int, victims: seq<T>)
    requires Ascending(rows, key)
    requires forall v :: v in victims ==> v in rows
    ensures ReinsertEach(RemoveEach(rows, key, victims), key, victims) == rows
  {
    var removed := RemoveEach(rows, key, victims);
    var r := ReinsertEach(removed, key, victims);
    AscendingKeyDetermines(rows, key);
    assert KeyDetermines(victims, key) by {
      forall i, j | 0 <= i < |victims| && 0 <= j < |victims| && key(victims[i]) == key(victims[j])
        ensures victims[i] == victims[j]
      {
        assert victims[i] in rows && victims[j] in rows;
      }
    }
    ReinsertEachRows(removed, key, victims);
    forall y ensures y in r <==> y in rows {
      if y in rows && HasKey(victims, key, key(y)) {
        var i :| 0 <= i < |victims| && key(victims[i]) == key(y);
        assert victims[i] in rows;
        assert victims[i] == y;
      }
    }
    AscendingUnique(r, rows, key);
  }

  /** `Find` returns the row that has the key. */
  lemma FindPresent<T(!new)>(rows: seq<T>, key: T -> int, x: T)
    requires Ascending(rows, key)
    requires x in rows
    ensures Find(rows, key, key(x)) == Some(x)
  {
    AscendingKeyDetermines(rows, key);
  }
}
