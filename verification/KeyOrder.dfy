/** ORDER BY key: rows kept in ascending key order, compared character by character. */
module KeyOrder {
  datatype TagRow = TagRow(key: string, value: string, isOverride: bool)

  predicate Before(a: string, b: string) {
    b != [] && (a == [] || a[0] < b[0] || (a[0] == b[0] && Before(a[1..], b[1..])))
  }

  ghost predicate FirstDifference(a: string, b: string, i: int) {
    0 <= i < |a| && i < |b| && a[..i] == b[..i] && a[i] < b[i]
  }

  /** A proper prefix comes first, and otherwise the first character that differs decides. */
  lemma {:induction false} BeforeExact(a: string, b: string)
    ensures Before(a, b) <==> a < b || exists i :: FirstDifference(a, b, i)
  {
    if a != [] && b != [] {
      BeforeExact(a[1..], b[1..]);
      assert a == [a[0]] + a[1..] && b == [b[0]] + b[1..];
      if a[0] == b[0] {
        TailDifference(a, b);
      } else {
        assert a[0] < b[0] ==> FirstDifference(a, b, 0);
        forall i | FirstDifference(a, b, i) ensures a[0] < b[0] {
          assert i > 0 ==> a[..i][0] == b[..i][0];
        }
      }
    }
  }

  lemma TailDifference(a: string, b: string)
    requires a != [] && b != [] && a[0] == b[0]
    ensures (exists i :: FirstDifference(a, b, i)) <==> exists i :: FirstDifference(a[1..], b[1..], i)
    ensures a < b <==> a[1..] < b[1..]
  {
    assert a == [a[0]] + a[1..] && b == [b[0]] + b[1..];
    forall i | FirstDifference(a, b, i) ensures FirstDifference(a[1..], b[1..], i - 1) && i > 0 {
      assert a[1..][..i - 1] == a[..i][1..] && b[1..][..i - 1] == b[..i][1..];
    }
    forall i | FirstDifference(a[1..], b[1..], i) ensures FirstDifference(a, b, i + 1) {
      assert a[..i + 1] == [a[0]] + a[1..][..i] && b[..i + 1] == [b[0]] + b[1..][..i];
    }
  }

  lemma {:induction false} BeforeIrreflexive(a: string)
    ensures !Before(a, a)
  {
    if a != [] {
      BeforeIrreflexive(a[1..]);
    }
  }

  lemma {:induction false} BeforeTotal(a: string, b: string)
    ensures a == b || Before(a, b) || Before(b, a)
  {
    if a != [] && b != [] {
      BeforeTotal(a[1..], b[1..]);
      assert a == [a[0]] + a[1..] && b == [b[0]] + b[1..];
    }
  }

  lemma {:induction false} BeforeTransitive(a: string, b: string, c: string)
    requires Before(a, b) && Before(b, c)
    ensures Before(a, c)
    decreases |a|
  {
    if a != [] && a[0] == b[0] && b[0] == c[0] {
      BeforeTransitive(a[1..], b[1..], c[1..]);
    }
  }

  /** Ascending keys, so no key twice. */
  ghost predicate Ascending(rows: seq<TagRow>) {
    forall i, j :: 0 <= i < j < |rows| ==> Before(rows[i].key, rows[j].key)
  }

  function ByKey(rows: seq<TagRow>): map<string, (string, bool)> {
    if rows == [] then map[]
    else
      var last := rows[|rows| - 1];
      ByKey(rows[..|rows| - 1])[last.key := (last.value, last.isOverride)]
  }

  function Insert(rows: seq<TagRow>, r: TagRow): seq<TagRow> {
    if rows == [] || Before(rows[|rows| - 1].key, r.key) then rows + [r]
    else Insert(rows[..|rows| - 1], r) + [rows[|rows| - 1]]
  }

  lemma {:induction false} KeysOf(rows: seq<TagRow>, k: string)
    ensures k in ByKey(rows) <==> exists i :: 0 <= i < |rows| && rows[i].key == k
  {
    if rows != [] {
      var init, last := rows[..|rows| - 1], rows[|rows| - 1];
      KeysOf(init, k);
      assert rows == init + [last];
      if k in ByKey(init) {
        var i :| 0 <= i < |init| && init[i].key == k;
        assert rows[i].key == k;
      }
      if k !in ByKey(init) && k != last.key {
        forall i | 0 <= i < |rows| ensures rows[i].key != k {
          assert i < |init| ==> init[i].key != k;
        }
      }
    }
  }

  lemma {:induction false} InsertElements(rows: seq<TagRow>, r: TagRow, x: TagRow)
    ensures x in Insert(rows, r) <==> x in rows || x == r
  {
    if rows != [] && !Before(rows[|rows| - 1].key, r.key) {
      InsertElements(rows[..|rows| - 1], r, x);
      assert rows == rows[..|rows| - 1] + [rows[|rows| - 1]];
    }
  }

  /** A row with a new key goes to its place. */
  lemma {:induction false} InsertExact(rows: seq<TagRow>, r: TagRow)
    requires Ascending(rows) && r.key !in ByKey(rows)
    ensures Ascending(Insert(rows, r))
    ensures ByKey(Insert(rows, r)) == ByKey(rows)[r.key := (r.value, r.isOverride)]
  {
    if rows == [] || Before(rows[|rows| - 1].key, r.key) {
      AppendAscending(rows, r);
      ByKeyAppend(rows, r);
    } else {
      var init, last := rows[..|rows| - 1], rows[|rows| - 1];
      assert r.key !in ByKey(init);
      InsertExact(init, r);
      InsertBelow(rows, r);
      AppendAscending(Insert(init, r), last);
      ByKeyAppend(Insert(init, r), last);
      UpdatesCommute(ByKey(init), r, last);
    }
  }

  lemma ByKeyAppend(rows: seq<TagRow>, r: TagRow)
    ensures ByKey(rows + [r]) == ByKey(rows)[r.key := (r.value, r.isOverride)]
  {
    assert (rows + [r])[..|rows|] == rows;
  }

  lemma UpdatesCommute(m: map<string, (string, bool)>, a: TagRow, b: TagRow)
    requires a.key != b.key
    ensures m[a.key := (a.value, a.isOverride)][b.key := (b.value, b.isOverride)]
         == m[b.key := (b.value, b.isOverride)][a.key := (a.value, a.isOverride)]
  {
  }

  /** Every row before the last one, old or new, has a smaller key. */
  lemma InsertBelow(rows: seq<TagRow>, r: TagRow)
    requires Ascending(rows) && rows != [] && r.key !in ByKey(rows) && !Before(rows[|rows| - 1].key, r.key)
    ensures var rest := Insert(rows[..|rows| - 1], r);
      forall i :: 0 <= i < |rest| ==> Before(rest[i].key, rows[|rows| - 1].key)
    ensures r.key != rows[|rows| - 1].key
  {
    var init, last := rows[..|rows| - 1], rows[|rows| - 1];
    var rest := Insert(init, r);
    BeforeTotal(r.key, last.key);
    forall i | 0 <= i < |rest| ensures Before(rest[i].key, last.key) {
      InsertElements(init, r, rest[i]);
      assert rest[i] in rest;
    }
  }

  lemma AppendAscending(rows: seq<TagRow>, r: TagRow)
    requires Ascending(rows)
    requires rows == [] || Before(rows[|rows| - 1].key, r.key)
             || forall i :: 0 <= i < |rows| ==> Before(rows[i].key, r.key)
    ensures Ascending(rows + [r])
  {
    if rows != [] && Before(rows[|rows| - 1].key, r.key) {
      forall i | 0 <= i < |rows| ensures Before(rows[i].key, r.key) {
        if i < |rows| - 1 {
          BeforeTransitive(rows[i].key, rows[|rows| - 1].key, r.key);
        }
      }
    }
  }
}
