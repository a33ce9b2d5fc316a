/**
 * The part of a pandas DataFrame the merge step relies on: rows as maps from
 * column name to cell, a missing column reading as "no value" (NaN/None), and
 * `drop_duplicates(subset=keys)` with its default `keep="first"`.
 */
module Frame {

  /** A cell: NaN/None, a text value, or a number. Two "no value" cells compare equal. */
  datatype Cell = NoValue | Str(text: string) | Number(value: real)

  type Column = string
  type Row = map<Column, Cell>
  type Key = seq<Cell>

  /** The row's cell in `column`; a column the row lacks is NaN after `pd.concat`. */
  function Get(row: Row, column: Column): Cell {
    if column in row then row[column] else NoValue
  }

  /** The projection of a row on the key columns, in key order. */
  function KeyOf(row: Row, keys: seq<Column>): Key {
    seq(|keys|, i requires 0 <= i < |keys| => Get(row, keys[i]))
  }

  /** Two rows have the same key exactly when they agree on every key column. */
  lemma SameKeyIff(a: Row, b: Row, keys: seq<Column>)
    ensures KeyOf(a, keys) == KeyOf(b, keys) <==> forall c :: c in keys ==> Get(a, c) == Get(b, c)
  {
    if forall c :: c in keys ==> Get(a, c) == Get(b, c) {
      forall i | 0 <= i < |keys| ensures KeyOf(a, keys)[i] == KeyOf(b, keys)[i] {
        assert keys[i] in keys;
      }
    }
    if KeyOf(a, keys) == KeyOf(b, keys) {
      forall c | c in keys ensures Get(a, c) == Get(b, c) {
        var i :| 0 <= i < |keys| && keys[i] == c;
        assert KeyOf(a, keys)[i] == KeyOf(b, keys)[i];
      }
    }
  }

  /** The keys carried by some row. */
  function KeySet(rows: seq<Row>, keys: seq<Column>): set<Key> {
    set i | 0 <= i < |rows| :: KeyOf(rows[i], keys)
  }

  /** No two rows agree on all key columns. */
  predicate UniqueKeys(rows: seq<Row>, keys: seq<Column>) {
    forall i, j :: 0 <= i < j < |rows| ==> KeyOf(rows[i], keys) != KeyOf(rows[j], keys)
  }

  /** `a` is obtained from `b` by deleting elements. */
  predicate IsSubsequence<T(==)>(a: seq<T>, b: seq<T>)
    decreases |b|
  {
    a == [] || (b != [] && ((a[0] == b[0] && IsSubsequence(a[1..], b[1..])) || IsSubsequence(a, b[1..])))
  }

  /**
   * Scans the rows front to back, keeping a row unless its key was seen
   * before (in `seen` or on an earlier row): pandas' `keep="first"`.
   */
  function DropDuplicatesFrom(rows: seq<Row>, keys: seq<Column>, seen: set<Key>): seq<Row>
    decreases |rows|
  {
    if rows == [] then []
    else
      var k := KeyOf(rows[0], keys);
      if k in seen then DropDuplicatesFrom(rows[1..], keys, seen)
      else [rows[0]] + DropDuplicatesFrom(rows[1..], keys, seen + {k})
  }

  /** `drop_duplicates(subset=keys)`. */
  function DropDuplicates(rows: seq<Row>, keys: seq<Column>): seq<Row> {
    DropDuplicatesFrom(rows, keys, {})
  }

  /** The index of the earliest row carrying key `k`. */
  function FirstIndex(rows: seq<Row>, keys: seq<Column>, k: Key): (i: nat)
    requires k in KeySet(rows, keys)
    ensures i < |rows| && KeyOf(rows[i], keys) == k
    ensures forall j :: 0 <= j < i ==> KeyOf(rows[j], keys) != k
    decreases |rows|
  {
    if KeyOf(rows[0], keys) == k then 0
    else
      KeySetCons(rows, keys);
      FirstIndex(rows[1..], keys, k) + 1
  }

  /** Each row of `r` is the earliest row of `rows` carrying its key. */
  predicate EarliestRows(r: seq<Row>, rows: seq<Row>, keys: seq<Column>) {
    forall j :: 0 <= j < |r| ==>
      KeyOf(r[j], keys) in KeySet(rows, keys) && r[j] == rows[FirstIndex(rows, keys, KeyOf(r[j], keys))]
  }

  /** `r` lists its keys in the order of their earliest occurrences in `rows`. */
  predicate InFirstOccurrenceOrder(r: seq<Row>, rows: seq<Row>, keys: seq<Column>) {
    forall i, j :: 0 <= i < j < |r| && KeyOf(r[i], keys) in KeySet(rows, keys) && KeyOf(r[j], keys) in KeySet(rows, keys) ==>
      FirstIndex(rows, keys, KeyOf(r[i], keys)) < FirstIndex(rows, keys, KeyOf(r[j], keys))
  }

  lemma KeySetConcat(a: seq<Row>, b: seq<Row>, keys: seq<Column>)
    ensures KeySet(a + b, keys) == KeySet(a, keys) + KeySet(b, keys)
  {
    var ab := a + b;
    forall k | k in KeySet(ab, keys) ensures k in KeySet(a, keys) + KeySet(b, keys) {
      var i :| 0 <= i < |ab| && KeyOf(ab[i], keys) == k;
      if i < |a| {
        assert ab[i] == a[i];
      } else {
        assert ab[i] == b[i - |a|];
      }
    }
    forall k | k in KeySet(a, keys) ensures k in KeySet(ab, keys) {
      var i :| 0 <= i < |a| && KeyOf(a[i], keys) == k;
      assert ab[i] == a[i];
    }
    forall k | k in KeySet(b, keys) ensures k in KeySet(ab, keys) {
      var i :| 0 <= i < |b| && KeyOf(b[i], keys) == k;
      assert ab[|a| + i] == b[i];
    }
  }

  lemma KeySetCons(rows: seq<Row>, keys: seq<Column>)
    requires rows != []
    ensures KeySet(rows, keys) == {KeyOf(rows[0], keys)} + KeySet(rows[1..], keys)
  {
    KeySetConcat([rows[0]], rows[1..], keys);
    assert [rows[0]] + rows[1..] == rows;
    assert KeySet([rows[0]], keys) == {KeyOf(rows[0], keys)};
  }

  lemma {:induction false} SubsequenceFrom(rows: seq<Row>, keys: seq<Column>, seen: set<Key>)
    ensures IsSubsequence(DropDuplicatesFrom(rows, keys, seen), rows)
    decreases |rows|
  {
    if rows != [] {
      var k := KeyOf(rows[0], keys);
      if k in seen {
        SubsequenceFrom(rows[1..], keys, seen);
      } else {
        SubsequenceFrom(rows[1..], keys, seen + {k});
        var r := DropDuplicatesFrom(rows, keys, seen);
        assert r[0] == rows[0] && r[1..] == DropDuplicatesFrom(rows[1..], keys, seen + {k});
      }
    }
  }

  lemma {:induction false} UniqueFrom(rows: seq<Row>, keys: seq<Column>, seen: set<Key>)
    ensures UniqueKeys(DropDuplicatesFrom(rows, keys, seen), keys)
    ensures forall j :: 0 <= j < |DropDuplicatesFrom(rows, keys, seen)| ==>
      KeyOf(DropDuplicatesFrom(rows, keys, seen)[j], keys) !in seen
    decreases |rows|
  {
    if rows != [] {
      var k := KeyOf(rows[0], keys);
      if k in seen {
        UniqueFrom(rows[1..], keys, seen);
      } else {
        var tail := DropDuplicatesFrom(rows[1..], keys, seen + {k});
        UniqueFrom(rows[1..], keys, seen + {k});
        var r := [rows[0]] + tail;
        assert r == DropDuplicatesFrom(rows, keys, seen);
        forall i, j | 0 <= i < j < |r| ensures KeyOf(r[i], keys) != KeyOf(r[j], keys) {
          assert r[j] == tail[j - 1];
          if i > 0 {
            assert r[i] == tail[i - 1];
          }
        }
        forall j | 0 <= j < |r| ensures KeyOf(r[j], keys) !in seen {
          if j > 0 {
            assert r[j] == tail[j - 1];
          }
        }
      }
    }
  }

  lemma {:induction false} KeySetFrom(rows: seq<Row>, keys: seq<Column>, seen: set<Key>)
    ensures KeySet(DropDuplicatesFrom(rows, keys, seen), keys) == KeySet(rows, keys) - seen
    decreases |rows|
  {
    if rows != [] {
      var k := KeyOf(rows[0], keys);
      KeySetCons(rows, keys);
      if k in seen {
        KeySetFrom(rows[1..], keys, seen);
      } else {
        KeySetFrom(rows[1..], keys, seen + {k});
        KeySetCons(DropDuplicatesFrom(rows, keys, seen), keys);
      }
    }
  }

  /** Past a first row with another key, earliest positions shift by one. */
  lemma FirstIndexShift(rows: seq<Row>, keys: seq<Column>, k: Key)
    requires rows != [] && k in KeySet(rows[1..], keys) && k != KeyOf(rows[0], keys)
    ensures k in KeySet(rows, keys)
    ensures FirstIndex(rows, keys, k) == FirstIndex(rows[1..], keys, k) + 1
  {
    KeySetCons(rows, keys);
  }

  lemma {:induction false} EarliestFrom(rows: seq<Row>, keys: seq<Column>, seen: set<Key>)
    ensures EarliestRows(DropDuplicatesFrom(rows, keys, seen), rows, keys)
    decreases |rows|
  {
    if rows != [] {
      var k := KeyOf(rows[0], keys);
      var seen' := if k in seen then seen else seen + {k};
      var tail := DropDuplicatesFrom(rows[1..], keys, seen');
      var r := DropDuplicatesFrom(rows, keys, seen);
      EarliestFrom(rows[1..], keys, seen');
      UniqueFrom(rows[1..], keys, seen');
      // Every row of the tail has a key other than rows[0]'s, so its earliest
      // occurrence in `rows` is one past its earliest occurrence in `rows[1..]`.
      forall j | 0 <= j < |tail|
        ensures KeyOf(tail[j], keys) in KeySet(rows, keys)
        ensures tail[j] == rows[FirstIndex(rows, keys, KeyOf(tail[j], keys))]
      {
        FirstIndexShift(rows, keys, KeyOf(tail[j], keys));
      }
      if k !in seen {
        assert r == [rows[0]] + tail;
        KeySetCons(rows, keys);
        assert FirstIndex(rows, keys, k) == 0;
        forall j | 1 <= j < |r| ensures r[j] == tail[j - 1] { }
      }
    }
  }

  lemma {:induction false} OrderFrom(rows: seq<Row>, keys: seq<Column>, seen: set<Key>)
    ensures InFirstOccurrenceOrder(DropDuplicatesFrom(rows, keys, seen), rows, keys)
    decreases |rows|
  {
    if rows != [] {
      var k := KeyOf(rows[0], keys);
      var seen' := if k in seen then seen else seen + {k};
      var tail := DropDuplicatesFrom(rows[1..], keys, seen');
      var r := DropDuplicatesFrom(rows, keys, seen);
      OrderFrom(rows[1..], keys, seen');
      EarliestFrom(rows[1..], keys, seen');
      UniqueFrom(rows[1..], keys, seen');
      forall j | 0 <= j < |tail|
        ensures KeyOf(tail[j], keys) in KeySet(rows, keys)
        ensures FirstIndex(rows, keys, KeyOf(tail[j], keys)) == FirstIndex(rows[1..], keys, KeyOf(tail[j], keys)) + 1
      {
        FirstIndexShift(rows, keys, KeyOf(tail[j], keys));
      }
      if k !in seen {
        assert r == [rows[0]] + tail;
        KeySetCons(rows, keys);
        assert FirstIndex(rows, keys, k) == 0;
        forall i, j | 0 <= i < j < |r| && KeyOf(r[i], keys) in KeySet(rows, keys) && KeyOf(r[j], keys) in KeySet(rows, keys)
          ensures FirstIndex(rows, keys, KeyOf(r[i], keys)) < FirstIndex(rows, keys, KeyOf(r[j], keys))
        {
          assert r[j] == tail[j - 1];
          if i > 0 {
            assert r[i] == tail[i - 1];
          }
        }
      }
    }
  }

  lemma {:induction false} SplitFrom(a: seq<Row>, b: seq<Row>, keys: seq<Column>, seen: set<Key>)
    ensures DropDuplicatesFrom(a + b, keys, seen)
      == DropDuplicatesFrom(a, keys, seen) + DropDuplicatesFrom(b, keys, seen + KeySet(a, keys))
    decreases |a|
  {
    if a == [] {
      assert a + b == b;
      assert KeySet(a, keys) == {};
      assert seen + KeySet(a, keys) == seen;
    } else {
      var k := KeyOf(a[0], keys);
      assert (a + b)[0] == a[0] && (a + b)[1..] == a[1..] + b;
      KeySetCons(a, keys);
      if k in seen {
        SplitFrom(a[1..], b, keys, seen);
        assert seen + KeySet(a, keys) == seen + KeySet(a[1..], keys);
      } else {
        SplitFrom(a[1..], b, keys, seen + {k});
        assert seen + KeySet(a, keys) == seen + {k} + KeySet(a[1..], keys);
      }
    }
  }

  lemma {:induction false} AllSeenFrom(rows: seq<Row>, keys: seq<Column>, seen: set<Key>)
    requires KeySet(rows, keys) <= seen
    ensures DropDuplicatesFrom(rows, keys, seen) == []
    decreases |rows|
  {
    if rows != [] {
      KeySetCons(rows, keys);
      AllSeenFrom(rows[1..], keys, seen);
    }
  }

  lemma {:induction false} UniqueUnchangedFrom(rows: seq<Row>, keys: seq<Column>, seen: set<Key>)
    requires UniqueKeys(rows, keys) && KeySet(rows, keys) !! seen
    ensures DropDuplicatesFrom(rows, keys, seen) == rows
    decreases |rows|
  {
    if rows != [] {
      var k := KeyOf(rows[0], keys);
      KeySetCons(rows, keys);
      assert UniqueKeys(rows[1..], keys) by {
        forall i, j | 0 <= i < j < |rows| - 1 ensures KeyOf(rows[1..][i], keys) != KeyOf(rows[1..][j], keys) {
          assert rows[1..][i] == rows[i + 1] && rows[1..][j] == rows[j + 1];
        }
      }
      forall k' | k' in KeySet(rows[1..], keys) ensures k' != k {
        var j :| 0 <= j < |rows| - 1 && KeyOf(rows[1..][j], keys) == k';
        assert rows[1..][j] == rows[j + 1];
      }
      UniqueUnchangedFrom(rows[1..], keys, seen + {k});
    }
  }

  /** The result keeps some rows of the input, in their input order. */
  lemma DropDuplicatesIsSubsequence(rows: seq<Row>, keys: seq<Column>)
    ensures IsSubsequence(DropDuplicates(rows, keys), rows)
  {
    SubsequenceFrom(rows, keys, {});
  }

  /** No two rows of the result agree on all key columns. */
  lemma DropDuplicatesUniqueKeys(rows: seq<Row>, keys: seq<Column>)
    ensures UniqueKeys(DropDuplicates(rows, keys), keys)
  {
    UniqueFrom(rows, keys, {});
  }

  /** Every key value of the input is still carried by some row of the result. */
  lemma DropDuplicatesKeepsEveryKey(rows: seq<Row>, keys: seq<Column>)
    ensures KeySet(DropDuplicates(rows, keys), keys) == KeySet(rows, keys)
  {
    KeySetFrom(rows, keys, {});
  }

  /**
   * Each row of the result is the earliest input row carrying its key, and
   * the result lists them in the order of those earliest occurrences.
   */
  lemma DropDuplicatesKeepsEarliest(rows: seq<Row>, keys: seq<Column>)
    ensures EarliestRows(DropDuplicates(rows, keys), rows, keys)
    ensures InFirstOccurrenceOrder(DropDuplicates(rows, keys), rows, keys)
  {
    EarliestFrom(rows, keys, {});
    OrderFrom(rows, keys, {});
  }

  /** Deduplicating twice is deduplicating once. */
  lemma DropDuplicatesIdempotent(rows: seq<Row>, keys: seq<Column>)
    ensures DropDuplicates(DropDuplicates(rows, keys), keys) == DropDuplicates(rows, keys)
  {
    UniqueFrom(rows, keys, {});
    UniqueUnchangedFrom(DropDuplicates(rows, keys), keys, {});
  }

  /**
   * When the stored rows are already duplicate-free, merging keeps all of
   * them, in place, and appends only the new rows whose key is not stored
   * yet (first occurrence within the batch).
   */
  lemma MergeKeepsStoredRows(stored: seq<Row>, batch: seq<Row>, keys: seq<Column>)
    requires UniqueKeys(stored, keys)
    ensures DropDuplicates(stored + batch, keys)
      == stored + DropDuplicatesFrom(batch, keys, KeySet(stored, keys))
  {
    SplitFrom(stored, batch, keys, {});
    UniqueUnchangedFrom(stored, keys, {});
    assert {} + KeySet(stored, keys) == KeySet(stored, keys);
  }

  /** Merging the same batch again into a merge result changes nothing. */
  lemma MergeAgainIsNoOp(stored: seq<Row>, batch: seq<Row>, keys: seq<Column>)
    ensures var merged := DropDuplicates(stored + batch, keys);
      DropDuplicates(merged + batch, keys) == merged
  {
    var merged := DropDuplicates(stored + batch, keys);
    DropDuplicatesUniqueKeys(stored + batch, keys);
    MergeKeepsStoredRows(merged, batch, keys);
    DropDuplicatesKeepsEveryKey(stored + batch, keys);
    KeySetConcat(stored, batch, keys);
    AllSeenFrom(batch, keys, KeySet(merged, keys));
  }
}
