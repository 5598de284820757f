/**
 * The per-resource table behind `create`, `delete` and `query.all()`:
 * rows in insertion order, each with a store-assigned integer id, and an
 * optional unique column.
 */
module Tables {
  import opened Wrappers

  /** A stored record and its primary key. */
  datatype Row<R> = Row(id: int, rec: R)

  predicate HasId<R>(rows: seq<Row<R>>, id: int) {
    exists i :: 0 <= i < |rows| && rows[i].id == id
  }

  /** The primary key is unique. */
  predicate DistinctIds<R>(rows: seq<Row<R>>) {
    forall i, j :: 0 <= i < j < |rows| ==> rows[i].id != rows[j].id
  }

  /** The unique column `key` holds no value twice. */
  predicate DistinctKeys<R>(rows: seq<Row<R>>, key: R -> string) {
    forall i, j :: 0 <= i < j < |rows| ==> key(rows[i].rec) != key(rows[j].rec)
  }

  /** Some row other than the one with id `except` holds `k` in the unique column. */
  predicate KeyHeldByOther<R>(rows: seq<Row<R>>, key: R -> string, k: string, except: Option<int>) {
    exists i :: 0 <= i < |rows| && Some(rows[i].id) != except && key(rows[i].rec) == k
  }

  /** The largest id in use, or 0 for an empty table. */
  function MaxId<R>(rows: seq<Row<R>>): (m: int)
    ensures m >= 0
    ensures forall i :: 0 <= i < |rows| ==> rows[i].id <= m
    ensures m == 0 || HasId(rows, m)
  {
    if rows == [] then 0
    else
      var m := MaxId(rows[1..]);
      if rows[0].id > m then rows[0].id else m
  }

  /** `query.get(id)`: the record stored under `id`, if any. */
  function Find<R>(rows: seq<Row<R>>, id: int): (r: Option<R>)
    ensures r.None? <==> !HasId(rows, id)
    ensures r.Some? ==> Row(id, r.value) in rows
  {
    if rows == [] then None
    else if rows[0].id == id then Some(rows[0].rec)
    else Find(rows[1..], id)
  }

  /** The rows left after deleting the row with this id, in their original order. */
  function Without<R>(rows: seq<Row<R>>, id: int): (r: seq<Row<R>>)
    ensures !HasId(r, id)
    ensures |r| <= |rows|
  {
    if rows == [] then []
    else if rows[0].id == id then Without(rows[1..], id)
    else [rows[0]] + Without(rows[1..], id)
  }

  /** The rows after the row with this id has been given a new record. */
  function Replace<R>(rows: seq<Row<R>>, id: int, rec: R): (r: seq<Row<R>>)
    ensures |r| == |rows|
    ensures forall i :: 0 <= i < |rows| ==> r[i].id == rows[i].id
  {
    if rows == [] then []
    else [if rows[0].id == id then Row(id, rec) else rows[0]] + Replace(rows[1..], id, rec)
  }

  /** With unique ids, deleting an id removes exactly the one row that holds it. */
  lemma {:induction false} WithoutAt<R>(rows: seq<Row<R>>, k: nat)
    requires DistinctIds(rows) && k < |rows|
    ensures Without(rows, rows[k].id) == rows[..k] + rows[k + 1..]
  {
    if k == 0 {
      WithoutAbsent(rows[1..], rows[0].id);
    } else {
      WithoutAt(rows[1..], k - 1);
      assert rows[1..][..k - 1] == rows[1..k];
      assert rows[1..][k..] == rows[k + 1..];
    }
  }

  /** Deleting an id that is not stored changes nothing. */
  lemma {:induction false} WithoutAbsent<R>(rows: seq<Row<R>>, id: int)
    requires !HasId(rows, id)
    ensures Without(rows, id) == rows
  {
    if rows != [] {
      assert rows[0].id != id;
      WithoutAbsent(rows[1..], id);
    }
  }

  /** After a delete the id is gone and every other id finds the same record as before. */
  lemma {:induction false} FindWithout<R>(rows: seq<Row<R>>, id: int, other: int)
    ensures Find(Without(rows, id), other) == if other == id then None else Find(rows, other)
  {
    if rows != [] && other != id {
      FindWithout(rows[1..], id, other);
    }
  }

  /** A freshly appended row is found under its id, and nothing else moves. */
  lemma {:induction false} FindAppend<R>(rows: seq<Row<R>>, row: Row<R>, id: int)
    requires !HasId(rows, row.id)
    ensures Find(rows + [row], id) == if id == row.id then Some(row.rec) else Find(rows, id)
  {
    if rows == [] {
    } else {
      assert (rows + [row])[1..] == rows[1..] + [row];
      FindAppend(rows[1..], row, id);
    }
  }

  /** After replacing, a stored id finds the new record and every other id the old one. */
  lemma {:induction false} FindReplace<R>(rows: seq<Row<R>>, id: int, rec: R, other: int)
    ensures Find(Replace(rows, id, rec), other) ==
            if other == id && HasId(rows, id) then Some(rec) else Find(rows, other)
  {
    if rows != [] {
      FindReplace(rows[1..], id, rec, other);
      if rows[0].id != id && HasId(rows, id) {
        var i :| 0 <= i < |rows| && rows[i].id == id;
        assert rows[1..][i - 1].id == id;
      }
    }
  }

  /** Every row a delete keeps was stored before. */
  lemma {:induction false} WithoutKeeps<R>(rows: seq<Row<R>>, id: int, k: nat)
    requires k < |Without(rows, id)|
    ensures exists m :: 0 <= m < |rows| && rows[m] == Without(rows, id)[k]
  {
    var w := Without(rows, id);
    if rows[0].id == id {
      WithoutKeeps(rows[1..], id, k);
      var m :| 0 <= m < |rows[1..]| && rows[1..][m] == w[k];
      assert rows[m + 1] == w[k];
    } else if k > 0 {
      WithoutKeeps(rows[1..], id, k - 1);
      var m :| 0 <= m < |rows[1..]| && rows[1..][m] == Without(rows[1..], id)[k - 1];
      assert rows[m + 1] == w[k];
    } else {
      assert rows[0] == w[0];
    }
  }

  /** A delete keeps ids and the unique column distinct. */
  lemma {:induction false} WithoutKeepsDistinct<R>(rows: seq<Row<R>>, id: int, key: R -> string)
    requires DistinctIds(rows)
    ensures DistinctIds(Without(rows, id))
    ensures DistinctKeys(rows, key) ==> DistinctKeys(Without(rows, id), key)
  {
    if rows != [] {
      WithoutKeepsDistinct(rows[1..], id, key);
      var w' := Without(rows[1..], id);
      if rows[0].id != id {
        forall k | 0 <= k < |w'|
          ensures rows[0].id != w'[k].id
          ensures DistinctKeys(rows, key) ==> key(rows[0].rec) != key(w'[k].rec)
        {
          WithoutKeeps(rows[1..], id, k);
          var m :| 0 <= m < |rows[1..]| && rows[1..][m] == w'[k];
          assert rows[m + 1] == w'[k];
        }
        assert Without(rows, id) == [rows[0]] + w';
      }
    }
  }

  /** With unique ids, replacing the record under the id of row `k` changes row `k` only. */
  lemma {:induction false} ReplaceAt<R>(rows: seq<Row<R>>, k: nat, rec: R)
    requires DistinctIds(rows) && k < |rows|
    ensures Replace(rows, rows[k].id, rec) == rows[k := Row(rows[k].id, rec)]
  {
    if k == 0 {
      ReplaceAbsent(rows[1..], rows[0].id, rec);
    } else {
      ReplaceAt(rows[1..], k - 1, rec);
    }
  }

  /** Replacing the record under an id that is not stored changes nothing. */
  lemma {:induction false} ReplaceAbsent<R>(rows: seq<Row<R>>, id: int, rec: R)
    requires !HasId(rows, id)
    ensures Replace(rows, id, rec) == rows
  {
    if rows != [] {
      assert rows[0].id != id;
      ReplaceAbsent(rows[1..], id, rec);
    }
  }

  /** One table of one resource. */
  class Table<R> {
    /** The column declared `unique=True`, if the schema declares one. */
    const uniqueKey: Option<R -> string>
    /** The stored rows, in insertion order (what `query.all()` returns). */
    var rows: seq<Row<R>>

    ghost predicate Valid()
      reads this
    {
      DistinctIds(rows) && (uniqueKey.Some? ==> DistinctKeys(rows, uniqueKey.value))
    }

    /** An empty table. */
    constructor (uniqueKey: Option<R -> string>)
      ensures Valid() && rows == []
      ensures this.uniqueKey.Some? == uniqueKey.Some?
      ensures uniqueKey.Some? ==> this.uniqueKey.value == uniqueKey.value
    {
      this.uniqueKey := uniqueKey;
      rows := [];
    }

    /**
     * Storing `r` under the id `except` (None for a new row) keeps the unique
     * column unique.
     */
    predicate Admits(r: R, except: Option<int>)
      reads this
    {
      match uniqueKey
      case None => true
      case Some(key) => !KeyHeldByOther(rows, key, key(r), except)
    }

    /**
     * `db.session.add(self); db.session.commit()`: appends `r` under a fresh id,
     * or, when `r` clashes with a stored row on the unique column, fails
     * (the `IntegrityError`) and leaves the table as it was.
     */
    method Create(r: R) returns (res: Option<Row<R>>)
      requires Valid()
      modifies this
      ensures Valid()
      ensures res.Some? <==> old(Admits(r, None))
      ensures res.None? ==> rows == old(rows)
      ensures res.Some? ==>
                res.value.rec == r && !HasId(old(rows), res.value.id) &&
                rows == old(rows) + [res.value]
    {
      if !Admits(r, None) {
        return None;
      }
      // As SQLite picks a rowid for an INTEGER PRIMARY KEY: one past the largest in use.
      var row := Row(MaxId(rows) + 1, r);
      rows := rows + [row];
      res := Some(row);
    }

    /** `db.session.delete(row); db.session.commit()`. */
    method Delete(id: int)
      requires Valid()
      modifies this
      ensures Valid()
      ensures rows == Without(old(rows), id)
    {
      if uniqueKey.Some? {
        WithoutKeepsDistinct(rows, id, uniqueKey.value);
      } else {
        WithoutKeepsDistinct(rows, id, (r: R) => "");
      }
      rows := Without(rows, id);
    }

    /**
     * `db.session.commit()` after the record stored under `id` was changed in
     * place to `r`. An object whose row is gone (it was deleted) is detached, so
     * the commit has nothing to write and succeeds. Otherwise it fails with
     * nothing written when the new value clashes on the unique column with
     * another row.
     */
    method Put(id: int, r: R) returns (ok: bool)
      requires Valid()
      modifies this
      ensures Valid()
      ensures ok <==> !HasId(old(rows), id) || old(Admits(r, Some(id)))
      ensures ok ==> rows == Replace(old(rows), id, r)
      ensures !ok ==> rows == old(rows)
    {
      if !HasId(rows, id) {
        ReplaceAbsent(rows, id, r);
        return true;
      }
      if !Admits(r, Some(id)) {
        return false;
      }
      ok := true;
      var k :| 0 <= k < |rows| && rows[k].id == id;
      ReplaceAt(rows, k, r);
      ghost var before := rows;
      rows := Replace(rows, id, r);
      if uniqueKey.Some? {
        var key := uniqueKey.value;
        forall i, j | 0 <= i < j < |rows| ensures key(rows[i].rec) != key(rows[j].rec) {
          if i == k {
            assert Some(before[j].id) != Some(id);
          } else if j == k {
            assert Some(before[i].id) != Some(id);
          }
        }
      }
    }
  }
}
