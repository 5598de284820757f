/** `Score`: a player name, unique across the `scores1` table, and a score. */
module Scores {
  import opened Wrappers
  import opened Json
  import opened Records
  import opened Tables

  /** The stored columns `_name` (declared unique) and `_score`. */
  datatype ScoreRec = ScoreRec(name: string, score: string)

  /** The unique column. */
  function NameOf(s: ScoreRec): string {
    s.name
  }

  /** A table whose unique column is the name, as the `scores1` schema declares. */
  ghost predicate IsScoreTable(t: Table<ScoreRec>) {
    t.uniqueKey.Some? && forall s :: t.uniqueKey.value(s) == s.name
  }

  /** A new, empty score table. */
  method NewTable() returns (t: Table<ScoreRec>)
    ensures fresh(t) && t.Valid() && IsScoreTable(t) && t.rows == []
  {
    t := new Table(Some(NameOf));
  }

  /** Some stored row other than the one with id `except` holds this name. */
  predicate NameTaken(rows: seq<Row<ScoreRec>>, name: string, except: Option<int>) {
    exists i :: 0 <= i < |rows| && Some(rows[i].id) != except && rows[i].rec.name == name
  }

  /** On a score table, a record is admitted exactly when no other row holds its name. */
  lemma AdmitsIffNameFree(t: Table<ScoreRec>, s: ScoreRec, except: Option<int>)
    requires IsScoreTable(t)
    ensures t.Admits(s, except) <==> !NameTaken(t.rows, s.name, except)
  {
  }

  /** `read()`: the keys id, name and score, with the current values. */
  function Serialise(id: Option<int>, s: ScoreRec): (o: Object)
    ensures Keys(o) == ["id", "name", "score"]
    ensures Lookup(o, "id") == Some(IdValue(id))
    ensures Lookup(o, "name") == Some(Str(s.name))
    ensures Lookup(o, "score") == Some(Str(s.score))
  {
    var o := [Member("id", IdValue(id)), Member("name", Str(s.name)), Member("score", Str(s.score))];
    LookupAt(o, 1); LookupAt(o, 2);
    o
  }

  /** `update(name, score)` on the values: only non-empty arguments overwrite. */
  function ApplyUpdate(s: ScoreRec, name: string, score: string): (r: ScoreRec)
    ensures |name| > 0 ==> r.name == name
    ensures |name| == 0 ==> r.name == s.name
    ensures |score| > 0 ==> r.score == score
    ensures |score| == 0 ==> r.score == s.score
  {
    ScoreRec(Overwrite(s.name, name), Overwrite(s.score, score))
  }

  /** A `Score` object: its id is `None` until `create()` has stored it. */
  class Score {
    var id: Option<int>
    var name: string
    var score: string

    constructor (name: string, score: string)
      ensures id == None && this.name == name && this.score == score
    {
      id := None;
      this.name := name;
      this.score := score;
    }

    /** The object `query.get(row.id)` loads. */
    constructor Load(row: Row<ScoreRec>)
      ensures id == Some(row.id) && name == row.rec.name && score == row.rec.score
    {
      id := Some(row.id);
      name := row.rec.name;
      score := row.rec.score;
    }

    function Value(): ScoreRec
      reads this
    {
      ScoreRec(name, score)
    }

    function Read(): Object
      reads this
    {
      Serialise(id, Value())
    }

    /** `is_score(s)`: whether the score this object reports equals `s`. */
    function IsScore(s: string): (b: bool)
      reads this
      ensures b <==> Lookup(Read(), "score") == Some(Str(s))
    {
      score == s
    }

    /**
     * `create()`: stores this object and returns it; when the name is already
     * stored, the commit fails, nothing is stored and `None` is returned.
     */
    method Create(t: Table<ScoreRec>) returns (saved: Option<Score>)
      requires t.Valid() && IsScoreTable(t) && id.None?
      modifies this, t
      ensures t.Valid() && Value() == old(Value())
      ensures saved.None? <==> NameTaken(old(t.rows), name, None)
      ensures saved.None? ==> id.None? && t.rows == old(t.rows)
      ensures saved.Some? ==>
                saved.value == this && id.Some? && !HasId(old(t.rows), id.value) &&
                t.rows == old(t.rows) + [Row(id.value, Value())]
    {
      AdmitsIffNameFree(t, Value(), None);
      var row := t.Create(Value());
      if row.Some? {
        id := Some(row.value.id);
        saved := Some(this);
      } else {
        saved := None;
      }
    }

    /**
     * `update(name, score)`: overwrites the fields given non-empty arguments,
     * then commits. When the object's row is still stored, a new name held by
     * another row makes the commit raise `IntegrityError`, which `update` does
     * not catch, and the table keeps its old rows. When the row was deleted, the
     * object is detached and the commit writes nothing. The ORM would also roll back the session and expire the object;
     * rollback is not modelled, so here the object still holds the assigned values.
     */
    method Update(t: Table<ScoreRec>, name: string, score: string) returns (outcome: Outcome)
      requires t.Valid() && IsScoreTable(t)
      modifies this, t
      ensures t.Valid() && id == old(id)
      ensures Value() == ApplyUpdate(old(Value()), name, score)
      ensures outcome == IntegrityError <==>
                id.Some? && HasId(old(t.rows), id.value) && NameTaken(old(t.rows), this.name, id)
      ensures outcome != Committed ==> outcome == IntegrityError && t.rows == old(t.rows)
      ensures outcome == Committed ==>
                t.rows == if id.Some? then Replace(old(t.rows), id.value, Value()) else old(t.rows)
    {
      if |name| > 0 {
        this.name := name;
      }
      if |score| > 0 {
        this.score := score;
      }
      outcome := Committed;
      if id.Some? {
        AdmitsIffNameFree(t, Value(), id);
        var ok := t.Put(id.value, Value());
        if !ok {
          outcome := IntegrityError;
        }
      }
    }

    /** `delete()`: removes this object's row. */
    method Delete(t: Table<ScoreRec>)
      requires t.Valid() && id.Some?
      modifies t
      ensures t.Valid() && t.rows == Without(old(t.rows), id.value)
    {
      t.Delete(id.value);
    }
  }

  /**
   * Renaming a deleted score to a name another row holds: the object is
   * detached, so `update` commits nothing and does not raise.
   */
  method UpdateAfterDeleteScenario() returns (outcome: Outcome, t: Table<ScoreRec>)
    ensures outcome == Committed
    ensures |t.rows| == 1 && t.rows[0].rec == ScoreRec("Lina", "7")
  {
    t := NewTable();
    var lina := new Score("Lina", "7");
    assert !NameTaken(t.rows, "Lina", None);
    var first := lina.Create(t);
    var kale := new Score("Kale", "5");
    assert |t.rows| == 1 && t.rows[0].rec.name == "Lina";
    assert !NameTaken(t.rows, "Kale", None);
    var second := kale.Create(t);
    ghost var both := t.rows;
    assert both[0].rec == ScoreRec("Lina", "7") && both[1].id == kale.id.value;
    WithoutAt(both, 1);
    kale.Delete(t);
    assert t.rows == both[..1];
    outcome := kale.Update(t, "Lina", "");
  }
}
