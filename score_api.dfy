/** The `/api/scores` handlers: create a score, list them all, delete one by id. */
module ScoreApi {
  import opened Wrappers
  import opened Json
  import opened Tables
  import opened Http
  import opened Validation
  import opened Scores

  const NameCheck := Check("name", 2, "Name is missing, or is less than 2 characters")
  const ScoreCheck := Check("score", 1, "Score is missing")

  /**
   * The checks of `_Create.post`: a name of at least 2 characters, then a
   * non-empty score (a single character is enough).
   */
  function ValidateBody(body: Body): (r: Result<ScoreRec, Rejection>)
    ensures r.Success? <==> Passes(body, NameCheck) && Passes(body, ScoreCheck)
    ensures !Passes(body, NameCheck) ==> r == Failure(Rejection(NameCheck.message, BadRequest))
    ensures Passes(body, NameCheck) && !Passes(body, ScoreCheck) ==>
              r == Failure(Rejection(ScoreCheck.message, BadRequest))
    ensures r.Success? ==>
              Get(body, "name") == Some(r.value.name) && Get(body, "score") == Some(r.value.score)
  {
    var checks := [NameCheck, ScoreCheck];
    var v := Validate(body, checks);
    if v.Success? then
      Success(ScoreRec(v.value[0], v.value[1]))
    else if !Passes(body, NameCheck) then
      FirstFailureDecides(body, checks, 0);
      Failure(v.error)
    else
      FirstFailureDecides(body, checks, 1);
      Failure(v.error)
  }

  /** The message of a create that the table refused. */
  function DuplicateMessage(name: string, score: string): string {
    "Processed " + name + ", either a format error or User ID " + score + " is duplicate"
  }

  /**
   * `_Create.post`: validate the body, build a `Score` from the two checked
   * values and `create()` it; a name that is already stored gives a 400 and
   * leaves the table as it was.
   */
  method Create(t: Table<ScoreRec>, body: Body) returns (resp: Response)
    requires t.Valid() && IsScoreTable(t)
    modifies t
    ensures t.Valid()
    ensures ValidateBody(body).Failure? ==>
              resp == Rejected(ValidateBody(body).error) && t.rows == old(t.rows)
    ensures ValidateBody(body).Success? && NameTaken(old(t.rows), ValidateBody(body).value.name, None) ==>
              var s := ValidateBody(body).value;
              resp == Rejected(Rejection(DuplicateMessage(s.name, s.score), BadRequest)) &&
              t.rows == old(t.rows)
    ensures ValidateBody(body).Success? && !NameTaken(old(t.rows), ValidateBody(body).value.name, None) ==>
              exists id :: !HasId(old(t.rows), id) &&
                           t.rows == old(t.rows) + [Row(id, ValidateBody(body).value)] &&
                           resp == Ok(Serialise(Some(id), ValidateBody(body).value))
  {
    var v := ValidateBody(body);
    if v.Failure? {
      return Rejected(v.error);
    }
    var so := new Score(v.value.name, v.value.score);
    var user := so.Create(t);
    if user.Some? {
      resp := Ok(user.value.Read());
    } else {
      resp := Rejected(Rejection(DuplicateMessage(v.value.name, v.value.score), BadRequest));
    }
  }

  function ReadRow(row: Row<ScoreRec>): Object {
    Serialise(Some(row.id), row.rec)
  }

  /** `_Read.get`: every stored score's `read()`, in table order. */
  function Read(t: Table<ScoreRec>): (r: seq<Object>)
    reads t
    ensures |r| == |t.rows|
    ensures forall i :: 0 <= i < |t.rows| ==>
              Keys(r[i]) == ["id", "name", "score"] &&
              Lookup(r[i], "id") == Some(Int(t.rows[i].id)) &&
              Lookup(r[i], "name") == Some(Str(t.rows[i].rec.name)) &&
              Lookup(r[i], "score") == Some(Str(t.rows[i].rec.score))
  {
    ReadAll(t.rows, ReadRow)
  }

  /**
   * `_Delete.delete`: loads the score stored under `uid`, deletes it and
   * reports its `read()` (the response is that object followed by
   * " Has been deleted"). Exactly that row goes; the others keep their order.
   */
  method Delete(t: Table<ScoreRec>, uid: int) returns (deleted: Object)
    requires t.Valid() && HasId(t.rows, uid)
    modifies t
    ensures t.Valid()
    ensures Find(old(t.rows), uid).Some? && deleted == Serialise(Some(uid), Find(old(t.rows), uid).value)
    ensures exists k :: 0 <= k < |old(t.rows)| && old(t.rows)[k].id == uid &&
                        t.rows == old(t.rows)[..k] + old(t.rows)[k + 1..]
    ensures Find(t.rows, uid).None?
  {
    var rec := Find(t.rows, uid).value;
    var k :| 0 <= k < |t.rows| && t.rows[k] == Row(uid, rec);
    WithoutAt(t.rows, k);
    var score := new Score.Load(Row(uid, rec));
    score.Delete(t);
    deleted := score.Read();
  }

  /**
   * Two creates with the same name: the first is stored and answered with its
   * `read()`, the second is refused, and the listing holds the one record.
   */
  method DuplicateNameScenario() returns (first: Response, second: Response, listing: seq<Object>)
    ensures first.Ok? && Lookup(first.body, "name") == Some(Str("Kale"))
    ensures second == Rejected(Rejection(DuplicateMessage("Kale", "7"), BadRequest))
    ensures listing == [first.body]
  {
    var t := NewTable();
    var kale5: Body := map["name" := Some("Kale"), "score" := Some("5")];
    assert Passes(kale5, NameCheck) && Passes(kale5, ScoreCheck);
    assert ValidateBody(kale5).value == ScoreRec("Kale", "5");
    first := Create(t, kale5);
    assert t.rows[0].rec.name == "Kale";
    var kale7: Body := map["name" := Some("Kale"), "score" := Some("7")];
    assert Passes(kale7, NameCheck) && Passes(kale7, ScoreCheck);
    assert ValidateBody(kale7).value == ScoreRec("Kale", "7");
    assert NameTaken(t.rows, "Kale", None);
    second := Create(t, kale7);
    listing := Read(t);
  }
}
