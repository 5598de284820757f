/** The `/api/fridges` handlers: create a fridge item, list them all. */
module FridgeApi {
  import opened Wrappers
  import opened Json
  import opened Tables
  import opened Http
  import opened Validation
  import opened Fridges

  const RecnameCheck := Check("recname", 2, "recname is missing, or is less than 2 characters")
  const ReclinkCheck := Check("reclink", 2, "reclink is missing, or is less than 2 characters")

  /** The checks of `_Create.post`: recname, then reclink, each at least 2 characters long. */
  function ValidateBody(body: Body): (r: Result<FridgeRec, Rejection>)
    ensures r.Success? <==> Passes(body, RecnameCheck) && Passes(body, ReclinkCheck)
    ensures !Passes(body, RecnameCheck) ==> r == Failure(Rejection(RecnameCheck.message, BadRequest))
    ensures Passes(body, RecnameCheck) && !Passes(body, ReclinkCheck) ==>
              r == Failure(Rejection(ReclinkCheck.message, BadRequest))
    ensures r.Success? ==>
              Get(body, "recname") == Some(r.value.recname) && Get(body, "reclink") == Some(r.value.reclink)
  {
    var checks := [RecnameCheck, ReclinkCheck];
    var v := Validate(body, checks);
    if v.Success? then
      Success(FridgeRec(v.value[0], v.value[1]))
    else if !Passes(body, RecnameCheck) then
      FirstFailureDecides(body, checks, 0);
      Failure(v.error)
    else
      FirstFailureDecides(body, checks, 1);
      Failure(v.error)
  }

  /** The message of a create that the table refused. */
  function DuplicateMessage(recname: string): string {
    "Error or User ID " + recname + " is duplicate"
  }

  /**
   * `_Create.post`: validate the body, build a `Fridge` from exactly the two
   * checked values, `create()` it, and answer with its `read()` or a 400.
   */
  method Create(t: Table<FridgeRec>, body: Body) returns (resp: Response)
    requires t.Valid()
    modifies t
    ensures t.Valid()
    ensures ValidateBody(body).Failure? ==>
              resp == Rejected(ValidateBody(body).error) && t.rows == old(t.rows)
    ensures ValidateBody(body).Success? && !old(t.Admits(ValidateBody(body).value, None)) ==>
              resp == Rejected(Rejection(DuplicateMessage(ValidateBody(body).value.recname), BadRequest)) &&
              t.rows == old(t.rows)
    ensures ValidateBody(body).Success? && old(t.Admits(ValidateBody(body).value, None)) ==>
              exists id :: !HasId(old(t.rows), id) &&
                           t.rows == old(t.rows) + [Row(id, ValidateBody(body).value)] &&
                           resp == Ok(Serialise(Some(id), ValidateBody(body).value))
    ensures t.uniqueKey.None? && ValidateBody(body).Success? ==> resp.Ok?
  {
    var v := ValidateBody(body);
    if v.Failure? {
      return Rejected(v.error);
    }
    var ro := new Fridge(v.value.recname, v.value.reclink);
    var fridge := ro.Create(t);
    if fridge.Some? {
      resp := Ok(fridge.value.Read());
    } else {
      resp := Rejected(Rejection(DuplicateMessage(v.value.recname), BadRequest));
    }
  }

  function ReadRow(row: Row<FridgeRec>): Object {
    Serialise(Some(row.id), row.rec)
  }

  /** `_Read.get`: every stored fridge item's `read()`, in table order. */
  function Read(t: Table<FridgeRec>): (r: seq<Object>)
    reads t
    ensures |r| == |t.rows|
    ensures forall i :: 0 <= i < |t.rows| ==>
              Keys(r[i]) == ["id", "recname", "reclink"] &&
              Lookup(r[i], "id") == Some(Int(t.rows[i].id)) &&
              Lookup(r[i], "recname") == Some(Str(t.rows[i].rec.recname)) &&
              Lookup(r[i], "reclink") == Some(Str(t.rows[i].rec.reclink))
  {
    ReadAll(t.rows, ReadRow)
  }
}
