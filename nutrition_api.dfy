/** The `/api/nutriitons` handlers: create a nutrition entry, list them all. */
module NutritionApi {
  import opened Wrappers
  import opened Json
  import opened Tables
  import opened Http
  import opened Validation
  import opened Nutritions

  const NameCheck := Check("nutritionname", 2, "nutritionname is missing, or is less than 2 characters")
  const CaloriesCheck := Check("nutritioncalories", 2, "nutritioncalories is missing, or is less than 2 characters")
  const FatCheck := Check("nutritionfat", 2, "nutritionfat is missing, or is less than 2 characters")
  const CarbsCheck := Check("nutritioncarbs", 2, "nutritioncarbs is missing, or is less than 2 characters")

  /** The checks of `_Create.post`, in the order they run. */
  const Checks := [NameCheck, CaloriesCheck, FatCheck, CarbsCheck]

  /**
   * The checks of `_Create.post`: name, calories, fat, carbs, each at least 2
   * characters long; the first that fails alone decides the message.
   */
  function ValidateBody(body: Body): (r: Result<NutritionRec, Rejection>)
    ensures r.Success? <==> forall i :: 0 <= i < 4 ==> Passes(body, Checks[i])
    ensures forall i: nat :: FirstFailure(body, Checks, i) ==>
              r == Failure(Rejection(Checks[i].message, BadRequest))
    ensures r.Success? ==>
              Get(body, "nutritionname") == Some(r.value.name) &&
              Get(body, "nutritioncalories") == Some(r.value.calories) &&
              Get(body, "nutritionfat") == Some(r.value.fat) &&
              Get(body, "nutritioncarbs") == Some(r.value.carbs)
  {
    var v := Validate(body, Checks);
    if v.Success? then
      Success(NutritionRec(v.value[0], v.value[1], v.value[2], v.value[3]))
    else
      assert forall i: nat :: FirstFailure(body, Checks, i) ==> v == Failure(Rejection(Checks[i].message, BadRequest)) by {
        forall i: nat | FirstFailure(body, Checks, i) ensures v == Failure(Rejection(Checks[i].message, BadRequest)) {
          FirstFailureDecides(body, Checks, i);
        }
      }
      Failure(v.error)
  }

  /**
   * A field of exactly two characters passes its check, because the test is
   * `len(value) < 2`: whatever the other fields hold, the request is never
   * rejected with that field's message.
   */
  lemma TwoCharactersPass(body: Body, k: nat)
    requires k < |Checks|
    requires Get(body, Checks[k].key).Some? && |Get(body, Checks[k].key).value| == 2
    ensures ValidateBody(body) != Failure(Rejection(Checks[k].message, BadRequest))
  {
    var v := Validate(body, Checks);
    if v.Failure? {
      var i: nat :| FirstFailure(body, Checks, i) && v.error == Rejection(Checks[i].message, BadRequest);
      assert Passes(body, Checks[k]);
      assert i != k;
    }
  }

  /** The message of a create that the table refused. */
  function DuplicateMessage(name: string): string {
    " User ID " + name + " is duplicate"
  }

  /**
   * `_Create.post`: validate the body, build a `Nutrition` from exactly the
   * four checked values, `create()` it, and answer with its `read()` or a 400.
   */
  method Create(t: Table<NutritionRec>, body: Body) returns (resp: Response)
    requires t.Valid()
    modifies t
    ensures t.Valid()
    ensures ValidateBody(body).Failure? ==>
              resp == Rejected(ValidateBody(body).error) && t.rows == old(t.rows)
    ensures ValidateBody(body).Success? && !old(t.Admits(ValidateBody(body).value, None)) ==>
              resp == Rejected(Rejection(DuplicateMessage(ValidateBody(body).value.name), BadRequest)) &&
              t.rows == old(t.rows)
    ensures ValidateBody(body).Success? && old(t.Admits(ValidateBody(body).value, None)) ==>
              exists id :: !HasId(old(t.rows), id) &&
                           t.rows == old(t.rows) + [Row(id, ValidateBody(body).value)] &&
                           resp == Ok(Serialise(Some(id), ValidateBody(body).value))
    ensures t.uniqueKey.None? && ValidateBody(body).Success? ==> resp.Ok?
  {
    var v := ValidateBody(body);
    if v.Failure? {
      return Rejected(v.error);
    }
    var ro := new Nutrition(v.value.name, v.value.calories, v.value.fat, v.value.carbs);
    var nutrition := ro.Create(t);
    if nutrition.Some? {
      resp := Ok(nutrition.value.Read());
    } else {
      resp := Rejected(Rejection(DuplicateMessage(v.value.name), BadRequest));
    }
  }

  function ReadRow(row: Row<NutritionRec>): Object {
    Serialise(Some(row.id), row.rec)
  }

  /** `_Read.get`: every stored entry's `read()`, in table order. */
  function Read(t: Table<NutritionRec>): (r: seq<Object>)
    reads t
    ensures |r| == |t.rows|
    ensures forall i :: 0 <= i < |t.rows| ==>
              Keys(r[i]) == ["id", "nutritionname", "nutritioncalories", "nutritionfat", "nutritioncarbs"] &&
              Lookup(r[i], "id") == Some(Int(t.rows[i].id)) &&
              Lookup(r[i], "nutritionname") == Some(Str(t.rows[i].rec.name)) &&
              Lookup(r[i], "nutritioncalories") == Some(Str(t.rows[i].rec.calories)) &&
              Lookup(r[i], "nutritionfat") == Some(Str(t.rows[i].rec.fat)) &&
              Lookup(r[i], "nutritioncarbs") == Some(Str(t.rows[i].rec.carbs))
  {
    ReadAll(t.rows, ReadRow)
  }
}
