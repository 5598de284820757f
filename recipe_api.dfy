/**
 * The `/api/recipes` handlers: the body checks of a create and the listing.
 * What a create does after its checks depends on the `Recipe` of
 * `model/recipes.py`, which is not part of this model.
 */
module RecipeApi {
  import opened Wrappers
  import opened Json
  import opened Tables
  import opened Http
  import opened Validation

  const NameCheck := Check("recipename", 2, "recipename is missing, or is less than 2 characters")
  const LinkCheck := Check("recipelink", 2, "recipelink is missing, or is less than 2 characters")
  const TypeCheck := Check("recipetype", 2, "recipetype is missing, or is less than 2 characters")

  /** The checks of `_Create.post`, in the order they run. */
  const Checks := [NameCheck, LinkCheck, TypeCheck]

  /** The three values a create passes on to the `Recipe` constructor. */
  datatype RecipeFields = RecipeFields(recipename: string, recipelink: string, recipetype: string)

  /**
   * The checks of `_Create.post`: name, link, type, each at least 2
   * characters long; the first that fails alone decides the message, and a
   * failure answers before any `Recipe` is built.
   */
  function ValidateBody(body: Body): (r: Result<RecipeFields, Rejection>)
    ensures r.Success? <==> forall i :: 0 <= i < 3 ==> Passes(body, Checks[i])
    ensures forall i: nat :: FirstFailure(body, Checks, i) ==>
              r == Failure(Rejection(Checks[i].message, BadRequest))
    ensures r.Success? ==>
              Get(body, "recipename") == Some(r.value.recipename) &&
              Get(body, "recipelink") == Some(r.value.recipelink) &&
              Get(body, "recipetype") == Some(r.value.recipetype)
  {
    var v := Validate(body, Checks);
    if v.Success? then
      Success(RecipeFields(v.value[0], v.value[1], v.value[2]))
    else
      assert forall i: nat :: FirstFailure(body, Checks, i) ==> v == Failure(Rejection(Checks[i].message, BadRequest)) by {
        forall i: nat | FirstFailure(body, Checks, i) ensures v == Failure(Rejection(Checks[i].message, BadRequest)) {
          FirstFailureDecides(body, Checks, i);
        }
      }
      Failure(v.error)
  }

  /**
   * `_Read.get`: every stored recipe through `read()`, in table order; `read`
   * stands for the serialiser of `model/recipes.py`.
   */
  function Read<R>(t: Table<R>, read: Row<R> -> Object): (r: seq<Object>)
    reads t
    ensures |r| == |t.rows|
    ensures forall i :: 0 <= i < |t.rows| ==> r[i] == read(t.rows[i])
    ensures t.rows == [] ==> r == []
  {
    ReadAll(t.rows, read)
  }
}
