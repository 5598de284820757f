/** `Recipe` of `model/fridge.py`: a recipe name and link, in the `recipes` table. */
module FridgeRecipes {
  import opened Wrappers
  import opened Json
  import opened Records
  import opened Tables

  /** The stored columns `_recipename` and `_recipelink`. */
  datatype RecipeRec = RecipeRec(recipename: string, recipelink: string)

  /** `read()`: the keys id, recipename and recipelink, with the current values. */
  function Serialise(id: Option<int>, r: RecipeRec): (o: Object)
    ensures Keys(o) == ["id", "recipename", "recipelink"]
    ensures Lookup(o, "id") == Some(IdValue(id))
    ensures Lookup(o, "recipename") == Some(Str(r.recipename))
    ensures Lookup(o, "recipelink") == Some(Str(r.recipelink))
  {
    var o := [Member("id", IdValue(id)), Member("recipename", Str(r.recipename)), Member("recipelink", Str(r.recipelink))];
    LookupAt(o, 1); LookupAt(o, 2);
    o
  }

  /** `update(recipename, recipelink)` on the values: only non-empty arguments overwrite. */
  function ApplyUpdate(r: RecipeRec, recipename: string, recipelink: string): (u: RecipeRec)
    ensures |recipename| > 0 ==> u.recipename == recipename
    ensures |recipename| == 0 ==> u.recipename == r.recipename
    ensures |recipelink| > 0 ==> u.recipelink == recipelink
    ensures |recipelink| == 0 ==> u.recipelink == r.recipelink
  {
    RecipeRec(Overwrite(r.recipename, recipename), Overwrite(r.recipelink, recipelink))
  }

  /** A `Recipe` object: its id is `None` until `create()` has stored it. */
  /**
   * A new, empty `recipes` table. Only the primary key `id` is unique, and
   * `_recipename` and `_recipelink` are declared `unique=False`, so no column constrains a create.
   */
  method NewTable() returns (t: Table<RecipeRec>)
    ensures fresh(t) && t.Valid() && t.uniqueKey.None? && t.rows == []
  {
    t := new Table(None);
  }

  class Recipe {
    var id: Option<int>
    var recipename: string
    var recipelink: string

    /** The constructor takes a recipe type too, and drops it: the table has no column for it. */
    constructor (recipename: string, recipelink: string, recipetype: string)
      ensures id == None && this.recipename == recipename && this.recipelink == recipelink
    {
      id := None;
      this.recipename := recipename;
      this.recipelink := recipelink;
    }

    function Value(): RecipeRec
      reads this
    {
      RecipeRec(recipename, recipelink)
    }

    function Read(): Object
      reads this
    {
      Serialise(id, Value())
    }

    /** `create()`: stores this object and returns it, or returns `None` on an integrity error. */
    method Create(t: Table<RecipeRec>) returns (saved: Option<Recipe>)
      requires t.Valid() && id.None?
      modifies this, t
      ensures t.Valid() && Value() == old(Value())
      ensures saved.Some? <==> old(t.Admits(Value(), None))
      ensures saved.None? ==> id.None? && t.rows == old(t.rows)
      ensures saved.Some? ==>
                saved.value == this && id.Some? && !HasId(old(t.rows), id.value) &&
                t.rows == old(t.rows) + [Row(id.value, Value())]
    {
      var row := t.Create(Value());
      if row.Some? {
        id := Some(row.value.id);
        saved := Some(this);
      } else {
        saved := None;
      }
    }

    /**
     * `update(recipename, recipelink)`: overwrites the fields given non-empty
     * arguments, then commits, which writes the new values to this object's row.
     */
    method Update(t: Table<RecipeRec>, recipename: string, recipelink: string) returns (outcome: Outcome)
      requires t.Valid()
      modifies this, t
      ensures t.Valid() && id == old(id)
      ensures Value() == ApplyUpdate(old(Value()), recipename, recipelink)
      ensures outcome != Committed ==> outcome == IntegrityError && t.rows == old(t.rows)
      ensures outcome == Committed ==>
                t.rows == if id.Some? then Replace(old(t.rows), id.value, Value()) else old(t.rows)
      ensures t.uniqueKey.None? ==> outcome == Committed
    {
      if |recipename| > 0 {
        this.recipename := recipename;
      }
      if |recipelink| > 0 {
        this.recipelink := recipelink;
      }
      outcome := Committed;
      if id.Some? {
        var ok := t.Put(id.value, Value());
        if !ok {
          outcome := IntegrityError;
        }
      }
    }

    /** `delete()`: removes this object's row. */
    method Delete(t: Table<RecipeRec>)
      requires t.Valid() && id.Some?
      modifies t
      ensures t.Valid() && t.rows == Without(old(t.rows), id.value)
    {
      t.Delete(id.value);
    }
  }
}
