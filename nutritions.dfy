/**
 * `Nutrition`: a food's name, calories, fat and carbs, in the ` nutritions` table.
 *
 * The setters of `nutritioncalories`, `nutritionfat` and `nutritioncarbs` are
 * defined under the names `recipelink`, `recipetype` and `recipecuisine`, so
 * those three properties keep only their getters, and assigning to one of
 * them raises `AttributeError`. `update` assigns the name first, so a call
 * that gets that far has already overwritten the name in memory.
 */
module Nutritions {
  import opened Wrappers
  import opened Json
  import opened Records
  import opened Tables

  /** The stored columns `_nutritionname`, `_nutritioncalories`, `_nutritionfat`, `_nutritioncarbs`. */
  datatype NutritionRec = NutritionRec(name: string, calories: string, fat: string, carbs: string)

  /** `read()`: the keys id, nutritionname, nutritioncalories, nutritionfat and nutritioncarbs. */
  function Serialise(id: Option<int>, n: NutritionRec): (o: Object)
    ensures Keys(o) == ["id", "nutritionname", "nutritioncalories", "nutritionfat", "nutritioncarbs"]
    ensures Lookup(o, "id") == Some(IdValue(id))
    ensures Lookup(o, "nutritionname") == Some(Str(n.name))
    ensures Lookup(o, "nutritioncalories") == Some(Str(n.calories))
    ensures Lookup(o, "nutritionfat") == Some(Str(n.fat))
    ensures Lookup(o, "nutritioncarbs") == Some(Str(n.carbs))
  {
    var o := [Member("id", IdValue(id)), Member("nutritionname", Str(n.name)),
              Member("nutritioncalories", Str(n.calories)), Member("nutritionfat", Str(n.fat)),
              Member("nutritioncarbs", Str(n.carbs))];
    LookupAt(o, 1); LookupAt(o, 2); LookupAt(o, 3); LookupAt(o, 4);
    o
  }

  /**
   * The property without a setter that `update` assigns to first, if any:
   * the first of calories, fat and carbs whose argument is non-empty.
   */
  function MissingSetter(calories: string, fat: string, carbs: string): (p: Option<string>)
    ensures p.None? <==> calories == "" && fat == "" && carbs == ""
    ensures |calories| > 0 ==> p == Some("nutritioncalories")
    ensures calories == "" && |fat| > 0 ==> p == Some("nutritionfat")
    ensures calories == "" && fat == "" && |carbs| > 0 ==> p == Some("nutritioncarbs")
  {
    if |calories| > 0 then Some("nutritioncalories")
    else if |fat| > 0 then Some("nutritionfat")
    else if |carbs| > 0 then Some("nutritioncarbs")
    else None
  }

  /**
   * The values an object holds after `update(name, calories, fat, carbs)`,
   * whether it returns or raises: the name is overwritten when its argument is
   * non-empty, and nothing else ever changes.
   */
  function ApplyUpdate(n: NutritionRec, name: string, calories: string, fat: string, carbs: string): (r: NutritionRec)
    ensures |name| > 0 ==> r.name == name
    ensures |name| == 0 ==> r.name == n.name
    ensures r.calories == n.calories && r.fat == n.fat && r.carbs == n.carbs
  {
    n.(name := Overwrite(n.name, name))
  }

  /** An update with a non-empty calories, fat or carbs argument raises and changes none of the three. */
  lemma NumericArgumentRaises(n: NutritionRec, name: string, calories: string, fat: string, carbs: string)
    requires |calories| > 0 || |fat| > 0 || |carbs| > 0
    ensures MissingSetter(calories, fat, carbs).Some?
    ensures ApplyUpdate(n, name, calories, fat, carbs) == n.(name := ApplyUpdate(n, name, calories, fat, carbs).name)
  {
  }

  /**
   * Concretely: updating only the calories of an apple raises and leaves its
   * calories as they were, where the evident intent is to store the new value.
   */
  lemma CaloriesUpdateExample()
    ensures var apple := NutritionRec("Apple", "94 cal", "0.31g", "20.77 g");
            MissingSetter("100 cal", "", "") == Some("nutritioncalories") &&
            ApplyUpdate(apple, "", "100 cal", "", "").calories == "94 cal" &&
            IntendedUpdate(apple, "", "100 cal", "", "").calories == "100 cal"
  {
  }

  /** The partial overwrite the `update` method evidently means: every non-empty argument overwrites its field. */
  function IntendedUpdate(n: NutritionRec, name: string, calories: string, fat: string, carbs: string): (r: NutritionRec)
    ensures |name| > 0 ==> r.name == name
    ensures |name| == 0 ==> r.name == n.name
    ensures |calories| > 0 ==> r.calories == calories
    ensures |calories| == 0 ==> r.calories == n.calories
    ensures |fat| > 0 ==> r.fat == fat
    ensures |fat| == 0 ==> r.fat == n.fat
    ensures |carbs| > 0 ==> r.carbs == carbs
    ensures |carbs| == 0 ==> r.carbs == n.carbs
  {
    NutritionRec(Overwrite(n.name, name), Overwrite(n.calories, calories),
                 Overwrite(n.fat, fat), Overwrite(n.carbs, carbs))
  }

  /** The intended update is idempotent and agrees with the code whenever the code does not raise. */
  lemma IntendedUpdateProperties(n: NutritionRec, name: string, calories: string, fat: string, carbs: string)
    ensures var u := IntendedUpdate(n, name, calories, fat, carbs);
            IntendedUpdate(u, name, calories, fat, carbs) == u
    ensures MissingSetter(calories, fat, carbs).None? ==>
              IntendedUpdate(n, name, calories, fat, carbs) == ApplyUpdate(n, name, calories, fat, carbs)
  {
  }

  /** A `Nutrition` object: its id is `None` until `create()` has stored it. */
  /**
   * A new, empty `nutritions` table. Only the primary key `id` is unique, and
   * the four value columns are declared `unique=False`, so no column constrains a create.
   */
  method NewTable() returns (t: Table<NutritionRec>)
    ensures fresh(t) && t.Valid() && t.uniqueKey.None? && t.rows == []
  {
    t := new Table(None);
  }

  class Nutrition {
    var id: Option<int>
    var name: string
    var calories: string
    var fat: string
    var carbs: string

    constructor (name: string, calories: string, fat: string, carbs: string)
      ensures id == None && Value() == NutritionRec(name, calories, fat, carbs)
    {
      id := None;
      this.name := name;
      this.calories := calories;
      this.fat := fat;
      this.carbs := carbs;
    }

    function Value(): NutritionRec
      reads this
    {
      NutritionRec(name, calories, fat, carbs)
    }

    function Read(): Object
      reads this
    {
      Serialise(id, Value())
    }

    /** `create()`: stores this object and returns it, or returns `None` on an integrity error. */
    method Create(t: Table<NutritionRec>) returns (saved: Option<Nutrition>)
      requires t.Valid() && id.None?
      modifies this, t
      ensures t.Valid() && Value() == old(Value())
      ensures saved.Some? <==> old(t.Admits(Value(), None))
      ensures saved.None? ==> id.None? && t.rows == old(t.rows)
      ensures saved.Some? ==>
                saved.value == this && id.Some? && !HasId(old(t.rows), id.value) &&
                t.rows == old(t.rows) + [Row(id.value, Value())]
    {
      var row := t.Create(Value());
      if row.Some? {
        id := Some(row.value.id);
        saved := Some(this);
      } else {
        saved := None;
      }
    }

    /**
     * `update(name, calories, fat, carbs)` as written: the name is assigned
     * when non-empty; the first non-empty numeric argument then raises
     * `AttributeError` before the commit, so the table is left as it was.
     */
    method Update(t: Table<NutritionRec>, name: string, calories: string, fat: string, carbs: string)
      returns (outcome: Outcome)
      requires t.Valid()
      modifies this, t
      ensures t.Valid() && id == old(id)
      ensures Value() == ApplyUpdate(old(Value()), name, calories, fat, carbs)
      ensures MissingSetter(calories, fat, carbs).Some? ==>
                outcome == AttributeError(MissingSetter(calories, fat, carbs).value) && t.rows == old(t.rows)
      ensures MissingSetter(calories, fat, carbs).None? && outcome != Committed ==>
                outcome == IntegrityError && t.rows == old(t.rows)
      ensures outcome == Committed ==>
                t.rows == if id.Some? then Replace(old(t.rows), id.value, Value()) else old(t.rows)
      ensures MissingSetter(calories, fat, carbs).None? && t.uniqueKey.None? ==> outcome == Committed
    {
      if |name| > 0 {
        this.name := name;
      }
      if |calories| > 0 {
        return AttributeError("nutritioncalories");
      }
      if |fat| > 0 {
        return AttributeError("nutritionfat");
      }
      if |carbs| > 0 {
        return AttributeError("nutritioncarbs");
      }
      outcome := Committed;
      if id.Some? {
        var ok := t.Put(id.value, Value());
        if !ok {
          outcome := IntegrityError;
        }
      }
    }

    /** `delete()`: removes this object's row. */
    method Delete(t: Table<NutritionRec>)
      requires t.Valid() && id.Some?
      modifies t
      ensures t.Valid() && t.rows == Without(old(t.rows), id.value)
    {
      t.Delete(id.value);
    }
  }
}
