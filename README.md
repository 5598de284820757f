# freshflask CRUD core in Dafny

A model of the create/read/update/delete core of the freshflask REST service:
four resources (fridge items, the fridge's recipes, scores, nutrition facts),
each an ORM record class with a constructor, `read()`, `update()`, `create()`
and `delete()`, and the Flask handlers that validate a JSON body, build a
record, store it and answer with its serialised form.

- `wrappers.dfy` — `Option` and `Result`.
- `json.dfy` — the dictionaries `read()` returns: ordered key/value members, `Keys`, `Lookup`.
- `http.dfy` — rejections (`{'message': …}` with status 400), create responses, and the
  `[x.read() for x in X.query.all()]` listing.
- `validation.dfy` — the fail-fast field checks shared by every `_Create.post`: each
  required field must be present and at least its minimum length long, checked in a
  fixed order; the first failure alone decides the message.
- `records.dfy` — the `len(arg) > 0` overwrite guard and the ways an `update` can end
  (commit, uncaught `IntegrityError`, `AttributeError`).
- `tables.dfy` — one generic in-memory `Table` class per resource: rows in insertion
  order with a store-assigned integer id, and an optional unique column. `create`
  either appends a row under a fresh id or fails and leaves the table unchanged;
  `delete` removes exactly the row with that id; a commit after an in-place update
  rewrites one row unless it would break the unique column.
- `fridges.dfy`, `fridge_recipes.dfy`, `scores.dfy`, `nutritions.dfy` — the record
  classes of `model/fridges.py`, `model/fridge.py`, `model/scores.py` and
  `model/nutritions.py`. Each is a Dafny class with the source's fields, updated in
  place, plus a record datatype (what the table stores), a `Serialise` function
  (`read()`) and a pure `ApplyUpdate`.
- `fridge_api.dfy`, `nutrition_api.dfy`, `recipe_api.dfy`, `score_api.dfy` — the handlers
  of `api/*.py`.

The database session is a `Table` passed to each operation. An object's `id` is
`None` until `create()` stores it, as with the ORM.

Facts about the code that the model follows:
- Nothing in the code promises that ids are never reused after a delete, so the
  contracts promise only that a new id differs from every stored one. (The
  implementation takes one past the largest stored id, as SQLite does for an
  integer primary key.)
- Not every `update` overwrites each field whose argument is non-empty. In
  `model/nutritions.py` the calories, fat and carbs setters are bound under other
  names, so those assignments raise (see Findings).
- The score is stored as a string, not a number, and is only checked to be
  non-empty.
- In `fridges` and `nutritions` no column other than the primary key `id` is
  unique, so their creates never fail on a duplicate name. The handlers still
  model their 400 duplicate branch, which answers when the table refuses a row.

## Model

| member | source | states |
|---|---|---|
| `Validation.Validate` | api/nutrition.py:21-35 | Checks run in order. Validation succeeds exactly when every field is present and long enough, and then yields each field's value. Otherwise it fails with the message of a check that fails after all earlier ones passed, with status 400. |
| `Validation.FirstFailureDecides` | api/nutrition.py:21-35 | The first failing check alone decides the rejection: its message, status 400. |
| `Validation.LaterFieldsIrrelevant` | api/recipe.py:21-31 | Once a check fails, the later fields of the body cannot change the response. |
| `Tables.MaxId` | model/fridges.py:22 | The largest stored id, or 0 for an empty table; every stored id is at most this. |
| `Tables.Find` | api/score.py:54 | `query.get(id)` finds a record exactly when a row has that id, and the record is the one stored under it. |
| `Tables.Without` | model/fridges.py:86-89 | After a delete, no row holds the deleted id, and the table is no longer than before. |
| `Tables.Replace` | model/fridges.py:82 | A commit after an update keeps the number of rows and every row's id. |
| `Tables.WithoutAt` | model/scores.py:81-84 | With unique ids, deleting an id removes exactly the one row holding it; the others keep their order. |
| `Tables.WithoutAbsent` | model/fridge.py:92-95 | Deleting an id that is not stored changes nothing. |
| `Tables.FindWithout` | model/fridge.py:92-95 | After a delete, the id finds nothing and every other id finds the same record as before. |
| `Tables.FindAppend` | model/fridge.py:60-68 | After a create, the new id finds the new record and every other id finds what it found before. |
| `Tables.FindReplace` | model/fridges.py:77-83 | After an update is committed, the updated id finds the new record and every other id the old one. |
| `Tables.WithoutKeepsDistinct` | model/scores.py:16 | A delete keeps ids unique and keeps the unique column unique. |
| `Tables.ReplaceAt` | model/fridge.py:81-88 | With unique ids, committing an update changes only the row of that id. |
| `Tables.ReplaceAbsent` | model/fridge.py:87 | Committing an update for an id that is not stored changes nothing. |
| `Tables.Table.constructor` | model/fridges.py:19-24 | A new table is empty and valid, and has the given unique column. |
| `Tables.Table.Create` | model/scores.py:49-57 | `create()` either appends the record under an id no stored row has, or, when the record clashes on the unique column, fails with the table unchanged. It succeeds exactly when there is no clash. |
| `Tables.Table.Delete` | model/fridges.py:86-89 | `delete()` leaves exactly the rows whose id differs, in order, and keeps the table valid. |
| `Tables.Table.Put` | model/scores.py:70-77 | A commit after an update rewrites the row's record unless another row holds the same unique value; then nothing is written. An object whose row was deleted is detached: the commit writes nothing and succeeds. |
| `Http.ReadAll` | api/fridge.py:45 | The listing has one serialised entry per row, in table order. |
| `Http.ReadAllAppend` | api/fridge.py:44-46 | After a create, the listing is the old listing followed by the new record. |
| `Fridges.Serialise` | model/fridges.py:69-74 | `read()` has exactly the keys id, recname and reclink, in that order, holding the current values. |
| `Fridges.ApplyUpdate` | model/fridges.py:77-83 | Each field is overwritten exactly when its argument is non-empty. So `update("", "")` changes nothing, and a name-only update changes only the name. |
| `Fridges.UpdateIdempotent` | model/fridges.py:77-83 | Applying the same update twice equals applying it once. |
| `Fridges.NewTable` | model/fridges.py:19-24 | A new `fridges` table is empty and has no unique column besides the id, so no create is refused. |
| `Fridges.Fridge.constructor` | model/fridges.py:29-31 | The constructor stores the given name and link unchanged; the id is unset. |
| `Fridges.Fridge.Create` | model/fridges.py:59-66 | `create()` returns the object and stores its values under a fresh id, or returns `None` with nothing stored. |
| `Fridges.Fridge.Update` | model/fridges.py:77-83 | The object's values become `ApplyUpdate` of the old ones. The commit writes them to the object's row. |
| `Fridges.Fridge.Delete` | model/fridges.py:86-89 | `delete()` removes the object's row and keeps every other row. |
| `FridgeRecipes.Serialise` | model/fridge.py:72-77 | `read()` has exactly the keys id, recipename and recipelink, holding the current values. |
| `FridgeRecipes.ApplyUpdate` | model/fridge.py:81-88 | Each field is overwritten exactly when its argument is non-empty; empty arguments change nothing. |
| `FridgeRecipes.NewTable` | model/fridge.py:19-24 | A new `recipes` table is empty and has no unique column besides the id. |
| `FridgeRecipes.Recipe.constructor` | model/fridge.py:29-31 | The constructor stores the name and link and drops its recipe-type argument. |
| `FridgeRecipes.Recipe.Create` | model/fridge.py:60-68 | `create()` returns the object and stores it under a fresh id, or returns `None` with the table unchanged. |
| `FridgeRecipes.Recipe.Update` | model/fridge.py:81-88 | The object's values become `ApplyUpdate` of the old ones. The commit writes them to the object's row. |
| `FridgeRecipes.Recipe.Delete` | model/fridge.py:92-95 | `delete()` removes only this object's row. |
| `Scores.NewTable` | model/scores.py:15-17 | A new score table is empty, and its unique column is the name. |
| `Scores.AdmitsIffNameFree` | model/scores.py:16 | A score table takes a record exactly when no other row holds its name. |
| `Scores.Serialise` | model/scores.py:61-66 | `read()` has exactly the keys id, name and score, holding the current values. |
| `Scores.ApplyUpdate` | model/scores.py:70-77 | The name and the score are each overwritten exactly when their argument is non-empty. |
| `Scores.Score.constructor` | model/scores.py:20-22 | The constructor stores the given name and score; the id is unset. |
| `Scores.Score.Load` | api/score.py:54 | The object `query.get(uid)` loads holds that row's id and values. |
| `Scores.Score.IsScore` | model/scores.py:42-43 | `is_score(s)` holds exactly when the score in the object's `read()` is `s`. |
| `Scores.Score.Create` | model/scores.py:49-57 | `create()` fails exactly when the name is already stored; it then returns `None` and the table is unchanged. Otherwise the record is appended under a fresh id. |
| `Scores.Score.Update` | model/scores.py:70-77 | The object's values become `ApplyUpdate` of the old ones. The commit raises `IntegrityError`, uncaught, exactly when the object's row is still stored and another row holds the new name; then the table is unchanged. |
| `Scores.Score.Delete` | model/scores.py:81-84 | `delete()` removes only this object's row. |
| `Scores.UpdateAfterDeleteScenario` | model/scores.py:70-84 | Renaming a deleted score to a name another row holds does not raise, and the table keeps only the other row. |
| `Nutritions.Serialise` | model/nutritions.py:94-101 | `read()` has exactly the keys id, nutritionname, nutritioncalories, nutritionfat and nutritioncarbs, holding the current values. |
| `Nutritions.MissingSetter` | model/nutritions.py:51-71 | Calories, fat and carbs have no setter. An update raises exactly when one of those three arguments is non-empty, and names the first such property in the order calories, fat, carbs. |
| `Nutritions.ApplyUpdate` | model/nutritions.py:104-115 | After `update`, whether it returns or raises, the name is overwritten exactly when its argument is non-empty. Calories, fat and carbs never change. |
| `Nutritions.NumericArgumentRaises` | model/nutritions.py:108-113 | A non-empty calories, fat or carbs argument makes `update` raise, and at most the name changes. |
| `Nutritions.CaloriesUpdateExample` | model/nutritions.py:51-53 | Updating only an apple's calories raises and keeps the old calories, where the intended update would store the new value. |
| `Nutritions.IntendedUpdate` | model/nutritions.py:104-115 | The evidently intended update: each of the four fields is overwritten exactly when its argument is non-empty. |
| `Nutritions.IntendedUpdateProperties` | model/nutritions.py:104-115 | The intended update is idempotent. It agrees with the code whenever the code does not raise. |
| `Nutritions.NewTable` | model/nutritions.py:19-26 | A new `nutritions` table is empty and has no unique column besides the id. |
| `Nutritions.Nutrition.constructor` | model/nutritions.py:31-35 | The constructor stores all four given values; the id is unset. |
| `Nutritions.Nutrition.Create` | model/nutritions.py:82-90 | `create()` returns the object and stores it under a fresh id, or returns `None` with the table unchanged. |
| `Nutritions.Nutrition.Update` | model/nutritions.py:104-115 | The name is assigned first. Then the first non-empty calories, fat or carbs argument raises `AttributeError` before the commit, leaving the table unchanged. With all three empty, the commit writes the object's row. |
| `Nutritions.Nutrition.Delete` | model/nutritions.py:119-122 | `delete()` removes only this object's row. |
| `FridgeApi.ValidateBody` | api/fridge.py:21-27 | A missing or under-2-character recname gives its 400. A bad reclink gives its own 400, but only once recname has passed. On success the values are exactly the body's recname and reclink. |
| `FridgeApi.Create` | api/fridge.py:30-40 | A validation failure answers with its rejection and stores nothing. Otherwise a fridge built from exactly the two values is created. The answer is its `read()` under a fresh id, or, if the table refuses it, a 400 with nothing stored. On a table with no unique column the create always succeeds. |
| `FridgeApi.Read` | api/fridge.py:44-46 | One entry per stored row, in table order, each with the keys id, recname and reclink and that row's values. |
| `NutritionApi.ValidateBody` | api/nutrition.py:21-35 | Name, calories, fat and carbs must each be present with at least 2 characters. The first failing field alone decides the message. On success the record holds exactly the four body values. |
| `NutritionApi.TwoCharactersPass` | api/nutrition.py:21-35 | A field of exactly two characters passes, because the test is `len(value) < 2`: for each of the four fields, such a body is never rejected with that field's message, whatever the other fields hold. |
| `NutritionApi.Create` | api/nutrition.py:38-50 | A validation failure answers with its rejection and stores nothing. Otherwise the record built from the four values is created and answered with its `read()`. If the table refuses it, the answer is the duplicate 400 and the table is unchanged. |
| `NutritionApi.Read` | api/nutrition.py:54-56 | One entry per stored row, in table order, with the five keys and that row's values; an empty table lists nothing. |
| `RecipeApi.ValidateBody` | api/recipe.py:21-31 | Recipename, recipelink and recipetype must each be present with at least 2 characters, checked in that order. The first failing field alone decides the message. On success the values are exactly the body's. |
| `RecipeApi.Read` | api/recipe.py:49-51 | Every stored recipe goes through `read()`, in table order; an empty table lists nothing. |
| `ScoreApi.ValidateBody` | api/score.py:22-28 | A missing or under-2-character name gives 'Name is missing, or is less than 2 characters'. Then a missing or empty score gives 'Score is missing'; one character is enough. |
| `ScoreApi.Create` | api/score.py:31-42 | A validation failure answers with its rejection and stores nothing. A name already stored gives the 400 message and leaves the table unchanged. Otherwise the new record is appended and answered with its `read()`. |
| `ScoreApi.Read` | api/score.py:46-48 | One entry per stored row, in table order, each with the keys id, name and score and that row's values. |
| `ScoreApi.Delete` | api/score.py:52-56 | Deleting an existing uid removes exactly that row, and other rows keep their order. The uid then finds nothing. The reported object is that record's `read()`. |
| `ScoreApi.DuplicateNameScenario` | api/score.py:37-42 | Creating "Kale" twice: the first create is answered with the record, the second with the 400 message, and the listing holds exactly the one record. |

## Findings

| source | as written | input that shows it | evidently intended | confidence | as-written member | corrected member |
|---|---|---|---|---|---|---|
| model/nutritions.py:51-71 | The setters of `nutritioncalories`, `nutritionfat` and `nutritioncarbs` are bound as `recipelink`, `recipetype` and `recipecuisine`. The three properties have no setter, so `update` raises `AttributeError` on any non-empty calories, fat or carbs argument. | `update(nutritioncalories="100 cal")` on the Apple record | Store the new calories value, as `update` does for the name | high; not executed | `Nutritions.CaloriesUpdateExample` | `Nutritions.IntendedUpdateProperties` |

`Nutritions.Nutrition.Update` models the code as written. No handler calls
`update`, so nothing else in the model depends on either version.

## Left out

- `model/recipes.py` is not part of this model. Its `Recipe` has no usable primary key, and its setters and constructor are broken. For the same reason the success path of `api/recipe.py:34-45` is left out: only its checks and the listing are modelled, and `RecipeApi.Read` takes the serialiser as a parameter.
- The `init*` seed functions are fixture loading and are left out: `app_context`, `create_all`/`drop_all`, and the `randrange` note loop.
- Flask, Blueprint and flask_restful routing, URL prefixes, `request.get_json` and `jsonify` are left out. A handler takes the body as a map of optional strings. It returns a `Response` (a record's `read()` or a message with its status), or the listing.
- Non-string JSON values in a body are left out; Python's `len()` would raise on them.
- SQLAlchemy session mechanics are replaced by the in-memory `Table`: no transactions, no rollback after a failed commit, no `session.remove`, no concurrency. The only integrity constraint modelled is the unique column; fields are never null in the model.
- `__str__` (a `@property` that calls `json.dumps`) is left out.
- `ScoreApi.Delete`: the source crashes when `uid` is absent, and the model instead requires the id to be stored. The model returns the deleted record's `read()` rather than the text "<that dictionary> Has been deleted", because Python's dictionary-to-string formatting is not modelled.
- Whether ids are reused after a delete is not promised by the code. The contracts state only that a new id differs from every stored one.
- `Fridges.Fridge.Create`, `FridgeRecipes.Recipe.Create`, `Scores.Score.Create`, `Nutritions.Nutrition.Create`: each requires an object that has not been stored yet, as every caller in the source creates a fresh object. Calling `create()` again on a stored object is not modelled.
- `Fridges.Fridge.Delete`, `FridgeRecipes.Recipe.Delete`, `Scores.Score.Delete`, `Nutritions.Nutrition.Delete`: each requires a stored object; deleting a transient object, which raises in the ORM, is not modelled.
- The bulk delete, the authenticate endpoints and the update-by-id operation do not appear in these source files and are not modelled.
