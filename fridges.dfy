/** `Fridge`: a saved recipe name and link, in the `fridges` table. */
module Fridges {
  import opened Wrappers
  import opened Json
  import opened Records
  import opened Tables

  /** The stored columns `_recname` and `_reclink`. */
  datatype FridgeRec = FridgeRec(recname: string, reclink: string)

  /** `read()`: the keys id, recname and reclink, with the current values. */
  function Serialise(id: Option<int>, f: FridgeRec): (o: Object)
    ensures Keys(o) == ["id", "recname", "reclink"]
    ensures Lookup(o, "id") == Some(IdValue(id))
    ensures Lookup(o, "recname") == Some(Str(f.recname))
    ensures Lookup(o, "reclink") == Some(Str(f.reclink))
  {
    var o := [Member("id", IdValue(id)), Member("recname", Str(f.recname)), Member("reclink", Str(f.reclink))];
    LookupAt(o, 1); LookupAt(o, 2);
    o
  }

  /** `update(recname, reclink)` on the values: only non-empty arguments overwrite. */
  function ApplyUpdate(f: FridgeRec, recname: string, reclink: string): (r: FridgeRec)
    ensures |recname| > 0 ==> r.recname == recname
    ensures |recname| == 0 ==> r.recname == f.recname
    ensures |reclink| > 0 ==> r.reclink == reclink
    ensures |reclink| == 0 ==> r.reclink == f.reclink
  {
    FridgeRec(Overwrite(f.recname, recname), Overwrite(f.reclink, reclink))
  }

  /** Applying the same update twice is the same as applying it once. */
  lemma UpdateIdempotent(f: FridgeRec, recname: string, reclink: string)
    ensures ApplyUpdate(ApplyUpdate(f, recname, reclink), recname, reclink) == ApplyUpdate(f, recname, reclink)
  {
  }

  /** A `Fridge` object: its id is `None` until `create()` has stored it. */
  /**
   * A new, empty `fridges` table. Only the primary key `id` is unique, and
   * `_recname` and `_reclink` are declared `unique=False`, so no column constrains a create.
   */
  method NewTable() returns (t: Table<FridgeRec>)
    ensures fresh(t) && t.Valid() && t.uniqueKey.None? && t.rows == []
  {
    t := new Table(None);
  }

  class Fridge {
    var id: Option<int>
    var recname: string
    var reclink: string

    constructor (recname: string, reclink: string)
      ensures id == None && this.recname == recname && this.reclink == reclink
    {
      id := None;
      this.recname := recname;
      this.reclink := reclink;
    }

    function Value(): FridgeRec
      reads this
    {
      FridgeRec(recname, reclink)
    }

    function Read(): Object
      reads this
    {
      Serialise(id, Value())
    }

    /** `create()`: stores this object and returns it, or returns `None` on an integrity error. */
    method Create(t: Table<FridgeRec>) returns (saved: Option<Fridge>)
      requires t.Valid() && id.None?
      modifies this, t
      ensures t.Valid() && Value() == old(Value())
      ensures saved.Some? <==> old(t.Admits(Value(), None))
      ensures saved.None? ==> id.None? && t.rows == old(t.rows)
      ensures saved.Some? ==>
                saved.value == this && id.Some? && !HasId(old(t.rows), id.value) &&
                t.rows == old(t.rows) + [Row(id.value, Value())]
    {
      var row := t.Create(Value());
      if row.Some? {
        id := Some(row.value.id);
        saved := Some(this);
      } else {
        saved := None;
      }
    }

    /**
     * `update(recname, reclink)`: overwrites the fields given non-empty
     * arguments, then commits, which writes the new values to this object's row.
     */
    method Update(t: Table<FridgeRec>, recname: string, reclink: string) returns (outcome: Outcome)
      requires t.Valid()
      modifies this, t
      ensures t.Valid() && id == old(id)
      ensures Value() == ApplyUpdate(old(Value()), recname, reclink)
      ensures outcome != Committed ==> outcome == IntegrityError && t.rows == old(t.rows)
      ensures outcome == Committed ==>
                t.rows == if id.Some? then Replace(old(t.rows), id.value, Value()) else old(t.rows)
      ensures t.uniqueKey.None? ==> outcome == Committed
    {
      if |recname| > 0 {
        this.recname := recname;
      }
      if |reclink| > 0 {
        this.reclink := reclink;
      }
      outcome := Committed;
      if id.Some? {
        var ok := t.Put(id.value, Value());
        if !ok {
          outcome := IntegrityError;
        }
      }
    }

    /** `delete()`: removes this object's row. */
    method Delete(t: Table<FridgeRec>)
      requires t.Valid() && id.Some?
      modifies t
      ensures t.Valid() && t.rows == Without(old(t.rows), id.value)
    {
      t.Delete(id.value);
    }
  }
}
