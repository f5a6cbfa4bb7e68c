/**
 * The three mutations the screen offers. Each takes already-sanitised field values
 * and a flag `written` saying whether the store accepted the final write statement,
 * and returns the new store together with the page's success and error messages
 * (an empty string means the message is not set).
 */
module Actions {
  import opened Store

  const MaxNameLength := 64

  const NameRule := "Category name is required and must be at most 64 characters."
  const NameExists := "Category name already exists."
  const NameExistsElsewhere := "Another category with the same name exists."
  const InvalidCategory := "Invalid category."
  const InUse := "Cannot delete: category is in use by products."
  const Created := "Category created."
  const Updated := "Category updated."
  const Deleted := "Category deleted."
  const CreateFailed := "Failed to create category."
  const UpdateFailed := "Failed to update category."
  const DeleteFailed := "Failed to delete category."

  datatype Effect = Effect(db: Db, success: string, error: string)

  function Succeed(db: Db, message: string): Effect {
    Effect(db, message, "")
  }

  function Reject(db: Db, message: string): Effect {
    Effect(db, "", message)
  }

  /** Non-empty and at most 64 characters (counted in characters, not bytes): a name
      of 64 characters is accepted, one of 65 is not. */
  predicate ValidName(name: string)
    ensures ValidName(name) <==> 1 <= |name| <= 64
  {
    name != [] && |name| <= MaxNameLength
  }

  /** The `create` action: length check, then the duplicate-name pre-check, then insert. */
  function Create(db: Db, name: string, img: string, written: bool): (e: Effect)
    ensures !ValidName(name) ==> e == Reject(db, NameRule)
    ensures ValidName(name) && NameHeld(db.rows, name) ==> e == Reject(db, NameExists)
    ensures e.success == Created <==> ValidName(name) && !NameHeld(db.rows, name) && written
    ensures ValidName(name) && !NameHeld(db.rows, name) && !written ==> e == Reject(db, CreateFailed)
    ensures e.success == Created ==> e == Succeed(Insert(db, Category(name, img)), Created)
    ensures e.success != Created ==> e.db == db && e.success == "" && e.error != ""
  {
    if !ValidName(name) then Reject(db, NameRule)
    else if NameHeld(db.rows, name) then Reject(db, NameExists)
    else if written then Succeed(Insert(db, Category(name, img)), Created)
    else Reject(db, CreateFailed)
  }

  /** The `update` action: the id is checked before the name, and the duplicate check
      ignores the row being updated. */
  function Update(db: Db, id: int, name: string, img: string, written: bool): (e: Effect)
    ensures id <= 0 ==> e == Reject(db, InvalidCategory)
    ensures id > 0 && !ValidName(name) ==> e == Reject(db, NameRule)
    ensures id > 0 && ValidName(name) && NameHeldByOther(db.rows, name, id) ==> e == Reject(db, NameExistsElsewhere)
    ensures e.success == Updated <==> id > 0 && ValidName(name) && !NameHeldByOther(db.rows, name, id) && written
    ensures id > 0 && ValidName(name) && !NameHeldByOther(db.rows, name, id) && !written ==> e == Reject(db, UpdateFailed)
    ensures e.success == Updated ==> e == Succeed(UpdateById(db, id, Category(name, img)), Updated)
    ensures e.success != Updated ==> e.db == db && e.success == "" && e.error != ""
  {
    if id <= 0 then Reject(db, InvalidCategory)
    else if !ValidName(name) then Reject(db, NameRule)
    else if NameHeldByOther(db.rows, name, id) then Reject(db, NameExistsElsewhere)
    else if written then Succeed(UpdateById(db, id, Category(name, img)), Updated)
    else Reject(db, UpdateFailed)
  }

  /** The `delete` action: the id is checked, then the product-usage guard, then the row
      is removed. */
  function Delete(db: Db, count: ProductCount, id: int, written: bool): (e: Effect)
    ensures id <= 0 ==> e == Reject(db, InvalidCategory)
    ensures id > 0 && count(id) != 0 ==> e == Reject(db, InUse)
    ensures e.success == Deleted <==> id > 0 && count(id) == 0 && written
    ensures id > 0 && count(id) == 0 && !written ==> e == Reject(db, DeleteFailed)
    ensures e.success == Deleted ==> e == Succeed(DeleteById(db, id), Deleted)
    ensures e.success != Deleted ==> e.db == db && e.success == "" && e.error != ""
  {
    if id <= 0 then Reject(db, InvalidCategory)
    else if count(id) != 0 then Reject(db, InUse)
    else if written then Succeed(DeleteById(db, id), Deleted)
    else Reject(db, DeleteFailed)
  }

  /** A successful create adds exactly one row, under an id no row had, holding the
      submitted name and image; every existing row is kept, and the name is then held
      by that row alone. */
  lemma CreateAddsOneRow(db: Db, name: string, img: string, written: bool)
    requires Valid(db)
    requires Create(db, name, img, written).success == Created
    ensures var r := Create(db, name, img, written).db;
      && db.nextId !in db.rows
      && r.rows.Keys == db.rows.Keys + {db.nextId}
      && |r.rows| == |db.rows| + 1
      && r.rows[db.nextId] == Category(name, img)
      && (forall id :: id in db.rows ==> r.rows[id] == db.rows[id])
      && (forall id :: id in r.rows && r.rows[id].name == name ==> id == db.nextId)
  {
  }

  lemma CreatePreservesValid(db: Db, name: string, img: string, written: bool)
    requires Valid(db)
    ensures Valid(Create(db, name, img, written).db)
  {
    var e := Create(db, name, img, written);
    if e.success == Created {
      CreateAddsOneRow(db, name, img, written);
    }
  }

  /** A successful update touches only the named row: the set of ids is the same, every
      other row is unchanged, and the named row (if it exists) holds the new values. */
  lemma UpdateOnlyTouchesItsRow(db: Db, id: int, name: string, img: string, written: bool)
    requires Update(db, id, name, img, written).success == Updated
    ensures var r := Update(db, id, name, img, written).db;
      && r.rows.Keys == db.rows.Keys
      && r.nextId == db.nextId
      && (id in db.rows ==> r.rows[id] == Category(name, img))
      && (forall k :: k in db.rows && k != id ==> r.rows[k] == db.rows[k])
      && (id !in db.rows ==> r == db)
  {
  }

  lemma UpdatePreservesValid(db: Db, id: int, name: string, img: string, written: bool)
    requires Valid(db)
    ensures Valid(Update(db, id, name, img, written).db)
  {
    var e := Update(db, id, name, img, written);
    if e.success == Updated {
      var r := e.db;
      forall i, j | i in r.rows && j in r.rows && i != j
        ensures r.rows[i].name != r.rows[j].name
      {
        if i == id {
          assert !(j in db.rows && j != id && db.rows[j].name == name);
        } else if j == id {
          assert !(i in db.rows && i != id && db.rows[i].name == name);
        }
      }
    }
  }

  /** Renaming a category to the name it already has is not a duplicate. */
  lemma RenameToOwnNameAllowed(db: Db, id: int, img: string)
    requires Valid(db)
    requires id in db.rows
    requires ValidName(db.rows[id].name)
    ensures Update(db, id, db.rows[id].name, img, true) == Succeed(db.(rows := db.rows[id := Category(db.rows[id].name, img)]), Updated)
  {
  }

  /** Submitting the same update again after it succeeded is accepted again and leaves
      the store as the first submission left it. */
  lemma UpdateIdempotent(db: Db, id: int, name: string, img: string)
    requires Update(db, id, name, img, true).success == Updated
    ensures var once := Update(db, id, name, img, true);
      Update(once.db, id, name, img, true) == once
  {
    var once := Update(db, id, name, img, true);
    assert !NameHeldByOther(once.db.rows, name, id) by {
      forall k | k in once.db.rows && k != id
        ensures once.db.rows[k].name != name
      {
        assert once.db.rows[k] == db.rows[k];
      }
    }
  }

  /** A successful delete removes exactly the requested id. */
  lemma DeleteRemovesOnlyItsRow(db: Db, count: ProductCount, id: int, written: bool)
    requires Delete(db, count, id, written).success == Deleted
    ensures var r := Delete(db, count, id, written).db;
      && id !in r.rows
      && r.rows.Keys == db.rows.Keys - {id}
      && (forall k :: k in r.rows ==> r.rows[k] == db.rows[k])
      && count(id) == 0
  {
  }

  lemma DeletePreservesValid(db: Db, count: ProductCount, id: int, written: bool)
    requires Valid(db)
    ensures Valid(Delete(db, count, id, written).db)
  {
  }
}
