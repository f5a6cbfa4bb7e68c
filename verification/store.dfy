/**
 * The `categories` table, as an immutable value: rows keyed by `category_id`,
 * plus the table's auto-increment counter. Products are not stored here; the
 * screen only ever asks how many products reference a given id.
 */
module Store {

  datatype Category = Category(name: string, img: string)

  type Rows = map<int, Category>

  /** `nextId` is the value the table's auto-increment will hand out next. */
  datatype Db = Db(rows: Rows, nextId: int)

  /** Number of rows of `products` whose `category_id` is the argument. */
  type ProductCount = int -> nat

  /** Some category is called `name` (the `WHERE category_name = ?` lookup). */
  predicate NameHeld(rows: Rows, name: string)
    ensures NameHeld(rows, name) <==> name in (set id | id in rows :: rows[id].name)
  {
    exists id :: id in rows && rows[id].name == name
  }

  /** Some category other than `self` is called `name`
      (the `WHERE category_name = ? AND category_id <> ?` lookup). */
  predicate NameHeldByOther(rows: Rows, name: string, self: int)
    ensures NameHeldByOther(rows, name, self) ==> NameHeld(rows, name)
    ensures self !in rows ==> (NameHeldByOther(rows, name, self) <==> NameHeld(rows, name))
    ensures NameHeld(rows, name) && !NameHeldByOther(rows, name, self) ==> self in rows && rows[self].name == name
    ensures NameHeldByOther(rows, name, self) <==> NameHeld(rows - {self}, name)
  {
    HeldAmongOthers(rows, name, self);
    exists id :: id in rows && id != self && rows[id].name == name
  }

  /** A holder other than `self` is exactly a holder among the rows without `self`. */
  lemma HeldAmongOthers(rows: Rows, name: string, self: int)
    ensures (exists id :: id in rows && id != self && rows[id].name == name) <==> NameHeld(rows - {self}, name)
  {
    var others := rows - {self};
    if exists id :: id in rows && id != self && rows[id].name == name {
      var id :| id in rows && id != self && rows[id].name == name;
      assert id in others && others[id].name == name;
    }
    if NameHeld(others, name) {
      var id :| id in others && others[id].name == name;
      assert id in rows && id != self && rows[id].name == name;
    }
  }

  /** The unique constraint on `category_name`. */
  ghost predicate NamesUnique(rows: Rows) {
    forall i, j :: i in rows && j in rows && i != j ==> rows[i].name != rows[j].name
  }

  /** Every stored id is positive and was issued by the counter. */
  ghost predicate IdsIssued(db: Db) {
    0 < db.nextId && forall id :: id in db.rows ==> 0 < id < db.nextId
  }

  ghost predicate Valid(db: Db) {
    IdsIssued(db) && NamesUnique(db.rows)
  }

  /** A freshly created table. */
  function Empty(): (db: Db)
    ensures Valid(db)
    ensures |db.rows| == 0
  {
    Db(map[], 1)
  }

  /** `INSERT INTO categories`: the row gets the counter's id, which is fresh in a
      valid store, and no existing row changes. */
  function Insert(db: Db, c: Category): (r: Db)
    ensures IdsIssued(db) ==> db.nextId !in db.rows
    ensures r.rows.Keys == db.rows.Keys + {db.nextId}
    ensures r.rows[db.nextId] == c
    ensures IdsIssued(db) ==> forall id :: id in db.rows ==> r.rows[id] == db.rows[id]
    ensures IdsIssued(db) ==> IdsIssued(r) && |r.rows| == |db.rows| + 1
    ensures r.nextId > db.nextId
  {
    Db(db.rows[db.nextId := c], db.nextId + 1)
  }

  /** `UPDATE categories ... WHERE category_id = ?`: overwrites the row with that id
      if there is one; a missing id matches no row and nothing changes. */
  function UpdateById(db: Db, id: int, c: Category): (r: Db)
    ensures r.rows.Keys == db.rows.Keys && r.nextId == db.nextId
    ensures id in db.rows ==> r.rows[id] == c
    ensures forall k :: k in db.rows && k != id ==> r.rows[k] == db.rows[k]
    ensures id !in db.rows ==> r == db
  {
    if id in db.rows then Db(db.rows[id := c], db.nextId) else db
  }

  /** `DELETE FROM categories WHERE category_id = ?`: removes that id and keeps every
      other row as it was. */
  function DeleteById(db: Db, id: int): (r: Db)
    ensures r.rows.Keys == db.rows.Keys - {id} && r.nextId == db.nextId
    ensures forall k :: k in r.rows ==> r.rows[k] == db.rows[k]
    ensures id !in db.rows ==> r == db
  {
    Db(db.rows - {id}, db.nextId)
  }
}
