/**
 * Single requests of the category page, each stated as a lemma on concrete inputs:
 * either end to end through `Handle`, or on the action a parsed request runs.
 * `Handler.HandleDispatches` connects the action-level lemmas to `Handle`.
 */
module Scenarios {
  import opened Optional
  import opened Text
  import opened Store
  import opened Actions
  import opened Handler

  const Admin := Session(Some(7), Some("admin"))

  function Post(action: string, id: Option<int>, name: Option<string>, img: Option<string>): Request {
    Request("POST", Some(action), None, name, img, id)
  }

  function NoProducts(id: int): nat { 0 }

  function OneProductInFirst(id: int): nat { if id == 1 then 1 else 0 }

  /** The first category created in an empty table gets id 1. */
  lemma FirstCreate(name: string, img: string)
    requires ValidName(name)
    ensures Create(Empty(), name, img, true) == Succeed(Db(map[1 := Category(name, img)], 2), Created)
  {
    assert !NameHeld(map[], name);
  }

  /** A create form whose fields have no surrounding blanks carries them unchanged. */
  lemma ParsesTrimmedCreate(name: string, img: string)
    requires Trimmed(name) && Trimmed(img)
    ensures Parse(Post("create", None, Some(name), Some(img))) == CreateCategory(name, img)
  {
    TrimKeepsTrimmed(name);
    TrimKeepsTrimmed(img);
  }

  /** Creating a category in an empty table, with a name and image sent without
      surrounding blanks, stores it under id 1. */
  lemma CreateInEmptyTable(name: string, img: string)
    requires ValidName(name) && Trimmed(name) && Trimmed(img)
    ensures Handle(Admin, Post("create", None, Some(name), Some(img)), Empty(), NoProducts, true)
      == Response(Db(map[1 := Category(name, img)], 2), Rendered(Created, ""))
  {
    ParsesTrimmedCreate(name, img);
    FirstCreate(name, img);
    assert Authorized(Admin);
  }

  /** Creating "Hair Care" again is refused and the table keeps its single row. */
  lemma CreateDuplicate()
    ensures var db := Db(map[1 := Category("Hair Care", "hair_care")], 2);
      Create(db, "Hair Care", "", true) == Reject(db, NameExists)
  {
    var db := Db(map[1 := Category("Hair Care", "hair_care")], 2);
    assert db.rows[1].name == "Hair Care";
  }

  /** Renaming row 1 overwrites its name and image. */
  lemma RenameExisting()
    ensures var db := Db(map[1 := Category("Hair Care", "hair_care")], 2);
      Update(db, 1, "Skin Care", "skin", true)
      == Succeed(Db(map[1 := Category("Skin Care", "skin")], 2), Updated)
  {
    var db := Db(map[1 := Category("Hair Care", "hair_care")], 2);
    assert !NameHeldByOther(db.rows, "Skin Care", 1);
  }

  /** A category referenced by a product is not deleted. */
  lemma DeleteInUse()
    ensures var db := Db(map[1 := Category("Skin Care", "skin")], 2);
      Delete(db, OneProductInFirst, 1, true) == Reject(db, InUse)
  {
  }

  /** Deleting an id that has no row reports success and changes nothing. */
  lemma DeleteMissing()
    ensures var db := Db(map[1 := Category("Skin Care", "skin")], 2);
      Delete(db, NoProducts, 999, true) == Succeed(db, Deleted)
  {
  }

  /** A name made of blanks only is read as empty, and an empty name fails the length rule. */
  lemma BlankNamesRejected()
    ensures TextField(Some(" \t ")) == ""
    ensures Create(Empty(), "", "", true) == Reject(Empty(), NameRule)
  {
    assert AllBlank(" \t ");
  }

  /** A POST whose action comes only from the query string is still executed. */
  lemma QueryActionOnPost()
    ensures var req := Request("POST", None, Some("delete"), None, None, Some(0));
      Handle(Admin, req, Empty(), NoProducts, true) == Response(Empty(), Rendered("", InvalidCategory))
  {
  }

  /** A customer is sent home and an anonymous visitor to the login page. */
  lemma GateRedirects()
    ensures Handle(Session(Some(3), Some("customer")), Post("create", None, Some("X"), None), Empty(), NoProducts, true)
      == Response(Empty(), Redirected(HomePage, NoPermission))
    ensures Handle(Session(None, Some("admin")), Post("create", None, Some("X"), None), Empty(), NoProducts, true)
      == Response(Empty(), Redirected(LoginPage, LoginRequired))
  {
  }
}
