/**
 * One request to the category administration page: the role gate, dispatch on the
 * HTTP method and the `action` field, and the chosen mutation. The session, the
 * request and the store are explicit inputs; the result is the new store and what
 * the page shows.
 */
module Handler {
  import opened Optional
  import opened Text
  import opened Store
  import opened Actions

  /** The session values the gate reads: `user_id` and `user_role`. */
  datatype Session = Session(userId: Option<int>, role: Option<string>)

  /** The form and query values the page reads. `categoryId` is the form value after
      the integer conversion. */
  datatype Request = Request(
    verb: string,
    postAction: Option<string>,
    queryAction: Option<string>,
    categoryName: Option<string>,
    imgName: Option<string>,
    categoryId: Option<int>)

  datatype Landing = LoginPage | HomePage

  /** Either the request is turned away with a flash message, or the page is rendered
      with its two messages. */
  datatype Outcome = Redirected(to: Landing, flash: string) | Rendered(success: string, error: string)

  datatype Response = Response(db: Db, outcome: Outcome)

  /** The typed command a request stands for. */
  datatype Command =
    | CreateCategory(name: string, img: string)
    | UpdateCategory(id: int, name: string, img: string)
    | DeleteCategory(id: int)
    | NoCommand

  const LoginRequired := "Please login to access this page."
  const NoPermission := "You do not have permission to access this page."

  /** Only the `admin` and `staff` roles may use the page. */
  predicate StaffRole(role: string)
    ensures StaffRole(role) <==> role in {"admin", "staff"}
  {
    role == "admin" || role == "staff"
  }

  predicate Authorized(session: Session) {
    session.userId.Some? && StaffRole(session.role.GetOr(""))
  }

  /** The form action, taken from the POST body first, then the query string. */
  function ActionOf(req: Request): (a: string)
    ensures req.postAction.Some? ==> a == req.postAction.value
    ensures req.postAction.None? && req.queryAction.Some? ==> a == req.queryAction.value
    ensures req.postAction.None? && req.queryAction.None? ==> a == ""
  {
    match req.postAction
    case Some(a) => a
    case None => req.queryAction.GetOr("")
  }

  /** A text field as the page reads it: missing means empty, then it is trimmed. */
  function TextField(field: Option<string>): (s: string)
    ensures s == Trim(field.GetOr(""))
    ensures Trimmed(s)
    ensures field.None? ==> s == ""
  {
    Trim(field.GetOr(""))
  }

  predicate Recognised(action: string) {
    action == "create" || action == "update" || action == "delete"
  }

  /** Decides which command a request stands for. Only POST requests with a known
      action carry one; the fields are read and trimmed for that action. */
  function Parse(req: Request): (c: Command)
    ensures c.NoCommand? <==> req.verb != "POST" || !Recognised(ActionOf(req))
    ensures c.CreateCategory? <==> req.verb == "POST" && ActionOf(req) == "create"
    ensures c.UpdateCategory? <==> req.verb == "POST" && ActionOf(req) == "update"
    ensures c.DeleteCategory? <==> req.verb == "POST" && ActionOf(req) == "delete"
    ensures (c.CreateCategory? || c.UpdateCategory?) ==>
      c.name == TextField(req.categoryName) && c.img == TextField(req.imgName)
    ensures c.CreateCategory? ==> Trimmed(c.name) && Trimmed(c.img)
    ensures c.UpdateCategory? ==> Trimmed(c.name) && Trimmed(c.img) && c.id == req.categoryId.GetOr(0)
    ensures c.DeleteCategory? ==> c.id == req.categoryId.GetOr(0)
  {
    if req.verb != "POST" then NoCommand
    else
      var action := ActionOf(req);
      if action == "create" then
        CreateCategory(TextField(req.categoryName), TextField(req.imgName))
      else if action == "update" then
        UpdateCategory(req.categoryId.GetOr(0), TextField(req.categoryName), TextField(req.imgName))
      else if action == "delete" then
        DeleteCategory(req.categoryId.GetOr(0))
      else NoCommand
  }

  /** Applies a command; `NoCommand` leaves the store alone and sets no message. */
  function Execute(cmd: Command, db: Db, count: ProductCount, written: bool): (e: Effect)
    ensures cmd.NoCommand? ==> e == Effect(db, "", "")
    ensures cmd.CreateCategory? ==> e == Create(db, cmd.name, cmd.img, written)
    ensures cmd.UpdateCategory? ==> e == Update(db, cmd.id, cmd.name, cmd.img, written)
    ensures cmd.DeleteCategory? ==> e == Delete(db, count, cmd.id, written)
    ensures !cmd.NoCommand? ==> (e.success == "") != (e.error == "")
    ensures e.error != "" ==> e.db == db
  {
    match cmd
    case CreateCategory(name, img) => Create(db, name, img, written)
    case UpdateCategory(id, name, img) => Update(db, id, name, img, written)
    case DeleteCategory(id) => Delete(db, count, id, written)
    case NoCommand => Effect(db, "", "")
  }

  /** The whole request. Without a user the visitor is sent to the login page, and with
      a role other than admin or staff to the home page; in both cases the store is
      untouched. Otherwise the command is executed and the page rendered. */
  function Handle(session: Session, req: Request, db: Db, count: ProductCount, written: bool): (r: Response)
    ensures session.userId.None? ==> r == Response(db, Redirected(LoginPage, LoginRequired))
    ensures session.userId.Some? && !StaffRole(session.role.GetOr("")) ==>
      r == Response(db, Redirected(HomePage, NoPermission))
    ensures r.outcome.Rendered? <==> Authorized(session)
  {
    if session.userId.None? then Response(db, Redirected(LoginPage, LoginRequired))
    else if !StaffRole(session.role.GetOr("")) then Response(db, Redirected(HomePage, NoPermission))
    else
      var e := Execute(Parse(req), db, count, written);
      Response(e.db, Rendered(e.success, e.error))
  }

  /** An authorised POST runs the action it names on the trimmed form fields and the
      form id (0 when missing), and the page shows that action's messages. */
  lemma HandleDispatches(session: Session, req: Request, db: Db, count: ProductCount, written: bool)
    requires Authorized(session) && req.verb == "POST"
    ensures var name := Trim(req.categoryName.GetOr(""));
      var img := Trim(req.imgName.GetOr(""));
      var id := req.categoryId.GetOr(0);
      var r := Handle(session, req, db, count, written);
      && (ActionOf(req) == "create" ==> var e := Create(db, name, img, written); r == Response(e.db, Rendered(e.success, e.error)))
      && (ActionOf(req) == "update" ==> var e := Update(db, id, name, img, written); r == Response(e.db, Rendered(e.success, e.error)))
      && (ActionOf(req) == "delete" ==> var e := Delete(db, count, id, written); r == Response(e.db, Rendered(e.success, e.error)))
  {
  }

  /** Any request that ends in an error message, or in a redirect, leaves the store
      exactly as it was. */
  lemma FailureLeavesStoreUnchanged(session: Session, req: Request, db: Db, count: ProductCount, written: bool)
    ensures var r := Handle(session, req, db, count, written);
      (r.outcome.Redirected? || r.outcome.error != "") ==> r.db == db
  {
  }

  /** A GET, or a POST whose action is missing or unknown, changes nothing and sets no
      message. */
  lemma NoActionNoChange(session: Session, req: Request, db: Db, count: ProductCount, written: bool)
    requires Authorized(session)
    requires req.verb != "POST" || !Recognised(ActionOf(req))
    ensures Handle(session, req, db, count, written) == Response(db, Rendered("", ""))
  {
  }

  /** On a POST with a known action exactly one of the two messages is set. */
  lemma OneMessagePerAction(session: Session, req: Request, db: Db, count: ProductCount, written: bool)
    requires Authorized(session)
    requires req.verb == "POST" && Recognised(ActionOf(req))
    ensures var o := Handle(session, req, db, count, written).outcome;
      o.Rendered? && (o.success == "") != (o.error == "")
  {
  }

  /** An update or delete with a non-positive id reports the invalid id whatever the name is: the
      id is checked first. */
  lemma InvalidIdReportedFirst(session: Session, req: Request, db: Db, count: ProductCount, written: bool)
    requires Authorized(session)
    requires req.verb == "POST" && (ActionOf(req) == "update" || ActionOf(req) == "delete")
    requires req.categoryId.GetOr(0) <= 0
    ensures Handle(session, req, db, count, written) == Response(db, Rendered("", InvalidCategory))
  {
  }

  /** No request removes a category that products still reference. */
  lemma InUseNeverDeleted(session: Session, req: Request, db: Db, count: ProductCount, written: bool)
    ensures var r := Handle(session, req, db, count, written);
      forall id :: id in db.rows && count(id) > 0 ==> id in r.db.rows
  {
  }

  /** Every request keeps the store valid; in particular category names stay unique. */
  lemma HandlePreservesValid(session: Session, req: Request, db: Db, count: ProductCount, written: bool)
    requires Valid(db)
    ensures Valid(Handle(session, req, db, count, written).db)
  {
    if Authorized(session) {
      match Parse(req)
      case CreateCategory(name, img) => CreatePreservesValid(db, name, img, written);
      case UpdateCategory(id, name, img) => UpdatePreservesValid(db, id, name, img, written);
      case DeleteCategory(id) => DeletePreservesValid(db, count, id, written);
      case NoCommand =>
    }
  }

  /** Ids are only ever added by taking the counter's value, and the counter never goes
      back; an existing row's id never changes. */
  lemma IdsOnlyFromCounter(session: Session, req: Request, db: Db, count: ProductCount, written: bool)
    ensures var r := Handle(session, req, db, count, written);
      && db.nextId <= r.db.nextId
      && (forall id :: id in r.db.rows && id !in db.rows ==> id == db.nextId < r.db.nextId)
  {
  }

  /** One request of a sequence: who sent it, what it asked, how many products reference
      each category at that moment, and whether the store accepted the write. */
  datatype Step = Step(session: Session, req: Request, count: ProductCount, written: bool)

  /** The store after handling the requests one after another. */
  function Run(db: Db, steps: seq<Step>): (r: Db)
    ensures db.nextId <= r.nextId
    decreases |steps|
  {
    if steps == [] then db
    else
      var s := steps[0];
      IdsOnlyFromCounter(s.session, s.req, db, s.count, s.written);
      Run(Handle(s.session, s.req, db, s.count, s.written).db, steps[1..])
  }

  /** Names stay unique, and ids stay issued, across any sequence of requests. */
  lemma {:induction false} RunPreservesValid(db: Db, steps: seq<Step>)
    requires Valid(db)
    ensures Valid(Run(db, steps))
    decreases |steps|
  {
    if steps != [] {
      var s := steps[0];
      HandlePreservesValid(s.session, s.req, db, s.count, s.written);
      RunPreservesValid(Handle(s.session, s.req, db, s.count, s.written).db, steps[1..]);
    }
  }

  /** An id that was handed out and is no longer present never comes back: a deleted
      category's id is not reused by any later request. */
  lemma {:induction false} RunNeverReusesIds(db: Db, steps: seq<Step>, id: int)
    requires id < db.nextId && id !in db.rows
    ensures id !in Run(db, steps).rows
    decreases |steps|
  {
    if steps != [] {
      var s := steps[0];
      var next := Handle(s.session, s.req, db, s.count, s.written).db;
      IdsOnlyFromCounter(s.session, s.req, db, s.count, s.written);
      RunNeverReusesIds(next, steps[1..], id);
    }
  }
}
