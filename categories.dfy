/**
 * The category handlers: create, list, get by id and rename. Each handler that writes
 * is a function from the table before the request to the reply and the table after
 * it, and a method that runs it against a `NamedStore`.
 */
module Categories {
  import opened Wrappers
  import opened Tables
  import opened Js
  import opened Schema
  import opened Http
  import opened Query
  import opened Store
  import opened Listing

  /** The success bodies of the category handlers. */
  datatype Body =
    | Created(message: string, category: Named)
    | Category(category: Named)
    | Categories(categories: seq<Named>, pagination: Pagination, filters: Filters)

  /** The create and update schema's message for a missing name. */
  const NAME_REQUIRED := "Category name is required"

  /** A name held by some row of `t`. */
  predicate Taken(t: Table, name: string)
  {
    exists id :: id in t.rows && t.rows[id].name == name
  }

  /**
   * `createCategory`: 422 when the body fails the schema, 400 when the name is taken,
   * otherwise 201 with the new row, which takes the next id and the current time.
   * Only a 201 changes the table.
   */
  function CreateCategoryResult(t: Table, body: Object, now: int): (r: (Reply<Body>, Table))
    requires t.Valid()
    ensures r.1.Valid()
    ensures r.0.status in {CREATED, BAD_REQUEST, UNPROCESSABLE}
    ensures r.0.status == UNPROCESSABLE <==> NameInput(body, NAME_REQUIRED).Failure?
    ensures r.0.status == UNPROCESSABLE ==> r.0.payload == Errors(NameInput(body, NAME_REQUIRED).issues)
    ensures r.0.status == BAD_REQUEST <==> NameInput(body, NAME_REQUIRED).Success? && Taken(t, NameInput(body, NAME_REQUIRED).value)
    ensures r.0.status == BAD_REQUEST ==> r.0.payload == Error("Category already exists")
    ensures r.0.status != CREATED ==> r.1 == t
    ensures r.0.status == CREATED ==>
      var row := Named(t.nextId, body["name"].s, now, now);
      && r.0.payload == Data(Created("Product created successfully", row))
      && t.nextId !in t.rows
      && r.1.rows == t.rows[t.nextId := row]
  {
    match NameInput(body, NAME_REQUIRED)
    case Failure(issues) => (Reply(UNPROCESSABLE, Errors(issues)), t)
    case Success(name) =>
      match t.ByName(name)
      case Some(_) => (Reply(BAD_REQUEST, Error("Category already exists")), t)
      case None =>
        var t' := t.Inserted(name, now);
        (Reply(CREATED, Data(Created("Product created successfully", t'.rows[t.nextId]))), t')
  }

  /** `Number(req.params.id)` when it is an integer. */
  function IdParam(s: string): (r: Option<int>)
    ensures r.Some? <==> ToNumber(s).Some? && IsInteger(ToNumber(s).value)
    ensures r.Some? ==> r.value as real == ToNumber(s).value
  {
    match ToNumber(s)
    case Some(v) => if IsInteger(v) then Some(v.Floor) else None
    case None => None
  }

  /** An id written in decimal reads back as itself. */
  lemma IdParamOfDecimal(n: nat)
    ensures IdParam(Decimal(n)) == Some(n)
  {
    ToNumberOfDecimal(n);
  }

  /** The empty parameter is the number 0, which no row has. */
  lemma IdParamOfEmpty()
    ensures IdParam("") == Some(0)
  {
  }

  /** `getCategory`: 400 for an id that is not an integer, 404 for no such row, else 200 with the row. */
  function GetCategory(t: Table, idParam: string): (r: Reply<Body>)
    ensures r.status in {OK, BAD_REQUEST, NOT_FOUND}
    ensures r.status == BAD_REQUEST <==> IdParam(idParam).None?
    ensures r.status == BAD_REQUEST ==> r.payload == Message("Invalid id")
    ensures r.status == NOT_FOUND <==> IdParam(idParam).Some? && ById(t.rows, IdParam(idParam).value).None?
    ensures r.status == NOT_FOUND ==> r.payload == Error("Category not found")
    ensures r.status == OK ==> exists id :: id in t.rows && id as real == ToNumber(idParam).value && r.payload == Data(Category(t.rows[id]))
  {
    match IdParam(idParam)
    case None => Reply(BAD_REQUEST, Message("Invalid id"))
    case Some(id) =>
      match ById(t.rows, id)
      case None => Reply(NOT_FOUND, Error("Category not found"))
      case Some(c) =>
        assert id as nat in t.rows && id as nat as real == ToNumber(idParam).value;
        Reply(OK, Data(Category(c)))
  }

  /**
   * `updateCategory`: 400 for a non-integer id, 422 for a bad body, 404 for no such
   * row, 400 when another row holds the name, otherwise 200 with the renamed row.
   * Only a 200 changes the table, and only that row.
   */
  function UpdateCategoryResult(t: Table, idParam: string, body: Object, now: int): (r: (Reply<Body>, Table))
    requires t.Valid()
    ensures r.1.Valid()
    ensures r.0.status in {OK, BAD_REQUEST, NOT_FOUND, UNPROCESSABLE}
    ensures IdParam(idParam).None? ==> r.0 == Reply(BAD_REQUEST, Message("Invalid id"))
    ensures r.0.status == UNPROCESSABLE <==> IdParam(idParam).Some? && NameInput(body, NAME_REQUIRED).Failure?
    ensures r.0.status == UNPROCESSABLE ==> r.0.payload == Errors(NameInput(body, NAME_REQUIRED).issues)
    ensures r.0.status == NOT_FOUND <==>
      IdParam(idParam).Some? && NameInput(body, NAME_REQUIRED).Success? && ById(t.rows, IdParam(idParam).value).None?
    ensures r.0.status == NOT_FOUND ==> r.0.payload == Error("Category not found")
    ensures r.0 == Reply(BAD_REQUEST, Error("Category name already exists")) <==>
      && IdParam(idParam).Some? && NameInput(body, NAME_REQUIRED).Success? && ById(t.rows, IdParam(idParam).value).Some?
      && exists k :: k in t.rows && k != IdParam(idParam).value && t.rows[k].name == body["name"].s
    ensures r.0.status == OK <==>
      && IdParam(idParam).Some? && NameInput(body, NAME_REQUIRED).Success? && ById(t.rows, IdParam(idParam).value).Some?
      && forall k :: k in t.rows && k != IdParam(idParam).value ==> t.rows[k].name != body["name"].s
    ensures r.0.status != OK ==> r.1 == t
    ensures r.0.status == OK ==>
      var id := IdParam(idParam).value;
      && 0 <= id && id as nat in t.rows
      && (forall k :: k in t.rows && k != id ==> t.rows[k].name != body["name"].s)
      && r.1 == t.Renamed(id as nat, body["name"].s, now)
      && r.0.payload == Data(Category(r.1.rows[id as nat]))
  {
    match IdParam(idParam)
    case None => (Reply(BAD_REQUEST, Message("Invalid id")), t)
    case Some(id) =>
      match NameInput(body, NAME_REQUIRED)
      case Failure(issues) => (Reply(UNPROCESSABLE, Errors(issues)), t)
      case Success(name) =>
        match ById(t.rows, id)
        case None => (Reply(NOT_FOUND, Error("Category not found")), t)
        case Some(_) =>
          match t.HeldByOther(name, id)
          case Some(_) => (Reply(BAD_REQUEST, Error("Category name already exists")), t)
          case None =>
            var t' := t.Renamed(id as nat, name, now);
            (Reply(OK, Data(Category(t'.rows[id as nat]))), t')
  }

  /** `listCategories`; None where the reply depends on how the store treats the page and limit. */
  function ListCategories(t: Table, query: Object): (r: Option<Reply<Body>>)
    ensures r.None? <==> List(t.Rows(), query).StoreDependent?
    ensures List(t.Rows(), query).Rejected? ==> r == Some(Reply(BAD_REQUEST, Errors(List(t.Rows(), query).issues)))
    ensures List(t.Rows(), query).Page? ==>
      var p := List(t.Rows(), query);
      r == Some(Reply(OK, Data(Categories(p.items, p.pagination, p.filters))))
  {
    match List(t.Rows(), query)
    case Rejected(issues) => Some(Reply(BAD_REQUEST, Errors(issues)))
    case StoreDependent(_) => None
    case Page(items, pagination, filters) => Some(Reply(OK, Data(Categories(items, pagination, filters))))
  }

  // ----- properties -----

  /** A category that was just created is found under its new id. */
  lemma CreateThenGet(t: Table, body: Object, now: int)
    requires t.Valid()
    requires CreateCategoryResult(t, body, now).0.status == CREATED
    ensures var (reply, t') := CreateCategoryResult(t, body, now);
      GetCategory(t', Decimal(t.nextId)) == Reply(OK, Data(Category(reply.payload.value.category)))
  {
    IdParamOfDecimal(t.nextId);
  }

  /** Creating the same name twice: the second request is refused and changes nothing. */
  lemma CreateTwice(t: Table, body: Object, now: int, later: int)
    requires t.Valid()
    requires CreateCategoryResult(t, body, now).0.status == CREATED
    ensures var t' := CreateCategoryResult(t, body, now).1;
      CreateCategoryResult(t', body, later) == (Reply(BAD_REQUEST, Error("Category already exists")), t')
  {
    var t' := CreateCategoryResult(t, body, now).1;
    assert t'.rows[t.nextId].name == body["name"].s;
  }

  /** A created category is counted by every later listing whose filter it matches. */
  lemma CreateCounts(t: Table, body: Object, now: int, w: Where)
    requires t.Valid()
    requires CreateCategoryResult(t, body, now).0.status == CREATED
    ensures var (reply, t') := CreateCategoryResult(t, body, now);
      Count(t'.Rows(), w) == Count(t.Rows(), w) + (if Matches(w, reply.payload.value.category) then 1 else 0)
  {
    var name := body["name"].s;
    t.InsertedRows(name, now);
    var s := t.Rows() + [Named(t.nextId, name, now, now)];
    assert s[..|s| - 1] == t.Rows();
  }

  /** Renaming a category to the name it already has is allowed. */
  lemma RenameToOwnName(t: Table, n: nat, now: int)
    requires t.Valid() && n in t.rows
    ensures var body := map["name" := JStr(t.rows[n].name)];
      var r := UpdateCategoryResult(t, Decimal(n), body, now);
      t.rows[n].name != "" ==> r.0.status == OK && r.1.rows == t.rows[n := t.rows[n].(updatedAt := now)]
  {
    IdParamOfDecimal(n);
  }

  /** A rename to a name another category holds is refused with 400 and changes nothing. */
  lemma RenameToOthersName(t: Table, n: nat, other: nat, now: int)
    requires t.Valid() && n in t.rows && other in t.rows && other != n
    ensures var body := map["name" := JStr(t.rows[other].name)];
      var r := UpdateCategoryResult(t, Decimal(n), body, now);
      t.rows[other].name != "" ==> r == (Reply(BAD_REQUEST, Error("Category name already exists")), t)
  {
    IdParamOfDecimal(n);
  }

  /** What a successful rename returns is what a later get finds. */
  lemma UpdateThenGet(t: Table, idParam: string, body: Object, now: int)
    requires t.Valid()
    requires UpdateCategoryResult(t, idParam, body, now).0.status == OK
    ensures var (reply, t') := UpdateCategoryResult(t, idParam, body, now);
      GetCategory(t', idParam) == reply
  {
  }

  /** Every category on a listed page is a stored row. */
  lemma ListedAreStored(t: Table, query: Object)
    requires t.Valid()
    requires ListCategories(t, query).Some? && ListCategories(t, query).value.status == OK
    ensures forall c :: c in ListCategories(t, query).value.payload.value.categories ==> c.id in t.rows && t.rows[c.id] == c
  {
    var q := ParseListQuery(query).value;
    PageMembers(t.Rows(), q);
    t.RowsMembers();
  }

  /** The category routes over one `prisma.category` delegate. */
  method CreateCategory(store: NamedStore, body: Object, now: int) returns (reply: Reply<Body>)
    requires store.Valid()
    modifies store
    ensures store.Valid()
    ensures (reply, store.Snapshot()) == CreateCategoryResult(old(store.Snapshot()), body, now)
  {
    var parsed := NameInput(body, NAME_REQUIRED);
    if parsed.Failure? {
      return Reply(UNPROCESSABLE, Errors(parsed.issues));
    }
    var name := parsed.value;
    var existing := store.FindUniqueByName(name);
    if existing.Some? {
      return Reply(BAD_REQUEST, Error("Category already exists"));
    }
    var category := store.Create(name, now);
    reply := Reply(CREATED, Data(Created("Product created successfully", category)));
  }

  method UpdateCategory(store: NamedStore, idParam: string, body: Object, now: int) returns (reply: Reply<Body>)
    requires store.Valid()
    modifies store
    ensures store.Valid()
    ensures (reply, store.Snapshot()) == UpdateCategoryResult(old(store.Snapshot()), idParam, body, now)
  {
    var id := IdParam(idParam);
    if id.None? {
      return Reply(BAD_REQUEST, Message("Invalid id"));
    }
    var parsed := NameInput(body, NAME_REQUIRED);
    if parsed.Failure? {
      return Reply(UNPROCESSABLE, Errors(parsed.issues));
    }
    var name := parsed.value;
    var existing := store.FindUniqueById(id.value);
    if existing.None? {
      return Reply(NOT_FOUND, Error("Category not found"));
    }
    var nameExists := store.FindFirstHeldByOther(name, id.value);
    if nameExists.Some? {
      return Reply(BAD_REQUEST, Error("Category name already exists"));
    }
    var updated := store.Update(id.value as nat, name, now);
    reply := Reply(OK, Data(Category(updated)));
  }
}
