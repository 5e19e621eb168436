/** The tag handlers: create and list, over the tag table. */
module Tags {
  import opened Wrappers
  import opened Js
  import opened Schema
  import opened Http
  import opened Query
  import opened Store
  import opened Listing

  /** The success bodies of the tag handlers. */
  datatype Body =
    | Tag(tag: Named)
    | Tags(tags: seq<Named>, pagination: Pagination, filters: Filters)

  /** The create schema's message for a missing name. */
  const NAME_REQUIRED := "Tag name is required"

  /**
   * `createTag`: 422 when the body fails the schema, 400 when a tag already has the
   * name, otherwise 201 with the new tag itself. Only a 201 changes the table.
   */
  function CreateTagResult(t: Table, body: Object, now: int): (r: (Reply<Body>, Table))
    requires t.Valid()
    ensures r.1.Valid()
    ensures r.0.status in {CREATED, BAD_REQUEST, UNPROCESSABLE}
    ensures r.0.status == UNPROCESSABLE <==> NameInput(body, NAME_REQUIRED).Failure?
    ensures r.0.status == UNPROCESSABLE ==> r.0.payload == Errors(NameInput(body, NAME_REQUIRED).issues)
    ensures r.0.status == BAD_REQUEST <==>
      NameInput(body, NAME_REQUIRED).Success? && exists id :: id in t.rows && t.rows[id].name == NameInput(body, NAME_REQUIRED).value
    ensures r.0.status == BAD_REQUEST ==> r.0.payload == Error("Tag already exists")
    ensures r.0.status != CREATED ==> r.1 == t
    ensures r.0.status == CREATED ==>
      var row := Named(t.nextId, body["name"].s, now, now);
      && r.0.payload == Data(Tag(row))
      && t.nextId !in t.rows
      && r.1.rows == t.rows[t.nextId := row]
  {
    match NameInput(body, NAME_REQUIRED)
    case Failure(issues) => (Reply(UNPROCESSABLE, Errors(issues)), t)
    case Success(name) =>
      match t.ByName(name)
      case Some(_) => (Reply(BAD_REQUEST, Error("Tag already exists")), t)
      case None =>
        var t' := t.Inserted(name, now);
        (Reply(CREATED, Data(Tag(t'.rows[t.nextId]))), t')
  }

  /** `listTags`; None where the reply depends on how the store treats the page and limit. */
  function ListTags(t: Table, query: Object): (r: Option<Reply<Body>>)
    ensures r.None? <==> List(t.Rows(), query).StoreDependent?
    ensures List(t.Rows(), query).Rejected? ==> r == Some(Reply(BAD_REQUEST, Errors(List(t.Rows(), query).issues)))
    ensures List(t.Rows(), query).Page? ==>
      var p := List(t.Rows(), query);
      r == Some(Reply(OK, Data(Tags(p.items, p.pagination, p.filters))))
  {
    match List(t.Rows(), query)
    case Rejected(issues) => Some(Reply(BAD_REQUEST, Errors(issues)))
    case StoreDependent(_) => None
    case Page(items, pagination, filters) => Some(Reply(OK, Data(Tags(items, pagination, filters))))
  }

  // ----- properties -----

  /** Creating the same tag twice: the second request is refused and changes nothing. */
  lemma CreateTwice(t: Table, body: Object, now: int, later: int)
    requires t.Valid()
    requires CreateTagResult(t, body, now).0.status == CREATED
    ensures var t' := CreateTagResult(t, body, now).1;
      CreateTagResult(t', body, later) == (Reply(BAD_REQUEST, Error("Tag already exists")), t')
  {
    var t' := CreateTagResult(t, body, now).1;
    assert t'.rows[t.nextId].name == body["name"].s;
  }

  /** A new tag comes last in the store's id order, after every tag that was there. */
  lemma CreatedTagListedLast(t: Table, body: Object, now: int)
    requires t.Valid()
    requires CreateTagResult(t, body, now).0.status == CREATED
    ensures var (reply, t') := CreateTagResult(t, body, now);
      t'.Rows() == t.Rows() + [reply.payload.value.tag]
  {
    t.InsertedRows(body["name"].s, now);
  }

  /** Every tag on a listed page is a stored row. */
  lemma ListedAreStored(t: Table, query: Object)
    requires t.Valid()
    requires ListTags(t, query).Some? && ListTags(t, query).value.status == OK
    ensures forall g :: g in ListTags(t, query).value.payload.value.tags ==> g.id in t.rows && t.rows[g.id] == g
  {
    var q := ParseListQuery(query).value;
    PageMembers(t.Rows(), q);
    t.RowsMembers();
  }

  /** The tag create route over one `prisma.tag` delegate. */
  method CreateTag(store: NamedStore, body: Object, now: int) returns (reply: Reply<Body>)
    requires store.Valid()
    modifies store
    ensures store.Valid()
    ensures (reply, store.Snapshot()) == CreateTagResult(old(store.Snapshot()), body, now)
  {
    var parsed := NameInput(body, NAME_REQUIRED);
    if parsed.Failure? {
      return Reply(UNPROCESSABLE, Errors(parsed.issues));
    }
    var name := parsed.value;
    var existing := store.FindUniqueByName(name);
    if existing.Some? {
      return Reply(BAD_REQUEST, Error("Tag already exists"));
    }
    var tag := store.Create(name, now);
    reply := Reply(CREATED, Data(Tag(tag)));
  }
}
