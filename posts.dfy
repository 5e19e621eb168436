/**
 * The post create handler: it validates the body, checks that the category exists,
 * and stores the post under the authenticated user as its author.
 */
module Posts {
  import opened Wrappers
  import opened Tables
  import opened Js
  import opened Schema
  import opened Http
  import opened Users
  import opened Store
  import opened Accounts

  /** The validated body; any other key of the request body is dropped. */
  datatype PostData = PostData(title: string, content: string, categoryId: int, published: bool)

  datatype Post = Post(id: nat, title: string, content: string, published: bool, authorId: nat, categoryId: nat, createdAt: int, updatedAt: int)

  /** `{ id, name }` of the post's category. */
  datatype CategoryRef = CategoryRef(id: nat, name: string)

  /** The created post with the author and category it was created under. */
  datatype PostView = PostView(post: Post, author: Profile, category: CategoryRef)

  const POST_KEYS: set<string> := {"title", "content", "categoryId", "published"}

  /**
   * The create schema: a non-empty title and content, a positive integer categoryId,
   * and an optional boolean published that defaults to false.
   */
  function PostInput(body: Object): (r: Parse<PostData>)
    ensures r.Success? <==>
      && "title" in body && body["title"].JStr? && body["title"].s != ""
      && "content" in body && body["content"].JStr? && body["content"].s != ""
      && "categoryId" in body && body["categoryId"].JNum? && IsInteger(body["categoryId"].n) && body["categoryId"].n > 0.0
      && ("published" !in body || body["published"].JBool?)
    ensures r.Success? ==>
      && r.value.title == body["title"].s
      && r.value.content == body["content"].s
      && r.value.categoryId > 0 && r.value.categoryId as real == body["categoryId"].n
      && r.value.published == ("published" in body && body["published"].b)
    ensures r.Failure? ==> |r.issues| >= 1
  {
    var title := MinString(body, "title", 1, "Title is required");
    var content := MinString(body, "content", 1, "Content is required");
    var categoryId := PositiveInt(body, "categoryId", "Valid category ID is required");
    var published := OptionalBool(body, "published", false);
    assert title.Success? ==> |body["title"].s| <= Length(body["title"].s);
    assert content.Success? ==> |body["content"].s| <= Length(body["content"].s);
    if title.Success? && content.Success? && categoryId.Success? && published.Success? then
      Success(PostData(title.value, content.value, categoryId.value, published.value))
    else
      Failure(IssuesOf(title) + IssuesOf(content) + IssuesOf(categoryId) + IssuesOf(published))
  }

  /** Keys outside the schema make no difference to what it accepts or yields. */
  lemma PostInputIgnores(body: Object, k: string, v: Json)
    requires k !in POST_KEYS
    ensures PostInput(body[k := v]) == PostInput(body)
  {
    var b := body[k := v];
    assert Get(b, "title") == Get(body, "title");
    assert MinString(b, "title", 1, "Title is required") == MinString(body, "title", 1, "Title is required");
    assert Get(b, "content") == Get(body, "content");
    assert MinString(b, "content", 1, "Content is required") == MinString(body, "content", 1, "Content is required");
    assert Get(b, "categoryId") == Get(body, "categoryId");
    assert PositiveInt(b, "categoryId", "Valid category ID is required") == PositiveInt(body, "categoryId", "Valid category ID is required");
    assert Get(b, "published") == Get(body, "published");
    assert OptionalBool(b, "published", false) == OptionalBool(body, "published", false);
  }

  datatype PostTable = PostTable(rows: map<nat, Post>, nextId: nat) {

    predicate Valid()
    {
      && (forall id :: id in rows ==> 1 <= id < nextId && rows[id].id == id)
      && nextId >= 1
    }

    /** `create({ data: { ...data, authorId } })` at time `now`, under the next id. */
    function Inserted(data: PostData, authorId: nat, now: int): (t: PostTable)
      requires Valid() && data.categoryId > 0
      ensures t.Valid()
      ensures nextId !in rows
      ensures t.rows == rows[nextId := Post(nextId, data.title, data.content, data.published, authorId, data.categoryId as nat, now, now)]
    {
      PostTable(rows[nextId := Post(nextId, data.title, data.content, data.published, authorId, data.categoryId as nat, now, now)], nextId + 1)
    }
  }

  /**
   * `createPost`: 400 with the issues when the body fails the schema, 400 "Category
   * not found" when no category has the id, otherwise 201 with one new post whose
   * author is the authenticated user. Only a 201 adds a post.
   */
  function CreatePostResult(posts: PostTable, categories: Table, user: SafeUser, body: Object, now: int): (r: (Reply<PostView>, PostTable))
    requires posts.Valid()
    ensures r.1.Valid()
    ensures r.0.status in {CREATED, BAD_REQUEST}
    ensures PostInput(body).Failure? ==> r == (Reply(BAD_REQUEST, Errors(PostInput(body).issues)), posts)
    ensures PostInput(body).Success? && ById(categories.rows, PostInput(body).value.categoryId).None? ==>
      r == (Reply(BAD_REQUEST, Error("Category not found")), posts)
    ensures PostInput(body).Success? && ById(categories.rows, PostInput(body).value.categoryId).Some? ==> r.0.status == CREATED
    ensures r.0.status != CREATED ==> r.1 == posts
    ensures r.0.status == CREATED ==>
      var data := PostInput(body).value;
      var post := Post(posts.nextId, data.title, data.content, data.published, user.id, data.categoryId as nat, now, now);
      && data.categoryId as nat in categories.rows
      && posts.nextId !in posts.rows
      && r.1.rows == posts.rows[posts.nextId := post]
      && r.0.payload.Data?
      && r.0.payload.value.post == post
      && r.0.payload.value.author == Profile(user.id, user.name, user.email)
      && r.0.payload.value.category == CategoryRef(data.categoryId as nat, categories.rows[data.categoryId as nat].name)
  {
    match PostInput(body)
    case Failure(issues) => (Reply(BAD_REQUEST, Errors(issues)), posts)
    case Success(data) =>
      match ById(categories.rows, data.categoryId)
      case None => (Reply(BAD_REQUEST, Error("Category not found")), posts)
      case Some(category) =>
        var posts' := posts.Inserted(data, user.id, now);
        var view := PostView(posts'.rows[posts.nextId], Profile(user.id, user.name, user.email),
                             CategoryRef(data.categoryId as nat, categories.rows[data.categoryId as nat].name));
        (Reply(CREATED, Data(view)), posts')
  }

  // ----- properties -----

  /** An `authorId` (or any other key outside the schema) in the body changes nothing. */
  lemma AuthorIdIgnored(posts: PostTable, categories: Table, user: SafeUser, body: Object, k: string, v: Json, now: int)
    requires posts.Valid() && k !in POST_KEYS
    ensures CreatePostResult(posts, categories, user, body[k := v], now) == CreatePostResult(posts, categories, user, body, now)
  {
    PostInputIgnores(body, k, v);
  }

  /** A post created without `published` is a draft. */
  lemma PublishedDefaultsFalse(posts: PostTable, categories: Table, user: SafeUser, body: Object, now: int)
    requires posts.Valid() && "published" !in body
    requires CreatePostResult(posts, categories, user, body, now).0.status == CREATED
    ensures !CreatePostResult(posts, categories, user, body, now).0.payload.value.post.published
  {
  }

  /** A body without a non-empty title, a non-empty content or a positive integer categoryId adds nothing. */
  lemma InvalidBodyRefused(posts: PostTable, categories: Table, user: SafeUser, body: Object, now: int)
    requires posts.Valid()
    requires || !("title" in body && body["title"].JStr? && body["title"].s != "")
             || !("content" in body && body["content"].JStr? && body["content"].s != "")
             || !("categoryId" in body && body["categoryId"].JNum? && IsInteger(body["categoryId"].n) && body["categoryId"].n > 0.0)
    ensures CreatePostResult(posts, categories, user, body, now).0.status == BAD_REQUEST
    ensures CreatePostResult(posts, categories, user, body, now).1 == posts
  {
  }

  /** The store's `prisma.post` delegate. */
  class PostStore {
    var rows: map<nat, Post>
    var nextId: nat

    function Snapshot(): PostTable
      reads this
    {
      PostTable(rows, nextId)
    }

    predicate Valid()
      reads this
    {
      Snapshot().Valid()
    }

    constructor ()
      ensures Valid() && Snapshot() == PostTable(map[], 1)
    {
      rows := map[];
      nextId := 1;
    }

    method Create(data: PostData, authorId: nat, now: int) returns (post: Post)
      requires Valid() && data.categoryId > 0
      modifies this
      ensures Valid()
      ensures Snapshot() == old(Snapshot()).Inserted(data, authorId, now)
      ensures post == Snapshot().rows[old(nextId)]
    {
      post := Post(nextId, data.title, data.content, data.published, authorId, data.categoryId as nat, now, now);
      rows := rows[nextId := post];
      nextId := nextId + 1;
    }
  }

  /** The `createPost` route, behind the gate that supplied `user`. */
  method CreatePost(posts: PostStore, categories: NamedStore, user: SafeUser, body: Object, now: int) returns (reply: Reply<PostView>)
    requires posts.Valid()
    modifies posts
    ensures posts.Valid()
    ensures (reply, posts.Snapshot()) == CreatePostResult(old(posts.Snapshot()), categories.Snapshot(), user, body, now)
  {
    var data := PostInput(body);
    if data.Failure? {
      return Reply(BAD_REQUEST, Errors(data.issues));
    }
    var category := categories.FindUniqueById(data.value.categoryId);
    if category.None? {
      return Reply(BAD_REQUEST, Error("Category not found"));
    }
    var post := posts.Create(data.value, user.id, now);
    var author := Profile(user.id, user.name, user.email);
    reply := Reply(CREATED, Data(PostView(post, author, CategoryRef(data.value.categoryId as nat, category.value.name))));
  }
}
