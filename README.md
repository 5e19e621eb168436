# Blog API core, modelled in Dafny

This project models the request-handling core of a small Express/Prisma blog backend:

- the category and tag controllers: create, list with search, sort and pagination, get by id, and rename;
- the bearer-token gate that guards the protected routes;
- the account controller: register, login and me;
- the post create handler.

The model has two layers.

- Each handler is a pure function of a store snapshot. A handler that writes returns the reply and the new table together.
- Each handler that writes is also a method. It runs the handler's checks in the source's order against a store class (`NamedStore`, `UserStore`, `PostStore`), and its `ensures` ties the reply and the new state to the pure function.

Most of the properties are lemmas about the pure functions:

- which early-return check fires, and with which status and message;
- whether the store changed;
- how the page, the count and the pagination flags relate;
- round trips: create then get, register then login, register then authenticate.

The database, zod, bcrypt and JSON Web Tokens are abstracted:

- A table is a map from an auto-incremented id to a row. `findMany` is filter, then a stable sort on one field, then skip, then take. `count` is the size of the filtered sequence.
- zod's validators are written out field by field (`Schema`). The email syntax is a parameter `isEmail`.
- `hash`, `compare`, `sign` and `verify` are function-typed fields of `Tokens.Crypto`. `Tokens.Sound` states what the handlers rely on:
  - `compare(p, hash(p))` holds;
  - a signed claim verifies back to that claim;
  - a token is one non-empty word.
- The clock is a parameter `now`. Timestamps are plain integers.

The modules follow the program's structure:

| module | file | what it holds |
|---|---|---|
| `Wrappers` | wrappers.dfy | `Option`, `Min`, `Max` |
| `Js` | js.dfy | JSON values, truthiness, UTF-16 length, `parseInt`, `Number`, `Number.isInteger`, `toLowerCase`, `includes`, `split` |
| `Schema` | schema.dfy | zod issues and the field validators the schemas use |
| `Http` | http.dfy | status codes, reply payloads |
| `Tables` | tables.dfy | the lookup by id, the id-ordered view of a table, the first match |
| `Query` | query.dfy | category/tag rows, `where`, `count`, `orderBy`, `skip`/`take`, `findMany` |
| `Store` | store.dfy | the category/tag table and its store class |
| `Listing` | listing.dfy | the list-query schema, pagination and the list handler |
| `Categories` | categories.dfy | the category handlers |
| `Tags` | tags.dfy | the tag handlers |
| `Users` | users.dfy | the user table, its store class, the password-free user |
| `Tokens` | tokens.dfy | the cryptographic primitives and session tokens |
| `AuthGate` | auth_gate.dfy | the bearer-token middleware |
| `Accounts` | accounts.dfy | register, login, me |
| `Posts` | posts.dfy | the post table, its store class, the create handler |

### Behaviour the model keeps from the code

- The create handlers for categories and tags catch only zod errors. A unique-constraint conflict that got past the name pre-check would therefore give a 500 "Server error". The model follows the code. In a sequential model the pre-check rules such a conflict out, so `NamedStore.Create` requires the name to be free.
- `createCategory` answers 201 with the message "Product created successfully". The model keeps that string.
- Only `register` translates the store's P2002 conflict, into 400 "Email already in use". `UserTable.Create` returns it as `UniqueViolation`.

## Model

| member | source | states |
|---|---|---|
| Js.Length | src/controllers/categoryController.js:6 | zod's `min` counts UTF-16 code units: at least one per character and at most two |
| Js.FalsyValues | src/middlewares/authMiddleware.js:35 | the falsy values are exactly `null`, `false`, `0` and `""` |
| Js.ParseInt | src/controllers/categoryController.js:10-11 | `parseInt` gives a number exactly when digits follow an optional sign |
| Js.ParseIntOfDecimal | src/controllers/categoryController.js:10-11 | `parseInt` reads back a decimal spelling, whatever non-digit follows it |
| Js.ToNumberOfDecimal | src/controllers/categoryController.js:128 | `Number` reads back the decimal spelling of an id |
| Js.ToNumber | src/controllers/categoryController.js:128 | `Number("")` is 0, and a negative result comes only from a leading minus |
| Js.IncludesIffOccurs | src/controllers/categoryController.js:68-74 | a `contains` match holds exactly when the term occurs at some position of the name |
| Js.Includes | src/controllers/categoryController.js:71 | every string contains the empty term, and a contained term is no longer than the string |
| Js.Lower | src/middlewares/authMiddleware.js:9 | lower-casing (ASCII letters only) keeps the length and maps each character on its own; the bearer test decides the same as full Unicode `toLowerCase`, because no non-ASCII character lower-cases to `b`, `e`, `a`, `r` or a space |
| Js.Split | src/middlewares/authMiddleware.js:14 | `split(' ')` gives at least one field, and no field contains a space |
| Js.SplitFirst | src/middlewares/authMiddleware.js:14 | the first field ends at the first space |
| Js.JoinOfSplit | src/middlewares/authMiddleware.js:14 | joining the fields with the separator gives back the header |
| Js.SplitOfJoin | src/middlewares/authMiddleware.js:14 | splitting space-joined words with no spaces in them gives back those words |
| Schema.MinString | src/controllers/categoryController.js:6 | accepted exactly when the key holds a string of at least `min` code units; the value is that string; every issue is about that key |
| Schema.EmailString | src/controllers/authController.js:9 | accepted exactly when the key holds a string that satisfies the email predicate |
| Schema.PositiveInt | src/controllers/postController.js:8 | accepted exactly when the key holds a positive integer number; the value is that number |
| Schema.OptionalBool | src/controllers/postController.js:9 | absent gives the default, a boolean gives itself, anything else is refused |
| Schema.OptionalString | src/controllers/categoryController.js:12 | absent gives none, a string gives itself, anything else is refused |
| Schema.OptionalIntString | src/controllers/categoryController.js:10-11 | accepted exactly when absent or a string; absent or empty gives the default; any other string gives its `parseInt`, `NaN` included; a refusal reports the key |
| Schema.EnumOrDefault | src/controllers/categoryController.js:13-14 | accepted exactly when absent or one of the options; absent gives the default, a present option gives itself; a refusal reports the key |
| Schema.NameInput | src/controllers/categoryController.js:5-7 | the category and tag create schema (also src/controllers/tagController.js:5-7, with its own message): accepted exactly when name is a non-empty string, which is the value; a refusal reports the key |
| Query.Filter | src/controllers/categoryController.js:82-86 | the filter never adds rows, and each row it keeps matches |
| Query.FilterMembers | src/controllers/categoryController.js:82-86 | a row is kept exactly when it is stored and matches |
| Query.CountIsFilterSize | src/controllers/categoryController.js:96 | `count`, defined on its own, equals the number of rows the same `where` keeps |
| Query.FilterAll | src/controllers/categoryController.js:74 | the empty `where` keeps every row, in order |
| Query.SortPermutes | src/controllers/categoryController.js:77-79 | sorting is a permutation of its input: the same rows, each as often |
| Query.SortOrdered | src/controllers/categoryController.js:77-79 | the sorted rows follow the requested field and direction |
| Query.PrecedesTotal | src/controllers/categoryController.js:77-79 | any two rows are comparable in the requested order |
| Query.PrecedesTransitive | src/controllers/categoryController.js:77-79 | the requested order is transitive |
| Query.Window | src/controllers/categoryController.js:85-86 | `skip`/`take` gives `min(take, max(0, n - skip))` rows, the ones at `skip` onwards |
| Query.FindManySize | src/controllers/categoryController.js:82-86 | a page holds `min(take, max(0, count - skip))` rows |
| Query.FindManyMembers | src/controllers/categoryController.js:82-86 | every row on a page is stored and matches the `where` |
| Query.FindManyOrdered | src/controllers/categoryController.js:82-86 | a page follows the requested order |
| Query.FindMany | src/controllers/categoryController.js:82-86 | a page holds at most `take` rows |
| Query.Sort | src/controllers/categoryController.js:77-84 | sorting keeps the number of rows |
| Query.Count | src/controllers/categoryController.js:96 | the count never exceeds the number of rows |
| Query.CountZero | src/controllers/categoryController.js:96 | the count is 0 exactly when no row matches |
| Store.Table.RowsMembers | src/controllers/categoryController.js:82 | the id-ordered view holds exactly the stored rows |
| Store.Table.ByName | src/controllers/categoryController.js:36-38 | finds a stored row with that name, or none exists |
| Tables.ById | src/controllers/categoryController.js:174-176 | finds the row stored under exactly that id, or none exists; a negative id matches none |
| Store.Table.HeldByOther | src/controllers/categoryController.js:183-188 | finds a row with that name under a different id, or there is none |
| Store.Table.Inserted | src/controllers/categoryController.js:45-47 | the new row takes the next id, which was free; the table stays valid and keeps names unique |
| Store.Table.InsertedRows | src/controllers/categoryController.js:45-47 | a created row comes last in id order, after all earlier rows |
| Store.Table.Renamed | src/controllers/categoryController.js:195-198 | only the renamed row changes, in name and update time; the ids and the other rows stay |
| Store.NamedStore.Create | src/controllers/categoryController.js:45-47 | the store's new state is the table with the row inserted |
| Store.NamedStore.Update | src/controllers/categoryController.js:195-198 | the store's new state is the table with the row renamed |
| Store.NamedStore.FindUniqueByName | src/controllers/categoryController.js:34-36 | returns what `Table.ByName` finds in the current rows |
| Store.NamedStore.FindUniqueById | src/controllers/categoryController.js:174-176 | returns what `Tables.ById` finds in the current rows |
| Store.NamedStore.FindFirstHeldByOther | src/controllers/categoryController.js:183-188 | returns what `Table.HeldByOther` finds in the current rows |
| Listing.ParseListQuery | src/controllers/categoryController.js:9-15 | accepted exactly when page, limit and search are strings or absent and sortBy/sortOrder are in their enumerations; an absent or empty page or limit gives 1 or 10, any other gives its `parseInt`; the search and the sort field and direction are the ones given, else none, createdAt, desc |
| Listing.ParseListQueryIssues | src/controllers/categoryController.js:9-15 | a refused query reports at least one issue, and one for each refused page, limit, sortBy and sortOrder |
| Listing.BuildWhere | src/controllers/categoryController.js:68-74 | with no search every row matches; with a search exactly the rows whose name contains it (an empty search occurs in every name) |
| Listing.CeilDiv | src/controllers/categoryController.js:97 | the least page count whose pages of `limit` rows hold `total` rows |
| Listing.PageOf | src/controllers/categoryController.js:65-113 | the page echoes the page number, limit, sort field and direction asked for |
| Listing.List | src/controllers/categoryController.js:62-114 | 400 exactly when the schema refuses; store-dependent exactly when page or limit is NaN or below 1; otherwise the page |
| Listing.RejectedBeforeStore | src/controllers/categoryController.js:62 | a refused query gets the same reply whatever the store holds |
| Listing.BadSortRejected | src/controllers/categoryController.js:13-14 | an out-of-enumeration sortBy or sortOrder is refused, and that field is reported |
| Listing.DefaultQuery | src/controllers/categoryController.js:10-14 | an empty query lists page 1 of 10, newest first, with no search |
| Listing.PageSize | src/controllers/categoryController.js:65-86 | the page holds `min(limit, max(0, total - (currentPage-1)*limit))` rows, in the terms of the pagination it reports |
| Listing.PageWindow | src/controllers/categoryController.js:65-86 | the i-th listed row is the row at `(page-1)*limit + i` of the sorted matching rows |
| Listing.PageMembers | src/controllers/categoryController.js:68-86 | every listed row is stored and matches the search |
| Listing.PageOrdered | src/controllers/categoryController.js:77-86 | the listed rows follow the requested order |
| Listing.SearchFilter | src/controllers/categoryController.js:68-110 | a non-empty search is echoed, every listed name contains it, and the total counts exactly the rows that contain it; otherwise nothing is filtered and the echo is null |
| Listing.SearchNarrows | src/controllers/categoryController.js:68-96 | the searched rows are among the unfiltered ones, and a search never raises the total |
| Listing.PaginationFlags | src/controllers/categoryController.js:97-106 | totalPages is the ceiling of total/limit; hasNext iff page < totalPages iff rows lie beyond this page; hasPrev iff page > 1 |
| Listing.EmptyFirstPage | src/controllers/categoryController.js:97-106 | with no matching rows, page 1 is empty, has no pages and neither flag |
| Listing.LastPage | src/controllers/categoryController.js:97-105 | the last page has no next page and holds `total mod limit` rows, or `limit` when that is 0 |
| Categories.CreateCategoryResult | src/controllers/categoryController.js:23-48 | 422 iff the body is refused; 400 "Category already exists" iff the name is taken, with the table unchanged; else 201 with one row added under the next id |
| Categories.CreateCategory | src/controllers/categoryController.js:23-48 | the method's reply and new store are the handler's |
| Categories.IdParam | src/controllers/categoryController.js:128-129 | an id is read exactly when `Number` gives an integer, and it is that integer |
| Categories.IdParamOfDecimal | src/controllers/categoryController.js:128-129 | a decimal id reads back as itself |
| Categories.IdParamOfEmpty | src/controllers/categoryController.js:128-129 | an empty parameter is the id 0 |
| Categories.GetCategory | src/controllers/categoryController.js:125-157 | 400 "Invalid id" iff the id is not an integer; 404 iff no row has it; else 200 with the stored row |
| Categories.UpdateCategoryResult | src/controllers/categoryController.js:160-200 | the checks in order: bad id 400 "Invalid id", bad body 422, missing row 404; 400 "Category name already exists" exactly when the row exists and another row holds the name; 200 exactly when the row exists and no other row holds the name, renaming that row alone and replying with it; any other reply leaves the table unchanged |
| Categories.UpdateCategory | src/controllers/categoryController.js:160-200 | the method's reply and new store are the handler's |
| Categories.ListCategories | src/controllers/categoryController.js:60-122 | a refused query is 400 with its issues; an accepted one in range is 200 with the page |
| Categories.CreateThenGet | src/controllers/categoryController.js:132-152 | a created category is found under its new id |
| Categories.CreateTwice | src/controllers/categoryController.js:36-42 | a second create with the same name is refused and changes nothing |
| Categories.CreateCounts | src/controllers/categoryController.js:96 | a created category adds one to every count whose filter it matches |
| Categories.RenameToOwnName | src/controllers/categoryController.js:183-198 | keeping a row's own name is allowed and changes only its update time |
| Categories.RenameToOthersName | src/controllers/categoryController.js:183-192 | taking another row's name is refused with 400 and changes nothing |
| Categories.UpdateThenGet | src/controllers/categoryController.js:195-200 | a later get returns what the rename returned |
| Categories.ListedAreStored | src/controllers/categoryController.js:82-93 | every listed category is a stored row |
| Tags.CreateTagResult | src/controllers/tagController.js:18-51 | 422 iff the body is refused; 400 "Tag already exists" iff the name is taken, with the table unchanged; else 201 with the new tag itself |
| Tags.CreateTag | src/controllers/tagController.js:18-51 | the method's reply and new store are the handler's |
| Tags.ListTags | src/controllers/tagController.js:54-116 | a refused query is 400 with its issues; an accepted one in range is 200 with the page |
| Tags.CreateTwice | src/controllers/tagController.js:30-37 | a second create with the same name is refused and changes nothing |
| Tags.CreatedTagListedLast | src/controllers/tagController.js:40-43 | a new tag comes last in id order |
| Tags.ListedAreStored | src/controllers/tagController.js:76-87 | every listed tag is a stored row |
| Users.WithoutPasswordForgets | src/middlewares/authMiddleware.js:46-47 | two users look the same once the password is removed exactly when they differ at most in their passwords |
| Users.WithoutPassword | src/middlewares/authMiddleware.js:46-47 | the safe user carries the id, name, email and timestamps of the user |
| Users.UserTable.ByEmail | src/controllers/authController.js:60 | finds a stored user with that email, or none exists |
| Users.UserTable.Create | src/controllers/authController.js:34-47 | P2002 iff the email is taken, with the table unchanged; else the user under the next id, the table still valid with unique emails |
| Users.CreateThenByEmail | src/controllers/authController.js:60 | a created user is found by its email |
| Users.UserStore.Create | src/controllers/authController.js:34-36 | the store's new state and result are the table's |
| Users.UserStore.FindUniqueByEmail | src/controllers/authController.js:60 | returns what `UserTable.ByEmail` finds in the current rows |
| Users.UserStore.FindUniqueById | src/middlewares/authMiddleware.js:40 | returns what `Tables.ById` finds in the current rows |
| Tokens.Claims | src/controllers/authController.js:19-20 | the claims carry the user id under `userId` |
| Tokens.GenerateTokenVerifies | src/controllers/authController.js:19-22 | under sound primitives a session token verifies to a payload with that user id |
| Tokens.TokensDistinct | src/controllers/authController.js:19-22 | under sound primitives two users never get the same session token |
| AuthGate.TokenField | src/middlewares/authMiddleware.js:14 | the token is the second space-separated field, when there is one, and holds no space |
| AuthGate.BearerOnly | src/middlewares/authMiddleware.js:9 | every header that passes the prefix test is a scheme spelling `bearer` in some case, a space, and the rest; with `BearerAnyCase`, the test accepts exactly those |
| AuthGate.UserIdOf | src/middlewares/authMiddleware.js:34 | `payload?.userId` is undefined exactly when the payload is not an object or lacks the key |
| AuthGate.UsableUserIds | src/middlewares/authMiddleware.js:35 | a number userId is usable exactly when non-zero, a string exactly when non-empty, anything else never |
| AuthGate.Screen | src/middlewares/authMiddleware.js:9-37 | the checks before the lookup pass exactly when the header is a bearer header, the token field is non-empty and verifies, and the payload's userId is usable; the userId handed on is the payload's |
| AuthGate.VerifyError | src/middlewares/authMiddleware.js:23-31 | each kind of verification error has its own message |
| AuthGate.LookupUser | src/middlewares/authMiddleware.js:40-43 | the store throws exactly on an id that is not an integer number; otherwise finds the user stored under it, and finds one whenever some stored id equals it |
| AuthGate.Authenticate | src/middlewares/authMiddleware.js:4-54 | a refusal by the header, token, verification or payload check is a 401 with that check's message; after them, 500 exactly when the userId is not an integer number, 401 "User not found" exactly when it is one no stored id equals, and a pass exactly when it equals a stored id, handing on that user without its password |
| AuthGate.BearerAnyCase | src/middlewares/authMiddleware.js:9 | the scheme is matched in any case |
| AuthGate.HeaderChecksFirst | src/middlewares/authMiddleware.js:9-17 | a bad header or an empty token field gets a 401 that depends neither on verification nor on the store |
| AuthGate.EmptyTokenField | src/middlewares/authMiddleware.js:14-16 | "Bearer " alone, or a double space, gives 401 "Token not provided" |
| AuthGate.VerifyFailure | src/middlewares/authMiddleware.js:21-31 | a verification error is 401 with a message that depends only on its kind |
| AuthGate.BadPayloadBeforeLookup | src/middlewares/authMiddleware.js:34-37 | a payload without a truthy string or number userId is 401, whatever the store holds |
| AuthGate.ZeroUserId | src/middlewares/authMiddleware.js:34-37 | a userId of 0 is falsy and refused as a bad payload |
| AuthGate.UnknownUser | src/middlewares/authMiddleware.js:40-43 | a valid token for an id no user has gives 401 "User not found" |
| AuthGate.ValidTokenProceeds | src/middlewares/authMiddleware.js:40-49 | a token issued for a stored user passes with that user, password removed |
| AuthGate.TokenOf | src/middlewares/authMiddleware.js:9-14 | `Bearer <token>` passes the prefix check and yields the token |
| AuthGate.AuthMiddleware | src/middlewares/authMiddleware.js:4-54 | on a pass the user is attached and `next` called once with no reply; on a refusal the reply is sent and neither happens |
| Accounts.RegisterInput | src/controllers/authController.js:7-11 | accepted exactly when name is non-empty, email satisfies the predicate and password has at least 6 code units; each failing field is reported |
| Accounts.LoginInput | src/controllers/authController.js:13-16 | accepted exactly when email satisfies the predicate and password is non-empty |
| Accounts.RegistrationLogsIn | src/controllers/authController.js:7-16 | a body the register schema accepts, the login schema accepts with the same email and password |
| Accounts.RegisterResult | src/controllers/authController.js:25-52 | a refused body or a taken email is 400 with no user added; an accepted body with a free email is 201, storing the hash of the password and replying with id, name, email and a token for the new id |
| Accounts.Register | src/controllers/authController.js:25-52 | the method's reply and new store are the handler's |
| Accounts.LoginResult | src/controllers/authController.js:54-79 | 200 exactly when a user has the given email and the password matches its hash, replying with that user's id, name, email and a token for its id; otherwise one 400 "Invalid credentials" |
| Accounts.Login | src/controllers/authController.js:54-79 | the method's reply is the handler's, and it changes nothing |
| Accounts.Me | src/controllers/authController.js:81-83 | replies 200 with the attached user as it is |
| Accounts.ProfileOf | src/controllers/authController.js:42 | the reply's user is the stored user's id, name and email |
| Accounts.LoginUniform | src/controllers/authController.js:60-65 | an unknown email and a wrong password get identical replies |
| Accounts.RegisterTwice | src/controllers/authController.js:34-47 | a second registration under the same email is 400 "Email already in use" with no user added |
| Accounts.RegisterThenLogin | src/controllers/authController.js:25-71 | under sound primitives, logging in with the registration body gives the same profile and token |
| Accounts.RegisterThenMe | src/controllers/authController.js:39-42 | the registration token opens the gate, and `me` shows the new user without a password |
| Posts.PostInput | src/controllers/postController.js:5-10 | accepted exactly when title and content are non-empty strings, categoryId is a positive integer and published, if present, is a boolean; published defaults to false |
| Posts.PostInputIgnores | src/controllers/postController.js:5-10 | keys outside the schema change nothing in the parse |
| Posts.PostTable.Inserted | src/controllers/postController.js:27-31 | the new post takes the free next id; the table stays valid |
| Posts.CreatePostResult | src/controllers/postController.js:13-50 | a refused body is 400 with its issues; an unknown category is 400 "Category not found"; both leave the posts unchanged; an accepted body naming a stored category is 201, adding one post whose author is the caller and replying with it, the caller's id, name and email, and the category's id and name |
| Posts.CreatePost | src/controllers/postController.js:13-50 | the method's reply and new store are the handler's |
| Posts.PostStore.Create | src/controllers/postController.js:27-31 | the store's new state is the table with the post inserted |
| Posts.AuthorIdIgnored | src/controllers/postController.js:28-31 | an `authorId`, or any other key outside the schema, in the body changes nothing |
| Posts.PublishedDefaultsFalse | src/controllers/postController.js:9 | a post created without `published` is not published |
| Posts.InvalidBodyRefused | src/controllers/postController.js:5-8 | a missing title, content or valid categoryId is 400 and adds no post |

## Left out

- Routing, CORS, environment loading and body parsing (`app.js`, `routes/*.js`) hold no logic of the core. The fallback error middleware (`middlewares/error.js`) is not part of this model.
- Relation includes are not modelled: `getCategory`'s posts with their authors, and the `_count` of posts on categories. `getCategory` returns the category row itself.
- The post's `author` in the 201 reply is taken from the authenticated user rather than re-read from the store. The two agree in a sequential model.
- Listing.List: a page or limit that is NaN or below 1 goes to the store unchecked, where `skip`/`take` behave in ways this model does not define (a negative `take` pages backwards, for example). The model returns `StoreDependent` for such queries, and `ListCategories`/`ListTags` return none.
- `contains` is taken to be case-sensitive. The query passes it to the database with no `mode`, and whether the database then ignores case depends on its collation, which the schema file (not part of this model) would settle. Collation and database-specific string ordering are not modelled: names sort by code point.
- Sorting equal keys keeps id order. The store's tie order is unspecified.
- Js.ParseInt: leading whitespace and `0x` prefixes are not modelled. `parseInt("Infinity")` is `NaN` in both. Digit strings beyond 2^53 give an exact integer here, where JavaScript rounds to the nearest double.
- Js.Lower: ASCII letters only. Full Unicode lower-casing (which can change the length, as for `İ`) is not modelled. The only use is the bearer prefix test, which decides the same either way.
- Js.ToNumber: whitespace, exponents, hex/octal/binary literals, `Infinity`, and the precision of large numbers (floating point) are not modelled.
- `getCategory` passes `parseInt(id)` to the store. For an integer, that equals the id whenever the number prints without an exponent. The model looks the integer itself up.
- The width of id columns is not modelled. The schema file is not part of this model, so any integer id is looked up, and an id that no row holds gives 404.
- Ids are taken to be integers that start at 1 and autoincrement. A string or non-integer `userId` in a token payload is taken to make the store throw, giving 500.
- Timestamps come from the caller. A rename sets `updatedAt` to that time, taken to be an `@updatedAt` column.
- bcrypt's salt, so that two hashes of one password differ, is left out: `hash` is a function. Token expiry and the `iat`/`exp` claims are left out too: `sign` is a function of the claims, and `verify` is any function, with expiry as one of its outcomes.
- Store failures other than the P2002 conflict in `register` and the id-type error in the gate are not modelled. The handlers' generic 500 "Server error" branches are therefore unreachable in the model.
- Concurrency is not modelled, as the handlers have no mechanism for it. Two creates racing past the duplicate pre-check, and a write between the page read and the count read, are both left out.
- Logging (`console.error`) is left out. JSON formatting is reduced to status, message and the fields named in each body. zod's `flatten()` (in 422 replies) and its message list (in 400 replies) are both represented by the list of issues.
