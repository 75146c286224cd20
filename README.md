# Blog server request rules, modelled in Dafny

This project models the request-handling rules of a small multi-user blog
server (`public/app.js`). The server keeps two document collections, `users`
and `blogs`. A `currentUser` cookie holds the logged-in user's record. Each
route reads or changes the two collections. The model removes the web
framework and the database driver and keeps what is left:

- the login guard that runs before every route;
- the registration and login decisions;
- the 24-character id-shape check;
- the profile and single-post lookups;
- post creation;
- the ownership-gated edit form and update;
- the unconditional delete.

Modules, one per part of the program:

- `Records` (records.dfy): the `User` and `Blog` documents. It also holds the
  store's `find(filter)`, modelled as filtering a sequence in store order, the
  filters the handlers use, and the store's unique-`_id` guarantee.
- `Http` (http.dfy): responses. These are redirects, rendered views with their
  context, plain-text bodies, thrown errors (`Crash`) and no reply.
- `Guard` (guard.dfy): the middleware. It takes `url.split("/")[1]` and checks
  it exactly against `["blogs", "post", "user", "blog", "update"]`.
- `Auth` (auth.dfy): what POST `/register` and POST `/login` decide.
- `Content` (content.dfy): the blog handlers' decisions. This covers the legacy
  `update` (replaces the first document with the id) and `deleteOne` (removes
  the first document with the id).
- `Server` (server.dfy): class `BlogServer`. It holds the fields `users`,
  `blogs` and `cookie`, and has one method per handler that changes them.
  `Handle` runs the guard and then the route.

Quirks of the program that the model reproduces on purpose:

- The update gate asks whether the user owns *any* post, not the target post.
  So a user who owns one post can rewrite another author's post, and that post
  then names the editor as its author (`ForeignPostTakeover`).
- Delete takes a `userId` and never uses it.
- `blog` is on the restricted list (public/app.js:26), so `/blog/<id>` without
  a cookie is redirected, as `/blogs` is (`BlogViewRestricted`). The guard
  compares the raw url, though, and the router does not. The router ignores
  letter case and the query string, so `/Blog/<id>`, `/BLOGS` and
  `/blogs?page=2` reach the restricted handlers without a cookie
  (`CaseVariantSlipsThrough`, `QueryStringSlipsThrough`).
- Id lengths are JavaScript lengths, counted in UTF-16 code units
  (`JsLength`). An id of 24 characters that holds a character outside the
  Basic Multilingual Plane is rejected as the wrong length.
- POST `/update` has no id-length check.
- Reading the session user's `_id` throws when the cookie is missing or holds no
  user. Each handler does this read at its own point, and the model keeps that
  order. For example, GET `/update/:id` checks the id length after reading the
  cookie's first element but before reading `_id`.

Inputs from outside the model become parameters (`Server.Env`):

- the password-hash library's `generate` and `verify`;
- the id the store assigns to a new document. It must be a fresh id, which is
  the store's own guarantee.

## Model

| member | source | states |
|---|---|---|
| `Guard.Redirects` | public/app.js:36-39 | the guard never redirects a request that carries a cookie, nor a url without a `/` |
| `Guard.Split` | public/app.js:36 | `split("/")`: at least one part, no part contains the separator, joining the parts with it gives back the url, and there is one part exactly when the url has no separator |
| `Guard.FirstSegment` | public/app.js:36 | `split("/")[1]` is absent exactly when the url has no `/`, and is otherwise free of `/` |
| `Guard.SplitHead` | public/app.js:36 | splitting a separator-free segment followed by nothing or a separator yields that segment first |
| `Guard.SegmentOfPath` | public/app.js:36 | the first segment of `/seg` or `/seg/...` is `seg`, taken whole |
| `Guard.RedirectsExactly` | public/app.js:26-42 | a request for `/seg...` is redirected to `/login` iff there is no cookie and `seg` is exactly one of the five restricted pages |
| `Guard.OpenPagesProceed` | public/app.js:26-41 | `/`, `/login`, `/register`, `/logout` and `/api/...` proceed even without a cookie |
| `Guard.QueryStringSlipsThrough` | public/app.js:36 | a restricted segment with a `?query` glued on is not matched, so the request proceeds without a cookie |
| `Guard.CaseVariantSlipsThrough` | public/app.js:36 | the guard compares case-sensitively, so `/Blog/<id>` and `/BLOGS` are not redirected without a cookie |
| `Guard.BlogViewRestricted` | public/app.js:26 | `/blog/<id>` and `/blogs` are redirected without a cookie |
| `Records.JsLength` | public/app.js:232 | a text's JavaScript `length` is between its number of characters and twice that, and equals it exactly when no character lies outside the Basic Multilingual Plane |
| `Records.Find` | public/app.js:129-133 | a query result holds exactly the documents that match, and is no longer than the collection |
| `Auth.Register` | public/app.js:104-171 | "Username is taken." iff some user has the username, whatever the email; otherwise "Email is taken." iff some user has the email; otherwise the new user is {name, email, username, digest} under the store-assigned id |
| `Auth.RegisterKeepsAccountsUnique` | public/app.js:129-155 | when requests run one after another, a successful registration keeps usernames and emails unique |
| `Auth.RegisterThenLogin` | public/app.js:71-157 | right after a registration, a login with a password that verifies against the stored digest gives the session [new user]; any other password gives "Invalid credentials" |
| `Auth.Login` | public/app.js:56-91 | unknown username iff no user has it; on success the first match's digest verifies and the session is exactly the users with that username; "Invalid credentials" only when a user with the username fails to verify |
| `Auth.LoginChecksFirstMatch` | public/app.js:71-75 | the password is checked against the first user with the username in store order: success iff it verifies there, and that user heads the session |
| `Content.Post` | public/app.js:205-211 | the stored post is found by a lookup of its id and by its author's profile query, and carries the submitted title and content and the author record |
| `Content.SessionUser` | public/app.js:208-211 | the session user is the cookie's first element, and is absent exactly when there is no cookie or it holds no user |
| `Content.Profile` | public/app.js:229-276 | a wrong-length id (JavaScript length, in UTF-16 code units) gives the not-found text, whatever the store holds; the not-found text iff the length is wrong or no user has the id; otherwise a user with that id and exactly the posts whose `_userId` is the id string |
| `Content.BlogById` | public/app.js:279-312 | a wrong-length id (JavaScript length) gives the not-found text, whatever the store holds; the not-found text iff the length is wrong or no post has the id; otherwise a post with that id |
| `Content.OwnsAnyPost` | public/app.js:342-345 | the gate holds iff some post has `_userId` equal to the user's id; the target post plays no part |
| `Content.EditForm` | public/app.js:315-359 | with id lengths in UTF-16 code units: throws iff there is no cookie, or the id has the right length and the cookie holds no user; a wrong-length id gives the not-found text; the permission text iff the user owns no post; a rendered form (a post with the id) iff the id has the right length, the cookie holds a user who owns some post, and some post has the id; the not-found text iff the id has the wrong length or, for a user who owns some post, no post has the id |
| `Content.ReplaceOne` | public/app.js:383-389 | the collection keeps its length, and each document is kept or, if it has the id, replaced by the new one; nothing changes when no document has the id |
| `Content.DeleteOne` | public/app.js:412 | one document fewer iff some document has the id; nothing new appears; nothing changes when no document has the id |
| `Content.UpdatePost` | public/app.js:361-394 | no id-length check; throws iff the cookie holds no user; refused iff that user owns no post; otherwise the target is fully replaced by {id, title, content, user's id, user} |
| `Content.ReplaceOneExactly` | public/app.js:383-389 | with unique ids, the post with the id becomes the new document and every other post is unchanged |
| `Content.ReplaceOneKeepsUniqueIds` | public/app.js:383-384 | the replacement keeps `_id`, so ids stay unique |
| `Content.DeleteOneExactly` | public/app.js:412 | with unique ids, delete leaves exactly the posts with other ids, in order |
| `Content.DeleteOneKeepsUniqueIds` | public/app.js:412 | after a delete, ids are still unique and no post has the deleted id |
| `Content.DeleteTwiceIsDeleteOnce` | public/app.js:399-413 | deleting the same id twice leaves the same collection as deleting it once |
| `Content.CreatedPostListedOnce` | public/app.js:205-226 | after a post is created under a fresh id, the listing holds it exactly once with `_userId` set to the author's id, and the author's profile query gives their earlier posts followed by it |
| `Content.ForeignPostTakeover` | public/app.js:378-389 | a user who owns some post can update another author's post, which then carries the editor's id and record |
| `Server.View` | public/app.js:45-359 | the read-only routes (GET `/`, `/login`, `/register`, `/blogs`, `/post`, `/user/:id`, `/blog/:id`, `/update/:id`) never redirect, and none goes unanswered except by a throw; only the edit form can throw |
| `Server.BlogServer.Register` | public/app.js:103-174 | a taken username or email re-renders the form with its message and `users` is unchanged; otherwise exactly one user is appended and the response redirects to `/login`; ids stay unique |
| `Server.BlogServer.Login` | public/app.js:55-94 | neither collection changes; a failure re-renders the form with its message and keeps the cookie; a success sets the cookie to the matched user list and redirects to `/` |
| `Server.BlogServer.Logout` | public/app.js:176-179 | the cookie is cleared and the response redirects to `/` |
| `Server.BlogServer.CreatePost` | public/app.js:204-227 | with a session user, exactly that user's new post is appended, the existing posts stay as they were, and the response redirects to `/blogs`; otherwise the handler throws and nothing is inserted |
| `Server.BlogServer.UpdatePost` | public/app.js:361-395 | refused or thrown requests leave `blogs` unchanged; a permitted one stores the full replacement and redirects to `/`; ids stay unique |
| `Server.BlogServer.DeleteBlog` | public/app.js:399-414 | `blogs` loses the post with the id whoever asks, `userId` is ignored, and no reply is sent |
| `Server.BlogServer.Handle` | public/app.js:29-42 | a request the guard catches redirects to `/login` and changes nothing; any other request has exactly the effect of its route's handler, and read-only routes change nothing |

## Left out

- Express setup, view rendering, static files and `res.locals` (public/app.js:9-23, 31-33): these are framework plumbing. A view is modelled as the data it is given.
- Matching a url to a route is done by the framework and is not modelled. `Handle` takes the original url, which the guard reads, and the route that comes from it as two separate inputs. The router ignores letter case and the query string, and the guard does not. So any route may come with a url the guard lets through, and the restricted handlers can be reached without a cookie.
- `MongoClient.connect` and its error paths (`throw`, `console.error`): these are foreign I/O.
- `ObjectId` casting: ids are strings, compared exactly. The casts in GET `/user/:id`, GET `/blog/:id` and GET `/update/:id` (public/app.js:239, 291, 329) come after the 24-character check, so they throw on a 24-character id that is not all hex digits, such as 24 `z`s. POST `/update` and delete have no length check. Their casts (public/app.js:364, 412) throw on any text that is neither 12 characters long nor 24 hex digits, such as `abc`, and they take any 12-character text as the raw bytes of an id. The program then throws, while the model does not:
  - `Content.Profile` and `Content.BlogById` give the not-found text.
  - `Content.EditForm` gives `Crash` for an empty cookie list, the permission text to a user who owns no post, and the not-found text to one who owns a post.
  - `Content.UpdatePost` throws for an empty cookie list, refuses a user who owns no post, and otherwise finds no post to replace.
  - `DeleteBlog` finds no post.
- None of these casts needs a cookie to be reached first. Delete is under `/api`, which is not restricted, and never reads the cookie. The GET lookups can be reached through a case-variant url such as `/User/<id>`. GET `/update/:id` is the exception: it reads the cookie before its cast.
- The cast also ignores letter case, while the `_userId` match (public/app.js:267) compares exact strings. So an upper-case copy of a real id finds the user but none of their posts, where the model finds no user. `ObjectId(undefined)` minting a new id is not modelled either.
- `Crash` stands for both kinds of throw.
  - A throw in the handler itself is answered by Express with an error, and the server goes on.
  - A throw inside a store callback is not caught by Express. It is an uncaught exception, which by default ends the Node process, so no later request is served until a restart. There are three such throws: reading `_id` of an empty cookie list in GET and POST `/update` (public/app.js:342, 378), and the delete's cast (public/app.js:412).
  - Any client can cause one. For example, a cookie holding an empty list plus a 24-character id on GET `/update/:id` is enough.
  - The model does not capture that the server stops. `Handle` returns `Crash` and the `BlogServer` goes on handling requests.
- `password-hash`: `generate` and `verify` are function parameters. Nothing is assumed about them.
- Store-assigned `_id` values are a parameter. `Register`, `CreatePost` and `Handle` require the parameter to be fresh in its collection, which the store guarantees. They do not require it to be 24 hex digits, as the store's ids are. So a model user or post may get an id that `Content.Profile`, `Content.BlogById` and `Content.EditForm` can never find.
- Records.Find: keeps store order, which here means insertion order, and `update` replaces a document where it stands. The store promises no order for a `find` without a sort. So the order-dependent claims hold only for that order: `Content.CreatedPostListedOnce` (the new post comes last in the profile query), the first match in `Auth.Login`, and the first document with the id in `ReplaceOne` and `DeleteOne`.
- Request fields are taken to be strings. The body parsers can turn a field such as `username[$ne]=x` into a query operator object that `find` then obeys (public/app.js:71, 129). Login would then check the password against the first user and put every user in the cookie. Such operator injection is not modelled.
- Callback timing and races between concurrent requests are not modelled. This includes POST `/post` redirecting before its insert completes, and registration's check-then-insert, which is not atomic. Every request is handled whole before the next one.
- Auth.RegisterKeepsAccountsUnique: holds only for requests handled one after another. The source does not keep usernames and emails unique under concurrent registrations.
- Cookie serialisation is not modelled, nor is a cookie whose value is falsy but present (such as an empty string). The cookie is either absent or a list of user records.
- POST `/post` stores the whole request body. The model keeps only `title` and `content`, so any other submitted fields are not modelled.
- GET `/blogs`, `/`, `/login`, `/register` and `/post` only render a view. In the model they are the read-only routes of `Server.View`.
- The server listening on a port (public/app.js:417-419).
