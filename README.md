# CraveSpot server, modelled in Dafny

This project models the request handling of the CraveSpot food-ordering
backend (`index.js`). The MongoDB database `CraveSpotDB` is replaced by five
in-memory collections: `menu`, `reviews`, `cart`, `users` and `payment`. Each
collection is a sequence of documents in insertion order, and each document
is an opaque `_id` plus the body a client sent. The model states and proves
the rules these handlers keep:

- the `verifyToken` and `verifyAdmin` middlewares, and the email check of the
  self-scoped routes;
- the idempotent user upsert of `POST /user`;
- payment settlement (`POST /paymentHistory`), which stores the payment and
  then deletes the cart items it covers;
- single-record updates (`PATCH /menu/:id`, `PATCH /user/admin/:id`);
- the `page` / `limit` / `category` arithmetic of `GET /menu` and `GET /menuCount`.

Files:

- `wrappers.dfy`: `Option`.
- `documents.dfy` (module `Documents`): the MongoDB operations the server
  uses, written as functions on sequences. It covers equality and `$in`
  filters, `findOne`, `countDocuments`, `skip`/`limit` (a limit of 0 means no
  limit), `insertOne`, `deleteMany`, `deleteOne` and `updateOne`, and the
  driver's result records. Lemmas cover order, counts, idempotence and the
  `_id` invariant.
- `records.dfy` (module `Records`): the documents of the five collections.
  It also has the admin predicate `user.role === "admin"` and the two `$set`
  updates.
- `auth.dfy` (module `Auth`): `Authorization` header parsing
  (`split(' ')[1]`), `verifyToken`, `verifyAdmin`, the two guards chained,
  and the self-scope check. Each guard returns `Allow`, `Deny(status,
  message)` or `Fault` (an exception).
- `menu_query.dfy` (module `MenuQuery`): `parseInt(...) || 1`,
  `parseInt(...) || 0`, the category query, and the `GET /menu` page and
  `GET /menuCount` count.
- `server.dfy` (module `Server`): class `Store` holds the five collections and
  the next fresh `_id`. It has one method per route. Its invariant `Valid()`
  says that `_id`s are unique and below the next fresh one in every
  collection, and that no two users share an email. The module also holds the
  pure specifications (`Upsert`) and lemmas about the user and patch updates.

Signature checking is a parameter `verify: string -> Option<Claim>` that
stands for `jwt.verify` with the server's secret. It returns the decoded
payload for a valid, unexpired token and `None` for any other.

### Behaviour of the code worth knowing

- `GET /menu` turns `page=0`, an unparsable `page` or a missing `page` into 1
  (`parseInt(...) || 1`, index.js:100). `skip` is `page * limit`
  (index.js:106), so with a positive limit the first `limit` matching items
  are never sent (`PageZeroIsPageOne`, `FirstItemsNeverServed`).
- A self-scoped route called with an email other than the caller's answers
  401 with the route's own message (index.js:239-241, index.js:250-252).
- If the caller's email has no user record, `verifyAdmin` reads `role` of
  `null` and throws (index.js:52-54; `AdminGate` returns `Fault`).
  `GET /users/admin/:email` does the same (index.js:253-255; `GetIsAdmin`
  returns `Thrown`).
- `POST /user` stores the request body exactly as sent. It adds no role of
  its own, so a body that carries `role: "admin"` creates an admin.
- Settlement is not atomic. The payment is stored before the cart ids are
  read, so a body without `cartIds` leaves the payment stored and then throws.

## Model

| member | source | states |
|---|---|---|
| Documents.Filter | index.js:184 | `find(query)` returns exactly the matching documents, never more than the collection holds |
| Documents.Count | index.js:163 | `countDocuments` never exceeds the collection size |
| Documents.CountIsFilterLength | index.js:160-165 | `countDocuments(q)` equals the length of `find(q)` |
| Documents.FindFirst | index.js:154 | `findOne` returns `null` exactly when no document matches; otherwise it returns the first matching document in collection order |
| Documents.SkipLimit | index.js:112 | `skip(n).limit(m)` is the window of the result starting at position `n`, with at most `m` items when `m > 0` and the whole rest when `m == 0` |
| Documents.Insert | index.js:176 | `insertOne` appends the body under a fresh `_id` and keeps `_id`s unique and below the next fresh one |
| Documents.DeleteMany | index.js:89-94 | after `deleteMany({_id: {$in: ids}})` a document remains exactly when it was there and its `_id` is not in `ids` |
| Documents.Selected | index.js:94 | the documents `deleteMany` removes are exactly those whose `_id` is in `ids` |
| Documents.FilterConcat | index.js:94 | deletion by filter keeps the order of the surviving documents: it distributes over concatenation |
| Documents.FilterIdempotent | index.js:94 | filtering twice with the same query removes nothing more |
| Documents.DeleteManyRemovesAll | index.js:89-94 | after settlement no cart document has an `_id` from `cartIds` |
| Documents.DeletedCount | index.js:94-95 | the reported `deletedCount` equals the number of documents whose `_id` is in `ids` |
| Documents.DeleteManyIdempotent | index.js:89-94 | a second `deleteMany` with the same ids changes nothing and finds nothing to delete |
| Documents.SkipLimitWithin | index.js:112 | a `skip`/`limit` window holds only documents of the result it was cut from |
| Documents.SkipLimitAvoidsSkipped | index.js:112 | with unique `_id`s, a window starting at `n` holds none of the first `n` documents |
| Documents.DeleteManyKeepsWellKeyed | index.js:94 | `deleteMany` keeps `_id`s unique and below the next fresh one |
| Documents.DeleteOne | index.js:127 | `deleteOne({_id})` removes one document when some document has that `_id`, and none otherwise |
| Documents.DeleteOneIsFilter | index.js:124-129 | with unique `_id`s, `deleteOne` removes exactly the document with that `_id` and keeps the rest in order |
| Documents.UpdateOne | index.js:146 | `updateOne` keeps every `_id` and every document with another `_id`; a document it changes is the update applied to its old body |
| Documents.UpdateOneExact | index.js:132-148 | with unique `_id`s, exactly the document with that `_id` is rewritten and every other document stays |
| Documents.UpdateOneResult | index.js:232 | `matchedCount` is 1 exactly when a document has the `_id`; `modifiedCount` is 0 exactly when the update left the collection unchanged |
| Documents.UpdateOneKeepsUniqueBy | index.js:146 | an update that leaves a key unchanged on every document keeps that key unique |
| Documents.UpdateOneKeepsWellKeyed | index.js:146 | `updateOne` keeps `_id`s unique and below the next fresh one |
| Documents.UpdateOneIdempotent | index.js:224-233 | applying an idempotent `$set` twice gives the same collection as applying it once |
| Records.IsAdmin | index.js:54 | `user.role === "admin"` (also index.js:255): a user is an admin only when the role is exactly the string "admin" |
| Records.Promote | index.js:227-231 | `$set: {role: 'admin'}` makes the user an admin, keeps name and email, and changes nothing for a user who is already an admin |
| Records.ApplyPatch | index.js:136-145 | the menu `$set` takes the five listed fields from the body and keeps every other field |
| Auth.Split | index.js:38 | `split(' ')` yields at least one field, more than one exactly when the header contains a space, and no field contains a space |
| Auth.JoinSplit | index.js:38 | joining the fields of `split` again gives back the header |
| Auth.HeaderToken | index.js:38 | `split(' ')[1]` is defined exactly when the header contains a space, and it contains no space |
| Auth.SecondField | index.js:38 | the token is the word after the first space, whatever follows it (`Bearer abc xyz` and `Bearer abc ` both give `abc`) |
| Auth.BearerToken | index.js:38 | for a header `Bearer <token>`, the token is exactly the second field |
| Auth.TokenIn | index.js:35-39 | no token reaches signature checking when the header is absent or empty or has no non-empty second field; otherwise exactly that second field, the word after the first space, reaches it |
| Auth.VerifyToken | index.js:34-47 | the guard lets a request through exactly when the token verifies, and then hands on the decoded claim unchanged; every refusal is 401 "Forbidden access"; a request without a header is refused |
| Auth.IssuedTokenAccepted | index.js:62-66 | a token signed for a claim and sent as `Bearer <token>` passes `verifyToken` with that claim |
| Auth.FindUser | index.js:51-53 | the user lookup by claim email finds a user with that email, and finds none only when no user has it |
| Auth.FindUserUnique | index.js:53 | with unique emails the lookup finds that email's one user |
| Auth.AdminGate | index.js:50-59 | `verifyAdmin` throws exactly when no user has the claim email, refuses with 403 "forbidden access" otherwise unless it allows, and allows only if a user with that email has role exactly "admin" |
| Auth.AdminGateDecidesByRole | index.js:54-57 | with unique emails, the gate allows if and only if the caller's own record has role "admin", and otherwise answers 403 |
| Auth.AdminRoute | index.js:117 | on an admin route the handler runs only for a verified token whose email belongs to an admin; a failed token is refused with the `verifyToken` refusal before any user is read; after a verified token the route throws exactly when the gate throws (no user record), and any other refusal is 403 "forbidden access" |
| Auth.SelfScope | index.js:237-241 | a self-scoped route runs only when the path email equals the claim email, and always runs for a verified caller asking for their own email; a mismatch answers 401 with the route's message; a failed token gets the token refusal |
| MenuQuery.LeadingDigits | index.js:100-101 | `parseInt` reads the longest prefix of decimal digits |
| MenuQuery.ParseInt | index.js:100-101 | `parseInt` gives `NaN` exactly when the parameter is absent or does not start with a digit |
| MenuQuery.DigitsValue | index.js:100-101 | the value `parseInt` gives a run of `k` decimal digits is below `10^k` |
| MenuQuery.ParseDecimal | index.js:100-101 | `parseInt` reads back the numeral of any `n` up to `2^53`, whatever non-digit text follows it |
| MenuQuery.ZerosValue | index.js:100-101 | a run of zeros has the value 0 |
| MenuQuery.ZeroPadded | index.js:100-101 | leading zeros do not change the value of a numeral |
| MenuQuery.ParsePadded | index.js:100-101 | `parseInt` reads a zero-padded numeral of any `n` up to `2^53` as `n` (`"05"` is 5, so `?page=05` is page 5), whatever non-digit text follows it |
| MenuQuery.PageOf | index.js:100 | the page is never 0: a positive parsed page is used as is, and `NaN` or 0 become 1 |
| MenuQuery.LimitOf | index.js:101 | the limit is the parsed value, or 0 when it is `NaN` |
| MenuQuery.Skip | index.js:106 | `skip = page * limit` is at least `limit`, and is 0 when there is no limit |
| MenuQuery.CategoryOf | index.js:102-104 | an absent or empty category gives the query `{}`; any other category is used as is |
| MenuQuery.CategoryFilter | index.js:104 | the query `category ? { category } : {}` (also index.js:162) matches every item when the category is absent or empty, and otherwise exactly the items of that category |
| MenuQuery.InCategory | index.js:104-112 | with no category the whole menu is queried; otherwise the query returns exactly the items of that category |
| MenuQuery.MenuPage | index.js:99-114 | the page has at most `limit` items when `limit > 0`, and holds only menu items |
| MenuQuery.PageIsWindow | index.js:99-114 | the page's i-th item is the filtered menu's item at `page * limit + i`; the page has `limit` items when that many remain past `page * limit`, the rest of the filtered menu when fewer remain or `limit` is 0, and none when `page * limit` is past its end |
| MenuQuery.MenuCount | index.js:160-165 | `/menuCount` never exceeds the menu size |
| MenuQuery.UnlimitedPageIsWholeMenu | index.js:106-112 | with limit 0 the whole filtered menu is sent, and its length equals `/menuCount` for the same category |
| MenuQuery.PageInCategory | index.js:104-112 | every item sent for a non-empty category lies in that category |
| MenuQuery.PageZeroIsPageOne | index.js:100 | `page=0`, `page=1` and no page select the same items |
| MenuQuery.FirstItemsNeverServed | index.js:100-112 | with a positive limit, none of the first `limit` filtered items is ever sent, whatever the page |
| Server.IdSet | index.js:89-93 | the `$in` list holds exactly the ids of `cartIds` |
| Server.WithEmail | index.js:200 | the email query finds exactly the users with that email |
| Server.AtMostOneWithEmail | index.js:197-207 | when emails are unique, at most one user has a given email |
| Server.Upsert | index.js:197-207 | the user upsert leaves the users unchanged when the email is present, and otherwise appends exactly the body |
| Server.UpsertLeavesOne | index.js:197-207 | after an upsert exactly one user has the body's email, and emails stay unique |
| Server.UpsertIdempotent | index.js:197-207 | a second upsert with the same email changes nothing |
| Server.PromotionStep | index.js:224-233 | promotion changes exactly the user with that `_id`, to an admin with the same name and email, and keeps `_id`s and emails unique |
| Server.PromotionIdempotent | index.js:224-233 | promoting twice equals promoting once, and the repeat reports `modifiedCount` 0 |
| Server.PatchIdempotent | index.js:132-148 | patching twice with the same body equals patching once |
| Server.Refusal | index.js:55-57 | a refusing guard becomes the reply: `Deny(s, m)` sends status `s` with message `m`, and a fault is an exception |
| Server.Store.constructor | index.js:27-31 | the store starts from five collections that satisfy the `_id` and email invariant |
| Server.Store.PostPaymentHistory | index.js:84-96 | appends the payment under a fresh `_id`; deletes exactly the cart items whose `_id` is in `cartIds` and keeps the others in order; replies with the number removed; changes no other collection; throws after storing the payment when `cartIds` is missing |
| Server.Store.GetPaymentHistory | index.js:237-245 | a verified caller asking for their own email gets exactly that email's payments, in order; another email gets 401 "Unauthorized access."; a failed token gets the token refusal |
| Server.Store.GetMenu | index.js:99-114 | sends the page `MenuPage` describes, never more than `limit` items |
| Server.Store.GetMenuCount | index.js:160-165 | the count equals the number of menu items the same category query returns |
| Server.Store.GetMenuItem | index.js:151-156 | sends a menu item with that `_id`, or `null` exactly when there is none |
| Server.Store.PostMenu | index.js:117-121 | for an admin, appends the body under a fresh `_id` and replies with that `_id`; otherwise the guard's refusal and no change |
| Server.Store.DeleteMenuItem | index.js:124-129 | for an admin, removes exactly the item with that `_id` and replies with the count removed; otherwise the refusal and no change |
| Server.Store.PatchMenuItem | index.js:132-148 | for an admin, rewrites the five patched fields of only the item with that `_id`, reports matched and modified counts, and changes nothing else; otherwise the refusal and no change |
| Server.Store.GetReviews | index.js:168-171 | sends every review |
| Server.Store.PostCart | index.js:174-178 | appends the cart item under a fresh `_id` and replies with it |
| Server.Store.GetCarts | index.js:181-186 | sends exactly the cart items of that email, in order |
| Server.Store.DeleteCartItem | index.js:189-194 | removes exactly the cart item with that `_id` and replies with the count removed |
| Server.Store.PostUser | index.js:197-207 | replies "user already exist" and changes nothing when the email is present; otherwise appends the body and replies with its new `_id`; afterwards exactly one user has that email |
| Server.Store.GetUsers | index.js:210-214 | for an admin, sends every user; otherwise the guard's refusal |
| Server.Store.DeleteUser | index.js:216-221 | for an admin, removes exactly the user with that `_id`; otherwise the refusal and no change |
| Server.Store.MakeAdmin | index.js:224-234 | for an admin caller, sets `role` to "admin" on only the user with that `_id` and reports the update counts; otherwise the refusal and no change |
| Server.Store.GetIsAdmin | index.js:248-257 | on an email mismatch sends 401 "unauthorize access"; a verified caller asking for their own email gets an answer exactly when a user has that email, and the handler throws otherwise; the answer is whether that user's role is exactly "admin" |

## Left out

- JWT signing and verification, including the one-day expiry (index.js:39, index.js:62-66). Cryptography and the clock are the `verify` parameter. `POST /jwt` is not a route of the model; `IssuedTokenAccepted` states what issuing then verifying gives, assuming the verifier accepts what the signer produced.
- `POST /create-payment-intent` (index.js:69-81): an external payment service, plus the float conversion `parseInt(price * 100)`.
- Express and MongoDB plumbing: routing, CORS, JSON body parsing, `app.listen`, the client connection, and `GET /` (index.js:1-31, index.js:260-279).
- ObjectId construction and hex validation: `_id`s are natural numbers, so an invalid id string and the exception it raises are not modelled. The store always gives an inserted document a fresh `_id`; a body that brings its own `_id` is not modelled.
- MenuQuery.ParseInt: JavaScript's `parseInt` returns a double, so a numeral above `2^53` is rounded (`"9007199254740993"` gives 9007199254740992), and `page * limit` (index.js:106) is a double product; the model reads every numeral and multiplies exactly, so it agrees with the code only while these values stay at or below `2^53` (which is why `ParseDecimal` is stated up to `2^53`).
- `parseInt` is modelled for decimal digits only. Leading whitespace, a sign, the `0x` hexadecimal prefix and negative pages or limits are left out, and so are array-valued query parameters.
- Missing values in equality queries are not modelled, because a `{field: undefined}` query needs MongoDB semantics the model does not have. So a claim without `email`, a user body without `email` and `GET /carts` without `email` are left out: `Claim.email` and `User.email` are always strings.
- A `$set` from a patch body with missing fields is left out: `MenuPatch` always has the five fields.
- Server.Store.PostPaymentHistory: partial failure is modelled only for a missing `cartIds` (the payment is stored and then the handler throws). A malformed entry in `cartIds` is not modelled.
- What Express does with an exception thrown in a handler is not modelled. The reply is `Thrown`, with no status.
- Concurrency between requests: each method runs to completion on its own.
- Prices and ratings are `real` values that are stored and never computed with; floating-point behaviour is not modelled.
