/**
  The route handlers of the server over an in-memory `CraveSpotDB`: one
  `Store` holds the five collections and has one method per route that reads
  or changes them. Guarded routes take the request's `Authorization` header
  and the token verifier; a refused request changes nothing.
 */
module Server {
  import opened Wrappers
  import opened Documents
  import opened Records
  import opened Auth
  import MenuQuery

  /**
    What a route answers: a body with status 200, an error status with a
    `{message}` body, or an exception thrown inside the handler (no reply of
    its own).
   */
  datatype Reply<T> = Ok(body: T) | Error(status: nat, message: string) | Thrown

  /** The `POST /user` answer. */
  datatype UpsertReply =
    | Inserted(insertedId: Id)       // the driver's InsertOneResult
    | AlreadyExists(message: string) // `{ message, insertedId: null }`

  /** A guard's refusal, sent as the route's reply. */
  function Refusal<T, U>(v: Verdict<T>): (r: Reply<U>)
    requires !v.Allow?
    ensures v.Fault? <==> r.Thrown?
    ensures v.Deny? ==> r == Error(v.status, v.message)
  {
    match v
    case Deny(status, message) => Error(status, message)
    case Fault => Thrown
  }

  /** `{ _id: { $in: data.cartIds.map(id => new ObjectId(id)) } }` as a set of identifiers. */
  function IdSet(ids: seq<Id>): (s: set<Id>)
    ensures forall id :: id in s <==> id in ids
  {
    set id | id in ids
  }

  /** The users the `{ email }` query of index.js:200 matches. */
  function WithEmail(users: seq<Doc<User>>, email: string): (r: seq<Doc<User>>)
    ensures forall d :: d in r <==> d in users && d.body.email == email
  {
    Filter(users, (d: Doc<User>) => d.body.email == email)
  }

  /** The users collection never holds two records with one email. */
  ghost predicate UniqueEmails(users: seq<Doc<User>>)
  {
    UniqueBy(users, (d: Doc<User>) => d.body.email)
  }

  /** With unique emails, at most one user has a given email. */
  lemma {:induction false} AtMostOneWithEmail(users: seq<Doc<User>>, email: string)
    requires UniqueEmails(users)
    ensures |WithEmail(users, email)| <= 1
  {
    if users != [] {
      UniqueByTail(users, (d: Doc<User>) => d.body.email);
      if users[0].body.email == email {
        forall i | 0 <= i < |users[1..]| ensures users[1..][i].body.email != email {
          assert users[1..][i] == users[i + 1];
        }
        FilterNone(users[1..], (d: Doc<User>) => d.body.email == email);
      } else {
        AtMostOneWithEmail(users[1..], email);
      }
    }
  }

  /**
    `POST /user` on the users collection: the body is stored under `id`
    unless a user with its email is already there.
   */
  function Upsert(users: seq<Doc<User>>, id: Id, data: User): (r: seq<Doc<User>>)
    requires IdsBelow(users, id)
    ensures (exists i :: 0 <= i < |users| && users[i].body.email == data.email) ==> r == users
    ensures (forall i :: 0 <= i < |users| ==> users[i].body.email != data.email) ==> r == users + [Doc(id, data)]
  {
    if FindUser(users, data.email).Some? then users else Insert(users, id, data)
  }

  /** The upsert keeps emails unique, and afterwards exactly one user has the body's email. */
  lemma UpsertLeavesOne(users: seq<Doc<User>>, id: Id, data: User)
    requires IdsBelow(users, id) && UniqueEmails(users)
    ensures UniqueEmails(Upsert(users, id, data))
    ensures |WithEmail(Upsert(users, id, data), data.email)| == 1
  {
    var r := Upsert(users, id, data);
    AtMostOneWithEmail(r, data.email);
    var k :| 0 <= k < |r| && r[k].body.email == data.email;
    assert r[k] in WithEmail(r, data.email);
  }

  /** A second upsert with the same email changes nothing, whatever fresh `_id` it would have used. */
  lemma UpsertIdempotent(users: seq<Doc<User>>, id: Id, id': Id, data: User)
    requires IdsBelow(users, id) && IdsBelow(Upsert(users, id, data), id')
    ensures Upsert(Upsert(users, id, data), id', data) == Upsert(users, id, data)
  {
    var r := Upsert(users, id, data);
    if FindUser(users, data.email).None? {
      assert r[|users|].body.email == data.email;
    }
  }

  /** Promoting a user twice leaves the collection as promoting once, and the second update modifies nothing. */
  lemma PromotionIdempotent(users: seq<Doc<User>>, id: Id)
    ensures UpdateOne(UpdateOne(users, id, Promote), id, Promote) == UpdateOne(users, id, Promote)
    ensures UpdateOneResult(UpdateOne(users, id, Promote), id, Promote).modifiedCount == 0
  {
    UpdateOneIdempotent(users, id, Promote);
  }

  /**
    `updateOne({_id}, {$set: {role: 'admin'}})` on a well-keyed users
    collection with unique emails: exactly the user with that `_id` is
    promoted, and both invariants survive.
   */
  lemma PromotionStep(users: seq<Doc<User>>, n: Id, id: Id)
    requires WellKeyed(users, n) && UniqueEmails(users)
    ensures WellKeyed(UpdateOne(users, id, Promote), n) && UniqueEmails(UpdateOne(users, id, Promote))
    ensures |UpdateOne(users, id, Promote)| == |users|
    ensures forall i :: 0 <= i < |users| ==>
      UpdateOne(users, id, Promote)[i] == if users[i].id == id then Doc(id, Promote(users[i].body)) else users[i]
  {
    UpdateOneExact(users, id, Promote);
    UpdateOneKeepsWellKeyed(users, n, id, Promote);
    UpdateOneKeepsUniqueBy(users, id, Promote, (d: Doc<User>) => d.body.email);
  }

  /** Patching a menu item twice with the same body leaves it as patching once. */
  lemma PatchIdempotent(menu: seq<Doc<MenuItem>>, id: Id, patch: MenuPatch)
    ensures UpdateOne(UpdateOne(menu, id, m => ApplyPatch(m, patch)), id, m => ApplyPatch(m, patch))
      == UpdateOne(menu, id, m => ApplyPatch(m, patch))
  {
    UpdateOneIdempotent(menu, id, m => ApplyPatch(m, patch));
  }

  class Store {
    var menu: seq<Doc<MenuItem>>
    var reviews: seq<Doc<Review>>
    var cart: seq<Doc<CartItem>>
    var users: seq<Doc<User>>
    var payments: seq<Doc<Payment>>
    /** The next `_id` the database hands out; every stored `_id` is below it. */
    var nextId: Id

    ghost predicate Valid()
      reads this
    {
      && WellKeyed(menu, nextId)
      && WellKeyed(reviews, nextId)
      && WellKeyed(cart, nextId)
      && WellKeyed(users, nextId)
      && WellKeyed(payments, nextId)
      && UniqueEmails(users)
    }

    constructor (menu: seq<Doc<MenuItem>>, reviews: seq<Doc<Review>>, cart: seq<Doc<CartItem>>,
                 users: seq<Doc<User>>, payments: seq<Doc<Payment>>, nextId: Id)
      requires WellKeyed(menu, nextId) && WellKeyed(reviews, nextId) && WellKeyed(cart, nextId)
      requires WellKeyed(users, nextId) && WellKeyed(payments, nextId) && UniqueEmails(users)
      ensures Valid()
      ensures this.menu == menu && this.reviews == reviews && this.cart == cart
      ensures this.users == users && this.payments == payments && this.nextId == nextId
    {
      this.menu, this.reviews, this.cart := menu, reviews, cart;
      this.users, this.payments, this.nextId := users, payments, nextId;
    }

    // -------------------------------------------------------------------------
    // Payment history

    /**
      `POST /paymentHistory`: the body is stored, then every cart item whose
      `_id` is in `cartIds` is deleted and the deletion result sent. A body
      without `cartIds` throws after the payment is stored.
     */
    method PostPaymentHistory(data: Payment) returns (r: Reply<DeleteResult>)
      requires Valid()
      modifies this
      ensures Valid()
      ensures payments == old(payments) + [Doc(old(nextId), data)] && nextId == old(nextId) + 1
      ensures menu == old(menu) && reviews == old(reviews) && users == old(users)
      ensures data.cartIds.None? ==> r.Thrown? && cart == old(cart)
      ensures data.cartIds.Some? ==>
        && cart == DeleteMany(old(cart), IdSet(data.cartIds.value))
        && r == Ok(DeleteResult(|Selected(old(cart), IdSet(data.cartIds.value))|))
      ensures data.cartIds.Some? ==> forall i :: 0 <= i < |cart| ==> cart[i].id !in data.cartIds.value
      ensures data.cartIds.Some? ==> forall d :: d in old(cart) && d.id !in data.cartIds.value ==> d in cart
    {
      payments := Insert(payments, nextId, data);
      nextId := nextId + 1;
      match data.cartIds {
        case None =>
          r := Thrown;
        case Some(ids) =>
          var before := cart;
          DeletedCount(before, IdSet(ids));
          DeleteManyKeepsWellKeyed(before, IdSet(ids), nextId);
          cart := DeleteMany(before, IdSet(ids));
          DeleteManyRemovesAll(before, IdSet(ids));
          r := Ok(DeleteResult(|before| - |cart|));
      }
    }

    /**
      `GET /paymentHistory/:email`: after `verifyToken`, a caller may read
      only the payments of their own email; any other email is 401.
     */
    method GetPaymentHistory(authorization: Option<string>, verify: string -> Option<Claim>, email: string)
      returns (r: Reply<seq<Doc<Payment>>>)
      ensures var v := SelfScope(authorization, verify, email, "Unauthorized access.");
        if v.Allow? then r == Ok(Filter(payments, (d: Doc<Payment>) => d.body.email == email))
        else r == Refusal(v)
      ensures r.Ok? ==> forall d :: d in r.body <==> d in payments && d.body.email == email
      ensures VerifyToken(authorization, verify).Allow? && VerifyToken(authorization, verify).value.email == email ==>
        r == Ok(Filter(payments, (d: Doc<Payment>) => d.body.email == email))
    {
      var v := SelfScope(authorization, verify, email, "Unauthorized access.");
      if !v.Allow? {
        return Refusal(v);
      }
      r := Ok(Filter(payments, (d: Doc<Payment>) => d.body.email == email));
    }

    // -------------------------------------------------------------------------
    // Menu

    /** `GET /menu`: the requested page of the category-filtered menu. */
    method GetMenu(page: Option<string>, limit: Option<string>, category: Option<string>)
      returns (items: seq<Doc<MenuItem>>)
      ensures items == MenuQuery.MenuPage(menu, page, limit, category)
      ensures MenuQuery.LimitOf(limit) > 0 ==> |items| <= MenuQuery.LimitOf(limit)
    {
      var skip := MenuQuery.Skip(page, limit);
      items := SkipLimit(MenuQuery.InCategory(menu, MenuQuery.CategoryOf(category)), skip, MenuQuery.LimitOf(limit));
    }

    /** `GET /menuCount`: how many menu items match the same category query. */
    method GetMenuCount(category: Option<string>) returns (count: nat)
      ensures count == |MenuQuery.InCategory(menu, MenuQuery.CategoryOf(category))|
    {
      count := MenuQuery.MenuCount(menu, category);
      MenuQuery.UnlimitedPageIsWholeMenu(menu, None, None, category);
    }

    /** `GET /menu/:id`: the menu item with that `_id`, or `null`. */
    method GetMenuItem(id: Id) returns (r: Option<Doc<MenuItem>>)
      ensures r.Some? ==> r.value in menu && r.value.id == id
      ensures r.None? <==> forall i :: 0 <= i < |menu| ==> menu[i].id != id
    {
      r := FindFirst(menu, (d: Doc<MenuItem>) => d.id == id);
    }

    /** `POST /menu` (admin): the body is stored under a fresh `_id`. */
    method PostMenu(authorization: Option<string>, verify: string -> Option<Claim>, item: MenuItem)
      returns (r: Reply<InsertResult>)
      requires Valid()
      modifies this
      ensures Valid()
      ensures var v := AdminRoute(authorization, verify, old(users));
        if v.Allow? then
          && menu == old(menu) + [Doc(old(nextId), item)] && nextId == old(nextId) + 1
          && r == Ok(InsertResult(old(nextId)))
        else r == Refusal(v) && menu == old(menu) && nextId == old(nextId)
      ensures reviews == old(reviews) && cart == old(cart) && users == old(users) && payments == old(payments)
    {
      var v := AdminRoute(authorization, verify, users);
      if !v.Allow? {
        return Refusal(v);
      }
      menu := Insert(menu, nextId, item);
      r := Ok(InsertResult(nextId));
      nextId := nextId + 1;
    }

    /** `DELETE /menu/:id` (admin): the menu item with that `_id` is removed. */
    method DeleteMenuItem(authorization: Option<string>, verify: string -> Option<Claim>, id: Id)
      returns (r: Reply<DeleteResult>)
      requires Valid()
      modifies this
      ensures Valid()
      ensures var v := AdminRoute(authorization, verify, old(users));
        if v.Allow? then
          && menu == Filter(old(menu), (d: Doc<MenuItem>) => d.id != id)
          && r == Ok(DeleteResult(|old(menu)| - |menu|))
        else r == Refusal(v) && menu == old(menu)
      ensures reviews == old(reviews) && cart == old(cart) && users == old(users) && payments == old(payments)
      ensures nextId == old(nextId)
    {
      var v := AdminRoute(authorization, verify, users);
      if !v.Allow? {
        return Refusal(v);
      }
      var before := menu;
      DeleteOneIsFilter(before, id);
      DeleteOneKeepsWellKeyed(before, id, nextId);
      menu := DeleteOne(before, id);
      r := Ok(DeleteResult(|before| - |menu|));
    }

    /**
      `PATCH /menu/:id` (admin): `name`, `recipe`, `category`, `price` and
      `image` of the item with that `_id` are overwritten; nothing else changes.
     */
    method PatchMenuItem(authorization: Option<string>, verify: string -> Option<Claim>, id: Id, patch: MenuPatch)
      returns (r: Reply<UpdateResult>)
      requires Valid()
      modifies this
      ensures Valid()
      ensures var v := AdminRoute(authorization, verify, old(users));
        if v.Allow? then
          && |menu| == |old(menu)|
          && (forall i :: 0 <= i < |menu| ==>
                menu[i] == if old(menu)[i].id == id then Doc(id, ApplyPatch(old(menu)[i].body, patch)) else old(menu)[i])
          && r == Ok(UpdateOneResult(old(menu), id, m => ApplyPatch(m, patch)))
        else r == Refusal(v) && menu == old(menu)
      ensures reviews == old(reviews) && cart == old(cart) && users == old(users) && payments == old(payments)
      ensures nextId == old(nextId)
    {
      var v := AdminRoute(authorization, verify, users);
      if !v.Allow? {
        return Refusal(v);
      }
      var before := menu;
      UpdateOneExact(before, id, m => ApplyPatch(m, patch));
      UpdateOneKeepsWellKeyed(before, nextId, id, m => ApplyPatch(m, patch));
      menu := UpdateOne(before, id, m => ApplyPatch(m, patch));
      r := Ok(UpdateOneResult(before, id, m => ApplyPatch(m, patch)));
    }

    // -------------------------------------------------------------------------
    // Reviews and carts

    /** `GET /reviews`: every review. */
    method GetReviews() returns (r: seq<Doc<Review>>)
      ensures r == reviews
    {
      r := reviews;
    }

    /** `POST /carts`: the body is stored under a fresh `_id`. */
    method PostCart(item: CartItem) returns (r: InsertResult)
      requires Valid()
      modifies this
      ensures Valid()
      ensures cart == old(cart) + [Doc(old(nextId), item)] && nextId == old(nextId) + 1
      ensures r == InsertResult(old(nextId))
      ensures menu == old(menu) && reviews == old(reviews) && users == old(users) && payments == old(payments)
    {
      cart := Insert(cart, nextId, item);
      r := InsertResult(nextId);
      nextId := nextId + 1;
    }

    /** `GET /carts?email`: the cart items of that email, in collection order. */
    method GetCarts(email: string) returns (r: seq<Doc<CartItem>>)
      ensures forall d :: d in r <==> d in cart && d.body.email == email
      ensures r == Filter(cart, (d: Doc<CartItem>) => d.body.email == email)
    {
      r := Filter(cart, (d: Doc<CartItem>) => d.body.email == email);
    }

    /** `DELETE /carts/:id`: the cart item with that `_id` is removed. */
    method DeleteCartItem(id: Id) returns (r: DeleteResult)
      requires Valid()
      modifies this
      ensures Valid()
      ensures cart == Filter(old(cart), (d: Doc<CartItem>) => d.id != id)
      ensures r == DeleteResult(|old(cart)| - |cart|)
      ensures menu == old(menu) && reviews == old(reviews) && users == old(users) && payments == old(payments)
      ensures nextId == old(nextId)
    {
      var before := cart;
      DeleteOneIsFilter(before, id);
      DeleteOneKeepsWellKeyed(before, id, nextId);
      cart := DeleteOne(before, id);
      r := DeleteResult(|before| - |cart|);
    }

    // -------------------------------------------------------------------------
    // Users

    /**
      `POST /user`: stores the body unless a user with its email exists, in
      which case it answers "user already exist" and changes nothing.
      Afterwards exactly one user has the body's email.
     */
    method PostUser(data: User) returns (r: UpsertReply)
      requires Valid()
      modifies this
      ensures Valid()
      ensures users == Upsert(old(users), old(nextId), data)
      ensures |WithEmail(users, data.email)| == 1
      ensures (exists i :: 0 <= i < |old(users)| && old(users)[i].body.email == data.email) ==>
        r == AlreadyExists("user already exist") && nextId == old(nextId)
      ensures (forall i :: 0 <= i < |old(users)| ==> old(users)[i].body.email != data.email) ==>
        r == Inserted(old(nextId)) && nextId == old(nextId) + 1
      ensures menu == old(menu) && reviews == old(reviews) && cart == old(cart) && payments == old(payments)
    {
      UpsertLeavesOne(users, nextId, data);
      var existing := FindUser(users, data.email);
      if existing.Some? {
        return AlreadyExists("user already exist");
      }
      users := Insert(users, nextId, data);
      r := Inserted(nextId);
      nextId := nextId + 1;
    }

    /** `GET /user` (admin): every user. */
    method GetUsers(authorization: Option<string>, verify: string -> Option<Claim>)
      returns (r: Reply<seq<Doc<User>>>)
      ensures var v := AdminRoute(authorization, verify, users);
        if v.Allow? then r == Ok(users) else r == Refusal(v)
    {
      var v := AdminRoute(authorization, verify, users);
      if !v.Allow? {
        return Refusal(v);
      }
      r := Ok(users);
    }

    /** `DELETE /user/:id` (admin): the user with that `_id` is removed. */
    method DeleteUser(authorization: Option<string>, verify: string -> Option<Claim>, id: Id)
      returns (r: Reply<DeleteResult>)
      requires Valid()
      modifies this
      ensures Valid()
      ensures var v := AdminRoute(authorization, verify, old(users));
        if v.Allow? then
          && users == Filter(old(users), (d: Doc<User>) => d.id != id)
          && r == Ok(DeleteResult(|old(users)| - |users|))
        else r == Refusal(v) && users == old(users)
      ensures menu == old(menu) && reviews == old(reviews) && cart == old(cart) && payments == old(payments)
      ensures nextId == old(nextId)
    {
      var v := AdminRoute(authorization, verify, users);
      if !v.Allow? {
        return Refusal(v);
      }
      var before := users;
      DeleteOneIsFilter(before, id);
      DeleteOneKeepsWellKeyed(before, id, nextId);
      FilterKeepsUniqueBy(before, (d: Doc<User>) => d.id != id, (d: Doc<User>) => d.body.email);
      users := DeleteOne(before, id);
      r := Ok(DeleteResult(|before| - |users|));
    }

    /**
      `PATCH /user/admin/:id` (admin): the role of the user with that `_id`
      becomes "admin"; nothing else changes.
     */
    method MakeAdmin(authorization: Option<string>, verify: string -> Option<Claim>, id: Id)
      returns (r: Reply<UpdateResult>)
      requires Valid()
      modifies this
      ensures Valid()
      ensures var v := AdminRoute(authorization, verify, old(users));
        if v.Allow? then
          && |users| == |old(users)|
          && (forall i :: 0 <= i < |users| ==>
                users[i] == if old(users)[i].id == id then Doc(id, Promote(old(users)[i].body)) else old(users)[i])
          && r == Ok(UpdateOneResult(old(users), id, Promote))
        else r == Refusal(v) && users == old(users)
      ensures menu == old(menu) && reviews == old(reviews) && cart == old(cart) && payments == old(payments)
      ensures nextId == old(nextId)
    {
      var v := AdminRoute(authorization, verify, users);
      if !v.Allow? {
        return Refusal(v);
      }
      var before := users;
      PromotionStep(before, nextId, id);
      users := UpdateOne(before, id, Promote);
      r := Ok(UpdateOneResult(before, id, Promote));
    }

    /**
      `GET /users/admin/:email`: after `verifyToken`, a caller may ask only
      about their own email (any other is 401) and learns whether that user's
      role is "admin"; a missing user record throws.
     */
    method GetIsAdmin(authorization: Option<string>, verify: string -> Option<Claim>, email: string)
      returns (r: Reply<bool>)
      requires Valid()
      ensures var v := SelfScope(authorization, verify, email, "unauthorize access");
        !v.Allow? ==> r == Refusal(v)
      ensures SelfScope(authorization, verify, email, "unauthorize access").Allow? ==>
        && ((forall i :: 0 <= i < |users| ==> users[i].body.email != email) ==> r.Thrown?)
        && (forall i :: 0 <= i < |users| && users[i].body.email == email ==> r == Ok(IsAdmin(users[i].body)))
      ensures VerifyToken(authorization, verify).Allow? && VerifyToken(authorization, verify).value.email == email ==>
        (r.Ok? <==> exists i :: 0 <= i < |users| && users[i].body.email == email) && (r.Thrown? || r.Ok?)
    {
      var v := SelfScope(authorization, verify, email, "unauthorize access");
      if !v.Allow? {
        return Refusal(v);
      }
      var user := FindUser(users, email);
      if user.None? {
        return Thrown;
      }
      r := Ok(IsAdmin(user.value.body));
      forall i | 0 <= i < |users| && users[i].body.email == email ensures r == Ok(IsAdmin(users[i].body)) {
        FindUserUnique(users, i);
      }
    }
  }
}
