/**
  The documents of the five collections of the `CraveSpotDB` database.
  Every record is whatever body a client sent; the fields below are the ones
  the handlers read or write.
 */
module Records {
  import opened Wrappers

  /** A `menu` document; `extra` holds any further fields a client stored with it. */
  datatype MenuItem = MenuItem(
    name: string, recipe: string, image: string, category: string, price: real,
    extra: map<string, string>)

  /** The five fields `PATCH /menu/:id` copies from the request body. */
  datatype MenuPatch = MenuPatch(name: string, recipe: string, category: string, price: real, image: string)

  /** A `reviews` document. */
  datatype Review = Review(name: string, details: string, rating: real)

  /** A `cart` document, owned by the user with `email`. */
  datatype CartItem = CartItem(menuId: string, email: string, name: string, image: string, price: real)

  /** A `users` document; `role` is absent unless someone set it. */
  datatype User = User(name: string, email: string, role: Option<string>)

  /**
    A `payment` document as the client posts it; `cartIds` lists the cart
    documents the payment settles and may be missing from a malformed body.
   */
  datatype Payment = Payment(email: string, price: real, transactionId: string, cartIds: Option<seq<nat>>)

  /** `user.role === "admin"`: strict equality with the exact string. */
  predicate IsAdmin(u: User)
  {
    u.role == Some("admin")
  }

  /** `$set: { role: 'admin' }`: only the role changes. */
  function Promote(u: User): (r: User)
    ensures IsAdmin(r)
    ensures r.name == u.name && r.email == u.email
    ensures IsAdmin(u) ==> r == u
  {
    u.(role := Some("admin"))
  }

  /** `$set` of `name`, `recipe`, `category`, `price` and `image`: every other field stays. */
  function ApplyPatch(m: MenuItem, p: MenuPatch): (r: MenuItem)
    ensures r.extra == m.extra
    ensures r == MenuItem(p.name, p.recipe, p.image, p.category, p.price, m.extra)
  {
    m.(name := p.name, recipe := p.recipe, category := p.category, price := p.price, image := p.image)
  }
}
