/** The relational schema of the shop (models.py): users, products, orders,
    order items and cart items, held together in one immutable `Store`.

    Each table is a map from primary key to row. Foreign keys are ids into
    the other maps; `Valid` collects the uniqueness and reference
    constraints the schema declares.
 */
module Models {
  import opened Forms

  type UserId = nat
  type ProductId = nat
  type OrderId = nat
  type OrderItemId = nat
  type CartItemId = nat

  /** An opaque password hash as produced by the hashing library. */
  type Hash = string

  /** The password-hashing library: `generate_password_hash` and
      `check_password_hash` (models.py:27-39). Nothing is assumed about how
      the two relate. */
  datatype Hasher = Hasher(hash: string -> Hash, check: (Hash, string) -> bool)

  /** Column default of `User.profile_picture`. */
  const DefaultProfilePicture: string := "default_profile.webp"

  /** Column default of `Product.image`. */
  const DefaultProductImage: string := "default_product.webp"

  /** A user row. `profile_picture` is the one nullable column besides the
      address; every insert fills it with the column default. */
  datatype User = User(
    username: string,
    email: string,
    passwordHash: Hash,
    isAdmin: bool,
    profilePicture: Option<string>,
    address: Option<string>)

  /** Prices are floating-point columns; the model copies them and never
      computes with them. */
  datatype Product = Product(
    title: string,
    description: string,
    image: string,
    price: real,
    quantity: int)

  datatype Order = Order(userId: UserId)

  /** A purchased line. Title and price are copies taken at purchase time;
      the product link may be empty. */
  datatype OrderItem = OrderItem(
    orderId: OrderId,
    productId: Option<ProductId>,
    quantity: int,
    productTitle: string,
    productPrice: real)

  datatype CartItem = CartItem(userId: UserId, productId: ProductId, quantity: int)

  /** The whole database, plus the set of picture files on disk. `nextUserId`
      is the key the next inserted user receives. */
  datatype Store = Store(
    users: map<UserId, User>,
    products: map<ProductId, Product>,
    orders: map<OrderId, Order>,
    orderItems: map<OrderItemId, OrderItem>,
    cartItems: map<CartItemId, CartItem>,
    pictures: set<string>,
    nextUserId: UserId)

  /** Every user has a picture name: no `profile_picture` is NULL. */
  ghost predicate PicturesSet(s: Store) {
    forall k :: k in s.users ==> s.users[k].profilePicture.Some?
  }

  /** `User(username=..., email=...)` followed by `set_password`: every other
      column takes its default. */
  function NewUser(username: string, email: string, hasher: Hasher, password: string): (u: User)
    ensures u.username == username && u.email == email
    ensures !u.isAdmin && u.profilePicture == Some(DefaultProfilePicture) && u.address.None?
    ensures u.passwordHash == hasher.hash(password)
  {
    User(username, email, hasher.hash(password), false, Some(DefaultProfilePicture), None)
  }

  /** `user.check_password(password)`. */
  predicate CheckPassword(u: User, hasher: Hasher, password: string) {
    hasher.check(u.passwordHash, password)
  }

  /** A product created without an image or a stock figure. */
  function NewProduct(title: string, description: string, price: real): (p: Product)
    ensures p.title == title && p.description == description && p.price == price
    ensures p.quantity == 0 && p.image == DefaultProductImage
  {
    Product(title, description, DefaultProductImage, price, 0)
  }

  /** A cart line created without a quantity. */
  function NewCartItem(userId: UserId, productId: ProductId): (c: CartItem)
    ensures c.userId == userId && c.productId == productId && c.quantity == 1
  {
    CartItem(userId, productId, 1)
  }

  /** No two users share a username. */
  ghost predicate UniqueUsernames(users: map<UserId, User>) {
    forall a, b :: a in users && b in users && a != b ==> users[a].username != users[b].username
  }

  /** No two users share an email. */
  ghost predicate UniqueEmails(users: map<UserId, User>) {
    forall a, b :: a in users && b in users && a != b ==> users[a].email != users[b].email
  }

  predicate CartItemValid(c: CartItem, users: map<UserId, User>, products: map<ProductId, Product>) {
    c.userId in users && c.productId in products
  }

  predicate OrderValid(o: Order, users: map<UserId, User>) {
    o.userId in users
  }

  /** The order link is required; the product link, when present, points at a product. */
  predicate OrderItemValid(i: OrderItem, orders: map<OrderId, Order>, products: map<ProductId, Product>) {
    i.orderId in orders && (i.productId.Some? ==> i.productId.value in products)
  }

  /** The constraints the schema declares, over the whole store. */
  ghost predicate Valid(s: Store) {
    && (forall id :: id in s.users ==> id < s.nextUserId)
    && UniqueUsernames(s.users)
    && UniqueEmails(s.users)
    && (forall k :: k in s.cartItems ==> CartItemValid(s.cartItems[k], s.users, s.products))
    && (forall k :: k in s.orders ==> OrderValid(s.orders[k], s.users))
    && (forall k :: k in s.orderItems ==> OrderItemValid(s.orderItems[k], s.orders, s.products))
  }

  /** Cutting an order item loose from its product keeps the item valid
      whatever the catalogue then holds, and keeps everything it records. */
  lemma DetachedOrderItemSurvives(
    i: OrderItem, orders: map<OrderId, Order>,
    before: map<ProductId, Product>, after: map<ProductId, Product>)
    requires OrderItemValid(i, orders, before)
    ensures var d := i.(productId := None);
            && OrderItemValid(d, orders, after)
            && d.orderId == i.orderId && d.quantity == i.quantity
            && d.productTitle == i.productTitle && d.productPrice == i.productPrice
  {
  }

  /** The empty database satisfies every constraint. */
  lemma EmptyStoreValid(pictures: set<string>)
    ensures Valid(Store(map[], map[], map[], map[], map[], pictures, 0))
  {
  }
}
