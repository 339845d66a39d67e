/**
 * The shopping cart tables of apps/cart/models.py.
 *
 * A cart belongs to a signed-in user or to an anonymous session (or to
 * both), and has a status. The table keeps at most one OPEN cart per user
 * among carts without a session key, and at most one OPEN cart per session
 * among carts without a user. A cart item puts a quantity of one product
 * variant in one cart, at most once per (cart, variant). Writes are
 * validated writes: field validators first, then the constraints in the
 * order the model declares them, and the first failure refuses the write.
 */
module Cart {
  import opened Wrappers
  import Products

  type UserId = nat
  type Id = nat

  /** `CartStatus`; a new cart is OPEN unless told otherwise. */
  datatype CartStatus = Open | CheckedOut | Abandoned

  /** The value stored in the `status` column. */
  function StatusValue(st: CartStatus): (r: string)
    ensures r in {"OPEN", "CHECKED_OUT", "ABANDONED"}
  {
    match st
    case Open => "OPEN"
    case CheckedOut => "CHECKED_OUT"
    case Abandoned => "ABANDONED"
  }

  /** A cart row; an empty `sessionKey` is the blank session key. */
  datatype Cart = Cart(user: Option<UserId>, sessionKey: string, status: CartStatus)

  /** A cart item row. */
  datatype CartItem = CartItem(cart: Id, variant: Products.Id, quantity: int)

  /** Why a write was refused. */
  datatype CartError =
    | MissingReference(field: string)   // a foreign key that names no record
    | Invalid(field: string)            // a field validator
    | UniqueViolated(constraint: string)
    | CheckViolated(constraint: string)

  // ---------------------------------------------------------------------------
  // The constraints on carts
  // ---------------------------------------------------------------------------

  /** `cart_requires_user_or_session_key`. */
  predicate HasOwner(c: Cart) { c.user.Some? || c.sessionKey != [] }

  /** The condition of `unique_open_cart_per_user`: an open cart of a user and no session. */
  predicate OpenUserCart(c: Cart) { c.status == Open && c.user.Some? && c.sessionKey == [] }

  /** The condition of `unique_open_cart_per_session`: an open cart of a session and no user. */
  predicate OpenSessionCart(c: Cart) { c.status == Open && c.user.None? && c.sessionKey != [] }

  ghost predicate OwnersPresent(carts: map<Id, Cart>)
  {
    forall k :: k in carts ==> HasOwner(carts[k])
  }

  ghost predicate OneOpenCartPerUser(carts: map<Id, Cart>)
  {
    forall i, j :: i in carts && j in carts && i != j && OpenUserCart(carts[i]) && OpenUserCart(carts[j]) ==>
      carts[i].user != carts[j].user
  }

  ghost predicate OneOpenCartPerSession(carts: map<Id, Cart>)
  {
    forall i, j :: i in carts && j in carts && i != j && OpenSessionCart(carts[i]) && OpenSessionCart(carts[j]) ==>
      carts[i].sessionKey != carts[j].sessionKey
  }

  /** The three constraints of `Cart.Meta`. */
  ghost predicate CartsValid(carts: map<Id, Cart>)
  {
    OwnersPresent(carts) && OneOpenCartPerUser(carts) && OneOpenCartPerSession(carts)
  }

  /** The first constraint a new cart breaks, in the order `Cart.Meta` declares them, or None. */
  function CartInsertError(carts: map<Id, Cart>, c: Cart): (r: Option<CartError>)
    ensures r.Some? ==> r.value in {UniqueViolated("unique_open_cart_per_user"), UniqueViolated("unique_open_cart_per_session"),
                                    CheckViolated("cart_requires_user_or_session_key")}
    ensures !HasOwner(c) ==> r.Some?
  {
    if OpenUserCart(c) && exists k :: k in carts && OpenUserCart(carts[k]) && carts[k].user == c.user then
      Some(UniqueViolated("unique_open_cart_per_user"))
    else if OpenSessionCart(c) && exists k :: k in carts && OpenSessionCart(carts[k]) && carts[k].sessionKey == c.sessionKey then
      Some(UniqueViolated("unique_open_cart_per_session"))
    else if !HasOwner(c) then Some(CheckViolated("cart_requires_user_or_session_key"))
    else None
  }

  /** A new cart is refused exactly when the table with it would break a constraint. */
  lemma {:induction false} CartInsertExact(carts: map<Id, Cart>, key: Id, c: Cart)
    requires CartsValid(carts) && key !in carts
    ensures CartInsertError(carts, c).None? <==> CartsValid(carts[key := c])
  {
    var carts' := carts[key := c];
    assert key in carts' && carts'[key] == c;
    if CartInsertError(carts, c).None? {
      forall i, j | i in carts' && j in carts' && i != j && OpenUserCart(carts'[i]) && OpenUserCart(carts'[j])
        ensures carts'[i].user != carts'[j].user
      {
        if i != key && j != key {
          assert carts'[i] == carts[i] && carts'[j] == carts[j];
        }
      }
      forall i, j | i in carts' && j in carts' && i != j && OpenSessionCart(carts'[i]) && OpenSessionCart(carts'[j])
        ensures carts'[i].sessionKey != carts'[j].sessionKey
      {
        if i != key && j != key {
          assert carts'[i] == carts[i] && carts'[j] == carts[j];
        }
      }
    } else if OpenUserCart(c) && exists k :: k in carts && OpenUserCart(carts[k]) && carts[k].user == c.user {
      var k :| k in carts && OpenUserCart(carts[k]) && carts[k].user == c.user;
      assert k in carts' && k != key && carts'[k] == carts[k];
      assert !OneOpenCartPerUser(carts');
    } else if OpenSessionCart(c) && exists k :: k in carts && OpenSessionCart(carts[k]) && carts[k].sessionKey == c.sessionKey {
      var k :| k in carts && OpenSessionCart(carts[k]) && carts[k].sessionKey == c.sessionKey;
      assert k in carts' && k != key && carts'[k] == carts[k];
      assert !OneOpenCartPerSession(carts');
    }
  }

  /** A checked-out or abandoned cart is outside both uniqueness constraints: it needs only an owner. */
  lemma ClosedCartsNeedOnlyAnOwner(carts: map<Id, Cart>, c: Cart)
    requires c.status != Open
    ensures CartInsertError(carts, c).None? <==> HasOwner(c)
    ensures CartInsertError(carts, c).Some? ==> CartInsertError(carts, c) == Some(CheckViolated("cart_requires_user_or_session_key"))
  {
  }

  /**
   * A cart that has both a user and a session key falls under neither
   * uniqueness constraint, so any number of them may be open for one user.
   */
  lemma {:induction false} UserCartsWithSessionKeysAreUnlimited(carts: map<Id, Cart>, key: Id, c: Cart)
    requires CartsValid(carts) && key !in carts
    requires c.user.Some? && c.sessionKey != []
    ensures CartInsertError(carts, c).None?
    ensures CartsValid(carts[key := c])
  {
    CartInsertExact(carts, key, c);
  }

  // ---------------------------------------------------------------------------
  // The constraints on cart items
  // ---------------------------------------------------------------------------

  /** Every item names a cart of the table and holds at least one unit. */
  ghost predicate ItemsResolve(items: map<Id, CartItem>, carts: map<Id, Cart>)
  {
    forall k :: k in items ==> items[k].cart in carts && items[k].quantity >= 1
  }

  /** `unique_variant_per_cart`. */
  ghost predicate OneItemPerVariant(items: map<Id, CartItem>)
  {
    forall i, j :: i in items && j in items && i != j && items[i].cart == items[j].cart ==>
      items[i].variant != items[j].variant
  }

  ghost predicate ItemsValid(items: map<Id, CartItem>, carts: map<Id, Cart>)
  {
    ItemsResolve(items, carts) && OneItemPerVariant(items)
  }

  /**
   * The first error a new item meets: the cart and the variant must exist
   * (`variants` is the set of variant keys of the catalog), the quantity
   * must be at least 1, and the variant must not be in the cart yet.
   */
  function ItemInsertError(items: map<Id, CartItem>, carts: map<Id, Cart>, variants: set<Products.Id>, it: CartItem): (r: Option<CartError>)
    ensures r.Some? ==> r.value in {MissingReference("cart"), MissingReference("variant"), Invalid("quantity"), UniqueViolated("unique_variant_per_cart")}
    ensures r.None? ==> it.cart in carts && it.variant in variants && it.quantity >= 1
  {
    if it.cart !in carts then Some(MissingReference("cart"))
    else if it.variant !in variants then Some(MissingReference("variant"))
    else if it.quantity < 1 then Some(Invalid("quantity"))
    else if exists k :: k in items && items[k].cart == it.cart && items[k].variant == it.variant then
      Some(UniqueViolated("unique_variant_per_cart"))
    else None
  }

  /** A new item is refused exactly when its variant is unknown or the table with it would break a constraint. */
  lemma {:induction false} ItemInsertExact(items: map<Id, CartItem>, carts: map<Id, Cart>, variants: set<Products.Id>, key: Id, it: CartItem)
    requires ItemsValid(items, carts) && key !in items
    ensures ItemInsertError(items, carts, variants, it).None? <==> it.variant in variants && ItemsValid(items[key := it], carts)
  {
    var items' := items[key := it];
    assert key in items' && items'[key] == it;
    if ItemInsertError(items, carts, variants, it).None? {
      forall i, j | i in items' && j in items' && i != j && items'[i].cart == items'[j].cart
        ensures items'[i].variant != items'[j].variant
      {
        if i != key && j != key {
          assert items'[i] == items[i] && items'[j] == items[j];
        }
      }
    } else if it.cart in carts && it.variant in variants && it.quantity >= 1 {
      var k :| k in items && items[k].cart == it.cart && items[k].variant == it.variant;
      assert k in items' && k != key && items'[k] == items[k];
      assert !OneItemPerVariant(items');
    }
  }

  /** Whether a variant may go into a cart does not depend on the items of any other cart. */
  lemma {:induction false} OtherCartsDoNotMatter(items: map<Id, CartItem>, others: map<Id, CartItem>, carts: map<Id, Cart>,
                                                 variants: set<Products.Id>, it: CartItem)
    requires items.Keys !! others.Keys
    requires forall k :: k in others ==> others[k].cart != it.cart
    ensures ItemInsertError(items + others, carts, variants, it) == ItemInsertError(items, carts, variants, it)
  {
    var all := items + others;
    if exists k :: k in all && all[k].cart == it.cart && all[k].variant == it.variant {
      var k :| k in all && all[k].cart == it.cart && all[k].variant == it.variant;
      assert k !in others;
      assert k in items && items[k] == all[k];
    }
    if exists k :: k in items && items[k].cart == it.cart && items[k].variant == it.variant {
      var k :| k in items && items[k].cart == it.cart && items[k].variant == it.variant;
      assert k in all && all[k] == items[k];
    }
  }

  /** New carts do not disturb the items. */
  lemma ItemsValidUnderNewCart(items: map<Id, CartItem>, carts: map<Id, Cart>, key: Id, c: Cart)
    requires ItemsValid(items, carts)
    ensures ItemsValid(items, carts[key := c])
  {
  }

  // ---------------------------------------------------------------------------
  // Line totals
  // ---------------------------------------------------------------------------

  /** `CartItem.line_total`: the variant's effective price times the quantity, in cents. */
  function LineTotal(it: CartItem, v: Products.ProductVariant, p: Products.Product): (r: int)
    ensures it.quantity == 1 ==> r == Products.Price(v, p)
    ensures it.quantity >= 1 && Products.Price(v, p) >= 0 ==> r >= Products.Price(v, p)
  {
    Products.Price(v, p) * it.quantity
  }

  /**
   * For an item of a valid cart table whose variant is in a valid catalog,
   * the line total is the price once per unit: at least the price, never
   * negative, and below the price limit times the quantity.
   */
  lemma {:induction false} LineTotalBounds(s: Products.Store, items: map<Id, CartItem>, carts: map<Id, Cart>, k: Id)
    requires Products.StoreValid(s) && ItemsValid(items, carts) && k in items && items[k].variant in s.variants
    ensures var v := s.variants[items[k].variant];
      && v.product in s.products
      && var total := LineTotal(items[k], v, s.products[v.product]);
      && Products.Price(v, s.products[v.product]) <= total
      && 0 <= total < Products.PriceLimit * items[k].quantity
  {
    var v := s.variants[items[k].variant];
    Products.VariantPriceInRange(s, items[k].variant);
    UnitsScalePrice(Products.Price(v, s.products[v.product]), items[k].quantity);
  }

  /** A valid price taken `q >= 1` times is at least the price and below the limit times `q`. */
  lemma UnitsScalePrice(price: int, q: int)
    requires Products.PriceOk(price) && q >= 1
    ensures price <= price * q && 0 <= price * q < Products.PriceLimit * q
  {
    assert price * q == price + price * (q - 1);
    assert price * (q - 1) >= 0;
    assert price * q < Products.PriceLimit * q;
  }

  // ---------------------------------------------------------------------------
  // The tables
  // ---------------------------------------------------------------------------

  class CartTable {
    /** The carts, keyed by primary key. */
    var carts: map<Id, Cart>
    /** The cart items, keyed by primary key. */
    var items: map<Id, CartItem>
    /** The next primary key to hand out. */
    var nextId: nat

    ghost predicate Valid()
      reads this
    {
      && CartsValid(carts) && ItemsValid(items, carts)
      && (forall k :: k in carts ==> k < nextId)
      && (forall k :: k in items ==> k < nextId)
    }

    constructor ()
      ensures Valid()
      ensures carts == map[] && items == map[]
    {
      carts, items, nextId := map[], map[], 0;
    }

    /** Saves a new cart, OPEN unless `status` says otherwise. */
    method AddCart(user: Option<UserId>, sessionKey: string, status: Option<CartStatus>) returns (r: Result<Id, CartError>)
      requires Valid()
      modifies this
      ensures Valid()
      ensures items == old(items)
      ensures var c := Cart(user, sessionKey, if status.Some? then status.value else Open);
        && (r.Failure? <==> CartInsertError(old(carts), c).Some?)
        && (r.Failure? ==> Some(r.error) == CartInsertError(old(carts), c) && carts == old(carts))
        && (r.Success? ==> r.value !in old(carts) && carts == old(carts)[r.value := c])
    {
      var c := Cart(user, sessionKey, if status.Some? then status.value else Open);
      var e := CartInsertError(carts, c);
      if e.Some? {
        r := Failure(e.value);
      } else {
        CartInsertExact(carts, nextId, c);
        ItemsValidUnderNewCart(items, carts, nextId, c);
        r := Success(nextId);
        carts, nextId := carts[nextId := c], nextId + 1;
      }
    }

    /** Saves a new item; without a `quantity` it holds one unit. `variants` are the catalog's variant keys. */
    method AddItem(cart: Id, variant: Products.Id, quantity: Option<int>, variants: set<Products.Id>) returns (r: Result<Id, CartError>)
      requires Valid()
      modifies this
      ensures Valid()
      ensures carts == old(carts)
      ensures var it := CartItem(cart, variant, if quantity.Some? then quantity.value else 1);
        && (r.Failure? <==> ItemInsertError(old(items), old(carts), variants, it).Some?)
        && (r.Failure? ==> Some(r.error) == ItemInsertError(old(items), old(carts), variants, it) && items == old(items))
        && (r.Success? ==> r.value !in old(items) && items == old(items)[r.value := it])
    {
      var it := CartItem(cart, variant, if quantity.Some? then quantity.value else 1);
      var e := ItemInsertError(items, carts, variants, it);
      if e.Some? {
        r := Failure(e.value);
      } else {
        ItemInsertExact(items, carts, variants, nextId, it);
        r := Success(nextId);
        items, nextId := items[nextId := it], nextId + 1;
      }
    }
  }

  // ---------------------------------------------------------------------------
  // Examples
  // ---------------------------------------------------------------------------

  /** A user's second open cart without a session key is refused; a checked-out one is not. */
  lemma SecondOpenCartOfUser()
    ensures CartInsertError(map[1 := Cart(Some(7), "", Open)], Cart(Some(7), "", Open)) == Some(UniqueViolated("unique_open_cart_per_user"))
    ensures CartInsertError(map[1 := Cart(Some(7), "", Open)], Cart(Some(7), "", CheckedOut)).None?
    ensures CartInsertError(map[1 := Cart(Some(7), "", Open)], Cart(Some(8), "", Open)).None?
  {
    var carts := map[1 := Cart(Some(7), "", Open)];
    assert 1 in carts && OpenUserCart(carts[1]);
  }

  /** A session's second open anonymous cart is refused, and a cart with neither user nor session is refused. */
  lemma SecondOpenCartOfSession()
    ensures CartInsertError(map[1 := Cart(None, "s1", Open)], Cart(None, "s1", Open)) == Some(UniqueViolated("unique_open_cart_per_session"))
    ensures CartInsertError(map[], Cart(None, "", Open)) == Some(CheckViolated("cart_requires_user_or_session_key"))
  {
    var carts := map[1 := Cart(None, "s1", Open)];
    assert 1 in carts && OpenSessionCart(carts[1]);
  }

  /** The same variant may go once into each of two carts, but not twice into one. */
  lemma SameVariantInTwoCarts()
    ensures ItemInsertError(map[5 := CartItem(1, 9, 1)], map[1 := Cart(Some(7), "", Open), 2 := Cart(None, "s1", Open)], {9}, CartItem(2, 9, 1)).None?
    ensures ItemInsertError(map[5 := CartItem(1, 9, 1)], map[1 := Cart(Some(7), "", Open), 2 := Cart(None, "s1", Open)], {9}, CartItem(1, 9, 1))
      == Some(UniqueViolated("unique_variant_per_cart"))
  {
    var items := map[5 := CartItem(1, 9, 1)];
    assert 5 in items;
  }
}
