/**
 * The catalog as a mutable record store: one map per table, a counter that
 * hands out primary keys, and one method per kind of write. Each method is
 * proved against the functions of module Products: it refuses a record with
 * exactly the error the matching `...InsertError` function (or the
 * corrected link gate `LinkGate`, see `SaveLink`) names, it adds the record under a fresh key otherwise, and it keeps
 * `StoreValid`. The `sort_order` columns are filled in by `OrderField.PreSave`.
 */
module ProductStore {
  import opened Wrappers
  import opened Products
  import OrderField

  /** Every primary key in use is below `n`. */
  ghost predicate KeysBelow(s: Store, n: nat)
  {
    && (forall k :: k in s.categories ==> k < n)
    && (forall k :: k in s.attributes ==> k < n)
    && (forall k :: k in s.values ==> k < n)
    && (forall k :: k in s.products ==> k < n)
    && (forall k :: k in s.productAttributes ==> k < n)
    && (forall k :: k in s.variants ==> k < n)
    && (forall k :: k in s.links ==> k < n)
    && (forall k :: k in s.images ==> k < n)
  }

  /** The `sort_order` rows of attribute values, grouped by their attribute. */
  function ValueRows(vs: map<Id, AttributeValue>): (r: map<Id, OrderField.Row>)
    ensures r.Keys == vs.Keys
    ensures forall k :: k in vs ==> r[k].order == vs[k].sortOrder && OrderField.Lookup(r[k].fields, "attribute") == Some(vs[k].attribute)
  {
    map k | k in vs :: OrderField.Row(map["attribute" := vs[k].attribute], vs[k].sortOrder)
  }

  /** The `sort_order` rows of variants, grouped by their product. */
  function VariantRows(vs: map<Id, ProductVariant>): (r: map<Id, OrderField.Row>)
    ensures r.Keys == vs.Keys
    ensures forall k :: k in vs ==> r[k].order == vs[k].sortOrder && OrderField.Lookup(r[k].fields, "product") == Some(vs[k].product)
  {
    map k | k in vs :: OrderField.Row(map["product" := vs[k].product], vs[k].sortOrder)
  }

  /** The `sort_order` rows of images, grouped by their product. */
  function ImageRows(ims: map<Id, ProductImage>): (r: map<Id, OrderField.Row>)
    ensures r.Keys == ims.Keys
    ensures forall k :: k in ims ==> r[k].order == ims[k].sortOrder && OrderField.Lookup(r[k].fields, "product") == Some(ims[k].product)
  {
    map k | k in ims :: OrderField.Row(map["product" := ims[k].product], ims[k].sortOrder)
  }

  /** The order a new row gets: the one given, or `OrderField.PreSave`'s next free number in its group. */
  ghost predicate OrderChosen(rows: map<Id, OrderField.Row>, forFields: seq<string>, fields: map<string, int>, given: Option<nat>, order: nat)
  {
    && (given.Some? ==> order == given.value)
    && (given.None? ==> OrderField.IsNext(OrderField.GroupOrders(rows, forFields, fields), order))
  }

  /** `OrderField.PreSave` run on a fresh instance whose group fields are `fields`. */
  method NextOrder(rows: map<Id, OrderField.Row>, forFields: seq<string>, fields: map<string, int>, given: Option<nat>) returns (order: nat)
    ensures OrderChosen(rows, forFields, fields, given, order)
  {
    var instance := new OrderField.ModelInstance(fields, given);
    order := OrderField.PreSave(rows, forFields, instance);
  }

  // Each lemma below packages, for one kind of write, the proof that an
  // accepted record under the next key keeps the store valid and the keys
  // below the counter.

  lemma CategoryAdded(s: Store, n: nat, c: Category)
    requires StoreValid(s) && KeysBelow(s, n) && CategoryInsertError(s, c).None?
    ensures StoreValid(s.(categories := s.categories[n := c])) && KeysBelow(s.(categories := s.categories[n := c]), n + 1)
  {
    CategoryInsertExact(s, n, c);
  }

  lemma AttributeAdded(s: Store, n: nat, a: Attribute)
    requires StoreValid(s) && KeysBelow(s, n) && AttributeInsertError(s, a).None?
    ensures StoreValid(s.(attributes := s.attributes[n := a])) && KeysBelow(s.(attributes := s.attributes[n := a]), n + 1)
  {
    AttributeInsertExact(s, n, a);
  }

  lemma ValueAdded(s: Store, n: nat, v: AttributeValue)
    requires StoreValid(s) && KeysBelow(s, n) && ValueInsertError(s, v).None?
    ensures StoreValid(s.(values := s.values[n := v])) && KeysBelow(s.(values := s.values[n := v]), n + 1)
  {
    ValueInsertExact(s, n, v);
  }

  lemma ProductAdded(s: Store, n: nat, p: Product)
    requires StoreValid(s) && KeysBelow(s, n) && ProductInsertError(s, p).None?
    ensures StoreValid(s.(products := s.products[n := p])) && KeysBelow(s.(products := s.products[n := p]), n + 1)
  {
    ProductInsertExact(s, n, p);
  }

  lemma DeclarationAdded(s: Store, n: nat, pa: ProductAttribute)
    requires StoreValid(s) && KeysBelow(s, n) && ProductAttributeInsertError(s, pa).None?
    ensures StoreValid(s.(productAttributes := s.productAttributes[n := pa]))
    ensures KeysBelow(s.(productAttributes := s.productAttributes[n := pa]), n + 1)
  {
    ProductAttributeInsertExact(s, n, pa);
  }

  lemma VariantAdded(s: Store, n: nat, v: ProductVariant)
    requires StoreValid(s) && KeysBelow(s, n) && VariantInsertError(s, v).None?
    ensures StoreValid(s.(variants := s.variants[n := v])) && KeysBelow(s.(variants := s.variants[n := v]), n + 1)
    ensures ValueIds(s.links, n, None) == {}
  {
    VariantInsertExact(s, n, v);
    NewVariantHasNoValues(s, n);
  }

  lemma LinkSaved(s: Store, n: nat, pk: Option<Id>, key: Id, next: nat, variant: Id, value: Id)
    requires StoreValid(s) && KeysBelow(s, n)
    requires key == (if pk.Some? then pk.value else n)
    requires next == (if pk.None? then n + 1 else if pk.value < n then n else pk.value + 1)
    requires LinkGate(s, pk, variant, value) == Pass
    ensures KeyFor(s, pk, key)
    ensures StoreValid(Persist(s, key, variant, value)) && KeysBelow(Persist(s, key, variant, value), next)
  {
    LinkGatePreservesValid(s, pk, key, variant, value);
    KeysBelowGrows(s, n, next);
    LinkKeysBelow(s, next, key, variant, value);
  }

  lemma KeysBelowGrows(s: Store, n: nat, m: nat)
    requires KeysBelow(s, n) && n <= m
    ensures KeysBelow(s, m)
  {
  }

  lemma LinkKeysBelow(s: Store, n: nat, key: Id, variant: Id, value: Id)
    requires KeysBelow(s, n) && key < n
    ensures KeysBelow(Persist(s, key, variant, value), n)
  {
    assert Persist(s, key, variant, value).links.Keys == s.links.Keys + {key};
  }

  lemma ImageAdded(s: Store, n: nat, img: ProductImage, imageSize: nat)
    requires StoreValid(s) && KeysBelow(s, n)
    requires img.product in s.products && (img.variant.Some? ==> img.variant.value in s.variants) && img.altText != []
    requires ImageInsertError(s, img.product, img.variant, img.altText, imageSize).None?
    ensures StoreValid(s.(images := s.images[n := img])) && KeysBelow(s.(images := s.images[n := img]), n + 1)
  {
    ImageInsertPreserves(s, n, img, imageSize);
    ImageKeysBelow(s, n, img);
  }

  lemma ImageKeysBelow(s: Store, n: nat, img: ProductImage)
    requires KeysBelow(s, n)
    ensures KeysBelow(s.(images := s.images[n := img]), n + 1)
  {
  }

  // ---------------------------------------------------------------------------
  // Scans the link gate makes over the tables
  // ---------------------------------------------------------------------------

  /** The values linked to `variant`, leaving out link `exclude`, collected row by row. */
  method CollectValueIds(ls: map<Id, VariantValue>, variant: Id, exclude: Option<Id>) returns (ids: set<Id>)
    ensures ids == ValueIds(ls, variant, exclude)
  {
    ids := {};
    var rest := ls.Keys;
    while rest != {}
      invariant rest <= ls.Keys
      invariant ids == set k | k in ls && k !in rest && ls[k].variant == variant && Some(k) != exclude :: ls[k].value
      decreases rest
    {
      var k :| k in rest;
      if ls[k].variant == variant && Some(k) != exclude {
        ids := ids + {ls[k].value};
      }
      rest := rest - {k};
    }
  }

  /** Check 1's query: does the variant already hold, through a link other than `pk`, a value of `attribute`? */
  method FindValueFor(s: Store, variant: Id, attribute: Id, pk: Option<Id>) returns (found: bool)
    ensures found == HasValueFor(s, variant, attribute, pk)
  {
    found := false;
    var rest := s.links.Keys;
    while rest != {} && !found
      invariant rest <= s.links.Keys
      invariant found ==> HasValueFor(s, variant, attribute, pk)
      invariant !found ==> forall k :: k in s.links && k !in rest ==>
        !(Some(k) != pk && s.links[k].variant == variant && s.links[k].value in s.values && s.values[s.links[k].value].attribute == attribute)
      decreases rest
    {
      var k :| k in rest;
      var l := s.links[k];
      if Some(k) != pk && l.variant == variant && l.value in s.values && s.values[l.value].attribute == attribute {
        found := true;
      }
      rest := rest - {k};
    }
  }

  /** Check 2's query: is `attribute` among the product's attributes? */
  method FindDeclaration(pas: map<Id, ProductAttribute>, product: Id, attribute: Id) returns (found: bool)
    ensures found == Declares(pas, product, attribute)
  {
    found := false;
    var rest := pas.Keys;
    while rest != {} && !found
      invariant rest <= pas.Keys
      invariant found ==> Declares(pas, product, attribute)
      invariant !found ==> forall k :: k in pas && k !in rest ==> pas[k] != ProductAttribute(product, attribute)
      decreases rest
    {
      var k :| k in rest;
      if pas[k] == ProductAttribute(product, attribute) {
        found := true;
      }
      rest := rest - {k};
    }
  }

  /** The values variant `o` holds once link `pk` is saved as `(variant, value)`, collected row by row. */
  method CollectPostIds(s: Store, pk: Option<Id>, variant: Id, value: Id, o: Id) returns (ids: set<Id>)
    ensures ids == PostIds(s, pk, variant, value, o)
  {
    ids := CollectValueIds(s.links, o, pk);
    if o == variant {
      ids := ids + {value};
    }
  }

  /**
   * Check 3's loop: walks the variants of `product` other than `owner` and
   * compares each one's value set after the write with `ids`, counting first.
   */
  method FindTwin(s: Store, product: Id, owner: Id, pk: Option<Id>, variant: Id, value: Id, ids: set<Id>) returns (found: bool)
    ensures found == HasTwin(s, product, owner, pk, variant, value, ids)
  {
    found := false;
    var rest := s.variants.Keys;
    while rest != {} && !found
      invariant rest <= s.variants.Keys
      invariant found ==> HasTwin(s, product, owner, pk, variant, value, ids)
      invariant !found ==> forall o :: o in s.variants && o !in rest && o != owner && s.variants[o].product == product ==>
        PostIds(s, pk, variant, value, o) != ids
      decreases rest
    {
      var o :| o in rest;
      if o != owner && s.variants[o].product == product {
        var other := CollectPostIds(s, pk, variant, value, o);
        found := |other| == |ids| && other == ids;
      }
      rest := rest - {o};
    }
  }

  /**
   * The corrected gate `LinkGate`, run query by query: the two references,
   * check 1, check 2, then the value-set comparisons of check 3 made against
   * the state after the write, for the saved variant and, when the link
   * moves, for the variant it leaves. `RunLinkGateAsWritten` is `clean` as
   * the source writes it.
   */
  method RunLinkGate(s: Store, pk: Option<Id>, variant: Id, value: Id) returns (gate: Outcome<LinkError>)
    ensures gate == LinkGate(s, pk, variant, value)
  {
    if variant !in s.variants || value !in s.values {
      return Fail(LinkMissingReference);
    }
    var attribute := s.values[value].attribute;
    var product := s.variants[variant].product;
    var duplicate := FindValueFor(s, variant, attribute, pk);
    if duplicate {
      return Fail(DuplicateAttributeAssignment(AttributeName(s, attribute)));
    }
    var declared := FindDeclaration(s.productAttributes, product, attribute);
    if !declared {
      return Fail(AttributeNotApplicable(AttributeName(s, attribute), ProductName(s, product)));
    }
    var current := CollectValueIds(s.links, variant, pk);
    current := current + {value};
    var twin := FindTwin(s, product, variant, pk, variant, value, current);
    if twin {
      return Fail(DuplicateVariantCombination(ProductName(s, product)));
    }
    if pk.Some? && pk.value in s.links && s.links[pk.value].variant != variant {
      var previous := s.links[pk.value].variant;
      var remaining := CollectValueIds(s.links, previous, pk);
      if previous in s.variants && remaining != {} {
        var previousTwin := FindTwin(s, s.variants[previous].product, previous, pk, variant, value, remaining);
        if previousTwin {
          return Fail(DuplicateVariantCombination(ProductName(s, s.variants[previous].product)));
        }
      }
    }
    return Pass;
  }

  /**
   * Check 3's loop as written: walks the variants of `product` other than
   * `owner` and compares each one's value set as stored before the write
   * with `ids`, counting first.
   */
  method FindStoredTwin(s: Store, product: Id, owner: Id, ids: set<Id>) returns (found: bool)
    ensures found == HasStoredTwin(s, product, owner, ids)
  {
    found := false;
    var rest := s.variants.Keys;
    while rest != {} && !found
      invariant rest <= s.variants.Keys
      invariant found ==> HasStoredTwin(s, product, owner, ids)
      invariant !found ==> forall o :: o in s.variants && o !in rest && o != owner && s.variants[o].product == product ==>
        ValueIds(s.links, o, None) != ids
      decreases rest
    {
      var o :| o in rest;
      if o != owner && s.variants[o].product == product {
        var other := CollectValueIds(s.links, o, None);
        found := |other| == |ids| && other == ids;
      }
      rest := rest - {o};
    }
  }

  /**
   * `ProductVariantAttributeValue.clean` as the source writes it, query by
   * query: the two references; check 1, which leaves the link's own row out
   * only when `self.pk` is truthy; check 2; and check 3, which compares the
   * variant's new value set with each sibling's set as stored.
   */
  method RunLinkGateAsWritten(s: Store, pk: Option<Id>, variant: Id, value: Id) returns (gate: Outcome<LinkError>)
    ensures gate == LinkGateAsWritten(s, pk, variant, value)
  {
    if variant !in s.variants || value !in s.values {
      return Fail(LinkMissingReference);
    }
    var attribute := s.values[value].attribute;
    var product := s.variants[variant].product;
    var exclude := if pk.Some? && pk.value != 0 then pk else None;
    var duplicate := FindValueFor(s, variant, attribute, exclude);
    if duplicate {
      return Fail(DuplicateAttributeAssignment(AttributeName(s, attribute)));
    }
    var declared := FindDeclaration(s.productAttributes, product, attribute);
    if !declared {
      return Fail(AttributeNotApplicable(AttributeName(s, attribute), ProductName(s, product)));
    }
    var current := CollectValueIds(s.links, variant, pk);
    current := current + {value};
    var twin := FindStoredTwin(s, product, variant, current);
    if twin {
      return Fail(DuplicateVariantCombination(ProductName(s, product)));
    }
    return Pass;
  }

  // ---------------------------------------------------------------------------
  // The store
  // ---------------------------------------------------------------------------

  class Catalog {
    /** The tables, one map per model, keyed by primary key. */
    var store: Store
    /** The next primary key to hand out; like the table's identity column it starts at 1. */
    var nextId: nat

    ghost predicate Valid()
      reads this
    {
      StoreValid(store) && KeysBelow(store, nextId)
    }

    constructor ()
      ensures Valid()
      ensures store == Store(map[], map[], map[], map[], map[], map[], map[], map[])
      ensures nextId == 1
    {
      store := Store(map[], map[], map[], map[], map[], map[], map[], map[]);
      nextId := 1;
    }

    /** Saves a new category; a taken slug or name (ignoring case) refuses it. */
    method AddCategory(c: Category) returns (r: Result<Id, StoreError>)
      requires Valid()
      modifies this
      ensures Valid()
      ensures r.Failure? <==> CategoryInsertError(old(store), c).Some?
      ensures r.Failure? ==> Some(r.error) == CategoryInsertError(old(store), c) && store == old(store)
      ensures r.Success? ==> r.value !in old(store.categories) && store == old(store).(categories := old(store.categories)[r.value := c])
    {
      var e := CategoryInsertError(store, c);
      if e.Some? {
        return Failure(e.value);
      }
      CategoryAdded(store, nextId, c);
      var key := nextId;
      nextId := nextId + 1;
      store := store.(categories := store.categories[key := c]);
      return Success(key);
    }

    /** Saves a new attribute; a name taken ignoring case refuses it. */
    method AddAttribute(a: Attribute) returns (r: Result<Id, StoreError>)
      requires Valid()
      modifies this
      ensures Valid()
      ensures r.Failure? <==> AttributeInsertError(old(store), a).Some?
      ensures r.Failure? ==> Some(r.error) == AttributeInsertError(old(store), a) && store == old(store)
      ensures r.Success? ==> r.value !in old(store.attributes) && store == old(store).(attributes := old(store.attributes)[r.value := a])
    {
      var e := AttributeInsertError(store, a);
      if e.Some? {
        return Failure(e.value);
      }
      AttributeAdded(store, nextId, a);
      var key := nextId;
      nextId := nextId + 1;
      store := store.(attributes := store.attributes[key := a]);
      return Success(key);
    }

    /**
     * Saves a new value of `attribute`; without a `sortOrder` it goes after
     * the values of the same attribute.
     */
    method AddAttributeValue(attribute: Id, value: string, sortOrder: Option<nat>) returns (r: Result<Id, StoreError>)
      requires Valid()
      modifies this
      ensures Valid()
      ensures r.Failure? <==> ValueInsertError(old(store), AttributeValue(attribute, value, 0)).Some?
      ensures r.Failure? ==> Some(r.error) == ValueInsertError(old(store), AttributeValue(attribute, value, 0)) && store == old(store)
      ensures r.Success? ==> r.value !in old(store.values) && exists order ::
        && OrderChosen(ValueRows(old(store.values)), ["attribute"], map["attribute" := attribute], sortOrder, order)
        && store == old(store).(values := old(store.values)[r.value := AttributeValue(attribute, value, order)])
    {
      var e := ValueInsertError(store, AttributeValue(attribute, value, 0));
      if e.Some? {
        return Failure(e.value);
      }
      var order := NextOrder(ValueRows(store.values), ["attribute"], map["attribute" := attribute], sortOrder);
      var v := AttributeValue(attribute, value, order);
      assert ValueInsertError(store, v) == e;
      ValueAdded(store, nextId, v);
      var key := nextId;
      nextId := nextId + 1;
      store := store.(values := store.values[key := v]);
      assert OrderChosen(ValueRows(old(store.values)), ["attribute"], map["attribute" := attribute], sortOrder, order);
      return Success(key);
    }

    /** Saves a new product; a missing category, a price out of range, a taken slug or name refuses it. */
    method AddProduct(p: Product) returns (r: Result<Id, StoreError>)
      requires Valid()
      modifies this
      ensures Valid()
      ensures r.Failure? <==> ProductInsertError(old(store), p).Some?
      ensures r.Failure? ==> Some(r.error) == ProductInsertError(old(store), p) && store == old(store)
      ensures r.Success? ==> r.value !in old(store.products) && store == old(store).(products := old(store.products)[r.value := p])
    {
      var e := ProductInsertError(store, p);
      if e.Some? {
        return Failure(e.value);
      }
      ProductAdded(store, nextId, p);
      var key := nextId;
      nextId := nextId + 1;
      store := store.(products := store.products[key := p]);
      return Success(key);
    }

    /** Declares `attribute` on `product` (a row of the `Product.attributes` link table). */
    method DeclareAttribute(product: Id, attribute: Id) returns (r: Result<Id, StoreError>)
      requires Valid()
      modifies this
      ensures Valid()
      ensures r.Failure? <==> ProductAttributeInsertError(old(store), ProductAttribute(product, attribute)).Some?
      ensures r.Failure? ==> Some(r.error) == ProductAttributeInsertError(old(store), ProductAttribute(product, attribute)) && store == old(store)
      ensures r.Success? ==> r.value !in old(store.productAttributes)
      ensures r.Success? ==> store == old(store).(productAttributes := old(store.productAttributes)[r.value := ProductAttribute(product, attribute)])
    {
      var pa := ProductAttribute(product, attribute);
      var e := ProductAttributeInsertError(store, pa);
      if e.Some? {
        return Failure(e.value);
      }
      DeclarationAdded(store, nextId, pa);
      var key := nextId;
      nextId := nextId + 1;
      store := store.(productAttributes := store.productAttributes[key := pa]);
      return Success(key);
    }

    /**
     * Saves a new variant; without a `sortOrder` it goes after the variants
     * of the same product. A new variant holds no values yet.
     */
    method AddVariant(product: Id, sku: string, priceOverride: Option<int>, stockQuantity: nat, sortOrder: Option<nat>, isActive: bool)
      returns (r: Result<Id, StoreError>)
      requires Valid()
      modifies this
      ensures Valid()
      ensures r.Failure? <==> VariantInsertError(old(store), ProductVariant(product, sku, priceOverride, stockQuantity, 0, isActive)).Some?
      ensures r.Failure? ==> Some(r.error) == VariantInsertError(old(store), ProductVariant(product, sku, priceOverride, stockQuantity, 0, isActive))
      ensures r.Failure? ==> store == old(store)
      ensures r.Success? ==> r.value !in old(store.variants) && ValueIds(store.links, r.value, None) == {} && exists order ::
        && OrderChosen(VariantRows(old(store.variants)), ["product"], map["product" := product], sortOrder, order)
        && store == old(store).(variants := old(store.variants)[r.value := ProductVariant(product, sku, priceOverride, stockQuantity, order, isActive)])
    {
      var e := VariantInsertError(store, ProductVariant(product, sku, priceOverride, stockQuantity, 0, isActive));
      if e.Some? {
        return Failure(e.value);
      }
      var order := NextOrder(VariantRows(store.variants), ["product"], map["product" := product], sortOrder);
      var v := ProductVariant(product, sku, priceOverride, stockQuantity, order, isActive);
      assert VariantInsertError(store, v) == e;
      VariantAdded(store, nextId, v);
      var key := nextId;
      nextId := nextId + 1;
      store := store.(variants := store.variants[key := v]);
      assert OrderChosen(VariantRows(old(store.variants)), ["product"], map["product" := product], sortOrder, order);
      return Success(key);
    }

    /**
     * Saves link `pk` (a new one when `pk` is None) as `(variant, value)`
     * when the corrected gate `LinkGate` passes it; this differs from `clean`
     * as written (`RunLinkGateAsWritten`) on re-saves that move a link and
     * on a link stored under key 0. A primary key the table does not hold yet is
     * inserted under that key, as Django inserts an instance built with an
     * explicit primary key; the counter then moves past it.
     */
    method SaveLink(pk: Option<Id>, variant: Id, value: Id) returns (r: Result<Id, LinkError>)
      requires Valid()
      modifies this
      ensures Valid()
      ensures r.Success? <==> LinkGate(old(store), pk, variant, value) == Pass
      ensures r.Failure? ==> LinkGate(old(store), pk, variant, value) == Fail(r.error) && store == old(store)
      ensures r.Success? ==> KeyFor(old(store), pk, r.value) && store == Persist(old(store), r.value, variant, value)
    {
      var s := store;
      var gate := RunLinkGate(s, pk, variant, value);
      if gate.Fail? {
        return Failure(gate.error);
      }
      var key := if pk.Some? then pk.value else nextId;
      var next := if pk.None? then nextId + 1 else if pk.value < nextId then nextId else pk.value + 1;
      LinkSaved(s, nextId, pk, key, next, variant, value);
      store, nextId := Persist(s, key, variant, value), next;
      return Success(key);
    }

    /**
     * Saves a new image: an empty alt text is replaced by the default one
     * first, then the fields are validated and `clean` checks the variant's
     * product; without a `sortOrder` the image goes after the product's
     * other images. `imageSize` is the upload's size in bytes.
     */
    method SaveImage(product: Id, variant: Option<Id>, altText: string, sortOrder: Option<nat>, isActive: bool, imageSize: nat)
      returns (r: Result<Id, StoreError>)
      requires Valid()
      modifies this
      ensures Valid()
      ensures product !in old(store.products) ==> r == Failure(MissingReference("product")) && store == old(store)
      ensures product in old(store.products) && variant.Some? && variant.value !in old(store.variants) ==>
        r == Failure(MissingReference("variant")) && store == old(store)
      ensures product in old(store.products) && (variant.Some? ==> variant.value in old(store.variants)) ==>
        var alt := SavedAltText(old(store), product, variant, altText);
        && (r.Failure? <==> ImageInsertError(old(store), product, variant, alt, imageSize).Some?)
        && (r.Failure? ==> Some(r.error) == ImageInsertError(old(store), product, variant, alt, imageSize) && store == old(store))
        && (r.Success? ==> r.value !in old(store.images) && exists order ::
             && OrderChosen(ImageRows(old(store.images)), ["product"], map["product" := product], sortOrder, order)
             && store == old(store).(images := old(store.images)[r.value := ProductImage(product, variant, alt, order, isActive)]))
    {
      var s := store;
      if product !in s.products {
        r := Failure(MissingReference("product"));
      } else if variant.Some? && variant.value !in s.variants {
        r := Failure(MissingReference("variant"));
      } else {
        var alt := SavedAltText(s, product, variant, altText);
        var e := ImageInsertError(s, product, variant, alt, imageSize);
        if e.Some? {
          r := Failure(e.value);
        } else {
          var order := NextOrder(ImageRows(s.images), ["product"], map["product" := product], sortOrder);
          var img := ProductImage(product, variant, alt, order, isActive);
          ImageAdded(s, nextId, img, imageSize);
          r := Success(nextId);
          store, nextId := s.(images := s.images[nextId := img]), nextId + 1;
        }
      }
    }
  }
}
