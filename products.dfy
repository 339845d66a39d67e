/**
 * The catalog consistency rules of apps/products/models.py, stated over the
 * tables of the record store as values.
 *
 * A `Store` holds one map per table, keyed by primary key. `StoreValid` is
 * the conjunction of the database constraints (case-insensitive uniqueness
 * keys, foreign keys), the field validators on prices, and the three rules
 * that `ProductVariantAttributeValue.clean` guards. For each kind of record a
 * `...InsertError` function says why the store refuses a new record (None when
 * it accepts it), and a lemma proves that it refuses exactly the records that
 * would break `StoreValid`. The class in module ProductStore performs the
 * writes and is proved against these functions.
 */
module Products {
  import opened Wrappers
  import opened Text
  import Validators

  type Id = nat

  /** Prices are `DecimalField(max_digits=10, decimal_places=2)`, kept as integer cents: at most 99999999.99. */
  const PriceLimit: int := 10_000_000_000

  /** `CharField(max_length=255)` of `ProductImage.alt_text`. */
  const AltTextMaxLength: nat := 255

  /** The attribute groups an attribute may be tagged with. */
  datatype AttributeType =
    | Capacity | Color | Depth | Diameter | Height | Length | Material
    | Quantity | Size | Thickness | Volume | Weight | Width | Other

  datatype Category = Category(name: string, slug: string, description: string, isActive: bool)

  datatype Attribute = Attribute(name: string, attributeType: AttributeType, description: string)

  datatype AttributeValue = AttributeValue(attribute: Id, value: string, sortOrder: nat)

  datatype Product = Product(category: Id, name: string, slug: string, basePrice: int, isFeatured: bool, isActive: bool)

  /** A row of the product-to-attribute link table: the attribute is declared on the product. */
  datatype ProductAttribute = ProductAttribute(product: Id, attribute: Id)

  datatype ProductVariant = ProductVariant(product: Id, sku: string, priceOverride: Option<int>, stockQuantity: nat, sortOrder: nat, isActive: bool)

  /** A row of the variant-to-attribute-value link table. */
  datatype VariantValue = VariantValue(variant: Id, value: Id)

  datatype ProductImage = ProductImage(product: Id, variant: Option<Id>, altText: string, sortOrder: nat, isActive: bool)

  datatype Store = Store(
    categories: map<Id, Category>,
    attributes: map<Id, Attribute>,
    values: map<Id, AttributeValue>,
    products: map<Id, Product>,
    productAttributes: map<Id, ProductAttribute>,
    variants: map<Id, ProductVariant>,
    links: map<Id, VariantValue>,
    images: map<Id, ProductImage>)

  /** Why a write is refused. */
  datatype StoreError =
    | MissingReference(field: string)   // a foreign key that names no record
    | Duplicate(constraint: string)     // a uniqueness constraint, by its name or its unique column
    | Invalid(field: string)            // a field validator run by `full_clean`

  // ---------------------------------------------------------------------------
  // Uniqueness constraints (the `UniqueConstraint`s and `unique=True` columns)
  // ---------------------------------------------------------------------------

  /** Category: `slug` is unique, and so is `Lower("name")`. */
  ghost predicate CategoryKeysUnique(cs: map<Id, Category>)
  {
    forall i, j :: i in cs && j in cs && i != j ==>
      cs[i].slug != cs[j].slug && Lower(cs[i].name) != Lower(cs[j].name)
  }

  /** Attribute: `Lower("name")` is unique. */
  ghost predicate AttributeNamesUnique(attrs: map<Id, Attribute>)
  {
    forall i, j :: i in attrs && j in attrs && i != j ==> Lower(attrs[i].name) != Lower(attrs[j].name)
  }

  /** AttributeValue: `("attribute", Lower("value"))` is unique. */
  ghost predicate ValueKeysUnique(vs: map<Id, AttributeValue>)
  {
    forall i, j :: i in vs && j in vs && i != j && vs[i].attribute == vs[j].attribute ==>
      Lower(vs[i].value) != Lower(vs[j].value)
  }

  /** Product: `slug` is unique, and so is `("category", Lower("name"))`. */
  ghost predicate ProductKeysUnique(ps: map<Id, Product>)
  {
    forall i, j :: i in ps && j in ps && i != j ==>
      && ps[i].slug != ps[j].slug
      && (ps[i].category == ps[j].category ==> Lower(ps[i].name) != Lower(ps[j].name))
  }

  /** ProductAttribute: `("product", "attribute")` is unique. */
  ghost predicate ProductAttributesUnique(pas: map<Id, ProductAttribute>)
  {
    forall i, j :: i in pas && j in pas && i != j ==> pas[i] != pas[j]
  }

  /** ProductVariant: `sku` is unique. */
  ghost predicate SkusUnique(vs: map<Id, ProductVariant>)
  {
    forall i, j :: i in vs && j in vs && i != j ==> vs[i].sku != vs[j].sku
  }

  /** ProductVariantAttributeValue: `("product_variant", "attribute_value")` is unique. */
  ghost predicate LinksUnique(ls: map<Id, VariantValue>)
  {
    forall i, j :: i in ls && j in ls && i != j ==> ls[i] != ls[j]
  }

  // ---------------------------------------------------------------------------
  // Required fields and the slug validator
  // ---------------------------------------------------------------------------

  /** A character `validate_slug` admits: an ASCII letter or digit, a hyphen or an underscore. */
  predicate SlugChar(c: char) { IsUpper(c) || IsLower(c) || '0' <= c <= '9' || c == '-' || c == '_' }

  /** A non-blank `SlugField` value that passes `validate_slug`. */
  predicate IsSlug(t: string) { t != [] && forall i :: 0 <= i < |t| ==> SlugChar(t[i]) }

  /** Category: `name` is not blank and `slug` is a slug. */
  ghost predicate CategoriesFilled(cs: map<Id, Category>)
  {
    forall k :: k in cs ==> cs[k].name != [] && IsSlug(cs[k].slug)
  }

  /** Attribute: `name` is not blank. */
  ghost predicate AttributesFilled(attrs: map<Id, Attribute>)
  {
    forall k :: k in attrs ==> attrs[k].name != []
  }

  /** AttributeValue: `value` is not blank. */
  ghost predicate ValuesFilled(vs: map<Id, AttributeValue>)
  {
    forall k :: k in vs ==> vs[k].value != []
  }

  /** Product: `name` is not blank and `slug` is a slug. */
  ghost predicate ProductsFilled(ps: map<Id, Product>)
  {
    forall k :: k in ps ==> ps[k].name != [] && IsSlug(ps[k].slug)
  }

  /** ProductVariant: `sku` is not blank. */
  ghost predicate VariantsFilled(vs: map<Id, ProductVariant>)
  {
    forall k :: k in vs ==> vs[k].sku != []
  }

  // ---------------------------------------------------------------------------
  // Foreign keys and field validators
  // ---------------------------------------------------------------------------

  ghost predicate ValuesResolve(vs: map<Id, AttributeValue>, attrs: map<Id, Attribute>)
  {
    forall k :: k in vs ==> vs[k].attribute in attrs
  }

  ghost predicate ProductsResolve(ps: map<Id, Product>, cs: map<Id, Category>)
  {
    forall k :: k in ps ==> ps[k].category in cs
  }

  ghost predicate ProductAttributesResolve(pas: map<Id, ProductAttribute>, ps: map<Id, Product>, attrs: map<Id, Attribute>)
  {
    forall k :: k in pas ==> pas[k].product in ps && pas[k].attribute in attrs
  }

  ghost predicate VariantsResolve(vs: map<Id, ProductVariant>, ps: map<Id, Product>)
  {
    forall k :: k in vs ==> vs[k].product in ps
  }

  ghost predicate LinksResolve(ls: map<Id, VariantValue>, vs: map<Id, ProductVariant>, avs: map<Id, AttributeValue>)
  {
    forall k :: k in ls ==> ls[k].variant in vs && ls[k].value in avs
  }

  /** An image names an existing product, and its variant, when it has one, is a variant of that product; its alt text is never empty. */
  ghost predicate ImagesConsistent(ims: map<Id, ProductImage>, ps: map<Id, Product>, vs: map<Id, ProductVariant>)
  {
    forall k :: k in ims ==>
      && ims[k].product in ps
      && (ims[k].variant.Some? ==> ims[k].variant.value in vs && vs[ims[k].variant.value].product == ims[k].product)
      && ims[k].altText != []
  }

  /** A price passes `MinValueValidator(Decimal("0.00"))` and fits `max_digits=10, decimal_places=2`. */
  predicate PriceOk(cents: int) { 0 <= cents < PriceLimit }

  ghost predicate PricesInRange(ps: map<Id, Product>, vs: map<Id, ProductVariant>)
  {
    && (forall k :: k in ps ==> PriceOk(ps[k].basePrice))
    && (forall k :: k in vs && vs[k].priceOverride.Some? ==> PriceOk(vs[k].priceOverride.value))
  }

  // ---------------------------------------------------------------------------
  // The three rules on variant-to-value links
  // ---------------------------------------------------------------------------

  /** The attribute-value ids linked to `variant`, leaving out the link row `exclude`. */
  function ValueIds(ls: map<Id, VariantValue>, variant: Id, exclude: Option<Id>): set<Id>
  {
    set k | k in ls && ls[k].variant == variant && Some(k) != exclude :: ls[k].value
  }

  /** Rule 1: a variant holds at most one value per attribute. */
  ghost predicate OneValuePerAttribute(ls: map<Id, VariantValue>, avs: map<Id, AttributeValue>)
  {
    forall i, j :: i in ls && j in ls && i != j && ls[i].variant == ls[j].variant ==>
      ls[i].value in avs && ls[j].value in avs && avs[ls[i].value].attribute != avs[ls[j].value].attribute
  }

  /** There is a product-attribute link declaring `attribute` on `product`. */
  predicate Declares(pas: map<Id, ProductAttribute>, product: Id, attribute: Id)
  {
    exists k :: k in pas && pas[k] == ProductAttribute(product, attribute)
  }

  /** Rule 2: every linked value belongs to an attribute declared on the variant's product. */
  ghost predicate ValuesDeclared(ls: map<Id, VariantValue>, vs: map<Id, ProductVariant>, avs: map<Id, AttributeValue>, pas: map<Id, ProductAttribute>)
  {
    forall k :: k in ls && ls[k].variant in vs && ls[k].value in avs ==>
      Declares(pas, vs[ls[k].variant].product, avs[ls[k].value].attribute)
  }

  /** Rule 3: no variant with at least one value has the same value set as another variant of its product. */
  ghost predicate DistinctCombinations(ls: map<Id, VariantValue>, vs: map<Id, ProductVariant>)
  {
    forall v1, v2 {:trigger ValueIds(ls, v1, None), ValueIds(ls, v2, None)} ::
      v1 in vs && v2 in vs && v1 != v2 && vs[v1].product == vs[v2].product && ValueIds(ls, v1, None) != {} ==>
      ValueIds(ls, v1, None) != ValueIds(ls, v2, None)
  }

  /** Every constraint, reference and rule of the catalog holds. */
  ghost predicate StoreValid(s: Store)
  {
    && CategoryKeysUnique(s.categories)
    && AttributeNamesUnique(s.attributes)
    && ValueKeysUnique(s.values)
    && ProductKeysUnique(s.products)
    && ProductAttributesUnique(s.productAttributes)
    && SkusUnique(s.variants)
    && LinksUnique(s.links)
    && CategoriesFilled(s.categories)
    && AttributesFilled(s.attributes)
    && ValuesFilled(s.values)
    && ProductsFilled(s.products)
    && VariantsFilled(s.variants)
    && ValuesResolve(s.values, s.attributes)
    && ProductsResolve(s.products, s.categories)
    && ProductAttributesResolve(s.productAttributes, s.products, s.attributes)
    && VariantsResolve(s.variants, s.products)
    && LinksResolve(s.links, s.variants, s.values)
    && ImagesConsistent(s.images, s.products, s.variants)
    && PricesInRange(s.products, s.variants)
    && OneValuePerAttribute(s.links, s.values)
    && ValuesDeclared(s.links, s.variants, s.values, s.productAttributes)
    && DistinctCombinations(s.links, s.variants)
  }

  // ---------------------------------------------------------------------------
  // Effective price
  // ---------------------------------------------------------------------------

  /** `ProductVariant.price`: the override when it is set, otherwise the product's base price. */
  function Price(v: ProductVariant, p: Product): (r: int)
    ensures v.priceOverride == Some(r) || (v.priceOverride.None? && r == p.basePrice)
  {
    if v.priceOverride.Some? then v.priceOverride.value else p.basePrice
  }

  /** In a valid store every variant's price is a valid price of its product's table row, and it is the override exactly when one is set. */
  lemma VariantPriceInRange(s: Store, k: Id)
    requires StoreValid(s) && k in s.variants
    ensures s.variants[k].product in s.products
    ensures PriceOk(Price(s.variants[k], s.products[s.variants[k].product]))
    ensures s.variants[k].priceOverride.None? ==> Price(s.variants[k], s.products[s.variants[k].product]) == s.products[s.variants[k].product].basePrice
    ensures s.variants[k].priceOverride.Some? ==> Price(s.variants[k], s.products[s.variants[k].product]) == s.variants[k].priceOverride.value
  {
  }

  // ---------------------------------------------------------------------------
  // Inserts of plain records
  // ---------------------------------------------------------------------------

  /**
   * The first error `full_clean` raises for a new category: the blank name,
   * the slug validator, then the unique slug and the case-insensitive name.
   */
  function CategoryInsertError(s: Store, c: Category): (r: Option<StoreError>)
    ensures r.Some? ==> r.value in {Invalid("name"), Invalid("slug"), Duplicate("slug"), Duplicate("unique_category_name_case_insensitive")}
    ensures r.None? ==> c.name != [] && IsSlug(c.slug)
  {
    if c.name == [] then Some(Invalid("name"))
    else if !IsSlug(c.slug) then Some(Invalid("slug"))
    else if exists i :: i in s.categories && s.categories[i].slug == c.slug then Some(Duplicate("slug"))
    else if exists i :: i in s.categories && Lower(s.categories[i].name) == Lower(c.name) then Some(Duplicate("unique_category_name_case_insensitive"))
    else None
  }

  /** A new category is refused exactly when the store with it would break a constraint. */
  lemma {:induction false} CategoryInsertExact(s: Store, key: Id, c: Category)
    requires StoreValid(s) && key !in s.categories
    ensures CategoryInsertError(s, c).None? <==> StoreValid(s.(categories := s.categories[key := c]))
  {
    if CategoryInsertError(s, c).None? {
      CategoryAddedKeepsKeys(s.categories, key, c);
      CategoryAddedKeepsProducts(s.products, s.categories, key, c);
    } else if c.name == [] || !IsSlug(c.slug) {
      assert key in s.categories[key := c];
    } else {
      CategoryRefused(s.categories, key, c);
    }
  }

  /** Products keep resolving when a category is added. */
  lemma CategoryAddedKeepsProducts(ps: map<Id, Product>, cs: map<Id, Category>, key: Id, c: Category)
    requires ProductsResolve(ps, cs)
    ensures ProductsResolve(ps, cs[key := c])
  {
  }

  /** A category whose slug or name, ignoring case, is taken would break the category keys. */
  lemma CategoryRefused(cs: map<Id, Category>, key: Id, c: Category)
    requires key !in cs
    requires exists i :: i in cs && (cs[i].slug == c.slug || Lower(cs[i].name) == Lower(c.name))
    ensures !CategoryKeysUnique(cs[key := c])
  {
    var cs' := cs[key := c];
    var i :| i in cs && (cs[i].slug == c.slug || Lower(cs[i].name) == Lower(c.name));
    assert i in cs' && i != key && cs'[i] == cs[i] && cs'[key] == c;
  }

  /** A category whose slug and name are both new keeps the category keys unique. */
  lemma {:induction false} CategoryAddedKeepsKeys(cs: map<Id, Category>, key: Id, c: Category)
    requires key !in cs && CategoryKeysUnique(cs)
    requires forall i :: i in cs ==> cs[i].slug != c.slug && Lower(cs[i].name) != Lower(c.name)
    ensures CategoryKeysUnique(cs[key := c])
  {
    var cs' := cs[key := c];
    forall i, j | i in cs' && j in cs' && i != j
      ensures cs'[i].slug != cs'[j].slug && Lower(cs'[i].name) != Lower(cs'[j].name)
    {
      if i != key && j != key {
        assert cs'[i] == cs[i] && cs'[j] == cs[j];
      }
    }
  }

  /** The first error `full_clean` raises for a new attribute: the blank name, then the case-insensitive name. */
  function AttributeInsertError(s: Store, a: Attribute): (r: Option<StoreError>)
    ensures r.Some? ==> r.value in {Invalid("name"), Duplicate("unique_attribute_name_case_insensitive")}
    ensures r.None? ==> a.name != []
  {
    if a.name == [] then Some(Invalid("name"))
    else if exists i :: i in s.attributes && Lower(s.attributes[i].name) == Lower(a.name) then Some(Duplicate("unique_attribute_name_case_insensitive"))
    else None
  }

  /** A new attribute is refused exactly when its name collides, ignoring case, with an existing one. */
  lemma {:induction false} AttributeInsertExact(s: Store, key: Id, a: Attribute)
    requires StoreValid(s) && key !in s.attributes
    ensures AttributeInsertError(s, a).None? <==> StoreValid(s.(attributes := s.attributes[key := a]))
  {
    var attrs' := s.attributes[key := a];
    if AttributeInsertError(s, a).None? {
      AttributeAddedKeepsNames(s.attributes, key, a);
      AttributeAddedKeepsReferences(s.values, s.productAttributes, s.products, s.attributes, key, a);
      assert AttributesFilled(attrs');
    } else if a.name == [] {
      assert !AttributesFilled(attrs') by {
        assert key in attrs' && attrs'[key].name == [];
      }
    } else {
      AttributeRefused(s.attributes, key, a);
    }
  }

  /** Values and declarations keep resolving when an attribute is added. */
  lemma AttributeAddedKeepsReferences(vs: map<Id, AttributeValue>, pas: map<Id, ProductAttribute>, ps: map<Id, Product>,
                                      attrs: map<Id, Attribute>, key: Id, a: Attribute)
    requires ValuesResolve(vs, attrs) && ProductAttributesResolve(pas, ps, attrs)
    ensures ValuesResolve(vs, attrs[key := a]) && ProductAttributesResolve(pas, ps, attrs[key := a])
  {
  }

  /** An attribute whose name is taken, ignoring case, would break attribute name uniqueness. */
  lemma AttributeRefused(attrs: map<Id, Attribute>, key: Id, a: Attribute)
    requires key !in attrs
    requires exists i :: i in attrs && Lower(attrs[i].name) == Lower(a.name)
    ensures !AttributeNamesUnique(attrs[key := a])
  {
    var attrs' := attrs[key := a];
    var i :| i in attrs && Lower(attrs[i].name) == Lower(a.name);
    assert i in attrs' && i != key && attrs'[i] == attrs[i] && attrs'[key] == a;
  }

  /** An attribute whose name is new, ignoring case, keeps attribute names unique. */
  lemma {:induction false} AttributeAddedKeepsNames(attrs: map<Id, Attribute>, key: Id, a: Attribute)
    requires key !in attrs && AttributeNamesUnique(attrs)
    requires forall i :: i in attrs ==> Lower(attrs[i].name) != Lower(a.name)
    ensures AttributeNamesUnique(attrs[key := a])
  {
    var attrs' := attrs[key := a];
    forall i, j | i in attrs' && j in attrs' && i != j
      ensures Lower(attrs'[i].name) != Lower(attrs'[j].name)
    {
      if i != key && j != key {
        assert attrs'[i] == attrs[i] && attrs'[j] == attrs[j];
      }
    }
  }

  /** The first error `full_clean` raises for a new attribute value: the attribute reference, the blank value, then the per-attribute case-insensitive value. */
  function ValueInsertError(s: Store, v: AttributeValue): (r: Option<StoreError>)
    ensures r.Some? ==> r.value in {MissingReference("attribute"), Invalid("value"), Duplicate("unique_attribute_value_per_attribute")}
    ensures r.None? ==> v.attribute in s.attributes && v.value != []
  {
    if v.attribute !in s.attributes then Some(MissingReference("attribute"))
    else if v.value == [] then Some(Invalid("value"))
    else if exists i :: i in s.values && s.values[i].attribute == v.attribute && Lower(s.values[i].value) == Lower(v.value) then Some(Duplicate("unique_attribute_value_per_attribute"))
    else None
  }

  /** A new attribute value is refused exactly when its attribute is missing or the attribute already has the same value ignoring case. */
  lemma {:induction false} ValueInsertExact(s: Store, key: Id, v: AttributeValue)
    requires StoreValid(s) && key !in s.values
    ensures ValueInsertError(s, v).None? <==> StoreValid(s.(values := s.values[key := v]))
  {
    if ValueInsertError(s, v).None? {
      ValueAddedKeepsKeys(s.values, s.attributes, key, v);
      ValueAddedKeepsLinkRules(s.links, s.variants, s.values, s.productAttributes, key, v);
    } else {
      ValueRefused(s, key, v);
    }
  }

  /** An accepted value keeps the value table's key unique and resolved. */
  lemma {:induction false} ValueAddedKeepsKeys(avs: map<Id, AttributeValue>, attrs: map<Id, Attribute>, key: Id, v: AttributeValue)
    requires key !in avs && ValueKeysUnique(avs) && ValuesResolve(avs, attrs) && v.attribute in attrs
    requires forall i :: i in avs && avs[i].attribute == v.attribute ==> Lower(avs[i].value) != Lower(v.value)
    ensures ValueKeysUnique(avs[key := v]) && ValuesResolve(avs[key := v], attrs)
  {
    var avs' := avs[key := v];
    forall i, j | i in avs' && j in avs' && i != j && avs'[i].attribute == avs'[j].attribute
      ensures Lower(avs'[i].value) != Lower(avs'[j].value)
    {
      if i != key && j != key {
        assert avs'[i] == avs[i] && avs'[j] == avs[j];
      }
    }
  }

  /** A refused value would break the key or the attribute reference. */
  lemma {:induction false} ValueRefused(s: Store, key: Id, v: AttributeValue)
    requires key !in s.values && ValueInsertError(s, v).Some?
    ensures !ValueKeysUnique(s.values[key := v]) || !ValuesResolve(s.values[key := v], s.attributes) || !ValuesFilled(s.values[key := v])
  {
    var avs' := s.values[key := v];
    if v.attribute in s.attributes && v.value == [] {
      assert key in avs' && avs'[key].value == [];
    } else if v.attribute in s.attributes {
      var i :| i in s.values && s.values[i].attribute == v.attribute && Lower(s.values[i].value) == Lower(v.value);
      assert i in avs' && i != key && avs'[i] == s.values[i] && avs'[key] == v;
    } else {
      assert key in avs' && avs'[key].attribute !in s.attributes;
    }
  }

  /** Adding an attribute value that no link uses yet keeps the link rules. */
  lemma {:induction false} ValueAddedKeepsLinkRules(ls: map<Id, VariantValue>, vs: map<Id, ProductVariant>, avs: map<Id, AttributeValue>, pas: map<Id, ProductAttribute>, key: Id, v: AttributeValue)
    requires key !in avs && LinksResolve(ls, vs, avs) && OneValuePerAttribute(ls, avs) && ValuesDeclared(ls, vs, avs, pas)
    ensures LinksResolve(ls, vs, avs[key := v]) && OneValuePerAttribute(ls, avs[key := v]) && ValuesDeclared(ls, vs, avs[key := v], pas)
  {
    var avs' := avs[key := v];
    forall k | k in ls ensures ls[k].value != key && avs'[ls[k].value] == avs[ls[k].value] {
      assert ls[k].value in avs;
    }
  }

  /**
   * The first error `full_clean` raises for a new product: the fields in
   * their declared order (category, name, slug, base price), then the unique
   * slug and the case-insensitive name within the category.
   */
  function ProductInsertError(s: Store, p: Product): (r: Option<StoreError>)
    ensures r.Some? ==> r.value in {MissingReference("category"), Invalid("name"), Invalid("slug"), Invalid("base_price"),
                                    Duplicate("slug"), Duplicate("unique_product_name_per_category_case_insensitive")}
    ensures r.None? ==> p.category in s.categories && p.name != [] && IsSlug(p.slug) && PriceOk(p.basePrice)
  {
    if p.category !in s.categories then Some(MissingReference("category"))
    else if p.name == [] then Some(Invalid("name"))
    else if !IsSlug(p.slug) then Some(Invalid("slug"))
    else if !PriceOk(p.basePrice) then Some(Invalid("base_price"))
    else if exists i :: i in s.products && s.products[i].slug == p.slug then Some(Duplicate("slug"))
    else if exists i :: i in s.products && s.products[i].category == p.category && Lower(s.products[i].name) == Lower(p.name) then Some(Duplicate("unique_product_name_per_category_case_insensitive"))
    else None
  }

  /** A new product is refused exactly when it would break a constraint: names repeat freely across categories but not, ignoring case, within one. */
  lemma {:induction false} ProductInsertExact(s: Store, key: Id, p: Product)
    requires StoreValid(s) && key !in s.products
    ensures ProductInsertError(s, p).None? <==> StoreValid(s.(products := s.products[key := p]))
  {
    if ProductInsertError(s, p).None? {
      ProductAddedKeepsKeys(s.products, key, p);
      ProductAddedKeepsReferences(s, key, p);
    } else {
      ProductRefused(s, key, p);
    }
  }

  /** A product whose slug is new and whose name is new to its category keeps the product keys unique. */
  lemma {:induction false} ProductAddedKeepsKeys(ps: map<Id, Product>, key: Id, p: Product)
    requires key !in ps && ProductKeysUnique(ps)
    requires forall i :: i in ps ==> ps[i].slug != p.slug
    requires forall i :: i in ps && ps[i].category == p.category ==> Lower(ps[i].name) != Lower(p.name)
    ensures ProductKeysUnique(ps[key := p])
  {
    var ps' := ps[key := p];
    forall i, j | i in ps' && j in ps' && i != j
      ensures ps'[i].slug != ps'[j].slug
      ensures ps'[i].category == ps'[j].category ==> Lower(ps'[i].name) != Lower(ps'[j].name)
    {
      if i != key && j != key {
        assert ps'[i] == ps[i] && ps'[j] == ps[j];
      }
    }
  }

  /** Adding a product in an existing category with a price in range keeps every reference and price valid. */
  lemma {:induction false} ProductAddedKeepsReferences(s: Store, key: Id, p: Product)
    requires key !in s.products && p.category in s.categories && PriceOk(p.basePrice)
    requires ProductsResolve(s.products, s.categories) && PricesInRange(s.products, s.variants)
    requires ProductAttributesResolve(s.productAttributes, s.products, s.attributes) && VariantsResolve(s.variants, s.products)
    requires ImagesConsistent(s.images, s.products, s.variants)
    ensures var ps' := s.products[key := p];
      && ProductsResolve(ps', s.categories) && PricesInRange(ps', s.variants)
      && ProductAttributesResolve(s.productAttributes, ps', s.attributes) && VariantsResolve(s.variants, ps')
      && ImagesConsistent(s.images, ps', s.variants)
  {
  }

  /** A refused product would break a key, its category reference or the price range. */
  lemma {:induction false} ProductRefused(s: Store, key: Id, p: Product)
    requires key !in s.products && ProductInsertError(s, p).Some?
    ensures var ps' := s.products[key := p];
      !ProductKeysUnique(ps') || !ProductsResolve(ps', s.categories) || !PricesInRange(ps', s.variants) || !ProductsFilled(ps')
  {
    var ps' := s.products[key := p];
    assert key in ps' && ps'[key] == p;
    if p.category in s.categories && p.name != [] && IsSlug(p.slug) && PriceOk(p.basePrice) {
      var i :| i in s.products && (s.products[i].slug == p.slug || (s.products[i].category == p.category && Lower(s.products[i].name) == Lower(p.name)));
      assert i in ps' && i != key && ps'[i] == s.products[i];
    }
  }

  /** The first error `full_clean` raises for a new declaration: the two references, then the unique pair. */
  function ProductAttributeInsertError(s: Store, pa: ProductAttribute): (r: Option<StoreError>)
    ensures r.Some? ==> r.value in {MissingReference("product"), MissingReference("attribute"), Duplicate("unique_product_attribute_link")}
    ensures r.None? ==> pa.product in s.products && pa.attribute in s.attributes
  {
    if pa.product !in s.products then Some(MissingReference("product"))
    else if pa.attribute !in s.attributes then Some(MissingReference("attribute"))
    else if exists i :: i in s.productAttributes && s.productAttributes[i] == pa then Some(Duplicate("unique_product_attribute_link"))
    else None
  }

  /** Declaring an attribute on a product is refused exactly when a reference is missing or the pair is already declared. */
  lemma {:induction false} ProductAttributeInsertExact(s: Store, key: Id, pa: ProductAttribute)
    requires StoreValid(s) && key !in s.productAttributes
    ensures ProductAttributeInsertError(s, pa).None? <==> StoreValid(s.(productAttributes := s.productAttributes[key := pa]))
  {
    if ProductAttributeInsertError(s, pa).None? {
      DeclarationAddedKeepsKeys(s.productAttributes, s.products, s.attributes, key, pa);
      DeclarationAddedKeepsRule2(s.links, s.variants, s.values, s.productAttributes, key, pa);
    } else {
      DeclarationRefused(s, key, pa);
    }
  }

  /** A new declaration of existing records keeps the declarations unique and resolved. */
  lemma {:induction false} DeclarationAddedKeepsKeys(pas: map<Id, ProductAttribute>, ps: map<Id, Product>, attrs: map<Id, Attribute>, key: Id, pa: ProductAttribute)
    requires key !in pas && ProductAttributesUnique(pas) && ProductAttributesResolve(pas, ps, attrs)
    requires pa.product in ps && pa.attribute in attrs && forall i :: i in pas ==> pas[i] != pa
    ensures ProductAttributesUnique(pas[key := pa]) && ProductAttributesResolve(pas[key := pa], ps, attrs)
  {
    var pas' := pas[key := pa];
    forall i, j | i in pas' && j in pas' && i != j
      ensures pas'[i] != pas'[j]
    {
      if i != key && j != key {
        assert pas'[i] == pas[i] && pas'[j] == pas[j];
      } else if i == key {
        assert j in pas && pas[j] == pas'[j];
      } else {
        assert i in pas && pas[i] == pas'[i];
      }
    }
  }

  /** A refused declaration would be a duplicate or name a missing record. */
  lemma {:induction false} DeclarationRefused(s: Store, key: Id, pa: ProductAttribute)
    requires key !in s.productAttributes && ProductAttributeInsertError(s, pa).Some?
    ensures var pas' := s.productAttributes[key := pa];
      !ProductAttributesUnique(pas') || !ProductAttributesResolve(pas', s.products, s.attributes)
  {
    var pas' := s.productAttributes[key := pa];
    assert key in pas' && pas'[key] == pa;
    if pa.product in s.products && pa.attribute in s.attributes {
      var i :| i in s.productAttributes && s.productAttributes[i] == pa;
      assert i in pas' && i != key && pas'[i] == pa;
    }
  }

  /** Declaring one more attribute on a product never withdraws a declaration. */
  lemma {:induction false} DeclarationAddedKeepsRule2(ls: map<Id, VariantValue>, vs: map<Id, ProductVariant>, avs: map<Id, AttributeValue>, pas: map<Id, ProductAttribute>, key: Id, pa: ProductAttribute)
    requires key !in pas && ValuesDeclared(ls, vs, avs, pas)
    ensures ValuesDeclared(ls, vs, avs, pas[key := pa])
  {
    forall k | k in ls && ls[k].variant in vs && ls[k].value in avs
      ensures Declares(pas[key := pa], vs[ls[k].variant].product, avs[ls[k].value].attribute)
    {
      var w :| w in pas && pas[w] == ProductAttribute(vs[ls[k].variant].product, avs[ls[k].value].attribute);
      assert w in pas[key := pa] && pas[key := pa][w] == pas[w];
    }
  }

  /** The first error `full_clean` raises for a new variant: the fields in their declared order (product, SKU, price override), then the unique SKU. */
  function VariantInsertError(s: Store, v: ProductVariant): (r: Option<StoreError>)
    ensures r.Some? ==> r.value in {MissingReference("product"), Invalid("sku"), Invalid("price_override"), Duplicate("sku")}
    ensures r.None? ==> v.product in s.products && v.sku != [] && (v.priceOverride.Some? ==> PriceOk(v.priceOverride.value))
  {
    if v.product !in s.products then Some(MissingReference("product"))
    else if v.sku == [] then Some(Invalid("sku"))
    else if v.priceOverride.Some? && !PriceOk(v.priceOverride.value) then Some(Invalid("price_override"))
    else if exists i :: i in s.variants && s.variants[i].sku == v.sku then Some(Duplicate("sku"))
    else None
  }

  /** A variant with no links yet has an empty value set. */
  lemma {:induction false} NewVariantHasNoValues(s: Store, key: Id)
    requires LinksResolve(s.links, s.variants, s.values) && key !in s.variants
    ensures ValueIds(s.links, key, None) == {}
  {
    forall k | k in s.links ensures s.links[k].variant != key {
      assert s.links[k].variant in s.variants;
    }
  }

  /** A new variant is refused exactly when its product is missing, its override is not a valid price, or its SKU is taken. */
  lemma {:induction false} VariantInsertExact(s: Store, key: Id, v: ProductVariant)
    requires StoreValid(s) && key !in s.variants
    ensures VariantInsertError(s, v).None? <==> StoreValid(s.(variants := s.variants[key := v]))
  {
    if VariantInsertError(s, v).None? {
      VariantAddedKeepsKeys(s.variants, s.products, key, v);
      VariantAddedKeepsLinkRules(s.links, s.variants, s.values, s.productAttributes, key, v);
      VariantAddedKeepsImages(s.images, s.products, s.variants, key, v);
    } else {
      VariantRefused(s, key, v);
    }
  }

  /** A variant of an existing product with a new SKU and a valid override keeps SKUs unique, references resolved and prices in range. */
  lemma {:induction false} VariantAddedKeepsKeys(vs: map<Id, ProductVariant>, ps: map<Id, Product>, key: Id, v: ProductVariant)
    requires key !in vs && SkusUnique(vs) && VariantsResolve(vs, ps) && PricesInRange(ps, vs)
    requires v.product in ps && (v.priceOverride.Some? ==> PriceOk(v.priceOverride.value))
    requires forall i :: i in vs ==> vs[i].sku != v.sku
    ensures SkusUnique(vs[key := v]) && VariantsResolve(vs[key := v], ps) && PricesInRange(ps, vs[key := v])
  {
    var vs' := vs[key := v];
    forall i, j | i in vs' && j in vs' && i != j
      ensures vs'[i].sku != vs'[j].sku
    {
      if i != key && j != key {
        assert vs'[i] == vs[i] && vs'[j] == vs[j];
      }
    }
  }

  /** A refused variant would name a missing product, break the price range or repeat a SKU. */
  lemma {:induction false} VariantRefused(s: Store, key: Id, v: ProductVariant)
    requires key !in s.variants && VariantInsertError(s, v).Some?
    ensures var vs' := s.variants[key := v];
      !SkusUnique(vs') || !VariantsResolve(vs', s.products) || !PricesInRange(s.products, vs') || !VariantsFilled(vs')
  {
    var vs' := s.variants[key := v];
    assert key in vs' && vs'[key] == v;
    if v.product in s.products && v.sku != [] && (v.priceOverride.Some? ==> PriceOk(v.priceOverride.value)) {
      var i :| i in s.variants && s.variants[i].sku == v.sku;
      assert i in vs' && i != key && vs'[i] == s.variants[i];
    }
  }

  /** A variant without links leaves the link rules as they were. */
  lemma {:induction false} VariantAddedKeepsLinkRules(ls: map<Id, VariantValue>, vs: map<Id, ProductVariant>, avs: map<Id, AttributeValue>, pas: map<Id, ProductAttribute>, key: Id, v: ProductVariant)
    requires key !in vs && LinksResolve(ls, vs, avs) && ValuesDeclared(ls, vs, avs, pas) && DistinctCombinations(ls, vs)
    ensures LinksResolve(ls, vs[key := v], avs) && ValuesDeclared(ls, vs[key := v], avs, pas) && DistinctCombinations(ls, vs[key := v])
  {
    var vs' := vs[key := v];
    forall k | k in ls ensures ls[k].variant != key && vs'[ls[k].variant] == vs[ls[k].variant] {
      assert ls[k].variant in vs;
    }
    assert ValueIds(ls, key, None) == {} by {
      forall k | k in ls ensures ls[k].variant != key {
        assert ls[k].variant in vs;
      }
    }
    forall v1, v2 | v1 in vs' && v2 in vs' && v1 != v2 && vs'[v1].product == vs'[v2].product && ValueIds(ls, v1, None) != {}
      ensures ValueIds(ls, v1, None) != ValueIds(ls, v2, None)
    {
      assert v1 != key;
      if v2 != key {
        assert vs'[v1] == vs[v1] && vs'[v2] == vs[v2];
      }
    }
  }

  /** Images keep pointing at the same variants when a variant is added. */
  lemma {:induction false} VariantAddedKeepsImages(ims: map<Id, ProductImage>, ps: map<Id, Product>, vs: map<Id, ProductVariant>, key: Id, v: ProductVariant)
    requires key !in vs && ImagesConsistent(ims, ps, vs)
    ensures ImagesConsistent(ims, ps, vs[key := v])
  {
    forall k | k in ims && ims[k].variant.Some? ensures ims[k].variant.value != key {
    }
  }

  // ---------------------------------------------------------------------------
  // Images
  // ---------------------------------------------------------------------------

  /** The upload limit on `ProductImage.image`: `FileSizeValidator(max_size=5, unit="MB")`. */
  const ImageSizeValidator: Validators.FileSizeValidator :=
    Validators.FileSizeValidator(5, "MB", Validators.DefaultMessage, Validators.DefaultCode)

  /**
   * The image limit is the validator `FileSizeValidator(max_size=5, unit="MB")`
   * builds, and it admits 5 MiB and not a byte more.
   */
  lemma ImageSizeLimit()
    ensures Validators.New(5, "MB", None, None) == Success(ImageSizeValidator)
    ensures Validators.Validate(ImageSizeValidator, 5 * 1024 * 1024).None?
    ensures Validators.Validate(ImageSizeValidator, 5 * 1024 * 1024 + 1).Some?
  {
    assert Upper("MB") == "MB";
  }

  /** The default alt text `ProductImage.save` writes when none is given. */
  function DefaultAltText(slug: string, sku: Option<string>): (r: string)
    ensures |r| >= 9 + |slug| && r[..9] == "Image of " && r[9..9 + |slug|] == slug
    ensures sku.None? ==> |r| == 9 + |slug|
    ensures sku.Some? ==> r[9 + |slug|..] == " (SKU: " + sku.value + ")"
  {
    if sku.Some? then "Image of " + slug + " (SKU: " + sku.value + ")" else "Image of " + slug
  }

  /** The alt text after `ProductImage.save` has filled it in: a given text is kept, an empty one is replaced. */
  function SavedAltText(s: Store, product: Id, variant: Option<Id>, altText: string): (r: string)
    requires product in s.products
    requires variant.Some? ==> variant.value in s.variants
    ensures altText != [] ==> r == altText
    ensures altText == [] && variant.None? ==> r == "Image of " + s.products[product].slug
    ensures altText == [] && variant.Some? ==> r == "Image of " + s.products[product].slug + " (SKU: " + s.variants[variant.value].sku + ")"
    ensures r != []
  {
    if altText != [] then altText
    else DefaultAltText(s.products[product].slug, if variant.Some? then Some(s.variants[variant.value].sku) else None)
  }

  /**
   * Why `ProductImage.save` refuses an image whose (already defaulted) alt
   * text is `alt`: field validation first (references, the upload size, the
   * alt text's length), then `clean`'s check that the variant belongs to the
   * image's product.
   */
  function ImageInsertError(s: Store, product: Id, variant: Option<Id>, alt: string, imageSize: nat): (r: Option<StoreError>)
    ensures r.Some? ==> r.value in {MissingReference("product"), MissingReference("variant"), Invalid("image"), Invalid("alt_text"), Invalid("variant")}
    ensures r.None? ==> product in s.products && imageSize <= 5 * 1024 * 1024 && |alt| <= AltTextMaxLength
    ensures r.None? && variant.Some? ==> variant.value in s.variants && s.variants[variant.value].product == product
  {
    if product !in s.products then Some(MissingReference("product"))
    else if variant.Some? && variant.value !in s.variants then Some(MissingReference("variant"))
    else if Validators.Validate(ImageSizeValidator, imageSize).Some? then Some(Invalid("image"))
    else if |alt| > AltTextMaxLength then Some(Invalid("alt_text"))
    else if variant.Some? && s.variants[variant.value].product != product then Some(Invalid("variant"))
    else None
  }

  /** An accepted image keeps the store valid; an image whose variant belongs to another product is always refused. */
  lemma {:induction false} ImageInsertPreserves(s: Store, key: Id, img: ProductImage, imageSize: nat)
    requires StoreValid(s) && key !in s.images
    requires img.product in s.products && (img.variant.Some? ==> img.variant.value in s.variants)
    requires img.altText != []
    ensures img.variant.Some? && s.variants[img.variant.value].product != img.product ==>
      ImageInsertError(s, img.product, img.variant, img.altText, imageSize).Some?
    ensures ImageInsertError(s, img.product, img.variant, img.altText, imageSize).None? ==>
      StoreValid(s.(images := s.images[key := img]))
  {
    if ImageInsertError(s, img.product, img.variant, img.altText, imageSize).None? {
      ImageAddedKeepsImages(s.images, s.products, s.variants, key, img);
    }
  }

  /** A consistent image added to consistent images keeps them consistent. */
  lemma ImageAddedKeepsImages(ims: map<Id, ProductImage>, ps: map<Id, Product>, vs: map<Id, ProductVariant>, key: Id, img: ProductImage)
    requires ImagesConsistent(ims, ps, vs)
    requires img.product in ps && img.altText != []
    requires img.variant.Some? ==> img.variant.value in vs && vs[img.variant.value].product == img.product
    ensures ImagesConsistent(ims[key := img], ps, vs)
  {
  }

  // ---------------------------------------------------------------------------
  // The gate on variant-to-value links
  // ---------------------------------------------------------------------------

  /** The errors `ProductVariantAttributeValue.clean` raises, with the names its messages quote. */
  datatype LinkError =
    | LinkMissingReference
    | DuplicateAttributeAssignment(attribute: string)
    | AttributeNotApplicable(attribute: string, product: string)
    | DuplicateVariantCombination(product: string)

  function AttributeName(s: Store, a: Id): string
  {
    if a in s.attributes then s.attributes[a].name else ""
  }

  function ProductName(s: Store, p: Id): string
  {
    if p in s.products then s.products[p].name else ""
  }

  /** Check 1: the variant has a link other than `pk` whose value belongs to `attribute`. */
  predicate HasValueFor(s: Store, variant: Id, attribute: Id, pk: Option<Id>)
  {
    exists k :: k in s.links && Some(k) != pk && s.links[k].variant == variant
      && s.links[k].value in s.values && s.values[s.links[k].value].attribute == attribute
  }

  /** The value set variant `o` holds once link `pk` is saved as `(variant, value)`. */
  function PostIds(s: Store, pk: Option<Id>, variant: Id, value: Id, o: Id): set<Id>
  {
    ValueIds(s.links, o, pk) + (if o == variant then {value} else {})
  }

  /**
   * Some variant of `product` other than `self` holds, after the write, the
   * value set `ids` (the equal-count prefilter of the query is kept: it does
   * not change the answer).
   */
  predicate HasTwin(s: Store, product: Id, owner: Id, pk: Option<Id>, variant: Id, value: Id, ids: set<Id>)
  {
    exists o :: o in s.variants && o != owner && s.variants[o].product == product
      && |PostIds(s, pk, variant, value, o)| == |ids| && PostIds(s, pk, variant, value, o) == ids
  }

  /** Re-saving link `pk` moves it away from the variant it belonged to. */
  predicate MovesLink(s: Store, pk: Option<Id>, variant: Id)
  {
    pk.Some? && pk.value in s.links && s.links[pk.value].variant != variant
  }

  /**
   * The gate applied before a link is saved, with the rule-3 check made
   * against the state after the write: the saved variant's new value set
   * must differ from every sibling's, and when the link moves away from a
   * variant, that variant's remaining set (if any) must differ from its
   * siblings' too. `Pass` means the link is persisted.
   */
  function LinkGate(s: Store, pk: Option<Id>, variant: Id, value: Id): (r: Outcome<LinkError>)
    ensures r == Fail(LinkMissingReference) <==> variant !in s.variants || value !in s.values
    ensures r == Pass ==> variant in s.variants && value in s.values
    ensures r == Pass ==> !HasValueFor(s, variant, s.values[value].attribute, pk)
    ensures r == Pass ==> Declares(s.productAttributes, s.variants[variant].product, s.values[value].attribute)
    ensures r == Pass ==> !HasTwin(s, s.variants[variant].product, variant, pk, variant, value, PostIds(s, pk, variant, value, variant))
  {
    if variant !in s.variants || value !in s.values then Fail(LinkMissingReference)
    else
      var attribute := s.values[value].attribute;
      var product := s.variants[variant].product;
      if HasValueFor(s, variant, attribute, pk) then Fail(DuplicateAttributeAssignment(AttributeName(s, attribute)))
      else if !Declares(s.productAttributes, product, attribute) then Fail(AttributeNotApplicable(AttributeName(s, attribute), ProductName(s, product)))
      else if HasTwin(s, product, variant, pk, variant, value, PostIds(s, pk, variant, value, variant)) then Fail(DuplicateVariantCombination(ProductName(s, product)))
      else if MovesLink(s, pk, variant) then
        var previous := s.links[pk.value].variant;
        var remaining := PostIds(s, pk, variant, value, previous);
        if previous in s.variants && remaining != {} && HasTwin(s, s.variants[previous].product, previous, pk, variant, value, remaining)
        then Fail(DuplicateVariantCombination(ProductName(s, s.variants[previous].product)))
        else Pass
      else Pass
  }

  /** The key the saved link gets: its own primary key on a re-save, a fresh one on a first save. */
  predicate KeyFor(s: Store, pk: Option<Id>, key: Id)
  {
    if pk.Some? then key == pk.value else key !in s.links
  }

  /** The store after the link is persisted under `key`. */
  function Persist(s: Store, key: Id, variant: Id, value: Id): Store
  {
    s.(links := s.links[key := VariantValue(variant, value)])
  }

  /** Once the link is persisted, every variant holds exactly the set `PostIds` predicted. */
  lemma {:induction false} PersistedValueIds(s: Store, pk: Option<Id>, key: Id, variant: Id, value: Id, o: Id)
    requires KeyFor(s, pk, key)
    ensures ValueIds(Persist(s, key, variant, value).links, o, None) == PostIds(s, pk, variant, value, o)
  {
    var ls' := Persist(s, key, variant, value).links;
    forall x | x in ValueIds(ls', o, None) ensures x in PostIds(s, pk, variant, value, o)
    {
      var k :| k in ls' && ls'[k].variant == o && ls'[k].value == x;
      if k != key {
        assert k in s.links && s.links[k] == ls'[k] && Some(k) != pk;
      }
    }
    forall x | x in PostIds(s, pk, variant, value, o) ensures x in ValueIds(ls', o, None)
    {
      if o == variant && x == value {
        assert key in ls' && ls'[key] == VariantValue(variant, value);
      } else {
        var k :| k in s.links && s.links[k].variant == o && Some(k) != pk && s.links[k].value == x;
        assert k != key && k in ls' && ls'[k] == s.links[k];
      }
    }
  }

  /** A write the gate passes leaves every rule and constraint of the store intact. */
  lemma {:induction false} LinkGatePreservesValid(s: Store, pk: Option<Id>, key: Id, variant: Id, value: Id)
    requires StoreValid(s) && KeyFor(s, pk, key)
    requires LinkGate(s, pk, variant, value) == Pass
    ensures StoreValid(Persist(s, key, variant, value))
  {
    var s' := Persist(s, key, variant, value);
    LinkGateKeepsRule1(s, pk, key, variant, value);
    LinkGateKeepsRule2(s, pk, key, variant, value);
    forall v1, v2 | v1 in s.variants && v2 in s.variants && v1 != v2 && s.variants[v1].product == s.variants[v2].product && ValueIds(s'.links, v1, None) != {}
      ensures ValueIds(s'.links, v1, None) != ValueIds(s'.links, v2, None)
    {
      LinkGateKeepsRule3(s, pk, key, variant, value, v1, v2);
    }
    assert s'.variants == s.variants && s'.values == s.values && s'.productAttributes == s.productAttributes;
    assert s'.images == s.images && s'.products == s.products;
  }

  /** Check 1 keeps the link unique and rule 1; the references hold by the gate's first test. */
  lemma {:induction false} LinkGateKeepsRule1(s: Store, pk: Option<Id>, key: Id, variant: Id, value: Id)
    requires LinksUnique(s.links) && LinksResolve(s.links, s.variants, s.values) && OneValuePerAttribute(s.links, s.values)
    requires KeyFor(s, pk, key) && variant in s.variants && value in s.values
    requires !HasValueFor(s, variant, s.values[value].attribute, pk)
    ensures var ls' := Persist(s, key, variant, value).links;
      LinksUnique(ls') && LinksResolve(ls', s.variants, s.values) && OneValuePerAttribute(ls', s.values)
  {
    var ls, ls' := s.links, Persist(s, key, variant, value).links;
    forall i, j | i in ls' && j in ls' && i != j && ls'[i].variant == ls'[j].variant
      ensures ls'[i] != ls'[j]
      ensures ls'[i].value in s.values && ls'[j].value in s.values
      ensures s.values[ls'[i].value].attribute != s.values[ls'[j].value].attribute
    {
      if i == key {
        assert j in ls && Some(j) != pk && ls[j] == ls'[j];
      } else if j == key {
        assert i in ls && Some(i) != pk && ls[i] == ls'[i];
      } else {
        assert ls'[i] == ls[i] && ls'[j] == ls[j];
      }
    }
    forall k | k in ls' ensures ls'[k].variant in s.variants && ls'[k].value in s.values {
      if k != key { assert ls'[k] == ls[k]; }
    }
  }

  /** Check 2 keeps rule 2: the saved link is declared; the others are unchanged. */
  lemma {:induction false} LinkGateKeepsRule2(s: Store, pk: Option<Id>, key: Id, variant: Id, value: Id)
    requires ValuesDeclared(s.links, s.variants, s.values, s.productAttributes)
    requires KeyFor(s, pk, key) && variant in s.variants && value in s.values
    requires Declares(s.productAttributes, s.variants[variant].product, s.values[value].attribute)
    ensures ValuesDeclared(Persist(s, key, variant, value).links, s.variants, s.values, s.productAttributes)
  {
    var ls, ls' := s.links, Persist(s, key, variant, value).links;
    forall k | k in ls' && ls'[k].variant in s.variants && ls'[k].value in s.values
      ensures Declares(s.productAttributes, s.variants[ls'[k].variant].product, s.values[ls'[k].value].attribute)
    {
      if k != key { assert ls'[k] == ls[k]; }
    }
  }

  /**
   * Checks 3 and 4 keep rule 3 for one pair of sibling variants: only the
   * saved variant and, for a moved link, the variant it leaves change their
   * value sets, and the gate compared both against every sibling.
   */
  lemma {:induction false} LinkGateKeepsRule3(s: Store, pk: Option<Id>, key: Id, variant: Id, value: Id, v1: Id, v2: Id)
    requires DistinctCombinations(s.links, s.variants)
    requires KeyFor(s, pk, key) && variant in s.variants
    requires !HasTwin(s, s.variants[variant].product, variant, pk, variant, value, PostIds(s, pk, variant, value, variant))
    requires MovesLink(s, pk, variant) && s.links[pk.value].variant in s.variants && PostIds(s, pk, variant, value, s.links[pk.value].variant) != {} ==>
      !HasTwin(s, s.variants[s.links[pk.value].variant].product, s.links[pk.value].variant, pk, variant, value, PostIds(s, pk, variant, value, s.links[pk.value].variant))
    requires v1 in s.variants && v2 in s.variants && v1 != v2 && s.variants[v1].product == s.variants[v2].product
    requires ValueIds(Persist(s, key, variant, value).links, v1, None) != {}
    ensures ValueIds(Persist(s, key, variant, value).links, v1, None) != ValueIds(Persist(s, key, variant, value).links, v2, None)
  {
    var ls := s.links;
    PersistedValueIds(s, pk, key, variant, value, v1);
    PersistedValueIds(s, pk, key, variant, value, v2);
    if v1 == variant || v2 == variant {
      var other := if v1 == variant then v2 else v1;
      assert !HasTwin(s, s.variants[variant].product, variant, pk, variant, value, PostIds(s, pk, variant, value, variant));
      assert other in s.variants && other != variant && s.variants[other].product == s.variants[variant].product;
    } else if MovesLink(s, pk, variant) && (v1 == ls[pk.value].variant || v2 == ls[pk.value].variant) {
      var previous := ls[pk.value].variant;
      var other := if v1 == previous then v2 else v1;
      PostIdsOfUntouched(s, pk, variant, value, other);
      assert other in s.variants && other != previous && s.variants[other].product == s.variants[previous].product;
    } else {
      PostIdsOfUntouched(s, pk, variant, value, v1);
      PostIdsOfUntouched(s, pk, variant, value, v2);
    }
  }

  /** A variant that is neither the saved one nor the one a moved link leaves keeps its value set. */
  lemma {:induction false} PostIdsOfUntouched(s: Store, pk: Option<Id>, variant: Id, value: Id, o: Id)
    requires o != variant && !(MovesLink(s, pk, variant) && o == s.links[pk.value].variant)
    ensures PostIds(s, pk, variant, value, o) == ValueIds(s.links, o, None)
  {
    if pk.Some? && pk.value in s.links {
      assert s.links[pk.value].variant != o;
    }
  }

  /** A write the gate refuses would break a rule or a reference: the gate refuses nothing it need not. */
  lemma {:induction false} LinkGateRefusesOnlyBreakingWrites(s: Store, pk: Option<Id>, key: Id, variant: Id, value: Id)
    requires StoreValid(s) && KeyFor(s, pk, key)
    requires LinkGate(s, pk, variant, value) != Pass
    ensures !StoreValid(Persist(s, key, variant, value))
  {
    var ls' := Persist(s, key, variant, value).links;
    if variant !in s.variants || value !in s.values {
      assert key in ls' && ls'[key] == VariantValue(variant, value);
      assert !LinksResolve(ls', s.variants, s.values);
    } else {
      var attribute := s.values[value].attribute;
      var product := s.variants[variant].product;
      if HasValueFor(s, variant, attribute, pk) {
        SecondValueBreaksRule1(s, pk, key, variant, value);
      } else if !Declares(s.productAttributes, product, attribute) {
        assert key in ls' && ls'[key] == VariantValue(variant, value);
        assert !ValuesDeclared(ls', s.variants, s.values, s.productAttributes);
      } else if HasTwin(s, product, variant, pk, variant, value, PostIds(s, pk, variant, value, variant)) {
        TwinBreaksRule3(s, pk, key, variant, value, variant);
      } else {
        TwinBreaksRule3(s, pk, key, variant, value, s.links[pk.value].variant);
      }
    }
  }

  /** A second value of one attribute on the saved variant breaks rule 1. */
  lemma {:induction false} SecondValueBreaksRule1(s: Store, pk: Option<Id>, key: Id, variant: Id, value: Id)
    requires KeyFor(s, pk, key) && value in s.values
    requires HasValueFor(s, variant, s.values[value].attribute, pk)
    ensures !OneValuePerAttribute(Persist(s, key, variant, value).links, s.values)
  {
    var ls' := Persist(s, key, variant, value).links;
    var k :| k in s.links && Some(k) != pk && s.links[k].variant == variant
      && s.links[k].value in s.values && s.values[s.links[k].value].attribute == s.values[value].attribute;
    assert key in ls' && ls'[key] == VariantValue(variant, value);
    assert k != key && k in ls' && ls'[k] == s.links[k];
  }

  /** A variant whose value set after the write is non-empty and shared with a sibling breaks rule 3. */
  lemma {:induction false} TwinBreaksRule3(s: Store, pk: Option<Id>, key: Id, variant: Id, value: Id, owner: Id)
    requires KeyFor(s, pk, key) && owner in s.variants && PostIds(s, pk, variant, value, owner) != {}
    requires HasTwin(s, s.variants[owner].product, owner, pk, variant, value, PostIds(s, pk, variant, value, owner))
    ensures !DistinctCombinations(Persist(s, key, variant, value).links, s.variants)
  {
    var ls' := Persist(s, key, variant, value).links;
    var o :| o in s.variants && o != owner && s.variants[o].product == s.variants[owner].product
      && |PostIds(s, pk, variant, value, o)| == |PostIds(s, pk, variant, value, owner)|
      && PostIds(s, pk, variant, value, o) == PostIds(s, pk, variant, value, owner);
    PersistedValueIds(s, pk, key, variant, value, o);
    PersistedValueIds(s, pk, key, variant, value, owner);
  }

  /** On a valid store the gate passes exactly the writes after which the store is still valid. */
  lemma {:induction false} LinkGateExact(s: Store, pk: Option<Id>, key: Id, variant: Id, value: Id)
    requires StoreValid(s) && KeyFor(s, pk, key)
    ensures LinkGate(s, pk, variant, value) == Pass <==> StoreValid(Persist(s, key, variant, value))
  {
    if LinkGate(s, pk, variant, value) == Pass {
      LinkGatePreservesValid(s, pk, key, variant, value);
    } else {
      LinkGateRefusesOnlyBreakingWrites(s, pk, key, variant, value);
    }
  }

  /** Re-saving a stored link unchanged passes the gate: the row does not count against itself. */
  lemma {:induction false} ResavedLinkPasses(s: Store, k: Id)
    requires StoreValid(s) && k in s.links
    ensures LinkGate(s, Some(k), s.links[k].variant, s.links[k].value) == Pass
  {
    var l := s.links[k];
    assert l == VariantValue(l.variant, l.value);
    assert s.links[k := l] == s.links;
    assert Persist(s, k, l.variant, l.value) == s;
    LinkGateExact(s, Some(k), k, l.variant, l.value);
  }

  // ---------------------------------------------------------------------------
  // The gate as the source writes it
  // ---------------------------------------------------------------------------

  /**
   * The row check 1 of `clean` leaves out of its query: `if self.pk:` tests
   * the key for truth, so a key of 0 excludes nothing.
   */
  function Check1Exclude(pk: Option<Id>): (r: Option<Id>)
    ensures r.Some? <==> pk.Some? && pk.value != 0
    ensures r.Some? ==> r == pk
  {
    if pk.Some? && pk.value != 0 then pk else None
  }

  /**
   * Check 3 as written: some variant of `product` other than `owner` holds,
   * as stored before the write, a value set of the same size as `ids` and
   * equal to it.
   */
  predicate HasStoredTwin(s: Store, product: Id, owner: Id, ids: set<Id>)
  {
    exists o :: o in s.variants && o != owner && s.variants[o].product == product
      && |ValueIds(s.links, o, None)| == |ids| && ValueIds(s.links, o, None) == ids
  }

  /**
   * `ProductVariantAttributeValue.clean` as written: check 3 builds the saved
   * variant's new value set but compares it with each sibling's value set as
   * stored before the write (counted, then compared), and the variant a
   * re-saved link leaves is not checked at all.
   */
  function LinkGateAsWritten(s: Store, pk: Option<Id>, variant: Id, value: Id): (r: Outcome<LinkError>)
    ensures r == Fail(LinkMissingReference) <==> variant !in s.variants || value !in s.values
    ensures r == Pass ==> variant in s.variants && value in s.values
    ensures r == Pass ==> !HasValueFor(s, variant, s.values[value].attribute, Check1Exclude(pk))
    ensures r == Pass ==> Declares(s.productAttributes, s.variants[variant].product, s.values[value].attribute)
    ensures r == Pass ==> !HasStoredTwin(s, s.variants[variant].product, variant, ValueIds(s.links, variant, pk) + {value})
  {
    if variant !in s.variants || value !in s.values then Fail(LinkMissingReference)
    else
      var attribute := s.values[value].attribute;
      var product := s.variants[variant].product;
      if HasValueFor(s, variant, attribute, Check1Exclude(pk)) then Fail(DuplicateAttributeAssignment(AttributeName(s, attribute)))
      else if !Declares(s.productAttributes, product, attribute) then Fail(AttributeNotApplicable(AttributeName(s, attribute), ProductName(s, product)))
      else if HasStoredTwin(s, product, variant, ValueIds(s.links, variant, pk) + {value})
      then Fail(DuplicateVariantCombination(ProductName(s, product)))
      else Pass
  }

  /** The gate as written refuses a save once it finds a sibling whose stored set equals the variant's new set. */
  lemma WrittenGateFindsSibling(s: Store, pk: Option<Id>, variant: Id, value: Id, o: Id)
    requires variant in s.variants && value in s.values
    requires !HasValueFor(s, variant, s.values[value].attribute, Check1Exclude(pk))
    requires Declares(s.productAttributes, s.variants[variant].product, s.values[value].attribute)
    requires o in s.variants && o != variant && s.variants[o].product == s.variants[variant].product
    requires ValueIds(s.links, o, None) == ValueIds(s.links, variant, pk) + {value}
    ensures LinkGateAsWritten(s, pk, variant, value) == Fail(DuplicateVariantCombination(ProductName(s, s.variants[variant].product)))
  {
  }

  /** The gate as written passes a save whose checks 1 and 2 hold and whose new set no sibling's stored set equals. */
  lemma WrittenGateFindsNoSibling(s: Store, pk: Option<Id>, variant: Id, value: Id)
    requires variant in s.variants && value in s.values
    requires !HasValueFor(s, variant, s.values[value].attribute, Check1Exclude(pk))
    requires Declares(s.productAttributes, s.variants[variant].product, s.values[value].attribute)
    requires forall o :: o in s.variants && o != variant ==> ValueIds(s.links, o, None) != ValueIds(s.links, variant, pk) + {value}
    ensures LinkGateAsWritten(s, pk, variant, value) == Pass
  {
  }

  /**
   * On a first save, or a re-save that keeps the variant, the written gate
   * and the corrected one agree, unless the saved link is stored under key 0.
   */
  lemma {:induction false} GatesAgreeUnlessLinkMoves(s: Store, pk: Option<Id>, variant: Id, value: Id)
    requires !MovesLink(s, pk, variant)
    requires pk != Some(0) || 0 !in s.links
    ensures LinkGateAsWritten(s, pk, variant, value) == LinkGate(s, pk, variant, value)
  {
    if variant in s.variants && value in s.values {
      var product := s.variants[variant].product;
      forall o | o in s.variants && o != variant
        ensures PostIds(s, pk, variant, value, o) == ValueIds(s.links, o, None)
      {
        PostIdsOfUntouched(s, pk, variant, value, o);
      }
      assert PostIds(s, pk, variant, value, variant) == ValueIds(s.links, variant, pk) + {value};
      if pk == Some(0) {
        assert HasValueFor(s, variant, s.values[value].attribute, None) == HasValueFor(s, variant, s.values[value].attribute, pk);
      }
    }
  }

  /**
   * A catalog with one shirt in three variants: A is red and medium, C is
   * medium, D has no values yet. Colour and size are declared on the shirt.
   */
  function ShirtCatalog(): Store
  {
    Store(
      map[1 := Category("Shirts", "shirts", "", true)],
      map[1 := Attribute("Color", Color, ""), 2 := Attribute("Size", Size, "")],
      map[10 := AttributeValue(1, "red", 0), 11 := AttributeValue(2, "medium", 0)],
      map[1 := Product(1, "Shirt", "shirt", 1000, false, true)],
      map[1 := ProductAttribute(1, 1), 2 := ProductAttribute(1, 2)],
      map[1 := ProductVariant(1, "A", None, 0, 0, true), 2 := ProductVariant(1, "C", None, 0, 0, true),
          3 := ProductVariant(1, "D", None, 0, 0, true)],
      map[100 := VariantValue(1, 10), 101 := VariantValue(1, 11), 102 := VariantValue(2, 11)],
      map[])
  }

  /** The value sets of the example's variants, before and after A's red link moves to D. */
  lemma ShirtCatalogSets()
    ensures ValueIds(ShirtCatalog().links, 1, None) == {10, 11}
    ensures ValueIds(ShirtCatalog().links, 2, None) == {11}
    ensures ValueIds(ShirtCatalog().links, 3, None) == {}
    ensures ValueIds(Persist(ShirtCatalog(), 100, 3, 10).links, 1, None) == {11}
    ensures ValueIds(Persist(ShirtCatalog(), 100, 3, 10).links, 2, None) == {11}
  {
    var ls := ShirtCatalog().links;
    var ls' := Persist(ShirtCatalog(), 100, 3, 10).links;
    assert 100 in ls && 101 in ls && 102 in ls;
    assert 101 in ls' && 102 in ls';
  }

  /** The example's single-row tables and its values are trivially distinct. */
  lemma ShirtCatalogNames()
    ensures CategoryKeysUnique(ShirtCatalog().categories) && ProductKeysUnique(ShirtCatalog().products)
  {
  }

  /** The example's two values belong to different attributes. */
  lemma ShirtCatalogValueKeys()
    ensures ValueKeysUnique(ShirtCatalog().values)
  {
    var vs := ShirtCatalog().values;
    forall i, j | i in vs && j in vs && i != j
      ensures vs[i].attribute != vs[j].attribute
    {
      assert i == 10 || i == 11;
      assert j == 10 || j == 11;
    }
  }

  /** The example's two declarations name different attributes. */
  lemma ShirtCatalogDeclarations()
    ensures ProductAttributesUnique(ShirtCatalog().productAttributes)
  {
    var pas := ShirtCatalog().productAttributes;
    forall i, j | i in pas && j in pas && i != j
      ensures pas[i] != pas[j]
    {
      assert i == 1 || i == 2;
      assert j == 1 || j == 2;
    }
  }

  /** The example's attribute names differ in their first letter. */
  lemma ShirtCatalogAttributeNames()
    ensures AttributeNamesUnique(ShirtCatalog().attributes)
  {
    LowerAt("Color", 0);
    LowerAt("Size", 0);
    assert Lower("Color") != Lower("Size");
  }

  /** The example's SKUs are distinct. */
  lemma ShirtCatalogSkus()
    ensures SkusUnique(ShirtCatalog().variants)
  {
    assert "A"[0] != "C"[0] && "A"[0] != "D"[0] && "C"[0] != "D"[0];
  }

  /** The example's links name existing variants and values, each pair once. */
  lemma ShirtCatalogLinksResolve()
    ensures LinksUnique(ShirtCatalog().links)
    ensures LinksResolve(ShirtCatalog().links, ShirtCatalog().variants, ShirtCatalog().values)
  {
    var s := ShirtCatalog();
    forall k | k in s.links ensures s.links[k].variant in s.variants && s.links[k].value in s.values {
      assert k == 100 || k == 101 || k == 102;
    }
  }

  /** The example's variant A holds one colour and one size; its links' attributes are declared on the shirt. */
  lemma ShirtCatalogLinkRules()
    ensures OneValuePerAttribute(ShirtCatalog().links, ShirtCatalog().values)
    ensures ValuesDeclared(ShirtCatalog().links, ShirtCatalog().variants, ShirtCatalog().values, ShirtCatalog().productAttributes)
  {
    var s := ShirtCatalog();
    assert s.productAttributes[1] == ProductAttribute(1, 1) && s.productAttributes[2] == ProductAttribute(1, 2);
    forall i, j | i in s.links && j in s.links && i != j && s.links[i].variant == s.links[j].variant
      ensures s.links[i].value in s.values && s.links[j].value in s.values
      ensures s.values[s.links[i].value].attribute != s.values[s.links[j].value].attribute
    {
      assert i == 100 || i == 101 || i == 102;
      assert j == 100 || j == 101 || j == 102;
    }
  }

  /** The example's variants hold three different value sets. */
  lemma ShirtCatalogRule3()
    ensures DistinctCombinations(ShirtCatalog().links, ShirtCatalog().variants)
  {
    var s := ShirtCatalog();
    ShirtCatalogSets();
    forall v1, v2 | v1 in s.variants && v2 in s.variants && v1 != v2 && ValueIds(s.links, v1, None) != {}
      ensures ValueIds(s.links, v1, None) != ValueIds(s.links, v2, None)
    {
      assert v1 == 1 || v1 == 2 || v1 == 3;
      assert v2 == 1 || v2 == 2 || v2 == 3;
      assert 10 !in ValueIds(s.links, 2, None);
    }
  }

  /** The example's names, values and SKUs are filled in and its slugs pass the slug validator. */
  lemma ShirtCatalogFilled()
    ensures CategoriesFilled(ShirtCatalog().categories) && AttributesFilled(ShirtCatalog().attributes)
    ensures ValuesFilled(ShirtCatalog().values) && ProductsFilled(ShirtCatalog().products)
    ensures VariantsFilled(ShirtCatalog().variants)
  {
    var s := ShirtCatalog();
    assert IsSlug("shirts") by {
      forall i | 0 <= i < |"shirts"| ensures SlugChar("shirts"[i]) {
        assert IsLower("shirts"[i]);
      }
    }
    assert IsSlug("shirt") by {
      forall i | 0 <= i < |"shirt"| ensures SlugChar("shirt"[i]) {
        assert IsLower("shirt"[i]);
      }
    }
  }

  /** The example catalog satisfies every rule. */
  lemma ShirtCatalogValid()
    ensures StoreValid(ShirtCatalog())
  {
    var s := ShirtCatalog();
    ShirtCatalogFilled();
    ShirtCatalogNames();
    ShirtCatalogAttributeNames();
    ShirtCatalogValueKeys();
    ShirtCatalogDeclarations();
    ShirtCatalogSkus();
    ShirtCatalogLinksResolve();
    ShirtCatalogLinkRules();
    ShirtCatalogRule3();
    ShirtCatalogResolves();
  }

  /** The example's records name existing records, and its prices are in range. */
  lemma ShirtCatalogResolves()
    ensures ValuesResolve(ShirtCatalog().values, ShirtCatalog().attributes)
    ensures ProductsResolve(ShirtCatalog().products, ShirtCatalog().categories)
    ensures ProductAttributesResolve(ShirtCatalog().productAttributes, ShirtCatalog().products, ShirtCatalog().attributes)
    ensures VariantsResolve(ShirtCatalog().variants, ShirtCatalog().products)
    ensures ImagesConsistent(ShirtCatalog().images, ShirtCatalog().products, ShirtCatalog().variants)
    ensures PricesInRange(ShirtCatalog().products, ShirtCatalog().variants)
  {
  }

  /**
   * Moving A's red link to D passes the gate as written, yet afterwards A and
   * C both hold exactly {medium}; the corrected gate refuses the move.
   */
  lemma MovedLinkSlipsThrough()
    ensures StoreValid(ShirtCatalog())
    ensures LinkGateAsWritten(ShirtCatalog(), Some(100), 3, 10) == Pass
    ensures !DistinctCombinations(Persist(ShirtCatalog(), 100, 3, 10).links, ShirtCatalog().variants)
    ensures LinkGate(ShirtCatalog(), Some(100), 3, 10) != Pass
  {
    ShirtCatalogValid();
    MovedLinkWrittenGatePasses();
    MovedLinkBreaksRule3();
    LinkGateExact(ShirtCatalog(), Some(100), 100, 3, 10);
  }

  /** Moving red to D gives D no second colour and no other value. */
  lemma MovedLinkChecks()
    ensures ValueIds(ShirtCatalog().links, 3, Some(100)) == {}
    ensures !HasValueFor(ShirtCatalog(), 3, 1, Some(100))
    ensures Declares(ShirtCatalog().productAttributes, 1, 1)
  {
    var s := ShirtCatalog();
    forall k | k in s.links && k != 100 ensures s.links[k].variant != 3 {
      assert k == 101 || k == 102;
    }
    assert s.productAttributes[1] == ProductAttribute(1, 1);
  }

  /** The gate as written lets the move of A's red link to D through. */
  lemma MovedLinkWrittenGatePasses()
    ensures LinkGateAsWritten(ShirtCatalog(), Some(100), 3, 10) == Pass
  {
    var s := ShirtCatalog();
    ShirtCatalogSets();
    MovedLinkChecks();
    assert s.values[10].attribute == 1 && s.variants[3].product == 1;
    forall o | o in s.variants && o != 3 ensures ValueIds(s.links, o, None) != {10} {
      assert o == 1 || o == 2;
    }
    WrittenGateFindsNoSibling(s, Some(100), 3, 10);
  }

  /** After the move, A and C both hold exactly {medium}. */
  lemma MovedLinkBreaksRule3()
    ensures !DistinctCombinations(Persist(ShirtCatalog(), 100, 3, 10).links, ShirtCatalog().variants)
  {
    var s := ShirtCatalog();
    ShirtCatalogSets();
    assert 1 in s.variants && 2 in s.variants && s.variants[1].product == s.variants[2].product;
  }

  /** The value sets the gates compare when A's red link moves to C. */
  lemma StaleSiblingSets()
    ensures ValueIds(ShirtCatalog().links, 2, Some(100)) == {11}
    ensures PostIds(ShirtCatalog(), Some(100), 2, 10, 1) == {11}
    ensures PostIds(ShirtCatalog(), Some(100), 2, 10, 2) == {10, 11}
    ensures PostIds(ShirtCatalog(), Some(100), 2, 10, 3) == {}
  {
    var ls := ShirtCatalog().links;
    assert 101 in ls && 102 in ls;
    forall k | k in ls && k != 100 ensures ls[k].variant != 3 {
      assert k == 101 || k == 102;
    }
  }

  /**
   * Moving A's red link to C would leave A with {medium} and C with {red,
   * medium}, a valid catalog; the gate as written compares C's new set with
   * A's set before the move and refuses it, the corrected gate passes it.
   */
  lemma StaleSiblingRefused()
    ensures StoreValid(ShirtCatalog())
    ensures LinkGateAsWritten(ShirtCatalog(), Some(100), 2, 10) == Fail(DuplicateVariantCombination("Shirt"))
    ensures LinkGate(ShirtCatalog(), Some(100), 2, 10) == Pass
    ensures StoreValid(Persist(ShirtCatalog(), 100, 2, 10))
  {
    ShirtCatalogValid();
    StaleSiblingWrittenGateRefuses();
    StaleSiblingGatePasses();
    LinkGateExact(ShirtCatalog(), Some(100), 100, 2, 10);
  }

  /** Moving red to C gives C no second colour, and colour is declared on the shirt. */
  lemma StaleSiblingChecks()
    ensures !HasValueFor(ShirtCatalog(), 2, 1, Some(100))
    ensures Declares(ShirtCatalog().productAttributes, 1, 1)
  {
    var s := ShirtCatalog();
    forall k | k in s.links && k != 100 && s.links[k].variant == 2 ensures s.values[s.links[k].value].attribute != 1 {
      assert k == 102;
    }
    assert s.productAttributes[1] == ProductAttribute(1, 1);
  }

  /** The gate as written finds C's new set {red, medium} equal to A's set before the move. */
  lemma StaleSiblingWrittenGateRefuses()
    ensures LinkGateAsWritten(ShirtCatalog(), Some(100), 2, 10) == Fail(DuplicateVariantCombination("Shirt"))
  {
    var s := ShirtCatalog();
    ShirtCatalogSets();
    StaleSiblingSets();
    StaleSiblingChecks();
    assert s.values[10].attribute == 1 && s.variants[2].product == 1 && s.variants[1].product == 1;
    WrittenGateFindsSibling(s, Some(100), 2, 10, 1);
  }

  /** After the move no two variants of the shirt share a value set, so the corrected gate passes. */
  lemma StaleSiblingGatePasses()
    ensures LinkGate(ShirtCatalog(), Some(100), 2, 10) == Pass
  {
    var s := ShirtCatalog();
    StaleSiblingSets();
    StaleSiblingChecks();
    forall o | o in s.variants && o != 2 ensures PostIds(s, Some(100), 2, 10, o) != {10, 11} {
      assert o == 1 || o == 3;
    }
    forall o | o in s.variants && o != 1 ensures PostIds(s, Some(100), 2, 10, o) != {11} {
      assert o == 2 || o == 3;
      assert 10 in PostIds(s, Some(100), 2, 10, 2);
    }
  }

  /**
   * Re-saving a stored link unchanged passes the gate as written too, as long
   * as its key is not 0: check 1 then leaves the link's own row out.
   */
  lemma {:induction false} ResavedLinkPassesAsWritten(s: Store, k: Id)
    requires StoreValid(s) && k in s.links && k != 0
    ensures LinkGateAsWritten(s, Some(k), s.links[k].variant, s.links[k].value) == Pass
  {
    ResavedLinkPasses(s, k);
    GatesAgreeUnlessLinkMoves(s, Some(k), s.links[k].variant, s.links[k].value);
  }

  /** The example catalog after D is given red in a link saved with the explicit key 0. */
  function ZeroKeyCatalog(): Store
  {
    Persist(ShirtCatalog(), 0, 3, 10)
  }

  /** Before D is given red under key 0: D holds nothing, A and C hold medium, and colour is declared on the shirt. */
  lemma ZeroKeySets()
    ensures PostIds(ShirtCatalog(), Some(0), 3, 10, 3) == {10}
    ensures 11 in PostIds(ShirtCatalog(), Some(0), 3, 10, 1) && 11 in PostIds(ShirtCatalog(), Some(0), 3, 10, 2)
    ensures !HasValueFor(ShirtCatalog(), 3, 1, Some(0))
    ensures Declares(ShirtCatalog().productAttributes, 1, 1)
  {
    var s := ShirtCatalog();
    forall k | k in s.links ensures s.links[k].variant != 3 {
      assert k == 100 || k == 101 || k == 102;
    }
    assert s.links[101] == VariantValue(1, 11) && s.links[102] == VariantValue(2, 11);
    assert s.productAttributes[1] == ProductAttribute(1, 1);
  }

  /** Giving D red under key 0 passes the gate. */
  lemma ZeroKeyGatePasses()
    ensures LinkGate(ShirtCatalog(), Some(0), 3, 10) == Pass
  {
    var s := ShirtCatalog();
    ZeroKeySets();
    forall o | o in s.variants && o != 3 ensures PostIds(s, Some(0), 3, 10, o) != {10} {
      assert o == 1 || o == 2;
    }
    assert !HasTwin(s, 1, 3, Some(0), 3, 10, {10});
    assert !MovesLink(s, Some(0), 3);
    assert s.values[10].attribute == 1 && s.variants[3].product == 1;
  }

  /** So the catalog with D's key-0 link is valid. */
  lemma ZeroKeyCatalogValid()
    ensures StoreValid(ZeroKeyCatalog())
  {
    ShirtCatalogValid();
    ZeroKeyGatePasses();
    LinkGatePreservesValid(ShirtCatalog(), Some(0), 0, 3, 10);
  }

  /**
   * Re-saving the key-0 link unchanged: the gate as written finds the link's
   * own row in check 1 (`if self.pk:` is false for 0, so nothing is left
   * out) and reports a second colour, while the corrected gate passes it.
   */
  lemma ZeroKeyResaveRefused()
    ensures StoreValid(ZeroKeyCatalog())
    ensures LinkGateAsWritten(ZeroKeyCatalog(), Some(0), 3, 10) == Fail(DuplicateAttributeAssignment("Color"))
    ensures LinkGate(ZeroKeyCatalog(), Some(0), 3, 10) == Pass
  {
    var s := ZeroKeyCatalog();
    ZeroKeyCatalogValid();
    assert 0 in s.links && s.links[0] == VariantValue(3, 10);
    assert HasValueFor(s, 3, 1, None);
    ResavedLinkPasses(s, 0);
  }
}
