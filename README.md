# Storefront catalog rules, in Dafny

This project models the core rules of a Django storefront and proves properties of them:

- **Product catalog** (`apps/products/models.py`):
  - categories, attributes and attribute values;
  - products, the attributes declared on a product, and product variants;
  - the links that give a variant its attribute values;
  - product images.

  Each table is a map from primary key to row, and `Products.Store` holds all eight. Every constraint the tables declare is a predicate, and `StoreValid` is their conjunction:
  - required names, values and SKUs, and slugs that pass Django's slug validator;
  - case-insensitive unique names;
  - unique slugs and SKUs;
  - foreign keys;
  - the price validators.

  `StoreValid` also includes three rules that `ProductVariantAttributeValue.clean` enforces:
  1. one value per attribute per variant;
  2. only attributes declared on the product;
  3. no two variants of a product with the same combination of values.

  For each kind of insert, a function returns the first error the write meets, and a lemma proves the function exact: an insert into a valid store is refused **if and only if** the new store would break a rule.

  The variant-value link has two gates:
  - `LinkGateAsWritten` is `clean` as the source writes it.
  - `LinkGate` is the corrected gate (see Findings below). It is exact in the same sense, including the re-save of an existing link.
- **Catalog as a stateful object** (`ProductStore.Catalog`). It holds the store and a key counter. Each method runs the same checks step by step and returns a `Result`. Its contract gives the new state and keeps `StoreValid`. `Catalog.SaveLink` runs the corrected gate. `RunLinkGateAsWritten` runs the gate as written, query by query.
- **`OrderField`** (`apps/core/fields.py`): the auto-assigned `sort_order` of attribute values, variants and images.
- **`FileSizeValidator`** (`apps/core/validators.py`): the 5 MB upload limit on product images.
- **Cart constraints** (`apps/cart/models.py`):
  - one open cart per user and one per anonymous session;
  - every cart has an owner;
  - one line per variant in a cart;
  - line totals.
- **`active_class` template tag** (`apps/core/templatetags/core_tags.py`).
- **Password validators** (`apps/users/password_validation.py`): one requires an uppercase letter, the other a lowercase letter.

Files:

- `wrappers.dfy`: `Option`, `Result` and `Outcome`.
- `text.dfy`: ASCII case mapping.
- `validators.dfy`
- `order_field.dfy`
- `products.dfy`: the tables, their rules, the insert gates and the link gate.
- `product_store.dfy`: the `Catalog` class and the step-by-step checks it runs.
- `cart.dfy`
- `core_tags.dfy`
- `password_validation.dfy`

Prices are kept as whole cents. Database primary keys are natural numbers handed out by a counter that starts at 1, as the identity column behind Django's `BigAutoField` does.

## Model

| member | source | states |
|---|---|---|
| Text.LowerIdempotent | apps/products/models.py:55-60 | the case-folded key used by the case-insensitive constraints is its own key: folding twice equals folding once |
| Text.LowerCharCollides | apps/products/models.py:55-60 | two characters get the same folded key exactly when they are equal or are the upper- and lowercase forms of one ASCII letter |
| Validators.UnitBytes | apps/core/validators.py:10 | a unit has a byte size exactly when it is KB, MB or GB |
| Validators.New | apps/core/validators.py:12-21 | construction succeeds exactly when the upper-cased unit is known, and then stores the upper-cased unit, the size, and the given message and code (defaults otherwise); an unknown unit raises the "Unit '<UNIT>' is invalid." error |
| Validators.Validate | apps/core/validators.py:23-31 | a file is accepted exactly when its size is at most max_size times the unit's bytes; a refusal carries the validator's message, code, max_size and unit |
| Validators.Equals | apps/core/validators.py:33-40 | `__eq__` holds exactly when the other object is a validator with the same size, unit, message and code |
| Validators.FiveMegabyteBoundary | apps/products/models.py:445 | the image validator accepts 5242880 bytes and refuses 5242881 with the default message and code "max_size" |
| Products.ImageSizeLimit | apps/products/models.py:441-447 | the image field's validator is what `FileSizeValidator(max_size=5, unit="MB")` builds; it accepts 5 MiB and refuses one byte more |
| Validators.UnitCaseIsIgnored | apps/core/validators.py:13-16 | "Gb" is accepted and stored as "GB"; "tb" is refused naming "TB" |
| Validators.AcceptanceIsMonotone | apps/core/validators.py:26 | a file no larger than an accepted one is accepted |
| Validators.UnitsScaleBy1024 | apps/core/validators.py:10 | the same size in the next larger unit allows 1024 times as many bytes |
| Validators.EqualsAgreesWithHash | apps/core/validators.py:33-43 | two validators are equal exactly when their four fields are, which is exactly when the tuples `__hash__` hashes are equal; a validator never equals an object of another class |
| OrderField.PreSave | apps/core/fields.py:9-21 | an explicit order is kept and nothing changes; a missing one becomes one more than the largest order in the instance's group (0 for an empty group) and is written back onto the instance |
| OrderField.IsNext | apps/core/fields.py:18-19 | the value assigned to a group is never one of the group's orders, and is positive once the group has a row |
| OrderField.IsNextUnique | apps/core/fields.py:18-19 | the value pre_save assigns is determined by the group's orders |
| OrderField.NextAfterInsert | apps/core/fields.py:18-19 | after a record is saved with the assigned value, the group's next value is one larger |
| OrderField.OtherGroupUnaffected | apps/core/fields.py:13-17 | saving into one group leaves the orders that another group sees unchanged |
| OrderField.WholeTableWithoutForFields | apps/core/fields.py:12-17 | with no for_fields the group is the whole table |
| OrderField.GapsAreNotFilled | apps/core/fields.py:18-19 | siblings at 0 and 5 make the next value 6: gaps are not reused |
| OrderField.FirstInsertsCountFromZero | apps/core/fields.py:18-19 | successive unordered inserts into a group get 0, 1, 2, and another group starts again at 0 |
| OrderField.Deconstruct | apps/core/fields.py:23-27 | for_fields appears among the keyword arguments exactly when it is non-empty, the other arguments are kept, and reading for_fields back with the constructor's `or []` rule gives the original list |
| Products.VariantPriceInRange | apps/products/models.py:295-301 | in a valid store a variant's price is its override when set and its product's base price otherwise, and lies in the DecimalField(10, 2) range at or above 0 |
| Products.CategoryInsertError | apps/products/models.py:27-61 | the error is one of blank name, invalid slug, duplicate slug or duplicate case-insensitive name; no error means the name is filled and the slug valid |
| Products.AttributeInsertError | apps/products/models.py:67-97 | the error is a blank name or a duplicate case-insensitive name; no error means the name is filled |
| Products.ValueInsertError | apps/products/models.py:103-133 | the error is a missing attribute, a blank value or a duplicate value of the attribute; no error means the attribute exists and the value is filled |
| Products.ProductInsertError | apps/products/models.py:139-203 | the error is a missing category, a blank name, an invalid slug, an out-of-range base price, a duplicate slug or a duplicate name in the category; no error means all four fields are valid |
| Products.ProductAttributeInsertError | apps/products/models.py:209-234 | the error is a missing product, a missing attribute or a duplicate pair; no error means both exist |
| Products.VariantInsertError | apps/products/models.py:240-290 | the error is a missing product, a blank SKU, an out-of-range override or a duplicate SKU; no error means the product exists, the SKU is filled and any override is in range |
| Products.ImageInsertError | apps/products/models.py:426-505 | the error is a missing product or variant, a file over 5 MiB, an alt text over 255 characters, or a variant of another product; no error means none of these holds |
| Products.Price | apps/products/models.py:295-301 | the price is the override when one is set, and the base price only when none is |
| Products.CategoryInsertExact | apps/products/models.py:27-61 | a category insert into a valid store is refused exactly when its name is blank, its slug is blank or fails the slug validator, or it would duplicate a slug or a case-insensitive name |
| Products.AttributeInsertExact | apps/products/models.py:67-97 | an attribute insert is refused exactly when its name is blank or duplicates another ignoring case |
| Products.ValueInsertExact | apps/products/models.py:103-133 | an attribute-value insert is refused exactly when its attribute is missing, its value is blank, or the attribute already has the same value ignoring case |
| Products.ProductInsertExact | apps/products/models.py:139-203 | a product insert is refused exactly when its category is missing, its name is blank, its slug is blank, fails the slug validator or is taken, its base price is out of range, or its name duplicates another in the category ignoring case |
| Products.ProductAttributeInsertExact | apps/products/models.py:209-234 | declaring an attribute on a product is refused exactly when the product or attribute is missing or the pair is already declared |
| Products.VariantInsertExact | apps/products/models.py:240-290 | a variant insert is refused exactly when its product is missing, its SKU is blank or taken, or its price override is out of range |
| Products.NewVariantHasNoValues | apps/products/models.py:264-269 | a freshly inserted variant has no attribute values, so it cannot clash with any variant combination |
| Products.DefaultAltText | apps/products/models.py:481-487 | the default alt text is "Image of " followed by the product slug, then " (SKU: <sku>)" exactly when a variant is set |
| Products.SavedAltText | apps/products/models.py:480-487 | a given alt text is kept; an empty one becomes "Image of <product slug>", with " (SKU: <sku>)" appended when a variant is set; the result is never empty |
| Products.ImageInsertPreserves | apps/products/models.py:491-505 | an image whose variant belongs to another product is refused, and an accepted image keeps the store valid |
| Products.PersistedValueIds | apps/products/models.py:389-394 | after a link is saved, each variant's value set is its old set minus the moved link plus the new value on the saved variant |
| Products.LinkGate | apps/products/models.py:339-423 | the corrected gate reports a missing reference exactly when the variant or value is missing; a pass means the variant has no other value of the attribute, the attribute is declared on the product, and no sibling holds the variant's new set after the write |
| Products.LinkGatePreservesValid | apps/products/models.py:339-423 | a link that passes the gate keeps all store rules, including the three rules enforced by `clean` |
| Products.LinkGateRefusesOnlyBreakingWrites | apps/products/models.py:339-423 | a link the gate refuses would break a store rule |
| Products.LinkGateExact | apps/products/models.py:339-423 | a link save into a valid store passes exactly when the resulting store is valid |
| Products.ResavedLinkPasses | apps/products/models.py:353-354 | re-saving a stored link unchanged always passes the corrected gate, because the link's own row is left out of its checks |
| Products.Check1Exclude | apps/products/models.py:353-354 | check 1 leaves a row out exactly when the key is set and not 0, and then it leaves out the link's own row |
| Products.LinkGateAsWritten | apps/products/models.py:339-423 | the gate as written reports a missing reference exactly when the variant or value is missing; a pass means check 1 (with the `if self.pk:` exclusion) finds no other value of the attribute, the attribute is declared, and no sibling's stored set equals the variant's new set |
| Products.ResavedLinkPassesAsWritten | apps/products/models.py:351-355 | re-saving a stored link unchanged passes the gate as written too, when its key is not 0 |
| Products.GatesAgreeUnlessLinkMoves | apps/products/models.py:339-423 | unless a re-save moves a link to another variant or the saved link sits under key 0, the gate as the source writes it decides exactly like the corrected gate |
| Products.MovedLinkSlipsThrough | apps/products/models.py:385-423 | moving a link from variant A to D leaves A with the same values as sibling C, yet the gate as written passes it and the corrected gate refuses it |
| Products.StaleSiblingRefused | apps/products/models.py:399-413 | moving a link from A to C gives all variants distinct value sets, yet the gate as written refuses it because it compares with A's stale set; the corrected gate passes it |
| Products.ZeroKeyResaveRefused | apps/products/models.py:351-355 | in a valid catalog holding a link under key 0, re-saving that link unchanged is refused by the gate as written with "already has a value" for its own attribute, while the corrected gate passes it |
| ProductStore.NextOrder | apps/core/fields.py:9-21 | the sort order used for an insert is the given one, or the next order in the row's group |
| ProductStore.CollectValueIds | apps/products/models.py:389-394 | the loop collects exactly the value ids of the variant's links, leaving out the link being saved |
| ProductStore.FindValueFor | apps/products/models.py:348-355 | the scan finds a link exactly when the variant has a value of the same attribute in a row other than the excluded one |
| ProductStore.FindDeclaration | apps/products/models.py:368-369 | the scan finds a row exactly when the attribute is declared on the product |
| ProductStore.FindTwin | apps/products/models.py:399-413 | the corrected gate's loop over sibling variants finds one exactly when a sibling has the same value set after the write |
| ProductStore.RunLinkGate | apps/products/models.py:339-423 | the query-by-query checks of the corrected gate return exactly its verdict and error |
| ProductStore.FindStoredTwin | apps/products/models.py:399-413 | check 3's loop as written finds a sibling exactly when one's stored value set has the size of the new set and equals it |
| ProductStore.RunLinkGateAsWritten | apps/products/models.py:339-423 | `clean` as written, query by query, including the `if self.pk:` test, returns exactly the verdict and error of the gate as written |
| ProductStore.Catalog.AddCategory | apps/products/models.py:27-61 | an insert fails with the first violated rule and leaves the store unchanged, or stores the category under a fresh key; the store stays valid |
| ProductStore.Catalog.AddAttribute | apps/products/models.py:67-97 | same pattern for attributes |
| ProductStore.Catalog.AddAttributeValue | apps/products/models.py:103-133 | same pattern for attribute values; the stored sort order is the given one or the next one among the attribute's values |
| ProductStore.Catalog.AddProduct | apps/products/models.py:139-203 | same pattern for products |
| ProductStore.Catalog.DeclareAttribute | apps/products/models.py:209-234 | same pattern for product-attribute declarations |
| ProductStore.Catalog.AddVariant | apps/products/models.py:240-290 | same pattern for variants; the sort order is the given one or the next one among the product's variants, and the new variant has no values |
| ProductStore.Catalog.SaveLink | apps/products/models.py:335-337 | `full_clean` before save, with the corrected gate: the link is persisted exactly when that gate passes, under its own key on a re-save and a fresh one otherwise; a refusal returns the gate's error and leaves the store unchanged; the store stays valid |
| ProductStore.Catalog.SaveImage | apps/products/models.py:480-489 | the default alt text is filled in, then the product and variant, the 5 MB size limit, the 255-character alt text and the variant's product are checked in that order; an accepted image goes after the product's other images when no order is given, and the store stays valid |
| Cart.StatusValue | apps/cart/choices.py:5-8 | every status is stored as one of "OPEN", "CHECKED_OUT", "ABANDONED" |
| Cart.CartInsertExact | apps/cart/models.py:47-70 | a cart insert into a valid table is refused exactly when the table would break a constraint: a second open user-only cart for one user, a second open anonymous cart for one session, or a cart with neither user nor session key |
| Cart.ClosedCartsNeedOnlyAnOwner | apps/cart/models.py:48-69 | a non-open cart is refused exactly when it has neither user nor session key, with the check constraint's name |
| Cart.UserCartsWithSessionKeysAreUnlimited | apps/cart/models.py:50-63 | a cart with both a user and a session key falls under neither partial unique constraint and is always accepted |
| Cart.CartInsertError | apps/cart/models.py:47-70 | the error is one of the two partial unique constraints or the owner check constraint, and a cart with neither user nor session key is always refused |
| Cart.ItemInsertExact | apps/cart/models.py:79-108 | an item insert is refused exactly when its variant is missing or the table would break a rule: the cart exists, quantity is at least 1, and the cart holds one line per variant |
| Cart.OtherCartsDoNotMatter | apps/cart/models.py:103-108 | lines of other carts never affect whether an item is accepted |
| Cart.ItemInsertError | apps/cart/models.py:79-108 | the error is a missing cart or variant, a quantity below 1, or a second line for the variant; no error means the cart and variant exist and the quantity is at least 1 |
| Cart.LineTotal | apps/cart/models.py:114-116 | a line of one unit costs the variant's price, and a line of more units costs at least that when the price is not negative |
| Cart.LineTotalBounds | apps/cart/models.py:114-116 | in valid tables a line's total is at least the unit price and below the price limit times the quantity |
| Cart.CartTable.AddCart | apps/cart/models.py:14-70 | the status defaults to OPEN; the insert fails with the first violated constraint and changes nothing, or stores the cart under a fresh key; the tables stay valid |
| Cart.CartTable.AddItem | apps/cart/models.py:79-108 | the quantity defaults to 1; same failure and success pattern for items |
| Cart.SecondOpenCartOfUser | apps/cart/models.py:48-55 | a user's second open cart is refused, while a checked-out one or another user's is accepted |
| Cart.SecondOpenCartOfSession | apps/cart/models.py:57-69 | a session's second open cart is refused, and an ownerless cart breaks the check constraint |
| Cart.SameVariantInTwoCarts | apps/cart/models.py:103-108 | one variant may sit in two carts but only once in each |
| CoreTags.AnyIsPrefix | apps/core/templatetags/core_tags.py:24 | true exactly when some tag name is a prefix of the view name |
| CoreTags.ViewMatches | apps/core/templatetags/core_tags.py:23-26 | exact matching is membership of the view name; prefix matching is "some name is a prefix" |
| CoreTags.QueryParams | apps/core/templatetags/core_tags.py:31 | the query parameters minus "page", with their values |
| CoreTags.ActiveClass | apps/core/templatetags/core_tags.py:6-40 | the tag, early exits and loop included, renders exactly what the declarative definition says |
| CoreTags.ActiveClassOf | apps/core/templatetags/core_tags.py:14-40 | the tag renders either nothing or its CSS class, and nothing without a request or resolver match |
| CoreTags.RendersClassOrNothing | apps/core/templatetags/core_tags.py:14-40 | the result is "" or the CSS class; it is "" without a request or resolver match, and the class only for a matching view |
| CoreTags.QueryOverridesUrl | apps/core/templatetags/core_tags.py:30-32 | a query parameter other than "page" overrides the URL keyword argument of the same name; otherwise the URL's value stands |
| CoreTags.PageIsIgnored | apps/core/templatetags/core_tags.py:31 | the value of "page" in the query never changes the result |
| CoreTags.ExtraParamsAreIrrelevant | apps/core/templatetags/core_tags.py:37-40 | for a tag with keyword arguments, adding a query parameter it does not name never changes the result |
| CoreTags.BareTagNeedsBareRequest | apps/core/templatetags/core_tags.py:33-36 | on a matching view, a tag without keyword arguments renders its class exactly when the request has no URL arguments and no query parameters besides "page" |
| CoreTags.PrefixMatchExtendsExactMatch | apps/core/templatetags/core_tags.py:23-26 | every view exact matching selects is selected by prefix matching too |
| CoreTags.CategoryFilterExample | apps/core/templatetags/core_tags.py:29-40 | the product list link is active for ?category=shirts&page=2, inactive for ?category=hats, and a bare prefix tag is inactive on a detail view with a slug |
| PasswordValidation.ContainsUpper | apps/users/password_validation.py:7 | true exactly when some character is uppercase |
| PasswordValidation.ContainsLower | apps/users/password_validation.py:22 | true exactly when some character is lowercase |
| PasswordValidation.ValidateUpper | apps/users/password_validation.py:5-11 | passes exactly when the password has an uppercase letter; otherwise fails with its message and code "password_no_upper" |
| PasswordValidation.ValidateLower | apps/users/password_validation.py:20-26 | passes exactly when the password has a lowercase letter; otherwise fails with its message and code "password_no_lower" |
| PasswordValidation.EmptyPasswordFailsBoth | apps/users/password_validation.py:5-26 | the empty password fails both validators with their own errors |
| PasswordValidation.UserIsIgnored | apps/users/password_validation.py:6-7 | the user argument never changes the outcome |
| PasswordValidation.PassingBothNeedsTwoCharacters | apps/users/password_validation.py:5-26 | a password both validators pass has at least two characters |
| PasswordValidation.Examples | apps/users/password_validation.py:5-26 | "Ab" passes both; "ab1" fails only the uppercase check; "AB1" fails only the lowercase check |

## Left out

- Case mapping is ASCII only, in `Lower` (the database `Lower(...)`), in `str.upper()` and in `isupper()`/`islower()`. Other scripts have no case here.
- Writes that skip validation are not modelled. The model treats every write as validated, as `ProductVariantAttributeValue.save` and `ProductImage.save` do by calling `full_clean`. A plain `save()` or `objects.create()` of the other models checks only the database constraints, not field validators such as the price minimum or the cart quantity minimum.
- `full_clean` collects every error before raising. Each insert-error function returns only the first error, in a fixed order.
- `max_length` limits are left out, except the 255-character alt text, because the other limits take no part in the rules modelled here. `blank` is modelled as the empty string; whitespace is not stripped, since Django's `CharField` strips only form input.
- Deletes, cascades (`CASCADE`, `PROTECT`) and updates of rows other than a link re-save are not modelled.
- Timestamps, `ordering`, indexes, managers, `__str__` and help texts are left out because they change no rule.
- UUID primary keys are modelled as a natural-number counter, so only key uniqueness is kept.
- Concurrent requests and transactions are not modelled: the model assumes one write at a time.
- Storage of image files is left out: image decoding, `FileExtensionValidator` and the upload path. An image is reduced to its size in bytes, which is passed in as a parameter.
- A stored row always has a sort order in this model. Rows whose `sort_order` is NULL can only come from writes that bypass `pre_save`, so they are left out.
- The dead `if not current_attribute_value_ids` branch of the combination check is left out. The set always holds the saved value.
- The users table and the existence check on a cart's user are not modelled. A user is just an identifier.
- `Cart.ItemInsertError` takes the catalog's variant keys as a parameter instead of reading them from the product tables.
- The `str()` conversion in the template tag is left out: keys and values are already strings.
- `Products.ImageInsertPreserves` is one-directional: it shows that an accepted image keeps the store valid and that a variant of another product is refused. It does not claim that every refused image breaks a rule, because the size and alt-text checks are field validators rather than store rules.
- ProductStore.Catalog.SaveLink: runs the corrected gate `LinkGate`, not `clean` as written. The two differ only on re-saves that move a link to another variant (`GatesAgreeUnlessLinkMoves`) and on a link stored under key 0, a key its counter never hands out (only an explicit key 0 is stored there). `clean` as written is `RunLinkGateAsWritten`.
- ProductStore.RunLinkGate: is the corrected gate run query by query, so it checks the state after the write and the variant a moved link leaves. It differs from `clean` as written exactly where `LinkGate` differs from `LinkGateAsWritten`.
- ProductStore.FindTwin: compares siblings' value sets after the write, as the corrected gate does. The loop as written, against the stored sets, is `FindStoredTwin`.

## Findings

| source | as written | input that shows it | evidently intended | confidence | as-written member | corrected member |
|---|---|---|---|---|---|---|
| apps/products/models.py:385-423 | On a re-save, the combination check compares only the saved variant's new value set with its siblings. The variant the link leaves is never checked. | A catalog where shirt variant A has {red, medium}, C has {medium} and D has none. Re-save A's red link onto D. A is left with {medium}, the same as C, and the save passes. | Refuse the save: afterwards two variants of the shirt have the same combination | not executed | Products.MovedLinkSlipsThrough | Products.LinkGateExact |
| apps/products/models.py:399-413 | The siblings' value sets are read as stored before the write, so a sibling still holds the link being moved. | In the same catalog, re-save A's red link onto C. Afterwards A has {medium}, C has {red, medium} and D has none, all distinct. The check compares C's new set with A's stale {red, medium} and refuses. | Accept the save, since every variant's combination stays distinct | not executed | Products.StaleSiblingRefused | Products.LinkGateExact |
| apps/products/models.py:351-355 | Check 1 leaves the link's own row out only `if self.pk:`, and a key of 0 is false. | A link saved with the explicit key 0, giving variant D red in the shirt catalog, passes every check. Re-saving it unchanged finds its own row in check 1 and is refused with "already has a value for the attribute 'Color'". Keys the database hands out start at 1, so only an explicit key 0 reaches this. | Leave the link's own row out whenever it has a key (`if self.pk is not None`) | not executed | Products.ZeroKeyResaveRefused | Products.ResavedLinkPasses |
