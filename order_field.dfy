/**
 * The auto-assigned sort-order field of apps/core/fields.py.
 *
 * `OrderField.pre_save` keeps an explicit order value; when the value is
 * missing it looks at the records of the same table that agree with the
 * instance on every field named in `for_fields` (the whole table when that
 * list is empty), takes the largest order among them and assigns one more,
 * or 0 when the group is empty. The value is written back onto the instance.
 */
module OrderField {
  import opened Wrappers

  /** A stored record as the field sees it: its column values by field name, and its order value. */
  datatype Row = Row(fields: map<string, int>, order: nat)

  /** `getattr(record, name)`, with a missing or null column read as None. */
  function Lookup(fields: map<string, int>, name: string): Option<int>
  {
    if name in fields then Some(fields[name]) else None
  }

  /** The record passes `filter(**{f: getattr(instance, f) for f in for_fields})`. */
  predicate InGroup(forFields: seq<string>, fields: map<string, int>, instance: map<string, int>)
  {
    forall i :: 0 <= i < |forFields| ==> Lookup(fields, forFields[i]) == Lookup(instance, forFields[i])
  }

  /** The order values of the records in the instance's group. */
  ghost function GroupOrders<K>(table: map<K, Row>, forFields: seq<string>, instance: map<string, int>): set<nat>
  {
    set k | k in table && InGroup(forFields, table[k].fields, instance) :: table[k].order
  }

  /** `n` is the value `pre_save` assigns to a group whose orders are `orders`: above all of them, and one more than the largest (0 for none). */
  ghost predicate IsNext(orders: set<nat>, n: nat)
    ensures IsNext(orders, n) ==> n !in orders && (orders != {} ==> n > 0)
  {
    && (forall o :: o in orders ==> o < n)
    && (orders == {} ==> n == 0)
    && (orders != {} ==> n - 1 in orders)
  }

  /** The model instance being saved; `pre_save` may assign its order attribute. */
  class ModelInstance {
    const fields: map<string, int>
    var sortOrder: Option<nat>

    constructor (fields: map<string, int>, sortOrder: Option<nat>)
      ensures this.fields == fields && this.sortOrder == sortOrder
    {
      this.fields := fields;
      this.sortOrder := sortOrder;
    }
  }

  /**
   * `OrderField.pre_save`. The scan over `table` stands for the query
   * `order_by("-<attname>").first()` over the instance's group.
   */
  method PreSave<K(==)>(table: map<K, Row>, forFields: seq<string>, instance: ModelInstance) returns (value: nat)
    modifies instance
    ensures old(instance.sortOrder).Some? ==> value == old(instance.sortOrder).value && unchanged(instance)
    ensures old(instance.sortOrder).None? ==> IsNext(GroupOrders(table, forFields, instance.fields), value)
    ensures instance.sortOrder == Some(value)
  {
    if instance.sortOrder.Some? {
      return instance.sortOrder.value;
    }
    var rest := table.Keys;
    var found := false;
    var top: nat := 0;
    while rest != {}
      invariant rest <= table.Keys
      invariant found <==> exists k :: k in table.Keys - rest && InGroup(forFields, table[k].fields, instance.fields)
      invariant forall k :: k in table.Keys - rest && InGroup(forFields, table[k].fields, instance.fields) ==> table[k].order <= top
      invariant found ==> exists k :: k in table.Keys - rest && InGroup(forFields, table[k].fields, instance.fields) && table[k].order == top
      decreases rest
    {
      var k :| k in rest;
      if InGroup(forFields, table[k].fields, instance.fields) && (!found || top < table[k].order) {
        found, top := true, table[k].order;
      }
      rest := rest - {k};
    }
    ghost var group := GroupOrders(table, forFields, instance.fields);
    assert table.Keys - rest == table.Keys;
    if found {
      var k :| k in table.Keys && InGroup(forFields, table[k].fields, instance.fields) && table[k].order == top;
      assert top in group;
    } else {
      assert forall k :: k in table ==> !InGroup(forFields, table[k].fields, instance.fields);
      assert group == {};
    }
    value := if found then top + 1 else 0;
    instance.sortOrder := Some(value);
  }

  /** The conditions of `IsNext` pin the value down: at most one value is ever correct. */
  lemma IsNextUnique(orders: set<nat>, m: nat, n: nat)
    requires IsNext(orders, m) && IsNext(orders, n)
    ensures m == n
  {
  }

  /**
   * Saving a record with the assigned value makes the next assignment in the
   * same group one larger: successive unordered inserts yield 0, 1, 2, ...
   */
  lemma {:induction false} NextAfterInsert<K>(table: map<K, Row>, forFields: seq<string>, instance: map<string, int>, key: K, n: nat)
    requires key !in table
    requires IsNext(GroupOrders(table, forFields, instance), n)
    ensures IsNext(GroupOrders(table[key := Row(instance, n)], forFields, instance), n + 1)
  {
    var t' := table[key := Row(instance, n)];
    assert InGroup(forFields, t'[key].fields, instance);
    assert GroupOrders(t', forFields, instance) == GroupOrders(table, forFields, instance) + {n} by {
      forall o | o in GroupOrders(t', forFields, instance)
        ensures o in GroupOrders(table, forFields, instance) + {n}
      {
        var k :| k in t' && InGroup(forFields, t'[k].fields, instance) && t'[k].order == o;
        if k != key {
          assert k in table && InGroup(forFields, table[k].fields, instance);
        }
      }
      forall o | o in GroupOrders(table, forFields, instance) + {n}
        ensures o in GroupOrders(t', forFields, instance)
      {
        if o != n {
          var k :| k in table && InGroup(forFields, table[k].fields, instance) && table[k].order == o;
          assert k in t' && t'[k] == table[k];
        }
      }
    }
  }

  /** Saving into one group never changes what another group assigns next. */
  lemma {:induction false} OtherGroupUnaffected<K>(table: map<K, Row>, forFields: seq<string>, instance: map<string, int>, key: K, n: nat, other: map<string, int>)
    requires key !in table
    requires !InGroup(forFields, instance, other)
    ensures GroupOrders(table[key := Row(instance, n)], forFields, other) == GroupOrders(table, forFields, other)
  {
    var t' := table[key := Row(instance, n)];
    forall o | o in GroupOrders(t', forFields, other)
      ensures o in GroupOrders(table, forFields, other)
    {
      var k :| k in t' && InGroup(forFields, t'[k].fields, other) && t'[k].order == o;
      assert k != key;
      assert k in table && InGroup(forFields, table[k].fields, other);
    }
    forall o | o in GroupOrders(table, forFields, other)
      ensures o in GroupOrders(t', forFields, other)
    {
      var k :| k in table && InGroup(forFields, table[k].fields, other) && table[k].order == o;
      assert k in t' && t'[k] == table[k];
    }
  }

  /** With an empty `for_fields` no filter is applied: the group is the whole table. */
  lemma WholeTableWithoutForFields<K>(table: map<K, Row>, instance: map<string, int>)
    ensures GroupOrders(table, [], instance) == set k | k in table :: table[k].order
  {
  }

  /** Gaps are not filled: siblings at 0 and 5 make the next value 6, not 1. */
  lemma GapsAreNotFilled(a: map<string, int>)
    ensures IsNext(GroupOrders(map[1 := Row(a, 0), 2 := Row(a, 5)], ["attribute"], a), 6)
  {
    var t := map[1 := Row(a, 0), 2 := Row(a, 5)];
    assert InGroup(["attribute"], t[1].fields, a) && InGroup(["attribute"], t[2].fields, a);
    assert t[1].order in GroupOrders(t, ["attribute"], a);
    assert t[2].order in GroupOrders(t, ["attribute"], a);
    assert GroupOrders(t, ["attribute"], a) == {0, 5};
  }

  /** Three unordered inserts into one group get 0, 1, 2; the first insert into another group gets 0. */
  lemma FirstInsertsCountFromZero()
    ensures IsNext(GroupOrders<int>(map[], ["attribute"], map["attribute" := 1]), 0)
    ensures IsNext(GroupOrders(map[10 := Row(map["attribute" := 1], 0)], ["attribute"], map["attribute" := 1]), 1)
    ensures IsNext(GroupOrders(map[10 := Row(map["attribute" := 1], 0), 11 := Row(map["attribute" := 1], 1)], ["attribute"], map["attribute" := 1]), 2)
    ensures IsNext(GroupOrders(map[10 := Row(map["attribute" := 1], 0), 11 := Row(map["attribute" := 1], 1)], ["attribute"], map["attribute" := 2]), 0)
  {
    var a, b := map["attribute" := 1], map["attribute" := 2];
    var t0: map<int, Row> := map[];
    assert GroupOrders(t0, ["attribute"], a) == {};
    NextAfterInsert(t0, ["attribute"], a, 10, 0);
    var t1 := t0[10 := Row(a, 0)];
    NextAfterInsert(t1, ["attribute"], a, 11, 1);
    var t2 := t1[11 := Row(a, 1)];
    assert !InGroup(["attribute"], a, b) by {
      var ff := ["attribute"];
      assert Lookup(a, ff[0]) != Lookup(b, ff[0]);
    }
    OtherGroupUnaffected(t0, ["attribute"], a, 10, 0, b);
    OtherGroupUnaffected(t1, ["attribute"], a, 11, 1, b);
    assert GroupOrders(t0, ["attribute"], b) == {};
  }

  /** A value of a keyword argument in a field's deconstruction. */
  datatype Kwarg = FieldNames(names: seq<string>) | Setting(text: string)

  /** `OrderField.__init__`: `self.for_fields = for_fields or []`, applied to the `for_fields` keyword argument. */
  function ForFieldsOf(kwargs: map<string, Kwarg>): seq<string>
  {
    if "for_fields" in kwargs && kwargs["for_fields"].FieldNames? then kwargs["for_fields"].names else []
  }

  /**
   * `OrderField.deconstruct`: adds `for_fields` to the keyword arguments of
   * the base field only when the list is non-empty, so that rebuilding the
   * field from them gives back the same grouping.
   */
  method Deconstruct(base: map<string, Kwarg>, forFields: seq<string>) returns (kwargs: map<string, Kwarg>)
    requires "for_fields" !in base
    ensures ("for_fields" in kwargs) <==> forFields != []
    ensures forall k :: k != "for_fields" ==> (k in kwargs <==> k in base) && (k in base ==> kwargs[k] == base[k])
    ensures ForFieldsOf(kwargs) == forFields
  {
    kwargs := base;
    if forFields != [] {
      kwargs := kwargs["for_fields" := FieldNames(forFields)];
    }
  }
}
