/**
 * Pairs of handler calls: a delete that undoes a create, and updates that are
 * idempotent. Only the auto-increment counters remember the undone insert.
 */
module RoundTrips {
  import opened Wrappers
  import opened Tables
  import opened Schema
  import opened Engine
  import opened Invariant
  import Orders
  import Finance
  import Registry
  import Parts
  import Legacy

  /**
   * Deleting a customer just created succeeds exactly when no order or vehicle
   * of the tenant already cites the fresh id, and then gives back the
   * customers the database had.
   */
  lemma {:induction false} CustomerCreateDelete(db: Db, tenant: Option<int>, name: Option<string>,
                                                status: Option<string>)
    requires db.customers.Valid()
    requires Registry.CreateCustomer(db, tenant, name, status).Ok?
    ensures var c := Registry.CreateCustomer(db, tenant, name, status).value;
            var r := Registry.DeleteCustomer(c.db, c.id, tenant);
            && (r.Ok? <==> !Registry.OrdersCiteCustomer(db, c.id, tenant) &&
                           !Registry.VehiclesCiteCustomer(db, c.id, tenant))
            && (r.Ok? ==> r.value == db.(customers := db.customers.(next := db.customers.next + 1)))
  {
    var c := Registry.CreateCustomer(db, tenant, name, status).value;
    assert c.db.orders == db.orders && c.db.vehicles == db.vehicles;
    var r := Registry.DeleteCustomer(c.db, c.id, tenant);
    if r.Ok? {
      assert c.db.customers.rows[c.id].tenant == tenant;
      assert r.value.customers.rows == db.customers.rows;
    }
  }

  /**
   * Deleting a vehicle just created succeeds exactly when no order of the
   * tenant already cites the fresh id, and then gives back the vehicles the
   * database had.
   */
  lemma {:induction false} VehicleCreateDelete(db: Db, tenant: Option<int>, plate: Option<string>,
                                               model: Option<string>, make: Option<string>,
                                               owner: Option<int>)
    requires db.vehicles.Valid()
    requires Registry.CreateVehicle(db, tenant, plate, model, make, owner).Ok?
    ensures var c := Registry.CreateVehicle(db, tenant, plate, model, make, owner).value;
            var r := Registry.DeleteVehicle(c.db, c.id, tenant);
            && (r.Ok? <==> !Registry.OrdersCiteVehicle(db, c.id, tenant))
            && (r.Ok? ==> r.value == db.(vehicles := db.vehicles.(next := db.vehicles.next + 1)))
  {
    var c := Registry.CreateVehicle(db, tenant, plate, model, make, owner).value;
    assert c.db.orders == db.orders;
    var r := Registry.DeleteVehicle(c.db, c.id, tenant);
    if r.Ok? {
      assert c.db.vehicles.rows[c.id].tenant == tenant;
      assert r.value.vehicles.rows == db.vehicles.rows;
    }
  }

  /** Deleting an entry just posted always succeeds and gives back the ledger the database had. */
  lemma {:induction false} EntryCreateDelete(db: Db, tenant: Option<int>, kind: Option<string>,
                                             amount: Option<Money>, order: Option<int>,
                                             description: Option<string>)
    requires db.ledger.Valid()
    requires Finance.CreateEntry(db, tenant, kind, amount, order, description).Ok?
    ensures var c := Finance.CreateEntry(db, tenant, kind, amount, order, description).value;
            Finance.DeleteEntry(c.db, c.id, tenant) ==
            Ok(db.(ledger := db.ledger.(next := db.ledger.next + 1)))
  {
    var c := Finance.CreateEntry(db, tenant, kind, amount, order, description).value;
    assert c.db.ledger.rows[c.id].tenant == tenant;
    var d := Finance.DeleteEntry(c.db, c.id, tenant).value;
    assert d.ledger.rows == db.ledger.rows;
    assert d.ledger.next == db.ledger.next + 1;
  }

  /**
   * On a consistent database, deleting an order just created always succeeds
   * (no entry can reference the fresh id): the orders and the ledger are as
   * before, and no association row of the id is left.
   */
  lemma {:induction false} OrderCreateDelete(db: Db, tenant: Option<int>, customer: Option<int>,
                                             vehicle: Option<int>, services: seq<int>,
                                             status: Option<string>, total: Option<Money>,
                                             note: Option<string>)
    requires Consistent(db, false)
    requires Orders.CreateOrder(db, tenant, customer, vehicle, services, status, total, note).Ok?
    ensures var c := Orders.CreateOrder(db, tenant, customer, vehicle, services, status, total, note).value;
            var r := Orders.DeleteOrder(c.db, c.id, tenant);
            && r.Ok?
            && r.value.orders.rows == db.orders.rows
            && r.value.ledger == db.ledger
            && (forall s :: Link(c.id, s) !in r.value.links)
            && (forall l: Link :: l.order != c.id ==> multiset(r.value.links)[l] == multiset(db.links)[l])
  {
    var c := Orders.CreateOrder(db, tenant, customer, vehicle, services, status, total, note).value;
    assert c.id !in db.orders.rows;
    forall k | k in c.db.ledger.rows && c.db.ledger.rows[k].order.Some?
      ensures c.db.ledger.rows[k].order != Some(c.id)
    {
      assert c.db.ledger.rows[k].order.value in db.orders.rows;
    }
    var r := Orders.DeleteOrder(c.db, c.id, tenant);
    assert c.db.orders.rows[c.id].tenant == tenant;
    assert r.value.orders.rows == db.orders.rows;
  }

  /** Editing a part twice with the same request leaves what the first edit left. */
  lemma {:induction false} EditPartIdempotent(db: Db, id: Id, tenant: Option<int>, name: Option<string>,
                                              code: Option<string>, quantity: Option<int>,
                                              minimum: Option<int>)
    requires Parts.EditPart(db, id, tenant, name, code, quantity, minimum).Ok?
    ensures var d := Parts.EditPart(db, id, tenant, name, code, quantity, minimum).value;
            Parts.EditPart(d, id, tenant, name, code, quantity, minimum) == Ok(d)
  {
    var d := Parts.EditPart(db, id, tenant, name, code, quantity, minimum).value;
    if id in db.parts.rows && db.parts.rows[id].tenant == tenant {
      assert d.parts.rows[id].tenant == tenant;
      assert d.parts.rows[id := d.parts.rows[id]] == d.parts.rows;
    }
  }

  /**
   * Updating a linked Revenue entry a second time with the same request
   * changes nothing more: its amount is already the order's total.
   */
  lemma {:induction false} PinnedUpdateIdempotent(db: Db, entryId: Id, tenant: Option<int>,
                                                  kind: Option<string>, amount: Option<Money>,
                                                  order: Option<int>, description: Option<string>)
    requires Finance.UpdateEntry(db, entryId, tenant, kind, amount, order, description).Ok?
    requires IsPinned(db.ledger.rows[entryId])
    ensures var d := Finance.UpdateEntry(db, entryId, tenant, kind, amount, order, description).value;
            Finance.UpdateEntry(d, entryId, tenant, kind, amount, order, description) == Ok(d)
  {
    var d := Finance.UpdateEntry(db, entryId, tenant, kind, amount, order, description).value;
    assert d.orders == db.orders;
    assert d.ledger.rows[entryId].tenant == tenant;
    assert IsPinned(d.ledger.rows[entryId]);
    var e := Finance.UpdateEntry(d, entryId, tenant, kind, amount, order, description).value;
    assert e.ledger.rows[entryId] == d.ledger.rows[entryId];
    assert e.ledger.rows == d.ledger.rows;
  }

  /**
   * Two workshops created one after the other get different ids, and the
   * second create leaves the first workshop as it was.
   */
  lemma {:induction false} WorkshopCreateTwice(db: Db, first: Option<string>, second: Option<string>)
    requires db.workshops.Valid()
    requires Registry.CreateWorkshop(db, first).Ok?
    requires Registry.CreateWorkshop(Registry.CreateWorkshop(db, first).value.db, second).Ok?
    ensures var c1 := Registry.CreateWorkshop(db, first).value;
            var c2 := Registry.CreateWorkshop(c1.db, second).value;
            && c1.id != c2.id
            && c2.db.workshops.rows.Keys == db.workshops.rows.Keys + {c1.id, c2.id}
            && c2.db.workshops.rows[c1.id] == Workshop(first.value)
            && c2.db.workshops.rows[c2.id] == Workshop(second.value)
  {
    var c1 := Registry.CreateWorkshop(db, first).value;
    assert c1.db.workshops.Valid();
    var c2 := Registry.CreateWorkshop(c1.db, second).value;
    assert c2.id !in c1.db.workshops.rows;
  }

  /**
   * After a service delete succeeds, no association row names the service and
   * the tenant's service row is gone, so repeating the delete changes nothing.
   */
  lemma {:induction false} ServiceDeleteIdempotent(db: Db, id: Id, tenant: Option<int>)
    requires Registry.DeleteService(db, id, tenant).Ok?
    ensures var d := Registry.DeleteService(db, id, tenant).value;
            && (forall l :: l in d.links ==> l.service != id)
            && !(id in d.services.rows && d.services.rows[id].tenant == tenant)
            && Registry.DeleteService(d, id, tenant) == Ok(d)
  {
    var d := Registry.DeleteService(db, id, tenant).value;
    assert d.links == db.links;
    assert !Registry.ServiceLinked(d, id);
  }

  /** In the legacy handlers too, deleting an entry just posted gives back the ledger the database had. */
  lemma {:induction false} LegacyEntryCreateDelete(db: Db, kind: Option<string>, amount: Option<Money>,
                                                   order: Option<int>, description: Option<string>)
    requires db.ledger.Valid()
    requires Legacy.CreateEntry(db, kind, amount, order, description).Ok?
    ensures var c := Legacy.CreateEntry(db, kind, amount, order, description).value;
            Legacy.DeleteEntry(c.db, c.id) == db.(ledger := db.ledger.(next := db.ledger.next + 1))
  {
    var c := Legacy.CreateEntry(db, kind, amount, order, description).value;
    var d := Legacy.DeleteEntry(c.db, c.id);
    assert d.ledger.rows == db.ledger.rows;
  }

  /** In the legacy handlers too, a second identical update of a linked Revenue entry changes nothing. */
  lemma {:induction false} LegacyPinnedUpdateIdempotent(db: Db, entryId: Id, kind: Option<string>,
                                                        amount: Option<Money>, order: Option<int>,
                                                        description: Option<string>)
    requires Legacy.UpdateEntry(db, entryId, kind, amount, order, description).Ok?
    requires IsPinned(db.ledger.rows[entryId])
    ensures var d := Legacy.UpdateEntry(db, entryId, kind, amount, order, description).value;
            Legacy.UpdateEntry(d, entryId, kind, amount, order, description) == Ok(d)
  {
    var d := Legacy.UpdateEntry(db, entryId, kind, amount, order, description).value;
    assert d.orders == db.orders;
    assert IsPinned(d.ledger.rows[entryId]);
    var e := Legacy.UpdateEntry(d, entryId, kind, amount, order, description).value;
    assert e.ledger.rows[entryId] == d.ledger.rows[entryId];
    assert e.ledger.rows == d.ledger.rows;
  }
}
