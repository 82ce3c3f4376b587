/**
 * Workshops, customers, vehicles and services: required-field validation on
 * create and the referential guards on delete.
 */
module Registry {
  import opened Wrappers
  import opened Tables
  import opened Schema

  /** An order of the tenant references the customer. */
  predicate OrdersCiteCustomer(db: Db, id: Id, tenant: Option<int>) {
    exists k :: k in db.orders.rows && db.orders.rows[k].customer == id &&
                db.orders.rows[k].tenant == tenant
  }

  /** A vehicle of the tenant names the customer as its owner. */
  predicate VehiclesCiteCustomer(db: Db, id: Id, tenant: Option<int>) {
    exists k :: k in db.vehicles.rows && db.vehicles.rows[k].owner == Some(id) &&
                db.vehicles.rows[k].tenant == tenant
  }

  /** An order of the tenant references the vehicle. */
  predicate OrdersCiteVehicle(db: Db, id: Id, tenant: Option<int>) {
    exists k :: k in db.orders.rows && db.orders.rows[k].vehicle == id &&
                db.orders.rows[k].tenant == tenant
  }

  /** An association row of any order, of any tenant, names the service. */
  predicate ServiceLinked(db: Db, id: Id) {
    exists i :: 0 <= i < |db.links| && db.links[i].service == id
  }

  /** `DELETE ... WHERE id = ? AND oficina_id = ?` on one table. */
  function RemoveScoped<V>(t: Table<V>, id: Id, tenant: Option<int>, tenantOf: V -> Option<int>)
    : (r: Table<V>)
    ensures id in t.rows && tenantOf(t.rows[id]) == tenant ==> r.rows.Keys == t.rows.Keys - {id}
    ensures !(id in t.rows && tenantOf(t.rows[id]) == tenant) ==> r == t
    ensures r.next == t.next
    ensures forall k :: k in r.rows ==> r.rows[k] == t.rows[k]
  {
    if id in t.rows && tenantOf(t.rows[id]) == tenant then t.Remove(id) else t
  }

  /** POST of a workshop: the name is required. */
  function CreateWorkshop(db: Db, name: Option<string>): (r: Result<Created, Error>)
    ensures r.Err? <==> !Filled(name)
    ensures r.Err? ==> r.error == Missing(Name)
    ensures r.Ok? ==>
              && r.value.db.workshops.rows.Keys == db.workshops.rows.Keys + {r.value.id}
              && r.value.db.workshops.rows[r.value.id] == Workshop(name.value)
              && (db.workshops.Valid() ==> r.value.id !in db.workshops.rows && r.value.db.workshops.Valid())
              && (forall k :: k in db.workshops.rows && k != r.value.id ==>
                    r.value.db.workshops.rows[k] == db.workshops.rows[k])
              && r.value.db == db.(workshops := r.value.db.workshops)
  {
    if !Filled(name) then Err(Missing(Name))
    else Ok(Created(db.(workshops := db.workshops.Insert(Workshop(name.value))), db.workshops.next))
  }

  /** POST of a customer: the name, then the tenant, are required; status defaults to "Ativo". */
  function CreateCustomer(db: Db, tenant: Option<int>, name: Option<string>, status: Option<string>)
    : (r: Result<Created, Error>)
    ensures !Filled(name) ==> r == Err(Missing(Name))
    ensures Filled(name) && !Truthy(tenant) ==> r == Err(Missing(TenantId))
    ensures r.Ok? <==> Filled(name) && Truthy(tenant)
    ensures r.Ok? ==>
              && r.value.db.customers.rows.Keys == db.customers.rows.Keys + {r.value.id}
              && r.value.db.customers.rows[r.value.id] ==
                 Customer(tenant, name.value, status.GetOr("Ativo"))
              && (db.customers.Valid() ==> r.value.id !in db.customers.rows && r.value.db.customers.Valid())
              && (forall k :: k in db.customers.rows && k != r.value.id ==>
                    r.value.db.customers.rows[k] == db.customers.rows[k])
              && r.value.db == db.(customers := r.value.db.customers)
  {
    if !Filled(name) then Err(Missing(Name))
    else if !Truthy(tenant) then Err(Missing(TenantId))
    else
      var c := Customer(tenant, name.value, status.GetOr("Ativo"));
      Ok(Created(db.(customers := db.customers.Insert(c)), db.customers.next))
  }

  /** POST of a vehicle: plate, model and make, then the tenant, are required. */
  function CreateVehicle(db: Db, tenant: Option<int>, plate: Option<string>, model: Option<string>,
                         make: Option<string>, owner: Option<int>): (r: Result<Created, Error>)
    ensures !Filled(plate) || !Filled(model) || !Filled(make) ==> r == Err(Missing(PlateModelMake))
    ensures Filled(plate) && Filled(model) && Filled(make) && !Truthy(tenant) ==>
              r == Err(Missing(TenantId))
    ensures r.Ok? <==> Filled(plate) && Filled(model) && Filled(make) && Truthy(tenant)
    ensures r.Ok? ==>
              && r.value.db.vehicles.rows.Keys == db.vehicles.rows.Keys + {r.value.id}
              && r.value.db.vehicles.rows[r.value.id] ==
                 Vehicle(tenant, plate.value, model.value, make.value, owner)
              && (db.vehicles.Valid() ==> r.value.id !in db.vehicles.rows && r.value.db.vehicles.Valid())
              && (forall k :: k in db.vehicles.rows && k != r.value.id ==>
                    r.value.db.vehicles.rows[k] == db.vehicles.rows[k])
              && r.value.db == db.(vehicles := r.value.db.vehicles)
  {
    if !Filled(plate) || !Filled(model) || !Filled(make) then Err(Missing(PlateModelMake))
    else if !Truthy(tenant) then Err(Missing(TenantId))
    else
      var v := Vehicle(tenant, plate.value, model.value, make.value, owner);
      Ok(Created(db.(vehicles := db.vehicles.Insert(v)), db.vehicles.next))
  }

  /**
   * DELETE of a customer (tenant from the query string): refused while an
   * order of the tenant references it (checked first) or a vehicle of the
   * tenant belongs to it; otherwise only the (id, tenant) row goes.
   */
  function DeleteCustomer(db: Db, id: Id, tenant: Option<int>): (r: Result<Db, Error>)
    ensures tenant.None? ==> r == Err(Missing(TenantId))
    ensures tenant.Some? && OrdersCiteCustomer(db, id, tenant) ==>
              r == Err(Conflict(CustomerHasOrders))
    ensures tenant.Some? && !OrdersCiteCustomer(db, id, tenant) && VehiclesCiteCustomer(db, id, tenant) ==>
              r == Err(Conflict(CustomerHasVehicles))
    ensures r.Ok? <==>
              tenant.Some? && !OrdersCiteCustomer(db, id, tenant) && !VehiclesCiteCustomer(db, id, tenant)
    ensures r.Ok? ==>
              && (id in db.customers.rows && db.customers.rows[id].tenant == tenant ==>
                    r.value.customers.rows.Keys == db.customers.rows.Keys - {id})
              && (!(id in db.customers.rows && db.customers.rows[id].tenant == tenant) ==>
                    r.value == db)
              && (forall k :: k in r.value.customers.rows ==>
                    r.value.customers.rows[k] == db.customers.rows[k])
              && r.value.customers.next == db.customers.next
              && r.value == db.(customers := r.value.customers)
  {
    if tenant.None? then Err(Missing(TenantId))
    else if OrdersCiteCustomer(db, id, tenant) then Err(Conflict(CustomerHasOrders))
    else if VehiclesCiteCustomer(db, id, tenant) then Err(Conflict(CustomerHasVehicles))
    else Ok(db.(customers := RemoveScoped(db.customers, id, tenant, (c: Customer) => c.tenant)))
  }

  /** DELETE of a vehicle: refused while an order of the tenant references it. */
  function DeleteVehicle(db: Db, id: Id, tenant: Option<int>): (r: Result<Db, Error>)
    ensures tenant.None? ==> r == Err(Missing(TenantId))
    ensures tenant.Some? && OrdersCiteVehicle(db, id, tenant) ==> r == Err(Conflict(VehicleHasOrders))
    ensures r.Ok? <==> tenant.Some? && !OrdersCiteVehicle(db, id, tenant)
    ensures r.Ok? ==>
              && (id in db.vehicles.rows && db.vehicles.rows[id].tenant == tenant ==>
                    r.value.vehicles.rows.Keys == db.vehicles.rows.Keys - {id})
              && (!(id in db.vehicles.rows && db.vehicles.rows[id].tenant == tenant) ==>
                    r.value == db)
              && (forall k :: k in r.value.vehicles.rows ==>
                    r.value.vehicles.rows[k] == db.vehicles.rows[k])
              && r.value.vehicles.next == db.vehicles.next
              && r.value == db.(vehicles := r.value.vehicles)
  {
    if tenant.None? then Err(Missing(TenantId))
    else if OrdersCiteVehicle(db, id, tenant) then Err(Conflict(VehicleHasOrders))
    else Ok(db.(vehicles := RemoveScoped(db.vehicles, id, tenant, (v: Vehicle) => v.tenant)))
  }

  /**
   * DELETE of a service: refused while any association row names it, whatever
   * the tenant of its order; otherwise only the (id, tenant) row goes.
   */
  function DeleteService(db: Db, id: Id, tenant: Option<int>): (r: Result<Db, Error>)
    ensures tenant.None? ==> r == Err(Missing(TenantId))
    ensures tenant.Some? && ServiceLinked(db, id) ==> r == Err(Conflict(ServiceInUse))
    ensures r.Ok? <==> tenant.Some? && forall l :: l in db.links ==> l.service != id
    ensures r.Ok? ==>
              && (id in db.services.rows && db.services.rows[id].tenant == tenant ==>
                    r.value.services.rows.Keys == db.services.rows.Keys - {id})
              && (!(id in db.services.rows && db.services.rows[id].tenant == tenant) ==>
                    r.value == db)
              && (forall k :: k in r.value.services.rows ==>
                    r.value.services.rows[k] == db.services.rows[k])
              && r.value.services.next == db.services.next
              && r.value == db.(services := r.value.services)
  {
    if tenant.None? then Err(Missing(TenantId))
    else if ServiceLinked(db, id) then Err(Conflict(ServiceInUse))
    else Ok(db.(services := RemoveScoped(db.services, id, tenant, (s: Service) => s.tenant)))
  }
}
