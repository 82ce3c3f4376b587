/** The tenant-scoped work-order handlers: create, update (with ledger synchronisation), delete. */
module Orders {
  import opened Wrappers
  import opened Text
  import opened Schema
  import opened Engine

  /**
   * POST of a work order. Customer, vehicle and tenant must be truthy; the
   * order is stored with status "Aberta" and total 0 unless given, one
   * association row is appended per service id, and the ledger is not touched.
   */
  function CreateOrder(db: Db, tenant: Option<int>, customer: Option<int>, vehicle: Option<int>,
                       services: seq<int>, status: Option<string>, total: Option<Money>,
                       note: Option<string>): (r: Result<Created, Error>)
    ensures r.Err? <==> !Truthy(customer) || !Truthy(vehicle) || !Truthy(tenant)
    ensures !Truthy(customer) ==> r == Err(Missing(CustomerId))
    ensures Truthy(customer) && !Truthy(vehicle) ==> r == Err(Missing(VehicleId))
    ensures Truthy(customer) && Truthy(vehicle) && !Truthy(tenant) ==> r == Err(Missing(TenantId))
    ensures r.Ok? ==>
              var d := r.value.db;
              var id := r.value.id;
              && (db.orders.Valid() ==> id !in db.orders.rows && d.orders.Valid())
              && d.orders.rows.Keys == db.orders.rows.Keys + {id}
              && d.orders.rows[id] ==
                 Order(tenant, customer.value, vehicle.value, status.GetOr(OpenStatus),
                       total.GetOr(0), Some(note.GetOr("")))
              && (forall k :: k in db.orders.rows && k != id ==> d.orders.rows[k] == db.orders.rows[k])
              && |d.links| == |db.links| + |services|
              && d.links[..|db.links|] == db.links
              && (forall s :: multiset(d.links)[Link(id, s)] ==
                               multiset(db.links)[Link(id, s)] + multiset(services)[s])
              && (forall l: Link :: l.order != id ==> multiset(d.links)[l] == multiset(db.links)[l])
              && d.ledger == db.ledger
              && d == db.(orders := d.orders, links := d.links)
  {
    if !Truthy(customer) then Err(Missing(CustomerId))
    else if !Truthy(vehicle) then Err(Missing(VehicleId))
    else if !Truthy(tenant) then Err(Missing(TenantId))
    else Ok(InsertOrder(db, tenant, customer.value, vehicle.value, services, status, total, note))
  }

  /**
   * PUT of a work order: tenant required, (id, tenant) must exist, the total
   * must lie in [0, MaxTotal]; then status, total and note are written and the
   * order's Revenue entries of the tenant follow the new status.
   */
  function UpdateOrder(db: Db, id: Id, tenant: Option<int>, status: string, total: Money,
                       note: Option<string>): (r: Result<Db, Error>)
    ensures !Truthy(tenant) ==> r == Err(Missing(TenantId))
    ensures Truthy(tenant) && !OrderIn(db, InTenant(tenant.value), id) ==> r == Err(NotFound)
    ensures Truthy(tenant) && OrderIn(db, InTenant(tenant.value), id) && total > MaxTotal ==>
              r == Err(TotalTooLarge)
    ensures Truthy(tenant) && OrderIn(db, InTenant(tenant.value), id) && total < 0 ==>
              r == Err(TotalNegative)
    ensures r.Ok? <==>
              Truthy(tenant) && OrderIn(db, InTenant(tenant.value), id) && 0 <= total <= MaxTotal
    ensures r.Ok? ==>
              var d := r.value;
              var scope := InTenant(tenant.value);
              var linked := LinkedRevenue(db.ledger.rows, id, scope);
              && d.orders.rows.Keys == db.orders.rows.Keys
              && d.orders.rows[id] ==
                 db.orders.rows[id].(status := status, total := total, note := note)
              && (forall k :: k in db.orders.rows && k != id ==> d.orders.rows[k] == db.orders.rows[k])
              && d.orders.next == db.orders.next
              && d == db.(orders := d.orders, ledger := d.ledger)
              // only the insert of a first Revenue entry moves the ledger counter
              && d.ledger.next == db.ledger.next + (if IsFinalized(status) && linked == {} then 1 else 0)
              && (db.ledger.Valid() ==> d.ledger.Valid())
              // Expense entries, other orders' and other tenants' entries are kept
              && (forall k :: k in db.ledger.rows && k != db.ledger.next &&
                              !IsLinkedRevenue(db.ledger.rows[k], id, scope) ==>
                    k in d.ledger.rows && d.ledger.rows[k] == db.ledger.rows[k])
              && (IsFinalized(status) && linked == {} ==>
                    && d.ledger.rows.Keys == db.ledger.rows.Keys + {db.ledger.next}
                    && d.ledger.rows[db.ledger.next] ==
                       Entry(Some(tenant.value), Some(id), Revenue, total, None))
              && (IsFinalized(status) && linked != {} ==>
                    && d.ledger.rows.Keys == db.ledger.rows.Keys
                    && forall k :: k in linked ==> d.ledger.rows[k] == db.ledger.rows[k].(amount := total))
              && (!IsFinalized(status) ==>
                    && d.ledger.rows.Keys == db.ledger.rows.Keys - linked
                    && LinkedRevenue(d.ledger.rows, id, scope) == {})
  {
    if !Truthy(tenant) then Err(Missing(TenantId))
    else if !OrderIn(db, InTenant(tenant.value), id) then Err(NotFound)
    else if total > MaxTotal then Err(TotalTooLarge)
    else if total < 0 then Err(TotalNegative)
    else Ok(ApplyUpdate(db, InTenant(tenant.value), id, status, total, note))
  }

  /**
   * DELETE of a work order (tenant from the query string). Refused while any
   * entry of the tenant references the order; otherwise every association row
   * of the id is removed and the order row is removed when it is the tenant's.
   */
  function DeleteOrder(db: Db, id: Id, tenant: Option<int>): (r: Result<Db, Error>)
    ensures tenant.None? ==> r == Err(Missing(TenantId))
    ensures tenant.Some? ==>
              ((exists k :: k in db.ledger.rows && db.ledger.rows[k].order == Some(id) &&
                            db.ledger.rows[k].tenant == tenant)
               <==> r == Err(Conflict(FinancialActivity)))
    ensures tenant.Some? ==>
              (r.Ok? <==> !exists k :: k in db.ledger.rows && db.ledger.rows[k].order == Some(id) &&
                                       db.ledger.rows[k].tenant == tenant)
    ensures r.Ok? ==>
              var d := r.value;
              && (forall s :: Link(id, s) !in d.links)
              && (forall l: Link :: l.order != id ==> multiset(d.links)[l] == multiset(db.links)[l])
              && (id in db.orders.rows && db.orders.rows[id].tenant == tenant ==>
                    d.orders.rows.Keys == db.orders.rows.Keys - {id})
              && (!(id in db.orders.rows && db.orders.rows[id].tenant == tenant) ==>
                    d.orders == db.orders)
              && (forall k :: k in d.orders.rows ==> d.orders.rows[k] == db.orders.rows[k])
              && d.orders.next == db.orders.next
              && d.ledger == db.ledger
              && d == db.(links := d.links, orders := d.orders)
  {
    if tenant.None? then Err(Missing(TenantId))
    else DeleteOrderIn(db, InTenant(tenant.value), id)
  }
}
