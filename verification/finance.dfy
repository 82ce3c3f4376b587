/** The tenant-scoped ledger handlers: create, update and delete of entries. */
module Finance {
  import opened Wrappers
  import opened Text
  import opened Schema
  import opened Engine

  /**
   * POST of a ledger entry. The kind defaults to "Receita"; kind and amount
   * must be truthy, then the tenant; an Expense linked to an order needs that
   * order to exist in the tenant and not be finalised. Revenue entries are not
   * checked against their order at all.
   */
  function CreateEntry(db: Db, tenant: Option<int>, kind: Option<string>, amount: Option<Money>,
                       order: Option<int>, description: Option<string>): (r: Result<Created, Error>)
    ensures kind.GetOr(RevenueName) == "" || !Truthy(amount) ==> r == Err(Missing(KindAndAmount))
    ensures kind.GetOr(RevenueName) != "" && Truthy(amount) && !Truthy(tenant) ==>
              r == Err(Missing(TenantId))
    ensures r == Err(NotFound) <==>
              kind.GetOr(RevenueName) == ExpenseName && Truthy(amount) && Truthy(tenant) &&
              order.Some? && !OrderIn(db, InTenant(tenant.value), order.value)
    ensures r == Err(Conflict(ExpenseOnFinalized)) <==>
              kind.GetOr(RevenueName) == ExpenseName && Truthy(amount) && Truthy(tenant) &&
              order.Some? && OrderIn(db, InTenant(tenant.value), order.value) &&
              IsFinalized(db.orders.rows[order.value].status)
    ensures r.Ok? <==>
              kind.GetOr(RevenueName) != "" && Truthy(amount) && Truthy(tenant) &&
              !(kind.GetOr(RevenueName) == ExpenseName && order.Some? &&
                (!OrderIn(db, InTenant(tenant.value), order.value) ||
                 IsFinalized(db.orders.rows[order.value].status)))
    ensures r.Ok? ==>
              var d := r.value.db;
              var id := r.value.id;
              && (db.ledger.Valid() ==> id !in db.ledger.rows && d.ledger.Valid())
              && d.ledger.rows.Keys == db.ledger.rows.Keys + {id}
              && d.ledger.rows[id] ==
                 Entry(tenant, order, ParseKind(kind.GetOr(RevenueName)), amount.value,
                       Some(description.GetOr("")))
              && (forall k :: k in db.ledger.rows && k != id ==> d.ledger.rows[k] == db.ledger.rows[k])
              && d == db.(ledger := d.ledger)
    ensures r.Ok? && r.value.db.ledger.rows[r.value.id].kind == Expense && order.Some? ==>
              OrderIn(db, InTenant(tenant.value), order.value) &&
              !IsFinalized(db.orders.rows[order.value].status)
  {
    var kindName := kind.GetOr(RevenueName);
    if kindName == "" || !Truthy(amount) then Err(Missing(KindAndAmount))
    else if !Truthy(tenant) then Err(Missing(TenantId))
    else PostEntry(db, InTenant(tenant.value), kindName, amount.value, order, description.GetOr(""))
  }

  /**
   * PUT of a ledger entry of the tenant. A Revenue entry linked to an order is
   * pinned: its amount becomes the order's current total (0 when the order is
   * not found in the tenant), its kind and link stay, and only the description
   * comes from the caller. Any other entry is rewritten from the request.
   */
  function UpdateEntry(db: Db, entryId: Id, tenant: Option<int>, kind: Option<string>,
                       amount: Option<Money>, order: Option<int>, description: Option<string>)
    : (r: Result<Db, Error>)
    ensures !Truthy(tenant) ==> r == Err(Missing(TenantId))
    ensures Truthy(tenant) &&
            !(entryId in db.ledger.rows && db.ledger.rows[entryId].tenant == tenant) ==>
              r == Err(NotFound)
    ensures r.Ok? ==>
              && r.value.ledger.rows.Keys == db.ledger.rows.Keys
              && r.value.ledger.next == db.ledger.next
              && (forall k :: k in db.ledger.rows && k != entryId ==>
                    r.value.ledger.rows[k] == db.ledger.rows[k])
              && r.value == db.(ledger := r.value.ledger)
    ensures Truthy(tenant) && entryId in db.ledger.rows && db.ledger.rows[entryId].tenant == tenant &&
            IsPinned(db.ledger.rows[entryId]) ==>
              var cur := db.ledger.rows[entryId];
              var o := cur.order.value;
              && r.Ok?
              && r.value.ledger.rows[entryId].kind == Revenue
              && r.value.ledger.rows[entryId].order == cur.order
              && r.value.ledger.rows[entryId].tenant == cur.tenant
              && r.value.ledger.rows[entryId].amount ==
                 (if OrderIn(db, InTenant(tenant.value), o) then db.orders.rows[o].total else 0)
              && r.value.ledger.rows[entryId].description ==
                 (if description.Some? then description else cur.description)
    ensures Truthy(tenant) && entryId in db.ledger.rows && db.ledger.rows[entryId].tenant == tenant &&
            !IsPinned(db.ledger.rows[entryId]) ==>
              var cur := db.ledger.rows[entryId];
              var kindName := kind.GetOr(KindName(cur.kind));
              && (r.Err? <==> kindName == ExpenseName && order.Some? &&
                              (!OrderIn(db, InTenant(tenant.value), order.value) ||
                               IsFinalized(db.orders.rows[order.value].status)))
              && (r == Err(NotFound) <==> kindName == ExpenseName && order.Some? &&
                                          !OrderIn(db, InTenant(tenant.value), order.value))
              && (r == Err(Conflict(ExpenseOnFinalized)) <==>
                    kindName == ExpenseName && order.Some? &&
                    OrderIn(db, InTenant(tenant.value), order.value) &&
                    IsFinalized(db.orders.rows[order.value].status))
              && (r.Ok? ==>
                    r.value.ledger.rows[entryId] ==
                    Entry(cur.tenant, order, ParseKind(kindName), amount.GetOr(cur.amount),
                          if description.Some? then description else cur.description))
    ensures r.Ok? && r.value.ledger.rows[entryId].kind == Expense &&
            r.value.ledger.rows[entryId].order.Some? ==>
              var o := r.value.ledger.rows[entryId].order.value;
              OrderIn(db, InTenant(tenant.value), o) && !IsFinalized(db.orders.rows[o].status)
  {
    if !Truthy(tenant) then Err(Missing(TenantId))
    else EditEntry(db, InTenant(tenant.value), entryId, kind, amount, order, description)
  }

  /** DELETE of a ledger entry of the tenant: no guard of any kind. */
  function DeleteEntry(db: Db, entryId: Id, tenant: Option<int>): (r: Result<Db, Error>)
    ensures tenant.None? <==> r.Err?
    ensures r.Err? ==> r.error == Missing(TenantId)
    ensures r.Ok? ==>
              && (entryId in db.ledger.rows && db.ledger.rows[entryId].tenant == tenant ==>
                    r.value.ledger.rows.Keys == db.ledger.rows.Keys - {entryId})
              && (!(entryId in db.ledger.rows && db.ledger.rows[entryId].tenant == tenant) ==>
                    r.value == db)
              && (forall k :: k in r.value.ledger.rows ==> r.value.ledger.rows[k] == db.ledger.rows[k])
              && r.value.ledger.next == db.ledger.next
              && r.value == db.(ledger := r.value.ledger)
  {
    if tenant.None? then Err(Missing(TenantId))
    else Ok(DeleteEntryIn(db, InTenant(tenant.value), entryId))
  }
}
