/**
 * The older non-tenant handlers of the same engine. They run every statement
 * with no tenant filter (`AnyTenant`), write NULL tenant columns, and the order
 * update has no bounds check on the total.
 */
module Legacy {
  import opened Wrappers
  import opened Text
  import opened Schema
  import opened Engine
  import Parts

  /** POST of a work order: customer and vehicle must be truthy; no tenant is stored. */
  function CreateOrder(db: Db, customer: Option<int>, vehicle: Option<int>, services: seq<int>,
                       status: Option<string>, total: Option<Money>, note: Option<string>)
    : (r: Result<Created, Error>)
    ensures r.Err? <==> !Truthy(customer) || !Truthy(vehicle)
    ensures !Truthy(customer) ==> r == Err(Missing(CustomerId))
    ensures Truthy(customer) && !Truthy(vehicle) ==> r == Err(Missing(VehicleId))
    ensures r.Ok? ==>
              var d := r.value.db;
              var id := r.value.id;
              && (db.orders.Valid() ==> id !in db.orders.rows && d.orders.Valid())
              && d.orders.rows.Keys == db.orders.rows.Keys + {id}
              && d.orders.rows[id] ==
                 Order(None, customer.value, vehicle.value, status.GetOr(OpenStatus),
                       total.GetOr(0), Some(note.GetOr("")))
              && (forall k :: k in db.orders.rows && k != id ==> d.orders.rows[k] == db.orders.rows[k])
              && |d.links| == |db.links| + |services|
              && d.links[..|db.links|] == db.links
              && (forall s :: multiset(d.links)[Link(id, s)] ==
                               multiset(db.links)[Link(id, s)] + multiset(services)[s])
              && (forall l: Link :: l.order != id ==> multiset(d.links)[l] == multiset(db.links)[l])
              && d.ledger == db.ledger
              && d == db.(orders := d.orders, links := d.links)
  {
    if !Truthy(customer) then Err(Missing(CustomerId))
    else if !Truthy(vehicle) then Err(Missing(VehicleId))
    else Ok(InsertOrder(db, None, customer.value, vehicle.value, services, status, total, note))
  }

  /**
   * PUT of a work order: only a missing id is refused, and no bound on the
   * total is checked; the Revenue entries of the order, whatever their tenant,
   * follow the new status.
   */
  function UpdateOrder(db: Db, id: Id, status: string, total: Money, note: Option<string>)
    : (r: Result<Db, Error>)
    ensures r.Err? <==> id !in db.orders.rows
    ensures r.Err? ==> r.error == NotFound
    ensures r.Ok? ==>
              var d := r.value;
              var linked := LinkedRevenue(db.ledger.rows, id, AnyTenant);
              && d.orders.rows.Keys == db.orders.rows.Keys
              && d.orders.rows[id] ==
                 db.orders.rows[id].(status := status, total := total, note := note)
              && (forall k :: k in db.orders.rows && k != id ==> d.orders.rows[k] == db.orders.rows[k])
              && d.orders.next == db.orders.next
              && d == db.(orders := d.orders, ledger := d.ledger)
              && d.ledger.next == db.ledger.next + (if IsFinalized(status) && linked == {} then 1 else 0)
              && (db.ledger.Valid() ==> d.ledger.Valid())
              && (forall k :: k in db.ledger.rows && k != db.ledger.next &&
                              !IsLinkedRevenue(db.ledger.rows[k], id, AnyTenant) ==>
                    k in d.ledger.rows && d.ledger.rows[k] == db.ledger.rows[k])
              && (IsFinalized(status) && linked == {} ==>
                    && d.ledger.rows.Keys == db.ledger.rows.Keys + {db.ledger.next}
                    && d.ledger.rows[db.ledger.next] == Entry(None, Some(id), Revenue, total, None))
              && (IsFinalized(status) && linked != {} ==>
                    && d.ledger.rows.Keys == db.ledger.rows.Keys
                    && forall k :: k in linked ==> d.ledger.rows[k] == db.ledger.rows[k].(amount := total))
              && (!IsFinalized(status) ==>
                    && d.ledger.rows.Keys == db.ledger.rows.Keys - linked
                    && LinkedRevenue(d.ledger.rows, id, AnyTenant) == {})
  {
    if id !in db.orders.rows then Err(NotFound)
    else Ok(ApplyUpdate(db, AnyTenant, id, status, total, note))
  }

  /** DELETE of a work order: refused while any entry at all references it. */
  function DeleteOrder(db: Db, id: Id): (r: Result<Db, Error>)
    ensures r.Err? <==> exists k :: k in db.ledger.rows && db.ledger.rows[k].order == Some(id)
    ensures r.Err? ==> r.error == Conflict(FinancialActivity)
    ensures r.Ok? ==>
              && (forall s :: Link(id, s) !in r.value.links)
              && (forall l: Link :: l.order != id ==> multiset(r.value.links)[l] == multiset(db.links)[l])
              && r.value.orders.rows.Keys == db.orders.rows.Keys - {id}
              && (forall k :: k in r.value.orders.rows ==> r.value.orders.rows[k] == db.orders.rows[k])
              && r.value.orders.next == db.orders.next
              && r.value.ledger == db.ledger
              && r.value == db.(links := r.value.links, orders := r.value.orders)
  {
    DeleteOrderIn(db, AnyTenant, id)
  }

  /** POST of a ledger entry: the kind and amount rule and the expense rule, with no tenant. */
  function CreateEntry(db: Db, kind: Option<string>, amount: Option<Money>, order: Option<int>,
                       description: Option<string>): (r: Result<Created, Error>)
    ensures kind.GetOr(RevenueName) == "" || !Truthy(amount) ==> r == Err(Missing(KindAndAmount))
    ensures r == Err(NotFound) <==>
              kind.GetOr(RevenueName) == ExpenseName && Truthy(amount) &&
              order.Some? && !(0 <= order.value && order.value in db.orders.rows)
    ensures r == Err(Conflict(ExpenseOnFinalized)) <==>
              kind.GetOr(RevenueName) == ExpenseName && Truthy(amount) &&
              order.Some? && 0 <= order.value && order.value in db.orders.rows &&
              IsFinalized(db.orders.rows[order.value].status)
    ensures r.Ok? <==>
              kind.GetOr(RevenueName) != "" && Truthy(amount) &&
              !(kind.GetOr(RevenueName) == ExpenseName && order.Some? &&
                (!(0 <= order.value && order.value in db.orders.rows) ||
                 IsFinalized(db.orders.rows[order.value].status)))
    ensures r.Ok? ==>
              var d := r.value.db;
              && (db.ledger.Valid() ==> r.value.id !in db.ledger.rows && d.ledger.Valid())
              && d.ledger.rows.Keys == db.ledger.rows.Keys + {r.value.id}
              && d.ledger.rows[r.value.id] ==
                 Entry(None, order, ParseKind(kind.GetOr(RevenueName)), amount.value,
                       Some(description.GetOr("")))
              && (forall k :: k in db.ledger.rows && k != r.value.id ==> d.ledger.rows[k] == db.ledger.rows[k])
              && d == db.(ledger := d.ledger)
  {
    var kindName := kind.GetOr(RevenueName);
    if kindName == "" || !Truthy(amount) then Err(Missing(KindAndAmount))
    else PostEntry(db, AnyTenant, kindName, amount.value, order, description.GetOr(""))
  }

  /**
   * PUT of a ledger entry: a linked Revenue entry takes its order's total (0
   * when the order is gone) and only the caller's description.
   */
  function UpdateEntry(db: Db, entryId: Id, kind: Option<string>, amount: Option<Money>,
                       order: Option<int>, description: Option<string>): (r: Result<Db, Error>)
    ensures entryId !in db.ledger.rows ==> r == Err(NotFound)
    ensures r.Ok? ==>
              && r.value.ledger.rows.Keys == db.ledger.rows.Keys
              && r.value.ledger.next == db.ledger.next
              && (forall k :: k in db.ledger.rows && k != entryId ==>
                    r.value.ledger.rows[k] == db.ledger.rows[k])
              && r.value == db.(ledger := r.value.ledger)
    ensures entryId in db.ledger.rows && IsPinned(db.ledger.rows[entryId]) ==>
              var cur := db.ledger.rows[entryId];
              var o := cur.order.value;
              && r.Ok?
              && r.value.ledger.rows[entryId] ==
                 cur.(amount := if 0 <= o && o in db.orders.rows then db.orders.rows[o].total else 0,
                      description := if description.Some? then description else cur.description)
    ensures entryId in db.ledger.rows && !IsPinned(db.ledger.rows[entryId]) ==>
              var cur := db.ledger.rows[entryId];
              var kindName := kind.GetOr(KindName(cur.kind));
              && (r.Err? <==> kindName == ExpenseName && order.Some? &&
                              (!(0 <= order.value && order.value in db.orders.rows) ||
                               IsFinalized(db.orders.rows[order.value].status)))
              && (r == Err(NotFound) <==> kindName == ExpenseName && order.Some? &&
                                          !(0 <= order.value && order.value in db.orders.rows))
              && (r == Err(Conflict(ExpenseOnFinalized)) <==>
                    kindName == ExpenseName && order.Some? &&
                    0 <= order.value && order.value in db.orders.rows &&
                    IsFinalized(db.orders.rows[order.value].status))
              && (r.Ok? ==>
                    r.value.ledger.rows[entryId] ==
                    Entry(cur.tenant, order, ParseKind(kindName), amount.GetOr(cur.amount),
                          if description.Some? then description else cur.description))
    ensures r.Ok? && r.value.ledger.rows[entryId].kind == Expense &&
            r.value.ledger.rows[entryId].order.Some? ==>
              var o := r.value.ledger.rows[entryId].order.value;
              0 <= o && o in db.orders.rows && !IsFinalized(db.orders.rows[o].status)
  {
    EditEntry(db, AnyTenant, entryId, kind, amount, order, description)
  }

  /** DELETE of a ledger entry by id alone: no guard and no tenant filter. */
  function DeleteEntry(db: Db, entryId: Id): (d: Db)
    ensures entryId in db.ledger.rows ==> d.ledger.rows.Keys == db.ledger.rows.Keys - {entryId}
    ensures entryId !in db.ledger.rows ==> d == db
    ensures forall k :: k in d.ledger.rows ==> d.ledger.rows[k] == db.ledger.rows[k]
    ensures d.ledger.next == db.ledger.next
    ensures d == db.(ledger := d.ledger)
  {
    DeleteEntryIn(db, AnyTenant, entryId)
  }

  /** POST of a part: name and code are required; no tenant is stored; the class is derived. */
  function CreatePart(db: Db, name: Option<string>, code: Option<string>, quantity: Option<int>,
                      minimum: Option<int>): (r: Result<Created, Error>)
    ensures r.Err? <==> !Filled(name) || !Filled(code)
    ensures r.Err? ==> r.error == Missing(NameAndCode)
    ensures r.Ok? ==> r.value.db.parts.rows.Keys == db.parts.rows.Keys + {r.value.id}
    ensures r.Ok? ==>
              && (db.parts.Valid() ==> r.value.id !in db.parts.rows && r.value.db.parts.Valid())
              && forall k :: k in db.parts.rows && k != r.value.id ==>
                   r.value.db.parts.rows[k] == db.parts.rows[k]
    ensures r.Ok? ==>
              var p := r.value.db.parts.rows[r.value.id];
              && p.tenant == None && p.name == name.value && p.code == code.value
              && p.quantity == quantity.GetOr(0) && p.minimum == minimum.GetOr(0)
              && p.stock == Parts.StockOf(p.quantity, p.minimum)
              && (Parts.StockDerived(db) ==> Parts.StockDerived(r.value.db))
              && r.value.db == db.(parts := r.value.db.parts)
  {
    if !Filled(name) || !Filled(code) then Err(Missing(NameAndCode))
    else
      var q := quantity.GetOr(0);
      var m := minimum.GetOr(0);
      var p := Part(None, name.value, code.value, q, m, Parts.StockOf(q, m));
      Ok(Created(db.(parts := db.parts.Insert(p)), db.parts.next))
  }

  /**
   * PUT of a part by id alone: absent fields are written as "" and 0, the
   * tenant column is left as stored, and the class is derived again.
   */
  function EditPart(db: Db, id: Id, name: Option<string>, code: Option<string>,
                    quantity: Option<int>, minimum: Option<int>): (d: Db)
    ensures d.parts.rows.Keys == db.parts.rows.Keys
    ensures forall k :: k in db.parts.rows && k != id ==> d.parts.rows[k] == db.parts.rows[k]
    ensures id in db.parts.rows ==>
              var p := d.parts.rows[id];
              && p.tenant == db.parts.rows[id].tenant
              && p.quantity == quantity.GetOr(0) && p.minimum == minimum.GetOr(0)
              && p.name == name.GetOr("") && p.code == code.GetOr("")
              && p.stock == Parts.StockOf(p.quantity, p.minimum)
    ensures id !in db.parts.rows ==> d == db
    ensures d.parts.next == db.parts.next
    ensures Parts.StockDerived(db) ==> Parts.StockDerived(d)
    ensures d == db.(parts := d.parts)
  {
    if id in db.parts.rows then
      var q := quantity.GetOr(0);
      var m := minimum.GetOr(0);
      var p := Part(db.parts.rows[id].tenant, name.GetOr(""), code.GetOr(""), q, m, Parts.StockOf(q, m));
      db.(parts := db.parts.(rows := db.parts.rows[id := p]))
    else db
  }
}
