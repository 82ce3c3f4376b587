/**
 * The work-order engine shared by the tenant-scoped handlers and the legacy
 * non-tenant handlers. Every lookup and every ledger statement is filtered by a
 * `Scope`: `InTenant(t)` adds the `oficina_id = t` predicate, `AnyTenant` adds none.
 */
module Engine {
  import opened Wrappers
  import opened Tables
  import opened Text
  import opened Schema

  datatype Scope = InTenant(tenant: int) | AnyTenant {

    /** Whether a row whose tenant column holds `rowTenant` passes the filter (NULL never matches). */
    predicate Covers(rowTenant: Option<int>) {
      AnyTenant? || rowTenant == Some(tenant)
    }

    /** The tenant column written by an insert made under this scope. */
    function RowTenant(): Option<int> {
      if InTenant? then Some(tenant) else None
    }
  }

  /** `SELECT ... FROM ordens_servico WHERE id = ?` under the scope finds a row. */
  predicate OrderIn(db: Db, scope: Scope, id: int) {
    0 <= id && id in db.orders.rows && scope.Covers(db.orders.rows[id].tenant)
  }

  /** `ordem_servico_id = id AND tipo = 'Receita'` under the scope. */
  predicate IsLinkedRevenue(e: Entry, id: int, scope: Scope) {
    e.order == Some(id) && e.kind == Revenue && scope.Covers(e.tenant)
  }

  /** The ids of the Revenue entries the engine keeps in step with order `id`. */
  function LinkedRevenue(rows: map<Id, Entry>, id: int, scope: Scope): (ks: set<Id>)
    ensures ks <= rows.Keys
  {
    set k | k in rows && IsLinkedRevenue(rows[k], id, scope)
  }

  /** Some entry of any kind under the scope references order `id`. */
  predicate HasActivity(rows: map<Id, Entry>, id: int, scope: Scope) {
    exists k :: k in rows && rows[k].order == Some(id) && scope.Covers(rows[k].tenant)
  }

  // ---------------------------------------------------------------------------
  // Association rows
  // ---------------------------------------------------------------------------

  /** One association row per service id, in request order, duplicates kept. */
  function ServiceLinks(id: int, services: seq<int>): (r: seq<Link>)
    ensures |r| == |services|
    ensures forall l :: multiset(r)[l] == if l.order == id then multiset(services)[l.service] else 0
  {
    if services == [] then []
    else
      assert services == [services[0]] + services[1..];
      [Link(id, services[0])] + ServiceLinks(id, services[1..])
  }

  /** `DELETE FROM ordem_servico_servicos WHERE ordem_servico_id = id`. */
  function WithoutOrder(links: seq<Link>, id: int): (r: seq<Link>)
    ensures |r| <= |links|
    ensures forall l :: multiset(r)[l] == if l.order == id then 0 else multiset(links)[l]
  {
    if links == [] then []
    else
      assert links == [links[0]] + links[1..];
      var rest := WithoutOrder(links[1..], id);
      if links[0].order == id then rest else [links[0]] + rest
  }

  // ---------------------------------------------------------------------------
  // Work orders
  // ---------------------------------------------------------------------------

  /**
   * INSERT of a work order and of its association rows. No ledger row is
   * written, whatever the initial status.
   */
  function InsertOrder(db: Db, tenant: Option<int>, customer: int, vehicle: int,
                       services: seq<int>, status: Option<string>, total: Option<Money>,
                       note: Option<string>): (c: Created)
    ensures c.id == db.orders.next
    ensures db.orders.Valid() ==> c.id !in db.orders.rows && c.db.orders.Valid()
    ensures c.db.orders.rows.Keys == db.orders.rows.Keys + {c.id}
    ensures c.db.orders.rows[c.id] ==
            Order(tenant, customer, vehicle, status.GetOr(OpenStatus), total.GetOr(0),
                  Some(note.GetOr("")))
    ensures forall k :: k in db.orders.rows && k != c.id ==> c.db.orders.rows[k] == db.orders.rows[k]
    ensures |c.db.links| == |db.links| + |services|
    ensures c.db.links[..|db.links|] == db.links
    ensures forall l :: multiset(c.db.links)[l] ==
              multiset(db.links)[l] + (if l.order == c.id then multiset(services)[l.service] else 0)
    ensures c.db == db.(orders := c.db.orders, links := c.db.links)
  {
    var id := db.orders.next;
    var o := Order(tenant, customer, vehicle, status.GetOr(OpenStatus), total.GetOr(0),
                   Some(note.GetOr("")));
    var links := db.links + ServiceLinks(id, services);
    assert links[..|db.links|] == db.links;
    Created(db.(orders := db.orders.Insert(o), links := links), id)
  }

  /**
   * The ledger step of an order update: with a finalised status the linked
   * Revenue entries take the new total (one is inserted when there is none);
   * with any other status they are deleted.
   */
  function SyncRevenue(ledger: Table<Entry>, id: Id, scope: Scope, status: string, total: Money)
    : (r: Table<Entry>)
    // entries outside the synchronised set are never touched (`next` is fresh in a valid table)
    ensures forall k :: k in ledger.rows && k != ledger.next &&
                        !IsLinkedRevenue(ledger.rows[k], id, scope) ==>
              k in r.rows && r.rows[k] == ledger.rows[k]
    ensures ledger.Valid() ==> r.Valid()
    // the counter moves only for the one insert
    ensures r.next == ledger.next +
              (if IsFinalized(status) && LinkedRevenue(ledger.rows, id, scope) == {} then 1 else 0)
    // at most the one fresh id appears, and no entry changes its tenant, link or kind
    ensures r.rows.Keys <= ledger.rows.Keys + {ledger.next}
    ensures forall k :: k in r.rows && k in ledger.rows && k != ledger.next ==>
              && r.rows[k].tenant == ledger.rows[k].tenant
              && r.rows[k].order == ledger.rows[k].order
              && r.rows[k].kind == ledger.rows[k].kind
    ensures ledger.next in r.rows && ledger.next !in ledger.rows ==>
              r.rows[ledger.next] == Entry(scope.RowTenant(), Some(id), Revenue, total, None)
    // finalised, nothing linked yet: exactly one entry is added
    ensures IsFinalized(status) && LinkedRevenue(ledger.rows, id, scope) == {} ==>
              && r.rows.Keys == ledger.rows.Keys + {ledger.next}
              && r.rows[ledger.next] == Entry(scope.RowTenant(), Some(id), Revenue, total, None)
    // finalised, already linked: no entry is added and only the amounts change
    ensures IsFinalized(status) && LinkedRevenue(ledger.rows, id, scope) != {} ==>
              && r.rows.Keys == ledger.rows.Keys
              && r.next == ledger.next
              && forall k :: k in LinkedRevenue(ledger.rows, id, scope) ==>
                   r.rows[k] == ledger.rows[k].(amount := total)
    // finalised: afterwards some linked entry exists and every one carries the total
    ensures IsFinalized(status) ==>
              && LinkedRevenue(r.rows, id, scope) != {}
              && forall k :: k in LinkedRevenue(r.rows, id, scope) ==> r.rows[k].amount == total
    // any other status: exactly the linked Revenue entries disappear
    ensures !IsFinalized(status) ==>
              && r.rows.Keys == ledger.rows.Keys - LinkedRevenue(ledger.rows, id, scope)
              && r.next == ledger.next
              && LinkedRevenue(r.rows, id, scope) == {}
  {
    var linked := LinkedRevenue(ledger.rows, id, scope);
    if IsFinalized(status) then
      if linked == {} then
        var t := ledger.Insert(Entry(scope.RowTenant(), Some(id), Revenue, total, None));
        assert ledger.next in LinkedRevenue(t.rows, id, scope);
        forall k | k in t.rows && k != ledger.next
          ensures !IsLinkedRevenue(t.rows[k], id, scope)
        {
          assert k !in linked && t.rows[k] == ledger.rows[k];
        }
        t
      else
        var rows := map k | k in ledger.rows ::
                      if k in linked then ledger.rows[k].(amount := total) else ledger.rows[k];
        assert LinkedRevenue(rows, id, scope) == linked;
        Table(rows, ledger.next)
    else
      Table(ledger.rows - linked, ledger.next)
  }

  /** The order row write of an update, followed by the ledger step. */
  function ApplyUpdate(db: Db, scope: Scope, id: Id, status: string, total: Money,
                       note: Option<string>): (d: Db)
    requires OrderIn(db, scope, id)
    ensures d.orders.rows.Keys == db.orders.rows.Keys && d.orders.next == db.orders.next
    ensures d.orders.rows[id] == db.orders.rows[id].(status := status, total := total, note := note)
    ensures forall k :: k in db.orders.rows && k != id ==> d.orders.rows[k] == db.orders.rows[k]
    ensures d.ledger == SyncRevenue(db.ledger, id, scope, status, total)
    ensures d == db.(orders := d.orders, ledger := d.ledger)
  {
    var o := db.orders.rows[id].(status := status, total := total, note := note);
    db.(orders := db.orders.(rows := db.orders.rows[id := o]),
        ledger := SyncRevenue(db.ledger, id, scope, status, total))
  }

  /**
   * The guarded delete of an order: refused while any entry under the scope
   * references it; otherwise every association row of the id goes (with no
   * tenant filter) and the order row goes when the scope covers it.
   */
  function DeleteOrderIn(db: Db, scope: Scope, id: Id): (r: Result<Db, Error>)
    ensures r.Err? <==> HasActivity(db.ledger.rows, id, scope)
    ensures r.Err? ==> r.error == Conflict(FinancialActivity)
    ensures r.Ok? ==>
              && (forall l :: multiset(r.value.links)[l] ==
                               if l.order == id then 0 else multiset(db.links)[l])
              && r.value.orders.rows.Keys ==
                 (if OrderIn(db, scope, id) then db.orders.rows.Keys - {id} else db.orders.rows.Keys)
              && (forall k :: k in r.value.orders.rows ==> r.value.orders.rows[k] == db.orders.rows[k])
              && r.value.orders.next == db.orders.next
              && r.value == db.(links := r.value.links, orders := r.value.orders)
  {
    if HasActivity(db.ledger.rows, id, scope) then Err(Conflict(FinancialActivity))
    else
      var orders := if OrderIn(db, scope, id) then db.orders.Remove(id) else db.orders;
      Ok(db.(links := WithoutOrder(db.links, id), orders := orders))
  }

  // ---------------------------------------------------------------------------
  // Ledger entries
  // ---------------------------------------------------------------------------

  /** The rule both entry writes apply: an Expense may only link to an open order of the scope. */
  function ExpenseCheck(db: Db, scope: Scope, kindName: string, order: Option<int>)
    : (r: Outcome<Error>)
    ensures r.Fail? ==> kindName == ExpenseName && order.Some?
    ensures r.Fail? ==> r.error in {NotFound, Conflict(ExpenseOnFinalized)}
    ensures r.Pass? && kindName == ExpenseName && order.Some? ==>
              OrderIn(db, scope, order.value) && !IsFinalized(db.orders.rows[order.value].status)
    ensures r == Fail(NotFound) <==>
              kindName == ExpenseName && order.Some? && !OrderIn(db, scope, order.value)
    ensures r == Fail(Conflict(ExpenseOnFinalized)) <==>
              kindName == ExpenseName && order.Some? && OrderIn(db, scope, order.value) &&
              IsFinalized(db.orders.rows[order.value].status)
  {
    if kindName == ExpenseName && order.Some? then
      if !OrderIn(db, scope, order.value) then Fail(NotFound)
      else if IsFinalized(db.orders.rows[order.value].status) then Fail(Conflict(ExpenseOnFinalized))
      else Pass
    else Pass
  }

  /** The expense check, then the INSERT of the entry with the scope's tenant column. */
  function PostEntry(db: Db, scope: Scope, kindName: string, amount: Money, order: Option<int>,
                     description: string): (r: Result<Created, Error>)
    ensures r.Err? <==> ExpenseCheck(db, scope, kindName, order).Fail?
    ensures r.Err? ==> r.error == ExpenseCheck(db, scope, kindName, order).error
    ensures r.Ok? ==>
              && r.value.id == db.ledger.next
              && r.value.db.ledger.rows.Keys == db.ledger.rows.Keys + {r.value.id}
              && r.value.db.ledger.rows[r.value.id] ==
                 Entry(scope.RowTenant(), order, ParseKind(kindName), amount, Some(description))
              && (forall k :: k in db.ledger.rows && k != r.value.id ==>
                    r.value.db.ledger.rows[k] == db.ledger.rows[k])
              && (db.ledger.Valid() ==> r.value.id !in db.ledger.rows && r.value.db.ledger.Valid())
              && r.value.db == db.(ledger := r.value.db.ledger)
  {
    match ExpenseCheck(db, scope, kindName, order)
    case Fail(e) => Err(e)
    case Pass =>
      var e := Entry(scope.RowTenant(), order, ParseKind(kindName), amount, Some(description));
      Ok(Created(db.(ledger := db.ledger.Insert(e)), db.ledger.next))
  }

  /** The total a linked Revenue entry is pinned to: the order's, or 0 when the order is gone. */
  function PinnedAmount(db: Db, scope: Scope, order: int): Money {
    if OrderIn(db, scope, order) then db.orders.rows[order].total else 0
  }

  /** A Revenue entry linked to an order: the case the ledger update protects. */
  predicate IsPinned(e: Entry) {
    e.kind == Revenue && e.order.Some?
  }

  /**
   * The update of one entry. A linked Revenue entry keeps its kind and link,
   * takes its amount from the order and only its description from the caller;
   * any other entry takes the caller's fields, where an absent order id clears
   * the link and the other absent fields keep their stored values.
   */
  function EditEntry(db: Db, scope: Scope, entryId: Id, kind: Option<string>,
                     amount: Option<Money>, order: Option<int>, description: Option<string>)
    : (r: Result<Db, Error>)
    ensures r == Err(NotFound) <==>
              !(entryId in db.ledger.rows && scope.Covers(db.ledger.rows[entryId].tenant)) ||
              (!IsPinned(db.ledger.rows[entryId]) &&
               ExpenseCheck(db, scope, kind.GetOr(KindName(db.ledger.rows[entryId].kind)), order)
                 == Fail(NotFound))
    ensures r.Ok? ==>
              && r.value.ledger.rows.Keys == db.ledger.rows.Keys
              && r.value.ledger.next == db.ledger.next
              && (forall k :: k in db.ledger.rows && k != entryId ==>
                    r.value.ledger.rows[k] == db.ledger.rows[k])
              && r.value == db.(ledger := r.value.ledger)
    // a linked Revenue entry is always rewritten, pinned to its order's total
    ensures entryId in db.ledger.rows && scope.Covers(db.ledger.rows[entryId].tenant) &&
            IsPinned(db.ledger.rows[entryId]) ==>
              var cur := db.ledger.rows[entryId];
              && r.Ok?
              && r.value.ledger.rows[entryId] ==
                 cur.(amount := if OrderIn(db, scope, cur.order.value)
                                then db.orders.rows[cur.order.value].total else 0,
                      description := if description.Some? then description else cur.description)
    // any other entry: the expense rule decides, and the caller's fields are written
    ensures entryId in db.ledger.rows && scope.Covers(db.ledger.rows[entryId].tenant) &&
            !IsPinned(db.ledger.rows[entryId]) ==>
              var cur := db.ledger.rows[entryId];
              var kindName := kind.GetOr(KindName(cur.kind));
              && (r.Err? <==> ExpenseCheck(db, scope, kindName, order).Fail?)
              && (r.Err? ==> r.error == ExpenseCheck(db, scope, kindName, order).error)
              && (r.Ok? ==>
                    r.value.ledger.rows[entryId] ==
                    Entry(cur.tenant, order, ParseKind(kindName), amount.GetOr(cur.amount),
                          if description.Some? then description else cur.description))
    // whatever the path, no Expense ends up linked to a missing or finalised order
    ensures r.Ok? && r.value.ledger.rows[entryId].kind == Expense &&
            r.value.ledger.rows[entryId].order.Some? ==>
              var o := r.value.ledger.rows[entryId].order.value;
              OrderIn(db, scope, o) && !IsFinalized(db.orders.rows[o].status)
  {
    if !(entryId in db.ledger.rows && scope.Covers(db.ledger.rows[entryId].tenant)) then
      Err(NotFound)
    else
      var cur := db.ledger.rows[entryId];
      var desc := if description.Some? then description else cur.description;
      if IsPinned(cur) then
        var e := cur.(amount := PinnedAmount(db, scope, cur.order.value), description := desc);
        Ok(db.(ledger := db.ledger.(rows := db.ledger.rows[entryId := e])))
      else
        var kindName := kind.GetOr(KindName(cur.kind));
        match ExpenseCheck(db, scope, kindName, order)
        case Fail(err) => Err(err)
        case Pass =>
          var e := Entry(cur.tenant, order, ParseKind(kindName), amount.GetOr(cur.amount), desc);
          Ok(db.(ledger := db.ledger.(rows := db.ledger.rows[entryId := e])))
  }

  /** `DELETE FROM financeiro WHERE id = ?` under the scope: unguarded. */
  function DeleteEntryIn(db: Db, scope: Scope, entryId: Id): (d: Db)
    ensures entryId in db.ledger.rows && scope.Covers(db.ledger.rows[entryId].tenant) ==>
              d.ledger.rows.Keys == db.ledger.rows.Keys - {entryId}
    ensures !(entryId in db.ledger.rows && scope.Covers(db.ledger.rows[entryId].tenant)) ==>
              d == db
    ensures forall k :: k in d.ledger.rows ==> d.ledger.rows[k] == db.ledger.rows[k]
    ensures d.ledger.next == db.ledger.next
    ensures d == db.(ledger := d.ledger)
  {
    if entryId in db.ledger.rows && scope.Covers(db.ledger.rows[entryId].tenant) then
      db.(ledger := db.ledger.Remove(entryId))
    else db
  }
}
