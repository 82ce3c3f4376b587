/**
 * The consistency the order engine keeps between work orders and Revenue
 * entries: a finalised order has exactly one linked Revenue entry, carrying
 * its total, and any other order has none. Only the order handlers keep it;
 * the ledger handlers can break it (see module Counterexamples).
 */
module Invariant {
  import opened Wrappers
  import opened Tables
  import opened Text
  import opened Schema
  import opened Engine
  import Orders
  import Legacy

  /** In the tenant-scoped mode every order row carries a tenant. */
  ghost predicate TenantRows(db: Db, legacy: bool) {
    legacy || forall k :: k in db.orders.rows ==> db.orders.rows[k].tenant.Some?
  }

  /** The filter the handlers of a mode apply to the ledger of order `o`. */
  function ScopeOf(legacy: bool, o: Order): Scope {
    if legacy || o.tenant.None? then AnyTenant else InTenant(o.tenant.value)
  }

  /** Every linked entry names an existing order (of its own tenant, in the tenant mode). */
  ghost predicate LinksResolve(db: Db, legacy: bool) {
    forall k :: k in db.ledger.rows && db.ledger.rows[k].order.Some? ==>
      var o := db.ledger.rows[k].order.value;
      0 <= o && o in db.orders.rows &&
      (legacy || db.ledger.rows[k].tenant == db.orders.rows[o].tenant)
  }

  /** Order `id` has one Revenue entry with its total when finalised, and none otherwise. */
  ghost predicate InSync(db: Db, legacy: bool, id: Id)
    requires id in db.orders.rows
  {
    var o := db.orders.rows[id];
    var linked := LinkedRevenue(db.ledger.rows, id, ScopeOf(legacy, o));
    && |linked| == (if IsFinalized(o.status) then 1 else 0)
    && forall k :: k in linked ==> db.ledger.rows[k].amount == o.total
  }

  ghost predicate Consistent(db: Db, legacy: bool) {
    && db.orders.Valid()
    && db.ledger.Valid()
    && TenantRows(db, legacy)
    && LinksResolve(db, legacy)
    && forall id :: id in db.orders.rows ==> InSync(db, legacy, id)
  }

  lemma EmptyConsistent(legacy: bool)
    ensures Consistent(EmptyDb(), legacy)
  {
  }

  /** A set holding one element has size one. */
  lemma SingletonSize(s: set<Id>, x: Id)
    requires s == {x}
    ensures |s| == 1
  {
  }

  // ---------------------------------------------------------------------------
  // One step of the engine
  // ---------------------------------------------------------------------------

  /** Inserting an order whose status is not finalised keeps the engine consistent. */
  lemma {:induction false} InsertOrderPreserves(db: Db, legacy: bool, tenant: Option<int>,
                                                customer: int, vehicle: int, services: seq<int>,
                                                status: Option<string>, total: Option<Money>,
                                                note: Option<string>)
    requires Consistent(db, legacy)
    requires legacy || tenant.Some?
    requires !IsFinalized(status.GetOr(OpenStatus))
    ensures Consistent(InsertOrder(db, tenant, customer, vehicle, services, status, total, note).db,
                       legacy)
  {
    var c := InsertOrder(db, tenant, customer, vehicle, services, status, total, note);
    var d := c.db;
    assert d.ledger == db.ledger;
    forall id | id in d.orders.rows
      ensures InSync(d, legacy, id)
    {
      if id == c.id {
        var scope := ScopeOf(legacy, d.orders.rows[id]);
        forall k | k in d.ledger.rows
          ensures !IsLinkedRevenue(d.ledger.rows[k], id, scope)
        {
          if d.ledger.rows[k].order.Some? {
            assert d.ledger.rows[k].order.value in db.orders.rows;
          }
        }
        assert LinkedRevenue(d.ledger.rows, id, scope) == {};
      } else {
        assert d.orders.rows[id] == db.orders.rows[id];
        assert InSync(db, legacy, id);
      }
    }
  }

  /** Entries linked to another order are untouched by the ledger step of `id`. */
  lemma SyncKeepsOthers(ledger: Table<Entry>, id: Id, scope: Scope, status: string, total: Money,
                        other: Id, otherScope: Scope)
    requires ledger.Valid()
    requires other != id
    ensures var r := SyncRevenue(ledger, id, scope, status, total);
            && LinkedRevenue(r.rows, other, otherScope) == LinkedRevenue(ledger.rows, other, otherScope)
            && forall k :: k in LinkedRevenue(ledger.rows, other, otherScope) ==>
                 r.rows[k] == ledger.rows[k]
  {
    var r := SyncRevenue(ledger, id, scope, status, total);
    assert ledger.next in r.rows ==> r.rows[ledger.next].order == Some(id as int);
    forall k | k in r.rows && IsLinkedRevenue(r.rows[k], other, otherScope)
      ensures k in LinkedRevenue(ledger.rows, other, otherScope)
    {
      assert !IsLinkedRevenue(ledger.rows[k], id, scope);
    }
    forall k | k in LinkedRevenue(ledger.rows, other, otherScope)
      ensures k in r.rows && r.rows[k] == ledger.rows[k]
    {
      assert !IsLinkedRevenue(ledger.rows[k], id, scope);
    }
  }

  /** The linked set of `id` itself after its ledger step, given the engine was consistent. */
  lemma SyncOwnCount(ledger: Table<Entry>, id: Id, scope: Scope, status: string, total: Money)
    requires ledger.Valid()
    requires IsFinalized(status)
    requires |LinkedRevenue(ledger.rows, id, scope)| <= 1
    ensures var r := SyncRevenue(ledger, id, scope, status, total);
            |LinkedRevenue(r.rows, id, scope)| == 1
  {
    var r := SyncRevenue(ledger, id, scope, status, total);
    var before := LinkedRevenue(ledger.rows, id, scope);
    var after := LinkedRevenue(r.rows, id, scope);
    if before == {} {
      forall k | k in r.rows && k != ledger.next
        ensures k !in after
      {
        assert !IsLinkedRevenue(ledger.rows[k], id, scope);
      }
      assert ledger.next in after;
      assert after == {ledger.next};
      SingletonSize(after, ledger.next);
    } else {
      forall k | k in r.rows && k !in before
        ensures k !in after
      {
        assert r.rows[k] == ledger.rows[k];
      }
      assert after == before;
    }
  }

  /** The order write and ledger step of an update keep the engine consistent. */
  lemma {:induction false} ApplyUpdatePreserves(db: Db, legacy: bool, scope: Scope, id: Id,
                                                status: string, total: Money, note: Option<string>)
    requires Consistent(db, legacy)
    requires OrderIn(db, scope, id)
    requires scope == ScopeOf(legacy, db.orders.rows[id])
    ensures Consistent(ApplyUpdate(db, scope, id, status, total, note), legacy)
  {
    var d := ApplyUpdate(db, scope, id, status, total, note);
    var next := db.ledger.next;
    assert d.orders.Valid();
    assert TenantRows(d, legacy);
    forall k | k in d.ledger.rows && d.ledger.rows[k].order.Some?
      ensures var o := d.ledger.rows[k].order.value;
              0 <= o && o in d.orders.rows &&
              (legacy || d.ledger.rows[k].tenant == d.orders.rows[o].tenant)
    {
      if k == next {
        assert d.ledger.rows[k] == Entry(scope.RowTenant(), Some(id as int), Revenue, total, None);
      } else {
        assert k in db.ledger.rows;
      }
    }
    forall j | j in d.orders.rows
      ensures InSync(d, legacy, j)
    {
      var o := d.orders.rows[j];
      if j == id {
        assert ScopeOf(legacy, o) == scope;
        assert InSync(db, legacy, id);
        if IsFinalized(status) {
          SyncOwnCount(db.ledger, id, scope, status, total);
        }
      } else {
        assert o == db.orders.rows[j];
        assert InSync(db, legacy, j);
        SyncKeepsOthers(db.ledger, id, scope, status, total, j, ScopeOf(legacy, o));
      }
    }
  }

  /** A permitted delete keeps the engine consistent: no entry is left dangling. */
  lemma {:induction false} DeleteOrderPreserves(db: Db, legacy: bool, scope: Scope, id: Id)
    requires Consistent(db, legacy)
    requires legacy ==> scope == AnyTenant
    requires !legacy ==> scope.InTenant?
    requires DeleteOrderIn(db, scope, id).Ok?
    ensures Consistent(DeleteOrderIn(db, scope, id).value, legacy)
  {
    var d := DeleteOrderIn(db, scope, id).value;
    assert d.ledger == db.ledger;
    forall k | k in d.ledger.rows && d.ledger.rows[k].order.Some?
      ensures var o := d.ledger.rows[k].order.value;
              0 <= o && o in d.orders.rows &&
              (legacy || d.ledger.rows[k].tenant == d.orders.rows[o].tenant)
    {
      var o := d.ledger.rows[k].order.value;
      if o == id as int && OrderIn(db, scope, id) {
        assert !HasActivity(db.ledger.rows, id, scope);
        assert scope.Covers(db.ledger.rows[k].tenant);
        assert false;
      }
    }
    forall j | j in d.orders.rows
      ensures InSync(d, legacy, j)
    {
      assert d.orders.rows[j] == db.orders.rows[j];
      assert InSync(db, legacy, j);
    }
  }

  // ---------------------------------------------------------------------------
  // Traces of order handlers
  // ---------------------------------------------------------------------------

  /** A call to one of the three order handlers, with its request fields. */
  datatype Op =
    | CreateOp(tenant: Option<int>, customer: Option<int>, vehicle: Option<int>,
               services: seq<int>, initial: Option<string>, amount: Option<Money>,
               memo: Option<string>)
    | UpdateOp(id: Id, tenant: Option<int>, status: string, total: Money, note: Option<string>)
    | DeleteOp(id: Id, tenant: Option<int>)

  /** A create whose initial status is finalised would skip the ledger step. */
  predicate Opens(op: Op) {
    op.CreateOp? ==> !IsFinalized(op.initial.GetOr(OpenStatus))
  }

  /** One handler call of the tenant mode (or of the legacy mode); a refused call changes nothing. */
  function Step(db: Db, op: Op, legacy: bool): Db {
    match op
    case CreateOp(t, c, v, s, st, tot, n) =>
      var r := if legacy then Legacy.CreateOrder(db, c, v, s, st, tot, n)
               else Orders.CreateOrder(db, t, c, v, s, st, tot, n);
      if r.Ok? then r.value.db else db
    case UpdateOp(id, t, st, tot, n) =>
      var r := if legacy then Legacy.UpdateOrder(db, id, st, tot, n)
               else Orders.UpdateOrder(db, id, t, st, tot, n);
      if r.Ok? then r.value else db
    case DeleteOp(id, t) =>
      var r := if legacy then Legacy.DeleteOrder(db, id) else Orders.DeleteOrder(db, id, t);
      if r.Ok? then r.value else db
  }

  function Run(db: Db, ops: seq<Op>, legacy: bool): Db
    decreases |ops|
  {
    if ops == [] then db else Run(Step(db, ops[0], legacy), ops[1..], legacy)
  }

  lemma StepPreserves(db: Db, op: Op, legacy: bool)
    requires Consistent(db, legacy)
    requires Opens(op)
    ensures Consistent(Step(db, op, legacy), legacy)
  {
    match op
    case CreateOp(t, c, v, s, st, tot, n) =>
      var r := if legacy then Legacy.CreateOrder(db, c, v, s, st, tot, n)
               else Orders.CreateOrder(db, t, c, v, s, st, tot, n);
      if r.Ok? {
        InsertOrderPreserves(db, legacy, if legacy then None else t, c.value, v.value, s, st, tot, n);
      }
    case UpdateOp(id, t, st, tot, n) =>
      var r := if legacy then Legacy.UpdateOrder(db, id, st, tot, n)
               else Orders.UpdateOrder(db, id, t, st, tot, n);
      if r.Ok? {
        var scope := if legacy then AnyTenant else InTenant(t.value);
        ApplyUpdatePreserves(db, legacy, scope, id, st, tot, n);
      }
    case DeleteOp(id, t) =>
      var r := if legacy then Legacy.DeleteOrder(db, id) else Orders.DeleteOrder(db, id, t);
      if r.Ok? {
        var scope := if legacy then AnyTenant else InTenant(t.value);
        DeleteOrderPreserves(db, legacy, scope, id);
      }
  }

  /** Any run of order handlers whose creates open their orders keeps the engine consistent. */
  lemma {:induction false} RunPreserves(db: Db, ops: seq<Op>, legacy: bool)
    requires Consistent(db, legacy)
    requires forall i :: 0 <= i < |ops| ==> Opens(ops[i])
    ensures Consistent(Run(db, ops, legacy), legacy)
    decreases |ops|
  {
    if ops != [] {
      StepPreserves(db, ops[0], legacy);
      RunPreserves(Step(db, ops[0], legacy), ops[1..], legacy);
    }
  }

  /**
   * From an empty database, after any run of order handlers whose creates
   * open their orders, every finalised order has exactly one Revenue entry in
   * its scope, carrying its total, and every other order has none.
   */
  lemma {:induction false} RevenueFollowsStatus(ops: seq<Op>, legacy: bool, id: Id)
    requires forall i :: 0 <= i < |ops| ==> Opens(ops[i])
    requires id in Run(EmptyDb(), ops, legacy).orders.rows
    ensures var d := Run(EmptyDb(), ops, legacy);
            var o := d.orders.rows[id];
            var linked := LinkedRevenue(d.ledger.rows, id, ScopeOf(legacy, o));
            && (IsFinalized(o.status) <==> |linked| == 1)
            && (!IsFinalized(o.status) <==> linked == {})
            && forall k :: k in linked ==> d.ledger.rows[k].amount == o.total
  {
    EmptyConsistent(legacy);
    RunPreserves(EmptyDb(), ops, legacy);
  }

  // ---------------------------------------------------------------------------
  // Single updates
  // ---------------------------------------------------------------------------

  /** On a consistent database, finalising an order leaves exactly one Revenue entry with its total. */
  lemma {:induction false} FinalizeLeavesOneRevenue(db: Db, id: Id, tenant: Option<int>,
                                                    status: string, total: Money,
                                                    note: Option<string>)
    requires Consistent(db, false)
    requires IsFinalized(status)
    requires Orders.UpdateOrder(db, id, tenant, status, total, note).Ok?
    ensures var d := Orders.UpdateOrder(db, id, tenant, status, total, note).value;
            var linked := LinkedRevenue(d.ledger.rows, id, InTenant(tenant.value));
            && |linked| == 1
            && forall k :: k in linked ==> d.ledger.rows[k].amount == total
  {
    var scope := InTenant(tenant.value);
    assert ScopeOf(false, db.orders.rows[id]) == scope;
    ApplyUpdatePreserves(db, false, scope, id, status, total, note);
    var d := Orders.UpdateOrder(db, id, tenant, status, total, note).value;
    assert InSync(d, false, id);
    assert ScopeOf(false, d.orders.rows[id]) == scope;
  }

  /** Repeating an update with the same request changes nothing more: no second entry appears. */
  lemma {:induction false} UpdateIdempotent(db: Db, id: Id, tenant: Option<int>, status: string,
                                            total: Money, note: Option<string>)
    requires db.ledger.Valid()
    requires Orders.UpdateOrder(db, id, tenant, status, total, note).Ok?
    ensures var d := Orders.UpdateOrder(db, id, tenant, status, total, note).value;
            Orders.UpdateOrder(d, id, tenant, status, total, note) == Ok(d)
  {
    var scope := InTenant(tenant.value);
    var d := Orders.UpdateOrder(db, id, tenant, status, total, note).value;
    var e := ApplyUpdate(d, scope, id, status, total, note);
    assert d.orders.rows[id].tenant == db.orders.rows[id].tenant;
    assert Orders.UpdateOrder(d, id, tenant, status, total, note) == Ok(e);
    assert e.orders == d.orders;
    var linked := LinkedRevenue(d.ledger.rows, id, scope);
    if IsFinalized(status) {
      assert linked != {};
      assert e.ledger.rows.Keys == d.ledger.rows.Keys;
      forall k | k in d.ledger.rows
        ensures e.ledger.rows[k] == d.ledger.rows[k]
      {
        if k in linked {
          assert d.ledger.rows[k].amount == total;
        }
      }
      assert e.ledger.rows == d.ledger.rows;
    } else {
      assert linked == {};
      assert e.ledger.rows == d.ledger.rows;
    }
    assert e.ledger == d.ledger;
    assert e == d;
  }
}
