/**
 * One work order of tenant 7 followed through the handlers: created open,
 * finalised at 150.00, reopened, and the writes its finalised state refuses.
 */
module Scenarios {
  import opened Wrappers
  import opened Tables
  import opened Text
  import opened Schema
  import opened Engine
  import Orders
  import Finance
  import Registry

  const Shop: int := 7

  /** Order 1 of tenant 7, with the given status, total and note, and the given ledger. */
  function State(status: string, total: Money, note: Option<string>, ledger: Table<Entry>): Db {
    EmptyDb().(orders := Table(map[1 := Order(Some(Shop), 1, 1, status, total, note)], 2),
               ledger := ledger)
  }

  /** Just after the create: the order is open with total 0 and the ledger is empty. */
  function Opened(): Db {
    State(OpenStatus, 0, Some(""), EmptyTable())
  }

  /** After the order is finalised at 150.00: it has its one Revenue entry. */
  function Closed(): Db {
    State("Finalizada", 15000, None, Table(map[1 := Entry(Some(Shop), Some(1), Revenue, 15000, None)], 2))
  }

  /** After the order is reopened: its Revenue entry is gone. */
  function Reopened(): Db {
    State(OpenStatus, 15000, None, Table(map[], 2))
  }

  lemma ScenarioCreate()
    ensures Orders.CreateOrder(EmptyDb(), Some(Shop), Some(1), Some(1), [], None, None, None)
            == Ok(Created(Opened(), 1))
  {
    var r := Orders.CreateOrder(EmptyDb(), Some(Shop), Some(1), Some(1), [], None, None, None);
    assert r.value.db.orders.rows == Opened().orders.rows;
    assert r.value.db.links == [];
  }

  lemma ScenarioFinalize()
    ensures Orders.UpdateOrder(Opened(), 1, Some(Shop), "Finalizada", 15000, None) == Ok(Closed())
  {
    CapitalisedIsFinalized();
    FinalizeOpened("Finalizada");
  }

  /** Finalising the open order at 150.00, for any spelling of the finalised status. */
  lemma FinalizeOpened(status: string)
    requires IsFinalized(status)
    ensures Orders.UpdateOrder(Opened(), 1, Some(Shop), status, 15000, None) ==
            Ok(Closed().(orders := Table(map[1 := Order(Some(Shop), 1, 1, status, 15000, None)], 2)))
  {
    assert LinkedRevenue(Opened().ledger.rows, 1, InTenant(Shop)) == {};
    var r := Orders.UpdateOrder(Opened(), 1, Some(Shop), status, 15000, None);
    assert r.value.orders.rows == map[1 := Order(Some(Shop), 1, 1, status, 15000, None)];
    assert r.value.ledger.rows == Closed().ledger.rows;
  }

  lemma ScenarioReopen()
    ensures Orders.UpdateOrder(Closed(), 1, Some(Shop), OpenStatus, 15000, None) == Ok(Reopened())
  {
    OpenIsNotFinalized();
    assert LinkedRevenue(Closed().ledger.rows, 1, InTenant(Shop)) == {1};
    var r := Orders.UpdateOrder(Closed(), 1, Some(Shop), OpenStatus, 15000, None);
    assert r.value.orders.rows == Reopened().orders.rows;
    assert r.value.ledger.rows == map[];
  }

  /** No expense may be posted against the finalised order. */
  lemma ScenarioExpenseRefused()
    ensures Finance.CreateEntry(Closed(), Some(Shop), Some(ExpenseName), Some(500), Some(1), None)
            == Err(Conflict(ExpenseOnFinalized))
  {
    CapitalisedIsFinalized();
  }

  /** The finalised order cannot be deleted while its revenue exists. */
  lemma ScenarioDeleteRefused()
    ensures Orders.DeleteOrder(Closed(), 1, Some(Shop)) == Err(Conflict(FinancialActivity))
  {
    assert Closed().ledger.rows[1].order == Some(1);
  }

  /** The customer of the open order cannot be deleted. */
  lemma ScenarioCustomerRefused()
    ensures Registry.DeleteCustomer(Opened(), 1, Some(Shop)) == Err(Conflict(CustomerHasOrders))
  {
    assert Opened().orders.rows[1].customer == 1;
    assert Registry.OrdersCiteCustomer(Opened(), 1, Some(Shop));
  }

  /** The total bound: 99,999,999.99 is accepted, one cent more or a negative total is not. */
  lemma ScenarioTotalBounds()
    ensures Orders.UpdateOrder(Opened(), 1, Some(Shop), OpenStatus, 9_999_999_999, None).Ok?
    ensures Orders.UpdateOrder(Opened(), 1, Some(Shop), OpenStatus, 10_000_000_000, None)
            == Err(TotalTooLarge)
    ensures Orders.UpdateOrder(Opened(), 1, Some(Shop), OpenStatus, -1, None) == Err(TotalNegative)
  {
  }
}
