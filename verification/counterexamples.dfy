/**
 * The invariant of module Invariant is kept by the order handlers only. Each
 * lemma here starts from a consistent database and shows one handler call
 * that leaves it inconsistent.
 */
module Counterexamples {
  import opened Wrappers
  import opened Tables
  import opened Text
  import opened Schema
  import opened Engine
  import opened Invariant
  import Orders
  import Finance
  import opened Scenarios

  /** Order 1 of tenant 7 with an empty note, and the given ledger rows and counter. */
  function WithOrder(status: string, total: Money, ledger: map<Id, Entry>, next: nat): Db {
    State(status, total, Some(""), Table(ledger, next))
  }

  function OpenOrder(): Db {
    WithOrder(OpenStatus, 0, map[], 1)
  }

  lemma OpenOrderConsistent()
    ensures Consistent(OpenOrder(), false)
  {
    OpenIsNotFinalized();
    assert LinkedRevenue(OpenOrder().ledger.rows, 1, InTenant(Shop)) == {};
  }

  /** The linked Revenue entries of order 1 in tenant 7. */
  function Linked(db: Db): set<Id> {
    LinkedRevenue(db.ledger.rows, 1, InTenant(Shop))
  }

  /** An open order with a linked Revenue entry is out of sync. */
  lemma OpenWithRevenueInconsistent(db: Db, k: Id)
    requires 1 in db.orders.rows && db.orders.rows[1] == OpenOrder().orders.rows[1]
    requires k in Linked(db)
    ensures !Consistent(db, false)
  {
    OpenIsNotFinalized();
    assert ScopeOf(false, db.orders.rows[1]) == InTenant(Shop);
    assert |Linked(db)| >= 1;
    assert !InSync(db, false, 1);
  }

  /** A manual "Receita" may be linked to an open order: the create only guards "Despesa". */
  lemma ManualRevenueBreaksSync()
    ensures Consistent(OpenOrder(), false)
    ensures Finance.CreateEntry(OpenOrder(), Some(Shop), Some(RevenueName), Some(100), Some(1), None).Ok?
    ensures !Consistent(Finance.CreateEntry(OpenOrder(), Some(Shop), Some(RevenueName), Some(100),
                                            Some(1), None).value.db, false)
  {
    OpenOrderConsistent();
    var d := Finance.CreateEntry(OpenOrder(), Some(Shop), Some(RevenueName), Some(100), Some(1), None)
             .value.db;
    assert d.ledger.rows[1] == Entry(Some(Shop), Some(1), Revenue, 100, Some(""));
    OpenWithRevenueInconsistent(d, 1);
  }

  /** An Expense linked to an open order. */
  function OpenOrderWithExpense(): Db {
    WithOrder(OpenStatus, 0, map[1 := Entry(Some(Shop), Some(1), Expense, 50, Some(""))], 2)
  }

  /** The ordinary update path turns an Expense into a linked "Receita" without any check. */
  lemma RetypedExpenseBreaksSync()
    ensures Consistent(OpenOrderWithExpense(), false)
    ensures Finance.UpdateEntry(OpenOrderWithExpense(), 1, Some(Shop), Some(RevenueName), None,
                                Some(1), None).Ok?
    ensures !Consistent(Finance.UpdateEntry(OpenOrderWithExpense(), 1, Some(Shop), Some(RevenueName),
                                            None, Some(1), None).value, false)
  {
    var db := OpenOrderWithExpense();
    OpenIsNotFinalized();
    assert Linked(db) == {};
    assert Consistent(db, false);
    var d := Finance.UpdateEntry(db, 1, Some(Shop), Some(RevenueName), None, Some(1), None).value;
    assert d.ledger.rows[1].kind == Revenue;
    assert 1 in Linked(d);
    OpenWithRevenueInconsistent(d, 1);
  }

  /**
   * Finalising an order does not look at its Expense entries: an Expense stays
   * linked to the now finalised order, a link the entry handlers would refuse.
   */
  lemma FinalizeKeepsLinkedExpense(status: string)
    requires IsFinalized(status)
    ensures Orders.UpdateOrder(OpenOrderWithExpense(), 1, Some(Shop), status, 15000, None).Ok?
    ensures var d := Orders.UpdateOrder(OpenOrderWithExpense(), 1, Some(Shop), status, 15000, None).value;
            && d.ledger.rows[1].kind == Expense
            && d.ledger.rows[1].order == Some(1)
            && IsFinalized(d.orders.rows[1].status)
            && Finance.CreateEntry(d, Some(Shop), Some(ExpenseName), Some(50), Some(1), None)
               == Err(Conflict(ExpenseOnFinalized))
  {
    var db := OpenOrderWithExpense();
    assert !IsLinkedRevenue(db.ledger.rows[1], 1, InTenant(Shop));
    var d := Orders.UpdateOrder(db, 1, Some(Shop), status, 15000, None).value;
    assert d.ledger.rows[1] == db.ledger.rows[1];
    assert d.orders.rows[1].status == status;
  }

  /** The same with the status "Finalizada". */
  lemma FinalizedOverExpense()
    ensures Orders.UpdateOrder(OpenOrderWithExpense(), 1, Some(Shop), "Finalizada", 15000, None).Ok?
    ensures var d := Orders.UpdateOrder(OpenOrderWithExpense(), 1, Some(Shop), "Finalizada", 15000, None).value;
            d.ledger.rows[1].kind == Expense && d.ledger.rows[1].order == Some(1) &&
            IsFinalized(d.orders.rows[1].status)
  {
    CapitalisedIsFinalized();
    FinalizeKeepsLinkedExpense("Finalizada");
  }

  /** A finalised order with its one Revenue entry. */
  function FinalizedOrder(): Db {
    WithOrder("Finalizada", 15000, map[1 := Entry(Some(Shop), Some(1), Revenue, 15000, None)], 2)
  }

  lemma FinalizedOrderConsistent()
    ensures Consistent(FinalizedOrder(), false)
  {
    CapitalisedIsFinalized();
    FinalizedWithRevenueConsistent("Finalizada");
  }

  lemma FinalizedWithRevenueConsistent(status: string)
    requires IsFinalized(status)
    ensures Consistent(WithOrder(status, 15000, map[1 := Entry(Some(Shop), Some(1), Revenue, 15000, None)], 2),
                       false)
  {
    var db := WithOrder(status, 15000, map[1 := Entry(Some(Shop), Some(1), Revenue, 15000, None)], 2);
    assert db.orders.Valid() && db.ledger.Valid();
    assert LinksResolve(db, false);
    assert Linked(db) == {1};
    SingletonSize(Linked(db), 1);
    assert InSync(db, false, 1);
  }

  /** Deleting the Revenue entry of a finalised order is not guarded. */
  lemma DeletedRevenueBreaksSync()
    ensures Consistent(FinalizedOrder(), false)
    ensures Finance.DeleteEntry(FinalizedOrder(), 1, Some(Shop)).Ok?
    ensures !Consistent(Finance.DeleteEntry(FinalizedOrder(), 1, Some(Shop)).value, false)
  {
    FinalizedOrderConsistent();
    CapitalisedIsFinalized();
    var d := Finance.DeleteEntry(FinalizedOrder(), 1, Some(Shop)).value;
    assert d.ledger.rows.Keys == {};
    assert Linked(d) == {};
    assert !InSync(d, false, 1);
  }

  /** Creating an order directly with a finalised status records no revenue for it. */
  lemma FinalizedCreateBreaksSync(status: string)
    requires IsFinalized(status)
    ensures Orders.CreateOrder(EmptyDb(), Some(Shop), Some(1), Some(1), [], Some(status), Some(100),
                               None).Ok?
    ensures !Consistent(Orders.CreateOrder(EmptyDb(), Some(Shop), Some(1), Some(1), [],
                                           Some(status), Some(100), None).value.db, false)
  {
    var c := Orders.CreateOrder(EmptyDb(), Some(Shop), Some(1), Some(1), [], Some(status),
                                Some(100), None).value;
    assert c.id == 1;
    assert c.db.orders.rows[1].status == status;
    assert c.db.ledger.rows == map[];
    assert LinkedRevenue(c.db.ledger.rows, 1, InTenant(Shop)) == {};
    assert !InSync(c.db, false, 1);
  }

  /** The same with the status "Finalizada". */
  lemma CapitalisedCreateBreaksSync()
    ensures !Consistent(Orders.CreateOrder(EmptyDb(), Some(Shop), Some(1), Some(1), [],
                                           Some("Finalizada"), Some(100), None).value.db, false)
  {
    CapitalisedIsFinalized();
    FinalizedCreateBreaksSync("Finalizada");
  }
}
