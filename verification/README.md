# Work-order and ledger engine of the workshop back end

The Flask back end of a car-repair workshop keeps work orders (*ordens de
serviço*) and a ledger (*financeiro*) of Revenue ("Receita") and Expense
("Despesa") entries in step. This project models that engine as an immutable
state machine: a `Db` holds one auto-increment table per entity, plus the
order–service association rows. Each HTTP handler becomes a pure function
that returns either the new state or an error. The error is a missing
required field (`Missing`, naming it), a work-order total out of range
(`TotalTooLarge`, `TotalNegative`), `NotFound`, or `Conflict` with a reason.

The engine is written once, in module `Engine`, and parameterised by a
`Scope`:

- **The tenant-scoped handlers of `database.py`.** These are modules
  `Orders`, `Finance`, `Parts` and `Registry`. They filter their statements
  by `oficina_id` (`InTenant(t)`), with two exceptions the model keeps: the
  association rows of a deleted order go whatever their tenant
  (`database.py:710`), and the service-delete guard counts association rows
  of every tenant (`database.py:829-831`).
- **The older handlers of `database_backup.py`.** These are module
  `Legacy`. They filter by nothing (`AnyTenant`), and the rows they write
  have a NULL tenant.

The create and delete handlers for workshops, customers and vehicles in
`database_new.py` are line-for-line the same as those of `database.py`, and
`Registry` models both; the list queries of the two files differ and are not
modelled.

Conventions:

- **Money.** Amounts are integer cents. The order total bound of
  99,999,999.99 is `MaxTotal = 9_999_999_999`.
- **Optional request fields.** An optional JSON field is an `Option` (`None`
  means the key is absent). A Python truth test on a body field is
  `Truthy`, for integers, or `Filled`, for text. A query-string tenant counts
  as present when it is `Some`.
- **Finalised status.** A status counts as finalised when its ASCII
  lower-case form is `"finalizada"`.

The central property is the one the order update maintains: **a finalised
order has exactly one Revenue entry in its scope, carrying its total, and any
other order has none.**

- `Invariant.RevenueFollowsStatus` proves this for every run of the three
  order handlers from an empty database whose creates do not start
  finalised, in both modes.
- It does not hold for the whole system. `Counterexamples` exhibits four
  single calls that break it from a consistent state:
  - a manual "Receita" posted against an open order, because the create
    only guards "Despesa";
  - the ordinary entry update turning an Expense into a linked "Receita";
  - the unguarded entry delete;
  - a work order created directly as "Finalizada", because the create never
    writes to the ledger.
- A second promise, that no Expense is linked to a finalised order, is kept
  by the entry handlers only: finalising an order never looks at its Expense
  entries, so one linked before stays linked
  (`Counterexamples.FinalizeKeepsLinkedExpense`).

Three behaviours of the code are easy to misread:

- **Tenant filter on the order-delete guard.** The order delete in
  `database.py` counts only the tenant's entries in its guard. Only the
  backup's guard ignores the tenant. The model follows the code in each file.
- **Negative part quantities.** A negative quantity at or below the minimum
  is classed "Baixo", because the rule compares with the minimum before it
  looks at the sign.
- **Missing order id on the ordinary entry update.** On that path a missing
  `ordem_servico_id` clears the entry's order link rather than keeping it.

## Model

| member | source | states |
|---|---|---|
| Text.Lower | database.py:640 | lower-casing keeps the length and lower-cases each ASCII letter in place |
| Text.FinalizedSpellings | database.py:640 | a status is finalised exactly when it spells "finalizada" with any mix of upper and lower case |
| Text.CapitalisedIsFinalized | database.py:640 | the capitalised spelling "Finalizada" counts as finalised |
| Text.OpenIsNotFinalized | database.py:550 | the default status "Aberta" does not count as finalised |
| Schema.ParseKind | database.py:1068 | reading a `tipo` text gives a kind that writes back as the same text, and never an `Other` holding a known name |
| Schema.ParseKindName | database.py:1093-1095 | a stored kind read back from its text is the same kind |
| Engine.ServiceLinks | database.py:559-564 | one association row per requested service id, duplicates kept: multiset counts equal the service id counts |
| Engine.WithoutOrder | database.py:710 | exactly the association rows of the order disappear; every other row keeps its count |
| Engine.InsertOrder | database.py:544-564 | the order gets the fresh id with "Aberta"/0/"" defaults; the rows of its services are appended after the existing rows; the ledger is untouched |
| Engine.SyncRevenue | database.py:640-666 | finalised with nothing linked: exactly one Revenue entry with the total is added; finalised with links: only their amounts change; any other status: exactly the linked Revenue entries go; no other entry changes; the id counter moves only for the insert |
| Engine.ApplyUpdate | database.py:623-666 | the order row takes the new status, total and note, then the ledger step runs; other orders and tables are unchanged |
| Engine.DeleteOrderIn | database.py:694-713 | refused exactly when an entry in scope cites the order; otherwise all association rows of the id go and the order row goes when the scope covers it |
| Engine.ExpenseCheck | database.py:1080-1089 | an Expense linked to an order fails with NotFound exactly when the order is not in scope and with Conflict exactly when it is finalised; nothing else fails |
| Engine.PostEntry | database.py:1080-1095 | the expense rule decides, then exactly one entry is added with the scope's tenant and the parsed kind |
| Engine.EditEntry | database.py:1122-1193 | a linked Revenue entry keeps kind and link and takes the order's total; any other entry is rewritten from the request under the expense rule and fails with that rule's error; the id counter is kept; no Expense ends up linked to a missing or finalised order |
| Engine.DeleteEntryIn | database.py:1211-1215 | the entry goes when it is in scope and nothing else changes |
| Orders.CreateOrder | database.py:525-564 | customer, then vehicle, then tenant must be truthy (error iff one is not); the order is added with defaults, one association row per service, and the ledger is unchanged |
| Orders.UpdateOrder | database.py:591-666 | tenant missing, NotFound, total above the bound, negative total in that order; success iff none applies; then the Revenue entries of (order, tenant) follow the status while Expense and other tenants' entries are kept; the orders counter is kept and the ledger counter moves by one exactly when a first Revenue entry is inserted |
| Orders.DeleteOrder | database.py:686-713 | tenant required; refused iff an entry of the tenant cites the order and accepted otherwise; then all association rows of the id go, the order row only when its tenant matches, surviving orders, the id counter and the ledger are unchanged |
| Finance.CreateEntry | database.py:1067-1095 | kind (default "Receita") and amount, then tenant, are required; an Expense on an order fails NotFound iff the order is not the tenant's and Conflict iff it is finalised; success iff none of these refusals applies, and then exactly one entry is added and every other entry is unchanged |
| Finance.UpdateEntry | database.py:1116-1193 | a linked Revenue entry takes the order's current total (0 if absent), keeps kind, link and tenant and only takes the description; any other entry fails iff it would become an Expense on a missing or finalised order, with NotFound (404) when the order is not the tenant's and Conflict (400) when it is finalised, and is otherwise rewritten with an absent order id clearing the link; other entries and the id counter unchanged |
| Finance.DeleteEntry | database.py:1202-1215 | only a missing tenant fails; the tenant's entry is removed with no guard; nothing else changes, the id counter included |
| Parts.StockOf | database.py:893-899 | "Sem Estoque" iff the quantity is 0; for a positive quantity "Baixo" iff at or below the minimum and "Em Estoque" iff above it; a negative quantity at or below the minimum is "Baixo" |
| Parts.CreatePart | database.py:886-909 | name and code, then tenant, are required; the new part carries quantity and minimum (default 0) and the derived class; existing parts are unchanged and every stored class stays derived |
| Parts.EditPart | database.py:931-953 | only a missing tenant fails; the tenant's part keeps its tenant and is rewritten with absent fields as "" or 0 and its class derived again; other parts and the id counter are unchanged; a missing row changes nothing |
| Registry.CreateWorkshop | database_new.py:27-40 | fails iff the name is absent or empty; otherwise exactly one workshop with that name is added under a fresh id and existing workshops are unchanged |
| Registry.CreateCustomer | database_new.py:117-132 | the name, then the tenant, are required (success iff both hold); status defaults to "Ativo"; the customer gets a fresh id, other customers and tables are unchanged |
| Registry.CreateVehicle | database_new.py:291-307 | plate, model and make, then the tenant, are required (success iff all hold); the vehicle gets a fresh id, other vehicles and tables are unchanged |
| Registry.DeleteCustomer | database.py:243-279 | tenant required; refused for an order of the tenant citing the customer (checked first), then for a vehicle of the tenant owned by it; success iff neither; only the (id, tenant) row goes, and the surviving rows and the id counter are unchanged |
| Registry.DeleteVehicle | database.py:411-435 | tenant required; refused iff an order of the tenant cites the vehicle; only the (id, tenant) row goes, and the surviving rows and the id counter are unchanged |
| Registry.DeleteService | database.py:820-843 | tenant required; refused iff any association row of any tenant names the service; only the (id, tenant) row goes and surviving services are unchanged |
| Registry.RemoveScoped | database_new.py:230-233 | a delete filtered by id and tenant removes exactly that row when it matches and changes nothing otherwise |
| Legacy.CreateOrder | database_backup.py:356-390 | customer, then vehicle, must be truthy (error iff not); the order is stored with a NULL tenant and defaults, one association row per service, existing orders and the ledger are unchanged |
| Legacy.UpdateOrder | database_backup.py:517-570 | fails iff the id is absent (NotFound); the handler checks no bound on the total, so a negative total is written as given; the order's Revenue entries of every tenant follow the status; the orders counter is kept and the ledger counter moves by one exactly when a first Revenue entry is inserted |
| Legacy.DeleteOrder | database_backup.py:629-645 | refused iff any entry of any tenant cites the order; otherwise its association rows and its row go, while surviving orders, the id counter and the ledger are unchanged |
| Legacy.CreateEntry | database_backup.py:929-950 | kind and amount required; an Expense on an order fails NotFound iff the order is absent and Conflict iff it is finalised; success iff none of these refusals applies, and the entry is stored with a NULL tenant while every other entry is unchanged |
| Legacy.UpdateEntry | database_backup.py:970-1031 | a linked Revenue entry takes its order's total (0 if gone) and only the description; any other entry fails iff it would become an Expense on a missing or finalised order, with NotFound when the order is absent and Conflict when it is finalised, and is otherwise rewritten from the request; the id counter is kept |
| Legacy.DeleteEntry | database_backup.py:1046-1055 | the entry with the id, of whatever tenant, is removed with no guard; nothing else changes |
| Legacy.CreatePart | database_backup.py:786-806 | name and code are required (error iff not); the part is stored with a NULL tenant and the derived class, and existing parts are unchanged |
| Legacy.EditPart | database_backup.py:827-845 | the part with the id, of whatever tenant, is rewritten with absent fields as "" or 0 and its class derived again, keeping its tenant; the id counter is kept; a missing id changes nothing |
| Invariant.InsertOrderPreserves | database.py:544-564 | inserting an order whose status is not finalised keeps the engine consistent |
| Invariant.ApplyUpdatePreserves | database.py:623-666 | an accepted order update keeps the engine consistent, for any status |
| Invariant.DeleteOrderPreserves | database.py:694-713 | an accepted order delete keeps the engine consistent |
| Invariant.StepPreserves | database.py:518-719 | any order handler call, refused or accepted, keeps the engine consistent when a create does not start finalised |
| Invariant.RunPreserves | database.py:518-719 | any sequence of such calls keeps the engine consistent |
| Invariant.RevenueFollowsStatus | database.py:640-666 | after any run of the order handlers from an empty database whose creates do not start finalised, an order is finalised iff it has exactly one Revenue entry in scope, not finalised iff it has none, and the entry carries its total |
| Invariant.FinalizeLeavesOneRevenue | database.py:640-660 | on a consistent database, finalising an order leaves exactly one linked Revenue entry, carrying the new total |
| Invariant.UpdateIdempotent | database.py:623-666 | repeating an order update with the same request changes nothing: no second Revenue entry appears |
| Invariant.EmptyConsistent | database.py:640-666 | the empty database is consistent |
| Counterexamples.ManualRevenueBreaksSync | database.py:1080 | a "Receita" posted against an open order is accepted and leaves the open order with a linked Revenue entry |
| Counterexamples.RetypedExpenseBreaksSync | database.py:1161-1193 | turning an Expense of an open order into "Receita" is accepted and leaves that order out of sync |
| Counterexamples.DeletedRevenueBreaksSync | database.py:1202-1215 | deleting the Revenue entry of a finalised order is accepted and leaves it with no revenue |
| Counterexamples.FinalizedCreateBreaksSync | database.py:544-554 | an order created with any finalised spelling of the status is accepted and has no Revenue entry, so the database is not consistent |
| Counterexamples.CapitalisedCreateBreaksSync | database.py:550 | the same for an order created as "Finalizada" |
| Counterexamples.FinalizeKeepsLinkedExpense | database.py:623-666 | finalising an open order that has a linked Expense is accepted and leaves that Expense linked to the finalised order, a link the entry create refuses |
| Counterexamples.FinalizedOverExpense | database.py:640 | the same holds for the status "Finalizada" |
| Counterexamples.OpenWithRevenueInconsistent | database.py:661-666 | an open order with a linked Revenue entry is out of sync |
| Counterexamples.FinalizedOrderConsistent | database.py:640-660 | a finalised order with its one matching Revenue entry is consistent |
| Scenarios.ScenarioCreate | database.py:544-556 | creating an order with defaults gives order 1, "Aberta", total 0, and an empty ledger |
| Scenarios.ScenarioFinalize | database.py:640-660 | finalising it at 150.00 adds exactly one Revenue entry of 150.00 |
| Scenarios.ScenarioReopen | database.py:661-666 | reopening it removes that entry |
| Scenarios.ScenarioExpenseRefused | database.py:1088-1089 | an expense against the finalised order is refused with Conflict |
| Scenarios.ScenarioDeleteRefused | database.py:694-707 | the finalised order cannot be deleted while its revenue exists |
| Scenarios.ScenarioCustomerRefused | database.py:251-261 | the customer of the open order cannot be deleted |
| Scenarios.ScenarioTotalBounds | database.py:612-620 | a total of 99,999,999.99 is accepted; one cent more, or a negative total, is refused |
| RoundTrips.CustomerCreateDelete | database_new.py:111-238 | deleting a customer just created succeeds iff no order or vehicle of the tenant cites the fresh id, and then restores the customers |
| RoundTrips.VehicleCreateDelete | database_new.py:285-394 | deleting a vehicle just created succeeds iff no order of the tenant cites the fresh id, and then restores the vehicles |
| RoundTrips.EntryCreateDelete | database.py:1061-1219 | deleting an entry just posted always succeeds and restores the ledger |
| RoundTrips.OrderCreateDelete | database.py:519-719 | on a consistent database, deleting an order just created always succeeds and restores orders and ledger, leaving no association row of the id |
| RoundTrips.EditPartIdempotent | database.py:925-953 | a second identical part edit changes nothing |
| RoundTrips.PinnedUpdateIdempotent | database.py:1134-1159 | a second identical update of a linked Revenue entry changes nothing |
| RoundTrips.WorkshopCreateTwice | database_new.py:27-40 | two workshops created in turn get different ids and the second create keeps the first |
| RoundTrips.ServiceDeleteIdempotent | database.py:820-843 | after an accepted service delete no association row names the service and its tenant row is gone, so the same delete again changes nothing |
| RoundTrips.LegacyEntryCreateDelete | database_backup.py:929-1055 | in the legacy handlers, deleting an entry just posted restores the ledger |
| RoundTrips.LegacyPinnedUpdateIdempotent | database_backup.py:984-1006 | in the legacy handlers, a second identical update of a linked Revenue entry changes nothing |

## Left out

- Read-only queries are left out because none of them changes state or keeps an invariant:
  - the list, search and dashboard endpoints;
  - joins, `GROUP_CONCAT`, ordering and `LIMIT`;
  - the financial summary, whose margin is float division over SQL sums.
- Users, login and bcrypt password hashing are left out. They are foreign library calls outside the engine.
- The edit handlers of workshops, customers, vehicles and services are not part of this model, and neither is the part delete. They carry no guard of the engine.
- Transactions, commit and rollback, and connection handling are left out. Each handler is one atomic step.
- A handler that raises inside its `try` is left out, because the model has no crash state. This covers:
  - a missing `status` or `total` key on the order update;
  - a failed `int()` or `float()` conversion;
  - a rejected insert;
  - an order update to a finalised status when two or more Revenue entries are already linked to the order. The handler reads only the first of them, and the next statement on that cursor would most likely fail with an unread result, after the order row write had already been committed. Only states the ledger handlers have already broken reach this case.
- Foreign-key constraints of the database schema are not modelled. This is because the handlers themselves do not check references on insert.
- Several input details are not modelled, because the handlers only pass them through:
  - the difference between a JSON `null` and an absent key;
  - string-typed ids in a body;
  - a non-numeric query-string tenant.
- Money is exact integer cents rather than a float converted to `DECIMAL(10,2)`. Rounding of fractional cents is not modelled.
- The `created_at` timestamps written with `NOW()` are left out.
- The contact fields are left out, because no rule reads them:
  - workshops' CNPJ, phone, e-mail and address;
  - customers' phone, e-mail and city;
  - vehicles' year and mileage;
  - the part price;
  - the service fields.
- Text.Lower: folds ASCII letters only. Python's `str.lower` folds all of Unicode, but no non-ASCII spelling can lower-case to "finalizada".
- Engine.IsLinkedRevenue: compares the kind exactly. MySQL's default collation would also match `tipo = 'Receita'` against other capitalisations, and those rows are treated as `Other` here.
- Engine.SyncRevenue: with two or more linked Revenue entries, a finalised update sets all their amounts and answers Ok. The handler most likely fails there instead, as described above.
- Legacy.UpdateOrder: the `DECIMAL(10,2)` range of the total column (`database.py:611`) is not modelled. A total beyond it makes the server reject the `UPDATE` in strict mode, so the handler fails with nothing written, while the model answers Ok with the total stored.
- Engine.InsertOrder: the association rows are ordered only by insertion. Row ids of that table are not modelled.
- The lines of the legacy order update after its `return` at `database_backup.py:576` are unreachable and are left out.
- Invariant.RevenueFollowsStatus: like Invariant.RunPreserves, covers only runs of the order handlers whose creates do not start finalised; `Counterexamples.FinalizedCreateBreaksSync` shows the restriction is needed.
- Invariant.RunPreserves: covers traces of the order handlers only. Creates must not start finalised, because the ledger handlers and a finalised create break the invariant, as module `Counterexamples` shows.
