/** The rows of the workshop database and the errors its handlers answer with. */
module Schema {
  import opened Wrappers
  import opened Tables

  type Id = nat

  /** Amounts in cents. */
  type Money = int

  /** The largest work-order total the DECIMAL(10,2) column holds: 99,999,999.99. */
  const MaxTotal: Money := 9_999_999_999

  /** Default status of a new work order. */
  const OpenStatus: string := "Aberta"

  /** Ledger kind names as stored in the `tipo` column. */
  const RevenueName: string := "Receita"
  const ExpenseName: string := "Despesa"

  /** A workshop (tenant); every other row belongs to one through its tenant column. */
  datatype Workshop = Workshop(name: string)

  datatype Customer = Customer(tenant: Option<int>, name: string, status: string)

  datatype Vehicle = Vehicle(tenant: Option<int>, plate: string, model: string, make: string,
                             owner: Option<int>)

  datatype Service = Service(tenant: Option<int>, name: string)

  /** Stock classes of a part; `Label` gives the stored text. */
  datatype Stock = OutOfStock | Low | InStock {
    function Label(): string {
      match this
      case OutOfStock => "Sem Estoque"
      case Low => "Baixo"
      case InStock => "Em Estoque"
    }
  }

  datatype Part = Part(tenant: Option<int>, name: string, code: string, quantity: int,
                       minimum: int, stock: Stock)

  /** A work order. The tenant is None for rows written by the non-tenant handlers. */
  datatype Order = Order(tenant: Option<int>, customer: int, vehicle: int, status: string,
                         total: Money, note: Option<string>)

  /** The `tipo` of a ledger entry; `Other` holds any text that is neither known kind. */
  datatype Kind = Revenue | Expense | Other(name: string)

  /** A ledger entry, optionally linked to a work order. */
  datatype Entry = Entry(tenant: Option<int>, order: Option<int>, kind: Kind, amount: Money,
                         description: Option<string>)

  /** One row of the order/service association table. */
  datatype Link = Link(order: int, service: int)

  datatype Db = Db(workshops: Table<Workshop>, customers: Table<Customer>,
                   vehicles: Table<Vehicle>, services: Table<Service>, parts: Table<Part>,
                   orders: Table<Order>, ledger: Table<Entry>, links: seq<Link>)

  function EmptyDb(): Db {
    Db(EmptyTable(), EmptyTable(), EmptyTable(), EmptyTable(), EmptyTable(),
       EmptyTable(), EmptyTable(), [])
  }

  /** The stored text of a kind. */
  function KindName(k: Kind): string {
    match k
    case Revenue => RevenueName
    case Expense => ExpenseName
    case Other(name) => name
  }

  /** A kind value as read back from the column: `Other` never holds a known name. */
  predicate CanonicalKind(k: Kind) {
    k.Other? ==> k.name != RevenueName && k.name != ExpenseName
  }

  /** Reads the `tipo` text; writing the result back gives the same text. */
  function ParseKind(name: string): (k: Kind)
    ensures KindName(k) == name
    ensures CanonicalKind(k)
  {
    if name == RevenueName then Revenue
    else if name == ExpenseName then Expense
    else Other(name)
  }

  lemma ParseKindName(k: Kind)
    requires CanonicalKind(k)
    ensures ParseKind(KindName(k)) == k
  {
  }

  /** Python truthiness of an integer field of a JSON body: present and non-zero. */
  predicate Truthy(x: Option<int>) {
    x.Some? && x.value != 0
  }

  /** Python truthiness of a text field: present and non-empty. */
  predicate Filled(s: Option<string>) {
    s.Some? && s.value != ""
  }

  /** The required field a validation error names. */
  datatype Field = TenantId | CustomerId | VehicleId | KindAndAmount | Name | PlateModelMake
                 | NameAndCode

  /** What blocks a write that is otherwise well-formed. */
  datatype Reason = FinancialActivity | ExpenseOnFinalized | CustomerHasOrders
                  | CustomerHasVehicles | VehicleHasOrders | ServiceInUse

  /** Validation failures (missing field, total out of bounds), a missing row, or a refused write. */
  datatype Error = Missing(field: Field) | TotalTooLarge | TotalNegative | NotFound
                 | Conflict(reason: Reason)

  /** A successful insert: the new state and the id the row received. */
  datatype Created = Created(db: Db, id: Id)
}
