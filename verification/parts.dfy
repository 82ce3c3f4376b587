/** Parts inventory: the stock class derived from quantity and minimum on every write. */
module Parts {
  import opened Wrappers
  import opened Tables
  import opened Schema

  /**
   * The stock class of a part: zero is out of stock, a quantity at or below the
   * minimum is low, anything else is in stock. The comparison with the minimum
   * applies to negative quantities too.
   */
  function StockOf(quantity: int, minimum: int): (s: Stock)
    ensures s == OutOfStock <==> quantity == 0
    ensures 0 < quantity ==> (s == Low <==> quantity <= minimum)
    ensures 0 < quantity ==> (s == InStock <==> quantity > minimum)
    ensures quantity < 0 ==> (s == Low <==> quantity <= minimum)
  {
    if quantity == 0 then OutOfStock
    else if quantity <= minimum then Low
    else InStock
  }

  /** How well stocked a class is, for comparing classes. */
  function Rank(s: Stock): nat {
    match s
    case OutOfStock => 0
    case Low => 1
    case InStock => 2
  }

  /** Over non-negative quantities, more stock never gives a worse class. */
  lemma StockMonotone(q1: int, q2: int, minimum: int)
    requires 0 <= q1 <= q2
    ensures Rank(StockOf(q1, minimum)) <= Rank(StockOf(q2, minimum))
  {
  }

  /** The three classes carry three different stored labels. */
  lemma LabelsDistinct(s1: Stock, s2: Stock)
    ensures s1.Label() == s2.Label() <==> s1 == s2
  {
  }

  /** Every stored part carries the class its quantity and minimum give. */
  ghost predicate StockDerived(db: Db) {
    forall k :: k in db.parts.rows ==>
      db.parts.rows[k].stock == StockOf(db.parts.rows[k].quantity, db.parts.rows[k].minimum)
  }

  /**
   * POST of a part: name and code default to "" and are required, then the
   * tenant; quantity and minimum default to 0; the class is derived.
   */
  function CreatePart(db: Db, tenant: Option<int>, name: Option<string>, code: Option<string>,
                      quantity: Option<int>, minimum: Option<int>): (r: Result<Created, Error>)
    ensures !Filled(name) || !Filled(code) ==> r == Err(Missing(NameAndCode))
    ensures Filled(name) && Filled(code) && !Truthy(tenant) ==> r == Err(Missing(TenantId))
    ensures r.Ok? <==> Filled(name) && Filled(code) && Truthy(tenant)
    ensures r.Ok? ==> r.value.db.parts.rows.Keys == db.parts.rows.Keys + {r.value.id}
    ensures r.Ok? ==>
              && (db.parts.Valid() ==> r.value.id !in db.parts.rows && r.value.db.parts.Valid())
              && forall k :: k in db.parts.rows && k != r.value.id ==>
                   r.value.db.parts.rows[k] == db.parts.rows[k]
    ensures r.Ok? ==>
              var p := r.value.db.parts.rows[r.value.id];
              && p.tenant == tenant && p.name == name.value && p.code == code.value
              && p.quantity == quantity.GetOr(0) && p.minimum == minimum.GetOr(0)
              && p.stock == StockOf(p.quantity, p.minimum)
              && (StockDerived(db) ==> StockDerived(r.value.db))
              && r.value.db == db.(parts := r.value.db.parts)
  {
    if !Filled(name) || !Filled(code) then Err(Missing(NameAndCode))
    else if !Truthy(tenant) then Err(Missing(TenantId))
    else
      var q := quantity.GetOr(0);
      var m := minimum.GetOr(0);
      var p := Part(tenant, name.value, code.value, q, m, StockOf(q, m));
      Ok(Created(db.(parts := db.parts.Insert(p)), db.parts.next))
  }

  /**
   * PUT of a part of the tenant: absent fields are written as "" and 0 (not
   * kept), and the class is derived again. A missing row is not an error.
   */
  function EditPart(db: Db, id: Id, tenant: Option<int>, name: Option<string>, code: Option<string>,
                    quantity: Option<int>, minimum: Option<int>): (r: Result<Db, Error>)
    ensures r.Err? <==> !Truthy(tenant)
    ensures r.Err? ==> r.error == Missing(TenantId)
    ensures r.Ok? ==>
              && r.value.parts.rows.Keys == db.parts.rows.Keys
              && r.value.parts.next == db.parts.next
              && (forall k :: k in db.parts.rows && k != id ==> r.value.parts.rows[k] == db.parts.rows[k])
              && (id in db.parts.rows && db.parts.rows[id].tenant == tenant ==>
                    var p := r.value.parts.rows[id];
                    p.tenant == db.parts.rows[id].tenant &&
                    p.quantity == quantity.GetOr(0) && p.minimum == minimum.GetOr(0) &&
                    p.name == name.GetOr("") && p.code == code.GetOr("") &&
                    p.stock == StockOf(p.quantity, p.minimum))
              && (!(id in db.parts.rows && db.parts.rows[id].tenant == tenant) ==> r.value == db)
              && (StockDerived(db) ==> StockDerived(r.value))
              && r.value == db.(parts := r.value.parts)
  {
    if !Truthy(tenant) then Err(Missing(TenantId))
    else if id in db.parts.rows && db.parts.rows[id].tenant == tenant then
      var q := quantity.GetOr(0);
      var m := minimum.GetOr(0);
      var p := Part(tenant, name.GetOr(""), code.GetOr(""), q, m, StockOf(q, m));
      Ok(db.(parts := db.parts.(rows := db.parts.rows[id := p])))
    else Ok(db)
  }
}
