/** An auto-increment table: rows keyed by id, and the id the next insert receives. */
module Tables {

  datatype Table<V> = Table(rows: map<nat, V>, next: nat) {

    /** Ids are positive and every stored id is below the counter, so `next` is fresh. */
    ghost predicate Valid() {
      0 < next && forall k :: k in rows ==> 0 < k < next
    }

    /** INSERT: the row receives id `next` and the counter moves past it. */
    function Insert(v: V): (t: Table<V>)
      ensures next in t.rows && t.rows[next] == v
      ensures t.rows.Keys == rows.Keys + {next}
      ensures t.next == next + 1
      ensures Valid() ==> next !in rows && t.Valid()
      ensures forall k :: k in rows && k != next ==> t.rows[k] == rows[k]
    {
      Table(rows[next := v], next + 1)
    }

    /** DELETE by key: the counter never moves back, so ids are not reused. */
    function Remove(k: nat): (t: Table<V>)
      ensures t.rows.Keys == rows.Keys - {k}
      ensures t.next == next
      ensures Valid() ==> t.Valid()
      ensures forall j :: j in t.rows ==> t.rows[j] == rows[j]
    {
      Table(rows - {k}, next)
    }
  }

  /** A table with no rows, whose first insert receives id 1. */
  function EmptyTable<V>(): (t: Table<V>)
    ensures t.Valid() && t.rows == map[]
  {
    Table(map[], 1)
  }
}
