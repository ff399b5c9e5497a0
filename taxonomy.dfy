/** The values the taxonomy scripts pass around once their input tables have
    been read: relation rows, table records and the outcome of a run. */
module Taxonomy {

  datatype Option<T> = None | Some(value: T)

  /** One row of a relation table: `parent` is the PARENTID column, `child`
      the CHILDID column. */
  datatype Edge = Edge(parent: string, child: string)

  /** One row of an entity table: column name to cell text. */
  type Record = map<string, string>

  /** The column every entity row is looked up by. */
  const IdColumn: string := "ID"

  /** A run either produces its rows or stops at the first row that lacks a
      column it reads (the `KeyError` that ends a script). */
  datatype Outcome<T> = Done(value: T) | MissingColumn(row: nat, column: string)

  /** The child ids that occur in `rows`. */
  function Children(rows: seq<Edge>): set<string>
  {
    set i | 0 <= i < |rows| :: rows[i].child
  }
}
