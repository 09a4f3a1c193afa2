/** The recursive common table expression `org_chart` of `get_owners`:
    its declarative meaning level by level (Seed, Step, Level) and its
    evaluation by iterating the working table until it is empty (Run). */
module RecursiveCte {
  import opened OwnershipTable

  /** Rows of `table` whose CHILD_ID equals `id` under SQL equality, in table order. */
  function RowsWithChild(table: seq<Row>, id: Option<Id>): seq<Row>
  {
    if table == [] then []
    else (if SqlEq(table[0].childId, id) then [table[0]] else []) + RowsWithChild(table[1..], id)
  }

  /** The non-recursive term: `SELECT ... FROM chart WHERE CHILD_ID = '<start>'`.
      The start id is a literal, so it is never NULL. */
  function Seed(table: seq<Row>, start: Id): seq<Row>
  {
    RowsWithChild(table, Some(start))
  }

  /** The recursive term: `FROM chart r, org_chart oc WHERE r.CHILD_ID = oc.OWNER_ID`,
      joined against the previous iteration's rows `frontier` only. Every matching
      pair yields one row; the order is frontier-major. */
  function Step(table: seq<Row>, frontier: seq<Row>): seq<Row>
  {
    if frontier == [] then []
    else RowsWithChild(table, frontier[0].ownerId) + Step(table, frontier[1..])
  }

  /** The rows the CTE produces with `level = k`: level 0 is the seed and
      level k+1 is the join of the table with level k. */
  function Level(table: seq<Row>, start: Id, k: nat): seq<Row>
  {
    if k == 0 then Seed(table, start) else Step(table, Level(table, start, k - 1))
  }

  /** Tags every row of one iteration with that iteration's level. */
  function Tag(rows: seq<Row>, level: nat): (r: seq<LevelledRow>)
    ensures |r| == |rows|
  {
    if rows == [] then [] else [LevelledRow(rows[0], level)] + Tag(rows[1..], level)
  }

  /** The level-k rows of a result, with the level column dropped, in result order. */
  function AtLevel(rows: seq<LevelledRow>, k: nat): (r: seq<Row>)
    ensures |r| <= |rows|
  {
    if rows == [] then []
    else (if rows[0].level == k then [rows[0].row] else []) + AtLevel(rows[1..], k)
  }

  /** Outcome of evaluating the CTE. The source has no cycle guard, so the
      evaluation may never reach a fixpoint; `OutOfFuel` stands for that. */
  datatype Eval = Fixpoint(rows: seq<LevelledRow>) | OutOfFuel

  /** Working-table evaluation: emit the current working table at its level,
      join it with the table for the next one, and stop once it is empty.
      `fuel` bounds the number of joins. */
  function Run(table: seq<Row>, frontier: seq<Row>, level: nat, fuel: nat): Eval
    decreases fuel
  {
    if frontier == [] then Fixpoint([])
    else if fuel == 0 then OutOfFuel
    else
      match Run(table, Step(table, frontier), level + 1, fuel - 1)
      case Fixpoint(rest) => Fixpoint(Tag(frontier, level) + rest)
      case OutOfFuel => OutOfFuel
  }

  /** `get_owners(child_id)`: the full `org_chart` result, or `OutOfFuel`
      when no fixpoint is reached within `fuel` joins. */
  function GetOwners(table: seq<Row>, start: Id, fuel: nat): Eval
  {
    Run(table, Seed(table, start), 0, fuel)
  }
}
