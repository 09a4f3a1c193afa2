/** The ownership table ("chart"): one row per ownership edge, as loaded
    from the spreadsheet, with SQL NULL made explicit. */
module OwnershipTable {

  /** A nullable cell: `None` is SQL NULL. */
  datatype Option<+T> = None | Some(value: T)

  /** Entity identifiers (CHILD_ID, OWNER_ID) are text. */
  type Id = string

  /** One ownership edge. CHILD_NAME, CHILD_COUNTRY and OWNERSHIP are payload:
      the query copies them and never inspects them. */
  datatype Row = Row(
    childId: Option<Id>,
    childName: Option<string>,
    childCountry: Option<string>,
    ownerId: Option<Id>,
    ownership: Option<real>)

  /** A row of the query's result: the table row plus its `level` column. */
  datatype LevelledRow = LevelledRow(row: Row, level: nat)

  /** SQL `=` as a WHERE condition: NULL on either side yields UNKNOWN,
      which filters the row out, so only two equal non-NULL values match. */
  predicate SqlEq(a: Option<Id>, b: Option<Id>)
  {
    a.Some? && b.Some? && a.value == b.value
  }

  /** `upper` is an owner row of `lower`: the recursive join condition
      `r.CHILD_ID = oc.OWNER_ID` with `oc := lower` and `r := upper`. */
  predicate OwnedVia(lower: Row, upper: Row)
  {
    SqlEq(upper.childId, lower.ownerId)
  }
}
