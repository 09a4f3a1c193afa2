# Ownership-chain resolver: a Dafny model of `get_owners`

`get_owners(child_id)` walks an ownership table ("chart") upwards from one
entity. The table has one row per ownership edge: CHILD_ID, CHILD_NAME,
CHILD_COUNTRY, OWNER_ID and OWNERSHIP. The walk starts at the rows of the
given entity and follows OWNER_ID links to the top company. It does this
with one recursive SQL query, `WITH RECURSIVE org_chart AS (seed UNION ALL
step) SELECT * FROM org_chart`. That query is the core modelled here. Its
meaning is the recursive-query semantics of ISO/IEC 9075-2 (SQL:2003),
subclause 7.13. Each iteration joins the table only against the rows the
previous iteration produced (the working table). UNION ALL keeps every row
it produces, duplicates included.

The model is functional. Tables are `seq<Row>` and rows are immutable.
A NULL cell is `None`, and SQL `=` is `SqlEq`, which is never true when
either side is NULL.

- `OwnershipTable` (table.dfy): rows, the levelled result row, SQL
  equality, and the join condition `OwnedVia`.
- `RecursiveCte` (cte.dfy): the query itself.
  - `Seed` is the anchor member: rows whose CHILD_ID is the start id.
  - `Step` is one recursive iteration. For each working-table row, it takes
    the table rows whose CHILD_ID equals that row's OWNER_ID.
  - `Level(table, start, k)` is the k-th iteration.
  - `Run` and `GetOwners` evaluate the query. They append each working
    table, tagged with its level, until the working table is empty. A
    `fuel` bound on the number of joins makes a query that never returns a
    result visible as `OutOfFuel`.
- `Membership`, `Multiplicity`, `OwnerChains` (membership.dfy,
  multiplicity.dfy, chains.dfy): which rows each level holds, how often,
  and why. Level k is exactly the set of rows ending an owner chain of k hops.
- `Evaluation` and `Termination` (fixpoint.dfy, termination.dfy): when the
  query stops, and what it then returns. It stops exactly when the owner
  graph reachable from the start id is acyclic, and then within |table| joins.
- `ResultProperties` (result.dfy): the same facts stated on the returned rows.
- `WorkingTable` (evaluator.dfy): the query as an engine evaluates it, as a
  loop over a working table. It is proved equal to `GetOwners`.
- `Examples` (examples.dfy): a diamond and a two-entity cycle.

## Model

| member | source | states |
|---|---|---|
| Membership.SeedMembers | hello.py:13-15 | a row is at level 0 exactly when it is a table row whose CHILD_ID is the start id |
| Multiplicity.SeedCount | hello.py:13-15 | level 0 holds each such row exactly as many times as the table does, and no other row |
| Membership.StepMembers | hello.py:19-21 | a row is in the next iteration exactly when it is a table row owning some working-table row (CHILD_ID = OWNER_ID, non-NULL) |
| Membership.NextLevelMembers | hello.py:19-21 | a row is at level k+1 exactly when it is a table row whose CHILD_ID equals the OWNER_ID of some level-k row |
| Membership.OwnedRowBelow | hello.py:19-21 | every level-k+1 row comes with a level-k row whose OWNER_ID equals its CHILD_ID |
| Membership.LevelMembers | hello.py:13-21 | every row at any level is an unaltered table row with a non-NULL CHILD_ID |
| Multiplicity.StepCount | hello.py:17-21 | a table row appears in the next iteration (table copies) x (working-table rows it owns) times, so UNION ALL keeps every join pair |
| Multiplicity.OwnerCount | hello.py:21 | the number of working-table rows whose OWNER_ID matches an id is positive exactly when one exists, and is at most the working table's size |
| Multiplicity.StepAppend | hello.py:20-21 | the join distributes over a split working table |
| Multiplicity.RootsContributeNothing | hello.py:21 | working-table rows with NULL OWNER_ID (roots) add no rows to the next iteration |
| Multiplicity.NullMatchesNothing | hello.py:21 | `CHILD_ID = NULL` selects no row |
| Multiplicity.OwnerCountPermutation | hello.py:20-21 | the number of join partners depends only on the working table as a multiset |
| Multiplicity.StepRespectsPermutation | hello.py:20-21 | the next iteration, as a multiset, depends only on the table and working table as multisets |
| Multiplicity.LevelIndependentOfRowOrder | hello.py:24 | every level, as a multiset, is the same for any ordering of the table's rows |
| OwnerChains.LevelMemberEndsChain | hello.py:13-21 | a row at level k ends an owner chain of k hops from the start id |
| OwnerChains.ChainTo | hello.py:13-21 | gives, for a level-k row, an owner chain of k hops from the start id ending at it (in a diamond several such chains exist) |
| OwnerChains.ChainEndInLevel | hello.py:13-21 | the end of an owner chain of k hops is at level k |
| OwnerChains.LevelIsChainEnds | hello.py:13-21 | level k holds exactly the ends of owner chains of k hops: the level column counts owner-link hops |
| Evaluation.RunReachesFixpoint | hello.py:17-22 | with enough fuel to reach an empty working table, evaluation returns every working table before it, tagged |
| Evaluation.RunRunsOut | hello.py:17-22 | if the working table is still non-empty when fuel runs out, evaluation does not finish |
| Evaluation.EmptyStaysEmpty | hello.py:19-21 | once a level is empty every later level is empty |
| Evaluation.GetOwnersTerminatesIff | hello.py:17-22 | the query finishes within `fuel` joins exactly when one of levels 0..fuel is empty |
| Evaluation.GetOwnersResult | hello.py:11-26 | given an empty level n within reach, the result's level-k rows are level k for every k, and more fuel changes nothing |
| Evaluation.ResultLevels | hello.py:11-26 | whenever the query finishes, its level-k rows are exactly level k, in order and with multiplicity |
| Evaluation.AtLevelCollect | hello.py:17-24 | selecting one level of the accumulated UNION ALL gives back that iteration's working table |
| Evaluation.UnknownStartIsEmpty | hello.py:13-21 | the result is empty exactly when no table row has the start id as CHILD_ID |
| Termination.AcyclicLevelsVanish | hello.py:17-22 | with no cycle reachable from the start id, level n, where n is the number of table rows, is empty |
| Termination.CyclicLevelsPersist | hello.py:17-22 | with a cycle reachable from the start id, no level is ever empty |
| Termination.TerminatesIffAcyclic | hello.py:17-22 | the query finishes within n joins, n the number of table rows, exactly when the reachable owner graph is acyclic |
| Termination.CyclicNeverTerminates | hello.py:17-22 | with a reachable cycle, no amount of fuel lets the query finish, since nothing records visited ids |
| Termination.AcyclicResultIsStable | hello.py:17-22 | with an acyclic owner graph, any fuel of at least the number of table rows finishes with the same result |
| ResultProperties.ResultSound | hello.py:13-20 | every result row, level dropped, is an unaltered table row, and it sits in the level its level column names |
| ResultProperties.ResultIsChainEnds | hello.py:13-21 | (row, k) is in the result exactly when the row ends an owner chain of k hops from the start id |
| ResultProperties.ResultSeed | hello.py:13-15 | the result's level-0 rows are the table rows with the start id as CHILD_ID, with their table multiplicity |
| ResultProperties.ResultNextLevel | hello.py:19-21 | the result's level-k+1 rows are exactly the join of its level-k rows with the table, in join order |
| ResultProperties.ResultMultiplicity | hello.py:17-21 | a row appears at result level k+1 (table copies) x (level-k result rows it owns) times |
| WorkingTable.EvaluateOwners | hello.py:11-26 | the working-table loop equals `GetOwners`, finishes exactly when a level within reach is empty, and then returns every level tagged |
| Examples.DiamondKeepsBothPaths | hello.py:17-24 | the diamond's result keeps both paths to A, with A at level 2 twice |
| Examples.CycleNeverReturns | hello.py:17-22 | two entities owning each other make the query never return a result, for every fuel (the engine loops until it fails) |

## Left out

- Loading the spreadsheet with pandas (hello.py:5) is file I/O through a library. The table is a parameter.
- The duckdb call and `.show()` (hello.py:28-30) are left out. `.show()` prints the result and returns `None`, so the Python function itself returns `None`. The model returns the rows the query produces.
- The f-string splice of `child_id` into the SQL text (hello.py:15) is not modelled. Its quoting and injection behaviour belong to the SQL parser. The start id is a plain, non-NULL string.
- Type coercion of CHILD_ID and OWNER_ID by the engine is not modelled. Ids are compared as text.
- The numeric meaning of OWNERSHIP is not modelled. The query copies it and never computes with it, so it is an opaque `Option<real>`.
- The row order of the result is unspecified, because the query has no ORDER BY (hello.py:24). The model fixes one order: level by level, and within a level in working-table order. Every property is stated per level or over multisets, and `LevelIndependentOfRowOrder` shows that the multisets do not depend on table order.
- On a reachable cycle the query never returns a result: it loops until the engine fails, by running out of memory or by overflowing `level`. That failure is modelled by a `fuel` bound on the number of joins and the `OutOfFuel` outcome. No fuel value hides a behaviour: `CyclicNeverTerminates` and `AcyclicResultIsStable` cover every fuel.
- The width of the `level` column is not modelled: the engine types `level` as a 32-bit INTEGER (`0 AS level`, hello.py:13) and `level + 1` (hello.py:19) raises an error past 2^31 - 1. The model uses an unbounded `nat`. Terminating runs stay below the number of table rows, so no overflow occurs in any result; on a cycle, the engine's failure (overflow or memory) is folded into `OutOfFuel`.
- xlsx-csv.py (lines 4-8) is a two-column projection written to CSV through pandas. It is I/O only and is not part of this model.
