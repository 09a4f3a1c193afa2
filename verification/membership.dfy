/** Which rows each part of the query can produce: soundness (nothing but
    table rows, unaltered) and completeness (every matching row) as
    membership facts. */
module Membership {
  import opened OwnershipTable
  import opened RecursiveCte

  /** The CHILD_ID filter keeps exactly the table rows whose CHILD_ID matches. */
  lemma {:induction false} RowsWithChildMembers(table: seq<Row>, id: Option<Id>)
    ensures forall t :: t in RowsWithChild(table, id) <==> t in table && SqlEq(t.childId, id)
  {
    if table != [] {
      RowsWithChildMembers(table[1..], id);
      assert forall t :: t in table <==> t == table[0] || t in table[1..];
    }
  }

  /** Level 0 is exactly the table rows whose CHILD_ID is the start id. */
  lemma SeedMembers(table: seq<Row>, start: Id)
    ensures forall t :: t in Seed(table, start) <==> t in table && t.childId == Some(start)
  {
    RowsWithChildMembers(table, Some(start));
  }

  /** A row is in the next level exactly when it is a table row that owns some
      row of the working table. */
  lemma {:induction false} StepMembers(table: seq<Row>, frontier: seq<Row>)
    ensures forall t :: t in Step(table, frontier)
                        <==> t in table && exists o :: o in frontier && OwnedVia(o, t)
  {
    if frontier != [] {
      var here := RowsWithChild(table, frontier[0].ownerId);
      var rest := Step(table, frontier[1..]);
      assert Step(table, frontier) == here + rest;
      StepMembers(table, frontier[1..]);
      RowsWithChildMembers(table, frontier[0].ownerId);
      forall t
        ensures t in here + rest <==> t in table && exists o :: o in frontier && OwnedVia(o, t)
      {
        if t in table && OwnedVia(frontier[0], t) {
          assert t in here;
        }
        if exists o :: o in frontier && OwnedVia(o, t) {
          var o :| o in frontier && OwnedVia(o, t);
          if o != frontier[0] {
            assert o in frontier[1..];
          }
        }
        if t in rest {
          var o :| o in frontier[1..] && OwnedVia(o, t);
          assert o in frontier;
        }
      }
    }
  }

  /** Soundness of every level: its rows are table rows, and each has a non-NULL CHILD_ID. */
  lemma {:induction false} LevelMembers(table: seq<Row>, start: Id, k: nat)
    ensures forall t :: t in Level(table, start, k) ==> t in table && t.childId.Some?
  {
    if k == 0 {
      SeedMembers(table, start);
    } else {
      LevelMembers(table, start, k - 1);
      StepMembers(table, Level(table, start, k - 1));
    }
  }

  /** Every row at level k (k > 0) owns some row at level k-1, and every table
      row that owns a level k-1 row is at level k. */
  lemma NextLevelMembers(table: seq<Row>, start: Id, k: nat)
    requires k > 0
    ensures forall t :: t in Level(table, start, k)
                        <==> t in table && exists o :: o in Level(table, start, k - 1) && OwnedVia(o, t)
  {
    StepMembers(table, Level(table, start, k - 1));
  }

  /** The row at level k-1 that a level-k row was joined with. */
  lemma OwnedRowBelow(table: seq<Row>, start: Id, k: nat, t: Row) returns (o: Row)
    requires k > 0 && t in Level(table, start, k)
    ensures o in Level(table, start, k - 1) && OwnedVia(o, t)
  {
    NextLevelMembers(table, start, k);
    o :| o in Level(table, start, k - 1) && OwnedVia(o, t);
  }

  lemma {:induction false} AtLevelMembers(rows: seq<LevelledRow>, k: nat)
    ensures forall t :: t in AtLevel(rows, k) <==> LevelledRow(t, k) in rows
  {
    if rows != [] {
      AtLevelMembers(rows[1..], k);
      assert forall e :: e in rows <==> e == rows[0] || e in rows[1..];
    }
  }
}
