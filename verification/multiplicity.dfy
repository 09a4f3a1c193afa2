/** How many times each row appears at each level. UNION ALL keeps every
    copy and the join yields one row per matching pair, so counts multiply:
    a table row appears at level k+1 once for every level-k row that it owns. */
module Multiplicity {
  import opened OwnershipTable
  import opened RecursiveCte

  /** Number of rows of `frontier` whose OWNER_ID equals `id` under SQL equality. */
  function OwnerCount(frontier: seq<Row>, id: Option<Id>): (n: nat)
    ensures n <= |frontier|
    ensures n > 0 <==> exists o :: o in frontier && SqlEq(id, o.ownerId)
  {
    if frontier == [] then 0
    else
      assert forall o :: o in frontier <==> o == frontier[0] || o in frontier[1..];
      (if SqlEq(id, frontier[0].ownerId) then 1 else 0) + OwnerCount(frontier[1..], id)
  }

  /** Filtering by CHILD_ID keeps every copy of a matching row and no copy of any other. */
  lemma {:induction false} RowsWithChildCount(table: seq<Row>, id: Option<Id>, t: Row)
    ensures multiset(RowsWithChild(table, id))[t]
            == if SqlEq(t.childId, id) then multiset(table)[t] else 0
  {
    if table != [] {
      assert table == [table[0]] + table[1..];
      RowsWithChildCount(table[1..], id, t);
    }
  }

  /** Level 0 holds each table row whose CHILD_ID is the start id, as often as the table does. */
  lemma SeedCount(table: seq<Row>, start: Id, t: Row)
    ensures multiset(Level(table, start, 0))[t]
            == if t.childId == Some(start) then multiset(table)[t] else 0
  {
    RowsWithChildCount(table, Some(start), t);
  }

  /** The join distributes over the rows of the working table. */
  lemma {:induction false} StepAppend(table: seq<Row>, a: seq<Row>, b: seq<Row>)
    ensures Step(table, a + b) == Step(table, a) + Step(table, b)
  {
    if a == [] {
      assert a + b == b;
    } else {
      assert (a + b)[0] == a[0];
      assert (a + b)[1..] == a[1..] + b;
      StepAppend(table, a[1..], b);
    }
  }

  lemma {:induction false} OwnerCountAppend(a: seq<Row>, b: seq<Row>, id: Option<Id>)
    ensures OwnerCount(a + b, id) == OwnerCount(a, id) + OwnerCount(b, id)
  {
    if a == [] {
      assert a + b == b;
    } else {
      assert (a + b)[0] == a[0];
      assert (a + b)[1..] == a[1..] + b;
      OwnerCountAppend(a[1..], b, id);
    }
  }

  /** Completeness with multiplicity: a row `t` appears in the next level once
      for every (working-table row, table copy of `t`) pair that satisfies the join. */
  lemma {:induction false} StepCount(table: seq<Row>, frontier: seq<Row>, t: Row)
    ensures multiset(Step(table, frontier))[t]
            == multiset(table)[t] * OwnerCount(frontier, t.childId)
  {
    if frontier != [] {
      var m := multiset(table)[t];
      var x := OwnerCount(frontier[1..], t.childId);
      var here := RowsWithChild(table, frontier[0].ownerId);
      var rest := Step(table, frontier[1..]);
      assert Step(table, frontier) == here + rest;
      RowsWithChildCount(table, frontier[0].ownerId, t);
      StepCount(table, frontier[1..], t);
      assert multiset(rest)[t] == m * x;
      if SqlEq(t.childId, frontier[0].ownerId) {
        assert OwnerCount(frontier, t.childId) == 1 + x;
        MulOnePlus(m, x);
      } else {
        assert OwnerCount(frontier, t.childId) == x;
      }
    }
  }

  lemma MulOnePlus(m: nat, x: nat)
    ensures m * (1 + x) == m + m * x
  {
  }

  /** OwnerCount depends only on the working table as a multiset. */
  lemma {:induction false} OwnerCountPermutation(a: seq<Row>, b: seq<Row>, id: Option<Id>)
    requires multiset(a) == multiset(b)
    ensures OwnerCount(a, id) == OwnerCount(b, id)
    decreases |a|
  {
    if a == [] {
      assert |multiset(b)| == 0;
    } else {
      assert a[0] in multiset(b);
      var j :| 0 <= j < |b| && b[j] == a[0];
      var b' := b[..j] + b[j + 1..];
      RemoveAt(b, j);
      assert a == [a[0]] + a[1..];
      assert multiset(a[1..]) == multiset(b');
      OwnerCountPermutation(a[1..], b', id);
      OwnerCountRemoveAt(b, j, id);
    }
  }

  lemma RemoveAt(b: seq<Row>, j: nat)
    requires j < |b|
    ensures multiset(b[..j] + b[j + 1..]) == multiset(b) - multiset{b[j]}
  {
    assert b == b[..j] + [b[j]] + b[j + 1..];
  }

  lemma OwnerCountRemoveAt(b: seq<Row>, j: nat, id: Option<Id>)
    requires j < |b|
    ensures OwnerCount(b, id)
            == OwnerCount([b[j]], id) + OwnerCount(b[..j] + b[j + 1..], id)
  {
    assert b == b[..j] + [b[j]] + b[j + 1..];
    OwnerCountAppend(b[..j] + [b[j]], b[j + 1..], id);
    OwnerCountAppend(b[..j], [b[j]], id);
    OwnerCountAppend(b[..j], b[j + 1..], id);
  }

  /** The next level, as a multiset, depends only on the table and the working
      table as multisets, not on the order of their rows. */
  lemma StepRespectsPermutation(t1: seq<Row>, t2: seq<Row>, f1: seq<Row>, f2: seq<Row>)
    requires multiset(t1) == multiset(t2)
    requires multiset(f1) == multiset(f2)
    ensures multiset(Step(t1, f1)) == multiset(Step(t2, f2))
  {
    forall t | true
      ensures multiset(Step(t1, f1))[t] == multiset(Step(t2, f2))[t]
    {
      StepCount(t1, f1, t);
      StepCount(t2, f2, t);
      OwnerCountPermutation(f1, f2, t.childId);
    }
  }

  lemma SeedRespectsPermutation(t1: seq<Row>, t2: seq<Row>, start: Id)
    requires multiset(t1) == multiset(t2)
    ensures multiset(Level(t1, start, 0)) == multiset(Level(t2, start, 0))
  {
    forall t | true
      ensures multiset(Level(t1, start, 0))[t] == multiset(Level(t2, start, 0))[t]
    {
      SeedCount(t1, start, t);
      SeedCount(t2, start, t);
    }
  }

  /** The query has no ORDER BY and its meaning is order-free: every level, as a
      multiset, is the same for any ordering of the table's rows. */
  lemma {:induction false} LevelIndependentOfRowOrder(t1: seq<Row>, t2: seq<Row>, start: Id, k: nat)
    requires multiset(t1) == multiset(t2)
    ensures multiset(Level(t1, start, k)) == multiset(Level(t2, start, k))
  {
    if k == 0 {
      SeedRespectsPermutation(t1, t2, start);
    } else {
      LevelIndependentOfRowOrder(t1, t2, start, k - 1);
      StepRespectsPermutation(t1, t2, Level(t1, start, k - 1), Level(t2, start, k - 1));
    }
  }

  /** A root (NULL OWNER_ID) matches no CHILD_ID, so it adds nothing to the next level. */
  lemma RootsContributeNothing(table: seq<Row>, frontier: seq<Row>, roots: seq<Row>)
    requires forall r :: r in roots ==> r.ownerId.None?
    ensures Step(table, frontier + roots) == Step(table, frontier)
    ensures Step(table, roots + frontier) == Step(table, frontier)
  {
    StepAppend(table, frontier, roots);
    StepAppend(table, roots, frontier);
    RootsStepEmpty(table, roots);
  }

  lemma {:induction false} RootsStepEmpty(table: seq<Row>, roots: seq<Row>)
    requires forall r :: r in roots ==> r.ownerId.None?
    ensures Step(table, roots) == []
  {
    if roots != [] {
      NullMatchesNothing(table);
      RootsStepEmpty(table, roots[1..]);
    }
  }

  /** `CHILD_ID = NULL` holds of no row. */
  lemma {:induction false} NullMatchesNothing(table: seq<Row>)
    ensures RowsWithChild(table, None) == []
  {
    if table != [] {
      NullMatchesNothing(table[1..]);
    }
  }
}
