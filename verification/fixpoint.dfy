/** The evaluation `Run` against the declarative levels: it stops exactly when
    some level is empty, and what it returns is every level up to there,
    tagged with its number. */
module Evaluation {
  import opened OwnershipTable
  import opened RecursiveCte
  import opened Membership

  /** The working table after `j` iterations starting from `frontier`. */
  function Iterate(table: seq<Row>, frontier: seq<Row>, j: nat): seq<Row>
    decreases j
  {
    if j == 0 then frontier else Iterate(table, Step(table, frontier), j - 1)
  }

  /** The first `n` working tables starting from `frontier` at `level`, each
      tagged with its level and concatenated as UNION ALL does. */
  function Collect(table: seq<Row>, frontier: seq<Row>, level: nat, n: nat): seq<LevelledRow>
    decreases n
  {
    if n == 0 then [] else Tag(frontier, level) + Collect(table, Step(table, frontier), level + 1, n - 1)
  }

  lemma {:induction false} IterateEmpty(table: seq<Row>, j: nat)
    ensures Iterate(table, [], j) == []
  {
    if j > 0 {
      assert Step(table, []) == [];
      IterateEmpty(table, j - 1);
    }
  }

  lemma {:induction false} IterateSucc(table: seq<Row>, frontier: seq<Row>, j: nat)
    ensures Iterate(table, frontier, j + 1) == Step(table, Iterate(table, frontier, j))
    decreases j
  {
    if j > 0 {
      IterateSucc(table, Step(table, frontier), j - 1);
    }
  }

  /** Level k is the working table of the k-th iteration from the seed. */
  lemma {:induction false} LevelIsIterate(table: seq<Row>, start: Id, k: nat)
    ensures Level(table, start, k) == Iterate(table, Seed(table, start), k)
  {
    if k > 0 {
      LevelIsIterate(table, start, k - 1);
      IterateSucc(table, Seed(table, start), k - 1);
    }
  }

  /** Once a level is empty every later level is empty: the join of an empty
      working table is empty. */
  lemma {:induction false} EmptyStaysEmpty(table: seq<Row>, start: Id, n: nat, m: nat)
    requires n <= m
    requires Level(table, start, n) == []
    ensures Level(table, start, m) == []
    decreases m - n
  {
    if n < m {
      EmptyStaysEmpty(table, start, n, m - 1);
      assert Level(table, start, m) == Step(table, []);
    }
  }

  lemma {:induction false} CollectEmpty(table: seq<Row>, level: nat, n: nat)
    ensures Collect(table, [], level, n) == []
    decreases n
  {
    if n > 0 {
      assert Step(table, []) == [];
      CollectEmpty(table, level + 1, n - 1);
    }
  }

  /** With enough fuel to reach an empty working table after `n` iterations,
      evaluation returns the first `n` working tables, tagged. */
  lemma {:induction false} RunReachesFixpoint(table: seq<Row>, frontier: seq<Row>, level: nat, n: nat, fuel: nat)
    requires n <= fuel
    requires Iterate(table, frontier, n) == []
    ensures Run(table, frontier, level, fuel) == Fixpoint(Collect(table, frontier, level, n))
    decreases fuel
  {
    if frontier == [] {
      CollectEmpty(table, level, n);
    } else {
      RunReachesFixpoint(table, Step(table, frontier), level + 1, n - 1, fuel - 1);
    }
  }

  /** If the working table after `fuel` iterations is still non-empty, evaluation runs out of fuel. */
  lemma {:induction false} RunRunsOut(table: seq<Row>, frontier: seq<Row>, level: nat, fuel: nat)
    requires Iterate(table, frontier, fuel) != []
    ensures Run(table, frontier, level, fuel) == OutOfFuel
    decreases fuel
  {
    if frontier == [] {
      IterateEmpty(table, fuel);
    } else if fuel > 0 {
      RunRunsOut(table, Step(table, frontier), level + 1, fuel - 1);
    }
  }

  /** The query reaches its fixpoint within `fuel` joins exactly when one of
      levels 0 .. fuel is empty. */
  lemma GetOwnersTerminatesIff(table: seq<Row>, start: Id, fuel: nat)
    ensures GetOwners(table, start, fuel).Fixpoint?
            <==> exists n :: 0 <= n <= fuel && Level(table, start, n) == []
  {
    if exists n :: 0 <= n <= fuel && Level(table, start, n) == [] {
      var n :| 0 <= n <= fuel && Level(table, start, n) == [];
      LevelIsIterate(table, start, n);
      RunReachesFixpoint(table, Seed(table, start), 0, n, fuel);
    } else {
      assert Level(table, start, fuel) != [];
      LevelIsIterate(table, start, fuel);
      RunRunsOut(table, Seed(table, start), 0, fuel);
    }
  }

  lemma {:induction false} AtLevelAppend(a: seq<LevelledRow>, b: seq<LevelledRow>, k: nat)
    ensures AtLevel(a + b, k) == AtLevel(a, k) + AtLevel(b, k)
  {
    if a == [] {
      assert a + b == b;
    } else {
      var ab := a + b;
      assert ab[0] == a[0];
      assert ab[1..] == a[1..] + b;
      AtLevelAppend(a[1..], b, k);
      var head := if a[0].level == k then [a[0].row] else [];
      assert AtLevel(ab, k) == head + AtLevel(a[1..] + b, k);
      assert AtLevel(a, k) == head + AtLevel(a[1..], k);
    }
  }

  lemma {:induction false} AtLevelTag(rows: seq<Row>, j: nat, k: nat)
    ensures AtLevel(Tag(rows, j), k) == if j == k then rows else []
  {
    if rows != [] {
      AtLevelAppend([LevelledRow(rows[0], j)], Tag(rows[1..], j), k);
      AtLevelTag(rows[1..], j, k);
      assert [rows[0]] + rows[1..] == rows;
    }
  }

  /** Selecting one level of the accumulated UNION ALL gives back that
      iteration's working table, in order. */
  lemma {:induction false} AtLevelCollect(table: seq<Row>, frontier: seq<Row>, level: nat, n: nat, k: nat)
    ensures AtLevel(Collect(table, frontier, level, n), k)
            == if level <= k < level + n then Iterate(table, frontier, k - level) else []
    decreases n
  {
    if n > 0 {
      var here := Tag(frontier, level);
      var rest := Collect(table, Step(table, frontier), level + 1, n - 1);
      assert Collect(table, frontier, level, n) == here + rest;
      AtLevelAppend(here, rest, k);
      AtLevelTag(frontier, level, k);
      AtLevelCollect(table, Step(table, frontier), level + 1, n - 1, k);
      if level == k {
        assert AtLevel(rest, k) == [];
        assert AtLevel(here, k) + [] == frontier;
      } else if level < k < level + n {
        assert AtLevel(here, k) == [];
        assert Iterate(table, frontier, k - level) == Iterate(table, Step(table, frontier), k - (level + 1));
      } else {
        assert AtLevel(here, k) == [] && AtLevel(rest, k) == [];
      }
    }
  }

  /** Given an empty level `n` within reach, the result holds exactly levels
      0 .. n-1, each tagged with its own number, and more fuel does not change it. */
  lemma GetOwnersResult(table: seq<Row>, start: Id, n: nat, fuel: nat)
    requires n <= fuel
    requires Level(table, start, n) == []
    ensures GetOwners(table, start, fuel).Fixpoint?
    ensures GetOwners(table, start, fuel) == GetOwners(table, start, n)
    ensures forall k: nat :: AtLevel(GetOwners(table, start, fuel).rows, k) == Level(table, start, k)
  {
    var seed := Seed(table, start);
    LevelIsIterate(table, start, n);
    RunReachesFixpoint(table, seed, 0, n, fuel);
    RunReachesFixpoint(table, seed, 0, n, n);
    forall k: nat
      ensures AtLevel(GetOwners(table, start, fuel).rows, k) == Level(table, start, k)
    {
      CollectedLevel(table, start, n, k);
    }
  }

  lemma CollectedLevel(table: seq<Row>, start: Id, n: nat, k: nat)
    requires Level(table, start, n) == []
    ensures AtLevel(Collect(table, Seed(table, start), 0, n), k) == Level(table, start, k)
  {
    AtLevelCollect(table, Seed(table, start), 0, n, k);
    LevelIsIterate(table, start, k);
    if n <= k {
      EmptyStaysEmpty(table, start, n, k);
    }
  }

  /** Whenever the query terminates, its level-k rows are exactly level k, with
      multiplicity and in order; in particular its level-0 rows are the seed. */
  lemma ResultLevels(table: seq<Row>, start: Id, fuel: nat)
    ensures GetOwners(table, start, fuel).Fixpoint? ==>
              forall k: nat :: AtLevel(GetOwners(table, start, fuel).rows, k) == Level(table, start, k)
  {
    if GetOwners(table, start, fuel).Fixpoint? {
      GetOwnersTerminatesIff(table, start, fuel);
      var n :| 0 <= n <= fuel && Level(table, start, n) == [];
      GetOwnersResult(table, start, n, fuel);
    }
  }

  /** An id that is no row's CHILD_ID gives an empty result, and only such an id does. */
  lemma UnknownStartIsEmpty(table: seq<Row>, start: Id, fuel: nat)
    ensures GetOwners(table, start, fuel) == Fixpoint([])
            <==> forall t :: t in table ==> t.childId != Some(start)
  {
    var seed := Seed(table, start);
    SeedMembers(table, start);
    if seed != [] {
      assert seed[0] in seed;
      if fuel > 0 {
        match Run(table, Step(table, seed), 1, fuel - 1)
        case Fixpoint(rest) =>
          assert |Tag(seed, 0) + rest| > 0;
        case OutOfFuel =>
      }
    } else {
      assert forall t :: t in table && t.childId == Some(start) ==> t in seed;
    }
  }
}
