/** What `get_owners` returns, stated on the result rows themselves: every
    result row is an unaltered table row tagged with its true hop count,
    every reachable row appears, and each appears as often as the joins produce it. */
module ResultProperties {
  import opened OwnershipTable
  import opened RecursiveCte
  import opened Membership
  import opened Multiplicity
  import opened Evaluation
  import opened OwnerChains

  /** Soundness: a result row is a table row (no column altered), and sits at
      the level the declarative definition gives it. */
  lemma ResultSound(table: seq<Row>, start: Id, fuel: nat)
    ensures GetOwners(table, start, fuel).Fixpoint? ==>
              forall e :: e in GetOwners(table, start, fuel).rows ==>
                e.row in table && e.row in Level(table, start, e.level)
  {
    if GetOwners(table, start, fuel).Fixpoint? {
      var rows := GetOwners(table, start, fuel).rows;
      ResultLevels(table, start, fuel);
      forall e | e in rows
        ensures e.row in table && e.row in Level(table, start, e.level)
      {
        AtLevelMembers(rows, e.level);
        assert LevelledRow(e.row, e.level) == e;
        LevelMembers(table, start, e.level);
      }
    }
  }

  /** Soundness and completeness of the level column: (t, k) is in the result
      exactly when t ends an owner chain of k hops from the start id. */
  lemma ResultIsChainEnds(table: seq<Row>, start: Id, fuel: nat, t: Row, k: nat)
    ensures GetOwners(table, start, fuel).Fixpoint? ==>
              (LevelledRow(t, k) in GetOwners(table, start, fuel).rows
               <==> exists c :: IsOwnerChain(table, start, c) && |c| == k + 1 && c[k] == t)
  {
    if GetOwners(table, start, fuel).Fixpoint? {
      ResultLevels(table, start, fuel);
      AtLevelMembers(GetOwners(table, start, fuel).rows, k);
      LevelIsChainEnds(table, start, k, t);
    }
  }

  /** The result's level-0 rows are the table rows whose CHILD_ID is the start
      id, each as often as the table holds it. */
  lemma ResultSeed(table: seq<Row>, start: Id, fuel: nat, t: Row)
    ensures GetOwners(table, start, fuel).Fixpoint? ==>
              multiset(AtLevel(GetOwners(table, start, fuel).rows, 0))[t]
              == if t.childId == Some(start) then multiset(table)[t] else 0
  {
    ResultLevels(table, start, fuel);
    SeedCount(table, start, t);
  }

  /** The result's level-(k+1) rows are exactly the join of its level-k rows
      with the table, in join order: each recursive iteration sees only the
      previous iteration's rows. */
  lemma ResultNextLevel(table: seq<Row>, start: Id, fuel: nat, k: nat)
    ensures GetOwners(table, start, fuel).Fixpoint? ==>
              AtLevel(GetOwners(table, start, fuel).rows, k + 1)
              == Step(table, AtLevel(GetOwners(table, start, fuel).rows, k))
  {
    ResultLevels(table, start, fuel);
  }

  /** Completeness with multiplicity in the result: a table row appears at
      level k+1 once for each level-k result row it owns and each copy of it
      in the table, so diamonds show both branches. */
  lemma ResultMultiplicity(table: seq<Row>, start: Id, fuel: nat, t: Row, k: nat)
    ensures GetOwners(table, start, fuel).Fixpoint? ==>
              multiset(AtLevel(GetOwners(table, start, fuel).rows, k + 1))[t]
              == multiset(table)[t] * OwnerCount(AtLevel(GetOwners(table, start, fuel).rows, k), t.childId)
  {
    ResultLevels(table, start, fuel);
    StepCount(table, Level(table, start, k), t);
  }
}
