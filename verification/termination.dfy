/** When does `get_owners` return? The query keeps no visited set, so it
    reaches its fixpoint exactly when no owner chain from the start id
    revisits an id; then at most |table| levels are non-empty. */
module Termination {
  import opened OwnershipTable
  import opened RecursiveCte
  import opened Membership
  import opened Evaluation
  import opened OwnerChains

  /** No id occurs twice along the chain. */
  ghost predicate DistinctIds(c: seq<Row>)
  {
    forall i, j :: 0 <= i < j < |c| ==> c[i].childId != c[j].childId
  }

  /** The owner graph reachable from `start` has no cycle: no owner chain
      from `start` comes back to an id it has already visited. */
  ghost predicate Acyclic(table: seq<Row>, start: Id)
  {
    forall c :: IsOwnerChain(table, start, c) ==> DistinctIds(c)
  }

  /** Pigeonhole: pairwise-distinct values all drawn from `ys` are no more than `ys`. */
  lemma {:induction false} Pigeonhole<T>(xs: seq<T>, ys: seq<T>)
    requires forall i, j :: 0 <= i < j < |xs| ==> xs[i] != xs[j]
    requires forall i :: 0 <= i < |xs| ==> xs[i] in ys
    ensures |xs| <= |ys|
    decreases |xs|
  {
    if xs != [] {
      var k :| 0 <= k < |ys| && ys[k] == xs[0];
      var ys' := ys[..k] + ys[k + 1..];
      forall i | 0 <= i < |xs[1..]|
        ensures xs[1..][i] in ys'
      {
        assert xs[1..][i] == xs[i + 1] != xs[0];
        var m :| 0 <= m < |ys| && ys[m] == xs[i + 1];
        if m < k {
          assert ys'[m] == ys[m];
        } else {
          assert ys'[m - 1] == ys[m];
        }
      }
      Pigeonhole(xs[1..], ys');
    }
  }

  /** With an acyclic owner graph, level |table| is empty: a row there would end
      a chain of |table| + 1 rows with distinct ids, more ids than the table has rows. */
  lemma AcyclicLevelsVanish(table: seq<Row>, start: Id)
    requires Acyclic(table, start)
    ensures Level(table, start, |table|) == []
  {
    var n := |table|;
    if Level(table, start, n) != [] {
      var t := Level(table, start, n)[0];
      LevelMemberEndsChain(table, start, n, t);
      var c: seq<Row> :| IsOwnerChain(table, start, c) && |c| == n + 1 && c[n] == t;
      var ids := seq(|c|, i requires 0 <= i < |c| => c[i].childId);
      var tableIds := seq(|table|, i requires 0 <= i < |table| => table[i].childId);
      forall i | 0 <= i < |ids|
        ensures ids[i] in tableIds
      {
        var j :| 0 <= j < |table| && table[j] == c[i];
        assert tableIds[j] == ids[i];
      }
      Pigeonhole(ids, tableIds);
    }
  }

  /** Along a chain whose ids repeat between positions i and j, the rows
      c[i] .. c[j-1] form a loop of owner links, so every level from i on
      holds one of them. */
  lemma {:induction false} CycleRowInLevel(table: seq<Row>, start: Id, c: seq<Row>, i: nat, j: nat, n: nat)
    requires IsOwnerChain(table, start, c)
    requires i < j < |c| && c[i].childId == c[j].childId
    requires i <= n
    ensures exists a :: i <= a < j && c[a] in Level(table, start, n)
    decreases n
  {
    if n == i {
      PrefixEndInLevel(table, start, c, i);
    } else {
      CycleRowInLevel(table, start, c, i, j, n - 1);
      var a :| i <= a < j && c[a] in Level(table, start, n - 1);
      var b := if a + 1 < j then a + 1 else i;
      assert OwnedVia(c[a], c[a + 1]);
      assert OwnedVia(c[a], c[b]);
      NextLevelMembers(table, start, n);
      assert c[b] in Level(table, start, n);
    }
  }

  lemma PrefixEndInLevel(table: seq<Row>, start: Id, c: seq<Row>, k: nat)
    requires IsOwnerChain(table, start, c) && k < |c|
    ensures c[k] in Level(table, start, k)
  {
    ChainPrefix(table, start, c, k + 1);
    ChainEndInLevel(table, start, c[..k + 1]);
  }

  /** With a cycle reachable from the start id no level is ever empty. */
  lemma CyclicLevelsPersist(table: seq<Row>, start: Id, k: nat)
    requires !Acyclic(table, start)
    ensures Level(table, start, k) != []
  {
    var c: seq<Row> :| IsOwnerChain(table, start, c) && !DistinctIds(c);
    var i, j :| 0 <= i < j < |c| && c[i].childId == c[j].childId;
    if k < i {
      PrefixEndInLevel(table, start, c, k);
    } else {
      CycleRowInLevel(table, start, c, i, j, k);
    }
  }

  /** `get_owners` returns within |table| joins exactly when the owner graph
      reachable from the start id is acyclic. */
  lemma TerminatesIffAcyclic(table: seq<Row>, start: Id)
    ensures GetOwners(table, start, |table|).Fixpoint? <==> Acyclic(table, start)
  {
    GetOwnersTerminatesIff(table, start, |table|);
    if Acyclic(table, start) {
      AcyclicLevelsVanish(table, start);
    } else {
      forall n | 0 <= n <= |table|
        ensures Level(table, start, n) != []
      {
        CyclicLevelsPersist(table, start, n);
      }
    }
  }

  /** With a reachable cycle no amount of fuel reaches a fixpoint: the source
      never returns a result (it loops until the engine fails). */
  lemma CyclicNeverTerminates(table: seq<Row>, start: Id, fuel: nat)
    requires !Acyclic(table, start)
    ensures GetOwners(table, start, fuel) == OutOfFuel
  {
    GetOwnersTerminatesIff(table, start, fuel);
    forall n | 0 <= n <= fuel
      ensures Level(table, start, n) != []
    {
      CyclicLevelsPersist(table, start, n);
    }
  }

  /** With an acyclic owner graph any fuel of at least |table| gives the same,
      complete result: levels 0 .. |table|-1, everything beyond being empty. */
  lemma AcyclicResultIsStable(table: seq<Row>, start: Id, fuel: nat)
    requires Acyclic(table, start) && |table| <= fuel
    ensures GetOwners(table, start, fuel).Fixpoint?
    ensures GetOwners(table, start, fuel) == GetOwners(table, start, |table|)
  {
    AcyclicLevelsVanish(table, start);
    GetOwnersResult(table, start, |table|, fuel);
  }
}
