/** Owner chains: the paths that following OWNER_ID links from the start id
    traces through the table. Level k is exactly the set of rows that end a
    chain of k hops. */
module OwnerChains {
  import opened OwnershipTable
  import opened RecursiveCte
  import opened Membership

  /** `c` starts at a row whose CHILD_ID is `start`, and each later row is a
      table row that owns the row before it. */
  ghost predicate IsOwnerChain(table: seq<Row>, start: Id, c: seq<Row>)
  {
    && |c| > 0
    && c[0].childId == Some(start)
    && (forall i :: 0 <= i < |c| ==> c[i] in table)
    && (forall i :: 0 < i < |c| ==> OwnedVia(c[i - 1], c[i]))
  }

  /** Soundness of the level numbering: a row at level k ends a chain of k hops. */
  lemma LevelMemberEndsChain(table: seq<Row>, start: Id, k: nat, t: Row)
    requires t in Level(table, start, k)
    ensures exists c :: IsOwnerChain(table, start, c) && |c| == k + 1 && c[k] == t
  {
    var c := ChainTo(table, start, k, t);
  }

  /** The chain of k hops that led to a level-k row, rebuilt one join at a time. */
  lemma {:induction false} ChainTo(table: seq<Row>, start: Id, k: nat, t: Row) returns (c: seq<Row>)
    requires t in Level(table, start, k)
    ensures IsOwnerChain(table, start, c) && |c| == k + 1 && c[k] == t
  {
    if k == 0 {
      SeedRowIsChain(table, start, t);
      c := [t];
    } else {
      var o := OwnedRowBelow(table, start, k, t);
      LevelMembers(table, start, k);
      var below := ChainTo(table, start, k - 1, o);
      ExtendChain(table, start, below, t);
      c := below + [t];
    }
  }

  lemma SeedRowIsChain(table: seq<Row>, start: Id, t: Row)
    requires t in Level(table, start, 0)
    ensures IsOwnerChain(table, start, [t])
  {
    SeedMembers(table, start);
  }

  /** A table row owning the last row of a chain extends it by one hop. */
  lemma ExtendChain(table: seq<Row>, start: Id, c: seq<Row>, t: Row)
    requires IsOwnerChain(table, start, c)
    requires t in table && OwnedVia(c[|c| - 1], t)
    ensures IsOwnerChain(table, start, c + [t])
  {
    var c' := c + [t];
    assert forall i :: 0 <= i < |c| ==> c'[i] == c[i];
  }

  /** Every non-empty prefix of an owner chain is an owner chain. */
  lemma ChainPrefix(table: seq<Row>, start: Id, c: seq<Row>, m: nat)
    requires IsOwnerChain(table, start, c) && 0 < m <= |c|
    ensures IsOwnerChain(table, start, c[..m])
  {
    var p := c[..m];
    assert forall i :: 0 <= i < |p| ==> p[i] == c[i];
  }

  /** Completeness of the level numbering: the end of a chain of k hops is at level k. */
  lemma {:induction false} ChainEndInLevel(table: seq<Row>, start: Id, c: seq<Row>)
    requires IsOwnerChain(table, start, c)
    ensures c[|c| - 1] in Level(table, start, |c| - 1)
    decreases |c|
  {
    if |c| == 1 {
      SeedMembers(table, start);
    } else {
      var k := |c| - 1;
      ChainPrefix(table, start, c, k);
      ChainEndInLevel(table, start, c[..k]);
      var o, t := c[k - 1], c[k];
      assert o in Level(table, start, k - 1);
      assert t in table && OwnedVia(o, t);
      NextLevelMembers(table, start, k);
    }
  }

  /** Level k holds exactly the rows that end an owner chain of k hops from the start id. */
  lemma LevelIsChainEnds(table: seq<Row>, start: Id, k: nat, t: Row)
    ensures t in Level(table, start, k)
            <==> exists c :: IsOwnerChain(table, start, c) && |c| == k + 1 && c[k] == t
  {
    if t in Level(table, start, k) {
      LevelMemberEndsChain(table, start, k, t);
    }
    if exists c :: IsOwnerChain(table, start, c) && |c| == k + 1 && c[k] == t {
      var c :| IsOwnerChain(table, start, c) && |c| == k + 1 && c[k] == t;
      ChainEndInLevel(table, start, c);
    }
  }
}
