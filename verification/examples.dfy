/** Worked tables: a diamond, where two ownership paths meet at one ultimate
    parent, and a two-entity cycle, on which the query never returns. */
module Examples {
  import opened OwnershipTable
  import opened RecursiveCte
  import opened Evaluation
  import opened OwnerChains
  import opened Termination

  /** D is owned half by B and half by C; B and C are both wholly owned by A; A is the top company. */
  const DB := Row(Some("D"), Some("Delta"), Some("NL"), Some("B"), Some(0.5))
  const DC := Row(Some("D"), Some("Delta"), Some("NL"), Some("C"), Some(0.5))
  const BA := Row(Some("B"), Some("Bravo"), Some("DE"), Some("A"), Some(1.0))
  const CA := Row(Some("C"), Some("Charlie"), Some("FR"), Some("A"), Some(1.0))
  const ATop := Row(Some("A"), Some("Alpha"), Some("US"), None, None)

  function Diamond(): seq<Row>
  {
    [ATop, BA, CA, DB, DC]
  }

  lemma DiamondRowsWithChild()
    ensures RowsWithChild(Diamond(), Some("D")) == [DB, DC]
    ensures RowsWithChild(Diamond(), Some("B")) == [BA]
    ensures RowsWithChild(Diamond(), Some("C")) == [CA]
    ensures RowsWithChild(Diamond(), Some("A")) == [ATop]
    ensures RowsWithChild(Diamond(), None) == []
  {
  }

  /** The levels of the diamond from D: the two edges of D, then B's and C's
      edges, then A twice (once per path), then nothing. */
  lemma DiamondLevels()
    ensures Level(Diamond(), "D", 0) == [DB, DC]
    ensures Level(Diamond(), "D", 1) == [BA, CA]
    ensures Level(Diamond(), "D", 2) == [ATop, ATop]
    ensures Level(Diamond(), "D", 3) == []
  {
    DiamondRowsWithChild();
    var t := Diamond();
    assert Step(t, [DB, DC]) == [BA] + Step(t, [DC]);
    assert Step(t, [BA, CA]) == [ATop] + Step(t, [CA]);
    assert Step(t, [ATop, ATop]) == [] + Step(t, [ATop]);
  }

  /** Both branches of the diamond are kept: the query returns, and A appears
      twice at level 2, once per path. */
  lemma DiamondKeepsBothPaths()
    ensures GetOwners(Diamond(), "D", 5).Fixpoint?
    ensures AtLevel(GetOwners(Diamond(), "D", 5).rows, 0) == [DB, DC]
    ensures AtLevel(GetOwners(Diamond(), "D", 5).rows, 1) == [BA, CA]
    ensures AtLevel(GetOwners(Diamond(), "D", 5).rows, 2) == [ATop, ATop]
    ensures AtLevel(GetOwners(Diamond(), "D", 5).rows, 3) == []
  {
    DiamondLevels();
    GetOwnersResult(Diamond(), "D", 3, 5);
  }

  /** X owns Y and Y owns X. */
  const XY := Row(Some("X"), Some("Xray"), Some("GB"), Some("Y"), Some(1.0))
  const YX := Row(Some("Y"), Some("Yankee"), Some("GB"), Some("X"), Some(1.0))

  /** On a cyclic table the query runs out of any fuel. */
  lemma CycleNeverReturns(fuel: nat)
    ensures GetOwners([XY, YX], "X", fuel) == OutOfFuel
  {
    var c := [XY, YX, XY];
    assert IsOwnerChain([XY, YX], "X", c);
    assert c[0].childId == c[2].childId;
    assert !DistinctIds(c);
    CyclicNeverTerminates([XY, YX], "X", fuel);
  }
}
