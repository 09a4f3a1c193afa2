/** The recursive query evaluated the way a SQL engine runs WITH RECURSIVE ...
    UNION ALL: keep a working table, append it to the result, replace it by its
    join with the table, and stop when it is empty. */
module WorkingTable {
  import opened OwnershipTable
  import opened RecursiveCte
  import opened Evaluation

  /** Puts already-emitted rows in front of the outcome of the remaining iterations. */
  function Prepend(emitted: seq<LevelledRow>, e: Eval): Eval
  {
    match e
    case Fixpoint(rows) => Fixpoint(emitted + rows)
    case OutOfFuel => OutOfFuel
  }

  /** Iterative evaluation of `get_owners`, performing at most `fuel` joins:
      it agrees with the recursive definition, stops exactly when a level within
      reach is empty, and then returns every level tagged with its number. */
  method EvaluateOwners(table: seq<Row>, start: Id, fuel: nat) returns (e: Eval)
    ensures e == GetOwners(table, start, fuel)
    ensures e.Fixpoint? <==> exists n :: 0 <= n <= fuel && Level(table, start, n) == []
    ensures e.Fixpoint? ==> forall k: nat :: AtLevel(e.rows, k) == Level(table, start, k)
  {
    var working := Seed(table, start);
    var emitted: seq<LevelledRow> := [];
    var level: nat := 0;
    while working != [] && level < fuel
      invariant level <= fuel
      invariant GetOwners(table, start, fuel) == Prepend(emitted, Run(table, working, level, fuel - level))
      decreases fuel - level
    {
      RunOneIteration(table, working, level, fuel - level, emitted);
      emitted := emitted + Tag(working, level);
      working := Step(table, working);
      level := level + 1;
    }
    if working == [] {
      e := Fixpoint(emitted);
    } else {
      e := OutOfFuel;
    }
    assert e == Prepend(emitted, Run(table, working, level, fuel - level));
    GetOwnersTerminatesIff(table, start, fuel);
    ResultLevels(table, start, fuel);
  }

  /** One iteration of the loop: the current working table moves to the
      emitted rows and its join becomes the working table. */
  lemma RunOneIteration(table: seq<Row>, working: seq<Row>, level: nat, fuel: nat, emitted: seq<LevelledRow>)
    requires working != [] && fuel > 0
    ensures Prepend(emitted, Run(table, working, level, fuel))
            == Prepend(emitted + Tag(working, level), Run(table, Step(table, working), level + 1, fuel - 1))
  {
    match Run(table, Step(table, working), level + 1, fuel - 1)
    case Fixpoint(rest) =>
      assert emitted + (Tag(working, level) + rest) == emitted + Tag(working, level) + rest;
    case OutOfFuel =>
  }
}
