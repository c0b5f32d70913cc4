/**
 * Properties of the roster store that relate several operations: the undo round
 * trip, the one-shot and single-slot nature of the undo buffer, the status life
 * cycle, and the invariants kept by any sequence of user operations.
 */
module RosterProps {
  import opened Wrappers
  import opened RosterModel

  /** A confirmed resolution followed by an undo gives back the exact prior roster, with the buffer empty. */
  lemma ResolveThenUndo(s: State, b: nat, a: nat, result: Status)
    requires b < |s.roster| && a < |s.roster[b].actions|
    ensures UndoLast(ResolveAction(s, true, b, a, result)) == State(s.roster, None)
  {
    var t := ResolveAction(s, true, b, a, result);
    var u := UndoLast(t);
    assert u.roster[b].actions == s.roster[b].actions;
    assert u.roster == s.roster;
  }

  /** A declined resolution followed by an undo is just an undo: the declined call left no trace. */
  lemma DeclinedResolveLeavesNoUndo(s: State, b: nat, a: nat, result: Status)
    requires UndoInRange(s)
    requires b < |s.roster| && a < |s.roster[b].actions|
    ensures UndoLast(ResolveAction(s, false, b, a, result)) == UndoLast(s)
  {
  }

  /** The undo buffer is one-shot: a second undo in a row changes nothing. */
  lemma UndoIsOneShot(s: State)
    requires UndoInRange(s)
    ensures UndoLast(UndoLast(s)) == UndoLast(s)
  {
  }

  /**
   * The buffer is overwritten, not stacked: after two confirmed resolutions one
   * undo returns to the state just after the first, so the first resolution
   * stays in place and cannot be undone any more.
   */
  lemma SecondResolveOverwritesUndo(s: State, b1: nat, a1: nat, r1: Status, b2: nat, a2: nat, r2: Status)
    requires b1 < |s.roster| && a1 < |s.roster[b1].actions|
    requires b2 < |s.roster| && a2 < |s.roster[b2].actions|
    ensures
      var s1 := ResolveAction(s, true, b1, a1, r1);
      var s3 := UndoLast(ResolveAction(s1, true, b2, a2, r2));
      s3 == State(s1.roster, None) &&
      s3.roster[b1].actions[a1] == s.roster[b1].actions[a1].(status := r1) &&
      UndoLast(s3) == s3
  {
    var s1 := ResolveAction(s, true, b1, a1, r1);
    assert SameShape(s.roster, s1.roster);
    assert b2 < |s1.roster| && a2 < |s1.roster[b2].actions|;
    ResolveThenUndo(s1, b2, a2, r2);
  }

  /** SameShape is transitive, so it carries over any number of steps. */
  lemma SameShapeTrans(r1: Roster, r2: Roster, r3: Roster)
    requires SameShape(r1, r2) && SameShape(r2, r3)
    ensures SameShape(r1, r3)
  {
  }

  /** Ids are untouched by SameShape changes, so their distinctness is kept. */
  lemma SameShapeKeepsIds(r1: Roster, r2: Roster)
    requires SameShape(r1, r2)
    ensures DistinctIds(r1) ==> DistinctIds(r2)
    ensures forall k :: 0 <= k < |r1| ==> (OnScales(r1[k]) <==> OnScales(r2[k]))
  {
  }

  /** One user operation, with the answer to the confirmation prompt and the date as inputs. */
  datatype Op =
    | Assign(index: nat, text: string, date: string)
    | Resolve(confirmed: bool, bizIndex: nat, actionIndex: nat, result: Status)
    | Undo

  /**
   * What the interface lets a user do: pick an existing business, or resolve an
   * existing action that is still Pending (the only ones offered a resolve button)
   * to Success or Failure (the only results those buttons pass).
   */
  predicate Enabled(s: State, op: Op) {
    match op
    case Assign(i, _, _) => i < |s.roster|
    case Resolve(_, b, a, r) =>
      b < |s.roster| && a < |s.roster[b].actions| && s.roster[b].actions[a].status == Pending &&
      r != Pending
    case Undo => true
  }

  function Step(s: State, op: Op): (t: State)
    requires UndoInRange(s) && Enabled(s, op)
    ensures UndoInRange(t) && SameShape(s.roster, t.roster)
  {
    match op
    case Assign(i, text, date) => AssignAction(s, i, text, date)
    case Resolve(c, b, a, r) => ResolveAction(s, c, b, a, r)
    case Undo => UndoLast(s)
  }

  /** Every operation of `ops`, applied in order from `s`, is one the interface offers at that point. */
  predicate Feasible(s: State, ops: seq<Op>)
    requires UndoInRange(s)
    decreases |ops|
  {
    ops == [] || (Enabled(s, ops[0]) && Feasible(Step(s, ops[0]), ops[1..]))
  }

  function Run(s: State, ops: seq<Op>): State
    requires UndoInRange(s) && Feasible(s, ops)
    decreases |ops|
  {
    if ops == [] then s else Run(Step(s, ops[0]), ops[1..])
  }

  /**
   * Over any sequence of operations the number of businesses and every business
   * field other than its actions stay fixed, no action list shrinks, and the
   * undo coordinates stay in range.
   */
  lemma {:induction false} RunKeepsShape(s: State, ops: seq<Op>)
    requires UndoInRange(s) && Feasible(s, ops)
    ensures UndoInRange(Run(s, ops)) && SameShape(s.roster, Run(s, ops).roster)
    decreases |ops|
  {
    if ops != [] {
      var s1 := Step(s, ops[0]);
      RunKeepsShape(s1, ops[1..]);
      SameShapeTrans(s.roster, s1.roster, Run(s1, ops[1..]).roster);
    }
  }

  /**
   * Starting from the seed roster, after any feasible sequence of operations the
   * roster still has three businesses with distinct ids and loyalty and threat
   * on their scales, and the undo buffer points at an existing action.
   */
  lemma SeedInvariants(ops: seq<Op>)
    requires Feasible(Initial(None), ops)
    ensures var t := Run(Initial(None), ops);
      |t.roster| == 3 && DistinctIds(t.roster) && UndoInRange(t) &&
      forall k :: 0 <= k < |t.roster| ==> OnScales(t.roster[k])
  {
    var s := Initial(None);
    RunKeepsShape(s, ops);
    SameShapeKeepsIds(s.roster, Run(s, ops).roster);
  }

  /**
   * Only the targeted action changes status in one step: an action that differs
   * afterwards is the one a confirmed resolution named (and it was Pending), or
   * the one the undo buffer named.
   */
  lemma OnlyTargetChanges(s: State, op: Op, b: nat, a: nat)
    requires UndoInRange(s) && Enabled(s, op)
    requires b < |s.roster| && a < |s.roster[b].actions|
    ensures var t := Step(s, op);
      t.roster[b].actions[a] != s.roster[b].actions[a] ==>
        (op.Resolve? && op.confirmed && op.bizIndex == b && op.actionIndex == a &&
         s.roster[b].actions[a].status == Pending &&
         t.roster[b].actions[a] == s.roster[b].actions[a].(status := op.result)) ||
        (op.Undo? && s.undo == Some(UndoRecord(t.roster[b].actions[a], b, a)))
  {
  }

  /**
   * The worked scenario: on the seed roster, assign "Audit Finances" to the first
   * business, confirm it as a Success, then undo; the action is Pending again.
   */
  lemma AuditFinancesScenario(date: string)
    ensures
      var s0 := Initial(None);
      var s1 := AssignAction(s0, 0, "Audit Finances", date);
      var s2 := ResolveAction(s1, true, 0, 0, Success);
      var s3 := UndoLast(s2);
      s1.roster[0].actions == [Action("Audit Finances", Pending, date, "")] &&
      s2.roster[0].actions == [Action("Audit Finances", Success, date, "")] &&
      s3.roster[0].actions == [Action("Audit Finances", Pending, date, "")] &&
      s3.undo == None &&
      AssignAction(s0, 1, "", date).roster[1].actions == []
  {
  }
}
