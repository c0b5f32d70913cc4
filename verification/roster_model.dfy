/**
 * The roster store of the Baen Holdings companion, as values.
 *
 * A roster is an ordered list of businesses, each carrying an append-only list
 * of narrative actions; beside it sits a one-slot undo buffer holding the action
 * that the latest confirmed resolution overwrote, with its coordinates.
 * The three operations are stated here as functions from the old store state to
 * the new one; RosterStore.Store performs them in place and is proved against them.
 */
module RosterModel {
  import opened Wrappers

  /** The life cycle of an action: it starts Pending and is resolved to Success or Failure. */
  datatype Status = Pending | Success | Failure

  datatype Action = Action(text: string, status: Status, date: string, notes: string)

  datatype Business = Business(
    id: int,
    name: string,
    city: string,
    sector: string,
    status: string,
    manager: string,
    loyalty: int,
    threat: int,
    actions: seq<Action>)

  type Roster = seq<Business>

  /** The content of the undo buffer: the action as it was before a resolution, and where it sits. */
  datatype UndoRecord = UndoRecord(prev: Action, bizIndex: nat, actionIndex: nat)

  /** The whole store: the roster and the undo buffer (None when the buffer is empty). */
  datatype State = State(roster: Roster, undo: Option<UndoRecord>)

  /** The loyalty and threat scales the overview displays as "/10" and "/5". */
  predicate OnScales(b: Business) {
    0 <= b.loyalty <= 10 && 0 <= b.threat <= 5
  }

  predicate DistinctIds(r: Roster) {
    forall i, j :: 0 <= i < j < |r| ==> r[i].id != r[j].id
  }

  /** The undo buffer, when set, names an action that exists in the roster. */
  predicate UndoInRange(s: State) {
    s.undo.Some? ==>
      s.undo.value.bizIndex < |s.roster| &&
      s.undo.value.actionIndex < |s.roster[s.undo.value.bizIndex].actions|
  }

  /**
   * r2 is r1 after actions were added or edited: the same businesses in the same
   * order, every field other than the action list unchanged, no action list shorter.
   */
  predicate SameShape(r1: Roster, r2: Roster) {
    |r1| == |r2| &&
    forall k :: 0 <= k < |r1| ==>
      r2[k] == r1[k].(actions := r2[k].actions) && |r1[k].actions| <= |r2[k].actions|
  }

  /** The seed roster used when no snapshot was saved. */
  function DefaultBusinesses(): (r: Roster)
    ensures |r| == 3 && DistinctIds(r)
    ensures forall k :: 0 <= k < |r| ==> r[k].actions == [] && OnScales(r[k])
  {
    [ Business(1, "Baen Construction", "Neverwinter", "Infrastructure", "Operational",
               "Veldrin Snowfall", 8, 2, []),
      Business(2, "Northern Crown Financial", "Luskan", "Banking", "Operational",
               "Varrick Silverthorn", 9, 3, []),
      Business(3, "Thorn & Silver Exchange", "Luskan", "Finance Subholding", "NCF-controlled",
               "Selah Thorn", 6, 4, []) ]
  }

  /** The store at start-up: the saved roster if there is one, else the seed; the undo buffer empty. */
  function Initial(saved: Option<Roster>): (s: State)
    ensures s.undo == None && UndoInRange(s)
    ensures saved.Some? ==> s.roster == saved.value
    ensures saved == None ==> s.roster == DefaultBusinesses()
    ensures saved == None ==> |s.roster| == 3 && DistinctIds(s.roster)
  {
    State(if saved.Some? then saved.value else DefaultBusinesses(), None)
  }

  /** Business i with `act` appended to its action list. */
  function AppendAction(r: Roster, i: nat, act: Action): Roster
    requires i < |r|
  {
    r[i := r[i].(actions := r[i].actions + [act])]
  }

  /** The roster with the action at (b, a) replaced by `act`. */
  function SetAction(r: Roster, b: nat, a: nat, act: Action): Roster
    requires b < |r| && a < |r[b].actions|
  {
    r[b := r[b].(actions := r[b].actions[a := act])]
  }

  /**
   * Assigning `text` to business `index` on `date`: an empty text is ignored;
   * otherwise a new Pending action with empty notes goes at the end of that
   * business's list. The undo buffer is never touched.
   */
  function AssignAction(s: State, index: nat, text: string, date: string): (t: State)
    requires index < |s.roster|
    ensures SameShape(s.roster, t.roster)
    ensures t.undo == s.undo
    ensures text == "" ==> t == s
    ensures text != "" ==>
      var before, after := s.roster[index].actions, t.roster[index].actions;
      |after| == |before| + 1 &&
      after[..|before|] == before &&
      after[|before|] == Action(text, Pending, date, "")
    ensures forall k :: 0 <= k < |s.roster| && k != index ==> t.roster[k] == s.roster[k]
    ensures UndoInRange(s) ==> UndoInRange(t)
  {
    if text == "" then s
    else State(AppendAction(s.roster, index, Action(text, Pending, date, "")), s.undo)
  }

  /**
   * Resolving the action at (b, a) to `result`. When the user declines the
   * confirmation nothing happens. Otherwise the action as it was is saved in the
   * undo buffer together with (b, a), replacing whatever the buffer held, and
   * only that action's status changes.
   */
  function ResolveAction(s: State, confirmed: bool, b: nat, a: nat, result: Status): (t: State)
    requires b < |s.roster| && a < |s.roster[b].actions|
    ensures SameShape(s.roster, t.roster)
    ensures confirmed || UndoInRange(s) ==> UndoInRange(t)
    ensures !confirmed ==> t == s
    ensures confirmed ==>
      t.undo == Some(UndoRecord(s.roster[b].actions[a], b, a)) &&
      t.roster[b].actions[a] == s.roster[b].actions[a].(status := result) &&
      |t.roster[b].actions| == |s.roster[b].actions| &&
      (forall j :: 0 <= j < |s.roster[b].actions| && j != a ==>
         t.roster[b].actions[j] == s.roster[b].actions[j]) &&
      (forall k :: 0 <= k < |s.roster| && k != b ==> t.roster[k] == s.roster[k])
  {
    if !confirmed then s
    else
      var act := s.roster[b].actions[a];
      State(SetAction(s.roster, b, a, act.(status := result)), Some(UndoRecord(act, b, a)))
  }

  /**
   * Undoing the latest resolution: with an empty buffer nothing happens; otherwise
   * the saved action is written back at its recorded coordinates and the buffer
   * is emptied.
   */
  function UndoLast(s: State): (t: State)
    requires UndoInRange(s)
    ensures SameShape(s.roster, t.roster)
    ensures t.undo == None
    ensures s.undo == None ==> t == s
    ensures s.undo.Some? ==>
      var u := s.undo.value;
      t.roster[u.bizIndex].actions[u.actionIndex] == u.prev &&
      |t.roster[u.bizIndex].actions| == |s.roster[u.bizIndex].actions| &&
      (forall j :: 0 <= j < |s.roster[u.bizIndex].actions| && j != u.actionIndex ==>
         t.roster[u.bizIndex].actions[j] == s.roster[u.bizIndex].actions[j]) &&
      (forall k :: 0 <= k < |s.roster| && k != u.bizIndex ==> t.roster[k] == s.roster[k])
  {
    match s.undo
    case None => s
    case Some(u) => State(SetAction(s.roster, u.bizIndex, u.actionIndex, u.prev), None)
  }
}
