/**
 * The roster store as the application holds it: one mutable roster and one
 * mutable undo slot, updated in place by the three event handlers. Each method
 * is proved to leave the store in the state the corresponding RosterModel
 * function describes, and to keep the undo slot pointing at an existing action.
 */
module RosterStore {
  import opened Wrappers
  import opened RosterModel

  class Store {
    var roster: Roster
    var undo: Option<UndoRecord>

    /** The store invariant: the undo slot, when set, names an existing action. */
    ghost predicate Valid()
      reads this
    {
      UndoInRange(Current())
    }

    /** The store's current value. */
    ghost function Current(): State
      reads this
    {
      State(roster, undo)
    }

    /** Start-up: the saved snapshot when one exists, otherwise the seed roster; an empty undo slot. */
    constructor (saved: Option<Roster>)
      ensures Valid()
      ensures Current() == Initial(saved)
    {
      roster := if saved.Some? then saved.value else DefaultBusinesses();
      undo := None;
    }

    /** Appends a new Pending action to business `index`; an empty text is ignored. */
    method AssignAction(index: nat, text: string, date: string)
      requires Valid() && index < |roster|
      modifies this
      ensures Valid()
      ensures Current() == RosterModel.AssignAction(old(Current()), index, text, date)
    {
      if text == "" {
        return;
      }
      var business := roster[index];
      business := business.(actions := business.actions + [Action(text, Pending, date, "")]);
      roster := roster[index := business];
    }

    /**
     * Asks for confirmation (given as `confirmed`); if granted, saves the action at
     * (bizIndex, actionIndex) in the undo slot and sets its status to `result`.
     * Only Pending actions are offered for resolution.
     */
    method ResolveAction(confirmed: bool, bizIndex: nat, actionIndex: nat, result: Status)
      requires Valid()
      requires bizIndex < |roster| && actionIndex < |roster[bizIndex].actions|
      requires roster[bizIndex].actions[actionIndex].status == Pending
      modifies this
      ensures Valid()
      ensures Current() == RosterModel.ResolveAction(old(Current()), confirmed, bizIndex, actionIndex, result)
    {
      if !confirmed {
        return;
      }
      var business := roster[bizIndex];
      var action := business.actions[actionIndex];
      undo := Some(UndoRecord(action, bizIndex, actionIndex));
      business := business.(actions := business.actions[actionIndex := action.(status := result)]);
      roster := roster[bizIndex := business];
    }

    /** Writes the saved action back at its recorded coordinates and empties the slot; no-op when empty. */
    method UndoLast()
      requires Valid()
      modifies this
      ensures Valid()
      ensures Current() == RosterModel.UndoLast(old(Current()))
    {
      if undo == None {
        return;
      }
      var UndoRecord(prev, bizIndex, actionIndex) := undo.value;
      var business := roster[bizIndex];
      business := business.(actions := business.actions[actionIndex := prev]);
      roster := roster[bizIndex := business];
      undo := None;
    }
  }

  /** A client run of the worked scenario, using only the methods' contracts. */
  method AuditFinancesClient(date: string)
  {
    var store := new Store(None);
    store.AssignAction(0, "Audit Finances", date);
    assert store.roster[0].actions == [Action("Audit Finances", Pending, date, "")];
    store.ResolveAction(true, 0, 0, Success);
    assert store.roster[0].actions[0].status == Success;
    store.UndoLast();
    assert store.roster[0].actions[0].status == Pending && store.undo == None;
    store.UndoLast();
    assert store.roster[0].actions == [Action("Audit Finances", Pending, date, "")];
  }
}
