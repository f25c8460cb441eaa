/** `SlotManager.cs`: the per-object lists of commands and the custom
    actions attached to them. A UnityEvent is represented by an abstract id
    of its listener list; firing one is returned as that id. */
module Slots {
  import opened Wrappers
  import opened Conditions
  import opened Inventories
  import opened Commands

  type EventId = nat

  /** A user-defined action with its preconditions and the two mouse-button
      events. */
  datatype CustomAction = CustomAction(
    requireInteractables: bool,
    previousInteractables: seq<ItemRef>,
    conditions: seq<Condition>,
    moveCloserL: bool,
    moveCloserR: bool,
    duplicateActions: bool,
    leftMouseButtonActions: EventId,
    rightMouseButtonActions: EventId)

  /** The field initialisers of CustomAction: interactables required, no
      previous interactables, no conditions, no movement, no duplication. */
  function NewCustomAction(left: EventId, right: EventId): (a: CustomAction)
    ensures a.requireInteractables && a.previousInteractables == [] && a.conditions == []
    ensures !a.moveCloserL && !a.moveCloserR && !a.duplicateActions
  {
    CustomAction(true, [], [], false, false, false, left, right)
  }

  datatype LabeledAction = LabeledAction(labelText: string, action: CustomAction)

  datatype CommandActions = CommandActions(data: CommandData, actions: seq<LabeledAction>)

  /** `CommandActions(CommandData)`: the given command, no actions yet. */
  function NewCommandActions(data: CommandData): (c: CommandActions)
    ensures c.data == data && c.actions == []
  {
    CommandActions(data, [])
  }

  datatype Slot = Slot(item: ItemRef, commands: seq<CommandActions>)

  /** GetCommands: the commands of the first non-null slot holding the item,
      or a new empty list. */
  function GetCommands(slots: seq<Option<Slot>>, item: ItemRef): (r: seq<CommandActions>)
    ensures (exists i :: 0 <= i < |slots| && slots[i].Some? && slots[i].value.item == item) ==>
      exists i :: 0 <= i < |slots| && slots[i].Some? && slots[i].value.item == item
        && r == slots[i].value.commands
        && forall j :: 0 <= j < i ==> !(slots[j].Some? && slots[j].value.item == item)
    ensures (forall i :: 0 <= i < |slots| ==> !(slots[i].Some? && slots[i].value.item == item)) ==> r == []
    decreases |slots|
  {
    if |slots| == 0 then []
    else if slots[0].Some? && slots[0].value.item == item then slots[0].value.commands
    else
      assert forall j :: 1 <= j < |slots| ==> slots[j] == slots[1..][j - 1];
      GetCommands(slots[1..], item)
  }

  /** CallLeftOrRightEvent: the event that a click fires. */
  function CallLeftOrRightEvent(a: CustomAction, left: bool): (e: EventId)
    ensures a.duplicateActions ==> e == a.leftMouseButtonActions
    ensures !a.duplicateActions ==> e == if left then a.leftMouseButtonActions else a.rightMouseButtonActions
  {
    if a.duplicateActions || left then a.leftMouseButtonActions else a.rightMouseButtonActions
  }

  /** With DuplicateActions set, both buttons fire the same event; without
      it, the two buttons fire the two events. */
  lemma DuplicateActionsMerge(a: CustomAction)
    ensures a.duplicateActions ==> CallLeftOrRightEvent(a, true) == CallLeftOrRightEvent(a, false)
    ensures !a.duplicateActions ==> CallLeftOrRightEvent(a, false) == a.rightMouseButtonActions
  {
  }
}
