/** `Interactable.cs`: what happens when the player clicks an object with a
    command selected — the object joins the action sequence, and once the
    sentence is complete the first custom action whose requirements hold
    fires (or the command's default action). Walking closer first is
    asynchronous movement and is only reported, as a flag, not performed. */
module Interactables {
  import opened Wrappers
  import opened Lists
  import opened Variables
  import opened Conditions
  import opened Inventories
  import opened Commands
  import opened Slots

  /** The concrete kind of an interactable: only inventory and world objects
      register themselves in the action sequence. */
  datatype Kind = InventoryObject(item: ItemRef) | WorldObject(item: ItemRef) | OtherInteractable

  datatype Interactable = Interactable(id: nat, kind: Kind, commands: seq<CommandActions>)

  function DataGuidIs(guid: string): CommandActions -> bool {
    (c: CommandActions) => c.data.guid == guid
  }

  // ----- UpdateCommands -----

  /** The entry for one manager command: the first existing entry with the
      same Guid, kept as it is, or a new empty one. */
  function SyncCommand(existing: seq<CommandActions>, command: CommandData): (c: CommandActions)
    ensures c.data.guid == command.guid
    ensures (exists j :: 0 <= j < |existing| && existing[j].data.guid == command.guid) ==>
      c == existing[FirstIndex(existing, DataGuidIs(command.guid))]
    ensures (forall j :: 0 <= j < |existing| ==> existing[j].data.guid != command.guid) ==>
      c == NewCommandActions(command)
  {
    match Find(existing, DataGuidIs(command.guid))
    case Some(c) => c
    case None => NewCommandActions(command)
  }

  /** Interactable.UpdateCommands: one entry per manager command, in the
      manager's order; unlike the manager's own UpdateCommands, a reused
      entry keeps its old name. */
  function UpdateCommands(cmCommands: seq<CommandData>, commands: seq<CommandActions>): (r: seq<CommandActions>)
    ensures |r| == |cmCommands|
    ensures forall i :: 0 <= i < |r| ==> r[i].data.guid == cmCommands[i].guid
    ensures forall i :: 0 <= i < |r| ==> r[i] == SyncCommand(commands, cmCommands[i])
  {
    seq(|cmCommands|, i requires 0 <= i < |cmCommands| => SyncCommand(commands, cmCommands[i]))
  }

  /** With unique manager Guids, a second UpdateCommands changes nothing. */
  lemma UpdateCommandsIdempotent(cmCommands: seq<CommandData>, commands: seq<CommandActions>)
    requires UniqueGuids(cmCommands)
    ensures UpdateCommands(cmCommands, UpdateCommands(cmCommands, commands)) == UpdateCommands(cmCommands, commands)
  {
    var r := UpdateCommands(cmCommands, commands);
    var r' := UpdateCommands(cmCommands, r);
    forall i | 0 <= i < |cmCommands|
      ensures r'[i] == r[i]
    {
      var k := FirstIndex(r, DataGuidIs(cmCommands[i].guid));
      assert r[i].data.guid == cmCommands[i].guid;
      assert 0 <= k <= i;
      assert cmCommands[k].guid == cmCommands[i].guid;
    }
  }

  // ----- IsDone -----

  /** The number of roles of the given kind in a rule. */
  function CountRole(rule: seq<SentenceRole>, role: SentenceRole): (n: nat)
    ensures n <= |rule|
  {
    if |rule| == 0 then 0
    else (if rule[0] == role then 1 else 0) + CountRole(rule[1..], role)
  }

  /** Every role is an Object or a Connector. */
  lemma {:induction false} CountRolesPartition(rule: seq<SentenceRole>)
    ensures CountRole(rule, Object) + CountRole(rule, Connector) == |rule|
  {
    if |rule| > 0 {
      CountRolesPartition(rule[1..]);
    }
  }

  /** IsDone: without sentence structures every interaction is complete;
      otherwise the command's rule must name as many objects as have been
      clicked. A command missing from the manager indexes the structures
      at -1 and throws. */
  function IsDone(m: CommandManager, command: CommandActions): (r: Result<bool>)
    ensures !m.setSentenceStructure ==> r == Ok(true)
    ensures m.setSentenceStructure ==>
      var k := GuidIndex(m.commands, command.data.guid);
      (r.Err? <==> !(0 <= k < |m.sentenceStructure|) || m.sentenceStructure[k].None?)
      && (r.Ok? ==> (r.value <==> CountRole(m.sentenceStructure[k].value.rule, Object) == |m.actionSequence|))
  {
    if !m.setSentenceStructure then Ok(true)
    else
      var k := IndexOf(m.commands, FindByGuid(m, command.data.guid));
      IndexOfFind(m.commands, GuidIs(command.data.guid));
      if k < 0 || k >= |m.sentenceStructure| then Err(IndexOutOfRange)
      else match m.sentenceStructure[k]
        case None => Err(NullReference)
        case Some(s) => Ok(CountRole(s.rule, Object) == |m.actionSequence|)
  }

  // ----- CheckPrevious and FindAction -----

  /** A previous-interactable slot matches a clicked pair when it is null (a
      wildcard) or holds the clicked item. */
  predicate SlotMatches(expected: ItemRef, pair: ItemInteractablePair) {
    expected.None? || expected == pair.item
  }

  /** The items clicked before the current one match the action's list. */
  predicate PreviousMatch(a: CustomAction, sequence: seq<ItemInteractablePair>) {
    !a.requireInteractables ||
    (|a.previousInteractables| == |sequence| - 1
     && forall i :: 0 <= i < |a.previousInteractables| ==> SlotMatches(a.previousInteractables[i], sequence[i]))
  }

  /** CheckPrevious, with its early exits. */
  method CheckPrevious(a: CustomAction, sequence: seq<ItemInteractablePair>) returns (ok: bool)
    ensures ok <==> PreviousMatch(a, sequence)
  {
    if !a.requireInteractables {
      return true;
    }
    if |a.previousInteractables| != |sequence| - 1 {
      return false;
    }
    var i := 0;
    while i < |a.previousInteractables|
      invariant 0 <= i <= |a.previousInteractables|
      invariant forall j :: 0 <= j < i ==> SlotMatches(a.previousInteractables[j], sequence[j])
    {
      if a.previousInteractables[i].Some? && a.previousInteractables[i] != sequence[i].item {
        return false;
      }
      i := i + 1;
    }
    return true;
  }

  /** Every action's conditions refer to existing variables. */
  predicate ActionsOk(vars: Vars, actions: seq<LabeledAction>) {
    forall i :: 0 <= i < |actions| ==> AllRefsOk(vars, actions[i].action.conditions)
  }

  /** The verdict FindAction reaches on one action: CheckPrevious and-ed with
      every condition, each of which is evaluated (`&=`), so a null variable
      throws even when CheckPrevious failed. */
  function Verdict(vars: Vars, a: CustomAction, sequence: seq<ItemInteractablePair>): (r: Result<bool>)
    requires AllRefsOk(vars, a.conditions)
    ensures r.Err? <==> exists i :: 0 <= i < |a.conditions| && a.conditions[i].variable.None?
    ensures r == Ok(true) <==> (PreviousMatch(a, sequence)
      && forall i :: 0 <= i < |a.conditions| ==> Check(vars, a.conditions[i]) == Ok(true))
  {
    var conditions :- EveryHolds(vars, a.conditions);
    Ok(PreviousMatch(a, sequence) && conditions)
  }

  /** FindAction: the first action whose verdict is true, or null. */
  function FindAction(vars: Vars, actions: seq<LabeledAction>, sequence: seq<ItemInteractablePair>): (r: Result<Option<CustomAction>>)
    requires ActionsOk(vars, actions)
    ensures r == Ok(None) <==> forall i :: 0 <= i < |actions| ==> Verdict(vars, actions[i].action, sequence) == Ok(false)
    ensures r.Ok? && r.value.Some? ==>
      exists i :: 0 <= i < |actions| && actions[i].action == r.value.value
        && Verdict(vars, actions[i].action, sequence) == Ok(true)
    decreases |actions|
  {
    if |actions| == 0 then Ok(None)
    else
      var v :- Verdict(vars, actions[0].action, sequence);
      if v then Ok(Some(actions[0].action))
      else
        assert forall i :: 1 <= i < |actions| ==> actions[i] == actions[1..][i - 1];
        FindAction(vars, actions[1..], sequence)
  }

  /** FindAction stops at the first action whose verdict is not false: it
      returns that action, or the exception its conditions raise. */
  lemma {:induction false} FindActionIsFirst(vars: Vars, actions: seq<LabeledAction>, sequence: seq<ItemInteractablePair>, i: int)
    requires ActionsOk(vars, actions) && 0 <= i < |actions|
    requires Verdict(vars, actions[i].action, sequence) != Ok(false)
    requires forall j :: 0 <= j < i ==> Verdict(vars, actions[j].action, sequence) == Ok(false)
    ensures Verdict(vars, actions[i].action, sequence).Ok? ==> FindAction(vars, actions, sequence) == Ok(Some(actions[i].action))
    ensures Verdict(vars, actions[i].action, sequence).Err? ==> FindAction(vars, actions, sequence).Err?
    decreases i
  {
    if i > 0 {
      assert actions[1..][i - 1] == actions[i];
      assert forall j :: 0 <= j < i - 1 ==> actions[1..][j] == actions[j + 1];
      FindActionIsFirst(vars, actions[1..], sequence, i - 1);
    }
  }

  // ----- Interact -----

  /** What a click leads to. `moveFirst` says whether the object asks to
      walk closer before the event fires. */
  datatype Effect =
    | NoMatchingCommand                              // the object lacks the selected command
    | Incomplete                                     // the sentence needs more objects
    | CustomFired(event: EventId, moveFirst: bool)   // a custom action ran
    | DefaultFired(actions: seq<nat>, moveFirst: bool) // the command's default action ran
    | NothingFired                                   // no custom and no default action

  /** The click registered in the action sequence, when the object is one
      of the two kinds that register. */
  function Register(m: CommandManager, self: Interactable): (r: CommandManager)
    ensures self.kind.OtherInteractable? ==> r == m
    ensures !self.kind.OtherInteractable? ==> r == AddAction(m, self.kind.item, self.id)
  {
    match self.kind
    case InventoryObject(item) => AddAction(m, item, self.id)
    case WorldObject(item) => AddAction(m, item, self.id)
    case OtherInteractable => m
  }

  /** Whether a custom action walks closer first: the left-button setting
      for a left click or duplicated actions, else the right-button setting. */
  function MovesFirst(a: CustomAction, hasPosition: bool, isLeft: bool): (r: bool)
    ensures !hasPosition ==> !r
    ensures hasPosition && isLeft ==> (r <==> a.moveCloserL)
    ensures hasPosition && !isLeft ==> (r <==> (a.duplicateActions && a.moveCloserL) || a.moveCloserR)
  {
    hasPosition && (((a.duplicateActions || isLeft) && a.moveCloserL) || (!isLeft && a.moveCloserR))
  }

  /** ExecuteAction up to its first await: find the action, end the
      sentence, then fire the custom action or the command's default. */
  function ExecuteAction(vars: Vars, m: CommandManager, command: CommandActions, hasPosition: bool, isLeft: bool): (r: Result<(CommandManager, Effect)>)
    requires ActionsOk(vars, command.actions)
    ensures r.Ok? ==> r.value.0 == EndAction(m)
    ensures r.Ok? && r.value.1.CustomFired? ==>
      exists i :: 0 <= i < |command.actions|
        && Verdict(vars, command.actions[i].action, m.actionSequence) == Ok(true)
        && r.value.1.event == CallLeftOrRightEvent(command.actions[i].action, isLeft)
    ensures r.Ok? && !r.value.1.CustomFired? ==>
      forall i :: 0 <= i < |command.actions| ==> Verdict(vars, command.actions[i].action, m.actionSequence) == Ok(false)
    ensures r.Ok? ==> r.value.1.CustomFired? || r.value.1.DefaultFired? || r.value.1.NothingFired?
  {
    var action :- FindAction(vars, command.actions, m.actionSequence);
    var ended := EndAction(m);
    match action
    case Some(a) => Ok((ended, CustomFired(CallLeftOrRightEvent(a, isLeft), MovesFirst(a, hasPosition, isLeft))))
    case None =>
      match Find(m.defaultActions, ActionGuidIs(command.data.guid))
      case Some(d) => Ok((ended, DefaultFired(d.actions, d.moveCloser && hasPosition)))
      case None => Ok((ended, NothingFired))
  }

  /** Interact: register the click, look up the selected command on this
      object, and run it once the sentence is complete. */
  function Interact(vars: Vars, m: CommandManager, self: Interactable, hasPosition: bool, isLeft: bool): (r: Result<(CommandManager, Effect)>)
    requires forall i :: 0 <= i < |self.commands| ==> ActionsOk(vars, self.commands[i].actions)
    ensures r.Ok? && (r.value.1.NoMatchingCommand? || r.value.1.Incomplete?) ==> r.value.0 == Register(m, self)
    ensures r.Ok? && r.value.1.NoMatchingCommand? <==>
      forall i :: 0 <= i < |self.commands| ==> self.commands[i].data.guid != SelectedCommandGuid(m)
    ensures r.Ok? && !r.value.1.NoMatchingCommand? && !r.value.1.Incomplete? ==>
      r.value.0 == EndAction(Register(m, self))
    ensures r.Ok? && !r.value.1.NoMatchingCommand? ==>
      var c := self.commands[FirstIndex(self.commands, DataGuidIs(SelectedCommandGuid(m)))];
      (r.value.1.Incomplete? <==> IsDone(Register(m, self), c) == Ok(false))
  {
    var m1 := Register(m, self);
    assert SelectedCommandGuid(m1) == SelectedCommandGuid(m);
    match Find(self.commands, DataGuidIs(SelectedCommandGuid(m1)))
    case None => Ok((m1, NoMatchingCommand))
    case Some(command) =>
      assert command in self.commands;
      var done :- IsDone(m1, command);
      if !done then Ok((m1, Incomplete))
      else ExecuteAction(vars, m1, command, hasPosition, isLeft)
  }
}
