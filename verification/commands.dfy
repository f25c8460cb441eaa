/** `CommandManager.cs`: the verbs of the point-and-click interface ("Look
    at", "Use", ...), which one is selected, and the sequence of objects the
    player has clicked while building a sentence.

    Command lists are assumed free of null entries (`Find` would throw on
    one). `OnCommandEnd` is counted: `commandEnds` is the number of times the
    event has fired. */
module Commands {
  import opened Wrappers
  import opened Lists
  import opened Inventories

  datatype CommandData = CommandData(guid: string, name: string)

  /** The `CommandData(string)` constructor; the Guid that
      `System.Guid.NewGuid` would produce is a parameter. */
  function NewCommandData(freshGuid: string, command: string): (d: CommandData)
    ensures d.guid == freshGuid && d.name == command
  {
    CommandData(freshGuid, command)
  }

  /** The `CommandData(CommandData)` copy constructor. */
  function CopyCommandData(data: CommandData): (d: CommandData)
    ensures d.guid == data.guid && d.name == data.name
  {
    CommandData(data.guid, data.name)
  }

  datatype SentenceRole = Object | Connector

  datatype SentenceStructure = SentenceStructure(rule: seq<SentenceRole>, connectors: seq<string>)

  /** An item clicked together with the interactable (by its instance id)
      that was clicked. */
  datatype ItemInteractablePair = ItemInteractablePair(item: ItemRef, interactable: nat)

  /** A fallback action: its command, whether to walk closer first, and the
      listeners of its UnityEvent (abstract ids). */
  datatype BasicCommandAction = BasicCommandAction(commandData: CommandData, moveCloser: bool, actions: seq<nat>)

  /** `BasicCommandAction(CommandData)`: no movement, a fresh empty event. */
  function NewBasicCommandAction(data: CommandData): (a: BasicCommandAction)
    ensures a.commandData == data && !a.moveCloser && a.actions == []
  {
    BasicCommandAction(data, false, [])
  }

  datatype CommandManager = CommandManager(
    selectedCommand: int,
    defaultCommand: int,
    moveCommand: int,
    actionSequence: seq<ItemInteractablePair>,
    commands: seq<CommandData>,
    setSentenceStructure: bool,
    sentenceStructure: seq<Option<SentenceStructure>>,
    actionTemp: Option<ItemInteractablePair>,
    defaultActions: seq<BasicCommandAction>,
    commandEnds: nat)

  /** The placeholder the properties return for an index outside the list. */
  const NoCommand: string := "None"

  predicate InRange(cs: seq<CommandData>, index: int) {
    0 <= index < |cs|
  }

  /** Name of the command at index, or "None". */
  function NameAt(cs: seq<CommandData>, index: int): (s: string)
    ensures InRange(cs, index) ==> s == cs[index].name
    ensures !InRange(cs, index) ==> s == NoCommand
  {
    if InRange(cs, index) then cs[index].name else NoCommand
  }

  /** Guid of the command at index, or "None". */
  function GuidAt(cs: seq<CommandData>, index: int): (s: string)
    ensures InRange(cs, index) ==> s == cs[index].guid
    ensures !InRange(cs, index) ==> s == NoCommand
  {
    if InRange(cs, index) then cs[index].guid else NoCommand
  }

  function MoveCommand(m: CommandManager): string { NameAt(m.commands, m.moveCommand) }
  function MoveCommandGuid(m: CommandManager): string { GuidAt(m.commands, m.moveCommand) }
  function SelectedCommand(m: CommandManager): string { NameAt(m.commands, m.selectedCommand) }
  function SelectedCommandGuid(m: CommandManager): string { GuidAt(m.commands, m.selectedCommand) }
  function DefaultCommand(m: CommandManager): string { NameAt(m.commands, m.defaultCommand) }
  function DefaultCommandGuid(m: CommandManager): string { GuidAt(m.commands, m.defaultCommand) }

  /** Start: the default command becomes the selected one. */
  function Start(m: CommandManager): (r: CommandManager)
    ensures SelectedCommand(r) == DefaultCommand(m) && SelectedCommandGuid(r) == DefaultCommandGuid(m)
    ensures r.(selectedCommand := m.selectedCommand) == m
  {
    m.(selectedCommand := m.defaultCommand)
  }

  /** The test `c => c.Guid == guid` of the Guid searches. */
  function GuidIs(guid: string): CommandData -> bool {
    (c: CommandData) => c.guid == guid
  }

  function ActionGuidIs(guid: string): BasicCommandAction -> bool {
    (b: BasicCommandAction) => b.commandData.guid == guid
  }

  /** FindByGUID: the first command with that Guid, or null. */
  function FindByGuid(m: CommandManager, guid: string): (r: Option<CommandData>)
    ensures r.Some? <==> exists i :: 0 <= i < |m.commands| && m.commands[i].guid == guid
    ensures r.Some? ==> r.value.guid == guid && r.value in m.commands
  {
    Find(m.commands, GuidIs(guid))
  }

  /** FindByName: the first command with that name, or null. */
  function FindByName(m: CommandManager, name: string): (r: Option<CommandData>)
    ensures r.Some? <==> exists i :: 0 <= i < |m.commands| && m.commands[i].name == name
    ensures r.Some? ==> r.value.name == name && r.value in m.commands
  {
    Find(m.commands, (c: CommandData) => c.name == name)
  }

  /** Index of the first command with that Guid, or -1. */
  function GuidIndex(cs: seq<CommandData>, guid: string): (i: int)
    ensures -1 <= i < |cs|
    ensures 0 <= i ==> cs[i].guid == guid && forall j :: 0 <= j < i ==> cs[j].guid != guid
    ensures i == -1 ==> forall j :: 0 <= j < |cs| ==> cs[j].guid != guid
  {
    FirstIndex(cs, GuidIs(guid))
  }

  /** SelectCommand: `IndexOf(Find(...))`, which selects the first command
      with that Guid, or -1 when there is none. */
  function SelectCommand(m: CommandManager, guid: string): (r: CommandManager)
    ensures r.selectedCommand == GuidIndex(m.commands, guid)
    ensures r.(selectedCommand := m.selectedCommand) == m
  {
    IndexOfFind(m.commands, GuidIs(guid));
    m.(selectedCommand := IndexOf(m.commands, Find(m.commands, GuidIs(guid))))
  }

  /** Selecting a Guid that some command carries makes it the selected Guid. */
  lemma SelectThenSelectedGuid(m: CommandManager, guid: string)
    requires exists i :: 0 <= i < |m.commands| && m.commands[i].guid == guid
    ensures SelectedCommandGuid(SelectCommand(m, guid)) == guid
  {
  }

  /** Guids are unique. */
  predicate UniqueGuids(cs: seq<CommandData>) {
    forall i, j :: 0 <= i < j < |cs| ==> cs[i].guid != cs[j].guid
  }

  /** With unique Guids, selecting the selected command's Guid changes
      nothing. */
  lemma SelectSelectedIsIdentity(m: CommandManager)
    requires UniqueGuids(m.commands) && InRange(m.commands, m.selectedCommand)
    ensures SelectCommand(m, SelectedCommandGuid(m)) == m
  {
  }

  /** AddAction appends one pair and leaves the earlier ones as they were. */
  function AddAction(m: CommandManager, item: ItemRef, interactable: nat): (r: CommandManager)
    ensures |r.actionSequence| == |m.actionSequence| + 1
    ensures r.actionSequence[..|m.actionSequence|] == m.actionSequence
    ensures r.actionSequence[|m.actionSequence|] == ItemInteractablePair(item, interactable)
    ensures r.(actionSequence := m.actionSequence) == m
  {
    m.(actionSequence := m.actionSequence + [ItemInteractablePair(item, interactable)])
  }

  /** EndAction: select the default command by its Guid, clear the sequence
      and the temporary pair, fire OnCommandEnd once. */
  function EndAction(m: CommandManager): (r: CommandManager)
    ensures r.selectedCommand == GuidIndex(m.commands, DefaultCommandGuid(m))
    ensures r.actionSequence == [] && r.actionTemp == None
    ensures r.commandEnds == m.commandEnds + 1
    ensures r.(selectedCommand := m.selectedCommand, actionSequence := m.actionSequence,
               actionTemp := m.actionTemp, commandEnds := m.commandEnds) == m
  {
    var selected := SelectCommand(m, DefaultCommandGuid(m));
    selected.(actionSequence := [], actionTemp := None, commandEnds := m.commandEnds + 1)
  }

  /** After EndAction the selected command is the default one when Guids are
      unique; with no default command, it is whichever command is literally
      called "None" by Guid, and -1 when there is none. */
  lemma EndActionSelectsDefault(m: CommandManager)
    requires UniqueGuids(m.commands)
    ensures InRange(m.commands, m.defaultCommand) ==> EndAction(m).selectedCommand == m.defaultCommand
    ensures !InRange(m.commands, m.defaultCommand) ==> EndAction(m).selectedCommand == GuidIndex(m.commands, NoCommand)
  {
  }

  /** The DefaultActions entry for one command: the first existing entry
      with the same Guid, renamed to the command's name, or a new entry
      holding a copy of the command. */
  function SyncAction(actions: seq<BasicCommandAction>, command: CommandData): (a: BasicCommandAction)
    ensures a.commandData == command
    ensures (exists j :: 0 <= j < |actions| && actions[j].commandData.guid == command.guid) ==>
      var k := FirstIndex(actions, ActionGuidIs(command.guid));
      a == actions[k].(commandData := actions[k].commandData.(name := command.name))
    ensures (forall j :: 0 <= j < |actions| ==> actions[j].commandData.guid != command.guid) ==>
      a == NewBasicCommandAction(command)
  {
    match Find(actions, ActionGuidIs(command.guid))
    case Some(existing) => existing.(commandData := existing.commandData.(name := command.name))
    case None => NewBasicCommandAction(CopyCommandData(command))
  }

  /** UpdateCommands: DefaultActions becomes one entry per command, in
      command order, each carrying exactly that command's Guid and name. */
  function UpdateCommands(m: CommandManager): (r: CommandManager)
    ensures |r.defaultActions| == |m.commands|
    ensures forall i :: 0 <= i < |m.commands| ==> r.defaultActions[i] == SyncAction(m.defaultActions, m.commands[i])
    ensures forall i :: 0 <= i < |m.commands| ==> r.defaultActions[i].commandData == m.commands[i]
    ensures r.(defaultActions := m.defaultActions) == m
  {
    m.(defaultActions := seq(|m.commands|, i requires 0 <= i < |m.commands| => SyncAction(m.defaultActions, m.commands[i])))
  }

  /** A second UpdateCommands changes nothing: every entry is found again
      under its Guid and already carries its name. */
  lemma UpdateCommandsIdempotent(m: CommandManager)
    ensures UpdateCommands(UpdateCommands(m)) == UpdateCommands(m)
  {
    var r := UpdateCommands(m);
    var r' := UpdateCommands(r);
    forall i | 0 <= i < |m.commands|
      ensures r'.defaultActions[i] == r.defaultActions[i]
    {
      var c := m.commands[i];
      var k := FirstIndex(r.defaultActions, ActionGuidIs(c.guid));
      assert r.defaultActions[i].commandData.guid == c.guid;
      assert 0 <= k <= i;
      assert m.commands[k].guid == c.guid;
      SyncActionSameGuid(m.defaultActions, m.commands[k], c);
    }
  }

  /** Two commands with the same Guid reuse the same entry; only the name
      differs. */
  lemma SyncActionSameGuid(actions: seq<BasicCommandAction>, c: CommandData, c': CommandData)
    requires c.guid == c'.guid
    ensures SyncAction(actions, c').commandData == c'
    ensures SyncAction(actions, c') == SyncAction(actions, c).(commandData := c')
  {
  }
}
