/** `DisplayCommands.cs`: the command buttons of a UI panel. Only the list
    logic is modelled — which manager commands the panel lacks, renaming an
    entry, and the grid position of a button; the buttons themselves are
    scene objects. */
module CommandDisplay {
  import opened Wrappers
  import opened Lists
  import opened Variables
  import opened Layout
  import opened Commands

  /** The panel's layout settings and its own command list. */
  datatype CommandPanel = CommandPanel(
    startX: real, startY: real, width: real, height: real, columnCount: Int32,
    commands: seq<CommandData>)

  /** The test of ReloadUnused: no panel command has this command's Guid. */
  function IsUnused(commands: seq<CommandData>): CommandData -> bool {
    (c: CommandData) => Find(commands, GuidIs(c.guid)).None?
  }

  /** ReloadUnused: the manager commands whose Guid the panel lacks, in
      manager order. */
  function ReloadUnused(commands: seq<CommandData>, managerCommands: seq<CommandData>): (r: seq<CommandData>)
    ensures forall i :: 0 <= i < |r| ==> r[i] in managerCommands
    ensures forall i, j :: 0 <= i < |r| && 0 <= j < |commands| ==> r[i].guid != commands[j].guid
    ensures forall i :: 0 <= i < |managerCommands| ==>
      (managerCommands[i] in r <==> forall j :: 0 <= j < |commands| ==> commands[j].guid != managerCommands[i].guid)
  {
    var r := Filter(managerCommands, IsUnused(commands));
    assert forall i :: 0 <= i < |r| ==> IsUnused(commands)(r[i]);
    r
  }

  /** ReloadUnused walks the manager list once, in order: the unused
      commands of two lists joined are those of each, joined. */
  lemma ReloadUnusedInOrder(commands: seq<CommandData>, m1: seq<CommandData>, m2: seq<CommandData>)
    ensures ReloadUnused(commands, m1 + m2) == ReloadUnused(commands, m1) + ReloadUnused(commands, m2)
  {
    FilterAppend(m1, m2, IsUnused(commands));
  }

  /** The list part of ReloadUIName: entry i takes the given name; an index
      outside the list throws. */
  function ReloadUIName(commands: seq<CommandData>, i: int, command: CommandData): (r: Result<seq<CommandData>>)
    ensures r.Err? <==> !(0 <= i < |commands|)
    ensures r.Err? ==> r.fault == IndexOutOfRange
    ensures r.Ok? ==> |r.value| == |commands| && r.value[i] == CommandData(commands[i].guid, command.name)
    ensures r.Ok? ==> forall j :: 0 <= j < |commands| && j != i ==> r.value[j] == commands[j]
  {
    if 0 <= i < |commands| then Ok(commands[i := commands[i].(name := command.name)])
    else Err(IndexOutOfRange)
  }

  /** Renaming keeps every Guid, so the set of unused commands does not
      change. */
  lemma ReloadUINameKeepsUnused(commands: seq<CommandData>, i: int, command: CommandData, managerCommands: seq<CommandData>)
    requires 0 <= i < |commands|
    ensures ReloadUnused(ReloadUIName(commands, i, command).value, managerCommands) == ReloadUnused(commands, managerCommands)
  {
    var renamed := ReloadUIName(commands, i, command).value;
    forall k | 0 <= k < |managerCommands|
      ensures IsUnused(renamed)(managerCommands[k]) == IsUnused(commands)(managerCommands[k])
    {
      var g := managerCommands[k].guid;
      assert forall j :: 0 <= j < |commands| ==> renamed[j].guid == commands[j].guid;
      assert (exists j :: 0 <= j < |renamed| && GuidIs(g)(renamed[j])) == (exists j :: 0 <= j < |commands| && GuidIs(g)(commands[j]));
    }
    FilterCongruent(managerCommands, IsUnused(renamed), IsUnused(commands));
  }

  /** GetPosition of the panel's buttons. */
  function GetPosition(panel: CommandPanel, index: Int32): (r: Result<Vec>)
    ensures panel.columnCount == 0 ==> r == Ok(Vec(0.0, 0.0))
    ensures r.Err? <==> panel.columnCount == -1 && index == Int32Min
  {
    GridPosition(panel.startX, panel.startY, panel.width, panel.height, panel.columnCount, index)
  }

  /** The first row of buttons runs right from (StartX, StartY) in steps of
      Width, and each later row lies one Height below the one before. */
  lemma GetPositionRows(panel: CommandPanel, index: Int32)
    requires 0 <= index < panel.columnCount
    ensures GetPosition(panel, index) == Ok(Vec(panel.startX + panel.width * index as real, panel.startY))
    ensures IsInt32(index + panel.columnCount) ==>
      GetPosition(panel, index + panel.columnCount) == Ok(Vec(panel.startX + panel.width * index as real, panel.startY - panel.height))
  {
    GridFirstRow(panel.startX, panel.startY, panel.width, panel.height, panel.columnCount, index);
    if IsInt32(index + panel.columnCount) {
      GridNextRow(panel.startX, panel.startY, panel.width, panel.height, panel.columnCount, index);
    }
  }
}
