/** `DialogueGraphData.cs` and `DialogueController.cs`: the saved dialogue
    graph and the controller that walks it. `CheckNodeType` calls itself
    through the node runners until it reaches a node that waits for the
    player (a dialogue node), stops (an end node) or is never run (a choice
    node); the model splits this into one transition `Step` and a loop
    `RunFrom` bounded by fuel, since a cyclic graph never stops.

    UI effects become fields of the session: whether the dialogue UI is
    shown, how often the start and end events fired, and the dialogue events
    raised, in order. Condition and event lists are assumed non-null. */
module Dialogues {
  import opened Wrappers
  import opened Lists
  import opened Variables
  import opened Conditions

  /** A `DialogueEvent` asset, by an abstract id. */
  type DialogueEventId = nat

  /** The EndNodeType enum, with room for a value outside its names. */
  datatype EndNodeType = End | Repeat | ReturnToStart | UndefinedEnd(code: int)

  datatype ContinueType = ButtonContinue | WaitContinue

  datatype ChoiceType = Hide | GrayOutNotInteractable | GrayOutInteractable

  datatype Port = Port(portGuid: string, inputGuid: string, outputGuid: string)

  datatype TextBox = TextBox(characterId: Option<nat>, dialogueText: string)

  /** The subclass a node belongs to, with its own fields. */
  datatype NodeKind =
    | StartNode
    | DialogueNode(ports: seq<Port>, continueType: ContinueType, textBoxes: seq<TextBox>)
    | ChoiceNode(dialogueText: string, choiceType: ChoiceType)
    | EventNode(events: seq<Option<DialogueEventId>>)
    | BranchNode(trueGuidNode: string, falseGuidNode: string)
    | EndNode(endNodeType: EndNodeType)

  /** BaseNodeData: the Guid, the ID, the optional Visited flag and the four
      condition lists, plus the subclass fields. */
  datatype Node = Node(
    nodeGuid: string,
    id: string,
    visited: VarRef,
    boolConditions: seq<Condition>,
    intConditions: seq<Condition>,
    floatConditions: seq<Condition>,
    stringConditions: seq<Condition>,
    kind: NodeKind)

  datatype EdgeData = EdgeData(targetNodeGuid: string, targetPortName: string, baseNodeGuid: string, basePortName: string)

  datatype DialogueGraph = DialogueGraph(
    edgeDatas: seq<EdgeData>,
    startNodeDatas: seq<Node>,
    dialogueNodeDatas: seq<Node>,
    choiceNodeDatas: seq<Node>,
    eventNodeDatas: seq<Node>,
    branchNodeDatas: seq<Node>,
    endNodeDatas: seq<Node>)

  /** BaseNodeDatas: start, dialogue, choice, event, branch and end nodes,
      each list in its own order, in that order. */
  function BaseNodeDatas(g: DialogueGraph): (r: seq<Node>)
    ensures |r| == |g.startNodeDatas| + |g.dialogueNodeDatas| + |g.choiceNodeDatas|
                 + |g.eventNodeDatas| + |g.branchNodeDatas| + |g.endNodeDatas|
    ensures var a := |g.startNodeDatas|;
      var b := a + |g.dialogueNodeDatas|;
      var c := b + |g.choiceNodeDatas|;
      var d := c + |g.eventNodeDatas|;
      var e := d + |g.branchNodeDatas|;
      && r[..a] == g.startNodeDatas
      && r[a..b] == g.dialogueNodeDatas
      && r[b..c] == g.choiceNodeDatas
      && r[c..d] == g.eventNodeDatas
      && r[d..e] == g.branchNodeDatas
      && r[e..] == g.endNodeDatas
  {
    g.startNodeDatas + g.dialogueNodeDatas + g.choiceNodeDatas + g.eventNodeDatas + g.branchNodeDatas + g.endNodeDatas
  }

  /** The first start node is the first of all nodes. */
  lemma FirstStartFirst(g: DialogueGraph)
    requires |g.startNodeDatas| > 0
    ensures BaseNodeDatas(g)[0] == g.startNodeDatas[0]
  {
  }

  function NodeGuidIs(guid: string): Node -> bool {
    (n: Node) => n.nodeGuid == guid
  }

  function EdgeFrom(guid: string): EdgeData -> bool {
    (e: EdgeData) => e.baseNodeGuid == guid
  }

  /** GetNodeByGuid: the first node, in BaseNodeDatas order, with that Guid,
      or null. */
  function GetNodeByGuid(g: DialogueGraph, guid: string): (r: Option<Node>)
    ensures r.Some? <==> exists i :: 0 <= i < |BaseNodeDatas(g)| && BaseNodeDatas(g)[i].nodeGuid == guid
    ensures r.Some? ==> r.value == BaseNodeDatas(g)[FirstIndex(BaseNodeDatas(g), NodeGuidIs(guid))]
    ensures r.Some? ==> r.value.nodeGuid == guid && r.value in BaseNodeDatas(g)
  {
    Find(BaseNodeDatas(g), NodeGuidIs(guid))
  }

  /** GetNextNode: the target of the first edge leaving the node. A null
      node, or a node without an outgoing edge, throws. */
  function GetNextNode(g: DialogueGraph, node: Option<Node>): (r: Result<Option<Node>>)
    ensures node.None? ==> r == Err(NullReference)
    ensures node.Some? ==>
      (r.Err? <==> forall i :: 0 <= i < |g.edgeDatas| ==> g.edgeDatas[i].baseNodeGuid != node.value.nodeGuid)
    ensures r.Err? ==> r.fault == NullReference
    ensures r.Ok? ==> r.value == GetNodeByGuid(g,
      g.edgeDatas[FirstIndex(g.edgeDatas, EdgeFrom(node.value.nodeGuid))].targetNodeGuid)
  {
    match node
    case None => Err(NullReference)
    case Some(n) =>
      match Find(g.edgeDatas, EdgeFrom(n.nodeGuid))
      case None => Err(NullReference)
      case Some(edge) => Ok(GetNodeByGuid(g, edge.targetNodeGuid))
  }

  // ----- well-formed references -----

  /** The four condition lists, in the order the controller joins them. */
  function AllConditions(n: Node): (cs: seq<Condition>)
    ensures |cs| == |n.boolConditions| + |n.intConditions| + |n.floatConditions| + |n.stringConditions|
  {
    n.boolConditions + n.intConditions + n.floatConditions + n.stringConditions
  }

  /** The node's Visited flag and condition variables exist in the store. */
  predicate NodeOk(vars: Vars, n: Node) {
    (n.visited.Some? ==> n.visited.value < |vars.bools|) && AllRefsOk(vars, AllConditions(n))
  }

  predicate GraphOk(vars: Vars, g: DialogueGraph) {
    forall n :: n in BaseNodeDatas(g) ==> NodeOk(vars, n)
  }

  /** Two stores with the same lists sizes. */
  predicate SameShape(a: Vars, b: Vars) {
    |a.bools| == |b.bools| && |a.ints| == |b.ints| && |a.floats| == |b.floats| && |a.strings| == |b.strings|
  }

  lemma GraphOkShape(a: Vars, b: Vars, g: DialogueGraph)
    requires GraphOk(a, g) && SameShape(a, b)
    ensures GraphOk(b, g)
  {
    forall n | n in BaseNodeDatas(g)
      ensures NodeOk(b, n)
    {
      assert NodeOk(a, n);
      var cs := AllConditions(n);
      assert forall i :: 0 <= i < |cs| ==> CondRefOk(a, cs[i]) ==> CondRefOk(b, cs[i]);
    }
  }

  // ----- CheckConditions -----

  /** CheckConditions of a choice node: every condition, in list order,
      holds; true when there are none. */
  function CheckConditions(vars: Vars, n: Node): (r: Result<bool>)
    requires NodeOk(vars, n)
    ensures r == Ok(true) <==> forall i :: 0 <= i < |AllConditions(n)| ==> Check(vars, AllConditions(n)[i]) == Ok(true)
    ensures |AllConditions(n)| == 0 ==> r == Ok(true)
    ensures r.Err? ==> r.fault == NullReference
  {
    AllHold(vars, AllConditions(n))
  }

  // ----- the controller -----

  /** The controller's state: the variable store, the last dialogue node
      shown, and the UI effects so far. */
  datatype Session = Session(
    vars: Vars,
    current: Option<Node>,
    uiShown: bool,
    startEvents: nat,
    endEvents: nat,
    raised: seq<DialogueEventId>)

  /** What CheckNodeType does after running a node: run another node (which
      may be null), or return. */
  datatype Next = Goto(node: Option<Node>) | Halt

  /** SetVisited: set the Visited flag when the node has one. */
  function SetVisited(vars: Vars, n: Node): (r: Vars)
    requires NodeOk(vars, n)
    ensures SameShape(r, vars)
    ensures n.visited.Some? ==> r.bools[n.visited.value].runtimeValue
    ensures forall k :: 0 <= k < |vars.bools| && n.visited != Some(k) ==> r.bools[k] == vars.bools[k]
    ensures r.ints == vars.ints && r.floats == vars.floats && r.strings == vars.strings
  {
    match n.visited
    case None => vars
    case Some(k) => vars.(bools := vars.bools[k := SetTrue(vars.bools[k])])
  }

  /** The events of an event node that are set, in order: the loop of
      RunNode(EventNodeData) raises each of them once. */
  function Present(events: seq<Option<DialogueEventId>>): (r: seq<DialogueEventId>)
    ensures |r| <= |events|
    ensures forall i :: 0 <= i < |events| && events[i].Some? ==> events[i].value in r
    ensures |events| == 1 ==> r == (if events[0].Some? then [events[0].value] else [])
    ensures (forall i :: 0 <= i < |events| ==> events[i].Some?) ==>
      |r| == |events| && forall i :: 0 <= i < |r| ==> r[i] == events[i].value
  {
    if |events| == 0 then []
    else
      assert forall i :: 1 <= i < |events| ==> events[i] == events[1..][i - 1];
      (if events[0].Some? then [events[0].value] else []) + Present(events[1..])
  }

  /** Raising the events of a list is raising those of its first part and
      then those of the rest: each set event is raised once, in list order. */
  lemma {:induction false} PresentAppend(a: seq<Option<DialogueEventId>>, b: seq<Option<DialogueEventId>>)
    ensures Present(a + b) == Present(a) + Present(b)
    decreases |a|
  {
    if |a| == 0 {
      assert a + b == b;
    } else {
      assert (a + b)[0] == a[0] && (a + b)[1..] == a[1..] + b;
      PresentAppend(a[1..], b);
    }
  }

  /** The nodes after which CheckNodeType returns: a dialogue node waits for
      the player, a choice node is never run on its own, and an End node (or
      an end type outside the enum) stops the dialogue. */
  predicate Halts(n: Node) {
    n.kind.DialogueNode? || n.kind.ChoiceNode?
    || (n.kind.EndNode? && (n.kind.endNodeType.End? || n.kind.endNodeType.UndefinedEnd?))
  }

  /** The next node of a Start or Event node. */
  function Continue(g: DialogueGraph, st: Session, n: Node): Result<(Session, Next)> {
    var next :- GetNextNode(g, Some(n));
    Ok((st, Goto(next)))
  }

  /** RunNode for an end node. */
  function RunEnd(g: DialogueGraph, st: Session, t: EndNodeType): (r: Result<(Session, Next)>)
    ensures r.Ok? ==> r.value.0.vars == st.vars && r.value.0.raised == st.raised
    ensures t == End ==> r == Ok((st.(uiShown := false, endEvents := st.endEvents + 1), Halt))
    ensures t == Repeat ==> (r.Err? <==> st.current.None?) && (r.Ok? ==> r.value.0 == st && r.value.1.Goto?)
    ensures t == ReturnToStart ==> (r.Err? <==> |g.startNodeDatas| == 0 || GetNextNode(g, Some(g.startNodeDatas[0])).Err?)
    ensures t == ReturnToStart && r.Ok? ==> r.value.0 == st && r.value.1 == Goto(GetNextNode(g, Some(g.startNodeDatas[0])).value)
    ensures t.UndefinedEnd? ==> r == Ok((st, Halt))
  {
    match t
    case End => Ok((st.(uiShown := false, endEvents := st.endEvents + 1), Halt))
    case Repeat =>
      if st.current.None? then Err(NullReference)
      else Ok((st, Goto(GetNodeByGuid(g, st.current.value.nodeGuid))))
    case ReturnToStart =>
      if |g.startNodeDatas| == 0 then Err(IndexOutOfRange)
      else
        var next :- GetNextNode(g, Some(g.startNodeDatas[0]));
        Ok((st, Goto(next)))
    case UndefinedEnd(_) => Ok((st, Halt))
  }

  /** One CheckNodeType: mark the node visited, then run it by its kind. */
  function Step(g: DialogueGraph, st: Session, node: Option<Node>): (r: Result<(Session, Next)>)
    requires node.Some? ==> NodeOk(st.vars, node.value)
    ensures node.None? ==> r == Err(NullReference)
    ensures r.Ok? ==> SameShape(r.value.0.vars, st.vars)
    ensures r.Ok? && node.Some? ==> r.value.0.vars == SetVisited(st.vars, node.value)
    ensures r.Ok? && r.value.1.Goto? && r.value.1.node.Some? ==> r.value.1.node.value in BaseNodeDatas(g)
    ensures r.Ok? && node.Some? ==> (r.value.1.Halt? <==> Halts(node.value))
    ensures node.Some? && node.value.kind.DialogueNode? ==>
      r == Ok((st.(vars := SetVisited(st.vars, node.value), current := node), Halt))
    ensures r.Ok? && node.Some? && (node.value.kind.StartNode? || node.value.kind.ChoiceNode? || node.value.kind.BranchNode?) ==>
      r.value.0 == st.(vars := SetVisited(st.vars, node.value))
    ensures r.Ok? && node.Some? && node.value.kind.EventNode? ==>
      r.value.0 == st.(vars := SetVisited(st.vars, node.value), raised := st.raised + Present(node.value.kind.events))
    ensures r.Ok? && node.Some? && node.value.kind.EndNode? ==>
      if node.value.kind.endNodeType == End
      then r.value.0 == st.(vars := SetVisited(st.vars, node.value), uiShown := false, endEvents := st.endEvents + 1)
      else r.value.0 == st.(vars := SetVisited(st.vars, node.value))
  {
    match node
    case None => Err(NullReference)
    case Some(n) =>
      var marked := st.(vars := SetVisited(st.vars, n));
      match n.kind
      case StartNode => Continue(g, marked, n)
      case DialogueNode(_, _, _) => Ok((marked.(current := Some(n)), Halt))
      case ChoiceNode(_, _) => Ok((marked, Halt))
      case EventNode(events) => Continue(g, marked.(raised := marked.raised + Present(events)), n)
      case BranchNode(trueGuid, falseGuid) =>
        var check :- AllHold(marked.vars, AllConditions(n));
        Ok((marked, Goto(GetNodeByGuid(g, if check then trueGuid else falseGuid))))
      case EndNode(t) => RunEnd(g, marked, t)
  }

  /** A choice node is only marked visited; nothing runs. */
  lemma ChoiceOnlyMarked(g: DialogueGraph, st: Session, n: Node)
    requires NodeOk(st.vars, n) && n.kind.ChoiceNode?
    ensures Step(g, st, Some(n)) == Ok((st.(vars := SetVisited(st.vars, n)), Halt))
  {
  }

  /** Start and event nodes always go on to their next node. */
  lemma StartAndEventContinue(g: DialogueGraph, st: Session, n: Node)
    requires NodeOk(st.vars, n) && (n.kind.StartNode? || n.kind.EventNode?)
    ensures Step(g, st, Some(n)).Ok? <==> GetNextNode(g, Some(n)).Ok?
    ensures Step(g, st, Some(n)).Ok? ==> Step(g, st, Some(n)).value.1 == Goto(GetNextNode(g, Some(n)).value)
    ensures n.kind.EventNode? && Step(g, st, Some(n)).Ok? ==>
      Step(g, st, Some(n)).value.0.raised == st.raised + Present(n.kind.events)
  {
  }

  /** A branch goes to its true node exactly when all its conditions hold
      (checked after the node's own Visited flag is set), else to its false
      node; a null condition variable throws. */
  lemma BranchChoosesByConditions(g: DialogueGraph, st: Session, n: Node)
    requires NodeOk(st.vars, n) && n.kind.BranchNode?
    ensures var marked := SetVisited(st.vars, n);
      var check := AllHold(marked, AllConditions(n));
      && (Step(g, st, Some(n)).Err? <==> check.Err?)
      && (check == Ok(true) ==> Step(g, st, Some(n)).value.1 == Goto(GetNodeByGuid(g, n.kind.trueGuidNode)))
      && (check == Ok(false) ==> Step(g, st, Some(n)).value.1 == Goto(GetNodeByGuid(g, n.kind.falseGuidNode)))
  {
    var marked := SetVisited(st.vars, n);
    assert AllRefsOk(marked, AllConditions(n)) by {
      var cs := AllConditions(n);
      assert forall i :: 0 <= i < |cs| ==> CondRefOk(st.vars, cs[i]) ==> CondRefOk(marked, cs[i]);
    }
  }

  /** End hides the UI and fires the end event; Repeat re-enters the last
      dialogue node by its Guid; ReturnToStart runs the successor of the
      first start node. */
  lemma EndBehaviour(g: DialogueGraph, st: Session, n: Node)
    requires NodeOk(st.vars, n) && n.kind.EndNode?
    ensures n.kind.endNodeType == End ==>
      Step(g, st, Some(n)).Ok? && Step(g, st, Some(n)).value.1 == Halt
      && !Step(g, st, Some(n)).value.0.uiShown && Step(g, st, Some(n)).value.0.endEvents == st.endEvents + 1
    ensures n.kind.endNodeType == Repeat && st.current.Some? ==>
      Step(g, st, Some(n)) == Ok((st.(vars := SetVisited(st.vars, n)), Goto(GetNodeByGuid(g, st.current.value.nodeGuid))))
    ensures n.kind.endNodeType == ReturnToStart && |g.startNodeDatas| > 0 ==>
      (Step(g, st, Some(n)).Ok? <==> GetNextNode(g, Some(g.startNodeDatas[0])).Ok?)
      && (Step(g, st, Some(n)).Ok? ==> Step(g, st, Some(n)).value.1 == Goto(GetNextNode(g, Some(g.startNodeDatas[0])).value))
    ensures n.kind.endNodeType == ReturnToStart && |g.startNodeDatas| == 0 ==> Step(g, st, Some(n)) == Err(IndexOutOfRange)
  {
  }

  /** CheckNodeType followed through its recursive calls, at most fuel of
      them. */
  function RunFrom(g: DialogueGraph, st: Session, node: Option<Node>, fuel: nat): (r: Result<Session>)
    requires GraphOk(st.vars, g) && (node.Some? ==> node.value in BaseNodeDatas(g))
    ensures r.Ok? ==> SameShape(r.value.vars, st.vars)
    ensures fuel == 0 ==> r == Err(OutOfFuel)
    decreases fuel
  {
    if fuel == 0 then Err(OutOfFuel)
    else
      var (st', next) :- Step(g, st, node);
      GraphOkShape(st.vars, st'.vars, g);
      match next
      case Halt => Ok(st')
      case Goto(n) => RunFrom(g, st', n, fuel - 1)
  }

  /** The last turn of a run: the session and node of the step that
      halted it. A run that succeeds ended at a node where CheckNodeType
      returns, and that node's step produced the run's final session. */
  function LastTurn(g: DialogueGraph, st: Session, node: Option<Node>, fuel: nat): (r: Option<(Session, Node)>)
    requires GraphOk(st.vars, g) && (node.Some? ==> node.value in BaseNodeDatas(g))
    ensures RunFrom(g, st, node, fuel).Ok? <==> r.Some?
    ensures r.Some? ==> r.value.1 in BaseNodeDatas(g) && Halts(r.value.1) && NodeOk(r.value.0.vars, r.value.1)
    ensures r.Some? ==> Step(g, r.value.0, Some(r.value.1)) == Ok((RunFrom(g, st, node, fuel).value, Halt))
    ensures r.Some? && r.value.1.kind.DialogueNode? ==> RunFrom(g, st, node, fuel).value.current == Some(r.value.1)
    decreases fuel
  {
    if fuel == 0 then None
    else
      match Step(g, st, node)
      case Err(_) => None
      case Ok((st', next)) =>
        GraphOkShape(st.vars, st'.vars, g);
        match next
        case Halt => Some((st, node.value))
        case Goto(n) => LastTurn(g, st', n, fuel - 1)
  }

  /** One turn of RunFrom: a step that goes on to another node continues
      from there with one unit of fuel less. */
  lemma RunFromGoto(g: DialogueGraph, st: Session, node: Option<Node>, fuel: nat)
    requires GraphOk(st.vars, g) && (node.Some? ==> node.value in BaseNodeDatas(g)) && 0 < fuel
    requires Step(g, st, node).Ok? && Step(g, st, node).value.1.Goto?
    ensures GraphOk(Step(g, st, node).value.0.vars, g)
    ensures RunFrom(g, st, node, fuel)
      == RunFrom(g, Step(g, st, node).value.0, Step(g, st, node).value.1.node, fuel - 1)
  {
    GraphOkShape(st.vars, Step(g, st, node).value.0.vars, g);
  }

  /** A start node whose edge leads back to itself runs forever: every
      fuel bound runs out. */
  lemma {:induction false} SelfLoopNeverStops(g: DialogueGraph, st: Session, n: Node, fuel: nat)
    requires GraphOk(st.vars, g) && n in BaseNodeDatas(g) && n.kind.StartNode?
    requires GetNextNode(g, Some(n)) == Ok(Some(n))
    ensures RunFrom(g, st, Some(n), fuel) == Err(OutOfFuel)
    decreases fuel
  {
    if fuel > 0 {
      var st' := SelfLoopTurn(g, st, n, fuel);
      SelfLoopNeverStops(g, st', n, fuel - 1);
    }
  }

  /** One turn around the self-loop: the node runs again from the session
      its first run left. */
  lemma SelfLoopTurn(g: DialogueGraph, st: Session, n: Node, fuel: nat) returns (st': Session)
    requires GraphOk(st.vars, g) && n in BaseNodeDatas(g) && n.kind.StartNode?
    requires GetNextNode(g, Some(n)) == Ok(Some(n)) && 0 < fuel
    ensures GraphOk(st'.vars, g)
    ensures RunFrom(g, st, Some(n), fuel) == RunFrom(g, st', Some(n), fuel - 1)
  {
    StartAndEventContinue(g, st, n);
    st' := Step(g, st, Some(n)).value.0;
    assert Step(g, st, Some(n)).value.1.node == Some(n);
    RunFromGoto(g, st, Some(n), fuel);
  }

  /** StartDialogue: fire the start event and show the UI; with no start
      node, stop there; otherwise run the first start node. */
  function StartDialogue(g: DialogueGraph, st: Session, fuel: nat): (r: Result<Session>)
    requires GraphOk(st.vars, g)
    ensures |g.startNodeDatas| == 0 ==> r == Ok(st.(startEvents := st.startEvents + 1, uiShown := true))
    ensures |g.startNodeDatas| > 0 ==>
      r == RunFrom(g, st.(startEvents := st.startEvents + 1, uiShown := true), Some(g.startNodeDatas[0]), fuel)
  {
    var shown := st.(startEvents := st.startEvents + 1, uiShown := true);
    if |g.startNodeDatas| == 0 then Ok(shown)
    else
      FirstStartFirst(g);
      RunFrom(g, shown, Some(g.startNodeDatas[0]), fuel)
  }

  /** Continuing a dialogue node (the continue button, or the end of the
      wait): run the next node of the last dialogue node shown. */
  function Advance(g: DialogueGraph, st: Session, fuel: nat): (r: Result<Session>)
    requires GraphOk(st.vars, g)
    ensures st.current.None? ==> r == Err(NullReference)
    ensures GetNextNode(g, st.current).Err? ==> r == Err(NullReference)
    ensures GetNextNode(g, st.current).Ok? ==> r == RunFrom(g, st, GetNextNode(g, st.current).value, fuel)
  {
    var next :- GetNextNode(g, st.current);
    RunFrom(g, st, next, fuel)
  }
}
