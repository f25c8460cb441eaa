/** `DisplaySentence.cs`: the sentence under the mouse ("Use key with
    door"), built from the selected command, its sentence structure, the
    objects clicked so far and the object under the cursor. A slot the
    sentence does not reach is a null string, which `string.Join` prints as
    the empty string. */
module Sentences {
  import opened Wrappers
  import opened Lists
  import opened Inventories
  import opened Commands
  import opened Interactables

  /** `n` unfilled slots. */
  function Nones(n: nat): (r: seq<Option<string>>)
    ensures |r| == n && forall i :: 0 <= i < n ==> r[i] == None
  {
    if n == 0 then [] else [None] + Nones(n - 1)
  }

  /** The slots for the rule positions, as the loop of CreateSentence fills
      them: `i1` objects and `i2` connectors have been used. A connector
      slot with no connector left, or an object slot with no object left,
      shows the object under the cursor, if any, and ends the sentence. A
      clicked pair whose item is null throws on `.Name`. */
  function Fill(rule: seq<SentenceRole>, connectors: seq<string>, sequence: seq<ItemInteractablePair>,
                temp: Option<ItemInteractablePair>, i1: nat, i2: nat): (r: Result<seq<Option<string>>>)
    ensures r.Ok? ==> |r.value| == |rule|
    decreases |rule|
  {
    if |rule| == 0 then Ok([])
    else if rule[0] == Connector && |connectors| > i2 then
      var rest :- Fill(rule[1..], connectors, sequence, temp, i1, i2 + 1);
      Ok([Some(connectors[i2])] + rest)
    else if rule[0] == Object && |sequence| > i1 then
      match sequence[i1].item
      case None => Err(NullReference)
      case Some(it) =>
        var rest :- Fill(rule[1..], connectors, sequence, temp, i1 + 1, i2);
        Ok([Some(it.name)] + rest)
    else if temp.Some? && temp.value.item.Some? then
      Ok([Some(temp.value.item.value.name)] + Nones(|rule| - 1))
    else Ok(Nones(|rule|))
  }

  /** Prefix the slots already filled to a result. */
  function Prepend(prefix: seq<Option<string>>, r: Result<seq<Option<string>>>): Result<seq<Option<string>>> {
    match r
    case Ok(s) => Ok(prefix + s)
    case Err(f) => Err(f)
  }

  /** Prefixing twice is prefixing once with both. */
  lemma PrependTwice(a: seq<Option<string>>, b: seq<Option<string>>, r: Result<seq<Option<string>>>)
    ensures Prepend(a, Prepend(b, r)) == Prepend(a + b, r)
  {
    if r.Ok? {
      assert a + (b + r.value) == (a + b) + r.value;
    }
  }

  lemma PrependNothing(r: Result<seq<Option<string>>>)
    ensures Prepend([], r) == r
  {
    if r.Ok? {
      assert [] + r.value == r.value;
    }
  }

  /** The sentence: the selected command's name, then the rule's slots. */
  function Sentence(m: CommandManager, s: SentenceStructure): (r: Result<seq<Option<string>>>)
    ensures r.Ok? ==> |r.value| == |s.rule| + 1 && r.value[0] == Some(SelectedCommand(m))
    ensures r.Err? ==> r.fault == NullReference
  {
    FillFaults(s.rule, s.connectors, m.actionSequence, m.actionTemp, 0, 0);
    Prepend([Some(SelectedCommand(m))], Fill(s.rule, s.connectors, m.actionSequence, m.actionTemp, 0, 0))
  }

  lemma {:induction false} FillFaults(rule: seq<SentenceRole>, connectors: seq<string>, sequence: seq<ItemInteractablePair>,
                                      temp: Option<ItemInteractablePair>, i1: nat, i2: nat)
    ensures Fill(rule, connectors, sequence, temp, i1, i2).Err? ==>
      Fill(rule, connectors, sequence, temp, i1, i2).fault == NullReference
    decreases |rule|
  {
    if |rule| > 0 {
      if rule[0] == Connector && |connectors| > i2 {
        FillFaults(rule[1..], connectors, sequence, temp, i1, i2 + 1);
      } else if rule[0] == Object && |sequence| > i1 && sequence[i1].item.Some? {
        FillFaults(rule[1..], connectors, sequence, temp, i1 + 1, i2);
      }
    }
  }

  /** No filled slot follows an empty one. */
  predicate EmptyTail(parts: seq<Option<string>>) {
    forall i, j :: 0 <= i <= j < |parts| && parts[i].None? ==> parts[j].None?
  }

  /** Once a slot is left empty, every later slot is empty too: the loop
      breaks and never resumes. */
  lemma {:induction false} FillEmptyTail(rule: seq<SentenceRole>, connectors: seq<string>, sequence: seq<ItemInteractablePair>,
                                         temp: Option<ItemInteractablePair>, i1: nat, i2: nat)
    ensures Fill(rule, connectors, sequence, temp, i1, i2).Ok? ==>
      EmptyTail(Fill(rule, connectors, sequence, temp, i1, i2).value)
    decreases |rule|
  {
    if |rule| > 0 {
      if rule[0] == Connector && |connectors| > i2 {
        FillEmptyTail(rule[1..], connectors, sequence, temp, i1, i2 + 1);
        var r := Fill(rule, connectors, sequence, temp, i1, i2);
        if r.Ok? {
          var rest := Fill(rule[1..], connectors, sequence, temp, i1, i2 + 1);
          assert r.value == [Some(connectors[i2])] + rest.value;
          forall i, j | 0 <= i <= j < |rule| && r.value[i].None?
            ensures r.value[j].None?
          {
            assert r.value[0].Some?;
            assert 0 < i;
            assert r.value[i] == rest.value[i - 1] && r.value[j] == rest.value[j - 1];
            assert rest.Ok? && EmptyTail(rest.value);
            assert rest.value[i - 1].None?;
          }
        }
      } else if rule[0] == Object && |sequence| > i1 && sequence[i1].item.Some? {
        FillEmptyTail(rule[1..], connectors, sequence, temp, i1 + 1, i2);
        var r := Fill(rule, connectors, sequence, temp, i1, i2);
        if r.Ok? {
          var rest := Fill(rule[1..], connectors, sequence, temp, i1 + 1, i2);
          assert r.value == [Some(sequence[i1].item.value.name)] + rest.value;
          forall i, j | 0 <= i <= j < |rule| && r.value[i].None?
            ensures r.value[j].None?
          {
            assert r.value[0].Some?;
            assert 0 < i;
            assert r.value[i] == rest.value[i - 1] && r.value[j] == rest.value[j - 1];
            assert rest.Ok? && EmptyTail(rest.value);
            assert rest.value[i - 1].None?;
          }
        }
      }
    }
  }

  /** CreateSentence, the loop over the rule with its two counters and its
      breaks. */
  method CreateSentence(m: CommandManager, s: SentenceStructure) returns (r: Result<seq<Option<string>>>)
    ensures r == Sentence(m, s)
    ensures r.Ok? ==> |r.value| == |s.rule| + 1 && r.value[0] == Some(SelectedCommand(m))
    ensures r.Ok? ==> forall i, j :: 1 <= i <= j < |r.value| && r.value[i].None? ==> r.value[j].None?
  {
    FillEmptyTail(s.rule, s.connectors, m.actionSequence, m.actionTemp, 0, 0);
    var parts: seq<Option<string>> := [];
    var idx1: nat := 0;
    var idx2: nat := 0;
    var k := 0;
    assert s.rule[0..] == s.rule;
    PrependNothing(Fill(s.rule, s.connectors, m.actionSequence, m.actionTemp, 0, 0));
    while k < |s.rule|
      invariant 0 <= k <= |s.rule| && |parts| == k
      invariant Fill(s.rule, s.connectors, m.actionSequence, m.actionTemp, 0, 0)
        == Prepend(parts, Fill(s.rule[k..], s.connectors, m.actionSequence, m.actionTemp, idx1, idx2))
    {
      var rest := s.rule[k..];
      assert rest[0] == s.rule[k] && rest[1..] == s.rule[k + 1..];
      var full := Fill(s.rule, s.connectors, m.actionSequence, m.actionTemp, 0, 0);
      if s.rule[k] == Connector && |s.connectors| > idx2 {
        var x := Some(s.connectors[idx2]);
        PrependTwice(parts, [x], Fill(s.rule[k + 1..], s.connectors, m.actionSequence, m.actionTemp, idx1, idx2 + 1));
        parts := parts + [x];
        idx2 := idx2 + 1;
      } else if s.rule[k] == Object && |m.actionSequence| > idx1 {
        match m.actionSequence[idx1].item {
          case None =>
            return Err(NullReference);
          case Some(it) =>
            PrependTwice(parts, [Some(it.name)], Fill(s.rule[k + 1..], s.connectors, m.actionSequence, m.actionTemp, idx1 + 1, idx2));
            parts := parts + [Some(it.name)];
            idx1 := idx1 + 1;
        }
      } else if m.actionTemp.Some? && m.actionTemp.value.item.Some? {
        var tail := [Some(m.actionTemp.value.item.value.name)] + Nones(|s.rule| - k - 1);
        assert full == Ok(parts + tail);
        parts := parts + tail;
        r := Ok([Some(SelectedCommand(m))] + parts);
        return;
      } else {
        assert full == Ok(parts + Nones(|s.rule| - k));
        parts := parts + Nones(|s.rule| - k);
        r := Ok([Some(SelectedCommand(m))] + parts);
        return;
      }
      k := k + 1;
    }
    assert s.rule[k..] == [];
    assert Fill(s.rule, s.connectors, m.actionSequence, m.actionTemp, 0, 0) == Ok(parts + []);
    assert parts + [] == parts;
    r := Ok([Some(SelectedCommand(m))] + parts);
  }

  // ----- a complete sentence -----

  /** Clicked objects carry items. */
  predicate ItemsPresent(sequence: seq<ItemInteractablePair>) {
    forall i :: 0 <= i < |sequence| ==> sequence[i].item.Some?
  }

  /** The slot the rule's position j shows when enough objects and
      connectors exist: the next unused object or connector, counted from
      the start of the rule. */
  function Expected(rule: seq<SentenceRole>, connectors: seq<string>, sequence: seq<ItemInteractablePair>,
                    i1: nat, i2: nat, j: nat): Option<string>
    requires j < |rule| && ItemsPresent(sequence)
    requires i1 + CountRole(rule, Object) <= |sequence| && i2 + CountRole(rule, Connector) <= |connectors|
  {
    CountPrefix(rule, j);
    if rule[j] == Object then Some(sequence[i1 + CountRole(rule[..j], Object)].item.value.name)
    else Some(connectors[i2 + CountRole(rule[..j], Connector)])
  }

  /** A prefix up to and including position j counts no more than the rule. */
  lemma {:induction false} CountPrefix(rule: seq<SentenceRole>, j: nat)
    requires j < |rule|
    ensures CountRole(rule[..j], rule[j]) < CountRole(rule, rule[j])
    ensures forall role :: CountRole(rule[..j], role) <= CountRole(rule, role)
    decreases j
  {
    if j > 0 {
      CountPrefix(rule[1..], j - 1);
      assert rule[..j][1..] == rule[1..][..j - 1];
      assert rule[1..][j - 1] == rule[j];
    }
  }

  lemma CountShift(rule: seq<SentenceRole>, j: nat, role: SentenceRole)
    requires 0 < j <= |rule|
    ensures CountRole(rule[..j], role) == (if rule[0] == role then 1 else 0) + CountRole(rule[1..][..j - 1], role)
  {
    assert rule[..j][1..] == rule[1..][..j - 1];
  }

  /** When the objects and connectors suffice for the whole rule, every slot
      is filled: object slots with the clicked items in click order,
      connector slots with the connectors in order. */
  lemma {:induction false} FillComplete(rule: seq<SentenceRole>, connectors: seq<string>, sequence: seq<ItemInteractablePair>,
                                        temp: Option<ItemInteractablePair>, i1: nat, i2: nat)
    requires ItemsPresent(sequence)
    requires i1 + CountRole(rule, Object) <= |sequence| && i2 + CountRole(rule, Connector) <= |connectors|
    ensures Fill(rule, connectors, sequence, temp, i1, i2).Ok?
    ensures forall j :: 0 <= j < |rule| ==>
      Fill(rule, connectors, sequence, temp, i1, i2).value[j] == Expected(rule, connectors, sequence, i1, i2, j)
    decreases |rule|
  {
    if |rule| > 0 {
      var n1 := if rule[0] == Object then i1 + 1 else i1;
      var n2 := if rule[0] == Connector then i2 + 1 else i2;
      FillComplete(rule[1..], connectors, sequence, temp, n1, n2);
      var r := Fill(rule, connectors, sequence, temp, i1, i2);
      var rest := Fill(rule[1..], connectors, sequence, temp, n1, n2);
      assert r.value == [r.value[0]] + rest.value;
      forall j | 0 <= j < |rule|
        ensures r.value[j] == Expected(rule, connectors, sequence, i1, i2, j)
      {
        if j > 0 {
          CountShift(rule, j, Object);
          CountShift(rule, j, Connector);
          assert rule[1..][j - 1] == rule[j];
          assert r.value[j] == rest.value[j - 1];
        }
      }
    }
  }

  /** A sentence whose structure IsDone accepts, with every connector
      present and no null item, shows every slot. */
  lemma DoneSentenceComplete(m: CommandManager, s: SentenceStructure)
    requires ItemsPresent(m.actionSequence)
    requires CountRole(s.rule, Object) == |m.actionSequence| && CountRole(s.rule, Connector) <= |s.connectors|
    ensures Sentence(m, s).Ok?
    ensures forall i :: 0 <= i < |Sentence(m, s).value| ==> Sentence(m, s).value[i].Some?
  {
    FillComplete(s.rule, s.connectors, m.actionSequence, m.actionTemp, 0, 0);
  }

  // ----- GetSentence -----

  /** The text of a slot: `string.Join` prints null as nothing. */
  function Text(part: Option<string>): string {
    match part
    case Some(t) => t
    case None => ""
  }

  /** The total length of the slots' texts. */
  function Width(parts: seq<Option<string>>): nat {
    if |parts| == 0 then 0 else |Text(parts[0])| + Width(parts[1..])
  }

  /** `string.Join(" ", parts)`. */
  function Join(parts: seq<Option<string>>): (r: string)
    ensures |parts| == 0 ==> r == ""
    ensures |parts| > 0 ==> |r| == Width(parts) + |parts| - 1
    ensures |parts| > 0 ==> r[..|Text(parts[0])|] == Text(parts[0])
  {
    if |parts| == 0 then ""
    else if |parts| == 1 then Text(parts[0])
    else Text(parts[0]) + " " + Join(parts[1..])
  }

  /** GetSentence: nothing when no command is selected or the command has
      no structure; the index of the command must lie within the structure
      list. */
  function GetSentence(m: CommandManager): (r: Result<string>)
    ensures (forall i :: 0 <= i < |m.commands| ==> m.commands[i].guid != SelectedCommandGuid(m)) ==> r == Ok("")
    ensures var k := GuidIndex(m.commands, SelectedCommandGuid(m));
      0 <= k ==>
        (k >= |m.sentenceStructure| ==> r == Err(IndexOutOfRange))
        && (k < |m.sentenceStructure| && m.sentenceStructure[k].None? ==> r == Ok(""))
        && (k < |m.sentenceStructure| && m.sentenceStructure[k].Some? ==>
              r.Err? == Sentence(m, m.sentenceStructure[k].value).Err?
              && (r.Ok? ==> r.value == Join(Sentence(m, m.sentenceStructure[k].value).value)))
  {
    match FindByGuid(m, SelectedCommandGuid(m))
    case None => Ok("")
    case Some(c) =>
      IndexOfFind(m.commands, GuidIs(SelectedCommandGuid(m)));
      var k := IndexOf(m.commands, Some(c));
      if k < 0 || k >= |m.sentenceStructure| then Err(IndexOutOfRange)
      else match m.sentenceStructure[k]
        case None => Ok("")
        case Some(s) =>
          var parts :- Sentence(m, s);
          Ok(Join(parts))
  }

  /** The sentence shown always starts with the selected command's name. */
  lemma SentenceStartsWithCommand(m: CommandManager)
    requires GetSentence(m).Ok? && GetSentence(m) != Ok("")
    ensures GetSentence(m).value[..|SelectedCommand(m)|] == SelectedCommand(m)
  {
  }
}
