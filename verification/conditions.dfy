/** `Condition.cs`: the checks that commands and dialogue branches run
    against the scene's variables.

    A condition refers to its variable asset; a null reference makes `Check`
    throw, which the model returns as `Err(NullReference)`. */
module Conditions {
  import opened Wrappers
  import opened Variables

  /** The Comparison enum. A serialized enum field can hold any integer;
      `Undefined(code)` stands for a value outside the six names. */
  datatype Comparison =
    | Equal
    | NotEqual
    | Greater
    | Less
    | GreaterOrEqual
    | LessOrEqual
    | Undefined(code: int)

  datatype Condition =
    | BoolCondition(variable: VarRef, expectedBool: bool)
    | IntCondition(variable: VarRef, expectedInt: Int32, comparison: Comparison)
    | FloatCondition(variable: VarRef, expectedReal: real, comparison: Comparison)
    | StringCondition(variable: VarRef, expectedString: string)

  // ----- Reference semantics of a comparison: the signs it accepts -----

  function Sign(d: int): (s: int)
    ensures s == -1 <==> d < 0
    ensures s == 0 <==> d == 0
    ensures s == 1 <==> d > 0
  {
    if d < 0 then -1 else if d == 0 then 0 else 1
  }

  function RealSign(d: real): (s: int)
    ensures s == -1 <==> d < 0.0
    ensures s == 0 <==> d == 0.0
    ensures s == 1 <==> d > 0.0
  {
    if d < 0.0 then -1 else if d == 0.0 then 0 else 1
  }

  /** The signs of (value - expected) for which a comparison holds. */
  function Accepts(c: Comparison): set<int> {
    match c
    case Equal => {0}
    case NotEqual => {-1, 1}
    case Greater => {1}
    case Less => {-1}
    case GreaterOrEqual => {0, 1}
    case LessOrEqual => {-1, 0}
    case Undefined(_) => {}
  }

  /** The switch of IntCondition.Check; any other enum value gives false. */
  function CompareInt(c: Comparison, value: int, expected: int): (b: bool)
    ensures b <==> Sign(value - expected) in Accepts(c)
  {
    match c
    case Equal => value == expected
    case NotEqual => value != expected
    case Greater => value > expected
    case Less => value < expected
    case GreaterOrEqual => value >= expected
    case LessOrEqual => value <= expected
    case Undefined(_) => false
  }

  /** The switch of FloatCondition.Check, over reals. */
  function CompareReal(c: Comparison, value: real, expected: real): (b: bool)
    ensures b <==> RealSign(value - expected) in Accepts(c)
  {
    match c
    case Equal => value == expected
    case NotEqual => value != expected
    case Greater => value > expected
    case Less => value < expected
    case GreaterOrEqual => value >= expected
    case LessOrEqual => value <= expected
    case Undefined(_) => false
  }

  /** The complementary comparison of each of the six named ones. */
  function Negate(c: Comparison): (n: Comparison)
    requires !c.Undefined?
    ensures !n.Undefined? && n != c
    ensures Accepts(n) == {-1, 0, 1} - Accepts(c)
  {
    match c
    case Equal => NotEqual
    case NotEqual => Equal
    case Greater => LessOrEqual
    case LessOrEqual => Greater
    case Less => GreaterOrEqual
    case GreaterOrEqual => Less
  }

  /** NotEqual = not Equal, Greater = not LessOrEqual, Less = not
      GreaterOrEqual (and the other way round). */
  lemma ComplementaryComparisons(c: Comparison, value: int, expected: int, x: real, e: real)
    requires !c.Undefined?
    ensures Negate(Negate(c)) == c
    ensures CompareInt(Negate(c), value, expected) == !CompareInt(c, value, expected)
    ensures CompareReal(Negate(c), x, e) == !CompareReal(c, x, e)
  {
  }

  // ----- Condition.Check -----

  /** Every non-null reference of c names an asset of the matching list. */
  predicate CondRefOk(vars: Vars, c: Condition) {
    c.variable.None? ||
    match c
    case BoolCondition(v, _) => v.value < |vars.bools|
    case IntCondition(v, _, _) => v.value < |vars.ints|
    case FloatCondition(v, _, _) => v.value < |vars.floats|
    case StringCondition(v, _) => v.value < |vars.strings|
  }

  predicate AllRefsOk(vars: Vars, cs: seq<Condition>) {
    forall i :: 0 <= i < |cs| ==> CondRefOk(vars, cs[i])
  }

  /** Condition.Check: throws on a null variable, otherwise compares the
      variable's run-time value with the expected value. */
  function Check(vars: Vars, c: Condition): (r: Result<bool>)
    requires CondRefOk(vars, c)
    ensures r.Err? <==> c.variable.None?
    ensures r.Err? ==> r.fault == NullReference
    ensures r.Ok? && c.BoolCondition? ==>
      (r.value <==> vars.bools[c.variable.value].runtimeValue == c.expectedBool)
    ensures r.Ok? && c.IntCondition? ==>
      (r.value <==> Sign(vars.ints[c.variable.value].runtimeValue - c.expectedInt) in Accepts(c.comparison))
    ensures r.Ok? && c.FloatCondition? ==>
      (r.value <==> RealSign(vars.floats[c.variable.value].runtimeValue - c.expectedReal) in Accepts(c.comparison))
    ensures r.Ok? && c.StringCondition? ==>
      (r.value <==> vars.strings[c.variable.value].runtimeValue == c.expectedString)
  {
    match c.variable
    case None => Err(NullReference)
    case Some(i) =>
      match c
      case BoolCondition(_, e) => Ok(vars.bools[i].runtimeValue == e)
      case IntCondition(_, e, cmp) => Ok(CompareInt(cmp, vars.ints[i].runtimeValue, e))
      case FloatCondition(_, e, cmp) => Ok(CompareReal(cmp, vars.floats[i].runtimeValue, e))
      case StringCondition(_, e) => Ok(vars.strings[i].runtimeValue == e)
  }

  /** Check reads the run-time values only: two stores that agree on them
      give the same verdict, whatever their default values. */
  lemma CheckReadsRuntimeOnly(vars: Vars, vars': Vars, c: Condition)
    requires CondRefOk(vars, c) && CondRefOk(vars', c)
    requires c.variable.Some? && c.BoolCondition? ==>
      vars.bools[c.variable.value].runtimeValue == vars'.bools[c.variable.value].runtimeValue
    requires c.variable.Some? && c.IntCondition? ==>
      vars.ints[c.variable.value].runtimeValue == vars'.ints[c.variable.value].runtimeValue
    requires c.variable.Some? && c.FloatCondition? ==>
      vars.floats[c.variable.value].runtimeValue == vars'.floats[c.variable.value].runtimeValue
    requires c.variable.Some? && c.StringCondition? ==>
      vars.strings[c.variable.value].runtimeValue == vars'.strings[c.variable.value].runtimeValue
    ensures Check(vars, c) == Check(vars', c)
  {
  }

  /** Conditions checked in order, stopping at the first that fails: the
      loop of a dialogue branch and of a choice's CheckConditions. */
  function AllHold(vars: Vars, cs: seq<Condition>): (r: Result<bool>)
    requires AllRefsOk(vars, cs)
    ensures r == Ok(true) <==> forall i :: 0 <= i < |cs| ==> Check(vars, cs[i]) == Ok(true)
    ensures r.Err? ==> r.fault == NullReference
    decreases |cs|
  {
    if |cs| == 0 then Ok(true)
    else
      var h :- Check(vars, cs[0]);
      if !h then Ok(false)
      else
        assert forall i :: 1 <= i < |cs| ==> cs[i] == cs[1..][i - 1];
        AllHold(vars, cs[1..])
  }

  /** Every condition before index i holds. */
  predicate HoldBefore(vars: Vars, cs: seq<Condition>, i: int)
    requires AllRefsOk(vars, cs) && 0 <= i <= |cs|
  {
    forall j :: 0 <= j < i ==> Check(vars, cs[j]) == Ok(true)
  }

  /** AllHold gives the verdict of the first condition that does not hold:
      false when it is false, the exception when its variable is null; a
      null variable after it is never reached. */
  lemma {:induction false} AllHoldIsFirstFailure(vars: Vars, cs: seq<Condition>, i: int)
    requires AllRefsOk(vars, cs) && 0 <= i < |cs|
    requires Check(vars, cs[i]) != Ok(true) && HoldBefore(vars, cs, i)
    ensures AllHold(vars, cs) == Check(vars, cs[i])
    decreases i
  {
    if i > 0 {
      assert Check(vars, cs[0]) == Ok(true);
      assert cs[1..][i - 1] == cs[i];
      assert HoldBefore(vars, cs[1..], i - 1) by {
        forall j | 0 <= j < i - 1
          ensures Check(vars, cs[1..][j]) == Ok(true)
        {
          assert cs[1..][j] == cs[j + 1];
        }
      }
      AllHoldIsFirstFailure(vars, cs[1..], i - 1);
    }
  }

  /** Conditions all evaluated and and-ed together (`result &= Check()`):
      the loop of Interactable.FindAction. Every condition is checked, so
      any null variable throws. */
  function EveryHolds(vars: Vars, cs: seq<Condition>): (r: Result<bool>)
    requires AllRefsOk(vars, cs)
    ensures r.Err? <==> exists i :: 0 <= i < |cs| && cs[i].variable.None?
    ensures r == Ok(true) <==> forall i :: 0 <= i < |cs| ==> Check(vars, cs[i]) == Ok(true)
    decreases |cs|
  {
    if |cs| == 0 then Ok(true)
    else
      var h :- Check(vars, cs[0]);
      var t :- EveryHolds(vars, cs[1..]);
      assert forall i :: 1 <= i < |cs| ==> cs[i] == cs[1..][i - 1];
      Ok(h && t)
  }

  /** With no null variable, stopping early and and-ing everything give the
      same verdict. */
  lemma {:induction false} ShortCircuitAgrees(vars: Vars, cs: seq<Condition>)
    requires AllRefsOk(vars, cs)
    requires forall i :: 0 <= i < |cs| ==> cs[i].variable.Some?
    ensures AllHold(vars, cs) == EveryHolds(vars, cs)
  {
    if |cs| > 0 {
      assert forall i :: 0 <= i < |cs| - 1 ==> cs[1..][i] == cs[i + 1];
      ShortCircuitAgrees(vars, cs[1..]);
    }
  }
}
