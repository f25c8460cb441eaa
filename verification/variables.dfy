/** The scriptable variables of the command system (`Variable<T>`,
    `BoolVariable`, `IntVariable`).

    A variable asset holds a value set up in the inspector and the value the
    scripts work with. Assets are shared objects: conditions and dialogue
    nodes refer to them, so the model keeps the scene's variables in a
    `Vars` store and refers to one by index (`None` is a null reference). */
module Variables {
  import opened Wrappers

  datatype Variable<T> = Variable(defaultValue: T, runtimeValue: T)

  /** Variable.SetValue: only the run-time value changes. */
  function SetValue<T>(v: Variable<T>, value: T): (r: Variable<T>)
    ensures r.runtimeValue == value
    ensures r.defaultValue == v.defaultValue
  {
    v.(runtimeValue := value)
  }

  /** Variable.ResetValue: the run-time value goes back to the default; a
      variable that already holds its default is left as it is. */
  function ResetValue<T>(v: Variable<T>): (r: Variable<T>)
    ensures r.runtimeValue == r.defaultValue == v.defaultValue
    ensures v.runtimeValue == v.defaultValue ==> r == v
  {
    SetValue(v, v.defaultValue)
  }

  /** Variable.OnEnable: enabling the asset resets it. */
  function OnEnable<T>(v: Variable<T>): (r: Variable<T>)
    ensures r == ResetValue(v)
    ensures r.runtimeValue == v.defaultValue
  {
    ResetValue(v)
  }

  /** Resetting twice is resetting once. */
  lemma ResetIdempotent<T>(v: Variable<T>)
    ensures ResetValue(ResetValue(v)) == ResetValue(v)
  {
  }

  // ----- BoolVariable -----

  function SetTrue(v: Variable<bool>): (r: Variable<bool>)
    ensures r.runtimeValue
    ensures r.defaultValue == v.defaultValue
  {
    v.(runtimeValue := true)
  }

  function SetFalse(v: Variable<bool>): (r: Variable<bool>)
    ensures !r.runtimeValue
    ensures r.defaultValue == v.defaultValue
  {
    v.(runtimeValue := false)
  }

  function FlipValue(v: Variable<bool>): (r: Variable<bool>)
    ensures r.runtimeValue != v.runtimeValue
    ensures r.defaultValue == v.defaultValue
  {
    v.(runtimeValue := !v.runtimeValue)
  }

  /** Two flips restore the variable. */
  lemma FlipTwice(v: Variable<bool>)
    ensures FlipValue(FlipValue(v)) == v
  {
  }

  // ----- IntVariable: C# `int` arithmetic is unchecked 32-bit -----

  const Int32Min: int := -0x8000_0000
  const Int32Max: int := 0x7FFF_FFFF
  const Int32Span: int := 0x1_0000_0000

  predicate IsInt32(x: int) {
    Int32Min <= x <= Int32Max
  }

  type Int32 = x: int | IsInt32(x)

  /** x and y agree modulo 2^32. */
  predicate Congruent(x: int, y: int) {
    (x - y) % Int32Span == 0
  }

  /** The int32 that a 32-bit two's complement register holds after an
      operation whose exact result is x. */
  function Wrap(x: int): (r: Int32)
    ensures Congruent(r, x)
    ensures IsInt32(x) ==> r == x
  {
    var d := x - Int32Min;
    assert d == d / Int32Span * Int32Span + d % Int32Span;
    d % Int32Span + Int32Min
  }

  /** Wrap depends only on the residue modulo 2^32: two int32 values that
      agree modulo 2^32 are equal. */
  lemma CongruentInt32Equal(a: Int32, b: Int32)
    requires Congruent(a, b)
    ensures a == b
  {
    assert IsInt32(a) && IsInt32(b);
    var d := a as int - b as int;
    assert -Int32Span < d < Int32Span;
    assert d == d / Int32Span * Int32Span + d % Int32Span;
  }

  /** Congruence modulo 2^32 is transitive. */
  lemma CongruentTrans(x: int, y: int, z: int)
    requires Congruent(x, y) && Congruent(y, z)
    ensures Congruent(x, z)
  {
    var p, q := x - y, y - z;
    assert p == p / Int32Span * Int32Span;
    assert q == q / Int32Span * Int32Span;
    var k := p / Int32Span + q / Int32Span;
    assert x - z == k * Int32Span;
    assert (k * Int32Span) / Int32Span == k;
  }

  /** Congruence is preserved when the same amount is added to both sides. */
  lemma CongruentShift(x: int, y: int, c: int)
    requires Congruent(x, y)
    ensures Congruent(x + c, y + c)
  {
    assert (x + c) - (y + c) == x - y;
  }

  /** IntVariable.Add: `RuntimeValue += value`. */
  function Add(v: Variable<Int32>, value: Int32): (r: Variable<Int32>)
    ensures Congruent(r.runtimeValue, v.runtimeValue + value)
    ensures IsInt32(v.runtimeValue + value) ==> r.runtimeValue == v.runtimeValue + value
    ensures r.defaultValue == v.defaultValue
  {
    v.(runtimeValue := Wrap(v.runtimeValue + value))
  }

  /** IntVariable.Subtract: `RuntimeValue -= value`. */
  function Subtract(v: Variable<Int32>, value: Int32): (r: Variable<Int32>)
    ensures Congruent(r.runtimeValue, v.runtimeValue - value)
    ensures IsInt32(v.runtimeValue - value) ==> r.runtimeValue == v.runtimeValue - value
    ensures r.defaultValue == v.defaultValue
  {
    v.(runtimeValue := Wrap(v.runtimeValue - value))
  }

  /** IntVariable.Multiply: `RuntimeValue *= value`. */
  function Multiply(v: Variable<Int32>, value: Int32): (r: Variable<Int32>)
    ensures Congruent(r.runtimeValue, v.runtimeValue * value)
    ensures IsInt32(v.runtimeValue * value) ==> r.runtimeValue == v.runtimeValue * value
    ensures r.defaultValue == v.defaultValue
  {
    v.(runtimeValue := Wrap(v.runtimeValue * value))
  }

  /** IntVariable.Increment: `RuntimeValue++`; Int32Max wraps to Int32Min. */
  function Increment(v: Variable<Int32>): (r: Variable<Int32>)
    ensures v.runtimeValue < Int32Max ==> r.runtimeValue == v.runtimeValue + 1
    ensures v.runtimeValue == Int32Max ==> r.runtimeValue == Int32Min
    ensures r.defaultValue == v.defaultValue
  {
    Add(v, 1)
  }

  /** IntVariable.Decrement: `RuntimeValue--`; Int32Min wraps to Int32Max. */
  function Decrement(v: Variable<Int32>): (r: Variable<Int32>)
    ensures v.runtimeValue > Int32Min ==> r.runtimeValue == v.runtimeValue - 1
    ensures v.runtimeValue == Int32Min ==> r.runtimeValue == Int32Max
    ensures r.defaultValue == v.defaultValue
  {
    Subtract(v, 1)
  }

  /** Subtract undoes Add, overflow included. */
  lemma {:induction false} AddThenSubtract(v: Variable<Int32>, value: Int32)
    ensures Subtract(Add(v, value), value) == v
  {
    var a := Add(v, value).runtimeValue;
    var b := Subtract(Add(v, value), value).runtimeValue;
    CongruentShift(a, v.runtimeValue + value, -(value as int));
    assert Congruent(b, a - value);
    CongruentTrans(b, a - value, v.runtimeValue);
    CongruentInt32Equal(b, v.runtimeValue);
  }

  /** Add undoes Subtract, overflow included. */
  lemma {:induction false} SubtractThenAdd(v: Variable<Int32>, value: Int32)
    ensures Add(Subtract(v, value), value) == v
  {
    var a := Subtract(v, value).runtimeValue;
    var b := Add(Subtract(v, value), value).runtimeValue;
    CongruentShift(a, v.runtimeValue - value, value);
    assert Congruent(b, a + value);
    CongruentTrans(b, a + value, v.runtimeValue);
    CongruentInt32Equal(b, v.runtimeValue);
  }

  /** Decrement undoes Increment, Int32Max included. */
  lemma IncrementThenDecrement(v: Variable<Int32>)
    ensures Decrement(Increment(v)) == v
  {
    AddThenSubtract(v, 1);
  }

  /** Increment undoes Decrement, Int32Min included. */
  lemma DecrementThenIncrement(v: Variable<Int32>)
    ensures Increment(Decrement(v)) == v
  {
    SubtractThenAdd(v, 1);
  }

  // ----- The scene's variable assets -----

  /** Every Bool, Int, Float and String variable asset of the scene; the
      float assets hold reals (IEEE rounding is not modelled). */
  datatype Vars = Vars(
    bools: seq<Variable<bool>>,
    ints: seq<Variable<Int32>>,
    floats: seq<Variable<real>>,
    strings: seq<Variable<string>>)

  /** A variable reference: an index into one of the store's lists, or null. */
  type VarRef = Option<nat>
}
