/** The grid layout shared by `DisplayCommands.GetPosition` and
    `DisplayInventory.GetPosition`: slot `index` goes to column
    `index % columnCount` and row `index / columnCount`, with C# integer
    division (truncating toward zero) on 32-bit ints. */
module Layout {
  import opened Wrappers
  import opened Variables

  datatype Vec = Vec(x: real, y: real)

  function Abs(a: int): (r: int)
    ensures 0 <= r && (r == a || r == -a)
  {
    if a < 0 then -a else a
  }

  /** C# `a / b`: the quotient truncated toward zero. */
  function TruncDiv(a: int, b: int): (q: int)
    requires b != 0
    ensures 0 <= a && 0 < b ==> q == a / b
    ensures (a < 0) == (b < 0) ==> q == Abs(a) / Abs(b)
    ensures (a < 0) != (b < 0) ==> q == -(Abs(a) / Abs(b))
  {
    var m := Abs(a) / Abs(b);
    if (a < 0) == (b < 0) then m else -m
  }

  /** C# `a % b`: the remainder takes the sign of the dividend. */
  function TruncMod(a: int, b: int): (r: int)
    requires b != 0
    ensures 0 <= a ==> 0 <= r < Abs(b)
    ensures a < 0 ==> -Abs(b) < r <= 0
    ensures 0 <= a && 0 < b ==> r == a % b
    ensures a == TruncDiv(a, b) * b + r
  {
    if a < 0 then -(Abs(a) % Abs(b)) else a % Abs(b)
  }

  /** GetPosition: the origin when there are no columns; otherwise the slot
      at its column and row. `int.MinValue % -1` throws. */
  function GridPosition(startX: real, startY: real, width: real, height: real, columnCount: Int32, index: Int32): (r: Result<Vec>)
    ensures r.Err? <==> columnCount == -1 && index == Int32Min
    ensures r.Err? ==> r.fault == Overflow
    ensures columnCount == 0 ==> r == Ok(Vec(0.0, 0.0))
  {
    if columnCount == 0 then Ok(Vec(0.0, 0.0))
    else if columnCount == -1 && index == Int32Min then Err(Overflow)
    else
      Ok(Vec(startX + width * TruncMod(index, columnCount) as real,
             startY - height * TruncDiv(index, columnCount) as real))
  }

  /** The first row: slot i < columnCount lies i widths to the right of
      (StartX, StartY). */
  lemma GridFirstRow(startX: real, startY: real, width: real, height: real, columnCount: Int32, index: Int32)
    requires 0 <= index < columnCount
    ensures GridPosition(startX, startY, width, height, columnCount, index)
      == Ok(Vec(startX + width * index as real, startY))
  {
    var col, row := TruncMod(index, columnCount), TruncDiv(index, columnCount);
    var g := GridPosition(startX, startY, width, height, columnCount, index);
    assert g.Ok? && g.value == Vec(startX + width * col as real, startY - height * row as real);
    DivModUnique(index, columnCount, 0, index);
    assert row == 0 && col == index;
    assert row as real == 0.0 && col as real == index as real;
    assert height * row as real == 0.0;
    assert g.value.y == startY;
    assert g.value.x == startX + width * index as real;
  }

  /** Euclidean division of n by d is (q, r) whenever n == q * d + r and
      0 <= r < d. */
  lemma DivModUnique(n: int, d: int, q: int, r: int)
    requires 0 < d && 0 <= r < d && n == q * d + r
    ensures n / d == q && n % d == r
  {
    var q', r' := n / d, n % d;
    assert n == q' * d + r';
    MulDistributes(q, q', d);
    assert (q - q') * d == r' - r;
    if q > q' {
      MulAtLeast(q - q', d);
    } else if q < q' {
      MulDistributes(q', q, d);
      MulAtLeast(q' - q, d);
    }
  }

  lemma MulDistributes(a: int, b: int, d: int)
    ensures (a - b) * d == a * d - b * d
  {
  }

  /** k copies of a positive d add up to at least d. */
  lemma {:induction false} MulAtLeast(k: int, d: int)
    requires 1 <= k && 0 < d
    ensures k * d >= d
    decreases k
  {
    if k > 1 {
      MulAtLeast(k - 1, d);
      assert k * d == (k - 1) * d + d;
    }
  }

  /** For a non-negative index and a positive column count, the slot one
      row further on (index + columnCount) lies in the same column, exactly
      one Height lower. */
  lemma GridNextRow(startX: real, startY: real, width: real, height: real, columnCount: Int32, index: Int32)
    requires 0 < columnCount && 0 <= index && IsInt32(index + columnCount)
    ensures GridPosition(startX, startY, width, height, columnCount, index + columnCount).Ok?
    ensures GridPosition(startX, startY, width, height, columnCount, index).Ok?
    ensures GridPosition(startX, startY, width, height, columnCount, index + columnCount).value
      == GridPosition(startX, startY, width, height, columnCount, index).value.(
           y := GridPosition(startX, startY, width, height, columnCount, index).value.y - height)
  {
    var q, r := index / columnCount, index % columnCount;
    assert index == q * columnCount + r;
    assert index + columnCount == (q + 1) * columnCount + r;
    DivModUnique(index + columnCount, columnCount, q + 1, r);
    assert TruncDiv(index + columnCount, columnCount) == q + 1;
    assert TruncMod(index + columnCount, columnCount) == r;
    assert height * (q + 1) as real == height * q as real + height;
  }
}
