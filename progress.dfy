/** create_progress_bar: `length` cells, the first int(length * progress / 100)
    of them full and the rest empty, between brackets and followed by the
    percentage as the caller prints it. */
module Progress {
  import opened Text

  const FullCell: char := '\U{2588}'
  const EmptyCell: char := '\U{2591}'

  /** Python's int() on a number: truncation toward zero. */
  function Trunc(x: real): (n: int)
    ensures x >= 0.0 ==> n as real <= x < n as real + 1.0
    ensures x < 0.0 ==> n as real - 1.0 < x <= n as real
  {
    if x >= 0.0 then x.Floor else -((-x).Floor)
  }

  /** The number of full cells, int(length * progress / 100): for a
      percentage between 0 and 100 it lies between 0 and `length` and is
      the whole part of the exact share. */
  function Filled(progress: real, length: int): (f: int)
    ensures 0.0 <= progress <= 100.0 && length >= 0 ==>
      && 0 <= f <= length
      && f as real <= length as real * progress / 100.0 < f as real + 1.0
  {
    var x := length as real * progress / 100.0;
    if 0.0 <= progress <= 100.0 && length >= 0 then
      ShareBounds(progress, length);
      var f := Trunc(x);
      assert f as real <= length as real;
      f
    else Trunc(x)
  }

  /** A percentage between 0 and 100 of `length` lies between 0 and `length`. */
  lemma ShareBounds(progress: real, length: int)
    requires 0.0 <= progress <= 100.0 && length >= 0
    ensures 0.0 <= length as real * progress / 100.0 <= length as real
  {
    assert length as real * progress <= length as real * 100.0;
  }

  /** '█' * filled + '░' * (length - filled). */
  function BarCells(progress: real, length: int): (r: string)
    ensures forall i :: 0 <= i < |r| ==> r[i] == FullCell || r[i] == EmptyCell
  {
    var filled := Filled(progress, length);
    Repeat(FullCell, filled) + Repeat(EmptyCell, length - filled)
  }

  /** The whole bar: the cells in brackets, a space, the percentage text
      `shown` (Python's rendering of the number, which the model does not
      compute) and '%'. */
  function CreateProgressBar(progress: real, length: int, shown: string): (r: string)
    ensures |r| == |BarCells(progress, length)| + |shown| + 4
    ensures r[0] == '[' && r[|BarCells(progress, length)| + 1] == ']' && r[|BarCells(progress, length)| + 2] == ' '
    ensures r[1..|BarCells(progress, length)| + 1] == BarCells(progress, length)
    ensures r[|r| - |shown| - 1..] == shown + "%"
  {
    "[" + BarCells(progress, length) + "] " + shown + "%"
  }

  /** For a percentage between 0 and 100 the bar is exactly `length` cells
      wide: the first floor(length * progress / 100) are full, the rest
      empty. */
  lemma BarShape(progress: real, length: int)
    requires 0.0 <= progress <= 100.0 && length >= 0
    ensures var f := Filled(progress, length);
      && 0 <= f <= length
      && f as real <= length as real * progress / 100.0 < f as real + 1.0
      && |BarCells(progress, length)| == length
      && forall i :: 0 <= i < length ==> (BarCells(progress, length)[i] == FullCell <==> i < f)
  {
    var f := Filled(progress, length);
    var r := BarCells(progress, length);
    assert |r| == length;
    forall i | 0 <= i < length ensures r[i] == FullCell <==> i < f {
      if i < f {
        assert r[i] == Repeat(FullCell, f)[i];
      } else {
        assert r[i] == Repeat(EmptyCell, length - f)[i - f];
      }
    }
  }

  /** A fuller percentage never shows fewer full cells. */
  lemma FilledMonotone(p: real, q: real, length: int)
    requires 0.0 <= p <= q && length >= 0
    ensures Filled(p, length) <= Filled(q, length)
  {
    var x := length as real * p / 100.0;
    var y := length as real * q / 100.0;
    assert length as real * p <= length as real * q;
    assert 0.0 <= x <= y;
    assert Filled(p, length) as real <= x && y < Filled(q, length) as real + 1.0;
  }

  /** 0% is an empty bar and 100% a full one. */
  lemma BarEnds(length: int)
    requires length >= 0
    ensures BarCells(0.0, length) == Repeat(EmptyCell, length)
    ensures BarCells(100.0, length) == Repeat(FullCell, length)
  {
    assert length as real * 100.0 / 100.0 == length as real;
    assert Filled(100.0, length) == length;
    assert Repeat(EmptyCell, 0) == [];
    assert Repeat(FullCell, length) + [] == Repeat(FullCell, length);
  }

  /** Above 100% nothing keeps the bar in its frame: every cell is full and
      there are at least `length` of them. */
  lemma BarOverflow(progress: real, length: int)
    requires progress > 100.0 && length > 0
    ensures |BarCells(progress, length)| == Filled(progress, length) >= length
    ensures forall i :: 0 <= i < |BarCells(progress, length)| ==> BarCells(progress, length)[i] == FullCell
  {
    assert length as real * progress > length as real * 100.0;
    var f := Filled(progress, length);
    assert f >= length;
    assert Repeat(EmptyCell, length - f) == [];
    assert BarCells(progress, length) == Repeat(FullCell, f);
  }
}
