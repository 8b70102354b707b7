/** The order of the rows of an interlaced image (Appendix E of GIF89a). */
module GifInterlace {

  /** Every step-th row from a first one on. */
  function Pass(first: nat, step: nat, height: nat): seq<nat>
    requires step > 0
    decreases height + step - first
  {
    if first >= height then [] else [first] + Pass(first + step, step, height)
  }

  /** The rows in the order in which they are stored: four passes. */
  function Stored(height: nat): seq<nat> {
    Pass(0, 8, height) + Pass(4, 8, height) + Pass(2, 4, height) + Pass(1, 2, height)
  }

  /** The row that a stored line belongs to. */
  function DecodeLineNumber(line: nat, height: nat): int {
    if 1 < height && (height + 1) / 2 <= line then 2 * (line - (height + 1) / 2) + 1
    else if 2 < height && (height + 3) / 4 <= line then 4 * (line - (height + 3) / 4) + 2
    else if 4 < height && (height + 7) / 8 <= line then 8 * (line - (height + 7) / 8) + 4
    else line * 8
  }

  // ----- The length and the elements of a pass.

  /** The number of rows among first, first + step, ... that are below height; for the four passes. */
  function Rows(first: nat, step: nat, height: nat): (n: nat)
    requires step == 2 || step == 4 || step == 8
  {
    if first >= height then 0
    else if step == 2 then (height - first + 1) / 2
    else if step == 4 then (height - first + 3) / 4
    else (height - first + 7) / 8
  }

  lemma {:induction false} PassLength(first: nat, step: nat, height: nat)
    requires step == 2 || step == 4 || step == 8
    ensures |Pass(first, step, height)| == Rows(first, step, height)
    decreases height + step - first
  {
    if first < height {
      PassLength(first + step, step, height);
    }
  }

  lemma {:induction false} PassAt(first: nat, step: nat, height: nat, k: nat)
    requires step == 2 || step == 4 || step == 8
    requires k < |Pass(first, step, height)|
    ensures Pass(first, step, height)[k] == first + step * k
    decreases height + step - first
  {
    if first < height && k > 0 {
      PassAt(first + step, step, height, k - 1);
    }
  }

  lemma StoredLength(height: nat)
    ensures |Pass(0, 8, height)| == Rows(0, 8, height)
    ensures |Pass(0, 8, height) + Pass(4, 8, height)| == Rows(0, 4, height)
    ensures |Pass(0, 8, height) + Pass(4, 8, height) + Pass(2, 4, height)| == Rows(0, 2, height)
    ensures |Stored(height)| == height
  {
    PassLength(0, 8, height);
    PassLength(4, 8, height);
    PassLength(2, 4, height);
    PassLength(1, 2, height);
  }

  /** The formula of the reader gives the order of the four passes. */
  lemma DecodeIsStored(height: nat, line: nat)
    requires line < height
    ensures line < |Stored(height)| && Stored(height)[line] == DecodeLineNumber(line, height)
  {
    StoredLength(height);
    var (a, b, c, d) := (Pass(0, 8, height), Pass(4, 8, height), Pass(2, 4, height), Pass(1, 2, height));
    if line < |a| {
      PassAt(0, 8, height, line);
    } else if line < |a + b| {
      PassAt(4, 8, height, line - |a|);
    } else if line < |a + b + c| {
      PassAt(2, 4, height, line - |a + b|);
    } else {
      PassAt(1, 2, height, line - |a + b + c|);
    }
  }

  // ----- Every row once.

  /** The stored line of a row. */
  function LineOf(row: nat, height: nat): (line: nat) {
    if row % 2 == 1 then (height + 1) / 2 + row / 2
    else if row % 4 == 2 then (height + 3) / 4 + row / 4
    else if row % 8 == 4 then (height + 7) / 8 + row / 8
    else row / 8
  }

  /** The lines of a pass come before those of the next one. */
  lemma LineBelow(q: nat, height: nat, half: nat, quarter: nat, eighth: nat)
    requires height <= 2 * half <= height + 1 && height <= 4 * quarter <= height + 3
    requires height <= 8 * eighth <= height + 7
    ensures 4 * q + 2 < height ==> quarter + q < half
    ensures 8 * q + 4 < height ==> eighth + q < quarter
    ensures 8 * q < height ==> q < eighth
  {
  }

  lemma OddStored(q: nat, height: nat)
    requires 2 * q + 1 < height
    ensures (height + 1) / 2 + q < height && DecodeLineNumber((height + 1) / 2 + q, height) == 2 * q + 1
  {
  }

  lemma HalfStored(q: nat, height: nat)
    requires 4 * q + 2 < height
    ensures (height + 3) / 4 + q < height && DecodeLineNumber((height + 3) / 4 + q, height) == 4 * q + 2
  {
    LineBelow(q, height, (height + 1) / 2, (height + 3) / 4, (height + 7) / 8);
  }

  lemma QuarterStored(q: nat, height: nat)
    requires 8 * q + 4 < height
    ensures (height + 7) / 8 + q < height && DecodeLineNumber((height + 7) / 8 + q, height) == 8 * q + 4
  {
    LineBelow(q, height, (height + 1) / 2, (height + 3) / 4, (height + 7) / 8);
  }

  lemma EighthStored(q: nat, height: nat)
    requires 8 * q < height
    ensures q < height && DecodeLineNumber(q, height) == 8 * q
  {
    LineBelow(q, height, (height + 1) / 2, (height + 3) / 4, (height + 7) / 8);
  }

  lemma EvenRow(row: nat)
    requires row % 2 == 0
    ensures row == 4 * (row / 4) || row == 4 * (row / 4) + 2
  {
    var q := row / 4;
    if row % 4 == 1 {
      Twos(2 * q, 1);
    } else if row % 4 == 3 {
      Twos(2 * q + 1, 1);
    }
  }

  lemma FourthRow(row: nat)
    requires row == 4 * (row / 4)
    ensures row == 8 * (row / 8) || row == 8 * (row / 8) + 4
  {
    var q := row / 4;
    Twos(q / 2, q % 2);
    Eights(q / 2, 4 * (q % 2));
  }

  /** Every row of the image has exactly one stored line. */
  lemma RowStoredOnce(row: nat, height: nat)
    requires row < height
    ensures LineOf(row, height) < height && DecodeLineNumber(LineOf(row, height), height) == row
  {
    if row % 2 == 1 {
      OddStored(row / 2, height);
    } else if row % 4 == 2 {
      HalfStored(row / 4, height);
    } else {
      EvenRow(row);
      FourthRow(row);
      if row % 8 == 4 {
        QuarterStored(row / 8, height);
      } else {
        EighthStored(row / 8, height);
      }
    }
  }

  lemma LineInside(line: nat, height: nat)
    requires line < height
    ensures 0 <= DecodeLineNumber(line, height) < height
  {
    var (half, quarter, eighth) := ((height + 1) / 2, (height + 3) / 4, (height + 7) / 8);
    Inside(line, height, half, quarter, eighth);
  }

  lemma Inside(line: nat, height: nat, half: nat, quarter: nat, eighth: nat)
    requires line < height
    requires height <= 2 * half <= height + 1 && height <= 4 * quarter <= height + 3
    requires height <= 8 * eighth <= height + 7
    ensures half <= line ==> 2 * (line - half) + 1 < height
    ensures quarter <= line < half ==> 4 * (line - quarter) + 2 < height
    ensures eighth <= line < quarter ==> 8 * (line - eighth) + 4 < height
    ensures line < eighth ==> 8 * line < height
  {
  }

  /** And every stored line has exactly one row. */
  lemma LineStoredOnce(line: nat, height: nat)
    requires line < height
    ensures 0 <= DecodeLineNumber(line, height) < height
    ensures LineOf(DecodeLineNumber(line, height), height) == line
  {
    LineInside(line, height);
    if 1 < height && (height + 1) / 2 <= line {
      OddRow(line - (height + 1) / 2);
    } else if 2 < height && (height + 3) / 4 <= line {
      HalfRow(line - (height + 3) / 4);
    } else if 4 < height && (height + 7) / 8 <= line {
      QuarterRow(line - (height + 7) / 8);
    } else {
      EighthRow(line);
    }
  }

  lemma Twos(q: nat, r: nat)
    requires r < 2
    ensures (2 * q + r) % 2 == r && (2 * q + r) / 2 == q
  {
  }

  lemma Fours(q: nat, r: nat)
    requires r < 4
    ensures (4 * q + r) % 4 == r && (4 * q + r) / 4 == q
  {
  }

  lemma Eights(q: nat, r: nat)
    requires r < 8
    ensures (8 * q + r) % 8 == r && (8 * q + r) / 8 == q
  {
  }

  lemma OddRow(q: nat)
    ensures (2 * q + 1) % 2 == 1 && (2 * q + 1) / 2 == q
  {
    Twos(q, 1);
  }

  lemma HalfRow(q: nat)
    ensures (4 * q + 2) % 2 == 0 && (4 * q + 2) % 4 == 2 && (4 * q + 2) / 4 == q
  {
    Twos(2 * q + 1, 0);
    Fours(q, 2);
  }

  lemma QuarterRow(q: nat)
    ensures (8 * q + 4) % 2 == 0 && (8 * q + 4) % 4 == 0 && (8 * q + 4) % 8 == 4 && (8 * q + 4) / 8 == q
  {
    Twos(4 * q + 2, 0);
    Fours(2 * q + 1, 0);
    Eights(q, 4);
  }

  lemma EighthRow(q: nat)
    ensures (8 * q) % 2 == 0 && (8 * q) % 4 == 0 && (8 * q) % 8 == 0 && (8 * q) / 8 == q
  {
    Twos(4 * q, 0);
    Fours(2 * q, 0);
    Eights(q, 0);
  }
}
