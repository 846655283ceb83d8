/** The inline helpers of imgui_te_utils.h: the moving-average ring
    buffer `ImMovingAverage<TYPE>` (over integers) and the cell indexing
    of `ImGuiCSVParser`. */
module TeUtils {
  import opened Arith

  // ---------------------------------------------------------------------
  // Integer helpers
  // ---------------------------------------------------------------------

  /** Sum of a sequence, taken from the back. */
  function Sum(s: seq<int>): int {
    if |s| == 0 then 0 else Sum(s[..|s| - 1]) + s[|s| - 1]
  }

  lemma {:induction false} SumOfZeros(s: seq<int>)
    requires forall i :: 0 <= i < |s| ==> s[i] == 0
    ensures Sum(s) == 0
  {
    if |s| > 0 {
      SumOfZeros(s[..|s| - 1]);
    }
  }

  /** Taking the first element off the front. */
  lemma {:induction false} SumFront(s: seq<int>)
    requires |s| > 0
    ensures Sum(s) == s[0] + Sum(s[1..])
  {
    if |s| > 1 {
      SumFront(s[..|s| - 1]);
      assert s[..|s| - 1][1..] == s[1..][..|s| - 2];
    }
  }

  /** Overwriting one element changes the sum by the difference. */
  lemma {:induction false} SumUpdate(s: seq<int>, i: int, v: int)
    requires 0 <= i < |s|
    ensures Sum(s[i := v]) == Sum(s) - s[i] + v
  {
    var t := s[i := v];
    if i < |s| - 1 {
      SumUpdate(s[..|s| - 1], i, v);
      assert t[..|t| - 1] == s[..|s| - 1][i := v];
    } else {
      assert t[..|t| - 1] == s[..|s| - 1];
    }
  }

  // ---------------------------------------------------------------------
  // ImMovingAverage
  // ---------------------------------------------------------------------

  /** The ring buffer: `samples` is the storage (its length is the
      window), `accum` the running sum, `idx` the next slot to write and
      `fillAmount` how many slots hold real samples. */
  datatype MovingAverage = MovingAverage(samples: seq<int>, accum: int, idx: int, fillAmount: int)
  {
    /** The structure's invariants: the accumulator is the sum of the
        storage, the write index is a slot (0 for an empty buffer), the
        fill count is bounded by the window, and while the window is not
        full the write index is the fill count. */
    predicate Valid() {
      && accum == Sum(samples)
      && 0 <= fillAmount <= |samples|
      && (if |samples| == 0 then idx == 0 else 0 <= idx < |samples|)
      && (fillAmount < |samples| ==> idx == fillAmount)
    }
  }

  /** The default constructor: no storage, everything zero. */
  function NewMovingAverage(): (m: MovingAverage)
    ensures m.Valid() && GetSampleCount(m) == 0 && IsFull(m)
  {
    MovingAverage([], 0, 0, 0)
  }

  /** `count` zeros. */
  function Zeros(count: nat): (r: seq<int>)
    ensures |r| == count && forall i :: 0 <= i < count ==> r[i] == 0
  {
    if count == 0 then [] else Zeros(count - 1) + [0]
  }

  /** Init(count): resizes the storage to `count` zeroed samples and
      resets the accumulator, index and fill count. */
  function Init(count: nat): (m: MovingAverage)
    ensures m.Valid()
    ensures GetSampleCount(m) == count && m.fillAmount == 0 && m.idx == 0 && m.accum == 0
    ensures forall i :: 0 <= i < count ==> m.samples[i] == 0
  {
    var z := Zeros(count);
    SumOfZeros(z);
    MovingAverage(z, 0, 0, 0)
  }

  /** AddSample(v): the sample replaces the one at the write index, the
      accumulator follows, the index advances and wraps at the window size,
      and the fill count grows until it reaches the window size. The source
      indexes `Samples[Idx]`, so the window must not be empty. */
  function AddSample(m: MovingAverage, v: int): (r: MovingAverage)
    requires m.Valid() && |m.samples| > 0
    ensures r.Valid()
    ensures GetSampleCount(r) == GetSampleCount(m)
    ensures r.samples[m.idx] == v
    ensures forall i :: 0 <= i < |m.samples| && i != m.idx ==> r.samples[i] == m.samples[i]
    ensures r.idx == (m.idx + 1) % |m.samples|
    ensures r.fillAmount == if m.fillAmount < |m.samples| then m.fillAmount + 1 else m.fillAmount
  {
    SumUpdate(m.samples, m.idx, v);
    var accum := m.accum + (v - m.samples[m.idx]);
    var samples := m.samples[m.idx := v];
    var idx := if m.idx + 1 == |samples| then 0 else m.idx + 1;
    DivModUnique(m.idx + 1, |samples|, if m.idx + 1 == |samples| then 1 else 0, idx);
    var fill := if m.fillAmount < |samples| then m.fillAmount + 1 else m.fillAmount;
    MovingAverage(samples, accum, idx, fill)
  }

  /** GetAverage(): the accumulator divided by the fill count, truncated
      toward zero; it needs at least one sample. */
  function GetAverage(m: MovingAverage): (r: int)
    requires m.Valid() && m.fillAmount > 0
    ensures m.accum >= 0 ==> 0 <= r * m.fillAmount <= m.accum < (r + 1) * m.fillAmount
    ensures m.accum < 0 ==> (r - 1) * m.fillAmount < m.accum <= r * m.fillAmount <= 0
  {
    TruncDiv(m.accum, m.fillAmount)
  }

  /** GetSampleCount(): the window size. */
  function GetSampleCount(m: MovingAverage): int {
    |m.samples|
  }

  /** IsFull(): every slot holds a real sample. */
  function IsFull(m: MovingAverage): bool {
    m.fillAmount == |m.samples|
  }

  /** Adds the samples in order. */
  function AddSamples(m: MovingAverage, xs: seq<int>): (r: MovingAverage)
    requires m.Valid() && |m.samples| > 0
    ensures r.Valid() && GetSampleCount(r) == GetSampleCount(m)
    decreases |xs|
  {
    if |xs| == 0 then m else AddSamples(AddSample(m, xs[0]), xs[1..])
  }

  /** What slot `k` of a window of `n` holds after the samples `h` were
      added to a freshly initialised buffer: the latest sample written
      there, or 0. */
  function SlotValue(h: seq<int>, n: nat, k: nat): int
    requires n > 0
  {
    if |h| == 0 then 0
    else if (|h| - 1) % n == k then h[|h| - 1]
    else SlotValue(h[..|h| - 1], n, k)
  }

  /** The last min(|h|, n) samples. */
  function Window(h: seq<int>, n: nat): (w: seq<int>)
    ensures |w| == if |h| < n then |h| else n
  {
    if |h| < n then h else h[|h| - n..]
  }

  /** `m` is the buffer that results from adding `h` to Init(n). */
  predicate Tracks(m: MovingAverage, h: seq<int>)
    requires |m.samples| > 0
  {
    var n := |m.samples|;
    && m.Valid()
    && m.fillAmount == (if |h| < n then |h| else n)
    && m.idx == |h| % n
    && m.accum == Sum(Window(h, n))
    && forall k :: 0 <= k < n ==> m.samples[k] == SlotValue(h, n, k)
  }

  /** Two indices less than `n` apart fall into different slots. */
  lemma DistinctSlots(a: int, b: int, n: int)
    requires n > 0 && 0 <= b < a < b + n
    ensures a % n != b % n
  {
    var qa, qb := a / n, b / n;
    assert a == qa * n + a % n;
    assert b == qb * n + b % n;
    if a % n == b % n {
      assert (qa - qb) * n == a - b;
      if qa - qb >= 1 {
        MulAtLeast(qa - qb, n);
      }
    }
  }

  /** The slot after slot `a % n`. */
  lemma NextSlot(a: int, n: int)
    requires a >= 0 && n > 0
    ensures (a + 1) % n == if a % n + 1 == n then 0 else a % n + 1
  {
    var q, r := a / n, a % n;
    assert a == q * n + r;
    if r + 1 == n {
      DivModUnique(a + 1, n, q + 1, 0);
    } else {
      DivModUnique(a + 1, n, q, r + 1);
    }
  }

  /** Going back a whole window lands in the same slot. */
  lemma SlotBackWindow(a: int, n: int)
    requires n > 0 && a >= n
    ensures (a - n) % n == a % n
  {
    var q, r := (a - n) / n, (a - n) % n;
    assert a - n == q * n + r;
    DivModUnique(a, n, q + 1, r);
  }

  /** Below the window size, the slot is the index itself. */
  lemma SmallSlot(a: int, n: int)
    requires 0 <= a < n
    ensures a % n == a
  {
    DivModUnique(a, n, 0, a);
  }

  /** A slot no sample has reached yet still holds 0. */
  lemma {:induction false} UnreachedSlot(h: seq<int>, n: nat, k: nat)
    requires n > 0 && |h| <= k < n
    ensures SlotValue(h, n, k) == 0
  {
    if |h| > 0 {
      SmallSlot(|h| - 1, n);
      UnreachedSlot(h[..|h| - 1], n, k);
    }
  }

  /** Each of the last n samples is still in its slot. */
  lemma {:induction false} RecentSlot(h: seq<int>, n: nat, j: nat)
    requires n > 0 && j < |h| <= j + n
    ensures SlotValue(h, n, j % n) == h[j]
  {
    if j < |h| - 1 {
      DistinctSlots(|h| - 1, j, n);
      RecentSlot(h[..|h| - 1], n, j);
    }
  }

  /** The window after one more sample. */
  lemma WindowStep(h: seq<int>, n: nat, v: int)
    requires n > 0
    ensures Sum(Window(h + [v], n))
         == Sum(Window(h, n)) + v - (if |h| < n then 0 else h[|h| - n])
  {
    var h' := h + [v];
    var w' := Window(h', n);
    assert w'[..|w'| - 1] == (if |h| < n then h else h[|h| - n + 1..]);
    if |h| >= n {
      SumFront(h[|h| - n..]);
      assert h[|h| - n..][1..] == h[|h| - n + 1..];
    }
  }

  /** The sample AddSample overwrites: 0 while the window is filling,
      otherwise the one that drops out of the window. */
  lemma Overwritten(m: MovingAverage, h: seq<int>)
    requires |m.samples| > 0 && Tracks(m, h)
    ensures m.samples[m.idx] == if |h| < |m.samples| then 0 else h[|h| - |m.samples|]
  {
    var n := |m.samples|;
    if |h| < n {
      SmallSlot(|h|, n);
      UnreachedSlot(h, n, |h|);
    } else {
      SlotBackWindow(|h|, n);
      RecentSlot(h, n, |h| - n);
    }
  }

  /** The slots after AddSample. */
  lemma SlotsStep(m: MovingAverage, h: seq<int>, v: int)
    requires |m.samples| > 0 && Tracks(m, h)
    ensures forall k :: 0 <= k < |m.samples| ==> AddSample(m, v).samples[k] == SlotValue(h + [v], |m.samples|, k)
  {
    var h' := h + [v];
    assert h'[..|h'| - 1] == h;
    assert |h'| - 1 == |h|;
  }

  /** Adding one sample keeps the buffer in step with the history. */
  lemma TracksStep(m: MovingAverage, h: seq<int>, v: int)
    requires |m.samples| > 0 && Tracks(m, h)
    ensures Tracks(AddSample(m, v), h + [v])
  {
    var n := |m.samples|;
    Overwritten(m, h);
    WindowStep(h, n, v);
    NextSlot(|h|, n);
    SlotsStep(m, h, v);
  }

  lemma {:induction false} TracksMany(m: MovingAverage, h: seq<int>, xs: seq<int>)
    requires |m.samples| > 0 && Tracks(m, h)
    ensures Tracks(AddSamples(m, xs), h + xs)
    decreases |xs|
  {
    if |xs| == 0 {
      assert h + xs == h;
    } else {
      var h' := h + [xs[0]];
      assert h' + xs[1..] == h + xs;
      TracksStep(m, h, xs[0]);
      TracksMany(AddSample(m, xs[0]), h', xs[1..]);
    }
  }

  lemma TracksFromInit(n: nat, xs: seq<int>)
    requires n > 0
    ensures Tracks(AddSamples(Init(n), xs), xs)
  {
    var m0 := Init(n);
    assert Tracks(m0, []) by {
      forall k | 0 <= k < n ensures m0.samples[k] == SlotValue([], n, k) {}
    }
    TracksMany(m0, [], xs);
    assert [] + xs == xs;
  }

  /** After Init(n) and any samples xs, the buffer holds the last min(|xs|, n)
      samples, the accumulator is their sum, the fill count is their number,
      the write index is |xs| mod n, and GetAverage is their mean (truncated
      toward zero). */
  lemma MovingAverageWindow(n: nat, xs: seq<int>)
    requires n > 0
    ensures var m := AddSamples(Init(n), xs);
      && m.accum == Sum(Window(xs, n))
      && m.fillAmount == |Window(xs, n)|
      && m.idx == |xs| % n
      && (IsFull(m) <==> |xs| >= n)
      && (|xs| > 0 ==> GetAverage(m) == TruncDiv(Sum(Window(xs, n)), |Window(xs, n)|))
  {
    TracksFromInit(n, xs);
  }

  /** Each slot of the buffer holds the latest sample written to it. */
  lemma MovingAverageSlots(n: nat, xs: seq<int>, j: nat)
    requires n > 0 && j < |xs| <= j + n
    ensures AddSamples(Init(n), xs).samples[j % n] == xs[j]
  {
    TracksFromInit(n, xs);
    RecentSlot(xs, n, j);
  }

  // ---------------------------------------------------------------------
  // ImGuiCSVParser cell indexing
  // ---------------------------------------------------------------------

  /** The parser's table: `index` holds the cells row by row, as
      `_Index[row * Columns + col]`. Loading a file is not modelled. */
  datatype CsvParser = CsvParser(columns: int, rows: int, index: seq<string>)

  /** The constructor; the column count defaults to -1 (unknown). */
  function NewCsvParser(columns: int := -1): (p: CsvParser)
    ensures p.columns == columns && p.rows == 0 && |p.index| == 0
  {
    CsvParser(columns, 0, [])
  }

  /** A filled table holds one cell per row and column. */
  predicate Loaded(p: CsvParser) {
    p.rows >= 0 && p.columns >= 0 && |p.index| == p.rows * p.columns
  }

  /** The flat position of a cell. */
  function CellIndex(columns: int, row: int, col: int): int {
    row * columns + col
  }

  /** A cell of a `rows` x `columns` table lies inside the table. */
  lemma CellIndexInRange(rows: int, columns: int, row: int, col: int)
    requires 0 <= row < rows && 0 <= col < columns
    ensures 0 <= CellIndex(columns, row, col) < rows * columns
  {
    assert row * columns + columns == (row + 1) * columns;
    assert (row + 1) * columns <= rows * columns by {
      assert rows * columns - (row + 1) * columns == (rows - row - 1) * columns;
    }
  }

  /** The flat position gives back the row and column: no two cells share
      a position. */
  lemma CellIndexInverse(columns: int, row: int, col: int)
    requires columns > 0 && row >= 0 && 0 <= col < columns
    ensures CellIndex(columns, row, col) / columns == row
    ensures CellIndex(columns, row, col) % columns == col
  {
    DivModUnique(row * columns + col, columns, row, col);
  }

  /** GetCell(row, col): the text of the cell at `row * Columns + col`.
      The source asserts the row and column bounds. */
  function GetCell(p: CsvParser, row: int, col: int): (r: string)
    requires Loaded(p)
    requires 0 <= row < p.rows && 0 <= col < p.columns
    ensures 0 <= CellIndex(p.columns, row, col) < |p.index|
    ensures r == p.index[CellIndex(p.columns, row, col)]
  {
    CellIndexInRange(p.rows, p.columns, row, col);
    p.index[CellIndex(p.columns, row, col)]
  }

  /** Different cells are read from different positions. */
  lemma GetCellDistinct(p: CsvParser, r1: int, c1: int, r2: int, c2: int)
    requires Loaded(p)
    requires 0 <= r1 < p.rows && 0 <= c1 < p.columns
    requires 0 <= r2 < p.rows && 0 <= c2 < p.columns
    requires (r1, c1) != (r2, c2)
    ensures CellIndex(p.columns, r1, c1) != CellIndex(p.columns, r2, c2)
  {
    CellIndexInverse(p.columns, r1, c1);
    CellIndexInverse(p.columns, r2, c2);
  }
}
