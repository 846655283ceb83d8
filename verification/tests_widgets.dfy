/** Two self-contained helpers of imgui_tests_widgets.cpp: the per-type
    slider ranges of the slider-range test, and the ExampleSelection set
    of the multi-select test. */
module WidgetsTests {
  import opened Wrappers
  import opened Arith

  // ---------------------------------------------------------------------
  // GetSliderTestRanges
  // ---------------------------------------------------------------------

  /** ImGuiDataType codes, in the order of imgui.h's enum. */
  const DATA_TYPE_S8: int := 0
  const DATA_TYPE_U8: int := 1
  const DATA_TYPE_S16: int := 2
  const DATA_TYPE_U16: int := 3
  const DATA_TYPE_S32: int := 4
  const DATA_TYPE_U32: int := 5
  const DATA_TYPE_S64: int := 6
  const DATA_TYPE_U64: int := 7
  const DATA_TYPE_FLOAT: int := 8
  const DATA_TYPE_DOUBLE: int := 9
  const DATA_TYPE_COUNT: int := 10

  predicate IsIntegerType(dataType: int) {
    DATA_TYPE_S8 <= dataType <= DATA_TYPE_U64
  }

  /** The width of an integer type, and whether it is signed. */
  function TypeBits(dataType: int): (bits: nat)
    requires IsIntegerType(dataType)
    ensures bits in {8, 16, 32, 64}
  {
    if dataType <= DATA_TYPE_U8 then 8
    else if dataType <= DATA_TYPE_U16 then 16
    else if dataType <= DATA_TYPE_U32 then 32
    else 64
  }

  predicate IsSigned(dataType: int) {
    dataType % 2 == 0
  }

  /** The least and greatest value of an integer type, in two's
      complement. */
  function TypeMin(dataType: int): int
    requires IsIntegerType(dataType)
  {
    if IsSigned(dataType) then -Pow2(TypeBits(dataType) - 1) else 0
  }

  function TypeMax(dataType: int): int
    requires IsIntegerType(dataType)
  {
    if IsSigned(dataType) then Pow2(TypeBits(dataType) - 1) - 1 else Pow2(TypeBits(dataType)) - 1
  }

  /** The limits of <stdint.h> the source writes. */
  const INT8_MIN: int := -128
  const INT8_MAX: int := 127
  const UINT8_MAX: int := 255
  const INT16_MIN: int := -32768
  const INT16_MAX: int := 32767
  const UINT16_MAX: int := 65535
  const INT32_MIN: int := -2147483648
  const INT32_MAX: int := 2147483647
  const UINT32_MAX: int := 4294967295
  const INT64_MIN: int := -9223372036854775808
  const INT64_MAX: int := 9223372036854775807
  const UINT64_MAX: int := 18446744073709551615

  /** The floating-point types use +-10^9, which float and double hold
      exactly. */
  const FLOAT_RANGE_LIMIT: int := 1_000_000_000

  /** GetSliderTestRanges(data_type): the (min, max) written for each
      type; the 32- and 64-bit limits are halved with C's truncating
      division. An unlisted type hits the assertion: None. */
  function GetSliderTestRanges(dataType: int): (r: Option<(int, int)>)
    ensures r.Some? <==> 0 <= dataType < DATA_TYPE_COUNT
  {
    if dataType == DATA_TYPE_S8 then Some((INT8_MIN, INT8_MAX))
    else if dataType == DATA_TYPE_U8 then Some((0, UINT8_MAX))
    else if dataType == DATA_TYPE_S16 then Some((INT16_MIN, INT16_MAX))
    else if dataType == DATA_TYPE_U16 then Some((0, UINT16_MAX))
    else if dataType == DATA_TYPE_S32 then Some((TruncDiv(INT32_MIN, 2), TruncDiv(INT32_MAX, 2)))
    else if dataType == DATA_TYPE_U32 then Some((0, TruncDiv(UINT32_MAX, 2)))
    else if dataType == DATA_TYPE_S64 then Some((TruncDiv(INT64_MIN, 2), TruncDiv(INT64_MAX, 2)))
    else if dataType == DATA_TYPE_U64 then Some((0, TruncDiv(UINT64_MAX, 2)))
    else if dataType == DATA_TYPE_FLOAT || dataType == DATA_TYPE_DOUBLE then
      Some((-FLOAT_RANGE_LIMIT, FLOAT_RANGE_LIMIT))
    else None
  }

  /** The limits of each integer type are those of <stdint.h>. */
  lemma TypeLimits(dataType: int)
    requires IsIntegerType(dataType)
    ensures dataType == DATA_TYPE_S8 ==> TypeMin(dataType) == INT8_MIN && TypeMax(dataType) == INT8_MAX
    ensures dataType == DATA_TYPE_U8 ==> TypeMin(dataType) == 0 && TypeMax(dataType) == UINT8_MAX
    ensures dataType == DATA_TYPE_S16 ==> TypeMin(dataType) == INT16_MIN && TypeMax(dataType) == INT16_MAX
    ensures dataType == DATA_TYPE_U16 ==> TypeMin(dataType) == 0 && TypeMax(dataType) == UINT16_MAX
    ensures dataType == DATA_TYPE_S32 ==> TypeMin(dataType) == INT32_MIN && TypeMax(dataType) == INT32_MAX
    ensures dataType == DATA_TYPE_U32 ==> TypeMin(dataType) == 0 && TypeMax(dataType) == UINT32_MAX
    ensures dataType == DATA_TYPE_S64 ==> TypeMin(dataType) == INT64_MIN && TypeMax(dataType) == INT64_MAX
    ensures dataType == DATA_TYPE_U64 ==> TypeMin(dataType) == 0 && TypeMax(dataType) == UINT64_MAX
  {
    Pow2Values();
  }

  /** The 8- and 16-bit types use their whole range. */
  lemma SmallTypesUseFullRange(dataType: int)
    requires IsIntegerType(dataType) && TypeBits(dataType) <= 16
    ensures GetSliderTestRanges(dataType) == Some((TypeMin(dataType), TypeMax(dataType)))
  {
    TypeLimits(dataType);
  }

  /** The 32- and 64-bit types use half their range, rounded toward
      zero: twice each limit stays inside the type. */
  lemma WideTypesUseHalfRange(dataType: int)
    requires IsIntegerType(dataType) && TypeBits(dataType) >= 32
    ensures var (lo, hi) := GetSliderTestRanges(dataType).value;
      && lo == TruncDiv(TypeMin(dataType), 2) && hi == TruncDiv(TypeMax(dataType), 2)
      && TypeMin(dataType) <= 2 * lo && 2 * hi <= TypeMax(dataType) < 2 * hi + 2
  {
    TypeLimits(dataType);
  }

  /** Every range is a non-empty interval, and for the integer types it
      lies inside the type. */
  lemma SliderRangeWellFormed(dataType: int)
    requires 0 <= dataType < DATA_TYPE_COUNT
    ensures var (lo, hi) := GetSliderTestRanges(dataType).value;
      && lo < hi
      && (IsIntegerType(dataType) ==> TypeMin(dataType) <= lo && hi <= TypeMax(dataType))
      && (IsIntegerType(dataType) && !IsSigned(dataType) ==> lo == 0)
  {
    if IsIntegerType(dataType) {
      TypeLimits(dataType);
    }
  }

  // ---------------------------------------------------------------------
  // ExampleSelection
  // ---------------------------------------------------------------------

  /** The indices an ImGuiStorage marks as selected: those stored with
      a non-zero value. */
  function SelectedOf(storage: map<int, int>): set<int> {
    set k | k in storage && storage[k] != 0
  }

  /** Every stored value is 0 or 1. */
  predicate Flags(storage: map<int, int>) {
    forall k :: k in storage ==> storage[k] == 0 || storage[k] == 1
  }

  /** ExampleSelection: an ImGuiStorage from item index to int (1 for
      selected), the cached number of selected items, and the range-select
      pivot. */
  datatype Selection = Selection(storage: map<int, int>, selectionSize: int, rangeRef: int) {

    function Selected(): set<int> {
      SelectedOf(storage)
    }

    /** The class keeps every stored value 0 or 1 and the cached size
        equal to the number of selected indices. */
    predicate Valid() {
      Flags(storage) && selectionSize == |Selected()|
    }
  }

  /** ExampleSelection(): pivot 0 and nothing selected. */
  function NewSelection(): (s: Selection)
    ensures s.Valid() && s.Selected() == {} && s.rangeRef == 0
  {
    Clear(Selection(map[], 0, 0))
  }

  /** Clear(): nothing selected; the pivot is kept. */
  function Clear(s: Selection): (r: Selection)
    ensures r.Valid() && r.Selected() == {} && r.selectionSize == 0 && r.rangeRef == s.rangeRef
  {
    var r := s.(storage := map[], selectionSize := 0);
    assert r.Selected() == {};
    r
  }

  /** GetSelected(n): the stored value, 0 when absent, is non-zero. */
  function GetSelected(s: Selection, n: int): (b: bool)
    ensures b <==> n in s.Selected()
  {
    (if n in s.storage then s.storage[n] else 0) != 0
  }

  function BoolToInt(v: bool): int {
    if v then 1 else 0
  }

  /** GetIntRef inserts an absent index with the default 0, which selects
      nothing. */
  lemma InsertDefault(storage: map<int, int>, n: int)
    requires Flags(storage)
    ensures var cur := if n in storage then storage[n] else 0;
      Flags(storage[n := cur]) && SelectedOf(storage[n := cur]) == SelectedOf(storage)
  {
    var cur := if n in storage then storage[n] else 0;
    assert SelectedOf(storage[n := cur]) == SelectedOf(storage);
  }

  /** Storing v over a value that differs from it adds or removes exactly
      that index. */
  lemma SelectedAfterStore(storage: map<int, int>, n: int, v: bool)
    requires Flags(storage) && n in storage && storage[n] != BoolToInt(v)
    ensures var after := storage[n := BoolToInt(v)];
      && Flags(after)
      && SelectedOf(after) == (if v then SelectedOf(storage) + {n} else SelectedOf(storage) - {n})
      && |SelectedOf(after)| == if v then |SelectedOf(storage)| + 1 else |SelectedOf(storage)| - 1
  {
    var after := storage[n := BoolToInt(v)];
    if v {
      assert SelectedOf(after) == SelectedOf(storage) + {n};
    } else {
      assert SelectedOf(after) == SelectedOf(storage) - {n};
    }
  }

  /** SetSelected(n, v): GetIntRef inserts the index with 0 when it is
      absent; if the stored value already equals v nothing else happens,
      otherwise the size moves by one and v is stored. */
  function SetSelected(s: Selection, n: int, v: bool): (r: Selection)
    requires s.Valid()
    ensures r.Valid()
    ensures r.Selected() == if v then s.Selected() + {n} else s.Selected() - {n}
    ensures r.rangeRef == s.rangeRef
  {
    var cur := if n in s.storage then s.storage[n] else 0;
    var storage := s.storage[n := cur];
    InsertDefault(s.storage, n);
    if cur == BoolToInt(v) then
      s.(storage := storage)
    else
      SelectedAfterStore(storage, n, v);
      s.(storage := storage[n := BoolToInt(v)],
         selectionSize := if v then s.selectionSize + 1 else s.selectionSize - 1)
  }

  /** Setting an index to the value it already has changes neither the
      selection nor its size. */
  lemma SetSelectedNoOp(s: Selection, n: int, v: bool)
    requires s.Valid() && GetSelected(s, n) == v
    ensures SetSelected(s, n, v).Selected() == s.Selected()
    ensures SetSelected(s, n, v).selectionSize == s.selectionSize
  {
  }

  /** The loop of SetRange from `n` to `hi`. */
  function SetRangeFrom(s: Selection, n: int, hi: int, v: bool): (r: Selection)
    requires s.Valid()
    ensures r.Valid() && r.rangeRef == s.rangeRef
    ensures forall k :: n <= k <= hi ==> (k in r.Selected() <==> v)
    ensures forall k :: !(n <= k <= hi) ==> (k in r.Selected() <==> k in s.Selected())
    decreases hi - n + 1
  {
    if n > hi then s else SetRangeFrom(SetSelected(s, n, v), n + 1, hi, v)
  }

  /** SetRange(n1, n2, v): the arguments are put in order, then every
      index between them, inclusive, is set to v. */
  function SetRange(s: Selection, n1: int, n2: int, v: bool): (r: Selection)
    requires s.Valid()
    ensures r.Valid() && r.rangeRef == s.rangeRef
  {
    if n2 < n1 then SetRangeFrom(s, n2, n1, v) else SetRangeFrom(s, n1, n2, v)
  }

  /** The range is set whichever end comes first, and every other index
      keeps its state. */
  lemma SetRangeEffect(s: Selection, n1: int, n2: int, v: bool, k: int)
    requires s.Valid()
    ensures var lo, hi := if n1 <= n2 then n1 else n2, if n1 <= n2 then n2 else n1;
      && (lo <= k <= hi ==> (GetSelected(SetRange(s, n1, n2, v), k) <==> v))
      && (!(lo <= k <= hi) ==> GetSelected(SetRange(s, n1, n2, v), k) == GetSelected(s, k))
  {
  }

  lemma SetRangeSymmetric(s: Selection, n1: int, n2: int, v: bool)
    requires s.Valid()
    ensures SetRange(s, n1, n2, v).Selected() == SetRange(s, n2, n1, v).Selected()
  {
    var a, b := SetRange(s, n1, n2, v), SetRange(s, n2, n1, v);
    forall k ensures k in a.Selected() <==> k in b.Selected() {
      SetRangeEffect(s, n1, n2, v, k);
      SetRangeEffect(s, n2, n1, v, k);
    }
  }

  /** The loop of SetRange as the source writes it. */
  method SetRangeLoop(s: Selection, n1: int, n2: int, v: bool) returns (r: Selection)
    requires s.Valid()
    ensures r.Valid() && r.rangeRef == s.rangeRef
    ensures forall k :: (n1 <= k <= n2 || n2 <= k <= n1) ==> (k in r.Selected() <==> v)
    ensures forall k :: !(n1 <= k <= n2 || n2 <= k <= n1) ==> (k in r.Selected() <==> k in s.Selected())
  {
    var lo, hi := n1, n2;
    if hi < lo {
      lo, hi := n2, n1;
    }
    r := s;
    var n := lo;
    while n <= hi
      invariant lo <= n <= hi + 1
      invariant r.Valid() && r.rangeRef == s.rangeRef
      invariant forall k :: lo <= k < n ==> (k in r.Selected() <==> v)
      invariant forall k :: !(lo <= k < n) ==> (k in r.Selected() <==> k in s.Selected())
      decreases hi - n
    {
      r := SetSelected(r, n, v);
      n := n + 1;
    }
  }

  /** The indices 0 .. count - 1. */
  function Indices(count: nat): (r: set<int>)
    ensures |r| == count
    ensures forall k :: k in r <==> 0 <= k < count
  {
    if count == 0 then {}
    else
      var r := Indices(count - 1) + {count - 1};
      assert count - 1 !in Indices(count - 1);
      r
  }

  /** SelectAll(count): the storage holds exactly 0 .. count - 1, each
      with 1, and the size is count. */
  function SelectAll(s: Selection, count: nat): (r: Selection)
    ensures r.Valid() && r.rangeRef == s.rangeRef
    ensures r.Selected() == Indices(count) && r.selectionSize == count
  {
    var storage := map k | k in Indices(count) :: 1;
    assert SelectedOf(storage) == Indices(count);
    s.(storage := storage, selectionSize := count)
  }
}
