/** Selection through the inline index: a binary search bounds the rows that are fetched, and
    the predicate is checked again on each of them. */
module IndexSelect {
  import opened MachineWords

  type Row = seq<Long>

  /** What a search or an iteration delivers: a row, the INVALID_TUPLE value, or a read of a row
      outside the relation, which leaves the C code with an undefined value. */
  datatype Probe = At(row: nat) | Invalid | Outside

  // ------------------------------------------------------------ binary search

  /** The search between `min` and `max`. When the probe of row 0 asks for smaller rows, the
      unsigned upper bound wraps around and the next probe lies outside the relation. */
  function SearchFrom(col: seq<Long>, target: Long, min: nat, max: nat): (r: Probe)
    requires min <= max < |col|
    ensures r.At? ==> r.row < |col|
    ensures r != Invalid
    decreases max - min
  {
    var center := min + (max - min) / 2;
    if target == col[center] then At(center)
    else if target > col[center] then
      if center + 1 <= max then SearchFrom(col, target, center + 1, max) else At(center)
    else if center == 0 then Outside
    else if min <= center - 1 then SearchFrom(col, target, min, center - 1)
    else At(center)
  }

  function BinarySearch(col: seq<Long>, target: Long, exact: bool): (r: Probe)
    ensures r.At? ==> r.row < |col|
  {
    if col == [] then Outside else
    var r := SearchFrom(col, target, 0, |col| - 1);
    if exact && r.At? && col[r.row] != target then Invalid else r
  }

  predicate Increasing(col: seq<Long>) {
    forall i, j :: 0 <= i < j < |col| ==> col[i] < col[j]
  }

  /** The probe is the target's row, or next to where the target would be. */
  predicate Near(col: seq<Long>, target: Long, c: nat) {
    && c < |col|
    && (c > 0 ==> col[c - 1] < target)
    && (c + 1 < |col| ==> target < col[c + 1])
  }

  lemma Neighbours(col: seq<Long>, c: nat)
    requires Increasing(col) && c < |col|
    ensures c > 0 ==> col[c - 1] < col[c]
    ensures c + 1 < |col| ==> col[c] < col[c + 1]
  {
  }

  lemma {:induction false} SearchesFrom(col: seq<Long>, target: Long, min: nat, max: nat)
    requires Increasing(col) && min <= max < |col| && col[0] <= target
    requires min > 0 ==> col[min - 1] < target
    requires max + 1 < |col| ==> target < col[max + 1]
    ensures var r := SearchFrom(col, target, min, max);
            r.At? && Near(col, target, r.row)
    decreases max - min
  {
    hide Increasing, SearchFrom, Near;
    var c := SearchStep(col, target, min, max);
    if target > col[c] && c + 1 <= max {
      SearchesFrom(col, target, c + 1, max);
    } else if target < col[c] && min <= c - 1 {
      SearchesFrom(col, target, min, c - 1);
    } else {
      EndsNear(col, target, min, max, c);
    }
  }

  /** One probe of the search, wherever it is. */
  /** The search is now between `min` and `max`, and comes to `whole`. */
  ghost predicate Searching(col: seq<Long>, target: Long, min: int, max: int, whole: Probe) {
    0 <= min <= max < |col| && SearchFrom(col, target, min, max) == whole
  }

  /** One probe: the search goes on in one of the two halves, or is over. */
  lemma ProbeStep(col: seq<Long>, target: Long, min: nat, max: nat, c: nat, whole: Probe)
    requires Searching(col, target, min, max, whole) && c == min + (max - min) / 2
    ensures min <= c <= max
    ensures target > col[c] ==> if c < max then Searching(col, target, c + 1, max, whole) else whole == At(c)
    ensures target < col[c] && c == 0 ==> whole == Outside
    ensures target < col[c] && c > 0 ==> if min < c then Searching(col, target, min, c - 1, whole) else whole == At(c)
    ensures target == col[c] ==> whole == At(c)
  {
  }

  lemma EndsNear(col: seq<Long>, target: Long, min: nat, max: nat, c: nat)
    requires Increasing(col) && min <= c <= max < |col|
    requires min > 0 ==> col[min - 1] < target
    requires max + 1 < |col| ==> target < col[max + 1]
    requires target > col[c] ==> c == max
    requires target < col[c] ==> c == min
    ensures Near(col, target, c)
  {
    Neighbours(col, c);
  }

  /** One probe of the search, when the first row is not above the target. */
  lemma SearchStep(col: seq<Long>, target: Long, min: nat, max: nat) returns (c: nat)
    requires min <= max < |col| && col[0] <= target
    ensures min <= c <= max
    ensures SearchFrom(col, target, min, max) ==
      if target > col[c] && c + 1 <= max then SearchFrom(col, target, c + 1, max)
      else if target < col[c] && min <= c - 1 then SearchFrom(col, target, min, c - 1)
      else At(c)
  {
    c := min + (max - min) / 2;
  }

  lemma AbsentBetween(col: seq<Long>, target: Long, center: nat)
    requires Increasing(col) && Near(col, target, center) && col[center] != target
    ensures target !in col
  {
    forall i | 0 <= i < |col|
      ensures col[i] != target
    {
      if i < center { assert col[i] <= col[center - 1]; }
      if i > center { assert col[center + 1] <= col[i]; }
    }
  }

  lemma {:induction false} LeavesRelation(col: seq<Long>, target: Long, max: nat)
    requires Increasing(col) && max < |col| && target < col[0]
    ensures SearchFrom(col, target, 0, max) == Outside
    decreases max
  {
    var center := max / 2;
    assert col[0] <= col[center];
    if center > 0 {
      LeavesRelation(col, target, center - 1);
    }
  }

  /** On a strictly increasing column the search leaves the relation exactly when the target
      lies below the first value. Otherwise it ends at the target or next to its place; an exact
      search fails exactly when the target is absent. */
  lemma SearchResult(col: seq<Long>, target: Long, exact: bool)
    requires Increasing(col)
    ensures BinarySearch(col, target, exact) == Outside <==> col == [] || target < col[0]
    ensures col != [] && col[0] <= target ==>
            match BinarySearch(col, target, exact)
            case At(c) => Near(col, target, c) && (target in col <==> col[c] == target)
            case Invalid => exact && target !in col
            case Outside => false
    ensures BinarySearch(col, target, exact) == Invalid <==> exact && col != [] && col[0] <= target && target !in col
  {
    if col != [] {
      if target < col[0] {
        LeavesRelation(col, target, |col| - 1);
      } else {
        SearchesFrom(col, target, 0, |col| - 1);
        var c := SearchFrom(col, target, 0, |col| - 1).row;
        if col[c] != target {
          AbsentBetween(col, target, c);
        }
      }
    }
  }

  // ----------------------------------------------------------- index iteration

  datatype Iterator = Iterator(low: Long, high: Long, next: nat, start: nat, end: nat)

  /** The search happens when the first item is asked for; later items follow from the cached
      first and last rows. */
  function GetNext(col: seq<Long>, it: Iterator): (r: (Probe, Iterator))
    ensures r.1.low == it.low && r.1.high == it.high
  {
    if it.next == 0 then
      var exact := it.low == it.high;
      var s := BinarySearch(col, it.low, exact);
      if s == Outside then (Outside, it)
      else if s == Invalid then (Invalid, it.(start := 0, end := 0)) else
      var e := BinarySearch(col, it.high, exact);
      if e == Outside then (Outside, it)
      else if e == Invalid then (Invalid, it.(start := 0, end := 0))
      else (s, it.(start := s.row, end := e.row, next := 1))
    else if it.start + it.next <= it.end then (At(it.start + it.next), it.(next := it.next + 1))
    else (Invalid, it)
  }

  // -------------------------------------------------------------- selection

  datatype Handle = Handle(byIndex: bool, tuple: nat, it: Iterator)

  datatype Result = GotRow(row: nat) | Skipped | Finished | IndexError | Undefined

  function Column(rel: seq<Row>, k: nat): (col: seq<Long>)
    requires forall i :: 0 <= i < |rel| ==> k < |rel[i]|
    ensures |col| == |rel| && forall i :: 0 <= i < |rel| ==> col[i] == rel[i][k]
  {
    seq(|rel|, i requires 0 <= i < |rel| => rel[i][k])
  }

  /** One call of relation_process_select. */
  function ProcessSelect(rel: seq<Row>, k: nat, accepts: Row -> bool, h: Handle): (Result, Handle)
    requires forall i :: 0 <= i < |rel| ==> k < |rel[i]|
  {
    if h.byIndex then
      var (probe, it) := GetNext(Column(rel, k), h.it);
      match probe
      case Outside => (Undefined, h)
      case Invalid => (if it.next == 0 then IndexError else Finished, h.(it := it))
      case At(row) => Fetch(rel, accepts, h.(it := it, tuple := row))
    else Fetch(rel, accepts, h)
  }

  /** Reads the current row, steps past it, and checks the predicate on it. */
  function Fetch(rel: seq<Row>, accepts: Row -> bool, h: Handle): (Result, Handle) {
    var next := h.(tuple := h.tuple + 1);
    if h.tuple >= |rel| then (Finished, next)
    else if accepts(rel[h.tuple]) then (GotRow(h.tuple), next)
    else (Skipped, next)
  }

  /** How many more rows a handle can fetch. */
  function Pending(n: nat, h: Handle): nat {
    if !h.byIndex then (if h.tuple <= n then n - h.tuple else 0)
    else if h.it.next == 0 then n + 1
    else if h.it.start + h.it.next <= h.it.end < n then h.it.end + 1 - (h.it.start + h.it.next)
    else 0
  }

  /** The rows that repeated calls yield, and the result that ends them. */
  function SelectAll(rel: seq<Row>, k: nat, accepts: Row -> bool, h: Handle): (seq<nat>, Result)
    requires forall i :: 0 <= i < |rel| ==> k < |rel[i]|
    requires h.byIndex && h.it.next > 0 ==> h.it.end < |rel|
    decreases Pending(|rel|, h)
  {
    var (result, next) := ProcessSelect(rel, k, accepts, h);
    match result
    case GotRow(row) =>
      var (rows, end) := SelectAll(rel, k, accepts, next);
      ([row] + rows, end)
    case Skipped => SelectAll(rel, k, accepts, next)
    case _ => ([], result)
  }

  /** The rows from `from` up to but not including `to` that the predicate accepts, in order. */
  function Accepted(rel: seq<Row>, accepts: Row -> bool, from: nat, to: nat): seq<nat>
    requires to <= |rel|
    decreases |rel| - from
  {
    if from >= to then []
    else (if accepts(rel[from]) then [from] else []) + Accepted(rel, accepts, from + 1, to)
  }

  function Scan(low: Long, high: Long): Handle { Handle(false, 0, Iterator(low, high, 0, 0, 0)) }
  function ByIndex(low: Long, high: Long): Handle { Handle(true, 0, Iterator(low, high, 0, 0, 0)) }

  lemma {:induction false} ScanYields(rel: seq<Row>, k: nat, accepts: Row -> bool, h: Handle)
    requires forall i :: 0 <= i < |rel| ==> k < |rel[i]|
    requires !h.byIndex && h.tuple <= |rel|
    ensures SelectAll(rel, k, accepts, h) == (Accepted(rel, accepts, h.tuple, |rel|), Finished)
    decreases |rel| - h.tuple
  {
    if h.tuple < |rel| {
      ScanYields(rel, k, accepts, h.(tuple := h.tuple + 1));
      var rest := Accepted(rel, accepts, h.tuple + 1, |rel|);
      assert [] + rest == rest;
    }
  }

  lemma {:induction false} IterationYields(rel: seq<Row>, k: nat, accepts: Row -> bool, h: Handle)
    requires forall i :: 0 <= i < |rel| ==> k < |rel[i]|
    requires h.byIndex && h.it.next > 0 && h.it.end < |rel|
    ensures SelectAll(rel, k, accepts, h) == (Accepted(rel, accepts, h.it.start + h.it.next, h.it.end + 1), Finished)
    decreases Pending(|rel|, h)
  {
    if h.it.start + h.it.next <= h.it.end {
      var row := h.it.start + h.it.next;
      IterationYields(rel, k, accepts, h.(it := h.it.(next := h.it.next + 1), tuple := row + 1));
      var rest := Accepted(rel, accepts, row + 1, h.it.end + 1);
      assert [] + rest == rest;
    }
  }

  lemma {:induction false} AcceptedSplit(rel: seq<Row>, accepts: Row -> bool, from: nat, mid: nat, to: nat)
    requires from <= mid <= to <= |rel|
    ensures Accepted(rel, accepts, from, to) == Accepted(rel, accepts, from, mid) + Accepted(rel, accepts, mid, to)
    decreases mid - from
  {
    if from < mid {
      AcceptedSplit(rel, accepts, from + 1, mid, to);
    }
  }

  lemma {:induction false} NoneAccepted(rel: seq<Row>, accepts: Row -> bool, from: nat, to: nat)
    requires to <= |rel|
    requires forall i :: from <= i < to ==> !accepts(rel[i])
    ensures Accepted(rel, accepts, from, to) == []
    decreases |rel| - from
  {
    if from < to {
      NoneAccepted(rel, accepts, from + 1, to);
    }
  }

  /** The range contains the indexed value of every row that the predicate accepts. */
  predicate RangeSound(rel: seq<Row>, k: nat, accepts: Row -> bool, low: Long, high: Long)
    requires forall i :: 0 <= i < |rel| ==> k < |rel[i]|
  {
    forall i :: 0 <= i < |rel| && accepts(rel[i]) ==> low <= rel[i][k] <= high
  }

  /** The rows outside the cached range are all rejected. */
  lemma RangeCovers(rel: seq<Row>, k: nat, accepts: Row -> bool, low: Long, high: Long, s: nat, e: nat)
    requires forall i :: 0 <= i < |rel| ==> k < |rel[i]|
    requires Increasing(Column(rel, k)) && RangeSound(rel, k, accepts, low, high)
    requires Near(Column(rel, k), low, s) && Near(Column(rel, k), high, e)
    ensures Accepted(rel, accepts, 0, |rel|) ==
            (if accepts(rel[s]) then [s] else []) + Accepted(rel, accepts, s + 1, e + 1)
  {
    hide Increasing, RangeSound, Near, Accepted;
    RejectsOutside(rel, k, accepts, low, high, s, e);
    RowsCovered(rel, accepts, s, e);
  }

  lemma RowsCovered(rel: seq<Row>, accepts: Row -> bool, s: nat, e: nat)
    requires s < |rel| && e < |rel| && forall i :: 0 <= i < |rel| && (i < s || e < i) ==> !accepts(rel[i])
    ensures Accepted(rel, accepts, 0, |rel|) ==
            (if accepts(rel[s]) then [s] else []) + Accepted(rel, accepts, s + 1, e + 1)
  {
    AcceptedFirst(rel, accepts, s);
    hide Accepted;
    AcceptedSplit(rel, accepts, 0, s, |rel|);
    NoneAccepted(rel, accepts, 0, s);
    assert [] + Accepted(rel, accepts, s, |rel|) == Accepted(rel, accepts, s, |rel|);
    if s <= e {
      AcceptedSplit(rel, accepts, s + 1, e + 1, |rel|);
      NoneAccepted(rel, accepts, e + 1, |rel|);
      assert Accepted(rel, accepts, s + 1, e + 1) + [] == Accepted(rel, accepts, s + 1, e + 1);
    } else {
      NoneAccepted(rel, accepts, s + 1, |rel|);
      NoneAccepted(rel, accepts, s + 1, e + 1);
    }
  }

  lemma AcceptedFirst(rel: seq<Row>, accepts: Row -> bool, s: nat)
    requires s < |rel|
    ensures Accepted(rel, accepts, s, |rel|) == (if accepts(rel[s]) then [s] else []) + Accepted(rel, accepts, s + 1, |rel|)
  {
  }

  lemma RejectsOutside(rel: seq<Row>, k: nat, accepts: Row -> bool, low: Long, high: Long, s: nat, e: nat)
    requires forall i :: 0 <= i < |rel| ==> k < |rel[i]|
    requires Increasing(Column(rel, k)) && RangeSound(rel, k, accepts, low, high)
    requires Near(Column(rel, k), low, s) && Near(Column(rel, k), high, e)
    ensures s < |rel| && e < |rel|
    ensures forall i :: 0 <= i < |rel| && (i < s || e < i) ==> !accepts(rel[i])
  {
    var col := Column(rel, k);
    forall i | 0 <= i < |rel| && (i < s || e < i)
      ensures !accepts(rel[i])
    {
      assert col[i] == rel[i][k];
      if i < s {
        assert col[i] <= col[s - 1] < low;
      } else {
        assert high < col[e + 1] <= col[i];
      }
    }
  }

  /** A selection through the index, given where the two searches end. */
  lemma IndexYields(rel: seq<Row>, k: nat, accepts: Row -> bool, low: Long, high: Long)
    requires forall i :: 0 <= i < |rel| ==> k < |rel[i]|
    ensures var s := BinarySearch(Column(rel, k), low, low == high);
            var e := BinarySearch(Column(rel, k), high, low == high);
            SelectAll(rel, k, accepts, ByIndex(low, high)) ==
              if s.At? && e.At? then
                ((if accepts(rel[s.row]) then [s.row] else []) + Accepted(rel, accepts, s.row + 1, e.row + 1), Finished)
              else if s == Outside || (s.At? && e == Outside) then ([], Undefined)
              else ([], IndexError)
  {
    hide BinarySearch;
    var s := BinarySearch(Column(rel, k), low, low == high);
    var e := BinarySearch(Column(rel, k), high, low == high);
    if s.At? && e.At? {
      IterationYields(rel, k, accepts, Handle(true, s.row + 1, Iterator(low, high, 1, s.row, e.row)));
      var rest := Accepted(rel, accepts, s.row + 1, e.row + 1);
      assert [] + rest == rest;
    }
  }

  /** Index transparency. Over a strictly increasing column, selection through the index is
      undefined exactly when the relation is empty or a bound lies below its first value. In
      every other case it yields the rows of the full scan, in the same order, provided that the
      range is sound; it ends with an error instead of DB_FINISHED exactly when it looks for a
      single value that is absent. */
  lemma IndexIsTransparent(rel: seq<Row>, k: nat, accepts: Row -> bool, low: Long, high: Long)
    requires forall i :: 0 <= i < |rel| ==> k < |rel[i]|
    requires Increasing(Column(rel, k)) && RangeSound(rel, k, accepts, low, high)
    ensures var (rows, end) := SelectAll(rel, k, accepts, ByIndex(low, high));
            var (scanned, finished) := SelectAll(rel, k, accepts, Scan(low, high));
            && finished == Finished
            && (end == Undefined <==> rel == [] || low < rel[0][k] || high < rel[0][k])
            && (end != Undefined ==> rows == scanned)
            && (end == IndexError <==> rel != [] && rel[0][k] <= low && low == high && low !in Column(rel, k))
            && (end == Undefined || end == IndexError || end == Finished)
  {
    hide Increasing, BinarySearch, Near, SelectAll;
    var col := Column(rel, k);
    var exact := low == high;
    SearchResult(col, low, exact);
    SearchResult(col, high, exact);
    ScanYields(rel, k, accepts, Scan(low, high));
    IndexYields(rel, k, accepts, low, high);
    var s, e := BinarySearch(col, low, exact), BinarySearch(col, high, exact);
    if s.At? && e.At? {
      RangeCovers(rel, k, accepts, low, high, s.row, e.row);
    } else if s == Invalid {
      forall i | 0 <= i < |rel| ensures !accepts(rel[i]) { assert col[i] != low; }
      NoneAccepted(rel, accepts, 0, |rel|);
    }
  }

  /** Without strictness the index loses rows: an equality search yields at most one row, so
      it differs from the scan whenever two rows have the value. */
  lemma EqualityYieldsOneRow(rel: seq<Row>, k: nat, accepts: Row -> bool, v: Long)
    requires forall i :: 0 <= i < |rel| ==> k < |rel[i]|
    ensures |SelectAll(rel, k, accepts, ByIndex(v, v)).0| <= 1
    ensures (exists i, j :: 0 <= i < j < |rel| && accepts(rel[i]) && accepts(rel[j]))
            ==> SelectAll(rel, k, accepts, ByIndex(v, v)).0 != SelectAll(rel, k, accepts, Scan(v, v)).0
  {
    IndexYields(rel, k, accepts, v, v);
    ScanYields(rel, k, accepts, Scan(v, v));
    if i, j :| 0 <= i < j < |rel| && accepts(rel[i]) && accepts(rel[j]) {
      AcceptedSplit(rel, accepts, 0, j, |rel|);
      AcceptedSplit(rel, accepts, 0, i, j);
    }
  }
}
