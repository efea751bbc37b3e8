/** The selection handle as the C code has it, with the iterator and the cached row range that
    repeated calls advance. */
module SelectHandle {
  import opened MachineWords
  import S = IndexSelect
  import L = LogicVm
  import D = RangeDerivation
  import Q = QuerySelect

  class Handle {
    const rel: seq<S.Row>
    const k: nat
    const accepts: S.Row -> bool
    var byIndex: bool
    var tuple: nat
    var low: Long
    var high: Long
    var nextItem: nat
    var cachedStart: nat
    var cachedEnd: nat

    ghost predicate Valid() {
      forall i :: 0 <= i < |rel| ==> k < |rel[i]|
    }

    ghost function State(): S.Handle
      reads this
    {
      S.Handle(byIndex, tuple, S.Iterator(low, high, nextItem, cachedStart, cachedEnd))
    }

    constructor (rel: seq<S.Row>, k: nat, accepts: S.Row -> bool)
      requires forall i :: 0 <= i < |rel| ==> k < |rel[i]|
      ensures Valid() && State() == S.Scan(0, 0)
      ensures this.rel == rel && this.k == k && this.accepts == accepts
    {
      this.rel, this.k, this.accepts := rel, k, accepts;
      byIndex, tuple, low, high, nextItem, cachedStart, cachedEnd := false, 0, 0, 0, 0, 0, 0;
    }

    /** The indexed attribute's value in a row. */
    method GetValue(row: nat) returns (v: Long)
      requires Valid() && row < |rel|
      ensures v == S.Column(rel, k)[row]
    {
      v := rel[row][k];
    }

    method BinarySearch(target: Long, exact: bool) returns (r: S.Probe)
      requires Valid()
      ensures r == S.BinarySearch(S.Column(rel, k), target, exact)
    {
      ghost var col := S.Column(rel, k);
      if |rel| == 0 {
        return S.Outside;
      }
      ghost var whole := S.SearchFrom(col, target, 0, |col| - 1);
      assert S.BinarySearch(col, target, exact) ==
        if exact && whole.At? && col[whole.row] != target then S.Invalid else whole;
      hide S.SearchFrom, S.Column, S.BinarySearch;
      var min, max: int := 0, |rel| - 1;
      var center: nat, value: Long := 0, 0;
      assert S.Searching(col, target, min, max, whole);
      hide S.Searching;
      while true
        invariant 0 <= min <= max < |rel|
        invariant S.Searching(col, target, min, max, whole)
        decreases max - min
      {
        center := min + (max - min) / 2;
        S.ProbeStep(col, target, min, max, center, whole);
        value := GetValue(center);
        if target > value {
          min := center + 1;
        } else if center == 0 && target != value {
          return S.Outside;  // the upper bound wraps around and the next probe leaves the relation
        } else {
          max := center - 1;
        }
        if min > max || target == value {
          break;
        }
      }
      if exact && target != value {
        return S.Invalid;
      }
      return S.At(center);
    }

    method RangeSearch() returns (start: S.Probe, end: S.Probe)
      requires Valid()
      ensures start == S.BinarySearch(S.Column(rel, k), low, low == high)
      ensures start.At? ==> end == S.BinarySearch(S.Column(rel, k), high, low == high)
      ensures !start.At? ==> end == start
    {
      var exact := low == high;
      start := BinarySearch(low, exact);
      if !start.At? {
        return start, start;
      }
      end := BinarySearch(high, exact);
    }

    method GetNext() returns (r: S.Probe)
      requires Valid()
      modifies this`nextItem, this`cachedStart, this`cachedEnd
      ensures (r, State().it) == S.GetNext(S.Column(rel, k), old(State().it))
    {
      if nextItem == 0 {
        var start, end := RangeSearch();
        if start == S.Outside || end == S.Outside {
          return S.Outside;
        }
        if !start.At? || !end.At? {
          cachedStart, cachedEnd := 0, 0;
          return S.Invalid;
        }
        cachedStart, cachedEnd := start.row, end.row;
        nextItem := nextItem + 1;
        return start;
      } else if cachedStart + nextItem <= cachedEnd {
        nextItem := nextItem + 1;
        return S.At(cachedStart + nextItem - 1);
      }
      return S.Invalid;
    }

    method ProcessSelect() returns (result: S.Result)
      requires Valid()
      modifies this
      ensures (result, State()) == S.ProcessSelect(rel, k, accepts, old(State()))
    {
      if byIndex {
        var probe := GetNext();
        match probe
        case Outside => return S.Undefined;
        case Invalid =>
          if nextItem == 0 {
            return S.IndexError;
          }
          return S.Finished;
        case At(row) => tuple := row;
      }
      var row := tuple;
      tuple := tuple + 1;
      if row >= |rel| {
        return S.Finished;
      }
      if accepts(rel[row]) {
        return S.GotRow(row);
      }
      return S.Skipped;
    }

    /** select_index over the attributes of the relation, in their order. */
    method SelectIndex(attributes: seq<string>, indexed: set<nat>, names: seq<string>, table: D.Table) returns (chosen: L.Option<nat>)
      modifies this`byIndex, this`low, this`high
      ensures chosen == Q.ChooseIndex(attributes, indexed, names, table, 0)
      ensures match chosen
              case None => State() == old(State())
              case Some(i) =>
                var range := table[L.IndexOf(names, attributes[i])];
                byIndex && low == range.min && high == range.max
    {
      chosen := L.None;
      var min, max: Long := 0, 0;
      for i := 0 to |attributes|
        invariant Q.ChooseIndex(attributes, indexed, names, table, 0) ==
            var later := Q.ChooseIndex(attributes, indexed, names, table, i);
            if later.Some? then later else chosen
        invariant chosen.Some? ==> chosen.value < i && Q.HasRange(attributes, names, table, chosen.value)
        invariant chosen.Some? ==> min == table[L.IndexOf(names, attributes[chosen.value])].min
        invariant chosen.Some? ==> max == table[L.IndexOf(names, attributes[chosen.value])].max
      {
        var slot := L.IndexOf(names, attributes[i]);
        if i in indexed && slot < |names| && slot < L.MAX_VARIABLES && table[slot].derived {
          chosen, min, max := L.Some(i), table[slot].min, table[slot].max;
        }
      }
      if chosen.Some? {
        byIndex, low, high := true, min, max;
      }
    }
  }
}
