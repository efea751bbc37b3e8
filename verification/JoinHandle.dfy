/** The join handle as the C code has it: two nested loops, the inner of which the next call jumps back
    into, over an iterator of the inline index that is asked for one row after another. */
module JoinHandle {
  import opened MachineWords
  import J = Join
  import S = IndexSelect
  import SelectHandle

  class Handle {
    const leftColumn: seq<Long>
    const rows: SelectHandle.Handle
    var tuple: nat
    var indexStep: bool

    ghost predicate Valid()
      reads this, rows
    {
      rows.Valid() && J.Valid(leftColumn, State())
    }

    ghost function RightColumn(): seq<Long>
      requires rows.Valid()
    {
      S.Column(rows.rel, rows.k)
    }

    ghost function State(): J.Handle
      requires rows.Valid()
      reads this, rows
    {
      J.Handle(tuple, if indexStep then J.Rows([]) else J.IteratorRows(RightColumn(), rows.State().it), indexStep)
    }

    constructor (leftColumn: seq<Long>, rows: SelectHandle.Handle)
      requires rows.Valid()
      ensures Valid() && State() == J.Fresh
      ensures this.leftColumn == leftColumn && this.rows == rows
    {
      this.leftColumn, this.rows := leftColumn, rows;
      tuple, indexStep := 0, true;
    }

    /** index_get_iterator for one value of the right column. */
    method GetIterator(v: Long)
      requires rows.Valid()
      modifies rows
      ensures rows.State().it == S.Iterator(v, v, 0, 0, 0)
    {
      rows.low, rows.high := v, v;
      rows.nextItem, rows.cachedStart, rows.cachedEnd := 0, 0, 0;
    }

    method ProcessJoin() returns (result: J.Result)
      requires Valid()
      modifies this, rows
      ensures rows.Valid()
      ensures (result, State()) == J.ProcessJoin(leftColumn, J.InlineIndex(RightColumn()), old(State()))
      ensures result.GotRow? ==> Valid()
    {
      hide S.GetNext, J.IteratorRows;
      ghost var right := RightColumn();
      ghost var index := J.InlineIndex(right);
      ghost var whole := J.ProcessJoin(leftColumn, index, State());
      var resume := !indexStep;
      if !resume {
        tuple := 0;
      }
      while true
        invariant resume ==> tuple < |leftColumn| && !indexStep
        invariant !resume ==> indexStep
        invariant whole == if resume then J.Inner(leftColumn, index, tuple, J.IteratorRows(right, rows.State().it))
                           else J.Outer(leftColumn, index, tuple)
        decreases |leftColumn| - tuple
      {
        if !resume {
          if tuple >= |leftColumn| {
            return J.Finished;
          }
          GetIterator(leftColumn[tuple]);
          indexStep := false;
        }
        assert whole == J.Inner(leftColumn, index, tuple, J.IteratorRows(right, rows.State().it));
        J.IteratorStep(right, rows.State().it);
        var probe := rows.GetNext();
        match probe {
          case Outside =>
            return J.Undefined;
          case At(row) =>
            return J.GotRow(tuple, row);
          case Invalid =>
        }
        indexStep := true;
        resume := false;
        tuple := tuple + 1;
      }
    }
  }
}
