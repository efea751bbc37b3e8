/** A SELECT query from its compiled condition to the rows it yields: range derivation, choice of
    an index, and selection through it. */
module QuerySelect {
  import opened MachineWords
  import L = LogicVm
  import D = RangeDerivation
  import E = RangeExact
  import opened IndexSelect
  import C = AqlCompiler
  import A = AqlClauses

  /** A relation with named attributes; some attributes carry an inline index. */
  datatype Relation = Relation(attributes: seq<string>, indexed: set<nat>, rows: seq<Row>)
  {
    predicate Valid() {
      && (forall i :: 0 <= i < |rows| ==> |rows[i]| == |attributes|)
      && (forall i, j :: 0 <= i < j < |attributes| ==> attributes[i] != attributes[j])
    }
  }

  /** The value of a named attribute in a row. */
  function Value(attributes: seq<string>, row: Row, n: string): Long {
    var i := L.IndexOf(attributes, n);
    if i < |row| then row[i] else 0
  }

  function RowEnv(attributes: seq<string>, row: Row): L.Env {
    n => Value(attributes, row, n)
  }

  /** The variable slots after the values of a row have been stored in them. */
  function Slots(attributes: seq<string>, names: seq<string>, row: Row): (vars: seq<Long>)
    ensures |vars| == |names|
  {
    seq(|names|, i requires 0 <= i < |names| => Value(attributes, row, names[i]))
  }

  /** The predicate check on one row: the machine must say TRUE. */
  function Check(attributes: seq<string>, names: seq<string>, code: seq<Word>): Row -> bool {
    row => L.Execute(code, Slots(attributes, names, row)) == L.True
  }

  /** Whether a derived range exists for the attribute at a position. */
  predicate HasRange(attributes: seq<string>, names: seq<string>, table: D.Table, i: nat) {
    i < |attributes| && var slot := L.IndexOf(names, attributes[i]);
    slot < |names| && slot < L.MAX_VARIABLES && table[slot].derived
  }

  /** select_index: every indexed attribute with a range replaces the previous choice, because
      the smallest range found so far is never recorded. */
  function ChooseIndex(attributes: seq<string>, indexed: set<nat>, names: seq<string>, table: D.Table, i: nat): (r: L.Option<nat>)
    requires i <= |attributes|
    ensures r.Some? ==> r.value < |attributes| && r.value in indexed && HasRange(attributes, names, table, r.value)
    decreases |attributes| - i
  {
    if i == |attributes| then L.None else
    var later := ChooseIndex(attributes, indexed, names, table, i + 1);
    if later.Some? then later
    else if i in indexed && HasRange(attributes, names, table, i) then L.Some(i)
    else L.None
  }

  /** The handle a query starts with. */
  function Prepare(rel: Relation, names: seq<string>, code: seq<Word>): (h: (Handle, nat))
    ensures h.0.byIndex ==> h.1 < |rel.attributes|
    ensures !(h.0.byIndex && h.0.it.next > 0)
  {
    var d := D.Derive(code, 0, D.Cleared);
    var choice := if d.status.IsError() then L.None
                  else ChooseIndex(rel.attributes, rel.indexed, names, d.table, 0);
    match choice
    case None => (Scan(0, 0), 0)
    case Some(k) =>
      var range := d.table[L.IndexOf(names, rel.attributes[k])];
      (ByIndex(range.min, range.max), k)
  }

  lemma SlotsAgree(attributes: seq<string>, names: seq<string>, row: Row)
    requires |names| <= 256
    ensures L.Agrees(names, Slots(attributes, names, row), RowEnv(attributes, row))
  {
  }

  lemma {:induction false} ReliableHasNoDivision(c: L.Condition, env: L.Env)
    requires D.Reliable(c)
    ensures L.Truth(c, env) == L.Some(L.TotalTruth(c, env))
  {
    match c
    case Cmp(_, _, _) =>
    case And(d, e) =>
      ReliableHasNoDivision(d, env);
      ReliableHasNoDivision(e, env);
    case Or(d, e) =>
      ReliableHasNoDivision(d, env);
      ReliableHasNoDivision(e, env);
  }

  /** For a reliable condition the check of a row is the truth of the condition on it. */
  lemma CheckIsTruth(attributes: seq<string>, names: seq<string>, code: seq<Word>, c: L.Condition, row: Row)
    requires D.Reliable(c) && L.Resolved(c, names) && |names| <= L.MAX_VARIABLES
    requires LiesAt(code, 0, L.ConditionCode(c, names))
    ensures Check(attributes, names, code)(row) <==> L.TotalTruth(c, RowEnv(attributes, row))
  {
    var env := RowEnv(attributes, row);
    SlotsAgree(attributes, names, row);
    L.RunsConditionCode(c, names, code, Slots(attributes, names, row), 0, env);
    ReliableHasNoDivision(c, env);
  }

  /** What a query comes to: the matching rows in order, and then the end. Through an index it is undefined when
      a bound lies below the first indexed value, and it ends with an error when it asks for a single
      value that is absent. */
  predicate AnswersQuery(rel: Relation, c: L.Condition, h: Handle, k: nat, r: (seq<nat>, Result))
    requires forall i :: 0 <= i < |rel.rows| ==> k < |rel.rows[i]|
  {
    if !h.byIndex then r == (Matching(rel, c, 0), Finished)
    else if rel.rows == [] || h.it.low < rel.rows[0][k] || h.it.high < rel.rows[0][k] then r.1 == Undefined
    else r == (Matching(rel, c, 0),
               if h.it.low == h.it.high && h.it.low !in Column(rel.rows, k) then IndexError else Finished)
  }

  /** End to end: for a reliable condition, a query answers with the rows on which the condition is true,
      in order, whether or not an index is used, as long as the column of the chosen index is strictly
      increasing and, when there is one, starts at or below both bounds of the derived range. */
  lemma QueryIsTransparent(rel: Relation, names: seq<string>, code: seq<Word>, c: L.Condition)
    requires rel.Valid() && |names| <= L.MAX_VARIABLES && |rel.attributes| > 0
    requires D.Reliable(c) && L.Resolved(c, names) && LiesAt(code, 0, L.ConditionCode(c, names))
    ensures Prepare(rel, names, code).1 < |rel.attributes|
    ensures var (h, k) := Prepare(rel, names, code);
            (h.byIndex ==> Increasing(Column(rel.rows, k)))
            ==> AnswersQuery(rel, c, h, k, SelectAll(rel.rows, k, Check(rel.attributes, names, code), h))
  {
    hide Prepare, Check, Increasing, D.Reliable, L.Resolved, LiesAt, L.ConditionCode, SelectAll, RangeSound, AnswersQuery, Accepted;
    var (h, k) := Prepare(rel, names, code);
    var accepts := Check(rel.attributes, names, code);
    PreparedHandle(rel, names, code);
    MatchingIsAccepted(rel, names, code, c, 0);
    if h.byIndex {
      RangeIsSound(rel, names, code, c);
      if Increasing(Column(rel.rows, k)) {
        IndexAnswers(rel, c, k, accepts, h.it.low, h.it.high);
      }
    } else {
      ScanAnswers(rel, c, k, accepts);
    }
  }

  lemma IndexAnswers(rel: Relation, c: L.Condition, k: nat, accepts: Row -> bool, low: Long, high: Long)
    requires forall i :: 0 <= i < |rel.rows| ==> k < |rel.rows[i]|
    requires Increasing(Column(rel.rows, k)) && RangeSound(rel.rows, k, accepts, low, high)
    requires Matching(rel, c, 0) == Accepted(rel.rows, accepts, 0, |rel.rows|)
    ensures AnswersQuery(rel, c, ByIndex(low, high), k, SelectAll(rel.rows, k, accepts, ByIndex(low, high)))
  {
    hide Increasing, RangeSound, SelectAll, Accepted, Matching;
    IndexIsTransparent(rel.rows, k, accepts, low, high);
    ScanYields(rel.rows, k, accepts, Scan(low, high));
  }

  lemma ScanAnswers(rel: Relation, c: L.Condition, k: nat, accepts: Row -> bool)
    requires forall i :: 0 <= i < |rel.rows| ==> k < |rel.rows[i]|
    requires Matching(rel, c, 0) == Accepted(rel.rows, accepts, 0, |rel.rows|)
    ensures AnswersQuery(rel, c, Scan(0, 0), k, SelectAll(rel.rows, k, accepts, Scan(0, 0)))
  {
    hide SelectAll, Accepted, Matching;
    ScanYields(rel.rows, k, accepts, Scan(0, 0));
  }

  lemma PreparedHandle(rel: Relation, names: seq<string>, code: seq<Word>)
    ensures var (h, k) := Prepare(rel, names, code);
            if h.byIndex then k < |rel.attributes| && h == ByIndex(h.it.low, h.it.high) else k == 0 && h == Scan(0, 0)
  {
  }

  /** From the text of the clause on: the same for the code that the compiler leaves for a
      clause whose condition is reliable. */
  lemma ClauseQueryIsTransparent(rel: Relation, clause: C.Clause, ts: seq<C.Token>, size: nat)
    requires rel.Valid() && |rel.attributes| > 0
    requires A.ClauseStartsInput(clause, ts) && A.SimpleClause(clause) && D.Reliable(A.ClauseCondition(clause))
    requires |A.Distinct(A.ClauseIdentifiers(clause))| <= L.MAX_VARIABLES
    requires |C.ClauseCode(clause, C.ClauseNames([], clause))| < size
    ensures var p := C.ParseWhere(ts, 0, C.Reset(size)).p;
            Prepare(rel, p.names, p.code).1 < |rel.attributes|
    ensures var p := C.ParseWhere(ts, 0, C.Reset(size)).p;
            var (h, k) := Prepare(rel, p.names, p.code);
            (h.byIndex ==> Increasing(Column(rel.rows, k)))
            ==> AnswersQuery(rel, A.ClauseCondition(clause), h, k,
                             SelectAll(rel.rows, k, Check(rel.attributes, p.names, p.code), h))
  {
    hide C.ParseWhere, Prepare, SelectAll, Check, AnswersQuery, Increasing;
    A.CompilesClause(clause, ts, size);
    A.SlotsSuffice(clause);
    var p := C.ParseWhere(ts, 0, C.Reset(size)).p;
    A.ClauseCodeIsPrefix(clause, p.names);
    var words := L.ConditionCode(A.ClauseCondition(clause), p.names);
    assert forall i :: 0 <= i < |words| ==> words[i] == p.code[..p.end][i] == p.code[0 + i];
    QueryIsTransparent(rel, p.names, p.code, A.ClauseCondition(clause));
  }

  /** The rows from `from` on that satisfy the condition. */
  function Matching(rel: Relation, c: L.Condition, from: nat): seq<nat>
    requires from <= |rel.rows|
    decreases |rel.rows| - from
  {
    if from == |rel.rows| then []
    else (if L.TotalTruth(c, RowEnv(rel.attributes, rel.rows[from])) then [from] else []) + Matching(rel, c, from + 1)
  }

  lemma {:induction false} MatchingIsAccepted(rel: Relation, names: seq<string>, code: seq<Word>, c: L.Condition, from: nat)
    requires D.Reliable(c) && L.Resolved(c, names) && |names| <= L.MAX_VARIABLES
    requires LiesAt(code, 0, L.ConditionCode(c, names)) && from <= |rel.rows|
    ensures Matching(rel, c, from) == Accepted(rel.rows, Check(rel.attributes, names, code), from, |rel.rows|)
    decreases |rel.rows| - from
  {
    if from < |rel.rows| {
      CheckIsTruth(rel.attributes, names, code, c, rel.rows[from]);
      MatchingIsAccepted(rel, names, code, c, from + 1);
    }
  }

  /** The range chosen for the index contains the indexed value of every matching row. */
  lemma RangeIsSound(rel: Relation, names: seq<string>, code: seq<Word>, c: L.Condition)
    requires rel.Valid() && |names| <= L.MAX_VARIABLES
    requires D.Reliable(c) && L.Resolved(c, names) && LiesAt(code, 0, L.ConditionCode(c, names))
    requires Prepare(rel, names, code).0.byIndex
    ensures var (h, k) := Prepare(rel, names, code);
            RangeSound(rel.rows, k, Check(rel.attributes, names, code), h.it.low, h.it.high)
  {
    var (h, k) := Prepare(rel, names, code);
    var accepts := Check(rel.attributes, names, code);
    var n := rel.attributes[k];
    D.DerivesRanges(c, names, code, 0);
    D.ReliableAccepted(c, names);
    AttributeSlot(rel, k);
    assert h.it.low == D.RangesOf(c, names)[L.IndexOf(names, n)].min;
    assert h.it.high == D.RangesOf(c, names)[L.IndexOf(names, n)].max;
    hide D.Derive, D.RangesOf, Prepare, L.ConditionCode, Check, LiesAt;
    forall i | 0 <= i < |rel.rows| && accepts(rel.rows[i])
      ensures h.it.low <= rel.rows[i][k] <= h.it.high
    {
      CheckIsTruth(rel.attributes, names, code, c, rel.rows[i]);
      D.ReliableRanges(c, names, RowEnv(rel.attributes, rel.rows[i]), n);
    }
  }

  /** An attribute that has an index and that the condition constrains. */
  predicate Searchable(rel: Relation, c: L.Condition, i: nat) {
    i < |rel.attributes| && i in rel.indexed && rel.attributes[i] in D.Constrained(c)
  }

  /** An index is used exactly when some indexed attribute is constrained; it is then the index of the last
      such attribute, and, for a condition without OR, the values searched are exactly those that satisfy
      every comparison on the attribute. */
  lemma IndexIsChosen(rel: Relation, names: seq<string>, code: seq<Word>, c: L.Condition)
    requires rel.Valid() && |names| <= L.MAX_VARIABLES
    requires D.Reliable(c) && L.Resolved(c, names) && LiesAt(code, 0, L.ConditionCode(c, names))
    ensures var (h, k) := Prepare(rel, names, code);
            && (h.byIndex <==> exists i :: Searchable(rel, c, i))
            && (h.byIndex ==> Searchable(rel, c, k) && forall i :: k < i ==> !Searchable(rel, c, i))
            && (h.byIndex && E.Conjunctive(c) ==>
                  forall x: Long :: h.it.low <= x <= h.it.high <==> E.Meets(c, rel.attributes[k], x))
  {
    hide D.Derive, D.RangesOf, L.ConditionCode, LiesAt, L.IndexOf, D.Constrained, D.Reliable, L.Resolved;
    var d := D.Derive(code, 0, D.Cleared);
    D.DerivesRanges(c, names, code, 0);
    D.ReliableAccepted(c, names);
    forall i | 0 <= i < |rel.attributes|
      ensures HasRange(rel.attributes, names, d.table, i) <==> rel.attributes[i] in D.Constrained(c)
    {
      RangeIsConstrained(rel.attributes, names, c, i);
    }
    ChoosesLast(rel, names, d.table, c, 0);
    var (h, k) := Prepare(rel, names, code);
    if h.byIndex {
      RangeIsConstrained(rel.attributes, names, c, k);
      if E.Conjunctive(c) {
        forall x: Long
          ensures h.it.low <= x <= h.it.high <==> E.Meets(c, rel.attributes[k], x)
        {
          E.ConjunctionIsExact(c, names, rel.attributes[k], x);
        }
      }
    }
  }

  lemma RangeIsConstrained(attributes: seq<string>, names: seq<string>, c: L.Condition, i: nat)
    requires |names| <= L.MAX_VARIABLES && i < |attributes|
    requires D.Reliable(c) && L.Resolved(c, names) && D.Accepted(c, names)
    ensures HasRange(attributes, names, D.RangesOf(c, names), i) <==> attributes[i] in D.Constrained(c)
    ensures attributes[i] in D.Constrained(c) ==> attributes[i] in names
  {
    var env: L.Env := _ => 0;
    ConstrainedAreNamed(c, names);
    if attributes[i] in names {
      D.ReliableRanges(c, names, env, attributes[i]);
    }
  }

  lemma {:induction false} ConstrainedAreNamed(c: L.Condition, names: seq<string>)
    requires L.Resolved(c, names)
    ensures D.Reliable(c) ==> forall n :: n in D.Constrained(c) ==> n in names
  {
    match c
    case Cmp(_, _, _) =>
    case Not(_) =>
    case And(d, e) =>
      ConstrainedAreNamed(d, names);
      ConstrainedAreNamed(e, names);
    case Or(d, e) =>
      ConstrainedAreNamed(d, names);
      ConstrainedAreNamed(e, names);
  }

  lemma {:induction false} ChoosesLast(rel: Relation, names: seq<string>, table: D.Table, c: L.Condition, i: nat)
    requires i <= |rel.attributes|
    requires forall j :: i <= j < |rel.attributes| ==>
      (HasRange(rel.attributes, names, table, j) <==> rel.attributes[j] in D.Constrained(c))
    ensures var r := ChooseIndex(rel.attributes, rel.indexed, names, table, i);
            && (r.Some? <==> exists j :: i <= j && Searchable(rel, c, j))
            && (r.Some? ==> i <= r.value && Searchable(rel, c, r.value) && forall j :: r.value < j ==> !Searchable(rel, c, j))
    decreases |rel.attributes| - i
  {
    hide D.Constrained;
    if i < |rel.attributes| {
      ChoosesLast(rel, names, table, c, i + 1);
      assert Searchable(rel, c, i) <==> i in rel.indexed && HasRange(rel.attributes, names, table, i);
      hide HasRange;
    }
  }

  lemma AttributeSlot(rel: Relation, k: nat)
    requires rel.Valid() && k < |rel.attributes|
    ensures forall i :: 0 <= i < |rel.rows| ==> RowEnv(rel.attributes, rel.rows[i])(rel.attributes[k]) == rel.rows[i][k]
  {
    var i := L.IndexOf(rel.attributes, rel.attributes[k]);
    assert rel.attributes[i] == rel.attributes[k];
    assert i == k;
  }
}
