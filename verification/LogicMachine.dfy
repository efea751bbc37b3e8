/** The logic machine as the C code has it: one instance whose code buffer, end, instruction
    pointer and error flag are updated in place, with its table of variables. Each method is
    tied to the function of LogicVm, AqlCompiler or RangeDerivation that specifies it. */
module LogicMachine {
  import opened MachineWords
  import opened LogicVm
  import C = AqlCompiler
  import D = RangeDerivation

  class Machine {
    const code: array<Word>
    var end: nat
    var ip: nat
    var error: bool
    var fault: bool
    var names: seq<string>
    var values: seq<Long>
    var derivations: D.Table

    ghost predicate Valid()
      reads this
    {
      end <= code.Length && ip <= code.Length && |values| == MAX_VARIABLES
    }

    /** The program under construction. */
    ghost function Program(): C.Program
      reads this, code
    {
      C.Program(code[..], end, error, fault, names)
    }

    /** lvm_reset on a buffer of `size` words. */
    constructor (size: nat)
      ensures Valid() && fresh(code) && ip == 0
      ensures Program() == C.Reset(size) && derivations == D.Cleared
    {
      code := new Word[size](_ => 0);
      end, ip, error, fault, names := 0, 0, false, false, [];
      values := seq(MAX_VARIABLES, _ => 0);
      derivations := D.Cleared;
      new;
      assert code[..] == seq(size, i => 0);
    }

    // -------------------------------------------------------- emitting code

    /** Stores words at the end of the code, one at a time. */
    method Store(words: seq<Word>)
      requires Valid()
      modifies this`end, this`fault, code
      ensures Valid() && Program() == C.Emit(old(Program()), words)
    {
      if end + |words| > code.Length {
        fault := true;
        return;
      }
      hide C.Blit;
      ghost var start := end;
      C.BlitNothing(code[..], start, words[..0]);
      for i := 0 to |words|
        invariant end == start + i <= code.Length
        invariant fault == old(fault)
        invariant code[..] == C.Blit(old(code[..]), start, words[..i])
      {
        C.BlitMore(old(code[..]), start, words, i);
        ghost var before := code[..];
        code[end] := words[i];
        assert code[..] == before[end := words[i]];
        end := end + 1;
      }
      assert words[..|words|] == words;
    }

    method JumpToOperand() returns (oldEnd: nat)
      requires Valid()
      modifies this`end, this`error
      ensures Valid() && oldEnd == old(end) && Program() == C.JumpToOperand(old(Program()))
    {
      oldEnd := end;
      end := end + 2;
      if end >= code.Length {
        error := true;
        end := oldEnd;
      }
    }

    /** The overlapping move of lvm_shift_for_operator, from the highest word down. */
    method ShiftForOperator(at: nat) returns (newEnd: nat)
      requires Valid()
      modifies this`end, this`error, this`fault, code
      ensures Valid() && (Program(), newEnd) == C.ShiftForOperator(old(Program()), at)
    {
      if end + 1 > code.Length || at >= end {
        error := true;
        return 0;
      }
      newEnd := end + 2;
      if end + 2 > code.Length {
        fault := true;
        end := at;
        return;
      }
      ghost var before := code[..];
      var i := end;
      while i > at
        invariant end == old(end) && error == old(error) && fault == old(fault) && at <= i <= end
        invariant forall k :: 0 <= k < code.Length && !(i + 2 <= k < end + 2) ==> code[k] == before[k]
        invariant forall k :: i + 2 <= k < end + 2 ==> code[k] == before[k - 2]
      {
        i := i - 1;
        code[i + 2] := code[i];
      }
      assert code[..] == C.Blit(before, at + 2, before[at..end]);
      end := at;
    }

    method SetEnd(newEnd: nat) returns (oldEnd: nat)
      requires Valid()
      modifies this`end, this`error
      ensures Valid() && oldEnd == old(end) && Program() == C.SetEnd(old(Program()), newEnd)
    {
      oldEnd := end;
      if newEnd >= code.Length {
        error := true;
        return;
      }
      end := newEnd;
    }

    /** lvm_register_variable and lvm_set_variable for an identifier in an operand. */
    method SetVariable(name: string)
      requires Valid()
      modifies this`end, this`fault, this`names, code
      ensures Valid() && Program() == C.EmitVariable(old(Program()), name)
    {
      names := C.Register(names, name);
      var id := IndexOf(names, name);
      if id < |names| && id < MAX_VARIABLES {
        Store(OperandCode(VARIABLE, id));
      }
    }

    // ------------------------------------------------------------ execution

    method GetWord() returns (inside: bool, w: Word)
      requires Valid()
      modifies this`ip
      ensures Valid()
      ensures inside <==> old(ip) < code.Length
      ensures inside ==> ip == old(ip) + 1 && w == code[old(ip)]
      ensures !inside ==> ip == old(ip)
    {
      inside, w := ip < code.Length, 0;
      if inside {
        w := code[ip];
        ip := ip + 1;
      }
    }

    method GetOperand() returns (status: Status, value: Long)
      requires Valid() && ip + 2 <= code.Length
      modifies this`ip
      ensures Valid()
      ensures var r := OperandValue(code[..], values, old(ip)); status == r.status && value == r.value && ip == r.ip
    {
      var kind, w := code[ip], code[ip + 1];
      ip := ip + 2;
      if kind == LONG {
        return True, WordToLong(w);
      }
      if kind == VARIABLE {
        var id := VariableId(w);
        if id < |values| {
          return True, values[id];
        }
        return Fault, 0;
      }
      return True, 0;
    }

    /** One argument of an operator, as the loops of eval_expr and eval_logic read it. */
    method EvalTerm() returns (status: Status, value: Long)
      requires Valid()
      modifies this`ip
      ensures Valid()
      ensures var r := RunTerm(code[..], values, old(ip));
              status == r.status && ip == r.ip && (!status.IsError() ==> value == r.value)
      decreases code.Length - ip, 0
    {
      var inside, kind := GetWord();
      if !inside {
        return Fault, 0;
      }
      if kind == ARITH_OP {
        var found, op := GetWord();
        if !found {
          return Fault, 0;
        }
        status, value := EvalExpr(op);
      } else if kind == OPERAND {
        if ip + 2 > code.Length {
          return Fault, 0;
        }
        status, value := GetOperand();
      } else {
        return SemanticError, 0;
      }
    }

    method EvalExpr(op: Word) returns (status: Status, value: Long)
      requires Valid()
      modifies this`ip
      ensures Valid()
      ensures var r := RunArithmetic(code[..], values, op, old(ip));
              status == r.status && ip == r.ip && (!status.IsError() ==> value == r.value)
      decreases code.Length - ip, 1
    {
      ghost var start := ip;
      var operands: seq<Long> := [0, 0];
      for i := 0 to 2
        invariant Valid() && |operands| == 2 && start <= ip
        invariant i == 0 ==> ip == start
        invariant i >= 1 ==> var r := RunTerm(code[..], values, start); !r.status.IsError() && r.value == operands[0]
        invariant i == 1 ==> ip == RunTerm(code[..], values, start).ip
        invariant i == 2 ==>
                    var l := RunTerm(code[..], values, start);
                    var r := RunTerm(code[..], values, l.ip);
                    !r.status.IsError() && r.value == operands[1] && ip == r.ip
      {
        var s, v := EvalTerm();
        if s.IsError() {
          return s, 0;
        }
        operands := operands[i := v];
      }
      var r := Arithmetic(op, operands[0], operands[1]);
      return r.status, r.value;
    }

    method EvalLogic(op: Word) returns (status: Status)
      requires Valid()
      modifies this`ip
      ensures Valid()
      ensures var r := RunLogic(code[..], values, op, old(ip)); status == r.status && ip == r.ip
      decreases code.Length - ip, 1
    {
      if IsConnective(op) {
        var left := EvalCondition();
        if left.IsError() {
          return left;
        }
        if op == NOT {
          return Verdict(left != True);
        }
        var right := EvalCondition();
        if right.IsError() {
          return right;
        }
        if op == AND {
          return Verdict(left == True && right == True);
        }
        return Verdict(left == True || right == True);
      }
      var left, a := EvalTerm();
      if left.IsError() {
        return left;
      }
      var right, b := EvalTerm();
      if right.IsError() {
        return right;
      }
      return Compare(op, a, b);
    }

    /** An argument of a connective: a relational operator and its arguments. */
    method EvalCondition() returns (status: Status)
      requires Valid()
      modifies this`ip
      ensures Valid()
      ensures var r := RunCondition(code[..], values, old(ip)); status == r.status && ip == r.ip
      decreases code.Length - ip, 0
    {
      var inside, kind := GetWord();
      if !inside {
        return Fault;
      }
      if kind != CMP_OP {
        return SemanticError;
      }
      var found, op := GetWord();
      if !found {
        return Fault;
      }
      status := EvalLogic(op);
    }

    method Execute() returns (status: Status)
      requires Valid()
      modifies this`ip
      ensures Valid() && status == LogicVm.Execute(code[..], values)
    {
      ip := 0;
      if code.Length > 0 && code[0] != CMP_OP {
        return ExecutionError;
      }
      status := EvalCondition();
    }

    method SetVariableValue(name: string, value: Long) returns (status: Status)
      requires Valid() && |names| <= MAX_VARIABLES
      modifies this`values
      ensures Valid()
      ensures status == if name in names then True else InvalidIdentifier
      ensures name in names ==> values == old(values)[IndexOf(names, name) := value]
      ensures name !in names ==> values == old(values)
    {
      var id := IndexOf(names, name);
      if id >= |names| {
        return InvalidIdentifier;
      }
      values := values[id := value];
      return True;
    }

    // ----------------------------------------------------------- derivation

    /** derive_relation into a caller's table, here passed and returned by value. */
    method DeriveRelation(table: D.Table) returns (status: Status, ranges: D.Table)
      requires Valid()
      modifies this`ip
      ensures Valid()
      ensures D.Derived(status, ip, ranges) == D.Derive(code[..], old(ip), table)
      decreases code.Length - ip
    {
      if ip + 2 > code.Length {
        return Fault, table;
      }
      var op := code[ip + 1];
      ip := ip + 2;
      if IsConnective(op) {
        if op != AND && op != OR {
          return DerivationError, table;
        }
        var s1, d1 := DeriveRelation(D.Cleared);
        if s1.IsError() {
          return if s1.Fault? then Fault else DerivationError, table;
        }
        var s2, d2 := DeriveRelation(D.Cleared);
        if s2.IsError() {
          return if s2.Fault? then Fault else DerivationError, table;
        }
        if op == AND {
          ranges := CreateIntersection(table, d1, d2);
        } else {
          ranges := CreateUnion(table, d1, d2);
        }
        return True, ranges;
      }
      status, ranges := DeriveComparison(op, table);
    }

    method DeriveComparison(op: Word, table: D.Table) returns (status: Status, ranges: D.Table)
      requires Valid()
      modifies this`ip
      ensures Valid()
      ensures D.Derived(status, ip, ranges) == D.DeriveComparison(code[..], op, old(ip), table)
    {
      ranges := table;
      var kinds: seq<Word>, raw: seq<Word> := [0, 0], [0, 0];
      ghost var start := ip;
      for i := 0 to 2
        invariant Valid() && |kinds| == |raw| == 2 && ip == start + 3 * i
        invariant forall k :: 0 <= k < i ==>
                    && start + 3 * k + 2 < code.Length
                    && code[start + 3 * k] == OPERAND
                    && kinds[k] == code[start + 3 * k + 1] && raw[k] == code[start + 3 * k + 2]
      {
        var inside, node := GetWord();
        if !inside {
          return Fault, table;
        }
        if node != OPERAND {
          return DerivationError, table;
        }
        if ip + 2 > code.Length {
          return Fault, table;
        }
        kinds, raw := kinds[i := code[ip]], raw[i := code[ip + 1]];
        ip := ip + 2;
      }
      if kinds[0] == VARIABLE && kinds[1] == VARIABLE {
        return DerivationError, table;
      }
      var id, value;
      if kinds[0] == VARIABLE {
        id, value := VariableId(raw[0]), WordToLong(raw[1]);
      } else {
        id, value := VariableId(raw[1]), WordToLong(raw[0]);
      }
      if id >= MAX_VARIABLES {
        return DerivationError, table;
      }
      match D.RangeFor(op, value)
      case Some(range) =>
        return True, table[id := range];
      case None =>
        return DerivationError, table[id := D.Derivation(LONG_MIN, LONG_MAX, table[id].derived)];
    }

    static method CreateIntersection(result: D.Table, d1: D.Table, d2: D.Table) returns (r: D.Table)
      ensures r == D.Intersect(result, d1, d2)
    {
      r := result;
      for i := 0 to MAX_VARIABLES
        invariant forall k :: 0 <= k < i ==> r[k] == D.IntersectSlot(result[k], d1[k], d2[k])
        invariant forall k :: i <= k < MAX_VARIABLES ==> r[k] == result[k]
      {
        if !d1[i].derived && !d2[i].derived {
          continue;
        } else if d1[i].derived && !d2[i].derived {
          r := r[i := D.Derivation(d1[i].min, d1[i].max, true)];
        } else if !d1[i].derived && d2[i].derived {
          r := r[i := D.Derivation(d2[i].min, d2[i].max, true)];
        } else {
          r := r[i := D.Derivation(if d1[i].min > d2[i].min then d1[i].min else d2[i].min,
                                   if d1[i].max < d2[i].max then d1[i].max else d2[i].max, true)];
        }
      }
    }

    static method CreateUnion(result: D.Table, d1: D.Table, d2: D.Table) returns (r: D.Table)
      ensures r == D.Unite(result, d1, d2)
    {
      r := result;
      for i := 0 to MAX_VARIABLES
        invariant forall k :: 0 <= k < i ==> r[k] == D.UniteSlot(result[k], d1[k], d2[k])
        invariant forall k :: i <= k < MAX_VARIABLES ==> r[k] == result[k]
      {
        if !d1[i].derived && !d2[i].derived {
          continue;
        } else if d1[i].derived && !d2[i].derived {
          r := r[i := D.Derivation(d1[i].min, d1[i].max, true)];
        } else if !d1[i].derived && d2[i].derived {
          r := r[i := D.Derivation(d2[i].min, d2[i].max, true)];
        } else {
          r := r[i := D.Derivation(if d1[i].min > d2[i].min then d2[i].min else d1[i].min,
                                   if d1[i].max < d2[i].max then d2[i].max else d1[i].max, true)];
        }
      }
    }

    /** lvm_derive starts where the instruction pointer is; a fresh program has it at 0. */
    method DeriveRanges() returns (status: Status)
      requires Valid()
      modifies this`ip, this`derivations
      ensures Valid()
      ensures D.Derived(status, ip, derivations) == D.Derive(code[..], old(ip), old(derivations))
    {
      status, derivations := DeriveRelation(derivations);
    }

    method GetDerivedRange(name: string) returns (status: Status, range: D.Derivation)
      requires Valid() && |names| <= MAX_VARIABLES
      ensures status == if name !in names then InvalidIdentifier
                        else if derivations[IndexOf(names, name)].derived then True else DerivationError
      ensures status == True ==> range == derivations[IndexOf(names, name)]
    {
      range := D.Derivation(0, 0, false);
      var id := IndexOf(names, name);
      if id >= |names| {
        return InvalidIdentifier, range;
      }
      if derivations[id].derived {
        return True, derivations[id];
      }
      return DerivationError, range;
    }
  }
}
