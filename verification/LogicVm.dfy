/** The logic virtual machine of the Antelope database: the prefix bytecode it runs
    and the meaning of the conditions that bytecode stands for. */
module LogicVm {
  import opened MachineWords

  // Node types and operators, with the numeric values of lvm.h.
  const ARITH_OP: Word := 0x10
  const OPERAND: Word := 0x20
  const CMP_OP: Word := 0x40

  const VARIABLE: Word := 0
  const LONG: Word := 2

  const NOT: Word := 0x83
  const AND: Word := 0x81
  const OR: Word := 0x82

  /** The number of variable slots. */
  const MAX_VARIABLES: nat := 4

  datatype Status =
    | False | True | InvalidIdentifier | SemanticError | MathError
    | ExecutionError | DerivationError
    | Fault  // C would read or write outside the buffer, which has no defined result
  {
    predicate IsError() { !False? && !True? }
  }

  function Verdict(b: bool): Status { if b then True else False }

  datatype ArithOp = Add | Sub | Mul | Div

  datatype Relation = Eq | Neq | Ge | Geq | Le | Leq

  function ArithCode(op: ArithOp): Word {
    match op case Add => 0x11 case Sub => 0x12 case Mul => 0x13 case Div => 0x14
  }

  function RelationCode(rel: Relation): Word {
    match rel
    case Eq => 0x41 case Neq => 0x42 case Ge => 0x43
    case Geq => 0x44 case Le => 0x45 case Leq => 0x46
  }

  // ---------------------------------------------------------------- execution

  /** The state a step of the machine ends in: a status, the value it computed and
      the instruction pointer. */
  datatype Outcome = Outcome(status: Status, value: Long, ip: nat)

  /** The numeric value of the operand stored at `at`. */
  function OperandValue(code: seq<Word>, vars: seq<Long>, at: nat): Outcome
    requires at + 2 <= |code|
  {
    if code[at] == LONG then Outcome(True, WordToLong(code[at + 1]), at + 2)
    else if code[at] == VARIABLE then
      var id := VariableId(code[at + 1]);
      if id < |vars| then Outcome(True, vars[id], at + 2) else Outcome(Fault, 0, at + 2)
    else Outcome(True, 0, at + 2)
  }

  /** A variable operand keeps its slot number in the low byte of the value word. */
  function VariableId(w: Word): Byte { w % 256 }

  function Arithmetic(op: Word, a: Long, b: Long): Outcome {
    if op == ArithCode(Add) then Outcome(True, WrapLong(a + b), 0)
    else if op == ArithCode(Sub) then Outcome(True, WrapLong(a - b), 0)
    else if op == ArithCode(Mul) then Outcome(True, WrapLong(a * b), 0)
    else if op == ArithCode(Div) then
      if b == 0 then Outcome(MathError, 0, 0) else Outcome(True, WrapLong(TruncatedDivision(a, b)), 0)
    else Outcome(ExecutionError, 0, 0)
  }

  /** Reads one argument of an operator: an operand or a nested arithmetic operation. */
  function RunTerm(code: seq<Word>, vars: seq<Long>, ip: nat): (r: Outcome)
    requires ip <= |code|
    ensures ip <= r.ip <= |code|
    decreases |code| - ip, 0
  {
    if ip + 1 > |code| then Outcome(Fault, 0, ip)
    else if code[ip] == ARITH_OP then
      if ip + 2 > |code| then Outcome(Fault, 0, ip + 1)
      else RunArithmetic(code, vars, code[ip + 1], ip + 2)
    else if code[ip] == OPERAND then
      if ip + 3 > |code| then Outcome(Fault, 0, ip + 1) else OperandValue(code, vars, ip + 1)
    else Outcome(SemanticError, 0, ip + 1)
  }

  function RunArithmetic(code: seq<Word>, vars: seq<Long>, op: Word, ip: nat): (r: Outcome)
    requires ip <= |code|
    ensures ip <= r.ip <= |code|
    decreases |code| - ip, 1
  {
    var left := RunTerm(code, vars, ip);
    if left.status.IsError() then left else
    var right := RunTerm(code, vars, left.ip);
    if right.status.IsError() then right else
    Arithmetic(op, left.value, right.value).(ip := right.ip)
  }

  predicate IsConnective(op: Word) { op / 0x80 % 2 == 1 }

  function Compare(op: Word, a: Long, b: Long): Status {
    if op == RelationCode(Eq) then Verdict(a == b)
    else if op == RelationCode(Neq) then Verdict(a != b)
    else if op == RelationCode(Ge) then Verdict(a > b)
    else if op == RelationCode(Geq) then Verdict(a >= b)
    else if op == RelationCode(Le) then Verdict(a < b)
    else if op == RelationCode(Leq) then Verdict(a <= b)
    else ExecutionError
  }

  /** Runs the condition whose node type and operator start at `ip`. */
  function RunCondition(code: seq<Word>, vars: seq<Long>, ip: nat): (r: Outcome)
    requires ip <= |code|
    ensures ip <= r.ip <= |code|
    decreases |code| - ip, 0
  {
    if ip + 1 > |code| then Outcome(Fault, 0, ip)
    else if code[ip] != CMP_OP then Outcome(SemanticError, 0, ip + 1)
    else if ip + 2 > |code| then Outcome(Fault, 0, ip + 1)
    else RunLogic(code, vars, code[ip + 1], ip + 2)
  }

  function RunLogic(code: seq<Word>, vars: seq<Long>, op: Word, ip: nat): (r: Outcome)
    requires ip <= |code|
    ensures ip <= r.ip <= |code|
    decreases |code| - ip, 1
  {
    if IsConnective(op) then
      var left := RunCondition(code, vars, ip);
      if left.status.IsError() then left
      else if op == NOT then Outcome(Verdict(left.status != True), 0, left.ip)
      else
        var right := RunCondition(code, vars, left.ip);
        if right.status.IsError() then right
        else if op == AND then Outcome(Verdict(left.status == True && right.status == True), 0, right.ip)
        else Outcome(Verdict(left.status == True || right.status == True), 0, right.ip)
    else
      var left := RunTerm(code, vars, ip);
      if left.status.IsError() then left else
      var right := RunTerm(code, vars, left.ip);
      if right.status.IsError() then right else
      Outcome(Compare(op, left.value, right.value), 0, right.ip)
  }

  /** A whole run. A program that does not start with a relational operator is an
      execution error. */
  function Execute(code: seq<Word>, vars: seq<Long>): Status {
    if |code| >= 1 && code[0] != CMP_OP then ExecutionError
    else RunCondition(code, vars, 0).status
  }

  /** A program that does not begin with a comparison or a connective is not run at all; so it is before any
      clause was compiled, when the buffer is cleared. */
  lemma BadStartIsError(code: seq<Word>, vars: seq<Long>)
    requires code != [] && code[0] != 0x40
    ensures Execute(code, vars) == ExecutionError
  {
  }

  // ------------------------------------------------------------------ meaning

  datatype Expr =
    | Var(name: string)
    | Const(value: Long)
    | Bin(op: ArithOp, left: Expr, right: Expr)

  datatype Condition =
    | Cmp(rel: Relation, l: Expr, r: Expr)
    | Not(c: Condition)
    | And(c1: Condition, c2: Condition)
    | Or(c1: Condition, c2: Condition)

  /** An assignment of values to variable names. */
  type Env = string -> Long

  datatype Option<+T> = None | Some(value: T)

  function Apply(op: ArithOp, a: Long, b: Long): Long
    requires op.Div? ==> b != 0
  {
    match op
    case Add => WrapLong(a + b)
    case Sub => WrapLong(a - b)
    case Mul => WrapLong(a * b)
    case Div => WrapLong(TruncatedDivision(a, b))
  }

  /** Arithmetic of 32-bit integers: a sum, difference or product has the low 32 bits of the exact one, and a
      quotient leaves a remainder smaller than the divisor with the sign of the dividend, unless it is the one
      that has no room. */
  lemma ArithmeticIsExact(a: Long, b: Long)
    ensures (Apply(Add, a, b) - (a + b)) % 0x1_0000_0000 == 0
    ensures (Apply(Sub, a, b) - (a - b)) % 0x1_0000_0000 == 0
    ensures (Apply(Mul, a, b) - a * b) % 0x1_0000_0000 == 0
    ensures b != 0 && !(a == LONG_MIN && b == -1) ==>
      var left := a - Apply(Div, a, b) * b;
      Magnitude(left) < Magnitude(b) && (left > 0 ==> a > 0) && (left < 0 ==> a < 0)
  {
    WordsKeepLowBits(a + b, 0);
    WordsKeepLowBits(a - b, 0);
    WordsKeepLowBits(a * b, 0);
    if b != 0 && !(a == LONG_MIN && b == -1) {
      DivisionTruncates(a, b);
      QuotientFits(a, b);
    }
  }

  predicate Holds(rel: Relation, a: Long, b: Long) {
    match rel
    case Eq => a == b case Neq => a != b case Ge => a > b
    case Geq => a >= b case Le => a < b case Leq => a <= b
  }

  /** The value of an expression in which division by zero yields zero. */
  function TotalValue(e: Expr, env: Env): Long {
    match e
    case Var(n) => env(n)
    case Const(v) => v
    case Bin(op, l, r) =>
      var b := TotalValue(r, env);
      if op.Div? && b == 0 then 0 else Apply(op, TotalValue(l, env), b)
  }

  function TotalTruth(c: Condition, env: Env): bool {
    match c
    case Cmp(rel, l, r) => Holds(rel, TotalValue(l, env), TotalValue(r, env))
    case Not(d) => !TotalTruth(d, env)
    case And(d, e) => TotalTruth(d, env) && TotalTruth(e, env)
    case Or(d, e) => TotalTruth(d, env) || TotalTruth(e, env)
  }

  /** Strict evaluation: none when a quotient met on the way has a zero divisor. */
  function Evaluate(e: Expr, env: Env): Option<Long> {
    match e
    case Var(n) => Some(env(n))
    case Const(v) => Some(v)
    case Bin(op, l, r) =>
      var a := Evaluate(l, env);
      var b := Evaluate(r, env);
      if a.None? || b.None? || (op.Div? && b.value == 0) then None
      else Some(Apply(op, a.value, b.value))
  }

  function Truth(c: Condition, env: Env): Option<bool> {
    match c
    case Cmp(rel, l, r) =>
      var a := Evaluate(l, env);
      var b := Evaluate(r, env);
      if a.None? || b.None? then None else Some(Holds(rel, a.value, b.value))
    case Not(d) =>
      var t := Truth(d, env);
      if t.None? then None else Some(!t.value)
    case And(d, e) =>
      var t := Truth(d, env);
      var u := Truth(e, env);
      if t.None? || u.None? then None else Some(t.value && u.value)
    case Or(d, e) =>
      var t := Truth(d, env);
      var u := Truth(e, env);
      if t.None? || u.None? then None else Some(t.value || u.value)
  }

  function Subexpressions(e: Expr): set<Expr> {
    match e
    case Bin(_, l, r) => {e} + Subexpressions(l) + Subexpressions(r)
    case _ => {e}
  }

  function ConditionExpressions(c: Condition): set<Expr> {
    match c
    case Cmp(_, l, r) => Subexpressions(l) + Subexpressions(r)
    case Not(d) => ConditionExpressions(d)
    case And(d, e) => ConditionExpressions(d) + ConditionExpressions(e)
    case Or(d, e) => ConditionExpressions(d) + ConditionExpressions(e)
  }

  predicate IsZeroDivision(e: Expr, env: Env) {
    e.Bin? && e.op.Div? && TotalValue(e.right, env) == 0
  }

  /** Some quotient in the set has a zero divisor. */
  ghost predicate DividesByZero(es: set<Expr>, env: Env) {
    exists e :: e in es && IsZeroDivision(e, env)
  }

  // ----------------------------------------------------------------- bytecode

  /** The slot of a name among the registered variables. */
  function IndexOf(names: seq<string>, name: string): (i: nat)
    ensures i <= |names|
    ensures i < |names| ==> names[i] == name
    ensures i == |names| <==> name !in names
  {
    if names == [] then 0
    else if names[0] == name then 0
    else 1 + IndexOf(names[1..], name)
  }

  function OperandCode(kind: Word, value: Word): (s: seq<Word>)
    ensures |s| == 3
  {
    [OPERAND, kind, value]
  }

  function OpCode(node: Word, op: Word): (s: seq<Word>)
    ensures |s| == 2
  {
    [node, op]
  }

  /** Prefix bytecode of an expression. */
  function ExprCode(e: Expr, names: seq<string>): (s: seq<Word>)
    ensures |s| >= 3
  {
    match e
    case Var(n) => OperandCode(VARIABLE, IndexOf(names, n) % 256)
    case Const(v) => OperandCode(LONG, LongToWord(v))
    case Bin(op, l, r) => OpCode(ARITH_OP, ArithCode(op)) + (ExprCode(l, names) + ExprCode(r, names))
  }

  function ConditionCode(c: Condition, names: seq<string>): (s: seq<Word>)
    ensures |s| >= 2
  {
    match c
    case Cmp(rel, l, r) => OpCode(CMP_OP, RelationCode(rel)) + (ExprCode(l, names) + ExprCode(r, names))
    case Not(d) => OpCode(CMP_OP, NOT) + ConditionCode(d, names)
    case And(d, e) => OpCode(CMP_OP, AND) + (ConditionCode(d, names) + ConditionCode(e, names))
    case Or(d, e) => OpCode(CMP_OP, OR) + (ConditionCode(d, names) + ConditionCode(e, names))
  }

  /** Every variable of the expression is registered. */
  predicate ExprResolved(e: Expr, names: seq<string>) {
    match e
    case Var(n) => n in names
    case Const(_) => true
    case Bin(_, l, r) => ExprResolved(l, names) && ExprResolved(r, names)
  }

  predicate Resolved(c: Condition, names: seq<string>) {
    match c
    case Cmp(_, l, r) => ExprResolved(l, names) && ExprResolved(r, names)
    case Not(d) => Resolved(d, names)
    case And(d, e) => Resolved(d, names) && Resolved(e, names)
    case Or(d, e) => Resolved(d, names) && Resolved(e, names)
  }

  /** The machine's variable slots hold the values that `env` gives to the names. */
  predicate Agrees(names: seq<string>, vars: seq<Long>, env: Env) {
    |names| <= |vars| <= 256 &&
    forall i :: 0 <= i < |names| ==> vars[i] == env(names[i])
  }

  lemma ReadOpCode(code: seq<Word>, at: nat, node: Word, op: Word, rest: seq<Word>)
    requires LiesAt(code, at, OpCode(node, op) + rest)
    ensures at + 2 <= |code| && code[at] == node && code[at + 1] == op
    ensures LiesAt(code, at + 2, rest) && at + 2 + |rest| <= |code|
  {
    LiesAtSplit(code, at, OpCode(node, op), rest);
    assert OpCode(node, op)[0] == code[at + 0] && OpCode(node, op)[1] == code[at + 1];
  }

  lemma ReadPair(code: seq<Word>, at: nat, op: Word, a: seq<Word>, b: seq<Word>)
    requires LiesAt(code, at, OpCode(CMP_OP, op) + (a + b))
    ensures at + 2 + |a| + |b| <= |code| && code[at] == CMP_OP && code[at + 1] == op
    ensures LiesAt(code, at + 2, a) && LiesAt(code, at + 2 + |a|, b)
  {
    hide LiesAt, OpCode;
    ReadOpCode(code, at, CMP_OP, op, a + b);
    LiesAtSplit(code, at + 2, a, b);
  }

  lemma ReadOperand(code: seq<Word>, at: nat, kind: Word, value: Word)
    requires LiesAt(code, at, OperandCode(kind, value))
    ensures at + 3 <= |code| && code[at] == OPERAND && code[at + 1] == kind && code[at + 2] == value
  {
    var c := OperandCode(kind, value);
    assert c[0] == code[at + 0] && c[1] == code[at + 1] && c[2] == code[at + 2];
  }

  /** The `length` words at `ip` are an argument that evaluates to `v`. */
  predicate EvaluatesTo(code: seq<Word>, vars: seq<Long>, ip: nat, length: nat, v: Option<Long>)
    requires ip <= |code|
  {
    var r := RunTerm(code, vars, ip);
    match v
    case None => r.status == MathError
    case Some(x) => r == Outcome(True, x, ip + length)
  }

  /** The `length` words at `ip` are a condition with the truth value `t`. */
  predicate DecidesTo(code: seq<Word>, vars: seq<Long>, ip: nat, length: nat, t: Option<bool>)
    requires ip <= |code|
  {
    var r := RunCondition(code, vars, ip);
    match t
    case None => r.status == MathError
    case Some(x) => r == Outcome(Verdict(x), 0, ip + length)
  }

  lemma RunsOperation(code: seq<Word>, vars: seq<Long>, ip: nat, op: ArithOp, m: nat, a: Option<Long>, n: nat, b: Option<Long>)
    requires ip + 2 + m <= |code| && code[ip] == ARITH_OP && code[ip + 1] == ArithCode(op)
    requires EvaluatesTo(code, vars, ip + 2, m, a) && EvaluatesTo(code, vars, ip + 2 + m, n, b)
    ensures EvaluatesTo(code, vars, ip, 2 + m + n,
                        if a.None? || b.None? || (op.Div? && b.value == 0) then None
                        else Some(Apply(op, a.value, b.value)))
  {
  }

  /** An expression's bytecode evaluates to its value, unless a divisor is zero. */
  lemma {:induction false} RunsExpression(e: Expr, names: seq<string>, code: seq<Word>, vars: seq<Long>, ip: nat, env: Env)
    requires LiesAt(code, ip, ExprCode(e, names))
    requires ExprResolved(e, names)
    requires Agrees(names, vars, env)
    ensures EvaluatesTo(code, vars, ip, |ExprCode(e, names)|, Evaluate(e, env))
  {
    hide EvaluatesTo, LiesAt, Agrees, OpCode, OperandCode;
    match e
    case Var(_) => RunsOperand(e, names, code, vars, ip, env);
    case Const(_) => RunsOperand(e, names, code, vars, ip, env);
    case Bin(op, l, r) =>
      var lc, rc := ExprCode(l, names), ExprCode(r, names);
      ReadOpCode(code, ip, ARITH_OP, ArithCode(op), lc + rc);
      LiesAtSplit(code, ip + 2, lc, rc);
      RunsExpression(l, names, code, vars, ip + 2, env);
      RunsExpression(r, names, code, vars, ip + 2 + |lc|, env);
      RunsOperation(code, vars, ip, op, |lc|, Evaluate(l, env), |rc|, Evaluate(r, env));
  }

  lemma RunsOperand(e: Expr, names: seq<string>, code: seq<Word>, vars: seq<Long>, ip: nat, env: Env)
    requires !e.Bin? && LiesAt(code, ip, ExprCode(e, names)) && ExprResolved(e, names) && Agrees(names, vars, env)
    ensures ip + 3 <= |code| && EvaluatesTo(code, vars, ip, |ExprCode(e, names)|, Evaluate(e, env))
  {
    match e
    case Var(n) =>
      ReadOperand(code, ip, VARIABLE, IndexOf(names, n) % 256);
    case Const(v) =>
      ReadOperand(code, ip, LONG, LongToWord(v));
  }

  lemma RunsComparison(code: seq<Word>, vars: seq<Long>, ip: nat, rel: Relation, m: nat, a: Option<Long>, n: nat, b: Option<Long>)
    requires ip + 2 + m <= |code| && code[ip] == CMP_OP && code[ip + 1] == RelationCode(rel)
    requires EvaluatesTo(code, vars, ip + 2, m, a) && EvaluatesTo(code, vars, ip + 2 + m, n, b)
    ensures DecidesTo(code, vars, ip, 2 + m + n,
                      if a.None? || b.None? then None else Some(Holds(rel, a.value, b.value)))
  {
    assert RelationCode(rel) / 0x80 == 0;
  }

  lemma RunsNegation(code: seq<Word>, vars: seq<Long>, ip: nat, m: nat, t: Option<bool>)
    requires ip + 2 <= |code| && code[ip] == CMP_OP && code[ip + 1] == NOT
    requires DecidesTo(code, vars, ip + 2, m, t)
    ensures DecidesTo(code, vars, ip, 2 + m, if t.None? then None else Some(!t.value))
  {
  }

  /** Both arguments of a binary connective are always run. */
  lemma RunsConnective(code: seq<Word>, vars: seq<Long>, ip: nat, op: Word, m: nat, t: Option<bool>, n: nat, u: Option<bool>)
    requires op == AND || op == OR
    requires ip + 2 + m <= |code| && code[ip] == CMP_OP && code[ip + 1] == op
    requires DecidesTo(code, vars, ip + 2, m, t) && DecidesTo(code, vars, ip + 2 + m, n, u)
    ensures DecidesTo(code, vars, ip, 2 + m + n,
                      if t.None? || u.None? then None
                      else Some(if op == AND then t.value && u.value else t.value || u.value))
  {
  }

  lemma RunsComparisonCode(rel: Relation, l: Expr, r: Expr, names: seq<string>, code: seq<Word>, vars: seq<Long>, ip: nat, env: Env)
    requires LiesAt(code, ip, ConditionCode(Cmp(rel, l, r), names))
    requires Resolved(Cmp(rel, l, r), names)
    requires Agrees(names, vars, env)
    ensures DecidesTo(code, vars, ip, |ConditionCode(Cmp(rel, l, r), names)|, Truth(Cmp(rel, l, r), env))
  {
    hide EvaluatesTo, DecidesTo, LiesAt, Agrees, OpCode;
    var lc, rc := ExprCode(l, names), ExprCode(r, names);
    ReadOpCode(code, ip, CMP_OP, RelationCode(rel), lc + rc);
    LiesAtSplit(code, ip + 2, lc, rc);
    RunsExpression(l, names, code, vars, ip + 2, env);
    RunsExpression(r, names, code, vars, ip + 2 + |lc|, env);
    RunsComparison(code, vars, ip, rel, |lc|, Evaluate(l, env), |rc|, Evaluate(r, env));
  }

  /** Running a condition's bytecode gives its strict truth value under every assignment. */
  lemma {:induction false} RunsConditionCode(c: Condition, names: seq<string>, code: seq<Word>, vars: seq<Long>, ip: nat, env: Env)
    requires LiesAt(code, ip, ConditionCode(c, names))
    requires Resolved(c, names)
    requires Agrees(names, vars, env)
    ensures DecidesTo(code, vars, ip, |ConditionCode(c, names)|, Truth(c, env))
  {
    hide DecidesTo, LiesAt, Agrees, OpCode, ExprCode, Evaluate, ExprResolved;
    match c
    case Cmp(rel, l, r) =>
      RunsComparisonCode(rel, l, r, names, code, vars, ip, env);
    case Not(d) =>
      ReadOpCode(code, ip, CMP_OP, NOT, ConditionCode(d, names));
      RunsConditionCode(d, names, code, vars, ip + 2, env);
      RunsNegation(code, vars, ip, |ConditionCode(d, names)|, Truth(d, env));
    case And(d, e) =>
      ReadPair(code, ip, AND, ConditionCode(d, names), ConditionCode(e, names));
      RunsConditionCode(d, names, code, vars, ip + 2, env);
      RunsConditionCode(e, names, code, vars, ip + 2 + |ConditionCode(d, names)|, env);
      RunsConnective(code, vars, ip, AND, |ConditionCode(d, names)|, Truth(d, env), |ConditionCode(e, names)|, Truth(e, env));
    case Or(d, e) =>
      ReadPair(code, ip, OR, ConditionCode(d, names), ConditionCode(e, names));
      RunsConditionCode(d, names, code, vars, ip + 2, env);
      RunsConditionCode(e, names, code, vars, ip + 2 + |ConditionCode(d, names)|, env);
      RunsConnective(code, vars, ip, OR, |ConditionCode(d, names)|, Truth(d, env), |ConditionCode(e, names)|, Truth(e, env));
  }

  lemma ZeroDivisionUnion(a: set<Expr>, b: set<Expr>, env: Env)
    ensures DividesByZero(a + b, env) <==> DividesByZero(a, env) || DividesByZero(b, env)
  {
    if DividesByZero(a, env) {
      var e :| e in a && IsZeroDivision(e, env);
      assert e in a + b;
    }
    if DividesByZero(b, env) {
      var e :| e in b && IsZeroDivision(e, env);
      assert e in a + b;
    }
  }

  /** Strict evaluation fails exactly when some quotient, anywhere in the expression, has a
      zero divisor; otherwise it is the value. */
  lemma {:induction false} EvaluationFails(e: Expr, env: Env)
    ensures Evaluate(e, env) ==
            if DividesByZero(Subexpressions(e), env) then None else Some(TotalValue(e, env))
  {
    match e
    case Bin(op, l, r) =>
      EvaluationFails(l, env);
      EvaluationFails(r, env);
      ZeroDivisionUnion(Subexpressions(l), Subexpressions(r), env);
      ZeroDivisionUnion({e}, Subexpressions(l) + Subexpressions(r), env);
      assert Subexpressions(e) == {e} + (Subexpressions(l) + Subexpressions(r));
      assert IsZeroDivision(e, env) ==> e in {e} && DividesByZero({e}, env);
    case _ =>
  }

  lemma {:induction false} TruthFails(c: Condition, env: Env)
    ensures Truth(c, env) ==
            if DividesByZero(ConditionExpressions(c), env) then None else Some(TotalTruth(c, env))
  {
    match c
    case Cmp(rel, l, r) =>
      EvaluationFails(l, env);
      EvaluationFails(r, env);
      ZeroDivisionUnion(Subexpressions(l), Subexpressions(r), env);
    case Not(d) =>
      TruthFails(d, env);
    case And(d, e) =>
      TruthFails(d, env);
      TruthFails(e, env);
      ZeroDivisionUnion(ConditionExpressions(d), ConditionExpressions(e), env);
    case Or(d, e) =>
      TruthFails(d, env);
      TruthFails(e, env);
      ZeroDivisionUnion(ConditionExpressions(d), ConditionExpressions(e), env);
  }

  /** The machine on a complete program, possibly followed by unused bytes. */
  lemma ExecutesCondition(c: Condition, names: seq<string>, code: seq<Word>, vars: seq<Long>, env: Env)
    requires LiesAt(code, 0, ConditionCode(c, names))
    requires Resolved(c, names)
    requires Agrees(names, vars, env)
    ensures Execute(code, vars) ==
            if DividesByZero(ConditionExpressions(c), env) then MathError else Verdict(TotalTruth(c, env))
  {
    RunsConditionCode(c, names, code, vars, 0, env);
    TruthFails(c, env);
  }
}
