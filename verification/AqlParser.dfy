/** The WHERE-clause parser as the C code has it: a lexer position that each routine moves, and
    a logic machine that it emits code into. */
module AqlParser {
  import opened MachineWords
  import opened LogicVm
  import C = AqlCompiler
  import opened LogicMachine

  class Parser {
    const tokens: seq<C.Token>
    const machine: Machine
    var pos: nat
    var prev: nat
    var token: C.Token

    ghost predicate Valid()
      reads this, machine
    {
      pos <= |tokens| && machine.Valid()
    }

    constructor (tokens: seq<C.Token>, machine: Machine)
      requires machine.Valid()
      ensures Valid() && this.tokens == tokens && this.machine == machine && pos == 0
    {
      this.tokens, this.machine := tokens, machine;
      pos, prev, token := 0, 0, C.NoToken;
    }

    method Next()
      requires Valid()
      modifies this
      ensures Valid() && prev == old(pos) && pos == C.After(tokens, old(pos)) && token == C.Peek(tokens, old(pos))
    {
      prev := pos;
      if pos < |tokens| {
        token := tokens[pos];
        pos := pos + 1;
      } else {
        token := C.NoToken;
      }
    }

    method Rewind()
      requires Valid() && prev <= |tokens|
      modifies this`pos
      ensures Valid() && pos == prev
    {
      pos := prev;
    }

    method Operand() returns (ok: bool)
      requires Valid()
      modifies this, machine`end, machine`fault, machine`names, machine.code
      ensures Valid()
      ensures C.Parse(ok, pos, machine.Program()) == C.ParseOperand(tokens, old(pos), old(machine.Program()))
    {
      Next();
      match token
      case Identifier(name) =>
        machine.SetVariable(name);
        return true;
      case IntegerValue(value) =>
        machine.Store(OperandCode(LONG, LongToWord(value)));
        return true;
      case StringValue => return true;
      case FloatValue => return true;
      case _ => return false;
    }

    /** The three calls that put an operator in front of the code from `at` on. */
    method PlaceOperator(at: nat, node: Word, op: Word) returns (saved: nat)
      requires Valid()
      modifies machine`end, machine`error, machine`fault, machine.code
      ensures Valid() && (machine.Program(), saved) == C.Place(old(machine.Program()), at, node, op)
    {
      hide C.Emit, C.SetEnd, C.ShiftForOperator;
      saved := machine.ShiftForOperator(at);
      machine.Store(OpCode(node, op));
      var _ := machine.SetEnd(saved);
    }

    method Expr() returns (ok: bool)
      requires Valid()
      modifies this, machine`end, machine`error, machine`fault, machine`names, machine.code
      ensures Valid() && old(pos) <= pos
      ensures C.Parse(ok, pos, machine.Program()) == C.ParseExpr(tokens, old(pos), old(machine.Program()))
      decreases |tokens| - pos, 1
    {
      hide C.ParseOperand, C.Place, ArithCode;
      var saved := machine.end;
      Next();
      if token == C.LeftParen {
        ok := Expr();
        if !ok {
          return false;
        }
        Next();
        if token != C.RightParen {
          return false;
        }
      } else {
        Rewind();
        ok := Operand();
        if !ok {
          return false;
        }
      }
      ghost var whole := C.ParseOperators(tokens, pos, machine.Program(), saved);
      assert whole == C.ParseExpr(tokens, old(pos), old(machine.Program()));
      while true
        invariant Valid() && old(pos) < pos
        invariant whole == C.ParseOperators(tokens, pos, machine.Program(), saved)
        decreases |tokens| - pos
      {
        Next();
        if token == C.RightParen {
          return true;
        }
        if !token.ArithToken? {
          Rewind();
          return true;
        }
        var op := token.op;
        ok := Operand();
        if !ok {
          ok := Expr();
        }
        if !ok {
          return false;
        }
        saved := PlaceOperator(saved, ARITH_OP, ArithCode(op));
      }
    }

    method Comparison() returns (ok: bool)
      requires Valid()
      modifies this, machine`end, machine`error, machine`fault, machine`names, machine.code
      ensures Valid() && old(pos) <= pos
      ensures C.Parse(ok, pos, machine.Program()) == C.ParseComparison(tokens, old(pos), old(machine.Program()))
    {
      hide C.ParseExpr, C.Emit, C.SetEnd, C.JumpToOperand, RelationCode;
      var saved := machine.JumpToOperand();
      ok := Expr();
      if !ok {
        return false;
      }
      saved := machine.SetEnd(saved);
      Next();
      if !token.RelationToken? {
        return false;
      }
      machine.Store(OpCode(CMP_OP, RelationCode(token.rel)));
      var _ := machine.SetEnd(saved);
      ok := Expr();
    }

    /** A parenthesised sub-clause and the parenthesis that closes it. */
    method Group() returns (ok: bool)
      requires Valid()
      modifies this, machine`end, machine`error, machine`fault, machine`names, machine.code
      ensures Valid() && old(pos) <= pos
      ensures C.Parse(ok, pos, machine.Program()) == C.Close(tokens, C.ParseWhere(tokens, old(pos), old(machine.Program())))
      decreases |tokens| - pos, 2
    {
      hide C.ParseWhere;
      ok := Where();
      if ok {
        Next();
        ok := token == C.RightParen;
      }
    }

    method Where() returns (ok: bool)
      requires Valid()
      modifies this, machine`end, machine`error, machine`fault, machine`names, machine.code
      ensures Valid() && old(pos) <= pos
      ensures C.Parse(ok, pos, machine.Program()) == C.ParseWhere(tokens, old(pos), old(machine.Program()))
      decreases |tokens| - pos, 1
    {
      hide C.ParseComparison, C.Place, C.ParseConnectives;
      ok := Comparison();
      if !ok {
        return false;
      }
      var saved := 0;
      ghost var whole := C.ParseConnectives(tokens, pos, machine.Program(), saved);
      while true
        invariant Valid() && old(pos) <= pos
        invariant whole == C.ParseConnectives(tokens, pos, machine.Program(), saved)
        decreases |tokens| - pos
      {
        C.ConnectivesStep(tokens, pos, machine.Program(), saved);
        Next();
        if token != C.AndToken && token != C.OrToken {
          Rewind();
          return true;
        }
        var group;
        group, ok, saved := Connected(if token == C.AndToken then AND else OR, saved);
        if !ok {
          return !group;  // a comparison that fails ends the clause without an error
        }
      }
    }

    /** What follows a connective, which is put in front of the code from `at` on: a group or a comparison. */
    method Connected(connective: Word, at: nat) returns (group: bool, ok: bool, saved: nat)
      requires Valid()
      modifies this, machine`end, machine`error, machine`fault, machine`names, machine.code
      ensures Valid() && old(pos) <= pos && group == (C.Peek(tokens, old(pos)) == C.LeftParen)
      ensures var (placed, end) := C.Place(old(machine.Program()), at, CMP_OP, connective);
              && saved == end
              && C.Parse(ok, pos, machine.Program()) ==
                 if group then C.Close(tokens, C.ParseWhere(tokens, old(pos) + 1, placed))
                 else C.ParseComparison(tokens, old(pos), placed)
      decreases |tokens| - pos, 3
    {
      hide C.Place, C.ParseWhere, C.ParseComparison;
      saved := PlaceOperator(at, CMP_OP, connective);
      Next();
      group := token == C.LeftParen;
      if group {
        ok := Group();
      } else {
        Rewind();
        ok := Comparison();
      }
    }
  }
}
