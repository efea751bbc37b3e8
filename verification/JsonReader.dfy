/** jsonparse as it works in place: the position in the text, the stack of opened brackets and the
    place of the last atomic value. Characters behind the text are taken as terminators. */
module JsonReader {
  import opened JsonTree
  import opened JsonParse

  datatype Status = Reported | Failed | StackOverrun

  class Parser {
    const json: string
    const stack: array<char>
    var pos: nat
    var depth: nat
    var vstart: nat
    var vlen: nat
    var vtype: char

    ghost predicate Valid()
      reads this
    {
      stack.Length == STACK_SIZE && depth <= STACK_SIZE
    }

    /** What the calls from here on depend on. */
    function View(): (s: State)
      requires depth <= stack.Length
      reads this, stack
    {
      State(Drop(json, pos), stack[..depth], vtype)
    }

    /** jsonparse_setup. */
    constructor (json: string)
      ensures Valid() && View() == State(json, "", '\0') && this.json == json && fresh(stack)
    {
      this.json := json;
      stack := new char[STACK_SIZE](_ => '\0');
      pos, depth, vstart, vlen, vtype := 0, 0, 0, 0, '\0';
    }

    method CharAt(i: nat) returns (c: char)
      ensures c == if i < |json| then json[i] else '\0'
    {
      return if i < |json| then json[i] else '\0';
    }

    method SkipWhite()
      modifies this`pos
      ensures pos >= old(pos) && Drop(json, pos) == SkipSpace(Drop(json, old(pos)))
    {
      while pos < |json| && (json[pos] == ' ' || json[pos] == '\n')
        invariant old(pos) <= pos
        invariant SkipSpace(Drop(json, old(pos))) == SkipSpace(Drop(json, pos))
        decreases |json| - pos
      {
        assert json[pos..][1..] == json[pos + 1..];
        pos := pos + 1;
      }
    }

    /** jsonparse_get_type. */
    method GetType() returns (c: char)
      requires Valid()
      ensures c == Top(stack[..depth])
    {
      return if depth == 0 then '\0' else stack[depth - 1];
    }

    /** False when there is no place left, where the original writes all the same. */
    method PushChar(c: char) returns (ok: bool)
      requires Valid()
      modifies this`depth, this`vtype, stack
      ensures Valid() && ok == (old(depth) < STACK_SIZE)
      ensures ok ==> stack[..depth] == old(stack[..depth]) + [c] && vtype == '\0'
    {
      if depth >= STACK_SIZE {
        return false;
      }
      stack[depth] := c;
      depth := depth + 1;
      vtype := '\0';
      return true;
    }

    method PopChar()
      requires Valid()
      modifies this`depth
      ensures Valid() && stack[..depth] == Pop(old(stack[..depth]))
    {
      if depth > 0 {
        depth := depth - 1;
        assert stack[..depth] == stack[..depth + 1][..depth];
      }
    }

    /** The place of the quote that ends a string. */
    method StringEndFrom(start: nat) returns (end: nat)
      requires start <= |json|
      ensures end == start + StringEnd(json[start..]) <= |json|
    {
      end := start;
      while end < |json| && json[end] != '"'
        invariant start <= end <= |json|
        invariant StringEnd(json[start..]) == end - start + StringEnd(json[end..])
        decreases |json| - end
      {
        assert json[end..][1..] == json[end + 1..];
        if json[end] == '\\' && end + 1 < |json| {
          assert json[end..][2..] == json[end + 2..];
          end := end + 2;
        } else {
          end := end + 1;
        }
      }
    }

    /** The place behind a number. */
    method NumberEndFrom(start: nat) returns (end: nat)
      requires start <= |json|
      ensures end == start + NumberEnd(json[start..]) <= |json|
    {
      end := start;
      while end < |json| && (IsDigit(json[end]) || json[end] == '.')
        invariant start <= end <= |json|
        invariant NumberEnd(json[start..]) == end - start + NumberEnd(json[end..])
        decreases |json| - end
      {
        assert json[end..][1..] == json[end + 1..];
        end := end + 1;
      }
    }

    /** What was reported last: the kind, and the text of an atomic value. */
    function Report(kind: char): (t: Token)
      reads this
    {
      if kind == 'N' || kind == '"' || kind == '0' then
        Token(kind, if vstart + vlen <= |json| then json[vstart..vstart + vlen] else "")
      else Token(kind, "")
    }

    /** atomic, for a string whose opening quote was read. */
    method ReadString(kind: char)
      requires Valid() && pos <= |json| && (kind == 'N' || kind == '"')
      modifies this`pos, this`vstart, this`vlen, this`vtype
      ensures var rest := json[old(pos)..];
              var k := StringEnd(rest);
              && vtype == kind && Report(kind) == Token(kind, rest[..k]) && Drop(json, pos) == Drop(rest, k + 1)
    {
      hide StringEnd;
      vstart, vtype := pos, kind;
      var end := StringEndFrom(pos);
      vlen := end - vstart;
      pos := end + 1;
      assert json[vstart..vstart + vlen] == json[vstart..][..vlen];
      DropMore(json, vstart, vlen + 1);
    }

    /** atomic, for a number whose first digit was read. */
    method ReadNumber()
      requires Valid() && 0 < pos <= |json|
      modifies this`pos, this`vstart, this`vlen, this`vtype
      ensures var text := json[old(pos) - 1..];
              var k := NumberEnd(json[old(pos)..]);
              && vtype == '0' && Report('0') == Token('0', text[..k + 1]) && Drop(json, pos) == text[1..][k..]
    {
      vstart, vtype := pos, '0';
      pos := NumberEndFrom(pos);
      vstart := vstart - 1;
      vlen := pos - vstart;
      assert json[vstart..vstart + vlen] == json[vstart..][..vlen];
      assert json[vstart..][1..][vlen - 1..] == json[pos..];
    }

    /** A bracket, a colon or a comma, which was read. */
    method Mark(c: char, t: char) returns (status: Status)
      requires Valid() && IsMark(c) && t == Top(stack[..depth])
      modifies this`depth, this`vtype, stack
      ensures Valid()
      ensures var r := MarkToken(c, Drop(json, pos), old(stack[..depth]), old(vtype));
              && (r.Next? <==> status == Reported) && (r.Overrun? <==> status == StackOverrun)
              && (r.Next? ==> View() == r.s && Report(c) == r.token)
    {
      if c == '{' || c == ':' || (c == '[' && (t == '{' || t == '[' || t == ':')) {
        var ok := PushChar(c);
        return if ok then Reported else StackOverrun;
      } else if c == '}' {
        status := CloseBrace(t);
        return;
      } else if c == ']' && t == '[' {
        PopChar();
        return Reported;
      } else if c == ',' {
        if t == ':' && vtype != '\0' {
          PopChar();
        } else if t != '[' {
          return Failed;
        }
        return Reported;
      }
      return Failed;
    }

    /** jsonparse_next. */
    method NextToken() returns (kind: char, status: Status)
      requires Valid()
      modifies this, stack
      ensures Valid()
      ensures var r := ParseNext(old(View()));
              && (r.Next? <==> status == Reported) && (r.Overrun? <==> status == StackOverrun)
              && (r.Next? ==> View() == r.s && Report(kind) == r.token)
    {
      hide SkipSpace, StringEnd, NumberEnd, MarkToken, StringToken;
      SkipWhite();
      ghost var text := Drop(json, pos);
      var c := CharAt(pos);
      var t := GetType();
      if pos >= |json| {
        pos := pos + 1;
        return '\0', Reported;
      }
      assert text[0] == c && text[1..] == json[pos + 1..];
      pos := pos + 1;
      assert json[pos - 1..] == text;
      if IsMark(c) {
        status := Mark(c, t);
        return c, status;
      } else if c == '"' {
        kind, status := Quoted(t);
        return;
      } else if (t == ':' || t == '[') && IsDigit(c) {
        ReadNumber();
        return '0', Reported;
      }
      return '\0', Reported;
    }

    /** A string, whose opening quote was read: a name in front of a colon, or a value. */
    method Quoted(t: char) returns (kind: char, status: Status)
      requires Valid() && pos <= |json| && t == Top(stack[..depth])
      modifies this`pos, this`vstart, this`vlen, this`vtype
      ensures Valid() && status != StackOverrun
      ensures var r := StringToken(json[old(pos)..], stack[..depth]);
              && (r.Next? <==> status == Reported) && (r.Next? ==> View() == r.s && Report(kind) == r.token)
              && !r.Overrun?
    {
      if t != '{' && t != '[' && t != ':' {
        return '"', Failed;
      }
      hide StringEnd;
      kind := if t == '{' then 'N' else '"';
      ReadString(kind);
      return kind, Reported;
    }

    /** Calling until nothing is left: whether exactly the expected tokens were reported, without an
        error and ending at depth zero. */
    method ReadAll(expected: seq<Token>) returns (ok: bool)
      requires Valid()
      modifies this, stack
      ensures Valid() && ok == Reports(old(View()), expected)
    {
      hide ParseNext, Reports;
      ghost var all := Reports(View(), expected);
      var n := 0;
      assert expected[0..] == expected;
      while pos < |json|
        invariant Valid() && n <= |expected|
        invariant all == Reports(View(), expected[n..])
        decreases |View().rest|
      {
        ReportsUnfolded(View(), expected[n..]);
        var kind, status := NextToken();
        if status != Reported || n == |expected| || expected[n] != Report(kind) {
          return false;
        }
        assert expected[n..][1..] == expected[n + 1..];
        n := n + 1;
      }
      ReportsAtEnd(View(), expected[n..]);
      ok := n == |expected| && depth == 0;
    }

    /** The brace of an object, and the colon of its last pair. */
    method CloseBrace(top: char) returns (status: Status)
      requires Valid() && top == Top(stack[..depth])
      modifies this`depth
      ensures Valid() && status != StackOverrun
      ensures var r := CloseObject(Drop(json, pos), old(stack[..depth]), vtype);
              && (r.Next? <==> status == Reported) && (r.Next? ==> View() == r.s)
    {
      var s := top;
      if s == ':' && vtype != '\0' {
        PopChar();
        s := GetType();
      }
      if s != '{' {
        return Failed;
      }
      PopChar();
      return Reported;
    }
  }

  lemma DropMore(s: string, a: nat, b: nat)
    ensures Drop(Drop(s, a), b) == Drop(s, a + b)
  {
    if a + b <= |s| {
      assert s[a..][b..] == s[a + b..];
    }
  }

  /** Reading a rendered tree: it is reported as its tokens when it is an object in the parser's
      fragment, and for no other tree. */
  method ReadTree(root: Value, expected: seq<Token>) returns (ok: bool)
    requires expected == Tokens(root)
    ensures ok <==> root.Object? && Parsable(root, 0)
  {
    hide Parsable, Tokens, Render, Reports;
    TreeRoundTrip(root);
    var parser := new Parser(Render(root));
    ok := parser.ReadAll(expected);
  }

  lemma ReportsUnfolded(s: State, expected: seq<Token>)
    requires s.rest != ""
    ensures ParseNext(s).Next? ==> |ParseNext(s).s.rest| < |s.rest|
    ensures Reports(s, expected) <==>
      && ParseNext(s).Next? && expected != [] && expected[0] == ParseNext(s).token
      && Reports(ParseNext(s).s, expected[1..])
  {
    hide ParseNext;
  }

  lemma ReportsAtEnd(s: State, expected: seq<Token>)
    requires s.rest == ""
    ensures Reports(s, expected) <==> expected == [] && s.stack == ""
  {
  }
}
