/** The pull parser over rendered JSON: token by token, with a stack of opened brackets and colons. A
    rendered tree is reported as its tokens exactly when it is in the parser's fragment. */
module JsonParse {
  import opened JsonTree
  import opened JsonNumbers

  const STACK_SIZE: nat := 10

  /** What a call reports: the kind of token, and the raw text of an atomic value. */
  datatype Token = Token(kind: char, text: string)

  const NO_TOKEN: Token := Token('\0', "")

  /** What is left of the text behind the position, the stack, and the type of the last value, zero
      after a push. */
  datatype State = State(rest: string, stack: string, vtype: char)

  datatype Outcome = Next(token: Token, s: State) | SyntaxError | Overrun

  // ----------------------------------------------------------------- parsing

  function SkipSpace(rest: string): (r: string)
    ensures |r| <= |rest|
    decreases |rest|
  {
    if rest != "" && (rest[0] == ' ' || rest[0] == '\n') then SkipSpace(rest[1..]) else rest
  }

  /** Where the quote that ends a string is; a backslash passes over the next character. */
  function StringEnd(rest: string): (k: nat)
    ensures k <= |rest|
    decreases |rest|
  {
    if rest == "" || rest[0] == '"' then 0
    else if rest[0] == '\\' then
      if |rest| >= 2 then 2 + StringEnd(rest[2..]) else 1
    else 1 + StringEnd(rest[1..])
  }

  predicate IsDigit(c: char) { '0' <= c <= '9' }

  function NumberEnd(rest: string): (k: nat)
    ensures k <= |rest|
    decreases |rest|
  {
    if rest == "" || !(IsDigit(rest[0]) || rest[0] == '.') then 0 else 1 + NumberEnd(rest[1..])
  }

  /** The top of the stack, zero when it is empty. */
  function Top(stack: string): (c: char) { if stack == "" then '\0' else stack[|stack| - 1] }

  function Pop(stack: string): (r: string) { if stack == "" then "" else stack[..|stack| - 1] }

  /** push writes before it compares: beyond the stack, the model ends. */
  function Push(c: char, rest: string, stack: string): (r: Outcome) {
    if |stack| >= STACK_SIZE then Overrun
    else Next(Token(c, ""), State(rest, stack + [c], '\0'))
  }

  /** The closing brace of an object, whose last pair is still open. */
  function CloseObject(rest: string, stack: string, vtype: char): (r: Outcome) {
    var open := if Top(stack) == ':' && vtype != '\0' then Pop(stack) else stack;
    if Top(open) == '{' then Next(Token('}', ""), State(rest, Pop(open), vtype)) else SyntaxError
  }

  function Comma(rest: string, stack: string, vtype: char): (r: Outcome) {
    if Top(stack) == ':' && vtype != '\0' then Next(Token(',', ""), State(rest, Pop(stack), vtype))
    else if Top(stack) == '[' then Next(Token(',', ""), State(rest, stack, vtype))
    else SyntaxError
  }

  function Drop(s: string, n: nat): (r: string) { if n <= |s| then s[n..] else "" }

  /** A string, or the name of a pair directly inside an object. */
  function StringToken(rest: string, stack: string): (r: Outcome) {
    var t := Top(stack);
    if t == '{' || t == '[' || t == ':' then
      var kind := if t == '{' then 'N' else '"';
      var k := StringEnd(rest);
      Next(Token(kind, rest[..k]), State(Drop(rest, k + 1), stack, kind))
    else SyntaxError
  }

  /** A number, as the value of a pair or in an array; anything else is passed over. */
  function NumberToken(text: string, stack: string, vtype: char): (r: Outcome)
    requires text != ""
  {
    if (Top(stack) == ':' || Top(stack) == '[') && IsDigit(text[0]) then
      var k := NumberEnd(text[1..]);
      Next(Token('0', text[..k + 1]), State(text[1..][k..], stack, '0'))
    else Next(NO_TOKEN, State(text[1..], stack, vtype))
  }

  /** A bracket, a colon or a comma. */
  function MarkToken(c: char, rest: string, stack: string, vtype: char): (r: Outcome) {
    var t := Top(stack);
    if c == '{' || c == ':' then Push(c, rest, stack)
    else if c == '}' then CloseObject(rest, stack, vtype)
    else if c == ',' then Comma(rest, stack, vtype)
    else if c == ']' then
      if t == '[' then Next(Token(c, ""), State(rest, Pop(stack), vtype)) else SyntaxError
    else
      if t == '{' || t == '[' || t == ':' then Push(c, rest, stack) else SyntaxError
  }

  predicate IsMark(c: char) { c == '{' || c == ':' || c == '}' || c == ',' || c == ']' || c == '[' }

  /** jsonparse_next. */
  function ParseNext(s: State): (r: Outcome)
    ensures r.Next? ==> |r.s.rest| < |s.rest| || r.s.rest == ""
  {
    var text := SkipSpace(s.rest);
    if text == "" then Next(NO_TOKEN, s.(rest := ""))
    else if IsMark(text[0]) then MarkToken(text[0], text[1..], s.stack, s.vtype)
    else if text[0] == '"' then StringToken(text[1..], s.stack)
    else NumberToken(text, s.stack, s.vtype)
  }

  /** Whether the calls from a state on report exactly the expected tokens, without an error, and end
      at depth zero when nothing is left. */
  predicate Reports(s: State, expected: seq<Token>)
    decreases |s.rest|
  {
    if s.rest == "" then expected == [] && s.stack == ""
    else
      var r := ParseNext(s);
      r.Next? && expected != [] && expected[0] == r.token && Reports(r.s, expected[1..])
  }

  // ---------------------------------------------------- tokens and fragment

  function NameTokens(v: Value, i: nat): (r: seq<Token>)
    requires i < Count(v)
  {
    if v.Object? then [Token('N', v.pairs[i].name), Token(':', "")] else []
  }

  /** The tokens of a tree, in order. */
  function Tokens(v: Value): (r: seq<Token>)
    decreases v, Count(v) + 1
  {
    if v.Text? then [Token('"', v.s)]
    else if v.Int? then [Token('0', if v.v < 0 then Digits(-v.v) else Digits(v.v))]
    else [Token(if v.Object? then '{' else '[', "")] + TokensFrom(v, 0)
  }

  function TokensFrom(v: Value, i: nat): (r: seq<Token>)
    decreases v, if i < Count(v) then Count(v) - i else 0
  {
    if i >= Count(v) then [Token(if v.Object? then '}' else ']', "")]
    else (if i > 0 then [Token(',', "")] else []) + NameTokens(v, i) + Tokens(Child(v, i)) + TokensFrom(v, i + 1)
  }

  /** What a token tells: a name, a string, the value of a number, or a mark. */
  datatype Event = NameEvent(s: string) | StringEvent(s: string) | NumberEvent(v: int) | MarkEvent(c: char)

  function Meaning(t: Token): (e: Event) {
    if t.kind == 'N' then NameEvent(t.text)
    else if t.kind == '"' then StringEvent(t.text)
    else if t.kind == '0' then NumberEvent(NumeralValue(t.text))
    else MarkEvent(t.kind)
  }

  function Meanings(ts: seq<Token>): (es: seq<Event>)
    ensures |es| == |ts|
  {
    seq(|ts|, i requires 0 <= i < |ts| => Meaning(ts[i]))
  }

  /** What a tree says, in order. */
  function Events(v: Value): (es: seq<Event>)
    decreases v, 1, 0
  {
    match v
    case Text(s) => [StringEvent(s)]
    case Int(k) => [NumberEvent(k)]
    case Array(_) => [MarkEvent('[')] + ItemEvents(v, 0) + [MarkEvent(']')]
    case Object(_) => [MarkEvent('{')] + PairEvents(v, 0) + [MarkEvent('}')]
  }

  /** The values of an array from `i` on, with commas between them. */
  function ItemEvents(v: Value, i: nat): (es: seq<Event>)
    requires v.Array?
    decreases v, 0, |v.values| - i
  {
    if i >= |v.values| then [] else
    (if i == 0 then [] else [MarkEvent(',')]) + Events(v.values[i]) + ItemEvents(v, i + 1)
  }

  /** The pairs of an object from `i` on. */
  function PairEvents(v: Value, i: nat): (es: seq<Event>)
    requires v.Object?
    decreases v, 0, |v.pairs| - i
  {
    if i >= |v.pairs| then [] else
    assert v.pairs[i] < v;
    (if i == 0 then [] else [MarkEvent(',')])
    + [NameEvent(v.pairs[i].name), MarkEvent(':')] + Events(v.pairs[i].value) + PairEvents(v, i + 1)
  }

  /** A string that is printed as it is, and whose closing quote is not passed over. */
  predicate Plain(s: string)
    decreases |s|
  {
    s == "" ||
    (s[0] != '"' && if s[0] == '\\' then |s| >= 2 && s[1] != '"' && Plain(s[2..]) else Plain(s[1..]))
  }

  /** Whether the last bracket or value of a tree is a value: the type that a pair is closed by. */
  predicate EndsWithAtom(v: Value) {
    !IsContainer(v) || (Count(v) > 0 && EndsWithAtom(Child(v, Count(v) - 1)))
  }

  /** The type of the last value behind a tree. */
  function LastType(v: Value): (c: char)
    ensures c != '\0' <==> EndsWithAtom(v)
  {
    if v.Text? then '"' else if v.Int? then '0'
    else if Count(v) == 0 then '\0' else LastType(Child(v, Count(v) - 1))
  }

  /** The trees that are reported as their tokens, with `depth` places of the stack in use: strings are
      plain, integers not negative, the stack is deep enough, and every pair's value ends with an atom. */
  predicate Parsable(v: Value, depth: nat)
    decreases v, Count(v) + 1
  {
    if v.Text? then Plain(v.s)
    else if v.Int? then v.v >= 0
    else depth < STACK_SIZE && ParsableFrom(v, 0, depth + 1)
  }

  predicate ParsableFrom(v: Value, i: nat, depth: nat)
    decreases v, if i < Count(v) then Count(v) - i else 0
  {
    i >= Count(v) ||
    (var c := Child(v, i);
     && (if v.Object? then Plain(v.pairs[i].name) && depth < STACK_SIZE && Parsable(c, depth + 1) && EndsWithAtom(c)
         else Parsable(c, depth))
     && ParsableFrom(v, i + 1, depth))
  }

  // ------------------------------------------------------------ single steps

  /** A call that reports the expected token passes on to the rest; any other outcome is a failure. */
  lemma ReportsStep(s: State, t: Token, expected: seq<Token>)
    requires s.rest != ""
    ensures Reports(s, [t] + expected) <==>
      ParseNext(s).Next? && ParseNext(s).token == t && Reports(ParseNext(s).s, expected)
  {
    hide ParseNext;
    assert ([t] + expected)[1..] == expected;
  }

  /** White space makes no difference in front of more text. */
  lemma ReportsPastNewline(x: string, stack: string, vtype: char, expected: seq<Token>)
    requires x != ""
    ensures Reports(State("\n" + x, stack, vtype), expected) <==> Reports(State(x, stack, vtype), expected)
  {
    var s, s' := State("\n" + x, stack, vtype), State(x, stack, vtype);
    assert SkipSpace("\n" + x) == SkipSpace(x) by {
      assert ("\n" + x)[1..] == x;
    }
    if SkipSpace(x) == "" {
      assert ParseNext(s) == ParseNext(s');
    } else {
      assert ParseNext(s) == ParseNext(s');
    }
  }

  /** Of a printed string in front of `post`, the text up to the end that the parser finds is the string
      exactly when the string is plain, and then the rest is `post`. */
  predicate ReadsAsWritten(s: string, post: string) {
    var text := Escaped(s) + (['"'] + post);
    var k := StringEnd(text);
    && (text[..k] == s <==> Plain(s))
    && (Plain(s) ==> k == |s| && k + 1 <= |text| && text[k + 1..] == post)
  }

  lemma {:induction false} StringReads(s: string, post: string)
    ensures ReadsAsWritten(s, post)
    decreases |s|
  {
    if s == "" {
      EmptyReads(post);
    } else if s[0] == '"' || (s[0] == '\\' && (|s| == 1 || s[1] == '"')) {
      hide Escaped, Plain, StringEnd;
      NotRead(s, post);
    } else if s[0] == '\\' {
      StringReads(s[2..], post);
      hide *;
      PairReads(s, post);
    } else {
      StringReads(s[1..], post);
      hide *;
      OneReads(s, post);
    }
  }

  lemma EmptyReads(post: string)
    ensures ReadsAsWritten("", post)
  {
    var close := ['"'] + post;
    assert Escaped("") + close == close && close[1..] == post;
  }

  lemma PairReads(s: string, post: string)
    requires |s| >= 2 && s[0] == '\\' && s[1] != '"' && ReadsAsWritten(s[2..], post)
    ensures ReadsAsWritten(s, post)
  {
    var close := ['"'] + post;
    PastPair(s, close);
    hide Escaped, Plain, StringEnd;
    var tail := Escaped(s[2..]) + close;
    var k := StringEnd(tail);
    assert (tail[..k] == s[2..] <==> Plain(s)) && (Plain(s) ==> k == |s| - 2 && k + 1 <= |tail| && tail[k + 1..] == post);
    assert s == [s[0], s[1]] + s[2..];
    PrefixReads([s[0], s[1]], tail, s[2..], k);
  }

  lemma OneReads(s: string, post: string)
    requires s != "" && s[0] != '"' && s[0] != '\\' && ReadsAsWritten(s[1..], post)
    ensures ReadsAsWritten(s, post)
  {
    var close := ['"'] + post;
    PastOne(s, close);
    hide Escaped, StringEnd, Plain;
    var tail := Escaped(s[1..]) + close;
    var k := StringEnd(tail);
    assert (tail[..k] == s[1..] <==> Plain(s)) && (Plain(s) ==> k == |s| - 1 && k + 1 <= |tail| && tail[k + 1..] == post);
    assert s == [s[0]] + s[1..];
    PrefixReads([s[0]], tail, s[1..], k);
  }

  /** A quote, or a backslash before the end or before a quote, is read as something else. */
  lemma NotRead(s: string, post: string)
    requires s != "" && (s[0] == '"' || (s[0] == '\\' && (|s| == 1 || s[1] == '"')))
    ensures var text := Escaped(s) + (['"'] + post);
            text[..StringEnd(text)] != s && !Plain(s)
  {
    var close := ['"'] + post;
    var text := Escaped(s) + close;
    EscapedStarts(s);
    if s[0] == '"' {
      ReadsPair(text);
      assert text[..StringEnd(text)][0] == '\\';
    } else if |s| == 1 {
      assert text == ['\\'] + close;
      ReadsPair(text);
    } else {
      ReadsPair(text);
      assert text[..StringEnd(text)][1] == '\\';
    }
  }

  lemma EscapedStarts(s: string)
    requires s != ""
    ensures s[0] == '"' ==> |Escaped(s)| >= 2 && Escaped(s)[0] == '\\'
    ensures s == ['\\'] ==> Escaped(s) == ['\\']
    ensures |s| > 1 && s[0] == '\\' && s[1] == '"' ==> |Escaped(s)| >= 3 && Escaped(s)[0] == '\\' && Escaped(s)[1] == '\\'
  {
    if |s| == 1 {
      assert Escaped(s[1..]) == "";
    } else {
      assert Escaped(s[1..]) == (if s[1] == '"' then ['\\', '"'] else [s[1]]) + Escaped(s[1..][1..]);
    }
  }

  /** A backslash takes the character behind it along. */
  lemma ReadsPair(text: string)
    requires |text| >= 2 && text[0] == '\\'
    ensures 2 <= StringEnd(text) <= |text|
  {
  }

  lemma PastOne(s: string, close: string)
    requires s != "" && s[0] != '\\' && s[0] != '"'
    ensures var text := Escaped(s) + close;
            && text == [s[0]] + (Escaped(s[1..]) + close)
            && StringEnd(text) == 1 + StringEnd(Escaped(s[1..]) + close)
            && (Plain(s) <==> Plain(s[1..]))
  {
    var tail := Escaped(s[1..]) + close;
    var text := Escaped(s) + close;
    assert text == [s[0]] + tail;
    assert text[1..] == tail;
  }

  lemma PrefixReads(a: string, tail: string, s: string, k: nat)
    requires k <= |tail|
    ensures (a + tail)[..|a| + k] == a + tail[..k]
    ensures a + tail[..k] == a + s <==> tail[..k] == s
    ensures k + 1 <= |tail| ==> (a + tail)[|a| + k + 1..] == tail[k + 1..]
  {
    assert (a + tail[..k])[|a|..] == tail[..k] && (a + s)[|a|..] == s;
  }

  lemma PastPair(s: string, close: string)
    requires |s| >= 2 && s[0] == '\\' && s[1] != '"'
    ensures var text := Escaped(s) + close;
            && text == [s[0], s[1]] + (Escaped(s[2..]) + close)
            && StringEnd(text) == 2 + StringEnd(Escaped(s[2..]) + close)
            && (s[1] != '"' ==> (Plain(s) <==> Plain(s[2..])))
  {
    assert s[1..][1..] == s[2..];
    assert Escaped(s) == [s[0]] + ([s[1]] + Escaped(s[2..]));
    var tail := Escaped(s[2..]) + close;
    var text := Escaped(s) + close;
    assert text == [s[0], s[1]] + tail;
    assert text[2..] == tail;
  }

  lemma {:induction false} DigitsAreDigits(v: nat)
    ensures forall i :: 0 <= i < |Digits(v)| ==> IsDigit(Digits(v)[i])
  {
    if v >= 10 {
      DigitsAreDigits(v / 10);
    }
  }

  /** What may follow a value. */
  predicate Follows(post: string) { post != "" && (post[0] == ',' || post[0] == '\n') }

  lemma {:induction false} NumberReads(digits: string, post: string)
    requires Follows(post) && forall i :: 0 <= i < |digits| ==> IsDigit(digits[i])
    ensures NumberEnd(digits + post) == |digits|
    decreases |digits|
  {
    if digits == "" {
      assert digits + post == post;
    } else {
      assert (digits + post)[1..] == digits[1..] + post;
      NumberReads(digits[1..], post);
    }
  }

  lemma TextStep(s: string, post: string, stack: string, vtype: char, kind: char, expected: seq<Token>)
    requires Top(stack) == '{' || Top(stack) == '[' || Top(stack) == ':'
    requires kind == if Top(stack) == '{' then 'N' else '"'
    ensures Reports(State(Quoted(s) + post, stack, vtype), [Token(kind, s)] + expected) <==>
      Plain(s) && Reports(State(post, stack, kind), expected)
  {
    var st := State(Quoted(s) + post, stack, vtype);
    var inner := Escaped(s) + (['"'] + post);
    assert Quoted(s) + post == ['"'] + inner;
    assert (['"'] + inner)[1..] == inner;
    StringReads(s, post);
    ReportsStep(st, Token(kind, s), expected);
    hide Escaped, StringEnd, Reports, Plain;
    assert ParseNext(st) == StringToken(inner, stack);
  }

  lemma ParsesDigits(digits: string, post: string, stack: string, vtype: char)
    requires digits != "" && (forall i :: 0 <= i < |digits| ==> IsDigit(digits[i])) && Follows(post)
    requires Top(stack) == '[' || Top(stack) == ':'
    ensures ParseNext(State(digits + post, stack, vtype)) == Next(Token('0', digits), State(post, stack, '0'))
  {
    var text := digits + post;
    assert text[0] == digits[0] && IsDigit(digits[0]);
    assert text[1..] == digits[1..] + post;
    NumberReads(digits[1..], post);
    hide NumberEnd, Follows;
    assert SkipSpace(text) == text;
    assert text[..|digits|] == digits && (digits[1..] + post)[|digits| - 1..] == post;
  }

  lemma ParsesMinus(digits: string, stack: string, vtype: char)
    ensures ParseNext(State("-" + digits, stack, vtype)).Next?
    ensures ParseNext(State("-" + digits, stack, vtype)).token == NO_TOKEN
  {
    assert ("-" + digits)[0] == '-';
  }

  lemma NumberStep(v: int, post: string, stack: string, vtype: char, expected: seq<Token>)
    requires Top(stack) == '[' || Top(stack) == ':'
    requires Follows(post)
    ensures Reports(State(IntText(v) + post, stack, vtype),
                    [Token('0', if v < 0 then Digits(-v) else Digits(v))] + expected) <==>
      v >= 0 && Reports(State(post, stack, '0'), expected)
  {
    var st := State(IntText(v) + post, stack, vtype);
    hide Reports, Digits, ParseNext, Follows;
    if v < 0 {
      ReportsStep(st, Token('0', Digits(-v)), expected);
      assert st.rest == "-" + (Digits(-v) + post);
      ParsesMinus(Digits(-v) + post, stack, vtype);
    } else {
      DigitsAreDigits(v);
      ParsesDigits(Digits(v), post, stack, vtype);
      ReportsStep(st, Token('0', Digits(v)), expected);
    }
  }

  lemma PushStep(c: char, x: string, stack: string, vtype: char, expected: seq<Token>)
    requires c == '{' || c == ':' || (c == '[' && (Top(stack) == '[' || Top(stack) == ':'))
    ensures Reports(State([c] + x, stack, vtype), [Token(c, "")] + expected) <==>
      |stack| < STACK_SIZE && Reports(State(x, stack + [c], '\0'), expected)
  {
    var st := State([c] + x, stack, vtype);
    assert ([c] + x)[1..] == x;
    ReportsStep(st, Token(c, ""), expected);
    hide Reports;
  }

  lemma CommaStep(x: string, stack: string, vtype: char, expected: seq<Token>)
    requires Top(stack) == '[' || Top(stack) == ':'
    ensures Reports(State([','] + x, stack, vtype), [Token(',', "")] + expected) <==>
      (Top(stack) == ':' ==> vtype != '\0')
      && Reports(State(x, if Top(stack) == ':' then Pop(stack) else stack, vtype), expected)
  {
    var st := State([','] + x, stack, vtype);
    assert ([','] + x)[1..] == x;
    ReportsStep(st, Token(',', ""), expected);
    hide Reports;
  }

  // ---------------------------------------------------------- whole values

  /** The stack inside a container: its bracket, and the colon of the pair before `i`. */
  function InStack(v: Value, stack: string, i: nat): (r: string) {
    stack + [if v.Object? then '{' else '['] + (if v.Object? && i > 0 then ":" else "")
  }

  /** The closing bracket of a container, whose last value had the type `vtype`. */
  lemma CloseStep(v: Value, post: string, stack: string, vtype: char, expected: seq<Token>)
    requires IsContainer(v)
    ensures Reports(State(Closing(v) + post, InStack(v, stack, Count(v)), vtype),
                    [Token(if v.Object? then '}' else ']', "")] + expected) <==>
      (v.Object? && Count(v) > 0 ==> vtype != '\0') && Reports(State(post, stack, vtype), expected)
  {
    var c := if v.Object? then '}' else ']';
    var inside := InStack(v, stack, Count(v));
    assert Closing(v) + post == "\n" + ([c] + post);
    InsideClosed(v, stack);
    hide Reports, Count, Closing, InStack;
    ReportsPastNewline([c] + post, inside, vtype, [Token(c, "")] + expected);
    ReportsStep(State([c] + post, inside, vtype), Token(c, ""), expected);
    assert ([c] + post)[1..] == post;
  }

  /** The stack inside a container: its bracket, and the colon of a last pair. */
  lemma InsideClosed(v: Value, stack: string)
    requires IsContainer(v)
    ensures var inside := InStack(v, stack, Count(v));
            var open := stack + [if v.Object? then '{' else '['];
            && Pop(open) == stack && open != ""
            && (if v.Object? && Count(v) > 0 then inside == open + ":" && Pop(inside) == open else inside == open)
  {
    var open := stack + [if v.Object? then '{' else '['];
    assert open + "" == open;
  }

  /** The comma behind a child, up to what is printed before the next. */
  lemma SeparatorStep(v: Value, i: nat, x: string, stack: string, vtype: char, expected: seq<Token>)
    requires IsContainer(v) && 0 < i && x != ""
    ensures Reports(State(Separator(i) + x, InStack(v, stack, i), vtype), [Token(',', "")] + expected) <==>
      (v.Object? ==> vtype != '\0') && Reports(State(x, InStack(v, stack, 0), vtype), expected)
  {
    var inside := InStack(v, stack, i);
    assert Separator(i) + x == [','] + ("\n" + x);
    CommaStep("\n" + x, inside, vtype, expected);
    assert v.Object? ==> Pop(inside) == InStack(v, stack, 0);
    ReportsPastNewline(x, InStack(v, stack, 0), vtype, expected);
    hide Reports;
  }

  /** The name of a pair with its colon; before an element, nothing. */
  lemma LabelStep(v: Value, i: nat, x: string, stack: string, vtype: char, expected: seq<Token>)
    requires IsContainer(v) && i < Count(v) && x != ""
    ensures var vtype' := if v.Object? then '\0' else vtype;
            Reports(State(Label(v, i) + x, InStack(v, stack, 0), vtype), NameTokens(v, i) + expected) <==>
              (v.Object? ==> Plain(v.pairs[i].name) && |stack| + 1 < STACK_SIZE)
              && Reports(State(x, InStack(v, stack, i + 1), vtype'), expected)
  {
    var inside := InStack(v, stack, 0);
    if v.Object? {
      var name := v.pairs[i].name;
      var colon := [Token(':', "")] + expected;
      assert Label(v, i) + x == Quoted(name) + ([':'] + x);
      assert NameTokens(v, i) + expected == [Token('N', name)] + colon;
      assert InStack(v, stack, i + 1) == inside + [':'] && Top(inside) == '{' && |inside| == |stack| + 1;
      hide Reports, Quoted, Plain, InStack;
      TextStep(name, [':'] + x, inside, vtype, 'N', colon);
      PushStep(':', x, inside, 'N', expected);
    } else {
      assert Label(v, i) + x == x && NameTokens(v, i) + expected == expected;
      assert InStack(v, stack, i + 1) == inside;
      hide Reports;
    }
  }

  lemma {:induction false} RenderNotEmpty(v: Value, i: nat)
    ensures Render(v) != "" && (i > 0 ==> Follows(RenderFrom(v, i))) && RenderFrom(v, i) != ""
    decreases v, 0
  {
    RenderIs(v);
    RenderStep(v, i);
    hide Render, RenderFrom, Escaped, Digits;
    if i < Count(v) {
      RenderNotEmpty(Child(v, i), 0);
    }
  }

  lemma TokensIs(v: Value, i: nat)
    ensures v.Text? ==> Tokens(v) == [Token('"', v.s)]
    ensures v.Int? ==> Tokens(v) == [Token('0', if v.v < 0 then Digits(-v.v) else Digits(v.v))]
    ensures IsContainer(v) ==> Tokens(v) == [Token(if v.Object? then '{' else '[', "")] + TokensFrom(v, 0)
    ensures i >= Count(v) ==> TokensFrom(v, i) == [Token(if v.Object? then '}' else ']', "")]
    ensures i < Count(v) ==>
      TokensFrom(v, i) ==
      (if i > 0 then [Token(',', "")] else []) + NameTokens(v, i) + Tokens(Child(v, i)) + TokensFrom(v, i + 1)
  {
  }

  lemma ParsableIs(v: Value, i: nat, depth: nat)
    ensures v.Text? ==> (Parsable(v, depth) <==> Plain(v.s))
    ensures v.Int? ==> (Parsable(v, depth) <==> v.v >= 0)
    ensures IsContainer(v) ==> (Parsable(v, depth) <==> depth < STACK_SIZE && ParsableFrom(v, 0, depth + 1))
    ensures i >= Count(v) ==> ParsableFrom(v, i, depth)
    ensures i < Count(v) && v.Object? ==> (ParsableFrom(v, i, depth) <==>
      Plain(v.pairs[i].name) && depth < STACK_SIZE && Parsable(Child(v, i), depth + 1) && EndsWithAtom(Child(v, i))
      && ParsableFrom(v, i + 1, depth))
    ensures i < Count(v) && v.Array? ==> (ParsableFrom(v, i, depth) <==>
      Parsable(Child(v, i), depth) && ParsableFrom(v, i + 1, depth))
  {
  }

  lemma LastTypeIs(v: Value)
    ensures v.Text? ==> LastType(v) == '"'
    ensures v.Int? ==> LastType(v) == '0'
    ensures IsContainer(v) && Count(v) == 0 ==> LastType(v) == '\0'
    ensures IsContainer(v) && Count(v) > 0 ==> LastType(v) == LastType(Child(v, Count(v) - 1))
  {
  }

  /** A rendered value in its place: it is reported as its tokens, and leaves the stack as it was,
      exactly when it is parsable there. */
  lemma {:induction false} ValueReports(v: Value, post: string, stack: string, vtype: char, expected: seq<Token>)
    requires Follows(post) || v.Object?
    requires v.Object? || Top(stack) == '[' || Top(stack) == ':'
    ensures Reports(State(Render(v) + post, stack, vtype), Tokens(v) + expected) <==>
      Parsable(v, |stack|) && Reports(State(post, stack, LastType(v)), expected)
    decreases v, Count(v) + 1
  {
    hide Render, RenderFrom, Tokens, TokensFrom, Parsable, ParsableFrom, Reports, LastType, Quoted, Digits, Plain;
    hide Top, Follows, IntText;
    RenderIs(v);
    TokensIs(v, 0);
    ParsableIs(v, 0, |stack|);
    LastTypeIs(v);
    if v.Text? {
      TextStep(v.s, post, stack, vtype, '"', expected);
    } else if v.Int? {
      NumberStep(v.v, post, stack, vtype, expected);
    } else {
      ContainerReports(v, post, stack, vtype, expected);
    }
  }

  lemma {:induction false} ContainerReports(v: Value, post: string, stack: string, vtype: char, expected: seq<Token>)
    requires IsContainer(v)
    requires Follows(post) || v.Object?
    requires v.Object? || Top(stack) == '[' || Top(stack) == ':'
    ensures Reports(State(Render(v) + post, stack, vtype), Tokens(v) + expected) <==>
      Parsable(v, |stack|) && Reports(State(post, stack, LastType(v)), expected)
    decreases v, Count(v), 1
  {
    hide Render, RenderFrom, Tokens, TokensFrom, Parsable, ParsableFrom, Reports, LastType, Top, Follows;
    hide InStack, Count, Opening;
    var c := if v.Object? then '{' else '[';
    var body := RenderFrom(v, 0) + post;
    var later := TokensFrom(v, 0) + expected;
    ContainerBegins(v, post, stack, expected);
    ParsableIs(v, 0, |stack|);
    LastTypeIs(v);
    PushStep(c, "\n" + body, stack, vtype, later);
    ReportsPastNewline(body, stack + [c], '\0', later);
    FromReports(v, 0, post, stack, '\0', expected);
  }

  lemma ContainerBegins(v: Value, post: string, stack: string, expected: seq<Token>)
    requires IsContainer(v)
    ensures var c := if v.Object? then '{' else '[';
            && RenderFrom(v, 0) + post != ""
            && Render(v) + post == [c] + ("\n" + (RenderFrom(v, 0) + post))
            && Tokens(v) + expected == [Token(c, "")] + (TokensFrom(v, 0) + expected)
            && InStack(v, stack, 0) == stack + [c]
  {
    hide Render, RenderFrom, Tokens, TokensFrom, Opening, InStack, Count, AtomText, Follows;
    RenderIs(v);
    TokensIs(v, 0);
    RenderNotEmpty(v, 0);
    var c := if v.Object? then '{' else '[';
    BracketIs(v, stack);
    BracketThen(c, RenderFrom(v, 0), post, [Token(c, "")], TokensFrom(v, 0), expected);
  }

  lemma BracketIs(v: Value, stack: string)
    requires IsContainer(v)
    ensures var c := if v.Object? then '{' else '[';
            Opening(v) == [c] + "\n" && InStack(v, stack, 0) == stack + [c]
  {
    var c := if v.Object? then '{' else '[';
    assert stack + [c] + "" == stack + [c];
  }

  lemma BracketThen(c: char, body: string, post: string, a: seq<Token>, b: seq<Token>, d: seq<Token>)
    ensures ([c] + "\n" + body) + post == [c] + ("\n" + (body + post))
    ensures (a + b) + d == a + (b + d)
  {
  }

  /** A container from its child `i` on, inside its brackets. */
  lemma {:induction false} FromReports(v: Value, i: nat, post: string, stack: string, vtype: char, expected: seq<Token>)
    requires IsContainer(v) && i <= Count(v)
    requires Follows(post) || v.Object?
    ensures Reports(State(RenderFrom(v, i) + post, InStack(v, stack, i), vtype), TokensFrom(v, i) + expected) <==>
      && (v.Object? && i > 0 ==> vtype != '\0')
      && ParsableFrom(v, i, |stack| + 1)
      && Reports(State(post, stack, if i == Count(v) then vtype else LastType(v)), expected)
    decreases v, Count(v) - i, 0
  {
    hide Render, RenderFrom, Tokens, TokensFrom, Parsable, ParsableFrom, Reports, LastType, Follows, InStack;
    hide Closing, Separator, Label, NameTokens, EndsWithAtom, Child;
    RenderStep(v, i);
    TokensIs(v, i);
    ParsableIs(v, i, |stack| + 1);
    if i == Count(v) {
      CloseStep(v, post, stack, vtype, expected);
    } else {
      ChildReports(v, i, post, stack, vtype, expected);
      LastTypeIs(v);
      var tail := Render(Child(v, i)) + (RenderFrom(v, i + 1) + post);
      var tokens := Tokens(Child(v, i)) + (TokensFrom(v, i + 1) + expected);
      RenderNotEmpty(Child(v, i), 0);
      var labelled := Label(v, i) + tail;
      var named := NameTokens(v, i) + tokens;
      FourThenText(Separator(i), Label(v, i), Render(Child(v, i)), RenderFrom(v, i + 1), post);
      FourThenTokens(if i > 0 then [Token(',', "")] else [], NameTokens(v, i), Tokens(Child(v, i)),
                     TokensFrom(v, i + 1), expected);
      if i > 0 {
        SeparatorStep(v, i, labelled, stack, vtype, named);
      } else {
        NoSeparator(labelled, named);
      }
    }
  }

  lemma NoSeparator(x: string, tokens: seq<Token>)
    ensures Separator(0) + x == x && [] + tokens == tokens
  {
  }

  lemma FourThenText(a: string, b: string, c: string, d: string, e: string)
    ensures (a + b + c + d) + e == a + (b + (c + (d + e)))
  {
  }

  lemma FourThenTokens(a: seq<Token>, b: seq<Token>, c: seq<Token>, d: seq<Token>, e: seq<Token>)
    ensures (a + b + c + d) + e == a + (b + (c + (d + e)))
  {
  }

  /** A child with its label, and what follows it. */
  lemma {:induction false} ChildReports(v: Value, i: nat, post: string, stack: string, vtype: char, expected: seq<Token>)
    requires IsContainer(v) && i < Count(v)
    requires Follows(post) || v.Object?
    ensures var tail := Render(Child(v, i)) + (RenderFrom(v, i + 1) + post);
            var tokens := Tokens(Child(v, i)) + (TokensFrom(v, i + 1) + expected);
            Reports(State(Label(v, i) + tail, InStack(v, stack, 0), vtype), NameTokens(v, i) + tokens) <==>
              ParsableFrom(v, i, |stack| + 1) && Reports(State(post, stack, LastType(v)), expected)
    decreases v, Count(v) - i - 1, 1
  {
    hide Render, RenderFrom, Tokens, TokensFrom, Parsable, ParsableFrom, Reports, LastType, Label, NameTokens, EndsWithAtom;
    var c := Child(v, i);
    var rest := RenderFrom(v, i + 1) + post;
    var later := TokensFrom(v, i + 1) + expected;
    var inside := InStack(v, stack, i + 1);
    assert Top(inside) == (if v.Object? then ':' else '[') && |inside| == |stack| + (if v.Object? then 2 else 1);
    hide InStack, Top;
    RenderNotEmpty(v, i + 1);
    RenderNotEmpty(c, 0);
    assert Follows(rest);
    hide Follows;
    ParsableIs(v, i, |stack| + 1);
    LastTypeIs(v);
    LabelStep(v, i, Render(c) + rest, stack, vtype, Tokens(c) + later);
    ValueReports(c, rest, inside, if v.Object? then '\0' else vtype, later);
    FromReports(v, i + 1, post, stack, LastType(c), expected);
  }

  /** A text that begins with no opening brace is not reported as a tree. */
  lemma OtherRoot(v: Value)
    requires !v.Object?
    ensures !Reports(State(Render(v), "", '\0'), Tokens(v))
  {
    RenderIs(v);
    TokensIs(v, 0);
    RenderNotEmpty(v, 0);
    hide Render, RenderFrom, Tokens, TokensFrom;
    var s := State(Render(v), "", '\0');
    ReportsStep(s, Tokens(v)[0], Tokens(v)[1..]);
    assert [Tokens(v)[0]] + Tokens(v)[1..] == Tokens(v);
    hide Reports;
    if v.Int? {
      IntBegins(v.v);
    }
  }

  lemma IntBegins(v: int)
    ensures IntText(v) != "" && (IntText(v)[0] == '-' || IsDigit(IntText(v)[0]))
  {
    DigitsAreDigits(if v < 0 then -v else v);
  }

  lemma MeaningsJoin(a: seq<Token>, b: seq<Token>)
    ensures Meanings(a + b) == Meanings(a) + Meanings(b)
  {
    hide Meaning;
  }

  /** The tokens of a parsable tree say what the tree says, with every number by its value. */
  lemma {:induction false} TokensMean(v: Value, depth: nat)
    requires Parsable(v, depth)
    ensures Meanings(Tokens(v)) == Events(v)
    decreases v, Count(v) + 1
  {
    match v
    case Text(s) =>
    case Int(k) => DigitsMean(k);
    case Array(_) =>
      TokensFromMean(v, 0, depth + 1);
      MeaningsJoin([Token('[', "")], TokensFrom(v, 0));
      assert Meanings([Token('[', "")]) == [MarkEvent('[')];
    case Object(_) =>
      TokensFromMean(v, 0, depth + 1);
      MeaningsJoin([Token('{', "")], TokensFrom(v, 0));
      assert Meanings([Token('{', "")]) == [MarkEvent('{')];
  }

  lemma DigitsMean(k: nat)
    ensures Meaning(Token('0', Digits(k))) == NumberEvent(k) && IsNumeral(Digits(k))
  {
    DigitsAreNumber(k);
    hide DecimalValue, Digits;
  }

  /** What a container says from its child `i` on, with its closing mark. */
  function EventsFrom(v: Value, i: nat): (es: seq<Event>)
    requires IsContainer(v)
  {
    if v.Array? then ItemEvents(v, i) + [MarkEvent(']')] else PairEvents(v, i) + [MarkEvent('}')]
  }

  lemma {:induction false} TokensFromMean(v: Value, i: nat, depth: nat)
    requires IsContainer(v) && ParsableFrom(v, i, depth)
    ensures Meanings(TokensFrom(v, i)) == EventsFrom(v, i)
    decreases v, if i < Count(v) then Count(v) - i else 0
  {
    EventsStep(v, i);
    TokensIs(v, i);
    if i < Count(v) {
      var c := Child(v, i);
      TokensMean(c, if v.Object? then depth + 1 else depth);
      TokensFromMean(v, i + 1, depth);
      LabelMeans(v, i);
      hide Tokens, TokensFrom, Events, Parsable, ParsableFrom, Meanings, NameTokens, EventsFrom, Child, Count;
      var comma := if i > 0 then [Token(',', "")] else [];
      MeaningsJoin(comma + NameTokens(v, i) + Tokens(c), TokensFrom(v, i + 1));
      MeaningsJoin(comma + NameTokens(v, i), Tokens(c));
      MeaningsJoin(comma, NameTokens(v, i));
    } else {
      hide TokensFrom, EventsFrom;
    }
  }

  lemma EventsStep(v: Value, i: nat)
    requires IsContainer(v)
    ensures EventsFrom(v, i) ==
      if i >= Count(v) then [MarkEvent(if v.Object? then '}' else ']')]
      else (if i == 0 then [] else [MarkEvent(',')])
           + (if v.Object? then [NameEvent(v.pairs[i].name), MarkEvent(':')] else [])
           + Events(Child(v, i)) + EventsFrom(v, i + 1)
  {
    hide Events;
    if i < Count(v) {
      var comma: seq<Event> := if i == 0 then [] else [MarkEvent(',')];
      if v.Array? {
        InParts(comma, [], Events(v.values[i]), ItemEvents(v, i + 1), [MarkEvent(']')]);
      } else {
        InParts(comma, [NameEvent(v.pairs[i].name), MarkEvent(':')], Events(v.pairs[i].value), PairEvents(v, i + 1), [MarkEvent('}')]);
      }
    }
  }

  lemma InParts(a: seq<Event>, b: seq<Event>, c: seq<Event>, d: seq<Event>, e: seq<Event>)
    ensures a + b + c + d + e == a + b + c + (d + e)
    ensures b == [] ==> a + c + d + e == a + b + c + (d + e)
  {
  }

  lemma LabelMeans(v: Value, i: nat)
    requires i < Count(v)
    ensures Meanings(NameTokens(v, i)) == if v.Object? then [NameEvent(v.pairs[i].name), MarkEvent(':')] else []
    ensures Meanings(if i > 0 then [Token(',', "")] else []) == if i == 0 then [] else [MarkEvent(',')]
  {
  }

  /** A tree that was printed is reported as its tokens, ending at depth zero without an error, exactly
      when its root is an object and it is parsable from an empty stack; the tokens then say what the tree
      says, with every integer by its value. */
  lemma TreeRoundTrip(root: Value)
    ensures Reports(State(Render(root), "", '\0'), Tokens(root)) <==> root.Object? && Parsable(root, 0)
    ensures Parsable(root, 0) ==> Meanings(Tokens(root)) == Events(root)
  {
    if Parsable(root, 0) {
      TokensMean(root, 0);
    }
    hide Meanings, Events;
    if root.Object? {
      ValueReports(root, "", "", '\0', []);
      assert Render(root) + "" == Render(root) && Tokens(root) + [] == Tokens(root);
      hide Render, Tokens, Parsable;
      assert Reports(State("", "", LastType(root)), []);
    } else {
      OtherRoot(root);
    }
  }

  /** The same of what stepping through the tree printed. */
  lemma PrintedThenParsed(root: Value)
    ensures Nested([Frame(root, 0)])
    ensures var printed := Run([Frame(root, 0)]);
            && (printed.Some? <==> Depth(root) <= MAX_DEPTH)
            && (printed.Some? ==>
                  (Reports(State(printed.value, "", '\0'), Tokens(root)) <==> root.Object? && Parsable(root, 0)))
    ensures Parsable(root, 0) ==> Meanings(Tokens(root)) == Events(root)
  {
    hide Meanings, Events;
    hide Run, Render, Tokens, Parsable, Reports, Depth;
    PrintsTree(root);
    TreeRoundTrip(root);
  }

  /** A pair whose value is an empty object is printed and not parsed: its brace leaves no value type to
      close the pair by. */
  lemma EmptyObjectRejected()
    ensures var root := Object([Pair("a", Object([]))]);
            Depth(root) <= MAX_DEPTH && !Reports(State(Render(root), "", '\0'), Tokens(root))
  {
    var inner := Object([]);
    var root := Object([Pair("a", inner)]);
    assert Child(root, 0) == inner && Count(root) == 1 && Count(inner) == 0;
    MeasuresOf(inner, 0);
    MeasuresOf(root, 0);
    MeasuresOf(root, 1);
    ParsableIs(root, 0, 0);
    ParsableIs(root, 0, 1);
    TreeRoundTrip(root);
    hide Depth, DepthFrom, Parsable, ParsableFrom, Render, Tokens, Reports;
    assert !EndsWithAtom(inner);
  }

  // -------------------------------------------------------------- any other text

  /** White space in front of more text makes no difference. */
  lemma {:induction false} ReportsPastSpace(w: string, x: string, stack: string, vtype: char, expected: seq<Token>)
    requires x != "" && forall i :: 0 <= i < |w| ==> w[i] == ' ' || w[i] == '\n'
    ensures Reports(State(w + x, stack, vtype), expected) <==> Reports(State(x, stack, vtype), expected)
    decreases |w|
  {
    if w == "" {
      assert w + x == x;
    } else {
      var rest := w[1..] + x;
      assert w + x == [w[0]] + rest && ([w[0]] + rest)[1..] == rest;
      var s, s' := State(w + x, stack, vtype), State(rest, stack, vtype);
      assert ParseNext(s) == ParseNext(s') by {
        assert SkipSpace(w + x) == SkipSpace(rest);
      }
      ReportsPastSpace(w[1..], x, stack, vtype, expected);
      hide ParseNext;
    }
  }

  /** The stack holds opening brackets and colons only. */
  predicate Openings(stack: string) {
    forall i :: 0 <= i < |stack| ==> stack[i] == '{' || stack[i] == '[' || stack[i] == ':'
  }

  /** A number is read to the end of its digits and dots, as the value of a pair or in an array. */
  lemma NumberIsWhole(digits: string, post: string, stack: string, vtype: char)
    requires digits != "" && '0' <= digits[0] <= '9'
    requires forall i :: 0 <= i < |digits| ==> '0' <= digits[i] <= '9' || digits[i] == '.'
    requires post == "" || !('0' <= post[0] <= '9' || post[0] == '.')
    requires stack != "" && stack[|stack| - 1] != '{' && Openings(stack)
    ensures ParseNext(State(digits + post, stack, vtype)) == Next(Token('0', digits), State(post, stack, '0'))
  {
    var text := digits + post;
    var tail := digits[1..];
    assert text[1..] == tail + post;
    RunsToEnd(tail, post);
    assert text[..|tail| + 1] == digits && (tail + post)[|tail|..] == post;
    assert SkipSpace(text) == text;
    hide NumberEnd, SkipSpace;
  }

  lemma {:induction false} RunsToEnd(digits: string, post: string)
    requires forall i :: 0 <= i < |digits| ==> '0' <= digits[i] <= '9' || digits[i] == '.'
    requires post == "" || !('0' <= post[0] <= '9' || post[0] == '.')
    ensures NumberEnd(digits + post) == |digits|
    decreases |digits|
  {
    if digits == "" {
      assert digits + post == post;
    } else {
      assert (digits + post)[1..] == digits[1..] + post;
      RunsToEnd(digits[1..], post);
    }
  }

  /** A character of another kind, and a digit that is no value, are passed over. */
  lemma OthersArePassed(c: char, x: string, stack: string, vtype: char)
    requires c !in "{}[]:,\" \n" && Openings(stack)
    requires '0' <= c <= '9' ==> stack == "" || stack[|stack| - 1] == '{'
    ensures ParseNext(State([c] + x, stack, vtype)) == Next(NO_TOKEN, State(x, stack, vtype))
  {
    assert ([c] + x)[1..] == x;
  }

  /** What may close the object that is open: its brace on top, or under the colon of a pair that has a value. */
  predicate ObjectCanClose(stack: string, vtype: char) {
    var n := |stack|;
    (n > 0 && stack[n - 1] == '{') || (n > 1 && stack[n - 1] == ':' && stack[n - 2] == '{' && vtype != '\0')
  }

  /** The parser reports an error exactly for a closing bracket that does not fit what is open, a comma that is neither
      in an array nor behind the value of a pair, and a string or an array outside of everything. */
  lemma RejectsExactly(s: State)
    requires Openings(s.stack)
    ensures ParseNext(s).SyntaxError? <==>
      var text := SkipSpace(s.rest);
      && text != ""
      && var n := |s.stack|;
         match text[0]
         case '}' => !ObjectCanClose(s.stack, s.vtype)
         case ']' => n == 0 || s.stack[n - 1] != '['
         case ',' => !(n > 0 && (s.stack[n - 1] == '[' || (s.stack[n - 1] == ':' && s.vtype != '\0')))
         case '"' => n == 0
         case '[' => n == 0
         case _ => false
  {
    hide SkipSpace, StringEnd, NumberEnd;
  }

  lemma CloseLeaves(rest: string, stack: string, vtype: char)
    requires Openings(stack)
    ensures var r := CloseObject(rest, stack, vtype);
            r.Next? ==> Openings(r.s.stack) && (r.s.stack + "{" == stack || r.s.stack + "{:" == stack)
  {
    var n := |stack|;
    if n > 0 && stack[n - 1] == '{' {
      assert stack[..n - 1] + "{" == stack;
    } else if ObjectCanClose(stack, vtype) {
      assert stack[..n - 1][..n - 2] + "{:" == stack;
    }
  }

  lemma MarkLeaves(c: char, rest: string, stack: string, vtype: char)
    requires IsMark(c) && Openings(stack)
    ensures var r := MarkToken(c, rest, stack, vtype);
            r.Next? ==>
              && r.token.kind == c && Openings(r.s.stack)
              && (c == '}' ==> r.s.stack + "{" == stack || r.s.stack + "{:" == stack)
              && (c == ']' ==> r.s.stack + "[" == stack)
  {
    CloseLeaves(rest, stack, vtype);
    hide CloseObject;
    if c == ']' && stack != "" && stack[|stack| - 1] == '[' {
      assert stack[..|stack| - 1] + "[" == stack;
    }
  }

  /** What a closing bracket leaves: everything that was open around its own. */
  lemma ClosingLeavesRest(s: State)
    requires Openings(s.stack)
    ensures var r := ParseNext(s);
            && (r.Next? ==> Openings(r.s.stack))
            && (r.Next? && r.token.kind == '}' ==> r.s.stack + "{" == s.stack || r.s.stack + "{:" == s.stack)
            && (r.Next? && r.token.kind == ']' ==> r.s.stack + "[" == s.stack)
  {
    var text := SkipSpace(s.rest);
    if text != "" && IsMark(text[0]) {
      MarkLeaves(text[0], text[1..], s.stack, s.vtype);
    }
    hide SkipSpace, StringEnd, NumberEnd, MarkToken, Openings, Drop;
  }
}
