/** jsontree as it works in place: the stack of values and indices that each step updates, and the
    characters that it puts out. */
module JsonPrinter {
  import opened JsonTree
  import opened JsonNumbers

  datatype Result = Again | Finished | Overrun

  class Context {
    const frames: array<Frame>
    var depth: nat
    var out: string

    ghost predicate Valid()
      reads this, frames
    {
      frames.Length == MAX_DEPTH && depth < MAX_DEPTH && Nested(View())
    }

    function View(): (stack: seq<Frame>)
      requires depth < frames.Length
      reads this, frames
    {
      frames[..depth + 1]
    }

    /** jsontree_setup. */
    constructor (root: Value)
      ensures Valid() && View() == [Frame(root, 0)] && out == "" && fresh(frames)
    {
      frames := new Frame[MAX_DEPTH](_ => Frame(root, 0));
      depth, out := 0, "";
    }

    method Put(s: string)
      modifies this`out
      ensures out == old(out) + s
    {
      out := out + s;
    }

    /** jsontree_write_string. */
    method WriteString(s: string)
      modifies this`out
      ensures out == old(out) + Quoted(s)
    {
      hide Escaped;
      Put("\"");
      assert s[0..] == s;
      var i := 0;
      while i < |s|
        invariant 0 <= i <= |s|
        invariant out + Escaped(s[i..]) == old(out) + "\"" + Escaped(s)
      {
        ghost var before := out;
        EscapedAt(s, i);
        if s[i] == '"' {
          Put("\\");
        }
        Put([s[i]]);
        assert out == before + (if s[i] == '"' then ['\\', '"'] else [s[i]]);
        i := i + 1;
      }
      assert s[i..] == "" && out + "" == out;
      EscapedNothing();
      Put("\"");
      assert out == old(out) + ("\"" + Escaped(s) + "\"");
    }

    /** jsontree_write_int: the digits are put into a buffer of ten from its end. */
    method WriteInt(value: int)
      requires -0x8000_0000 < value < 0x8000_0000
      modifies this`out
      ensures out == old(out) + IntText(value)
      ensures NumeralValue(out[|old(out)|..]) == value && IsInteger(out[|old(out)|..])
    {
      IntegerIsPrinted(value);
      hide NumeralValue, IsInteger, DecimalValue, IsNumeral;
      hide Digits;
      if value < 0 {
        Put("-");
      }
      ghost var sign := if value < 0 then "-" else "";
      var buf := new char[10](_ => '0');
      var l := FillDigits(if value < 0 then -value else value, buf);
      ghost var digits := buf[l..10];
      assert IntText(value) == sign + digits by {
        assert "" + digits == digits;
      }
      PutFrom(buf, l);
      assert (old(out) + sign) + digits == old(out) + (sign + digits);
      Behind(old(out), IntText(value));
    }

    method PutFrom(buf: array<char>, l: nat)
      requires l <= buf.Length == 10
      modifies this`out
      ensures out == old(out) + buf[l..10]
    {
      var i := l;
      while i < 10
        invariant l <= i <= 10 && out == old(out) + buf[l..i]
      {
        assert buf[l..i + 1] == buf[l..i] + [buf[i]];
        Put([buf[i]]);
        i := i + 1;
      }
    }

    /** The digits of a value, from place `l` of the buffer on. */
    method FillDigits(value: nat, buf: array<char>) returns (l: nat)
      requires value < 0x8000_0000 && buf.Length == 10
      modifies buf
      ensures l < 10 && buf[l..10] == Digits(value)
      ensures DecimalValue(buf[l..10]) == value && IsNumeral(buf[l..10])
    {
      DigitsAreNumber(value);
      hide DecimalValue, IsNumeral;
      FewDigits(value, 10);
      hide Digit, Digits;
      var v := value;
      l := 9;
      DigitsLast(v);
      buf[l] := Digit(v % 10);
      assert buf[l..10] == [Digit(v % 10)];
      v := v / 10;
      while v > 0 && l > 0
        invariant 0 <= l <= 9
        invariant Digits(value) == Ahead(v) + buf[l..10]
        decreases v
      {
        ghost var behind := buf[l..10];
        DigitAhead(v, behind);
        l := l - 1;
        buf[l] := Digit(v % 10);
        assert buf[l..10] == [Digit(v % 10)] + behind;
        v := v / 10;
      }
      AheadFits(v, buf[l..10], Digits(value));
    }

    /** The value on top is done: the one below is at its next child. */
    method Leave() returns (r: Result)
      requires Valid()
      modifies this`depth, frames
      ensures var spec := BackUp("", old(View()));
              && (r.Again? <==> spec.More?) && (r.Finished? <==> spec.Done?) && frames.Length == MAX_DEPTH
              && (spec.More? ==> depth < MAX_DEPTH && View() == spec.stack)
    {
      ghost var stack := View();
      if depth > 0 {
        depth := depth - 1;
        frames[depth] := frames[depth].(index := frames[depth].index + 1);
        assert stack[depth] == old(frames[..])[depth];
        assert View() == stack[..depth] + [stack[depth].(index := stack[depth].index + 1)];
        return Again;
      }
      return Finished;
    }

    /** jsontree_print_next: one step. A step down from the last place of the stack, which the original
        does not check, ends the model. */
    method Step() returns (r: Result)
      requires Valid()
      requires var v := frames[depth].v; v.Int? ==> -0x8000_0000 < v.v < 0x8000_0000
      modifies this, frames
      ensures var spec := PrintNext(old(View()));
              && out == old(out) + spec.out
              && (r.Again? <==> spec.More?) && (r.Finished? <==> spec.Done?)
              && (spec.More? ==> Valid() && View() == spec.stack)
    {
      hide Rest, Quoted, IntText, Nested, Entering, Begun, Closing, AtomText, BackUp, PrintNext;
      ghost var stack := View();
      StepPrintsRest(stack);
      var f := frames[depth];
      assert stack[|stack| - 1] == f;
      PrintNextCases(stack, f);
      if IsContainer(f.v) && f.index < Count(f.v) {
        r := Enter(f);
        return;
      }
      WriteEnd(f);
      r := Leave();
    }

    /** What a step prints when it leaves a value. */
    method WriteEnd(f: Frame)
      requires !IsContainer(f.v) || f.index >= Count(f.v)
      requires f.v.Int? ==> -0x8000_0000 < f.v.v < 0x8000_0000
      modifies this`out
      ensures out == old(out) + if IsContainer(f.v) then Begun(f) + Closing(f.v) else AtomText(f.v)
    {
      hide Quoted, IntText;
      if IsContainer(f.v) {
        if f.index == 0 {
          Put(Opening(f.v));
        }
        Put(Closing(f.v));
        assert out == old(out) + (Begun(f) + Closing(f.v));
      } else if f.v.Text? {
        WriteString(f.v.s);
      } else {
        WriteInt(f.v.v);
      }
    }

    /** A step down to a child. */
    method Enter(f: Frame) returns (r: Result)
      requires depth < MAX_DEPTH == frames.Length && f == frames[depth] && f.index < Count(f.v)
      modifies this, frames
      ensures out == old(out) + Entering(f) && frames.Length == MAX_DEPTH
      ensures r == if old(depth) + 1 >= MAX_DEPTH then Overrun else Again
      ensures r.Again? ==> depth < MAX_DEPTH && View() == old(View()) + [Frame(Child(f.v, f.index), 0)]
    {
      ghost var stack := View();
      if f.index == 0 {
        Put(Opening(f.v));
      }
      Put(Separator(f.index));
      WriteLabel(f);
      assert out == old(out) + Entering(f);
      if depth + 1 >= MAX_DEPTH {
        return Overrun;
      }
      depth := depth + 1;
      frames[depth] := Frame(Child(f.v, f.index), 0);
      assert View() == stack + [Frame(Child(f.v, f.index), 0)];
      return Again;
    }

    method WriteLabel(f: Frame)
      requires f.index < Count(f.v)
      modifies this`out
      ensures out == old(out) + Label(f.v, f.index)
    {
      hide Quoted;
      if f.v.Object? {
        WriteString(f.v.pairs[f.index].name);
        Put(":");
      }
    }

    /** Stepping until nothing is left, from the root on: the rendering of the tree, unless the tree is
        deeper than the stack. */
    method PrintTree() returns (r: Result)
      requires Valid() && depth == 0 && frames[0].index == 0 && out == "" && InRange(frames[0].v)
      modifies this, frames
      ensures old(frames[0].v) == old(View())[0].v
      ensures r.Finished? || r.Overrun?
      ensures r.Finished? <==> Depth(old(frames[0].v)) <= MAX_DEPTH
      ensures r.Finished? ==> out == Render(old(frames[0].v))
    {
      ghost var root := frames[0].v;
      assert View() == [Frame(root, 0)];
      PrintsTree(root);
      ExtendNothing(Run([Frame(root, 0)]));
      hide Render, Run, PrintNext, Nested, StepsLeft, InRange, Depth, Extended;
      r := Again;
      while r.Again?
        invariant r.Again? ==> Valid() && AllInRange(View())
        invariant r.Again? ==> Run([Frame(root, 0)]) == Extended(out, Run(View()))
        invariant r.Finished? ==> Run([Frame(root, 0)]) == Some(out)
        invariant r.Overrun? ==> Run([Frame(root, 0)]) == None
        decreases r.Again?, if r.Again? then StepsLeft(View()) else 0
      {
        ghost var stack := View();
        RunStep(stack, out);
        RangeStep(stack);
        assert stack[|stack| - 1] == frames[depth];
        r := Step();
      }
    }
  }

  /** Integers that jsontree_write_int can negate. */
  predicate InRange(v: Value)
    decreases v, Count(v) + 1
  {
    if v.Int? then -0x8000_0000 < v.v < 0x8000_0000 else v.Text? || RangeFrom(v, 0)
  }

  predicate RangeFrom(v: Value, i: nat)
    decreases v, if i < Count(v) then Count(v) - i else 0
  {
    i >= Count(v) || (InRange(Child(v, i)) && RangeFrom(v, i + 1))
  }

  predicate AllInRange(stack: seq<Frame>) {
    forall j :: 0 <= j < |stack| ==> InRange(stack[j].v)
  }

  function Extended(out: string, r: Option<string>): (s: Option<string>) {
    if r.None? then None else Some(out + r.value)
  }

  lemma Behind(a: string, b: string)
    ensures (a + b)[|a|..] == b
  {
  }

  lemma ExtendNothing(r: Option<string>)
    ensures Extended("", r) == r
  {
    if r.Some? {
      assert "" + r.value == r.value;
    }
  }

  /** A step goes down to a child, or leaves a value, which puts out the end of it. */
  lemma PrintNextCases(stack: seq<Frame>, f: Frame)
    requires stack != [] && stack[|stack| - 1] == f
    ensures IsContainer(f.v) && f.index < Count(f.v) ==>
      PrintNext(stack) == if |stack| >= MAX_DEPTH then Overflow(Entering(f))
                          else More(Entering(f), stack + [Frame(Child(f.v, f.index), 0)])
    ensures !IsContainer(f.v) || f.index >= Count(f.v) ==>
      var a, b := BackUp("", stack), PrintNext(stack);
      && b.out == (if IsContainer(f.v) then Begun(f) + Closing(f.v) else AtomText(f.v))
      && (a.More? <==> b.More?) && (a.Done? <==> b.Done?) && (a.More? ==> b.stack == a.stack)
  {
    hide Entering, Begun, Closing, AtomText;
  }

  lemma EscapedNothing()
    ensures Escaped("") == ""
  {
  }

  lemma EscapedAt(s: string, i: nat)
    requires i < |s|
    ensures Escaped(s[i..]) == (if s[i] == '"' then ['\\', '"'] else [s[i]]) + Escaped(s[i + 1..])
  {
    assert s[i..][1..] == s[i + 1..];
  }

  /** The digits that are still to be put in front. */
  function Ahead(v: nat): (s: string) { if v > 0 then Digits(v) else "" }

  lemma DigitAhead(v: nat, behind: string)
    requires v > 0
    ensures Ahead(v) + behind == Ahead(v / 10) + ([Digit(v % 10)] + behind)
  {
    DigitsLast(v);
    hide Digits, Digit;
    assert Ahead(v) == Ahead(v / 10) + [Digit(v % 10)];
  }

  /** When the buffer is used up, no digit is left over. */
  lemma AheadFits(v: nat, behind: string, all: string)
    requires all == Ahead(v) + behind && |all| <= 10 && (v == 0 || |behind| == 10)
    ensures behind == all
  {
    if v > 0 {
      DigitsLast(v);
    }
  }

  lemma DigitsLast(v: nat)
    ensures Digits(v) == (if v / 10 > 0 then Digits(v / 10) else "") + [Digit(v % 10)]
  {
    assert v < 10 ==> "" + [Digit(v)] == [Digit(v)];
  }

  lemma {:induction false} FewDigits(v: nat, n: nat)
    requires n >= 1 && v < Ten(n)
    ensures |Digits(v)| <= n
    decreases n
  {
    if v >= 10 {
      FewDigits(v / 10, n - 1);
    }
  }

  function Ten(n: nat): (p: nat) { if n == 0 then 1 else 10 * Ten(n - 1) }

  /** A step of a run, behind what was put out before. */
  lemma RunStep(stack: seq<Frame>, out: string)
    requires Nested(stack) && |stack| <= MAX_DEPTH
    ensures var step := PrintNext(stack);
            && (step.Overflow? ==> Extended(out, Run(stack)) == None)
            && (step.Done? ==> Extended(out, Run(stack)) == Some(out + step.out))
            && (step.More? ==>
                  && Nested(step.stack) && |step.stack| <= MAX_DEPTH
                  && StepsLeft(step.stack) < StepsLeft(stack)
                  && Extended(out, Run(stack)) == Extended(out + step.out, Run(step.stack)))
  {
    StepMeasures(stack);
    hide PrintNext, StepsLeft, Fits;
    var step := PrintNext(stack);
    if step.More? {
      var rest := Run(step.stack);
      if rest.Some? {
        assert out + (step.out + rest.value) == (out + step.out) + rest.value;
      }
    }
  }

  lemma {:induction false} RangeAt(v: Value, i: nat, j: nat)
    requires RangeFrom(v, i) && i <= j < Count(v)
    ensures InRange(Child(v, j))
    decreases j - i
  {
    if i < j {
      RangeAt(v, i + 1, j);
    }
  }

  lemma RangeStep(stack: seq<Frame>)
    requires Nested(stack) && AllInRange(stack)
    ensures var v := stack[|stack| - 1].v; v.Int? ==> -0x8000_0000 < v.v < 0x8000_0000
    ensures PrintNext(stack).More? ==> AllInRange(PrintNext(stack).stack)
  {
    var f := stack[|stack| - 1];
    assert InRange(f.v);
    if IsContainer(f.v) && f.index < Count(f.v) {
      RangeAt(f.v, 0, f.index);
    }
    hide InRange, RangeFrom, AtomText, Entering, Begun, Closing, Child;
  }
}
