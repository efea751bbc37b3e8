/** Printing a tree of JSON values one step at a time, with an explicit stack, against the recursive
    rendering of the tree (RFC 8259, sections 2 to 7). */
module JsonTree {

  const MAX_DEPTH: nat := 10

  datatype Value =
    | Object(pairs: seq<Pair>)
    | Array(values: seq<Value>)
    | Text(s: string)
    | Int(v: int)

  datatype Pair = Pair(name: string, value: Value)

  predicate IsContainer(v: Value) { v.Object? || v.Array? }

  function Count(v: Value): (n: nat) {
    if v.Object? then |v.pairs| else if v.Array? then |v.values| else 0
  }

  function Child(v: Value, i: nat): (c: Value)
    requires i < Count(v)
    ensures c < v
  {
    if v.Object? then (assert v.pairs[i] < v; v.pairs[i].value) else v.values[i]
  }

  // --------------------------------------------------------------- rendering

  /** jsontree_write_string: quotes are escaped, nothing else is. */
  function Escaped(s: string): (r: string) {
    if s == "" then "" else (if s[0] == '"' then ['\\', '"'] else [s[0]]) + Escaped(s[1..])
  }

  function Quoted(s: string): (r: string) { ['"'] + Escaped(s) + ['"'] }

  function Digit(d: nat): (c: char)
    requires d < 10
  {
    "0123456789"[d]
  }

  function Digits(v: nat): (r: string)
    ensures r != ""
  {
    if v < 10 then [Digit(v)] else Digits(v / 10) + [Digit(v % 10)]
  }

  /** jsontree_write_int. */
  function IntText(v: int): (r: string) { if v < 0 then "-" + Digits(-v) else Digits(v) }

  /** What is printed for a value that is no container. */
  function AtomText(v: Value): (s: string) { if v.Text? then Quoted(v.s) else if v.Int? then IntText(v.v) else "" }

  function Opening(v: Value): (s: string) { if v.Object? then "{\n" else "[\n" }
  function Closing(v: Value): (s: string) { if v.Object? then "\n}" else "\n]" }

  function Label(v: Value, i: nat): (s: string)
    requires i < Count(v)
  {
    if v.Object? then Quoted(v.pairs[i].name) + ":" else ""
  }

  function Separator(i: nat): (s: string) { if i > 0 then ",\n" else "" }

  function Render(v: Value): (s: string)
    decreases v, Count(v) + 1
  {
    if IsContainer(v) then Opening(v) + RenderFrom(v, 0) else AtomText(v)
  }

  /** A container from its child `i` on. */
  function RenderFrom(v: Value, i: nat): (s: string)
    decreases v, if i < Count(v) then Count(v) - i else 0
  {
    if i >= Count(v) then Closing(v)
    else Separator(i) + Label(v, i) + Render(Child(v, i)) + RenderFrom(v, i + 1)
  }

  // ---------------------------------------------------------------- printing

  /** A value on the stack, with the index that says how far it is printed. */
  datatype Frame = Frame(v: Value, index: nat)

  /** What a step prints and leaves: the new stack, or nothing when the root is done, or a write beyond
      the stack. */
  datatype Step = More(out: string, stack: seq<Frame>) | Done(out: string) | Overflow(out: string)

  /** Back up one level: the value below is at its next child. */
  function BackUp(out: string, stack: seq<Frame>): (r: Step)
    requires stack != []
  {
    var n := |stack| - 1;
    if n == 0 then Done(out)
    else More(out, stack[..n - 1] + [stack[n - 1].(index := stack[n - 1].index + 1)])
  }

  /** The opening bracket, before the first child. */
  function Begun(f: Frame): (s: string) { if f.index == 0 then Opening(f.v) else "" }

  /** What is printed before a child. */
  function Entering(f: Frame): (s: string)
    requires f.index < Count(f.v)
  {
    Begun(f) + Separator(f.index) + Label(f.v, f.index)
  }

  /** jsontree_print_next. */
  function PrintNext(stack: seq<Frame>): (r: Step)
    requires stack != []
  {
    var n := |stack| - 1;
    var (v, i) := (stack[n].v, stack[n].index);
    if !IsContainer(v) then BackUp(AtomText(v), stack)
    else if i >= Count(v) then BackUp(Begun(stack[n]) + Closing(v), stack)
    else
      var out := Entering(stack[n]);
      if |stack| >= MAX_DEPTH then Overflow(out) else More(out, stack + [Frame(Child(v, i), 0)])
  }

  // -------------------------------------------------------- what is left

  /** What is still to be printed of the value on top. */
  function TopRest(f: Frame): (s: string) {
    if IsContainer(f.v) && f.index > 0 then RenderFrom(f.v, f.index) else Render(f.v)
  }

  /** What is still to be printed of the values below, each of which has a child being printed. */
  function BelowRest(stack: seq<Frame>): (s: string)
    decreases |stack|
  {
    if stack == [] then "" else
    var n := |stack| - 1;
    RenderFrom(stack[n].v, stack[n].index + 1) + BelowRest(stack[..n])
  }

  function Rest(stack: seq<Frame>): (s: string)
    requires stack != []
  {
    TopRest(stack[|stack| - 1]) + BelowRest(stack[..|stack| - 1])
  }

  /** The values below the top are containers with a child at their index. */
  predicate Nested(stack: seq<Frame>) {
    && stack != []
    && (forall j :: 0 <= j < |stack| - 1 ==> stack[j].index < Count(stack[j].v))
  }

  lemma BelowRestTop(stack: seq<Frame>, f: Frame)
    ensures BelowRest(stack + [f]) == RenderFrom(f.v, f.index + 1) + BelowRest(stack)
  {
    hide RenderFrom;
    assert (stack + [f])[..|stack|] == stack;
  }

  lemma TopRestDef(f: Frame)
    ensures TopRest(f) == if IsContainer(f.v) && f.index > 0 then RenderFrom(f.v, f.index) else Render(f.v)
    ensures Begun(f) == if f.index == 0 then Opening(f.v) else ""
  {
    hide RenderFrom, Render, Opening, IsContainer;
  }

  lemma Together(a: string, b: string, c: string, d: string, e: string)
    ensures a + (b + c + d + e) == (a + b + c) + (d + e)
    ensures "" + (b + c + d + e) == b + c + d + e
  {
  }

  /** What is left of a value on top, in its three situations. */
  lemma TopRestIs(f: Frame)
    ensures !IsContainer(f.v) ==> TopRest(f) == AtomText(f.v)
    ensures IsContainer(f.v) && f.index >= Count(f.v) ==> TopRest(f) == Begun(f) + Closing(f.v)
    ensures IsContainer(f.v) && f.index < Count(f.v) ==>
      TopRest(f) == Entering(f) + (Render(Child(f.v, f.index)) + RenderFrom(f.v, f.index + 1))
  {
    hide TopRest, Begun, Render, RenderFrom, Opening, Closing, Label, AtomText, IsContainer, Separator, Child, Count;
    TopRestDef(f);
    RenderIs(f.v);
    if IsContainer(f.v) {
      RenderStep(f.v, f.index);
      if f.index < Count(f.v) {
        Together(Begun(f), Separator(f.index), Label(f.v, f.index), Render(Child(f.v, f.index)),
                 RenderFrom(f.v, f.index + 1));
      } else {
        Together("", Closing(f.v), "", "", "");
      }
    }
  }

  lemma RenderIs(v: Value)
    ensures Render(v) == if IsContainer(v) then Opening(v) + RenderFrom(v, 0) else AtomText(v)
  {
    hide RenderFrom, Opening, AtomText;
  }

  lemma RenderStep(v: Value, i: nat)
    ensures RenderFrom(v, i) ==
      if i >= Count(v) then Closing(v)
      else Separator(i) + Label(v, i) + Render(Child(v, i)) + RenderFrom(v, i + 1)
  {
    hide Render, Closing, Label, Separator;
  }

  /** What a step prints and what is left after it are what was left before it. */
  lemma StepPrintsRest(stack: seq<Frame>)
    requires Nested(stack)
    ensures var r := PrintNext(stack);
            && (r.More? ==> Nested(r.stack) && r.out + Rest(r.stack) == Rest(stack))
            && (r.Done? ==> r.out == Rest(stack))
            && (r.Overflow? ==> r.out <= Rest(stack))
  {
    hide TopRest, RenderFrom, Render, AtomText, Entering, Begun, Closing, Rest;
    var n := |stack| - 1;
    var f := stack[n];
    TopRestIs(f);
    if !IsContainer(f.v) || f.index >= Count(f.v) {
      LeavesValue(stack);
    } else {
      EntersChild(stack);
    }
  }

  lemma LeavesValue(stack: seq<Frame>)
    requires Nested(stack)
    ensures var f := stack[|stack| - 1];
            var r := BackUp(TopRest(f), stack);
            && (r.More? ==> Nested(r.stack) && r.out + Rest(r.stack) == Rest(stack))
            && (r.Done? ==> r.out == Rest(stack))
  {
    hide RenderFrom, Render, IsContainer;
    var n := |stack| - 1;
    var f := stack[n];
    var r := BackUp(TopRest(f), stack);
    if n > 0 {
      var g := stack[n - 1];
      BelowRestTop(stack[..n - 1], g);
      assert stack[..n] == stack[..n - 1] + [g];
      assert r.stack[..n - 1] == stack[..n - 1];
      BackedTop(g);
      hide TopRest, BelowRest;
    } else {
      assert BelowRest(stack[..0]) == "";
    }
  }

  lemma BackedTop(g: Frame)
    requires g.index < Count(g.v)
    ensures TopRest(g.(index := g.index + 1)) == RenderFrom(g.v, g.index + 1)
  {
    hide RenderFrom, Render;
  }

  lemma EntersChild(stack: seq<Frame>)
    requires Nested(stack)
    requires var f := stack[|stack| - 1]; IsContainer(f.v) && f.index < Count(f.v)
    ensures var f := stack[|stack| - 1];
            var next := stack + [Frame(Child(f.v, f.index), 0)];
            && Nested(next) && Entering(f) + Rest(next) == Rest(stack) && Entering(f) <= Rest(stack)
  {
    hide TopRest, RenderFrom, Render, Entering, Child, BelowRest, IsContainer, Count;
    var n := |stack| - 1;
    var f := stack[n];
    var c := Child(f.v, f.index);
    var next := stack + [Frame(c, 0)];
    TopRestIs(f);
    TopRestDef(Frame(c, 0));
    BelowRestTop(stack[..n], f);
    assert stack[..n] + [f] == stack && next[..n + 1] == stack && next[n + 1] == Frame(c, 0);
    InTurn(Entering(f), Render(c), RenderFrom(f.v, f.index + 1), BelowRest(stack[..n]));
  }

  lemma InTurn(out: string, c: string, later: string, below: string)
    ensures out + (c + (later + below)) == (out + (c + later)) + below
    ensures out <= (out + (c + later)) + below
  {
  }

  // ------------------------------------------------------ depth and steps

  function Max(a: nat, b: nat): (r: nat) { if a < b then b else a }

  /** How deep a value nests, counting itself. */
  function Depth(v: Value): (d: nat)
    ensures d >= 1
    decreases v, Count(v) + 1
  {
    if IsContainer(v) then 1 + DepthFrom(v, 0) else 1
  }

  /** The depth of the deepest child from `i` on. */
  function DepthFrom(v: Value, i: nat): (d: nat)
    decreases v, if i < Count(v) then Count(v) - i else 0
  {
    if i >= Count(v) then 0 else Max(Depth(Child(v, i)), DepthFrom(v, i + 1))
  }

  /** How many steps print a value. */
  function Steps(v: Value): (n: nat)
    ensures n >= 1
    decreases v, Count(v) + 1
  {
    if IsContainer(v) then StepsFrom(v, 0) else 1
  }

  function StepsFrom(v: Value, i: nat): (n: nat)
    ensures n >= 1
    decreases v, if i < Count(v) then Count(v) - i else 0
  {
    if i >= Count(v) then 1 else 1 + Steps(Child(v, i)) + StepsFrom(v, i + 1)
  }

  function TopSteps(f: Frame): (n: nat)
    ensures n >= 1
  {
    if IsContainer(f.v) then StepsFrom(f.v, f.index) else 1
  }

  function BelowSteps(stack: seq<Frame>): (n: nat)
    decreases |stack|
  {
    if stack == [] then 0 else
    var n := |stack| - 1;
    StepsFrom(stack[n].v, stack[n].index + 1) + BelowSteps(stack[..n])
  }

  /** The steps that are left. */
  function StepsLeft(stack: seq<Frame>): (n: nat)
    requires stack != []
    ensures n >= 1
  {
    TopSteps(stack[|stack| - 1]) + BelowSteps(stack[..|stack| - 1])
  }

  predicate TopFits(f: Frame, level: nat) {
    level + (if IsContainer(f.v) then DepthFrom(f.v, f.index) else 0) <= MAX_DEPTH
  }

  predicate BelowFits(stack: seq<Frame>)
    decreases |stack|
  {
    stack == [] ||
    var n := |stack| - 1;
    n + 1 + DepthFrom(stack[n].v, stack[n].index + 1) <= MAX_DEPTH && BelowFits(stack[..n])
  }

  /** Everything that is left can be printed without going beyond the stack. */
  predicate Fits(stack: seq<Frame>)
    requires stack != []
  {
    TopFits(stack[|stack| - 1], |stack|) && BelowFits(stack[..|stack| - 1])
  }

  lemma BelowTop(stack: seq<Frame>, f: Frame)
    ensures BelowSteps(stack + [f]) == StepsFrom(f.v, f.index + 1) + BelowSteps(stack)
    ensures BelowFits(stack + [f]) <==>
      |stack| + 1 + DepthFrom(f.v, f.index + 1) <= MAX_DEPTH && BelowFits(stack)
  {
    hide StepsFrom, DepthFrom;
    assert (stack + [f])[..|stack|] == stack;
  }

  lemma MeasuresOf(v: Value, i: nat)
    ensures TopSteps(Frame(v, 0)) == Steps(v)
    ensures Depth(v) == 1 + (if IsContainer(v) then DepthFrom(v, 0) else 0)
    ensures i < Count(v) ==> StepsFrom(v, i) == 1 + Steps(Child(v, i)) + StepsFrom(v, i + 1)
    ensures i < Count(v) ==> DepthFrom(v, i) == Max(Depth(Child(v, i)), DepthFrom(v, i + 1))
    ensures i >= Count(v) ==> StepsFrom(v, i) == 1 && DepthFrom(v, i) == 0
  {
  }

  lemma BackedMeasures(stack: seq<Frame>)
    requires Nested(stack) && |stack| > 1
    ensures var f, below := stack[|stack| - 1], BackUp("", stack).stack;
            && below != []
            && (TopSteps(f) == 1 ==> StepsLeft(stack) == StepsLeft(below) + 1)
            && (TopFits(f, |stack|) ==> (Fits(stack) <==> Fits(below)))
  {
    var n := |stack| - 1;
    var g := stack[n - 1];
    assert stack[..n] == stack[..n - 1] + [g];
    BelowTop(stack[..n - 1], g);
    var below := BackUp("", stack).stack;
    assert below[..n - 1] == stack[..n - 1] && |below| == n;
    hide StepsFrom, DepthFrom, BelowSteps, BelowFits;
    assert IsContainer(g.v);
  }

  lemma EnteredMeasures(stack: seq<Frame>)
    requires Nested(stack)
    requires var f := stack[|stack| - 1]; IsContainer(f.v) && f.index < Count(f.v)
    ensures var f := stack[|stack| - 1];
            var next := stack + [Frame(Child(f.v, f.index), 0)];
            && StepsLeft(stack) == StepsLeft(next) + 1
            && (Fits(stack) <==> Fits(next))
            && (Fits(stack) ==> |stack| < MAX_DEPTH)
  {
    var n := |stack| - 1;
    var f := stack[n];
    var c := Child(f.v, f.index);
    MeasuresOf(f.v, f.index);
    MeasuresOf(c, 0);
    var next := stack + [Frame(c, 0)];
    assert next[..n + 1] == stack == stack[..n] + [f];
    BelowTop(stack[..n], f);
    hide StepsFrom, DepthFrom, BelowSteps, BelowFits, Steps, Depth;
  }

  lemma StepMeasures(stack: seq<Frame>)
    requires Nested(stack) && |stack| <= MAX_DEPTH
    ensures var r := PrintNext(stack);
            && (r.More? ==> Nested(r.stack) && |r.stack| <= MAX_DEPTH && StepsLeft(stack) == StepsLeft(r.stack) + 1
                            && (Fits(stack) <==> Fits(r.stack)))
            && (r.Done? ==> StepsLeft(stack) == 1 && Fits(stack))
            && (r.Overflow? ==> !Fits(stack))
  {
    StepPrintsRest(stack);
    var f := stack[|stack| - 1];
    MeasuresOf(f.v, f.index);
    hide StepsFrom, DepthFrom, Rest, AtomText, Entering, Begun, Closing, StepsLeft, Fits;
    if !IsContainer(f.v) || f.index >= Count(f.v) {
      if |stack| > 1 {
        BackedMeasures(stack);
      } else {
        LastMeasures(stack);
      }
    } else {
      EnteredMeasures(stack);
    }
  }

  lemma LastMeasures(stack: seq<Frame>)
    requires |stack| == 1
    requires var f := stack[0]; !IsContainer(f.v) || f.index >= Count(f.v)
    ensures StepsLeft(stack) == 1 && Fits(stack)
  {
    MeasuresOf(stack[0].v, stack[0].index);
    assert stack[..0] == [];
  }

  datatype Option<+T> = None | Some(value: T)

  /** Stepping until nothing is left: what was printed, unless a step went beyond the stack. */
  function Run(stack: seq<Frame>): (r: Option<string>)
    requires Nested(stack) && |stack| <= MAX_DEPTH
    decreases StepsLeft(stack)
  {
    StepMeasures(stack);
    var step := PrintNext(stack);
    if step.Overflow? then None
    else if step.Done? then Some(step.out)
    else
      var rest := Run(step.stack);
      if rest.None? then None else Some(step.out + rest.value)
  }

  lemma {:induction false} RunPrintsRest(stack: seq<Frame>)
    requires Nested(stack) && |stack| <= MAX_DEPTH
    ensures Run(stack) == if Fits(stack) then Some(Rest(stack)) else None
    decreases StepsLeft(stack)
  {
    StepMeasures(stack);
    StepPrintsRest(stack);
    var step := PrintNext(stack);
    hide PrintNext, Rest, Fits, StepsLeft;
    if step.More? {
      RunPrintsRest(step.stack);
    }
  }

  /** Stepping through a tree comes to an end, and prints its rendering, exactly when the tree is no
      deeper than the stack; the depth is not checked before a step down. */
  lemma PrintsTree(root: Value)
    ensures Nested([Frame(root, 0)])
    ensures Run([Frame(root, 0)]) == if Depth(root) <= MAX_DEPTH then Some(Render(root)) else None
    ensures StepsLeft([Frame(root, 0)]) == Steps(root)
  {
    var stack := [Frame(root, 0)];
    RunPrintsRest(stack);
    MeasuresOf(root, 0);
    TopRestDef(stack[0]);
    assert stack[..0] == [];
    assert Render(root) + "" == Render(root);
    hide Run, StepsFrom, DepthFrom, Render, Depth, Steps;
  }
}
