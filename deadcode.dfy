/** Opaque predicates, dead statements, and the pass that wraps lines in opaque `if`s and
    inserts junk statements (`generateOpaquePredicate`, `generateDeadCode`, step 3 of
    `obfuscate`). Each generator is a function of the draw stream and a method that draws
    in the source's order. */
module DeadCode {
  import opened Text
  import opened Utils
  import opened Names

  // ---------------------------------------------------------------------------
  // Opaque predicates

  /** The Lua conditions `generateOpaquePredicate` emits. */
  datatype Pred =
    | ProductAbove(a: int, b: int, c: int)    // `(a * b) > c`
    | SumAtLeast(a: int, b: int, c: int)      // `(a + b) >= c`
    | AbsPositive(a: int)                     // `math.abs(a) > 0`
    | RemainderNonNegative(a: int, b: int)    // `(a % b) >= 0`
    | Above(a: int, b: int)                   // `a > b`
    | Negative(a: int)                        // `a < 0`
    | FalseAndTrue                            // `false and true`
    | ProductAtLeast(a: int, b: int, c: int)  // `(a * b) >= c`, used only by the corrected generator

  function RenderPred(p: Pred): string
  {
    match p
    case ProductAbove(a, b, c) => "(" + SignedDecimal(a) + " * " + SignedDecimal(b) + ") > " + SignedDecimal(c)
    case SumAtLeast(a, b, c) => "(" + SignedDecimal(a) + " + " + SignedDecimal(b) + ") >= " + SignedDecimal(c)
    case AbsPositive(a) => "math.abs(" + SignedDecimal(a) + ") > 0"
    case RemainderNonNegative(a, b) => "(" + SignedDecimal(a) + " % " + SignedDecimal(b) + ") >= 0"
    case Above(a, b) => SignedDecimal(a) + " > " + SignedDecimal(b)
    case Negative(a) => SignedDecimal(a) + " < 0"
    case FalseAndTrue => "false and true"
    case ProductAtLeast(a, b, c) => "(" + SignedDecimal(a) + " * " + SignedDecimal(b) + ") >= " + SignedDecimal(c)
  }

  /** Lua's `%`: the remainder takes the sign of the divisor; by zero it is NaN, and `NaN >= 0` is false. */
  function LuaMod(a: int, b: int): (r: int)
    requires b != 0
    ensures b > 0 ==> 0 <= r < b
    ensures b < 0 ==> b < r <= 0
  {
    if b > 0 then a % b
    else if a % b == 0 then 0
    else a % b + b
  }

  /** The truth value of a condition in Lua. */
  predicate Eval(p: Pred)
  {
    match p
    case ProductAbove(a, b, c) => a * b > c
    case SumAtLeast(a, b, c) => a + b >= c
    case AbsPositive(a) => (if a < 0 then -a else a) > 0
    case RemainderNonNegative(a, b) => b != 0 && LuaMod(a, b) >= 0
    case Above(a, b) => a > b
    case Negative(a) => a < 0
    case FalseAndTrue => false
    case ProductAtLeast(a, b, c) => a * b >= c
  }

  /** The four "always true" candidates, built from nine consecutive draws. */
  function TrueCandidatesAt(d: nat -> nat, at: nat): (r: seq<Pred>)
    ensures |r| == 4
  {
    [ProductAbove(Pick(d(at), 5, 20), Pick(d(at + 1), 2, 8), Pick(d(at + 2), 1, 10)),
     SumAtLeast(Pick(d(at + 3), 100, 500), Pick(d(at + 4), 1, 50), Pick(d(at + 5), 50, 100)),
     AbsPositive(Pick(d(at + 6), -100, -10)),
     RemainderNonNegative(Pick(d(at + 7), 10, 50), Pick(d(at + 8), 2, 5))]
  }

  /** The three "always false" candidates, built from three consecutive draws. */
  function FalseCandidatesAt(d: nat -> nat, at: nat): (r: seq<Pred>)
    ensures |r| == 3
  {
    [Above(Pick(d(at), 5, 10), Pick(d(at + 1), 100, 500)),
     Negative(Pick(d(at + 2), 1, 5)),
     FalseAndTrue]
  }

  /** The condition `generateOpaquePredicate(alwaysTrue)` returns, and the next unused draw.
      The array of candidates is built eagerly, so every candidate's numbers are drawn
      (nine for the true list, three for the false one) before the choice is made.
      Every false form is false; every true form except `(a * b) > c` is true. */
  function OpaqueAt(d: nat -> nat, at: nat, alwaysTrue: bool): (r: (Pred, nat))
    ensures alwaysTrue ==> r.1 == at + 10 && (Eval(r.0) || r.0.ProductAbove?)
    ensures !alwaysTrue ==> r.1 == at + 4 && !Eval(r.0)
  {
    if alwaysTrue then
      (TrueCandidatesAt(d, at)[Pick(d(at + 9), 0, 3)], at + 10)
    else
      (FalseCandidatesAt(d, at)[Pick(d(at + 3), 0, 2)], at + 4)
  }

  method TrueCandidates(rng: RandomSource) returns (candidates: seq<Pred>)
    modifies rng
    ensures candidates == TrueCandidatesAt(rng.draws, old(rng.used)) && rng.used == old(rng.used) + 9
  {
    var a1 := rng.Int(5, 20);
    var b1 := rng.Int(2, 8);
    var c1 := rng.Int(1, 10);
    var a2 := rng.Int(100, 500);
    var b2 := rng.Int(1, 50);
    var c2 := rng.Int(50, 100);
    var a3 := rng.Int(-100, -10);
    var a4 := rng.Int(10, 50);
    var b4 := rng.Int(2, 5);
    candidates := [ProductAbove(a1, b1, c1), SumAtLeast(a2, b2, c2), AbsPositive(a3), RemainderNonNegative(a4, b4)];
  }

  method FalseCandidates(rng: RandomSource) returns (candidates: seq<Pred>)
    modifies rng
    ensures candidates == FalseCandidatesAt(rng.draws, old(rng.used)) && rng.used == old(rng.used) + 3
  {
    var a1 := rng.Int(5, 10);
    var b1 := rng.Int(100, 500);
    var a2 := rng.Int(1, 5);
    candidates := [Above(a1, b1), Negative(a2), FalseAndTrue];
  }

  /** The draws of `generateOpaquePredicate(alwaysTrue)`: the candidates, then the choice. */
  method ChoosePred(rng: RandomSource, alwaysTrue: bool) returns (p: Pred)
    modifies rng
    ensures (p, rng.used) == OpaqueAt(rng.draws, old(rng.used), alwaysTrue)
  {
    var candidates: seq<Pred>;
    if alwaysTrue {
      candidates := TrueCandidates(rng);
    } else {
      candidates := FalseCandidates(rng);
    }
    p := rng.Choice(candidates);
  }

  /** `generateOpaquePredicate(alwaysTrue)` (obfuscator.js:183-195). */
  method OpaquePredicate(rng: RandomSource, alwaysTrue: bool) returns (text: string)
    modifies rng
    ensures var (p, next) := OpaqueAt(rng.draws, old(rng.used), alwaysTrue);
      text == RenderPred(p) && rng.used == next
  {
    var p := ChoosePred(rng, alwaysTrue);
    text := RenderPred(p);
  }

  /** Draws under which the "always true" list yields `(5 * 2) > 10`. */
  function ProductDraws(i: nat): nat
  {
    if i == 2 then 9 else 0
  }

  /** The first "always true" template is false for some draws: `(5 * 2) > 10` is `10 > 10`. */
  lemma OpaqueTrueCanBeFalse()
    ensures OpaqueAt(ProductDraws, 0, true).0 == ProductAbove(5, 2, 10)
    ensures !Eval(OpaqueAt(ProductDraws, 0, true).0)
  {
  }

  /** The evidently intended first template, `(a * b) >= c`: with `a >= 5`, `b >= 2` and `c <= 10`
      it holds for all draws, so every "always true" condition is true. */
  function OpaqueTrueCorrected(d: nat -> nat, at: nat): (r: (Pred, nat))
    ensures Eval(r.0)
    ensures r.1 == at + 10
  {
    var candidates := [
      ProductAtLeast(Pick(d(at), 5, 20), Pick(d(at + 1), 2, 8), Pick(d(at + 2), 1, 10)),
      SumAtLeast(Pick(d(at + 3), 100, 500), Pick(d(at + 4), 1, 50), Pick(d(at + 5), 50, 100)),
      AbsPositive(Pick(d(at + 6), -100, -10)),
      RemainderNonNegative(Pick(d(at + 7), 10, 50), Pick(d(at + 8), 2, 5))];
    var p := candidates[Pick(d(at + 9), 0, 3)];
    assert p.ProductAtLeast? ==> Eval(p) by {
      if p.ProductAtLeast? {
        ProductBound(p.a, p.b);
      }
    }
    (p, at + 10)
  }

  lemma ProductBound(a: int, b: int)
    requires a >= 5 && b >= 2
    ensures a * b >= 10
  {
    MulMono(b, 5, a);
  }

  // ---------------------------------------------------------------------------
  // Dead statements

  /** The four statements `generateDeadCode` emits. */
  datatype DeadStmt =
    | ScaledPair(v1: string, v2: string, a: int, b: int)  // `local v1 = a; local v2 = v1 * b`
    | ConstantThunk(v: string, a: int)                    // `local v = function() return a end`
    | SmallTable(v: string, items: seq<int>)              // `local v = {i1, i2, ...}`
    | DeadBranch(v1: string, v2: string, val: int)        // `if val > val+10 then local v1 = true else local v2 = false end`

  /** `items.join(', ')` on integers. */
  function JoinInts(items: seq<int>): (r: string)
    ensures '\n' !in r
  {
    if items == [] then ""
    else if |items| == 1 then SignedDecimal(items[0])
    else SignedDecimal(items[0]) + ", " + JoinInts(items[1..])
  }

  function RenderStmt(s: DeadStmt): string
  {
    match s
    case ScaledPair(v1, v2, a, b) =>
      "local " + v1 + " = " + SignedDecimal(a) + "; local " + v2 + " = " + v1 + " * " + SignedDecimal(b)
    case ConstantThunk(v, a) => "local " + v + " = function() return " + SignedDecimal(a) + " end"
    case SmallTable(v, items) => "local " + v + " = {" + JoinInts(items) + "}"
    case DeadBranch(v1, v2, val) =>
      "if " + SignedDecimal(val) + " > " + SignedDecimal(val + 10) + " then local " + v1
      + " = true else local " + v2 + " = false end"
  }

  /** A statement whose names are generated names, so its text is one line. */
  predicate WellNamed(s: DeadStmt)
  {
    match s
    case ScaledPair(v1, v2, _, _) => IsGeneratedName(v1) && IsGeneratedName(v2)
    case ConstantThunk(v, _) => IsGeneratedName(v)
    case SmallTable(v, _) => IsGeneratedName(v)
    case DeadBranch(v1, v2, _) => IsGeneratedName(v1) && IsGeneratedName(v2)
  }

  lemma NameOneLine(v: string)
    requires IsGeneratedName(v)
    ensures '\n' !in v
  {
  }

  /** A dead statement is a single line of text. */
  lemma RenderStmtOneLine(s: DeadStmt)
    requires WellNamed(s)
    ensures '\n' !in RenderStmt(s)
  {
    match s
    case ScaledPair(v1, v2, a, b) =>
      NameOneLine(v1); NameOneLine(v2);
      ScaledOneLine(v1, v2, SignedDecimal(a), SignedDecimal(b));
    case ConstantThunk(v, a) =>
      NameOneLine(v);
    case SmallTable(v, items) =>
      NameOneLine(v);
    case DeadBranch(v1, v2, val) =>
      NameOneLine(v1); NameOneLine(v2);
      BranchOneLine(v1, v2, SignedDecimal(val), SignedDecimal(val + 10));
  }

  lemma ScaledOneLine(v1: string, v2: string, a: string, b: string)
    requires '\n' !in v1 && '\n' !in v2 && '\n' !in a && '\n' !in b
    ensures '\n' !in "local " + v1 + " = " + a + "; local " + v2 + " = " + v1 + " * " + b
  {
  }

  lemma BranchOneLine(v1: string, v2: string, a: string, b: string)
    requires '\n' !in v1 && '\n' !in v2 && '\n' !in a && '\n' !in b
    ensures '\n' !in "if " + a + " > " + b + " then local " + v1 + " = true else local " + v2 + " = false end"
  {
  }

  lemma RenderPredOneLine(p: Pred)
    ensures '\n' !in RenderPred(p)
  {
  }

  /** The four dead-statement templates. */
  datatype Shape = Scaled | Thunk | Table | Branch

  const Shapes: seq<Shape> := [Scaled, Thunk, Table, Branch]

  /** The statement `generateDeadCode()` returns for the draws from `at` on: the template is
      chosen first, then its names are generated, then its numbers are drawn. The fourth
      template's condition `val > val + 10` is false for every draw. */
  function DeadAt(d: nat -> nat, at: nat): (r: (DeadStmt, nat))
    ensures WellNamed(r.0) && r.1 > at
    ensures r.0.DeadBranch? ==> !(r.0.val > r.0.val + 10)
  {
    ShapeAt(Shapes[Pick(d(at), 0, 3)], d, at + 1)
  }

  function ShapeAt(t: Shape, d: nat -> nat, at: nat): (r: (DeadStmt, nat))
    ensures WellNamed(r.0) && r.1 > at
  {
    match t
    case Scaled =>
      var (v1, a1) := VarNameAt(d, at);
      var (v2, a2) := VarNameAt(d, a1);
      (ScaledPair(v1, v2, Pick(d(a2), 1, 100), Pick(d(a2 + 1), 2, 10)), a2 + 2)
    case Thunk =>
      var (v, a1) := VarNameAt(d, at);
      (ConstantThunk(v, Pick(d(a1), 1, 1000)), a1 + 1)
    case Table =>
      var (v, a1) := VarNameAt(d, at);
      var len := Pick(d(a1), 3, 6);
      (SmallTable(v, TableItems(d, a1 + 1, len)), a1 + 1 + len)
    case Branch =>
      var (v1, a1) := VarNameAt(d, at);
      var (v2, a2) := VarNameAt(d, a1);
      (DeadBranch(v1, v2, Pick(d(a2), 10, 50)), a2 + 1)
  }

  /** `Array.from({ length: n }, () => Random.int(1, 100))`. */
  function TableItems(d: nat -> nat, from: nat, n: nat): (items: seq<int>)
    ensures |items| == n && forall i :: 0 <= i < n ==> 1 <= items[i] <= 100
  {
    var items := seq(n, i requires 0 <= i < n => Pick(d(from + i), 1, 100));
    assert forall i :: 0 <= i < n ==> items[i] == Pick(d(from + i), 1, 100);
    items
  }

  /** `generateDeadCode()` (obfuscator.js:124-149). */
  method GenerateDeadCode(rng: RandomSource) returns (text: string)
    modifies rng
    ensures var (s, next) := DeadAt(rng.draws, old(rng.used));
      text == RenderStmt(s) && rng.used == next
  {
    var t := rng.Choice(Shapes);
    var s := DeadShape(rng, t);
    text := RenderStmt(s);
  }

  method DeadShape(rng: RandomSource, t: Shape) returns (s: DeadStmt)
    modifies rng
    ensures (s, rng.used) == ShapeAt(t, rng.draws, old(rng.used))
  {
    match t
    case Scaled => s := DeadScaled(rng);
    case Thunk => s := DeadThunk(rng);
    case Table => s := DeadTable(rng);
    case Branch => s := DeadBranchStmt(rng);
  }

  method DeadScaled(rng: RandomSource) returns (s: DeadStmt)
    modifies rng
    ensures (s, rng.used) == ShapeAt(Scaled, rng.draws, old(rng.used))
  {
    var v1 := GenerateVarName(rng);
    var v2 := GenerateVarName(rng);
    var a := rng.Int(1, 100);
    var b := rng.Int(2, 10);
    s := ScaledPair(v1, v2, a, b);
  }

  method DeadThunk(rng: RandomSource) returns (s: DeadStmt)
    modifies rng
    ensures (s, rng.used) == ShapeAt(Thunk, rng.draws, old(rng.used))
  {
    var v := GenerateVarName(rng);
    var a := rng.Int(1, 1000);
    s := ConstantThunk(v, a);
  }

  method DeadTable(rng: RandomSource) returns (s: DeadStmt)
    modifies rng
    ensures (s, rng.used) == ShapeAt(Table, rng.draws, old(rng.used))
  {
    var v := GenerateVarName(rng);
    var len := rng.Int(3, 6);
    var items := DrawItems(rng, len);
    s := SmallTable(v, items);
  }

  method DeadBranchStmt(rng: RandomSource) returns (s: DeadStmt)
    modifies rng
    ensures (s, rng.used) == ShapeAt(Branch, rng.draws, old(rng.used))
  {
    var v1 := GenerateVarName(rng);
    var v2 := GenerateVarName(rng);
    var val := rng.Int(10, 50);
    s := DeadBranch(v1, v2, val);
  }

  /** `Array.from({ length: n }, () => Random.int(1, 100))`, one draw per element. */
  method DrawItems(rng: RandomSource, n: nat) returns (items: seq<int>)
    modifies rng
    ensures items == TableItems(rng.draws, old(rng.used), n)
    ensures rng.used == old(rng.used) + n
  {
    var start := rng.used;
    items := [];
    while |items| < n
      invariant |items| <= n && rng.used == start + |items|
      invariant items == TableItems(rng.draws, start, |items|)
    {
      var x := rng.Int(1, 100);
      items := items + [x];
    }
  }

  // ---------------------------------------------------------------------------
  // The dead-code pass

  predicate IsBlank(line: string) { Trim(line) == "" }

  predicate IsComment(line: string) { StartsWith(Trim(line), "--") }

  /** What the pass does to one line: an optional opaque wrapper (its condition and the
      dead statement of its `else` branch), and an optional junk statement after it. */
  datatype LinePlan = LinePlan(wrap: Option<(Pred, DeadStmt)>, junk: Option<DeadStmt>)

  /** The plan for one line. `Random.boolean()` is drawn first for every line; only a
      non-blank line that is not a `--` comment is wrapped, with an "always true" condition.
      Then `Random.int(1, 100)` is drawn for every line, and a value above 70 adds junk after
      any non-blank line, comment lines included. */
  function LinePlanAt(d: nat -> nat, at: nat, line: string): (r: (LinePlan, nat))
    ensures r.1 > at
  {
    var (wrap, a1) := WrapAt(d, at, line);
    var (junk, a2) := JunkAt(d, a1, line);
    (LinePlan(wrap, junk), a2)
  }

  /** Blank and `--` lines are never wrapped, junk follows only non-blank lines, every
      inserted statement uses generated names, and every condition is true except
      `(a * b) > c`. */
  lemma LinePlanValid(d: nat -> nat, at: nat, line: string)
    ensures var p := LinePlanAt(d, at, line).0;
      && ValidPlan(line, p)
      && (p.wrap.Some? ==> Eval(p.wrap.value.0) || p.wrap.value.0.ProductAbove?)
  {
    var (wrap, a1) := WrapAt(d, at, line);
    if wrap.Some? {
      var (pr, a) := OpaqueAt(d, at + 1, true);
      var (s, b) := DeadAt(d, a);
      assert wrap.value == (pr, s);
    }
  }

  /** The coin, and when it says so for a line that is neither blank nor a comment, an
      "always true" condition and the dead statement of its `else` branch. */
  function WrapAt(d: nat -> nat, at: nat, line: string): (r: (Option<(Pred, DeadStmt)>, nat))
    ensures r.1 > at
    ensures r.0.Some? <==> d(at) % 2 == 1 && !IsBlank(line) && !IsComment(line)
  {
    if d(at) % 2 == 1 && !IsBlank(line) && !IsComment(line) then
      var (p, a) := OpaqueAt(d, at + 1, true);
      var (s, b) := DeadAt(d, a);
      (Some((p, s)), b)
    else (None, at + 1)
  }

  /** The roll, and when it is above 70 for a non-blank line, a junk statement. */
  function JunkAt(d: nat -> nat, at: nat, line: string): (r: (Option<DeadStmt>, nat))
    ensures r.1 > at
    ensures r.0.Some? <==> Pick(d(at), 1, 100) > 70 && !IsBlank(line)
  {
    if Pick(d(at), 1, 100) > 70 && !IsBlank(line) then
      var (j, a) := DeadAt(d, at + 1);
      (Some(j), a)
    else (None, at + 1)
  }

  /** The plans of all lines, drawing line after line. */
  function PlanAt(d: nat -> nat, at: nat, lines: seq<string>): (r: (seq<LinePlan>, nat))
    ensures |r.0| == |lines| && r.1 >= at
    decreases |lines|
  {
    if lines == [] then ([], at)
    else
      var (p, a1) := LinePlanAt(d, at, lines[0]);
      var (rest, a2) := PlanAt(d, a1, lines[1..]);
      ([p] + rest, a2)
  }

  /** What every plan satisfies: blank and `--` lines are never wrapped, junk follows only
      non-blank lines, and the inserted statements are generated-name statements. */
  predicate ValidPlan(line: string, p: LinePlan)
  {
    && (p.wrap.Some? ==> !IsBlank(line) && !IsComment(line) && WellNamed(p.wrap.value.1))
    && (p.junk.Some? ==> !IsBlank(line) && WellNamed(p.junk.value))
  }

  lemma {:induction false} PlansValid(d: nat -> nat, at: nat, lines: seq<string>)
    ensures forall i :: 0 <= i < |lines| ==> ValidPlan(lines[i], PlanAt(d, at, lines).0[i])
    decreases |lines|
  {
    if lines != [] {
      var (p, a1) := LinePlanAt(d, at, lines[0]);
      LinePlanValid(d, at, lines[0]);
      PlansValid(d, a1, lines[1..]);
      var plans := PlanAt(d, at, lines).0;
      assert plans == [p] + PlanAt(d, a1, lines[1..]).0;
      forall i | 0 <= i < |lines|
        ensures ValidPlan(lines[i], plans[i])
      {
        if i > 0 {
          assert lines[i] == lines[1..][i - 1];
        }
      }
    }
  }

  /** The output lines of one input line. */
  function Expand(line: string, p: LinePlan): (out: seq<string>)
    ensures |out| == Size(p) && out[Offset(p)] == line
  {
    Layout(line, WrapText(p), JunkText(p))
  }

  /** The rendered condition and dead statement of a wrapper. */
  function WrapText(p: LinePlan): Option<(string, string)>
  {
    match p.wrap
    case Some((pred, s)) => Some((RenderPred(pred), RenderStmt(s)))
    case None => None
  }

  function JunkText(p: LinePlan): Option<string>
  {
    match p.junk
    case Some(j) => Some(RenderStmt(j))
    case None => None
  }

  /** `if <cond> then`, the line, `else`, `<stmt>`, `end` when wrapped; then the junk line. */
  function Layout(line: string, wrap: Option<(string, string)>, junk: Option<string>): (out: seq<string>)
    ensures |out| == (if wrap.Some? then 5 else 1) + (if junk.Some? then 1 else 0)
    ensures out[if wrap.Some? then 1 else 0] == line
  {
    (match wrap
     case Some((cond, s)) => ["if " + cond + " then", line, "else", s, "end"]
     case None => [line])
    + (match junk case Some(j) => [j] case None => [])
  }

  lemma LayoutOneLine(line: string, wrap: Option<(string, string)>, junk: Option<string>)
    requires '\n' !in line
    requires wrap.Some? ==> '\n' !in wrap.value.0 && '\n' !in wrap.value.1
    requires junk.Some? ==> '\n' !in junk.value
    ensures forall k :: 0 <= k < |Layout(line, wrap, junk)| ==> '\n' !in Layout(line, wrap, junk)[k]
  {
    if wrap.Some? {
      var (c, s) := wrap.value;
      assert '\n' !in "if " + c + " then";
    }
  }

  function Size(p: LinePlan): nat { (if p.wrap.Some? then 5 else 1) + (if p.junk.Some? then 1 else 0) }

  /** Where the original line sits among its output lines. */
  function Offset(p: LinePlan): (k: nat)
    ensures k < Size(p)
  {
    if p.wrap.Some? then 1 else 0
  }

  /** The output lines of every input line, in input order. */
  function Blocks(lines: seq<string>, plans: seq<LinePlan>): (b: seq<seq<string>>)
    requires |lines| == |plans|
    ensures |b| == |lines|
  {
    seq(|lines|, i requires 0 <= i < |lines| => Expand(lines[i], plans[i]))
  }

  /** The index, in the output lines, of input line `i` itself. */
  function Position(lines: seq<string>, plans: seq<LinePlan>, i: nat): nat
    requires |lines| == |plans| && i < |lines|
  {
    |Concat(Blocks(lines, plans)[..i])| + Offset(plans[i])
  }

  /** Step 3 of `obfuscate` as a function of the draws: split on `\n`, plan every line, join. */
  function DeadCodePassAt(d: nat -> nat, at: nat, code: string): (r: (string, nat))
  {
    var lines := Split(code);
    var (plans, next) := PlanAt(d, at, lines);
    var blocks := Blocks(lines, plans);
    assert |Concat(blocks)| >= 1 by { ConcatBlock(blocks, 0); }
    (Join(Concat(blocks)), next)
  }

  /** Step 3 of `obfuscate` (obfuscator.js:301-323). */
  method InjectDeadCode(rng: RandomSource, code: string) returns (out: string)
    modifies rng
    ensures (out, rng.used) == DeadCodePassAt(rng.draws, old(rng.used), code)
  {
    var lines := Split(code);
    ghost var plans := PlanAt(rng.draws, rng.used, lines).0;
    var newLines := ExpandLines(rng, lines);
    ConcatBlock(Blocks(lines, plans), 0);
    out := Join(newLines);
  }

  /** The loop over the lines: each line's output lines are appended in turn. */
  method ExpandLines(rng: RandomSource, lines: seq<string>) returns (newLines: seq<string>)
    modifies rng
    ensures var (plans, next) := PlanAt(rng.draws, old(rng.used), lines);
      newLines == Concat(Blocks(lines, plans)) && rng.used == next
  {
    var d := rng.draws;
    ghost var start := rng.used;
    newLines := [];
    ghost var plans: seq<LinePlan> := [];
    var i := 0;
    while i < |lines|
      invariant 0 <= i <= |lines| && |plans| == i
      invariant (plans, rng.used) == PlanAt(d, start, lines[..i])
      invariant newLines == Concat(Blocks(lines[..i], plans))
    {
      ghost var a1 := rng.used;
      ghost var p: LinePlan;
      var block;
      p, block := ExpandLine(rng, lines[i]);
      ExpandStep(d, start, lines, i, plans, a1, p, rng.used, block);
      newLines := newLines + block;
      plans := plans + [p];
      i := i + 1;
    }
    assert lines[..i] == lines;
  }

  /** One more line: its plan extends the plans, its block extends the output. */
  lemma ExpandStep(d: nat -> nat, start: nat, lines: seq<string>, i: nat, plans: seq<LinePlan>,
                   a1: nat, p: LinePlan, a2: nat, block: seq<string>)
    requires i < |lines| && |plans| == i
    requires PlanAt(d, start, lines[..i]) == (plans, a1)
    requires LinePlanAt(d, a1, lines[i]) == (p, a2) && block == Expand(lines[i], p)
    ensures PlanAt(d, start, lines[..i + 1]) == (plans + [p], a2)
    ensures Concat(Blocks(lines[..i + 1], plans + [p])) == Concat(Blocks(lines[..i], plans)) + block
  {
    assert lines[..i + 1] == lines[..i] + [lines[i]];
    PlanSnoc(d, start, lines[..i], lines[i]);
    var bs := Blocks(lines[..i], plans);
    assert Blocks(lines[..i + 1], plans + [p]) == bs + [block];
    ConcatSnoc(bs, block);
  }

  /** Planning one more line continues from where the earlier lines stopped drawing. */
  lemma {:induction false} PlanSnoc(d: nat -> nat, at: nat, lines: seq<string>, line: string)
    ensures var (ps, a1) := PlanAt(d, at, lines);
      var (p, a2) := LinePlanAt(d, a1, line);
      PlanAt(d, at, lines + [line]) == (ps + [p], a2)
    decreases |lines|
  {
    if lines == [] {
      var (p, a2) := LinePlanAt(d, at, line);
      assert lines + [line] == [line] && [line][1..] == [];
      assert PlanAt(d, a2, []) == ([], a2);
      assert PlanAt(d, at, [line]) == ([p] + [], a2);
      assert PlanAt(d, at, lines) == ([], at);
      assert [p] + [] == [] + [p];
    } else {
      var (p0, b) := LinePlanAt(d, at, lines[0]);
      assert (lines + [line])[1..] == lines[1..] + [line];
      assert (lines + [line])[0] == lines[0];
      PlanSnoc(d, b, lines[1..], line);
      var (rest, a1) := PlanAt(d, b, lines[1..]);
      var (p, a2) := LinePlanAt(d, a1, line);
      assert PlanAt(d, at, lines) == ([p0] + rest, a1);
      assert PlanAt(d, at, lines + [line]) == ([p0] + (rest + [p]), a2);
      assert [p0] + (rest + [p]) == ([p0] + rest) + [p];
    }
  }

  /** One iteration of the loop over lines: the coin, the wrapper, the roll, the junk. */
  method ExpandLine(rng: RandomSource, line: string) returns (ghost p: LinePlan, block: seq<string>)
    modifies rng
    ensures (p, rng.used) == LinePlanAt(rng.draws, old(rng.used), line)
    ensures block == Expand(line, p)
  {
    ghost var d, at := rng.draws, rng.used;
    ghost var wrap, junk;
    var text;
    wrap, text := DrawWrap(rng, line);
    ghost var a1 := rng.used;
    block := text;
    var jtext;
    junk, jtext := DrawJunk(rng, line);
    block := block + jtext;
    p := LinePlan(wrap, junk);
    LinePlanParts(d, at, line, wrap, a1, junk, rng.used);
    ExpandParts(line, p, text, jtext);
  }

  lemma LinePlanParts(d: nat -> nat, at: nat, line: string, wrap: Option<(Pred, DeadStmt)>, a1: nat,
                      junk: Option<DeadStmt>, a2: nat)
    requires WrapAt(d, at, line) == (wrap, a1) && JunkAt(d, a1, line) == (junk, a2)
    ensures LinePlanAt(d, at, line) == (LinePlan(wrap, junk), a2)
  {
  }

  /** A line's block is its wrapped form, then its junk line. */
  lemma ExpandParts(line: string, p: LinePlan, text: seq<string>, jtext: seq<string>)
    requires text == Layout(line, WrapText(LinePlan(p.wrap, None)), None)
    requires jtext == if p.junk.Some? then [RenderStmt(p.junk.value)] else []
    ensures text + jtext == Expand(line, p)
  {
  }

  method DrawWrap(rng: RandomSource, line: string) returns (ghost wrap: Option<(Pred, DeadStmt)>, block: seq<string>)
    modifies rng
    ensures (wrap, rng.used) == WrapAt(rng.draws, old(rng.used), line)
    ensures block == Layout(line, WrapText(LinePlan(wrap, None)), None)
  {
    var d := rng.draws;
    var coin := rng.Boolean();
    if coin && !IsBlank(line) && !IsComment(line) {
      ghost var pb := rng.used;
      var cond := OpaquePredicate(rng, true);
      ghost var sb := rng.used;
      var dead := GenerateDeadCode(rng);
      wrap := Some((OpaqueAt(d, pb, true).0, DeadAt(d, sb).0));
      block := ["if " + cond + " then", line, "else", dead, "end"];
    } else {
      wrap := None;
      block := [line];
    }
  }

  method DrawJunk(rng: RandomSource, line: string) returns (ghost junk: Option<DeadStmt>, block: seq<string>)
    modifies rng
    ensures (junk, rng.used) == JunkAt(rng.draws, old(rng.used), line)
    ensures block == if junk.Some? then [RenderStmt(junk.value)] else []
  {
    var d := rng.draws;
    var roll := rng.Int(1, 100);
    if roll > 70 && !IsBlank(line) {
      ghost var jb := rng.used;
      var dead := GenerateDeadCode(rng);
      junk := Some(DeadAt(d, jb).0);
      block := [dead];
    } else {
      junk := None;
      block := [];
    }
  }

  // ---------------------------------------------------------------------------
  // What the pass keeps

  /** Every input line is still present, at `Position(lines, plans, i)`, and a wrapped line
      sits exactly between `if <condition> then` and `else`, `<dead statement>`, `end`. */
  lemma LineSurvives(lines: seq<string>, plans: seq<LinePlan>, i: nat)
    requires |lines| == |plans| && i < |lines|
    ensures Position(lines, plans, i) < |Concat(Blocks(lines, plans))|
    ensures Concat(Blocks(lines, plans))[Position(lines, plans, i)] == lines[i]
    ensures plans[i].wrap.Some? ==>
      var out := Concat(Blocks(lines, plans));
      var k := Position(lines, plans, i);
      && 1 <= k && k + 3 < |out|
      && out[k - 1] == "if " + RenderPred(plans[i].wrap.value.0) + " then"
      && out[k + 1] == "else"
      && out[k + 2] == RenderStmt(plans[i].wrap.value.1)
      && out[k + 3] == "end"
  {
    var blocks := Blocks(lines, plans);
    ConcatBlock(blocks, i);
    assert blocks[i] == Expand(lines[i], plans[i]);
    BlockInside(Concat(blocks), |Concat(blocks[..i])|, lines[i], plans[i]);
  }

  /** A line's block, found at `st` in the output, puts the line at `st + Offset(p)`. */
  lemma BlockInside(out: seq<string>, st: nat, line: string, p: LinePlan)
    requires st + |Expand(line, p)| <= |out| && out[st..st + |Expand(line, p)|] == Expand(line, p)
    ensures st + Offset(p) < |out| && out[st + Offset(p)] == line
    ensures p.wrap.Some? ==>
      var k := st + Offset(p);
      && 1 <= k && k + 3 < |out|
      && out[k - 1] == "if " + RenderPred(p.wrap.value.0) + " then"
      && out[k + 1] == "else"
      && out[k + 2] == RenderStmt(p.wrap.value.1)
      && out[k + 3] == "end"
  {
    var block := Expand(line, p);
    SliceAt(out, st, block, Offset(p));
    if p.wrap.Some? {
      ExpandWrapped(line, p);
      SliceAt(out, st, block, 0);
      SliceAt(out, st, block, 2);
      SliceAt(out, st, block, 3);
      SliceAt(out, st, block, 4);
    }
  }

  lemma SliceAt<T>(out: seq<T>, st: nat, block: seq<T>, k: nat)
    requires st + |block| <= |out| && out[st..st + |block|] == block && k < |block|
    ensures out[st + k] == block[k]
  {
    assert out[st..st + |block|][k] == out[st + k];
  }

  /** The five lines of a wrapped line. */
  lemma ExpandWrapped(line: string, p: LinePlan)
    requires p.wrap.Some?
    ensures var out := Expand(line, p);
      && |out| >= 5
      && out[0] == "if " + RenderPred(p.wrap.value.0) + " then"
      && out[1] == line && out[2] == "else"
      && out[3] == RenderStmt(p.wrap.value.1)
      && out[4] == "end"
  {
  }

  /** Input lines keep their order in the output. */
  lemma PositionIncreasing(lines: seq<string>, plans: seq<LinePlan>, i: nat, j: nat)
    requires |lines| == |plans| && i < j < |lines|
    ensures Position(lines, plans, i) < Position(lines, plans, j)
  {
    var blocks := Blocks(lines, plans);
    ConcatPrefixMonotone(blocks, i, j);
    assert |blocks[i]| == Size(plans[i]);
  }

  /** The inserted lines are single lines. */
  lemma ExpandOneLine(line: string, p: LinePlan)
    requires '\n' !in line && ValidPlan(line, p)
    ensures forall k :: 0 <= k < |Expand(line, p)| ==> '\n' !in Expand(line, p)[k]
  {
    if p.wrap.Some? {
      RenderPredOneLine(p.wrap.value.0);
      RenderStmtOneLine(p.wrap.value.1);
    }
    if p.junk.Some? {
      RenderStmtOneLine(p.junk.value);
    }
    LayoutOneLine(line, WrapText(p), JunkText(p));
  }

  /** The pass's output, split on `\n`, is exactly the output lines; every input line is
      among them, in order. */
  lemma DeadCodePassLines(d: nat -> nat, at: nat, code: string)
    ensures var lines := Split(code);
      var plans := PlanAt(d, at, lines).0;
      var out := Concat(Blocks(lines, plans));
      && Split(DeadCodePassAt(d, at, code).0) == out
      && forall i :: 0 <= i < |lines| ==> Position(lines, plans, i) < |out| && out[Position(lines, plans, i)] == lines[i]
  {
    var lines := Split(code);
    var plans := PlanAt(d, at, lines).0;
    var blocks := Blocks(lines, plans);
    var out := Concat(blocks);
    PlansValid(d, at, lines);
    ConcatBlock(blocks, 0);
    forall k | 0 <= k < |out|
      ensures '\n' !in out[k]
    {
      ConcatMember(blocks, out[k]);
      var j :| 0 <= j < |blocks| && out[k] in blocks[j];
      ExpandOneLine(lines[j], plans[j]);
    }
    SplitJoin(out);
    forall i | 0 <= i < |lines|
      ensures Position(lines, plans, i) < |out| && out[Position(lines, plans, i)] == lines[i]
    {
      LineSurvives(lines, plans, i);
    }
  }

  /** Draws under which a `--` comment line is followed by a junk statement: the coin says
      "wrap" but the comment is skipped, and the roll is 100. */
  lemma JunkAfterComment()
    ensures LinePlanAt(_ => 99, 0, "-- note").0.junk.Some?
    ensures LinePlanAt(_ => 99, 0, "-- note").0.wrap.None?
  {
    assert TrimStart("-- note") == "-- note";
    assert TrimEnd("-- note") == "-- note";
    assert IsComment("-- note") && !IsBlank("-- note");
  }
}
