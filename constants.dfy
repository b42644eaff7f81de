/** Constant wrapping (obfuscator.js:326-342): every integer literal of the code greater than 5
    is replaced by one of six arithmetic forms chosen at random. The forms are a datatype with
    their rendering as Lua text and their value under Lua's arithmetic, so that what each form
    evaluates to can be stated and proved. */
module Constants {
  import opened Text
  import opened Utils
  import opened Renamer

  /** The six templates of obfuscator.js:332-339, with the numbers they print. */
  datatype Form =
    | Minus(x: nat, y: nat)              // `(${n + a} - ${b})`
    | Half(x: nat)                       // `(${n * 2} / 2)`
    | PlusMinus(n: nat, a: nat, b: nat)  // `(${n} + ${a} - ${b})`
    | FloorHalf(n: nat)                  // `math.floor(${n + 0.5})`
    | Third(x: nat)                      // `(${n * 3} / 3)`
    | BxorZero(n: nat)                   // `bit32.bxor(${n}, 0)`

  /** The text a form is printed as; `n + 0.5` prints as the digits of `n` followed by `.5`. */
  function Render(f: Form): (t: string)
    ensures '\n' !in t
  {
    match f
    case Minus(x, y) => "(" + Decimal(x) + " - " + Decimal(y) + ")"
    case Half(x) => "(" + Decimal(x) + " / 2)"
    case PlusMinus(n, a, b) => "(" + Decimal(n) + " + " + Decimal(a) + " - " + Decimal(b) + ")"
    case FloorHalf(n) => "math.floor(" + Decimal(n) + ".5)"
    case Third(x) => "(" + Decimal(x) + " / 3)"
    case BxorZero(n) => "bit32.bxor(" + Decimal(n) + ", 0)"
  }

  const TwoTo32: nat := 0x1_0000_0000

  /** What the emitted expression evaluates to in Lua: `/` is real division, `math.floor`
      rounds down, and `bit32.bxor` works on its operands modulo 2^32. */
  function Value(f: Form): real
  {
    match f
    case Minus(x, y) => x as real - y as real
    case Half(x) => x as real / 2.0
    case PlusMinus(n, a, b) => n as real + a as real - b as real
    case FloorHalf(n) => ((n as real + 0.5).Floor) as real
    case Third(x) => x as real / 3.0
    case BxorZero(n) => (n % TwoTo32) as real
  }

  /** The form `Random.choice(methods)()` builds for `n` from the draws at `at`: the template
      is chosen first, then the template makes its own draws left to right. */
  function FormAt(d: nat -> nat, at: nat, n: nat): (r: (Form, nat))
    ensures r.1 > at
  {
    var k := Pick(d(at), 0, 5);
    if k == 0 then (Minus(n + Pick(d(at + 1), 10, 50), Pick(d(at + 2), 10, 50)), at + 3)
    else if k == 1 then (Half(n * 2), at + 1)
    else if k == 2 then (PlusMinus(n, Pick(d(at + 1), 5, 15), Pick(d(at + 2), 5, 15)), at + 3)
    else if k == 3 then (FloorHalf(n), at + 1)
    else if k == 4 then (Third(n * 3), at + 1)
    else (BxorZero(n), at + 1)
  }

  /** The callback of obfuscator.js:327-341 for the matched digits `num`. */
  function WrapAt(d: nat -> nat, at: nat, num: string): (r: (string, nat))
    requires AllDigits(num)
    ensures r.1 >= at && '\n' !in r.0
  {
    var n := DecimalValue(num);
    if n <= 5 then (num, at)
    else
      var f := FormAt(d, at, n);
      (Render(f.0), f.1)
  }

  // ---------------------------------------------------------------------------
  // `tempCode.replace(/\b(\d+)\b/g, ...)`. The greedy `\d+` is followed by `\b`, so a match
  // starting at `p` must run to the end of the word starting there: it matches exactly when
  // `p` starts a word that consists of digits only, and then covers that whole word.

  predicate NumberAt(s: string, p: nat)
  {
    p < |s| && WordStart(s, p) && IsDigit(s[p]) && AllDigits(s[p..RunEnd(s, p)])
  }

  /** The replace scanning from `p`: the text and the next draw afterwards. */
  function ConstantsFrom(d: nat -> nat, at: nat, s: string, p: nat): (r: (string, nat))
    requires p <= |s|
    ensures r.1 >= at
    decreases |s| - p
  {
    if p == |s| then ([], at)
    else if NumberAt(s, p) then
      var w := WrapAt(d, at, s[p..RunEnd(s, p)]);
      var rest := ConstantsFrom(d, w.1, s, RunEnd(s, p));
      (w.0 + rest.0, rest.1)
    else
      var rest := ConstantsFrom(d, at, s, p + 1);
      ([s[p]] + rest.0, rest.1)
  }

  function ConstantsAt(d: nat -> nat, at: nat, code: string): (string, nat)
  {
    ConstantsFrom(d, at, code, 0)
  }

  // ---------------------------------------------------------------------------
  // What a wrapped constant evaluates to.

  /** The doubling, flooring and tripling forms evaluate to `n`, and so does the `bxor` form
      for `n` below 2^32; the other two evaluate to `n + a - b` for their two draws `a` and `b`. */
  lemma FormValue(d: nat -> nat, at: nat, n: nat)
    ensures var f := FormAt(d, at, n).0;
      match f
      case Minus(_, y) => Value(f) == n as real + (f.x - n) as real - y as real && 10 <= f.x - n <= 50 && 10 <= y <= 50
      case PlusMinus(_, a, b) => Value(f) == n as real + a as real - b as real && 5 <= a <= 15 && 5 <= b <= 15
      case BxorZero(_) => n < TwoTo32 ==> Value(f) == n as real
      case _ => Value(f) == n as real
  {
    var f := FormAt(d, at, n).0;
    if f.FloorHalf? {
      assert (n as real + 0.5).Floor == n;
    }
  }

  /** The rendered form names its numbers in decimal, so each of them can be read back. */
  lemma RenderReadsBack(f: Form)
    ensures match f
      case Half(x) => Render(f) == "(" + Decimal(x) + " / 2)" && DecimalValue(Decimal(x)) == x
      case Third(x) => Render(f) == "(" + Decimal(x) + " / 3)" && DecimalValue(Decimal(x)) == x
      case FloorHalf(n) => Render(f) == "math.floor(" + Decimal(n) + ".5)" && DecimalValue(Decimal(n)) == n
      case BxorZero(n) => Render(f) == "bit32.bxor(" + Decimal(n) + ", 0)" && DecimalValue(Decimal(n)) == n
      case Minus(x, y) => DecimalValue(Decimal(x)) == x && DecimalValue(Decimal(y)) == y
      case PlusMinus(n, a, b) => DecimalValue(Decimal(n)) == n && DecimalValue(Decimal(a)) == a && DecimalValue(Decimal(b)) == b
  {
    match f
    case Minus(x, y) => DecimalRoundTrip(x); DecimalRoundTrip(y);
    case Half(x) => DecimalRoundTrip(x);
    case PlusMinus(n, a, b) => DecimalRoundTrip(n); DecimalRoundTrip(a); DecimalRoundTrip(b);
    case FloorHalf(n) => DecimalRoundTrip(n);
    case Third(x) => DecimalRoundTrip(x);
    case BxorZero(n) => DecimalRoundTrip(n);
  }

  /** As written, the first template need not preserve the value: when the choice draw picks
      it and the two offsets come out as 10 and 11, it evaluates to `n - 1`. */
  lemma MinusChangesValue(d: nat -> nat, n: nat)
    requires d(0) == 6 && d(1) == 41 && d(2) == 1
    ensures FormAt(d, 0, n).0 == Minus(n + 10, 11)
    ensures Value(FormAt(d, 0, n).0) == n as real - 1.0
  {
    assert Pick(d(0), 0, 5) == 0;
    assert Pick(d(1), 10, 50) == 10;
    assert Pick(d(2), 10, 50) == 11;
  }

  /** As written, the third template need not preserve the value: with offsets 5 and 6 it
      evaluates to `n - 1`. */
  lemma PlusMinusChangesValue(d: nat -> nat, n: nat)
    requires d(0) == 2 && d(1) == 0 && d(2) == 1
    ensures FormAt(d, 0, n).0 == PlusMinus(n, 5, 6)
    ensures Value(FormAt(d, 0, n).0) == n as real - 1.0
  {
    assert Pick(d(0), 0, 5) == 2;
    assert Pick(d(1), 5, 15) == 5;
    assert Pick(d(2), 5, 15) == 6;
  }

  // ---------------------------------------------------------------------------
  // Corrected templates: one offset drawn once and used on both sides.

  function FormCorrectedAt(d: nat -> nat, at: nat, n: nat): (r: (Form, nat))
    ensures r.1 > at
  {
    var k := Pick(d(at), 0, 5);
    if k == 0 then (Minus(n + Pick(d(at + 1), 10, 50), Pick(d(at + 1), 10, 50)), at + 2)
    else if k == 2 then (PlusMinus(n, Pick(d(at + 1), 5, 15), Pick(d(at + 1), 5, 15)), at + 2)
    else FormAt(d, at, n)
  }

  /** Every corrected form evaluates to `n` (the `bxor` form for `n` below 2^32). */
  lemma FormCorrectedValue(d: nat -> nat, at: nat, n: nat)
    requires n < TwoTo32
    ensures Value(FormCorrectedAt(d, at, n).0) == n as real
  {
    if Pick(d(at), 0, 5) !in {0, 2} {
      FormValue(d, at, n);
    }
  }

  // ---------------------------------------------------------------------------
  // The pass.

  /** A text without literals above 5 comes out unchanged, and no draw is made. */
  lemma {:induction false} ConstantsIdentity(d: nat -> nat, at: nat, s: string, p: nat)
    requires p <= |s|
    requires forall q :: p <= q < |s| && NumberAt(s, q) ==> DecimalValue(s[q..RunEnd(s, q)]) <= 5
    ensures ConstantsFrom(d, at, s, p) == (s[p..], at)
    decreases |s| - p
  {
    if p < |s| {
      if NumberAt(s, p) {
        var e := RunEnd(s, p);
        ConstantsIdentity(d, at, s, e);
        assert s[p..e] + s[e..] == s[p..];
      } else {
        ConstantsIdentity(d, at, s, p + 1);
        assert [s[p]] + s[p + 1..] == s[p..];
      }
    }
  }

  /** Number of newlines. */
  function Newlines(s: string): nat
  {
    if s == [] then 0 else (if s[0] == '\n' then 1 else 0) + Newlines(s[1..])
  }

  lemma {:induction false} NewlinesAppend(a: string, b: string)
    ensures Newlines(a + b) == Newlines(a) + Newlines(b)
  {
    if a != [] {
      assert (a + b)[1..] == a[1..] + b;
      NewlinesAppend(a[1..], b);
    } else {
      assert a + b == b;
    }
  }

  lemma {:induction false} NoNewlines(s: string)
    requires '\n' !in s
    ensures Newlines(s) == 0
  {
    if s != [] {
      assert '\n' !in s[1..];
      NoNewlines(s[1..]);
    }
  }

  /** Constant wrapping keeps the line structure: it neither adds nor removes a newline. */
  lemma {:induction false} ConstantsKeepLines(d: nat -> nat, at: nat, s: string, p: nat)
    requires p <= |s|
    ensures Newlines(ConstantsFrom(d, at, s, p).0) == Newlines(s[p..])
    decreases |s| - p
  {
    if p < |s| {
      if NumberAt(s, p) {
        var e := RunEnd(s, p);
        var w := WrapAt(d, at, s[p..e]);
        ConstantsKeepLines(d, w.1, s, e);
        NewlinesAppend(w.0, ConstantsFrom(d, w.1, s, e).0);
        NoNewlines(w.0);
        assert '\n' !in s[p..e] by {
          forall i | 0 <= i < e - p ensures s[p..e][i] != '\n' { assert IsDigit(s[p..e][i]); }
        }
        NoNewlines(s[p..e]);
        NewlinesAppend(s[p..e], s[e..]);
        assert s[p..e] + s[e..] == s[p..];
      } else {
        ConstantsKeepLines(d, at, s, p + 1);
        NewlinesAppend([s[p]], ConstantsFrom(d, at, s, p + 1).0);
        NewlinesAppend([s[p]], s[p + 1..]);
        assert [s[p]] + s[p + 1..] == s[p..];
      }
    }
  }

  // ---------------------------------------------------------------------------
  // The pass as the source runs it: the replace callback draws from the random source.

  method DrawForm(rng: RandomSource, n: nat) returns (f: Form)
    modifies rng
    ensures (f, rng.used) == FormAt(rng.draws, old(rng.used), n)
  {
    var k := rng.Int(0, 5);
    if k == 0 {
      var a := rng.Int(10, 50);
      var b := rng.Int(10, 50);
      f := Minus(n + a, b);
    } else if k == 1 {
      f := Half(n * 2);
    } else if k == 2 {
      var a := rng.Int(5, 15);
      var b := rng.Int(5, 15);
      f := PlusMinus(n, a, b);
    } else if k == 3 {
      f := FloorHalf(n);
    } else if k == 4 {
      f := Third(n * 3);
    } else {
      f := BxorZero(n);
    }
  }

  method WrapNumber(rng: RandomSource, num: string) returns (text: string)
    requires AllDigits(num)
    modifies rng
    ensures (text, rng.used) == WrapAt(rng.draws, old(rng.used), num)
  {
    var n := DecimalValue(num);
    if n <= 5 {
      text := num;
    } else {
      var f := DrawForm(rng, n);
      text := Render(f);
    }
  }

  /** `tempCode.replace(/\b(\d+)\b/g, ...)` at obfuscator.js:327. */
  method WrapConstants(rng: RandomSource, code: string) returns (out: string)
    modifies rng
    ensures (out, rng.used) == ConstantsAt(rng.draws, old(rng.used), code)
  {
    out := [];
    var p := 0;
    assert out + ConstantsFrom(rng.draws, rng.used, code, p).0 == ConstantsFrom(rng.draws, rng.used, code, p).0;
    while p < |code|
      invariant p <= |code|
      invariant ConstantsAt(rng.draws, old(rng.used), code)
        == (out + ConstantsFrom(rng.draws, rng.used, code, p).0, ConstantsFrom(rng.draws, rng.used, code, p).1)
      decreases |code| - p
    {
      if NumberAt(code, p) {
        var e := RunEnd(code, p);
        ghost var before := rng.used;
        var text := WrapNumber(rng, code[p..e]);
        AppendAssoc(out, text, ConstantsFrom(rng.draws, rng.used, code, e).0);
        out := out + text;
        p := e;
      } else {
        AppendAssoc(out, [code[p]], ConstantsFrom(rng.draws, rng.used, code, p + 1).0);
        out := out + [code[p]];
        p := p + 1;
      }
    }
    assert out + [] == out;
  }
}
