/** Character classes, number rendering and small sequence helpers shared by the
    obfuscator passes. The character classes are those of JavaScript regular
    expressions (without the `u` flag): `\w`, `\d`, `\s`, and the line terminators
    that `.` does not match. */
module Text {

  datatype Option<T> = None | Some(value: T)

  predicate IsDigit(c: char) { '0' <= c <= '9' }

  predicate IsLetter(c: char) { 'a' <= c <= 'z' || 'A' <= c <= 'Z' }

  /** `\w`: the characters on which `\b` turns. */
  predicate IsWordChar(c: char) { IsLetter(c) || IsDigit(c) || c == '_' }

  /** `[a-zA-Z_]`: a character that may start an identifier. */
  predicate IsIdentStart(c: char) { IsLetter(c) || c == '_' }

  /** The characters `.` refuses to match. */
  predicate IsLineTerminator(c: char) {
    c == '\n' || c == '\r' || c == '\U{2028}' || c == '\U{2029}'
  }

  /** `\s`, and the characters `String.prototype.trim` removes. */
  predicate IsSpace(c: char) {
    || c == '\t' || c == '\n' || c == '\U{000B}' || c == '\U{000C}' || c == '\r' || c == ' '
    || c == '\U{00A0}' || c == '\U{1680}' || ('\U{2000}' <= c <= '\U{200A}')
    || c == '\U{2028}' || c == '\U{2029}' || c == '\U{202F}' || c == '\U{205F}'
    || c == '\U{3000}' || c == '\U{FEFF}'
  }

  predicate AllWordChars(s: string) { forall i :: 0 <= i < |s| ==> IsWordChar(s[i]) }

  predicate AllDigits(s: string) { forall i :: 0 <= i < |s| ==> IsDigit(s[i]) }

  /** A name `[a-zA-Z_][a-zA-Z0-9_]*`. */
  predicate IsIdentifier(s: string) { |s| > 0 && IsIdentStart(s[0]) && AllWordChars(s) }

  /** Length of the run of word characters at the front of `s`. */
  function WordRun(s: string): (n: nat)
    ensures n <= |s|
    ensures forall i :: 0 <= i < n ==> IsWordChar(s[i])
    ensures n < |s| ==> !IsWordChar(s[n])
  {
    if s == [] || !IsWordChar(s[0]) then 0 else 1 + WordRun(s[1..])
  }

  /** Length of the run of `\s` characters at the front of `s`. */
  function SpaceRun(s: string): (n: nat)
    ensures n <= |s|
    ensures forall i :: 0 <= i < n ==> IsSpace(s[i])
    ensures n < |s| ==> !IsSpace(s[n])
  {
    if s == [] || !IsSpace(s[0]) then 0 else 1 + SpaceRun(s[1..])
  }

  lemma WordRunOfConcat(x: string, y: string)
    requires AllWordChars(x)
    requires y == [] || !IsWordChar(y[0])
    ensures WordRun(x + y) == |x|
  {
    if x != [] {
      assert (x + y)[1..] == x[1..] + y;
      WordRunOfConcat(x[1..], y);
    }
  }

  lemma WordRunWhole(s: string)
    requires AllWordChars(s)
    ensures WordRun(s) == |s|
  {
    WordRunOfConcat(s, []);
    assert s + [] == s;
  }

  // ---------------------------------------------------------------------------
  // Numbers as text: Number.prototype.toString(radix) and parseInt.

  /** The digit characters of `toString(8)`, `toString(10)` and `toString(16)`. */
  function DigitChar(d: nat): (c: char)
    requires d < 16
    ensures IsWordChar(c)
    ensures d < 10 ==> IsDigit(c)
  {
    "0123456789abcdef"[d]
  }

  function DigitValue(c: char): nat
  {
    if '0' <= c <= '9' then (c as int - '0' as int) as nat
    else if 'a' <= c <= 'f' then (c as int - 'a' as int + 10) as nat
    else 16
  }

  lemma DigitValueOfChar(d: nat)
    requires d < 16
    ensures DigitValue(DigitChar(d)) == d
  {
  }

  predicate IsRadixDigit(c: char, base: nat) { DigitValue(c) < base }

  lemma DivStep(n: nat, base: nat)
    requires 2 <= base <= n
    ensures n / base < n && n % base < base
    ensures n == (n / base) * base + n % base
  {
  }

  /** `n.toString(base)`: no leading zeros, "0" for zero. */
  function Radix(n: nat, base: nat): (s: string)
    requires 2 <= base <= 16
    ensures |s| >= 1
    ensures forall i :: 0 <= i < |s| ==> IsRadixDigit(s[i], base) && IsWordChar(s[i])
    ensures base <= 10 ==> AllDigits(s)
    decreases n
  {
    if n < base then
      DigitValueOfChar(n);
      [DigitChar(n)]
    else
      DivStep(n, base);
      var d := n % base;
      DigitValueOfChar(d);
      Radix(n / base, base) + [DigitChar(d)]
  }

  /** The value a string of digits denotes in `base` (parseInt on a digit string). */
  function RadixValue(s: string, base: nat): nat
    requires 2 <= base <= 16
    requires forall i :: 0 <= i < |s| ==> IsRadixDigit(s[i], base)
  {
    if s == [] then 0 else RadixValue(s[..|s| - 1], base) * base + DigitValue(s[|s| - 1])
  }

  lemma {:induction false} RadixRoundTrip(n: nat, base: nat)
    requires 2 <= base <= 16
    ensures RadixValue(Radix(n, base), base) == n
    decreases n
  {
    var s := Radix(n, base);
    if n < base {
      DigitValueOfChar(n);
      assert s[..|s| - 1] == [];
    } else {
      DivStep(n, base);
      RadixRoundTrip(n / base, base);
      assert s[..|s| - 1] == Radix(n / base, base);
      DigitValueOfChar(n % base);
      assert RadixValue(s, base) == RadixValue(Radix(n / base, base), base) * base + n % base;
    }
  }

  function Pow(b: nat, k: nat): (r: nat)
    ensures b >= 1 ==> r >= 1
  {
    if k == 0 then 1 else b * Pow(b, k - 1)
  }

  /** `n.toString(base)` has exactly `k` digits when `base^(k-1) <= n < base^k`. */
  lemma {:induction false} RadixLength(n: nat, base: nat, k: nat)
    requires 2 <= base <= 16 && k >= 1
    requires k == 1 || Pow(base, k - 1) <= n
    requires n < Pow(base, k)
    ensures |Radix(n, base)| == k
    decreases k
  {
    if n < base {
      if k >= 2 {
        PowAtLeastBase(base, k - 1);
      }
    } else {
      DivStep(n, base);
      assert Pow(base, k) == base * Pow(base, k - 1);
      DivUpper(n, base, Pow(base, k - 1));
      if k >= 3 {
        assert Pow(base, k - 1) == base * Pow(base, k - 2);
        DivLower(n, base, Pow(base, k - 2));
      }
      RadixLength(n / base, base, k - 1);
    }
  }

  lemma DivUpper(n: nat, base: nat, hi: nat)
    requires base >= 1 && n < base * hi
    ensures n / base < hi
  {
    var q := n / base;
    assert q * base <= n;
    if q >= hi {
      MulMono(base, hi, q);
    }
  }

  lemma DivLower(n: nat, base: nat, lo: nat)
    requires base >= 1 && base * lo <= n
    ensures lo <= n / base
  {
    var q, r := n / base, n % base;
    assert n == q * base + r && r < base;
    if q < lo {
      MulMono(base, q + 1, lo);
    }
  }

  lemma MulMono(b: nat, x: nat, y: nat)
    requires x <= y
    ensures b * x <= b * y
  {
  }

  lemma {:induction false} PowAtLeastBase(base: nat, k: nat)
    requires base >= 1 && k >= 1
    ensures Pow(base, k) >= base
  {
    if k > 1 {
      PowAtLeastBase(base, k - 1);
      MulMono(base, 1, Pow(base, k - 1));
    }
  }

  /** Decimal rendering of a natural number, as template literals print it. */
  function Decimal(n: nat): (s: string)
    ensures |s| >= 1 && AllDigits(s) && AllWordChars(s) && '\n' !in s
  {
    Radix(n, 10)
  }

  /** Decimal rendering of an integer, with a leading minus sign when negative. */
  function SignedDecimal(i: int): (s: string)
    ensures |s| >= 1 && '\n' !in s
  {
    if i < 0 then "-" + Decimal(-i) else Decimal(i)
  }

  function DecimalValue(s: string): nat
    requires AllDigits(s)
  {
    RadixValue(s, 10)
  }

  lemma DecimalRoundTrip(n: nat)
    ensures DecimalValue(Decimal(n)) == n
  {
    RadixRoundTrip(n, 10);
  }

  /** `s.padStart(width, '0')`. */
  function PadZeros(s: string, width: nat): (r: string)
    ensures |r| == if |s| >= width then |s| else width
    ensures |s| >= width ==> r == s
    ensures |s| < width ==> r == seq(width - |s|, _ => '0') + s
  {
    if |s| >= width then s else seq(width - |s|, _ => '0') + s
  }

  // ---------------------------------------------------------------------------
  // Lines: String.prototype.split('\n') and Array.prototype.join('\n').

  function Split(s: string): (lines: seq<string>)
    ensures |lines| >= 1
    ensures forall i :: 0 <= i < |lines| ==> '\n' !in lines[i]
  {
    if s == [] then [""]
    else
      var rest := Split(s[1..]);
      if s[0] == '\n' then [""] + rest else [[s[0]] + rest[0]] + rest[1..]
  }

  function Join(lines: seq<string>): string
    requires |lines| >= 1
  {
    if |lines| == 1 then lines[0] else lines[0] + "\n" + Join(lines[1..])
  }

  lemma {:induction false} JoinSplit(s: string)
    ensures Join(Split(s)) == s
  {
    if s != [] {
      var rest := Split(s[1..]);
      JoinSplit(s[1..]);
      if s[0] == '\n' {
        assert Split(s)[1..] == rest;
      } else {
        var ls := Split(s);
        assert ls[1..] == rest[1..];
        if |rest| == 1 {
        } else {
          assert rest[1..] == Split(s[1..])[1..];
          assert Join(rest) == rest[0] + "\n" + Join(rest[1..]);
        }
      }
    }
  }

  lemma {:induction false} SplitNoNewline(x: string, y: string)
    requires '\n' !in x
    ensures Split(x + y) == [x + Split(y)[0]] + Split(y)[1..]
  {
    if x != [] {
      assert (x + y)[1..] == x[1..] + y;
      assert (x + y)[0] == x[0] && x[0] != '\n';
      SplitNoNewline(x[1..], y);
      var rest := Split(x[1..] + y);
      assert rest[0] == x[1..] + Split(y)[0] && rest[1..] == Split(y)[1..];
      assert [x[0]] + rest[0] == x + Split(y)[0];
    } else {
      assert x + y == y;
      assert x + Split(y)[0] == Split(y)[0];
      assert Split(y) == [Split(y)[0]] + Split(y)[1..];
    }
  }

  lemma {:induction false} SplitJoin(lines: seq<string>)
    requires |lines| >= 1
    requires forall i :: 0 <= i < |lines| ==> '\n' !in lines[i]
    ensures Split(Join(lines)) == lines
  {
    if |lines| == 1 {
      SplitNoNewline(lines[0], "");
      assert lines[0] + "" == lines[0];
    } else {
      var y := "\n" + Join(lines[1..]);
      SplitJoin(lines[1..]);
      assert y[1..] == Join(lines[1..]);
      assert Split(y) == [""] + lines[1..];
      SplitNoNewline(lines[0], y);
      assert lines[0] + "\n" + Join(lines[1..]) == lines[0] + y;
      assert Split(y)[0] == "" && Split(y)[1..] == lines[1..];
      assert lines[0] + "" == lines[0];
      assert Join(lines) == lines[0] + y;
    }
  }

  // ---------------------------------------------------------------------------
  // String.prototype.trim and startsWith.

  function TrimStart(s: string): (r: string)
    ensures |r| <= |s| && r == s[|s| - |r|..]
    ensures r == [] || !IsSpace(r[0])
    ensures forall i :: 0 <= i < |s| - |r| ==> IsSpace(s[i])
  {
    if s != [] && IsSpace(s[0]) then TrimStart(s[1..]) else s
  }

  function TrimEnd(s: string): (r: string)
    ensures |r| <= |s| && r == s[..|r|]
    ensures r == [] || !IsSpace(r[|r| - 1])
    ensures forall i :: |r| <= i < |s| ==> IsSpace(s[i])
  {
    if s != [] && IsSpace(s[|s| - 1]) then TrimEnd(s[..|s| - 1]) else s
  }

  /** `s.trim()`: the text without its leading and trailing `\s` characters. */
  function Trim(s: string): string
  {
    TrimEnd(TrimStart(s))
  }

  predicate StartsWith(s: string, prefix: string) { |prefix| <= |s| && s[..|prefix|] == prefix }

  // ---------------------------------------------------------------------------
  // Insertion-ordered sets: what a JavaScript Set or Map keeps.

  /** The elements of `xs` without repeats, each at its first occurrence. */
  function Dedup<T(==)>(xs: seq<T>): (ys: seq<T>)
    ensures |ys| <= |xs|
  {
    if xs == [] then []
    else
      var d := Dedup(xs[..|xs| - 1]);
      if xs[|xs| - 1] in d then d else d + [xs[|xs| - 1]]
  }

  /** Dedup keeps exactly the elements of `xs`, and none twice. */
  lemma {:induction false} DedupProps<T(!new)>(xs: seq<T>)
    ensures forall x :: x in Dedup(xs) <==> x in xs
    ensures forall i, j :: 0 <= i < j < |Dedup(xs)| ==> Dedup(xs)[i] != Dedup(xs)[j]
  {
    if xs != [] {
      var init := xs[..|xs| - 1];
      DedupProps(init);
      assert forall x :: x in xs <==> x in init || x == xs[|xs| - 1];
    }
  }

  lemma DedupSnoc<T>(xs: seq<T>, x: T)
    ensures Dedup(xs + [x]) == if x in Dedup(xs) then Dedup(xs) else Dedup(xs) + [x]
  {
    assert (xs + [x])[..|xs|] == xs;
  }

  /** Index of the first occurrence of `x` in `xs`. */
  function IndexOf<T(==)>(xs: seq<T>, x: T): (i: nat)
    requires x in xs
    ensures i < |xs| && xs[i] == x
    ensures forall j :: 0 <= j < i ==> xs[j] != x
  {
    if xs[0] == x then 0 else 1 + IndexOf(xs[1..], x)
  }

  /** Dedup keeps first-occurrence order: of two kept elements, the one seen first in `xs` comes first. */
  lemma {:induction false} DedupFirstOccurrenceOrder<T(!new)>(xs: seq<T>, i: nat, j: nat)
    requires i < j < |Dedup(xs)|
    ensures Dedup(xs)[i] in xs && Dedup(xs)[j] in xs
    ensures IndexOf(xs, Dedup(xs)[i]) < IndexOf(xs, Dedup(xs)[j])
  {
    DedupProps(xs);
    var init := xs[..|xs| - 1];
    DedupProps(init);
    var d := Dedup(init);
    var last := xs[|xs| - 1];
    IndexOfPrefix(xs, init, Dedup(xs)[i]);
    if j < |d| {
      DedupFirstOccurrenceOrder(init, i, j);
      IndexOfPrefix(xs, init, Dedup(xs)[j]);
    } else {
      assert Dedup(xs)[j] == last && last !in d && last !in init;
      assert IndexOf(xs, last) == |xs| - 1;
    }
  }

  lemma {:induction false} IndexOfPrefix<T>(xs: seq<T>, init: seq<T>, x: T)
    requires init <= xs && x in init
    ensures IndexOf(xs, x) == IndexOf(init, x)
  {
    if init[0] != x {
      assert x in init[1..];
      IndexOfPrefix(xs[1..], init[1..], x);
    }
  }

  // ---------------------------------------------------------------------------
  // Substrings.

  predicate OccursAt(s: string, w: string, p: nat) { p + |w| <= |s| && s[p..p + |w|] == w }

  predicate Contains(s: string, w: string) { exists p: nat | p <= |s| :: OccursAt(s, w, p) }

  // ---------------------------------------------------------------------------
  // Concatenation of blocks.

  /** The blocks one after the other. */
  function Concat<T>(xss: seq<seq<T>>): seq<T>
  {
    if xss == [] then [] else xss[0] + Concat(xss[1..])
  }

  lemma {:induction false} ConcatSnoc<T>(xss: seq<seq<T>>, xs: seq<T>)
    ensures Concat(xss + [xs]) == Concat(xss) + xs
  {
    if xss == [] {
      assert Concat([xs]) == xs + Concat<T>([]);
    } else {
      assert (xss + [xs])[1..] == xss[1..] + [xs];
      ConcatSnoc(xss[1..], xs);
    }
  }

  /** Block `i` sits in the concatenation right after the blocks before it. */
  lemma {:induction false} ConcatBlock<T>(xss: seq<seq<T>>, i: nat)
    requires i < |xss|
    ensures |Concat(xss[..i])| + |xss[i]| <= |Concat(xss)|
    ensures Concat(xss)[|Concat(xss[..i])|..|Concat(xss[..i])| + |xss[i]|] == xss[i]
  {
    assert xss == xss[..i] + [xss[i]] + xss[i + 1..];
    ConcatAppend(xss[..i] + [xss[i]], xss[i + 1..]);
    ConcatSnoc(xss[..i], xss[i]);
  }

  lemma {:induction false} ConcatAppend<T>(a: seq<seq<T>>, b: seq<seq<T>>)
    ensures Concat(a + b) == Concat(a) + Concat(b)
  {
    if a == [] {
      assert a + b == b;
    } else {
      assert (a + b)[1..] == a[1..] + b;
      ConcatAppend(a[1..], b);
    }
  }

  /** The length of the concatenation of a prefix grows with the prefix. */
  lemma {:induction false} ConcatPrefixMonotone<T>(xss: seq<seq<T>>, i: nat, j: nat)
    requires i <= j <= |xss|
    ensures |Concat(xss[..i])| + (if i < j then |xss[i]| else 0) <= |Concat(xss[..j])|
  {
    if i < j {
      assert xss[..j] == xss[..i] + [xss[i]] + xss[i + 1..j];
      ConcatAppend(xss[..i] + [xss[i]], xss[i + 1..j]);
      ConcatSnoc(xss[..i], xss[i]);
    }
  }

  /** Every element of the concatenation comes from one of the blocks. */
  lemma {:induction false} ConcatMember<T>(xss: seq<seq<T>>, x: T)
    requires x in Concat(xss)
    ensures exists i :: 0 <= i < |xss| && x in xss[i]
  {
    if x !in xss[0] {
      ConcatMember(xss[1..], x);
      var i :| 0 <= i < |xss[1..]| && x in xss[1..][i];
      assert x in xss[i + 1];
    }
  }
}
