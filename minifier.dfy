/** Minification of the assembled output (obfuscator.js:425-453). Double-quoted spans are
    swapped for `__STRING_<k>__` placeholders, the whitespace of the rest is squeezed by a
    chain of regular-expression replaces, and the placeholders are swapped back.

    Each replace is a scanner over the text. The original text is `Fill(gaps, spans)`: the
    pieces outside the spans joined by the spans themselves; the text with placeholders is
    `Fill(gaps, Placeholders(0, |spans|))`, the same pieces joined by the placeholders. */
module Minifier {
  import opened Text
  import opened Renamer

  // ---------------------------------------------------------------------------
  // Protecting the double-quoted spans: `/"([^"\\]*(\\.[^"\\]*)*)"/g`.

  /** Where the span whose opening quote precedes `s[j]` closes: the body is any character
      but a quote or a backslash, or a backslash and one character other than a line
      terminator; the span ends after the first quote that is not escaped. */
  function QuoteEnd(s: string, j: nat): (r: Option<nat>)
    requires j <= |s|
    ensures r.Some? ==> j < r.value <= |s| && s[r.value - 1] == '"'
    decreases |s| - j
  {
    if j == |s| then None
    else if s[j] == '"' then Some(j + 1)
    else if s[j] == '\\' then
      if j + 1 < |s| && !IsLineTerminator(s[j + 1]) then QuoteEnd(s, j + 2) else None
    else QuoteEnd(s, j + 1)
  }

  /** The length of the span matched at the front of `s`, if one is. */
  function SpanAt(s: string): (r: Option<nat>)
    ensures r.Some? ==> 2 <= r.value <= |s| && s[0] == '"' && s[r.value - 1] == '"'
  {
    if s != [] && s[0] == '"' then QuoteEnd(s, 1) else None
  }

  /** The text split at the spans the replace matches: the pieces outside them and the
      spans, in order. A failed match at `s[0]` lets the scan go on at `s[1]`. */
  function Pieces(s: string): (r: (seq<string>, seq<string>))
    ensures |r.0| == |r.1| + 1
    decreases |s|
  {
    if s == [] then ([[]], [])
    else match SpanAt(s)
      case Some(e) =>
        var rest := Pieces(s[e..]);
        ([[]] + rest.0, [s[..e]] + rest.1)
      case None =>
        var rest := Pieces(s[1..]);
        ([[s[0]] + rest.0[0]] + rest.0[1..], rest.1)
  }

  /** The pieces joined by the spans. */
  function Fill(gaps: seq<string>, spans: seq<string>): string
    requires |gaps| == |spans| + 1
    decreases |spans|
  {
    if spans == [] then gaps[0] else gaps[0] + (spans[0] + Fill(gaps[1..], spans[1..]))
  }

  function Marker(): string { "__STRING_" }

  /** `__STRING_${index}__`. */
  function Placeholder(k: nat): (t: string)
    ensures StartsWith(t, Marker()) && AllWordChars(t) && t[|t| - 1] == '_'
  {
    var t := Marker() + Decimal(k) + "__";
    assert t[..9] == Marker();
    t
  }

  /** The placeholders numbered `k` to `k + n - 1`. */
  function Placeholders(k: nat, n: nat): (phs: seq<string>)
    ensures |phs| == n
  {
    seq(n, i requires 0 <= i < n => Placeholder(k + i))
  }

  lemma PlaceholdersCons(k: nat, n: nat)
    requires n >= 1
    ensures Placeholders(k, n)[0] == Placeholder(k)
    ensures Placeholders(k, n)[1..] == Placeholders(k + 1, n - 1)
  {
  }

  /** Non-empty runs of word characters, which the whitespace passes leave as they are. */
  predicate Words(phs: seq<string>) {
    forall i :: 0 <= i < |phs| ==> phs[i] != [] && AllWordChars(phs[i])
  }

  lemma PlaceholdersWords(k: nat, n: nat)
    ensures Words(Placeholders(k, n))
  {
    forall i | 0 <= i < n ensures Placeholders(k, n)[i] != [] && AllWordChars(Placeholders(k, n)[i]) {
      var t := Placeholder(k + i);
      assert t[|t| - 1] == '_';
    }
  }

  /** The text with its spans swapped for the placeholders numbered from `k`. */
  function Protected(s: string, k: nat): string
    decreases |s|
  {
    if s == [] then []
    else match SpanAt(s)
      case Some(e) => Placeholder(k) + Protected(s[e..], k + 1)
      case None => [s[0]] + Protected(s[1..], k)
  }

  /** The protected text is the pieces outside the spans joined by the placeholders. */
  lemma {:induction false} ProtectedFill(s: string, k: nat)
    ensures Protected(s, k) == Fill(Pieces(s).0, Placeholders(k, |Pieces(s).1|))
    decreases |s|
  {
    if s != [] {
      match SpanAt(s)
      case Some(e) =>
        ProtectedFill(s[e..], k + 1);
        var rest := Pieces(s[e..]);
        PlaceholdersCons(k, |rest.1| + 1);
        assert ([[]] + rest.0)[1..] == rest.0;
      case None =>
        ProtectedFill(s[1..], k);
        FillCons([s[0]], Pieces(s[1..]).0, Placeholders(k, |Pieces(s[1..]).1|));
    }
  }

  lemma FillCons(a: string, gaps: seq<string>, spans: seq<string>)
    requires |gaps| == |spans| + 1
    ensures Fill([a + gaps[0]] + gaps[1..], spans) == a + Fill(gaps, spans)
  {
    assert ([a + gaps[0]] + gaps[1..])[1..] == gaps[1..];
  }

  /** Putting the spans back where they were gives the text back. */
  lemma {:induction false} PiecesFill(s: string)
    ensures Fill(Pieces(s).0, Pieces(s).1) == s
    decreases |s|
  {
    if s != [] {
      match SpanAt(s)
      case Some(e) =>
        PiecesFill(s[e..]);
        var rest := Pieces(s[e..]);
        assert ([[]] + rest.0)[1..] == rest.0;
        assert s[..e] + s[e..] == s;
      case None =>
        PiecesFill(s[1..]);
        FillCons([s[0]], Pieces(s[1..]).0, Pieces(s[1..]).1);
        assert [s[0]] + s[1..] == s;
    }
  }

  lemma ProtectStep(code: string, p: nat, k: nat)
    requires p < |code|
    ensures SpanAt(code[p..]).Some? ==>
      var e := SpanAt(code[p..]).value;
      Pieces(code[p..]).1 == [code[p..p + e]] + Pieces(code[p + e..]).1
      && Protected(code[p..], k) == Placeholder(k) + Protected(code[p + e..], k + 1)
    ensures SpanAt(code[p..]).None? ==>
      Pieces(code[p..]).1 == Pieces(code[p + 1..]).1
      && Protected(code[p..], k) == [code[p]] + Protected(code[p + 1..], k)
  {
    var s := code[p..];
    match SpanAt(s)
    case Some(e) =>
      DropDrop(code, p, e);
      assert s[..e] == code[p..p + e];
    case None =>
      DropDrop(code, p, 1);
  }

  /** The loop state of `ProtectStrings` after `code[..p]`: the spans met so far and the
      text produced so far extend to the whole result. */
  ghost predicate Protecting(code: string, p: nat, text: string, spans: seq<string>)
    requires p <= |code|
  {
    && spans + Pieces(code[p..]).1 == Pieces(code).1
    && text + Protected(code[p..], |spans|) == Protected(code, 0)
  }

  lemma ProtectSpan(code: string, p: nat, e: nat, text: string, spans: seq<string>)
    requires p < |code| && SpanAt(code[p..]) == Some(e)
    requires Protecting(code, p, text, spans)
    ensures p + e <= |code| && Protecting(code, p + e, text + Placeholder(|spans|), spans + [code[p..p + e]])
  {
    var k := |spans|;
    ProtectStep(code, p, k);
    var span, rest := code[p..p + e], code[p + e..];
    assert Pieces(code[p..]).1 == [span] + Pieces(rest).1;
    assert Protected(code[p..], k) == Placeholder(k) + Protected(rest, k + 1);
    AppendAssoc(text, Placeholder(k), Protected(rest, k + 1));
    AppendAssoc(spans, [span], Pieces(rest).1);
    assert |spans + [span]| == k + 1;
  }

  lemma ProtectOther(code: string, p: nat, text: string, spans: seq<string>)
    requires p < |code| && SpanAt(code[p..]).None?
    requires Protecting(code, p, text, spans)
    ensures Protecting(code, p + 1, text + [code[p]], spans)
  {
    ProtectStep(code, p, |spans|);
    AppendAssoc(text, [code[p]], Protected(code[p + 1..], |spans|));
  }

  /** `wrappedCode.replace(/"([^"\\]*(\\.[^"\\]*)*)"/g, ...)` at obfuscator.js:428-432, with
      the callback pushing each match onto `stringProtector`: the text comes out with the
      spans swapped for numbered placeholders, and the spans are kept in order. */
  method ProtectStrings(code: string) returns (text: string, spans: seq<string>)
    ensures spans == Pieces(code).1
    ensures text == Protected(code, 0)
  {
    text := [];
    spans := [];
    var p := 0;
    ProtectingStart(code);
    while p < |code|
      invariant p <= |code|
      invariant Protecting(code, p, text, spans)
      decreases |code| - p
    {
      var span := SpanAt(code[p..]);
      if span.Some? {
        var e := span.value;
        ProtectSpan(code, p, e, text, spans);
        text := text + Placeholder(|spans|);
        spans := spans + [code[p..p + e]];
        p := p + e;
      } else {
        ProtectOther(code, p, text, spans);
        text := text + [code[p]];
        p := p + 1;
      }
    }
    ProtectingDone(code, text, spans);
  }

  lemma ProtectingStart(code: string)
    ensures Protecting(code, 0, [], [])
  {
    assert code[0..] == code;
  }

  lemma ProtectingDone(code: string, text: string, spans: seq<string>)
    requires Protecting(code, |code|, text, spans)
    ensures spans == Pieces(code).1 && text == Protected(code, 0)
  {
    assert code[|code|..] == [];
    assert text + [] == text && spans + [] == spans;
  }

  // ---------------------------------------------------------------------------
  // The whitespace passes of obfuscator.js:435-448.

  /** `.replace(/\n/g, ' ')`. */
  function NewlinesToSpaces(s: string): (r: string)
    ensures |r| == |s| && '\n' !in r
  {
    if s == [] then [] else [if s[0] == '\n' then ' ' else s[0]] + NewlinesToSpaces(s[1..])
  }

  /** The end of the whitespace run that starts at `s[i]`: `\s*` matched from there. */
  function SpaceEnd(s: string, i: nat): (n: nat)
    requires i <= |s|
    ensures i <= n <= |s| && (n < |s| ==> !IsSpace(s[n]))
    ensures i < |s| && IsSpace(s[i]) ==> i < n
    decreases |s| - i
  {
    if i < |s| && IsSpace(s[i]) then SpaceEnd(s, i + 1) else i
  }

  /** One step of `.replace(/\s+/g, ' ')`: a whitespace run becomes one space, any other
      character is kept; the result says where the scan goes on. */
  function CollapseStep(s: string): (r: (char, nat))
    requires s != []
    ensures 0 < r.1 <= |s|
  {
    if IsSpace(s[0]) then (' ', SpaceEnd(s, 0)) else (s[0], 1)
  }

  /** `.replace(/\s+/g, ' ')`. */
  function Collapse(s: string): (r: string)
    ensures s != [] ==> r != [] && r[0] == (if IsSpace(s[0]) then ' ' else s[0])
    decreases |s|
  {
    if s == [] then []
    else
      var st := CollapseStep(s);
      [st.0] + Collapse(s[st.1..])
  }

  /** The class `[(){}[\],;=<>+\-*\/~]`. */
  predicate IsOperator(c: char) {
    || c == '(' || c == ')' || c == '{' || c == '}' || c == '[' || c == ']' || c == ',' || c == ';'
    || c == '=' || c == '<' || c == '>' || c == '+' || c == '-' || c == '*' || c == '/' || c == '~'
  }

  /** One step of `.replace(/\s*([(){}[\],;=<>+\-*\/~])\s*\/g, '$1')`. Where an operator
      follows the whitespace at the front, the match writes the operator alone and the scan
      goes on after the whitespace that follows it; otherwise the match fails there, the
      first character is kept and the scan moves on by one. */
  function StripStep(s: string): (r: (char, nat))
    requires s != []
    ensures 0 < r.1 <= |s|
  {
    var a := SpaceEnd(s, 0);
    if a < |s| && IsOperator(s[a]) then (s[a], SpaceEnd(s, a + 1)) else (s[0], 1)
  }

  /** The operator replace: an operator swallows the whitespace on both sides of it. */
  function StripAroundOperators(s: string): (r: string)
    ensures s != [] && !IsSpace(s[0]) ==> r != [] && r[0] == s[0]
    decreases |s|
  {
    if s == [] then []
    else
      var st := StripStep(s);
      [st.0] + StripAroundOperators(s[st.1..])
  }

  /** One step of `.replace(/\s+kw\s+/g, ' kw ')`: a whitespace run, the keyword and a second
      whitespace run become the keyword between single spaces. */
  function RespaceStep(s: string, kw: string): (r: (string, nat))
    requires s != []
    ensures 0 < r.1 <= |s|
  {
    var a := SpaceEnd(s, 0);
    var e := a + |kw|;
    if a > 0 && OccursAt(s, kw, a) && e < |s| && IsSpace(s[e]) then (" " + kw + " ", SpaceEnd(s, e))
    else ([s[0]], 1)
  }

  /** `.replace(/\s+kw\s+/g, ' kw ')` for one keyword. */
  function Respace(s: string, kw: string): string
    decreases |s|
  {
    if s == [] then []
    else
      var st := RespaceStep(s, kw);
      st.0 + Respace(s[st.1..], kw)
  }

  /** The keywords re-spaced at obfuscator.js:439-447, in order. */
  function Keywords(): seq<string> {
    ["then", "else", "end", "if", "local", "function", "return", "for", "do"]
  }

  function RespaceAll(s: string, kws: seq<string>): string
    decreases |kws|
  {
    if kws == [] then s else RespaceAll(Respace(s, kws[0]), kws[1..])
  }

  // ---------------------------------------------------------------------------
  // Restoring: `.replace(/__STRING_(\d+)__/g, (m, i) => stringProtector[parseInt(i)])`.

  function DigitRun(s: string): (n: nat)
    ensures n <= |s| && AllDigits(s[..n]) && (n < |s| ==> !IsDigit(s[n]))
  {
    if s == [] || !IsDigit(s[0]) then 0
    else
      var n := 1 + DigitRun(s[1..]);
      assert s[..n] == [s[0]] + s[1..][..n - 1];
      n
  }

  /** A placeholder at the front of `s`: its index and its length. */
  function PlaceholderAt(s: string): (r: Option<(nat, nat)>)
    ensures r.Some? ==> 0 < r.value.1 <= |s|
  {
    if StartsWith(s, Marker()) then
      var t := s[9..];
      var n := DigitRun(t);
      if n > 0 && StartsWith(t[n..], "__") then Some((DecimalValue(t[..n]), 11 + n)) else None
    else None
  }

  /** An index past the end of `stringProtector` reads `undefined`, which the replace prints. */
  function Restore(s: string, spans: seq<string>): string
    decreases |s|
  {
    if s == [] then []
    else match PlaceholderAt(s)
      case Some(m) => (if m.0 < |spans| then spans[m.0] else "undefined") + Restore(s[m.1..], spans)
      case None => [s[0]] + Restore(s[1..], spans)
  }

  /** The whole of obfuscator.js:427-453. */
  function MinifyText(code: string): string
  {
    var pieces := Pieces(code);
    var squeezed := StripAroundOperators(Collapse(NewlinesToSpaces(Protected(code, 0))));
    Restore(Trim(RespaceAll(squeezed, Keywords())), pieces.1)
  }

  method Minify(code: string) returns (out: string)
    ensures out == MinifyText(code)
  {
    var text, spans := ProtectStrings(code);
    text := NewlinesToSpaces(text);
    text := Collapse(text);
    text := StripAroundOperators(text);
    var i := 0;
    while i < |Keywords()|
      invariant i <= |Keywords()|
      invariant RespaceAll(text, Keywords()[i..]) ==
        RespaceAll(StripAroundOperators(Collapse(NewlinesToSpaces(Protected(code, 0)))), Keywords())
    {
      assert Keywords()[i..][1..] == Keywords()[i + 1..];
      text := Respace(text, Keywords()[i]);
      i := i + 1;
    }
    text := Trim(text);
    out := Restore(text, spans);
  }

  // ---------------------------------------------------------------------------
  // What a piece outside the spans becomes.

  /** Whitespace outside the spans is a single plain space each time. */
  ghost predicate Collapsed(s: string) {
    && (forall i :: 0 <= i < |s| && IsSpace(s[i]) ==> s[i] == ' ')
    && (forall i, j :: 0 <= i < j < |s| && j == i + 1 ==> !IsSpace(s[i]) || !IsSpace(s[j]))
  }

  /** The characters that are not whitespace, in order. */
  function NonSpace(s: string): string
  {
    if s == [] then [] else (if IsSpace(s[0]) then [] else [s[0]]) + NonSpace(s[1..])
  }

  function MinGap(g: string): string
  {
    StripAroundOperators(Collapse(NewlinesToSpaces(g)))
  }

  function MinGaps(gaps: seq<string>): (r: seq<string>)
    ensures |r| == |gaps|
  {
    seq(|gaps|, i requires 0 <= i < |gaps| => MinGap(gaps[i]))
  }

  function TrimLast(gaps: seq<string>): (r: seq<string>)
    requires |gaps| >= 1
    ensures |r| == |gaps|
  {
    gaps[..|gaps| - 1] + [TrimEnd(gaps[|gaps| - 1])]
  }

  /** The trim reaches only the front of the first piece and the end of the last one. */
  lemma TrimLastCons(gaps: seq<string>)
    requires |gaps| >= 2
    ensures TrimLast(gaps) == [gaps[0]] + TrimLast(gaps[1..])
  {
    var u, v := TrimLast(gaps), [gaps[0]] + TrimLast(gaps[1..]);
    assert forall i :: 0 <= i < |u| ==> u[i] == v[i];
  }

  function Trimmed(gaps: seq<string>): (r: seq<string>)
    requires |gaps| >= 1
    ensures |r| == |gaps|
  {
    if |gaps| == 1 then [Trim(gaps[0])] else [TrimStart(gaps[0])] + TrimLast(gaps[1..])
  }

  // ---------------------------------------------------------------------------
  // Generic facts about the scans.

  lemma SplitAt<T>(s: seq<T>, a: nat)
    requires a <= |s|
    ensures s[..a] + s[a..] == s
  {
  }

  lemma ConsAt<T>(s: seq<T>, a: nat)
    requires a < |s|
    ensures [s[a]] + s[a + 1..] == s[a..]
  {
  }

  lemma DropDrop<T>(s: seq<T>, i: nat, j: nat)
    requires i + j <= |s|
    ensures s[i..][j..] == s[i + j..]
  {
  }

  lemma DropAppend<T>(x: seq<T>, z: seq<T>, b: nat)
    requires b <= |x|
    ensures (x + z)[b..] == x[b..] + z
  {
  }

  /** Every character of the run that `SpaceEnd` skips is whitespace. */
  lemma {:induction false} SpacesBelow(s: string, i: nat, k: nat)
    requires i <= |s| && i <= k < SpaceEnd(s, i)
    ensures IsSpace(s[k])
    decreases k - i
  {
    if k > i {
      SpacesBelow(s, i + 1, k);
    }
  }

  lemma {:induction false} NonSpaceAppend(x: string, y: string)
    ensures NonSpace(x + y) == NonSpace(x) + NonSpace(y)
  {
    if x == [] {
      assert x + y == y;
    } else {
      DropAppend(x, y, 1);
      NonSpaceAppend(x[1..], y);
    }
  }

  lemma NonSpaceCons(c: char, r: string)
    ensures NonSpace([c] + r) == (if IsSpace(c) then [] else [c]) + NonSpace(r)
  {
    assert ([c] + r)[1..] == r;
  }

  lemma {:induction false} NonSpaceOfSpaces(x: string)
    requires forall i :: 0 <= i < |x| ==> IsSpace(x[i])
    ensures NonSpace(x) == []
  {
    if x != [] {
      NonSpaceOfSpaces(x[1..]);
    }
  }

  /** A whitespace run adds nothing to the non-whitespace characters. */
  lemma {:induction false} NonSpaceSkip(s: string, i: nat)
    requires i <= |s|
    ensures NonSpace(s[i..]) == NonSpace(s[SpaceEnd(s, i)..])
    decreases |s| - i
  {
    if i < |s| && IsSpace(s[i]) {
      DropDrop(s, i, 1);
      NonSpaceSkip(s, i + 1);
    }
  }

  lemma {:induction false} NonSpaceOfWord(x: string)
    requires AllWordChars(x)
    ensures NonSpace(x) == x
  {
    if x != [] {
      NonSpaceOfWord(x[1..]);
      ConsAt(x, 0);
    }
  }

  lemma CollapsedCons(c: char, r: string)
    requires Collapsed(r)
    requires IsSpace(c) ==> c == ' ' && (r == [] || !IsSpace(r[0]))
    ensures Collapsed([c] + r)
  {
    var s := [c] + r;
    forall i | 0 <= i < |s| && IsSpace(s[i]) ensures s[i] == ' ' {
      if i > 0 { assert s[i] == r[i - 1]; }
    }
    forall i, j | 0 <= i < j < |s| && j == i + 1 ensures !IsSpace(s[i]) || !IsSpace(s[j]) {
      if i > 0 { assert s[i] == r[i - 1] && s[j] == r[j - 1]; }
    }
  }

  lemma CollapsedSlice(s: string, i: nat, j: nat)
    requires Collapsed(s) && i <= j <= |s|
    ensures Collapsed(s[i..j])
  {
    var t := s[i..j];
    forall m | 0 <= m < |t| && IsSpace(t[m]) ensures t[m] == ' ' {
      assert t[m] == s[i + m];
    }
    forall m, n | 0 <= m < n < |t| && n == m + 1 ensures !IsSpace(t[m]) || !IsSpace(t[n]) {
      assert t[m] == s[i + m] && t[n] == s[i + n];
    }
  }

  lemma CollapsedDrop(s: string, i: nat)
    requires Collapsed(s) && i <= |s|
    ensures Collapsed(s[i..])
  {
    CollapsedSlice(s, i, |s|);
    assert s[i..|s|] == s[i..];
  }

  // `\n` to space.

  lemma {:induction false} NewlinesAppend(x: string, y: string)
    ensures NewlinesToSpaces(x + y) == NewlinesToSpaces(x) + NewlinesToSpaces(y)
  {
    if x == [] {
      assert x + y == y;
    } else {
      DropAppend(x, y, 1);
      NewlinesAppend(x[1..], y);
    }
  }

  lemma {:induction false} NewlinesOfWord(x: string)
    requires AllWordChars(x)
    ensures NewlinesToSpaces(x) == x
  {
    if x != [] {
      NewlinesOfWord(x[1..]);
      ConsAt(x, 0);
    }
  }

  lemma {:induction false} NewlinesNonSpace(s: string)
    ensures NonSpace(NewlinesToSpaces(s)) == NonSpace(s)
  {
    if s != [] {
      NewlinesNonSpace(s[1..]);
      var r := NewlinesToSpaces(s);
      assert r[1..] == NewlinesToSpaces(s[1..]);
    }
  }

  // Collapsing whitespace runs.

  /** No whitespace run and no operator match reaches across the join of `x` and `z`. */
  predicate Seam(x: string, z: string) {
    x == [] || z == [] || IsWordChar(x[|x| - 1]) || IsWordChar(z[0])
  }

  lemma SeamSuffix(x: string, i: nat, z: string)
    requires Seam(x, z) && i <= |x|
    ensures Seam(x[i..], z)
  {
    if i < |x| { assert x[i..][|x| - i - 1] == x[|x| - 1]; }
  }

  lemma {:induction false} SpaceEndPrefix(x: string, z: string, i: nat)
    requires i <= |x| && (SpaceEnd(x, i) < |x| || z == [] || !IsSpace(z[0]))
    ensures SpaceEnd(x + z, i) == SpaceEnd(x, i)
    decreases |x| - i
  {
    if i < |x| {
      assert (x + z)[i] == x[i];
      if IsSpace(x[i]) {
        SpaceEndPrefix(x, z, i + 1);
      }
    } else if z != [] {
      assert (x + z)[i] == z[0];
    }
  }

  /** A whitespace run in `x` does not run on into `z`. */
  lemma SpaceEndSeam(x: string, z: string, i: nat)
    requires Seam(x, z) && x != [] && i <= |x|
    requires i == |x| ==> !IsWordChar(x[|x| - 1])
    ensures SpaceEnd(x + z, i) == SpaceEnd(x, i)
  {
    if SpaceEnd(x, i) == |x| && z != [] {
      if i < |x| {
        SpacesBelow(x, i, |x| - 1);
      }
      assert IsWordChar(z[0]);
    }
    SpaceEndPrefix(x, z, i);
  }

  /** Across a seam, the collapse of `x + z` takes at its front the step it takes on `x`. */
  lemma CollapseStepSeam(x: string, z: string)
    requires Seam(x, z) && x != []
    ensures CollapseStep(x + z) == CollapseStep(x)
  {
    assert (x + z)[0] == x[0];
    if IsSpace(x[0]) {
      SpaceEndSeam(x, z, 0);
    }
  }

  lemma {:induction false} CollapseAppend(x: string, z: string)
    requires Seam(x, z)
    ensures Collapse(x + z) == Collapse(x) + Collapse(z)
    decreases |x|
  {
    if x == [] {
      assert x + z == z;
    } else {
      var st := CollapseStep(x);
      SeamSuffix(x, st.1, z);
      CollapseAppend(x[st.1..], z);
      CollapseStepSeam(x, z);
      DropAppend(x, z, st.1);
      AppendAssoc([st.0], Collapse(x[st.1..]), Collapse(z));
    }
  }

  lemma {:induction false} CollapseOfWord(x: string)
    requires AllWordChars(x)
    ensures Collapse(x) == x
  {
    if x != [] {
      CollapseOfWord(x[1..]);
      ConsAt(x, 0);
    }
  }

  /** A step of the collapse writes out the non-whitespace characters it passes over. */
  lemma CollapseStepNonSpace(s: string)
    requires s != []
    ensures NonSpace(s) == NonSpace([CollapseStep(s).0]) + NonSpace(s[CollapseStep(s).1..])
  {
    if IsSpace(s[0]) {
      NonSpaceSkip(s, 0);
      assert s[0..] == s;
    } else {
      ConsAt(s, 0);
      NonSpaceAppend([s[0]], s[1..]);
    }
  }

  lemma {:induction false} CollapseNonSpace(s: string)
    ensures NonSpace(Collapse(s)) == NonSpace(s)
    decreases |s|
  {
    if s != [] {
      var st := CollapseStep(s);
      CollapseNonSpace(s[st.1..]);
      NonSpaceAppend([st.0], Collapse(s[st.1..]));
      CollapseStepNonSpace(s);
    }
  }

  lemma {:induction false} CollapseCollapsed(s: string)
    ensures Collapsed(Collapse(s))
    decreases |s|
  {
    if s != [] {
      var st := CollapseStep(s);
      CollapseCollapsed(s[st.1..]);
      CollapsedCons(st.0, Collapse(s[st.1..]));
    }
  }

  // Stripping whitespace around operators.

  lemma OperatorNotWord(c: char)
    requires IsOperator(c)
    ensures !IsWordChar(c) && !IsSpace(c)
  {
  }

  /** The whitespace at the front of `x + z` is that of `x`, and so is what follows it. */
  lemma StripHead(x: string, z: string)
    requires Seam(x, z) && x != []
    ensures SpaceEnd(x + z, 0) == SpaceEnd(x, 0)
    ensures (x + z)[0] == x[0]
    ensures (SpaceEnd(x, 0) < |x + z| && IsOperator((x + z)[SpaceEnd(x, 0)]))
      == (SpaceEnd(x, 0) < |x| && IsOperator(x[SpaceEnd(x, 0)]))
  {
    var a := SpaceEnd(x, 0);
    SpaceEndSeam(x, z, 0);
    if a < |x| {
      assert (x + z)[a] == x[a];
    } else if z != [] {
      SpacesBelow(x, 0, |x| - 1);
      assert (x + z)[a] == z[0];
      if IsOperator(z[0]) {
        OperatorNotWord(z[0]);
      }
    }
  }

  /** An operator match at the front of `x` ends inside `x`, or at its end. */
  lemma OperatorTail(x: string, z: string)
    requires Seam(x, z) && x != [] && SpaceEnd(x, 0) < |x| && IsOperator(x[SpaceEnd(x, 0)])
    ensures SpaceEnd(x + z, SpaceEnd(x, 0) + 1) == SpaceEnd(x, SpaceEnd(x, 0) + 1)
  {
    var a := SpaceEnd(x, 0);
    OperatorNotWord(x[a]);
    if a + 1 == |x| {
      assert x[|x| - 1] == x[a];
    }
    SpaceEndSeam(x, z, a + 1);
  }

  lemma StripStepSeam(x: string, z: string)
    requires Seam(x, z) && x != []
    ensures StripStep(x + z) == StripStep(x)
  {
    var a := SpaceEnd(x, 0);
    StripHead(x, z);
    if a < |x| && IsOperator(x[a]) {
      OperatorTail(x, z);
      assert (x + z)[a] == x[a];
    }
  }

  lemma {:induction false} StripAppend(x: string, z: string)
    requires Seam(x, z)
    ensures StripAroundOperators(x + z) == StripAroundOperators(x) + StripAroundOperators(z)
    decreases |x|
  {
    if x == [] {
      assert x + z == z;
    } else {
      var st := StripStep(x);
      SeamSuffix(x, st.1, z);
      StripAppend(x[st.1..], z);
      StripStepSeam(x, z);
      DropAppend(x, z, st.1);
      AppendAssoc([st.0], StripAroundOperators(x[st.1..]), StripAroundOperators(z));
    }
  }

  lemma {:induction false} StripOfWord(x: string)
    requires AllWordChars(x)
    ensures StripAroundOperators(x) == x
  {
    if x != [] {
      assert StripStep(x) == (x[0], 1);
      StripOfWord(x[1..]);
      ConsAt(x, 0);
    }
  }

  /** The text an operator match covers has no other non-whitespace character. */
  lemma StripStepNonSpace(s: string)
    requires s != []
    ensures NonSpace(s) == NonSpace([StripStep(s).0]) + NonSpace(s[StripStep(s).1..])
  {
    var a := SpaceEnd(s, 0);
    if a < |s| && IsOperator(s[a]) {
      OperatorNotWord(s[a]);
      NonSpaceSkip(s, 0);
      assert s[0..] == s;
      ConsAt(s, a);
      NonSpaceAppend([s[a]], s[a + 1..]);
      NonSpaceSkip(s, a + 1);
    } else {
      ConsAt(s, 0);
      NonSpaceAppend([s[0]], s[1..]);
    }
  }

  lemma {:induction false} StripNonSpace(s: string)
    ensures NonSpace(StripAroundOperators(s)) == NonSpace(s)
    decreases |s|
  {
    if s != [] {
      var st := StripStep(s);
      StripNonSpace(s[st.1..]);
      NonSpaceAppend([st.0], StripAroundOperators(s[st.1..]));
      StripStepNonSpace(s);
    }
  }

  /** On collapsed text a step writes a space only before a non-whitespace character. */
  lemma StripStepCollapsed(s: string)
    requires Collapsed(s) && s != []
    ensures var st := StripStep(s);
      IsSpace(st.0) ==> st.0 == ' ' && st.1 == 1 && (|s| == 1 || !IsSpace(s[1]))
  {
    var a := SpaceEnd(s, 0);
    if a < |s| && IsOperator(s[a]) {
      OperatorNotWord(s[a]);
    } else if |s| > 1 && IsSpace(s[0]) {
      assert !IsSpace(s[1]);
    }
  }

  lemma {:induction false} StripCollapsed(s: string)
    requires Collapsed(s)
    ensures Collapsed(StripAroundOperators(s))
    decreases |s|
  {
    if s != [] {
      var st := StripStep(s);
      CollapsedDrop(s, st.1);
      StripCollapsed(s[st.1..]);
      StripStepCollapsed(s);
      if IsSpace(st.0) && |s| > 1 {
        assert s[st.1..][0] == s[1];
      }
      CollapsedCons(st.0, StripAroundOperators(s[st.1..]));
    }
  }

  // Keyword re-spacing leaves collapsed text alone.

  /** In collapsed text a whitespace run is one character long. */
  lemma CollapsedSpaceEnd(s: string, i: nat)
    requires Collapsed(s) && i < |s| && IsSpace(s[i])
    ensures SpaceEnd(s, i) == i + 1 && s[i] == ' '
  {
    if i + 1 < |s| {
      assert !IsSpace(s[i + 1]);
    }
  }

  lemma RespaceMatchParts(s: string, kw: string)
    requires 1 + |kw| < |s| && s[0] == ' ' && OccursAt(s, kw, 1) && s[1 + |kw|] == ' '
    ensures s[..2 + |kw|] == " " + kw + " "
  {
    var t := s[..2 + |kw|];
    assert t[1..1 + |kw|] == s[1..1 + |kw|];
    assert forall i :: 0 <= i < |t| ==> t[i] == (" " + kw + " ")[i];
  }

  /** On collapsed text a step writes out what it passes over. */
  lemma RespaceStepCollapsed(s: string, kw: string)
    requires Collapsed(s) && s != []
    ensures RespaceStep(s, kw).0 == s[..RespaceStep(s, kw).1]
  {
    var a := SpaceEnd(s, 0);
    var e := a + |kw|;
    if a > 0 && OccursAt(s, kw, a) && e < |s| && IsSpace(s[e]) {
      CollapsedSpaceEnd(s, 0);
      CollapsedSpaceEnd(s, e);
      RespaceMatchParts(s, kw);
    }
  }

  lemma {:induction false} RespaceCollapsed(s: string, kw: string)
    requires Collapsed(s)
    ensures Respace(s, kw) == s
    decreases |s|
  {
    if s != [] {
      var st := RespaceStep(s, kw);
      CollapsedDrop(s, st.1);
      RespaceCollapsed(s[st.1..], kw);
      RespaceStepCollapsed(s, kw);
      SplitAt(s, st.1);
    }
  }

  /** obfuscator.js:439-447 change nothing: after the collapse at 437 every whitespace run
      is one space, so each match of `\s+kw\s+` already reads ` kw `. */
  lemma {:induction false} RespaceAllCollapsed(s: string, kws: seq<string>)
    requires Collapsed(s)
    ensures RespaceAll(s, kws) == s
    decreases |kws|
  {
    if kws != [] {
      RespaceCollapsed(s, kws[0]);
      RespaceAllCollapsed(s, kws[1..]);
    }
  }

  // Trimming.

  lemma {:induction false} TrimStartAppend(x: string, z: string)
    requires z != [] && !IsSpace(z[0])
    ensures TrimStart(x + z) == TrimStart(x) + z
  {
    if x == [] {
      assert x + z == z;
    } else {
      assert (x + z)[1..] == x[1..] + z;
      TrimStartAppend(x[1..], z);
    }
  }

  lemma {:induction false} TrimEndAppend(z: string, y: string)
    requires z != [] && !IsSpace(z[|z| - 1])
    ensures TrimEnd(z + y) == z + TrimEnd(y)
    decreases |y|
  {
    if y == [] {
      assert z + y == z;
    } else {
      assert (z + y)[..|z + y| - 1] == z + y[..|y| - 1];
      TrimEndAppend(z, y[..|y| - 1]);
    }
  }

  lemma TrimStartKeeps(s: string)
    ensures NonSpace(TrimStart(s)) == NonSpace(s)
  {
    var r := TrimStart(s);
    var x := s[..|s| - |r|];
    assert s == x + r;
    NonSpaceAppend(x, r);
    NonSpaceOfSpaces(x);
  }

  lemma TrimEndKeeps(s: string)
    ensures NonSpace(TrimEnd(s)) == NonSpace(s)
  {
    var q := TrimEnd(s);
    var y := s[|q|..];
    assert s == q + y;
    NonSpaceAppend(q, y);
    NonSpaceOfSpaces(y);
  }

  lemma TrimCollapsed(s: string)
    requires Collapsed(s)
    ensures Collapsed(TrimStart(s)) && Collapsed(TrimEnd(s))
  {
    var r := TrimStart(s);
    CollapsedSlice(s, |s| - |r|, |s|);
    var q := TrimEnd(s);
    CollapsedSlice(s, 0, |q|);
  }

  // ---------------------------------------------------------------------------
  // The passes go through the placeholders piece by piece.

  lemma MinGapSeam(x: string, w: string, y: string)
    requires w != [] && AllWordChars(w)
    ensures MinGap(x + (w + y)) == MinGap(x) + (w + MinGap(y))
  {
    NewlinesAppend(x, w + y);
    NewlinesAppend(w, y);
    NewlinesOfWord(w);
    var nx, ny := NewlinesToSpaces(x), NewlinesToSpaces(y);
    CollapseAppend(nx, w + ny);
    CollapseAppend(w, ny);
    CollapseOfWord(w);
    var cx, cy := Collapse(nx), Collapse(ny);
    StripAppend(cx, w + cy);
    StripAppend(w, cy);
    StripOfWord(w);
  }

  lemma {:induction false} MinGapFill(gaps: seq<string>, phs: seq<string>)
    requires |gaps| == |phs| + 1 && Words(phs)
    ensures MinGap(Fill(gaps, phs)) == Fill(MinGaps(gaps), phs)
    decreases |phs|
  {
    if phs != [] {
      assert Words(phs[1..]);
      MinGapFill(gaps[1..], phs[1..]);
      MinGapSeam(gaps[0], phs[0], Fill(gaps[1..], phs[1..]));
      assert MinGaps(gaps)[1..] == MinGaps(gaps[1..]);
    }
  }

  lemma WordEnd(x: string, w: string)
    requires w != [] && AllWordChars(w)
    ensures x + w != [] && !IsSpace((x + w)[|x + w| - 1])
  {
    assert (x + w)[|x + w| - 1] == w[|w| - 1];
    assert IsWordChar(w[|w| - 1]);
  }

  lemma WordFront(w: string, y: string)
    requires w != [] && AllWordChars(w)
    ensures w + y != [] && !IsSpace((w + y)[0])
  {
    assert (w + y)[0] == w[0];
    assert IsWordChar(w[0]);
  }

  lemma {:induction false} TrimEndFill(gaps: seq<string>, phs: seq<string>)
    requires |gaps| == |phs| + 1 && Words(phs)
    ensures TrimEnd(Fill(gaps, phs)) == Fill(TrimLast(gaps), phs)
    decreases |phs|
  {
    if phs == [] {
      assert TrimLast(gaps)[0] == TrimEnd(gaps[0]);
    } else {
      var rest := Fill(gaps[1..], phs[1..]);
      var ph := phs[0];
      assert Words(phs[1..]);
      TrimEndFill(gaps[1..], phs[1..]);
      AppendAssoc(gaps[0], ph, rest);
      WordEnd(gaps[0], ph);
      TrimEndAppend(gaps[0] + ph, rest);
      AppendAssoc(gaps[0], ph, TrimEnd(rest));
      TrimLastCons(gaps);
    }
  }

  /** Trimming a text that has a word inside trims only its two outer gaps. */
  lemma TrimSeam(g: string, w: string, rest: string)
    requires w != [] && AllWordChars(w)
    ensures Trim(g + (w + rest)) == TrimStart(g) + (w + TrimEnd(rest))
  {
    var t := TrimStart(g);
    calc {
      Trim(g + (w + rest));
      TrimEnd(TrimStart(g + (w + rest)));
      { WordFront(w, rest); TrimStartAppend(g, w + rest); }
      TrimEnd(t + (w + rest));
      { AppendAssoc(t, w, rest); }
      TrimEnd((t + w) + rest);
      { WordEnd(t, w); TrimEndAppend(t + w, rest); }
      (t + w) + TrimEnd(rest);
      { AppendAssoc(t, w, TrimEnd(rest)); }
      t + (w + TrimEnd(rest));
    }
  }

  lemma FillTrimmedCons(gaps: seq<string>, phs: seq<string>)
    requires |gaps| == |phs| + 1 && phs != []
    ensures Fill(Trimmed(gaps), phs)
         == TrimStart(gaps[0]) + (phs[0] + Fill(TrimLast(gaps[1..]), phs[1..]))
  {
    var t := Trimmed(gaps);
    assert t == [TrimStart(gaps[0])] + TrimLast(gaps[1..]);
    assert t[1..] == TrimLast(gaps[1..]);
  }

  lemma TrimFill(gaps: seq<string>, phs: seq<string>)
    requires |gaps| == |phs| + 1 && Words(phs)
    ensures Trim(Fill(gaps, phs)) == Fill(Trimmed(gaps), phs)
  {
    if phs != [] {
      var rest := Fill(gaps[1..], phs[1..]);
      assert Fill(gaps, phs) == gaps[0] + (phs[0] + rest);
      TrimSeam(gaps[0], phs[0], rest);
      assert Words(phs[1..]);
      TrimEndFill(gaps[1..], phs[1..]);
      FillTrimmedCons(gaps, phs);
    }
  }

  // Restoring.

  /** No marker `__STRING_` anywhere in `s`. */
  predicate Unmarked(s: string) { forall p: nat | p <= |s| :: !OccursAt(s, Marker(), p) }

  lemma OccursShift(s: string, w: string, p: nat)
    requires s != []
    ensures OccursAt(s[1..], w, p) ==> OccursAt(s, w, p + 1)
  {
    if p + |w| <= |s| - 1 {
      assert s[1..][p..p + |w|] == s[p + 1..p + 1 + |w|];
    }
  }

  lemma UnmarkedTail(s: string)
    requires Unmarked(s) && s != []
    ensures Unmarked(s[1..])
  {
    forall p: nat | p <= |s[1..]| ensures !OccursAt(s[1..], Marker(), p) {
      OccursShift(s, Marker(), p);
    }
  }

  /** A word cannot be made of whitespace, so it is found in the text only where it is
      found in the text's non-whitespace characters. */
  lemma WordInNonSpace(s: string, w: string, p: nat)
    requires AllWordChars(w)
    ensures OccursAt(s, w, p) ==> OccursAt(NonSpace(s), w, |NonSpace(s[..p])|)
  {
    if OccursAt(s, w, p) {
      var x, y := s[..p], s[p + |w|..];
      assert s == x + (w + y);
      NonSpaceAppend(x, w + y);
      NonSpaceAppend(w, y);
      NonSpaceOfWord(w);
      var n := NonSpace(s);
      assert n == NonSpace(x) + (w + NonSpace(y));
      assert n[|NonSpace(x)|..|NonSpace(x)| + |w|] == w;
    }
  }

  lemma UnmarkedNonSpace(s: string)
    requires Unmarked(NonSpace(s))
    ensures Unmarked(s)
  {
    forall p: nat | p <= |s| ensures !OccursAt(s, Marker(), p) {
      WordInNonSpace(s, Marker(), p);
    }
  }

  lemma PrefixParts(a: string, b: string)
    ensures (a + b)[|a|..] == b && (a + b)[..|a|] == a && StartsWith(a + b, a)
  {
  }

  lemma PlaceholderFound(k: nat, y: string)
    ensures PlaceholderAt(Placeholder(k) + y) == Some((k, |Placeholder(k)|))
  {
    var m, dk := Marker(), Decimal(k);
    var r := dk + ("__" + y);
    var s := Placeholder(k) + y;
    AppendAssoc(m + dk, "__", y);
    AppendAssoc(m, dk, "__" + y);
    assert s == m + r;
    PrefixParts(m, r);
    assert s[9..] == r;
    DigitRunOfConcat(dk, "__" + y);
    PrefixParts(dk, "__" + y);
    PrefixParts("__", y);
    assert StartsWith(r[|dk|..], "__");
    DecimalRoundTrip(k);
    assert DecimalValue(r[..|dk|]) == k;
  }

  lemma {:induction false} DigitRunOfConcat(x: string, y: string)
    requires AllDigits(x) && y != [] && !IsDigit(y[0])
    ensures DigitRun(x + y) == |x|
  {
    if x == [] {
      assert x + y == y;
    } else {
      assert (x + y)[1..] == x[1..] + y;
      DigitRunOfConcat(x[1..], y);
    }
  }

  lemma OccursChar(s: string, w: string, p: nat, i: nat)
    requires i < |w|
    ensures OccursAt(s, w, p) ==> s[p + i] == w[i]
  {
    if OccursAt(s, w, p) {
      assert s[p..p + |w|][i] == s[p + i];
    }
  }

  /** The marker does not overlap itself at a shift of one to seven characters. */
  lemma NoShift(s: string, j: nat)
    ensures 1 <= j <= 7 ==> !(OccursAt(s, Marker(), 0) && OccursAt(s, Marker(), j))
  {
    if 1 <= j <= 7 {
      var i := if j == 1 then 1 else 0;
      OccursChar(s, Marker(), 0, j + i);
      OccursChar(s, Marker(), j, i);
    }
  }

  lemma JoinOccurs(g: string, z: string, w: string)
    ensures |w| <= |g| && StartsWith(g + z, w) ==> OccursAt(g, w, 0)
    ensures StartsWith(g + z, w) ==> OccursAt(g + z, w, 0)
    ensures StartsWith(z, w) ==> OccursAt(g + z, w, |g|)
  {
    var s := g + z;
    if |w| <= |g| && StartsWith(s, w) {
      assert s[..|w|] == g[..|w|] == g[0..|w|];
    }
    if StartsWith(s, w) {
      assert s[..|w|] == s[0..|w|];
    }
    if StartsWith(z, w) {
      assert s[|g|..|g| + |w|] == z[..|w|];
    }
  }

  /** A placeholder is never found starting inside a piece without the marker, even when
      the piece ends in a prefix of the marker. */
  lemma NoPlaceholderInGap(g: string, z: string)
    requires g != [] && Unmarked(g)
    requires z == [] || StartsWith(z, Marker())
    ensures PlaceholderAt(g + z) == None
  {
    var s := g + z;
    var m := Marker();
    JoinOccurs(g, z, m);
    NoShift(s, |g|);
    if StartsWith(s, m) && z != [] {
      OccursChar(s, m, |g|, 1);
      assert s[9..][0] == s[9];
    }
  }

  lemma RestoreSkip(s: string, spans: seq<string>)
    requires s != [] && PlaceholderAt(s) == None
    ensures Restore(s, spans) == [s[0]] + Restore(s[1..], spans)
  {
  }

  lemma AppendTail(g: string, z: string)
    requires g != []
    ensures (g + z)[0] == g[0] && (g + z)[1..] == g[1..] + z && [g[0]] + (g[1..] + z) == g + z
  {
  }

  lemma {:induction false} RestoreGap(g: string, z: string, spans: seq<string>)
    requires Unmarked(g)
    requires z == [] || StartsWith(z, Marker())
    ensures Restore(g + z, spans) == g + Restore(z, spans)
    decreases |g|
  {
    if g == [] {
      assert g + z == z;
    } else {
      NoPlaceholderInGap(g, z);
      UnmarkedTail(g);
      RestoreGap(g[1..], z, spans);
      RestoreSkip(g + z, spans);
      AppendTail(g, z);
      AppendTail(g, Restore(z, spans));
    }
  }

  lemma {:induction false} RestoreFill(gaps: seq<string>, k: nat, spans: seq<string>)
    requires |gaps| >= 1 && k + |gaps| == |spans| + 1
    requires forall i :: 0 <= i < |gaps| ==> Unmarked(gaps[i])
    ensures Restore(Fill(gaps, Placeholders(k, |gaps| - 1)), spans) == Fill(gaps, spans[k..])
    decreases |gaps|
  {
    if |gaps| == 1 {
      RestoreGap(gaps[0], [], spans);
      assert gaps[0] + [] == gaps[0];
    } else {
      var phs := Placeholders(k, |gaps| - 1);
      PlaceholdersCons(k, |gaps| - 1);
      var ph := Placeholder(k);
      var rest := Fill(gaps[1..], Placeholders(k + 1, |gaps| - 2));
      assert Fill(gaps, phs) == gaps[0] + (ph + rest);
      RestoreGap(gaps[0], ph + rest, spans);
      assert (ph + rest)[..9] == ph[..9];
      PlaceholderFound(k, rest);
      assert (ph + rest)[|ph|..] == rest;
      RestoreFill(gaps[1..], k + 1, spans);
      assert spans[k..][1..] == spans[k + 1..];
    }
  }

  // ---------------------------------------------------------------------------
  // Which whitespace survives.

  /** The passes of obfuscator.js:436-438 read as one scan over the text: an operator
      swallows the whitespace on both sides of it, and every other whitespace run, newlines
      included, becomes one space. */
  function Squeeze(g: string): string
    decreases |g|
  {
    if g == [] then []
    else if !IsSpace(g[0]) then
      if IsOperator(g[0]) then [g[0]] + Squeeze(g[SpaceEnd(g, 1)..])
      else [g[0]] + Squeeze(g[1..])
    else
      var e := SpaceEnd(g, 0);
      (if e < |g| && IsOperator(g[e]) then [] else " ") + Squeeze(g[e..])
  }

  function SqueezeAll(gaps: seq<string>): (r: seq<string>)
    ensures |r| == |gaps|
  {
    seq(|gaps|, i requires 0 <= i < |gaps| => Squeeze(gaps[i]))
  }

  lemma {:induction false} SpaceEndCons(c: char, r: string, i: nat)
    requires i <= |r|
    ensures SpaceEnd([c] + r, i + 1) == SpaceEnd(r, i) + 1
    decreases |r| - i
  {
    if i < |r| {
      assert ([c] + r)[i + 1] == r[i];
      if IsSpace(r[i]) {
        SpaceEndCons(c, r, i + 1);
      }
    }
  }

  lemma {:induction false} SpaceEndDrop(g: string, i: nat, k: nat)
    requires i + k <= |g|
    ensures SpaceEnd(g[i..], k) + i == SpaceEnd(g, i + k)
    decreases |g| - i - k
  {
    if i + k < |g| {
      assert g[i..][k] == g[i + k];
      if IsSpace(g[i + k]) {
        SpaceEndDrop(g, i, k + 1);
      }
    }
  }

  lemma {:induction false} NewlinesAt(g: string, i: nat)
    requires i < |g|
    ensures NewlinesToSpaces(g)[i] == if g[i] == '\n' then ' ' else g[i]
    decreases i
  {
    if i > 0 {
      NewlinesAt(g[1..], i - 1);
      assert g[1..][i - 1] == g[i];
    }
  }

  lemma NewlinesDrop(g: string, i: nat)
    requires i <= |g|
    ensures NewlinesToSpaces(g)[i..] == NewlinesToSpaces(g[i..])
  {
    assert g == g[..i] + g[i..];
    NewlinesAppend(g[..i], g[i..]);
  }

  lemma {:induction false} SpaceEndNewlines(g: string, i: nat)
    requires i <= |g|
    ensures SpaceEnd(NewlinesToSpaces(g), i) == SpaceEnd(g, i)
    decreases |g| - i
  {
    if i < |g| {
      NewlinesAt(g, i);
      if IsSpace(g[i]) {
        SpaceEndNewlines(g, i + 1);
      }
    }
  }

  /** The text after the first two passes. */
  function Squashed(g: string): string
  {
    Collapse(NewlinesToSpaces(g))
  }

  /** A character that is not whitespace passes through the first two passes as it is. */
  lemma SquashedWord(g: string)
    requires g != [] && !IsSpace(g[0])
    ensures Squashed(g) == [g[0]] + Squashed(g[1..])
  {
    var n := NewlinesToSpaces(g);
    NewlinesAt(g, 0);
    NewlinesDrop(g, 1);
    assert CollapseStep(n) == (g[0], 1);
  }

  /** A whitespace run leaves one space. */
  lemma SquashedSpace(g: string)
    requires g != [] && IsSpace(g[0])
    ensures Squashed(g) == [' '] + Squashed(g[SpaceEnd(g, 0)..])
  {
    var n := NewlinesToSpaces(g);
    NewlinesAt(g, 0);
    SpaceEndNewlines(g, 0);
    NewlinesDrop(g, SpaceEnd(g, 0));
    assert CollapseStep(n) == (' ', SpaceEnd(g, 0));
  }

  /** After the first two passes, text that starts with a run, or is empty, has its first
      character not whitespace. */
  lemma SquashedHead(g: string)
    requires g == [] || !IsSpace(g[0])
    ensures SpaceEnd(Squashed(g), 0) == 0
  {
    if g != [] {
      SquashedWord(g);
    }
  }

  /** What follows an operator after the whitespace behind it is skipped. */
  lemma OperatorAfter(g: string)
    requires g != [] && IsOperator(g[0])
    ensures var s := [g[0]] + Squashed(g[1..]);
      s[SpaceEnd(s, 1)..] == Squashed(g[SpaceEnd(g, 1)..])
  {
    var r := Squashed(g[1..]);
    var s := [g[0]] + r;
    SpaceEndCons(g[0], r, 0);
    assert s[SpaceEnd(r, 0) + 1..] == r[SpaceEnd(r, 0)..];
    var e1 := SpaceEnd(g, 1);
    if |g| > 1 && IsSpace(g[1]) {
      SquashedSpace(g[1..]);
      SpaceEndDrop(g, 1, 0);
      DropDrop(g, 1, SpaceEnd(g[1..], 0));
      var t := Squashed(g[e1..]);
      assert r == [' '] + t;
      SquashedHead(g[e1..]);
      SpaceEndCons(' ', t, 0);
      assert SpaceEnd(r, 0) == 1;
    } else {
      assert e1 == 1;
      SquashedHead(g[1..]);
    }
  }

  /** The minified gap is `Squeeze` of the gap. */
  lemma {:induction false} MinGapSqueeze(g: string)
    ensures MinGap(g) == Squeeze(g)
    decreases |g|
  {
    if g != [] {
      if !IsSpace(g[0]) {
        SquashedWord(g);
        if IsOperator(g[0]) {
          StripOperatorCons(g[0], Squashed(g[1..]));
          OperatorAfter(g);
          MinGapSqueeze(g[SpaceEnd(g, 1)..]);
        } else {
          StripCons(g[0], Squashed(g[1..]));
          MinGapSqueeze(g[1..]);
        }
      } else {
        var e := SpaceEnd(g, 0);
        SquashedSpace(g);
        MinGapSqueeze(g[e..]);
        if e < |g| {
          SquashedWord(g[e..]);
        }
        if e < |g| && IsOperator(g[e]) {
          StripSpaceOperator(Squashed(g[e..]));
        } else {
          StripSpaceCons(Squashed(g[e..]));
        }
      }
    }
  }

  lemma StripCons(c: char, r: string)
    requires !IsSpace(c) && !IsOperator(c)
    ensures StripAroundOperators([c] + r) == [c] + StripAroundOperators(r)
  {
    assert StripStep([c] + r) == (c, 1);
    assert ([c] + r)[1..] == r;
  }

  lemma StripOperatorCons(c: char, r: string)
    requires IsOperator(c)
    ensures var s := [c] + r;
      StripAroundOperators(s) == [c] + StripAroundOperators(s[SpaceEnd(s, 1)..])
  {
    var s := [c] + r;
    assert StripStep(s) == (c, SpaceEnd(s, 1));
  }

  /** A space before a character that is neither whitespace nor an operator stays. */
  lemma StripSpaceCons(r: string)
    requires r == [] || (!IsSpace(r[0]) && !IsOperator(r[0]))
    ensures StripAroundOperators([' '] + r) == [' '] + StripAroundOperators(r)
  {
    var s := [' '] + r;
    SpaceEndCons(' ', r, 0);
    assert StripStep(s) == (' ', 1);
    assert s[1..] == r;
  }

  /** A space before an operator goes. */
  lemma StripSpaceOperator(r: string)
    requires r != [] && IsOperator(r[0])
    ensures StripAroundOperators([' '] + r) == StripAroundOperators(r)
  {
    var s := [' '] + r;
    var e := SpaceEnd(r, 1);
    SpaceStepOperator(r);
    OperatorStep(r);
    assert s[e + 1..] == r[e..];
  }

  lemma OperatorStep(r: string)
    requires r != [] && IsOperator(r[0])
    ensures StripStep(r) == (r[0], SpaceEnd(r, 1))
  {
    assert SpaceEnd(r, 0) == 0;
  }

  lemma SpaceStepOperator(r: string)
    requires r != [] && IsOperator(r[0])
    ensures StripStep([' '] + r) == (r[0], SpaceEnd(r, 1) + 1)
  {
    var s := [' '] + r;
    assert SpaceEnd(r, 0) == 0;
    SpaceEndCons(' ', r, 0);
    SpaceEndCons(' ', r, 1);
    assert SpaceEnd(s, 0) == 1 && s[1] == r[0];
  }

  lemma MinGapsSqueeze(gaps: seq<string>)
    ensures MinGaps(gaps) == SqueezeAll(gaps)
  {
    forall i | 0 <= i < |gaps|
      ensures MinGaps(gaps)[i] == SqueezeAll(gaps)[i]
    {
      MinGapSqueeze(gaps[i]);
    }
  }

  /** `a - -b`, a minus a negated `b`, minifies to `a--b`, which Lua reads as `a` and then a
      comment that runs to the end of the one-line output. */
  lemma MinusPairJoins()
    ensures MinGap("a - -b") == "a--b"
  {
    SqueezeMinusB();
    SqueezeMinusPair();
    SqueezeSpaceMinusPair();
    SqueezeMinusExample();
    MinGapSqueeze("a - -b");
  }

  lemma SqueezeMinusExample()
    requires Squeeze(" - -b") == "--b"
    ensures Squeeze("a - -b") == "a--b"
  {
    assert "a - -b"[1..] == " - -b";
  }

  lemma SqueezeMinusB()
    ensures Squeeze("-b") == "-b"
  {
    assert Squeeze("b") == "b" by {
      assert "b"[1..] == [];
    }
    assert SpaceEnd("-b", 1) == 1 && "-b"[1..] == "b";
  }

  lemma SqueezeMinusPair()
    requires Squeeze("-b") == "-b"
    ensures Squeeze("- -b") == "--b"
  {
    assert SpaceEnd("- -b", 2) == 2;
    assert SpaceEnd("- -b", 1) == 2 && "- -b"[2..] == "-b";
  }

  lemma SqueezeSpaceMinusPair()
    requires Squeeze("- -b") == "--b"
    ensures Squeeze(" - -b") == "--b"
  {
    assert SpaceEnd(" - -b", 1) == 1;
    assert SpaceEnd(" - -b", 0) == 1 && " - -b"[1..] == "- -b";
  }

  /** The scan with one space kept between two minus signs, so that separate minus
      operators never run together into a comment. */
  function SqueezeCorrected(g: string): string
    decreases |g|
  {
    if g == [] then []
    else if !IsSpace(g[0]) then
      if IsOperator(g[0]) then
        var e1 := SpaceEnd(g, 1);
        if g[0] == '-' && 1 < e1 < |g| && g[e1] == '-' then [g[0]] + ([' '] + SqueezeCorrected(g[e1..]))
        else [g[0]] + SqueezeCorrected(g[e1..])
      else [g[0]] + SqueezeCorrected(g[1..])
    else
      var e := SpaceEnd(g, 0);
      (if e < |g| && IsOperator(g[e]) then [] else " ") + SqueezeCorrected(g[e..])
  }

  /** No two minus signs side by side: no `--` comment opener. */
  predicate NoDoubleMinus(s: string)
  {
    forall i :: 0 <= i < |s| - 1 ==> !(s[i] == '-' && s[i + 1] == '-')
  }

  lemma NoDoubleMinusDrop(s: string, k: nat)
    requires NoDoubleMinus(s) && k <= |s|
    ensures NoDoubleMinus(s[k..])
  {
    var t := s[k..];
    forall i | 0 <= i < |t| - 1
      ensures !(t[i] == '-' && t[i + 1] == '-')
    {
      assert t[i] == s[k + i] && t[i + 1] == s[k + i + 1];
    }
  }

  lemma NoDoubleMinusCons(c: char, r: string)
    requires NoDoubleMinus(r)
    requires c == '-' ==> r == [] || r[0] != '-'
    ensures NoDoubleMinus([c] + r)
  {
    var s := [c] + r;
    forall i | 0 <= i < |s| - 1
      ensures !(s[i] == '-' && s[i + 1] == '-')
    {
      if i > 0 {
        assert s[i] == r[i - 1] && s[i + 1] == r[i];
      }
    }
  }

  lemma SqueezeCorrectedHead(t: string)
    requires t != [] && !IsSpace(t[0])
    ensures SqueezeCorrected(t) != [] && SqueezeCorrected(t)[0] == t[0]
  {
  }

  /** With the space kept, minifying never writes a `--` that the text did not hold. */
  lemma {:induction false} SqueezeCorrectedNoComment(g: string)
    requires NoDoubleMinus(g)
    ensures NoDoubleMinus(SqueezeCorrected(g))
    decreases |g|
  {
    if g != [] {
      if !IsSpace(g[0]) {
        if IsOperator(g[0]) {
          var e1 := SpaceEnd(g, 1);
          NoDoubleMinusDrop(g, e1);
          SqueezeCorrectedNoComment(g[e1..]);
          var r := SqueezeCorrected(g[e1..]);
          if g[0] == '-' && 1 < e1 < |g| && g[e1] == '-' {
            NoDoubleMinusCons(' ', r);
            NoDoubleMinusCons(g[0], [' '] + r);
          } else {
            if e1 < |g| {
              SqueezeCorrectedHead(g[e1..]);
              if e1 == 1 {
                assert !(g[0] == '-' && g[1] == '-');
              }
            }
            NoDoubleMinusCons(g[0], r);
          }
        } else {
          NoDoubleMinusDrop(g, 1);
          SqueezeCorrectedNoComment(g[1..]);
          NoDoubleMinusCons(g[0], SqueezeCorrected(g[1..]));
        }
      } else {
        var e := SpaceEnd(g, 0);
        NoDoubleMinusDrop(g, e);
        SqueezeCorrectedNoComment(g[e..]);
        NoDoubleMinusCons(' ', SqueezeCorrected(g[e..]));
      }
    }
  }

  // ---------------------------------------------------------------------------
  // The theorem.

  lemma MinGapProps(g: string)
    ensures NonSpace(MinGap(g)) == NonSpace(g) && Collapsed(MinGap(g))
  {
    var n := NewlinesToSpaces(g);
    var c := Collapse(n);
    NewlinesNonSpace(g);
    CollapseNonSpace(n);
    StripNonSpace(c);
    CollapseCollapsed(n);
    StripCollapsed(c);
  }

  lemma TrimmedAt(gs: seq<string>, i: nat)
    requires i < |gs|
    ensures Trimmed(gs)[i] ==
      if |gs| == 1 then TrimEnd(TrimStart(gs[0]))
      else if i == 0 then TrimStart(gs[0])
      else if i == |gs| - 1 then TrimEnd(gs[i])
      else gs[i]
  {
    if |gs| > 1 && i > 0 {
      assert Trimmed(gs)[i] == TrimLast(gs[1..])[i - 1];
    }
  }

  lemma MinifiedGapProps(gaps: seq<string>, i: nat)
    requires |gaps| >= 1 && i < |gaps|
    ensures NonSpace(Trimmed(MinGaps(gaps))[i]) == NonSpace(gaps[i])
    ensures Collapsed(Trimmed(MinGaps(gaps))[i])
  {
    var mg := MinGap(gaps[i]);
    assert MinGaps(gaps)[i] == mg;
    TrimmedAt(MinGaps(gaps), i);
    MinGapProps(gaps[i]);
    TrimStartKeeps(mg);
    TrimEndKeeps(mg);
    TrimEndKeeps(TrimStart(mg));
    TrimCollapsed(mg);
    TrimCollapsed(TrimStart(mg));
  }

  /** Before the restore, the minified text is the minified pieces joined by the placeholders. */
  lemma MinifiedProtected(code: string)
    ensures var squeezed := StripAroundOperators(Collapse(NewlinesToSpaces(Protected(code, 0))));
      Trim(RespaceAll(squeezed, Keywords()))
        == Fill(Trimmed(MinGaps(Pieces(code).0)), Placeholders(0, |Pieces(code).1|))
  {
    var gaps, spans := Pieces(code).0, Pieces(code).1;
    var phs := Placeholders(0, |spans|);
    var p := Protected(code, 0);
    ProtectedFill(code, 0);
    PlaceholdersWords(0, |spans|);
    MinGapFill(gaps, phs);
    CollapseCollapsed(NewlinesToSpaces(p));
    StripCollapsed(Collapse(NewlinesToSpaces(p)));
    RespaceAllCollapsed(MinGap(p), Keywords());
    TrimFill(MinGaps(gaps), phs);
  }

  lemma MinifiedGaps(gaps: seq<string>)
    requires |gaps| >= 1
    requires forall i :: 0 <= i < |gaps| ==> Unmarked(NonSpace(gaps[i]))
    ensures var out := Trimmed(MinGaps(gaps));
      && (forall i :: 0 <= i < |out| ==> NonSpace(out[i]) == NonSpace(gaps[i]))
      && (forall i :: 0 <= i < |out| ==> Collapsed(out[i]) && '\n' !in out[i])
      && (forall i :: 0 <= i < |out| ==> Unmarked(out[i]))
  {
    var out := Trimmed(MinGaps(gaps));
    forall i | 0 <= i < |out|
      ensures NonSpace(out[i]) == NonSpace(gaps[i]) && Collapsed(out[i]) && '\n' !in out[i]
      ensures Unmarked(out[i])
    {
      MinifiedGapProps(gaps, i);
      UnmarkedNonSpace(out[i]);
    }
  }

  /** Minification restores every protected span byte for byte and in order, provided the
      text outside the spans does not spell the marker `__STRING_` (whitespace aside). The
      text between the spans is `Squeeze`d, and the first and last piece trimmed: whitespace
      next to an operator goes, and every other whitespace run becomes one space. No newline
      is left outside a span, so a `--` line comment anywhere in the output runs on to its end. */
  lemma MinifyKeepsSpans(code: string)
    requires forall i :: 0 <= i < |Pieces(code).0| ==> Unmarked(NonSpace(Pieces(code).0[i]))
    ensures var out := Trimmed(MinGaps(Pieces(code).0));
      && out == Trimmed(SqueezeAll(Pieces(code).0))
      && MinifyText(code) == Fill(out, Pieces(code).1)
      && (forall i :: 0 <= i < |out| ==> NonSpace(out[i]) == NonSpace(Pieces(code).0[i]))
      && (forall i :: 0 <= i < |out| ==> Collapsed(out[i]) && '\n' !in out[i])
  {
    var gaps := Pieces(code).0;
    var spans := Pieces(code).1;
    var out := Trimmed(MinGaps(gaps));
    MinifiedProtected(code);
    MinifiedGaps(gaps);
    MinGapsSqueeze(gaps);
    RestoreFill(out, 0, spans);
    assert spans[0..] == spans;
  }
}
