/** Identifier renaming (obfuscator.js:265-298): whole-word substitution, the scan for names
    declared with `local`, and the scan for `function` declarations over a buffer that is
    rewritten while it is scanned. The maps these passes update are fields of the obfuscator;
    here they are values, and the spec functions say what the passes leave in them. */
module Renamer {
  import opened Text
  import opened Utils
  import opened Names

  // ---------------------------------------------------------------------------
  // Whole-word replacement: `s.replace(new RegExp("\\b" + w + "\\b", "g"), r)` for an
  // identifier `w`. Since `w` starts and ends with word characters, `\b` before it means
  // "start of text or a non-word character before", and after it "end of text or a non-word
  // character after".

  /** The regular expression `\bw\b` matches at `p`. */
  predicate MatchesWordAt(s: string, w: string, p: nat)
  {
    OccursAt(s, w, p) && (p == 0 || !IsWordChar(s[p - 1])) && (p + |w| == |s| || !IsWordChar(s[p + |w|]))
  }

  /** The global replace scanning from `p`: each match is replaced and skipped over, every other
      character is copied. */
  function ReplaceWordFrom(s: string, w: string, r: string, p: nat): string
    requires |w| > 0 && p <= |s|
    decreases |s| - p
  {
    if p == |s| then []
    else if MatchesWordAt(s, w, p) then r + ReplaceWordFrom(s, w, r, p + |w|)
    else [s[p]] + ReplaceWordFrom(s, w, r, p + 1)
  }

  function ReplaceWord(s: string, w: string, r: string): string
    requires IsIdentifier(w)
  {
    ReplaceWordFrom(s, w, r, 0)
  }

  // ---------------------------------------------------------------------------
  // Tokens: `s` cut into maximal runs of word characters and single other characters.
  // Whole-word replacement is substitution on this list.

  function Tokens(s: string): seq<string>
    decreases |s|
  {
    if s == [] then []
    else if IsWordChar(s[0]) then [s[..WordRun(s)]] + Tokens(s[WordRun(s)..])
    else [[s[0]]] + Tokens(s[1..])
  }

  predicate IsWordToken(t: string) { |t| > 0 && AllWordChars(t) }

  predicate IsOtherToken(t: string) { |t| == 1 && !IsWordChar(t[0]) }

  /** What every token list `Tokens` returns looks like: no two word runs side by side. */
  predicate WellFormed(ts: seq<string>)
  {
    (forall i :: 0 <= i < |ts| ==> IsWordToken(ts[i]) || IsOtherToken(ts[i]))
    && (forall i :: 0 <= i < |ts| - 1 ==> IsOtherToken(ts[i]) || IsOtherToken(ts[i + 1]))
  }

  /** `w` is a whole word of `s`. */
  predicate HasWord(s: string, w: string) { w in Tokens(s) }

  /** Every token equal to `w` replaced by `r`. */
  function Subst(ts: seq<string>, w: string, r: string): (us: seq<string>)
    ensures |us| == |ts|
  {
    seq(|ts|, i requires 0 <= i < |ts| => if ts[i] == w then r else ts[i])
  }

  lemma SubstCons(x: string, ts: seq<string>, w: string, r: string)
    ensures Subst([x] + ts, w, r) == [if x == w then r else x] + Subst(ts, w, r)
  {
  }

  lemma ConcatCons<T>(x: seq<T>, xss: seq<seq<T>>)
    ensures Concat([x] + xss) == x + Concat(xss)
  {
    assert ([x] + xss)[1..] == xss;
  }

  lemma ConcatSubstCons(x: string, ts: seq<string>, w: string, r: string)
    ensures Concat(Subst([x] + ts, w, r)) == (if x == w then r else x) + Concat(Subst(ts, w, r))
  {
    SubstCons(x, ts, w, r);
    ConcatCons(if x == w then r else x, Subst(ts, w, r));
  }

  lemma WellFormedCons(x: string, ts: seq<string>)
    requires IsWordToken(x) || IsOtherToken(x)
    requires WellFormed(ts)
    requires IsOtherToken(x) || ts == [] || IsOtherToken(ts[0])
    ensures WellFormed([x] + ts)
  {
    var us := [x] + ts;
    forall i | 1 <= i < |us| ensures us[i] == ts[i - 1] { }
  }

  /** The tokens of `s` spell `s`. */
  lemma {:induction false} TokensConcat(s: string)
    ensures Concat(Tokens(s)) == s
    decreases |s|
  {
    if s != [] {
      if IsWordChar(s[0]) {
        var n := WordRun(s);
        TokensConcat(s[n..]);
        ConcatCons(s[..n], Tokens(s[n..]));
        assert s[..n] + s[n..] == s;
      } else {
        TokensConcat(s[1..]);
        ConcatCons([s[0]], Tokens(s[1..]));
        assert [s[0]] + s[1..] == s;
      }
    }
  }

  /** The tokens of `s` are well formed. */
  lemma {:induction false} TokensWellFormed(s: string)
    ensures WellFormed(Tokens(s))
    decreases |s|
  {
    if s != [] {
      if IsWordChar(s[0]) {
        var n := WordRun(s);
        var t := s[n..];
        TokensWellFormed(t);
        if t != [] {
          assert !IsWordChar(t[0]);
          assert Tokens(t)[0] == [t[0]];
        }
        assert AllWordChars(s[..n]) by {
          forall i | 0 <= i < n ensures IsWordChar(s[..n][i]) { assert s[..n][i] == s[i]; }
        }
        WellFormedCons(s[..n], Tokens(t));
      } else {
        TokensWellFormed(s[1..]);
        WellFormedCons([s[0]], Tokens(s[1..]));
      }
    }
  }

  lemma TokensSpell(s: string)
    ensures WellFormed(Tokens(s)) && Concat(Tokens(s)) == s
  {
    TokensConcat(s);
    TokensWellFormed(s);
  }

  /** A well-formed token list is the tokenisation of what it spells. */
  lemma {:induction false} TokensOfConcat(ts: seq<string>)
    requires WellFormed(ts)
    ensures Tokens(Concat(ts)) == ts
  {
    if ts != [] {
      assert WellFormed(ts[1..]);
      TokensOfConcat(ts[1..]);
      ConcatCons(ts[0], ts[1..]);
      assert ts == [ts[0]] + ts[1..];
      if IsWordToken(ts[0]) {
        RestStartsOther(ts);
        TokensWordCons(ts[0], Concat(ts[1..]));
      } else {
        TokensOtherCons(ts[0], Concat(ts[1..]));
      }
    }
  }

  /** After a word token, what follows starts with a non-word character. */
  lemma RestStartsOther(ts: seq<string>)
    requires WellFormed(ts) && ts != [] && IsWordToken(ts[0])
    ensures var rest := Concat(ts[1..]); rest == [] || !IsWordChar(rest[0])
  {
    if ts[1..] != [] {
      assert IsOtherToken(ts[1]);
      ConcatCons(ts[1], ts[2..]);
      assert ts[1..] == [ts[1]] + ts[2..];
    }
  }

  lemma TokensWordCons(w: string, rest: string)
    requires IsWordToken(w) && (rest == [] || !IsWordChar(rest[0]))
    ensures Tokens(w + rest) == [w] + Tokens(rest)
  {
    WordRunOfConcat(w, rest);
    assert (w + rest)[..|w|] == w;
    assert (w + rest)[|w|..] == rest;
  }

  lemma TokensOtherCons(t: string, rest: string)
    requires IsOtherToken(t)
    ensures Tokens(t + rest) == [t] + Tokens(rest)
  {
    assert (t + rest)[1..] == rest;
    assert [(t + rest)[0]] == t;
  }

  /** A match of `\bw\b` at `p` is a word token equal to `w`. */
  lemma MatchIsWholeRun(s: string, w: string, p: nat)
    requires IsIdentifier(w) && p < |s|
    ensures MatchesWordAt(s, w, p) ==> WordRun(s[p..]) == |w| && s[p..p + |w|] == w
  {
    if MatchesWordAt(s, w, p) {
      assert s[p..] == w + s[p + |w|..];
      WordRunOfConcat(w, s[p + |w|..]);
    }
  }

  /** Inside a run of word characters nothing matches, so the replace copies the run. */
  lemma {:induction false} RunCopy(s: string, w: string, r: string, q: nat, e: nat)
    requires IsIdentifier(w) && 0 < q <= e <= |s|
    requires IsWordChar(s[q - 1])
    requires forall i :: q <= i < e ==> IsWordChar(s[i])
    ensures ReplaceWordFrom(s, w, r, q) == s[q..e] + ReplaceWordFrom(s, w, r, e)
    decreases e - q
  {
    if q < e {
      CopyStep(s, w, r, q);
      RunCopy(s, w, r, q + 1, e);
      AppendAssoc([s[q]], s[q + 1..e], ReplaceWordFrom(s, w, r, e));
      assert s[q..e] == [s[q]] + s[q + 1..e];
    }
  }

  /** A character right after a word character starts no match and is copied. */
  lemma CopyStep(s: string, w: string, r: string, q: nat)
    requires IsIdentifier(w) && 0 < q < |s| && IsWordChar(s[q - 1])
    ensures ReplaceWordFrom(s, w, r, q) == [s[q]] + ReplaceWordFrom(s, w, r, q + 1)
  {
    assert !MatchesWordAt(s, w, q);
  }

  /** The end of the word run starting at `p`. */
  function RunEnd(s: string, p: nat): (e: nat)
    requires p <= |s|
    ensures p <= e <= |s| && (e < |s| ==> !IsWordChar(s[e]))
    ensures forall i :: p <= i < e ==> IsWordChar(s[i])
  {
    var e := p + WordRun(s[p..]);
    assert forall i :: p <= i < e ==> s[i] == s[p..][i - p];
    assert e < |s| ==> s[e] == s[p..][e - p];
    e
  }

  lemma TokensAtWord(s: string, p: nat)
    requires p < |s| && IsWordChar(s[p])
    ensures Tokens(s[p..]) == [s[p..RunEnd(s, p)]] + Tokens(s[RunEnd(s, p)..])
  {
    var t := s[p..];
    var n := WordRun(t);
    assert t[..n] == s[p..RunEnd(s, p)] && t[n..] == s[RunEnd(s, p)..];
  }

  lemma TokensAtOther(s: string, p: nat)
    requires p < |s| && !IsWordChar(s[p])
    ensures Tokens(s[p..]) == [[s[p]]] + Tokens(s[p + 1..])
  {
    assert s[p..][1..] == s[p + 1..];
  }

  lemma ReplaceStepOther(s: string, w: string, r: string, p: nat)
    requires IsIdentifier(w) && p < |s| && !IsWordChar(s[p])
    requires ReplaceWordFrom(s, w, r, p + 1) == Concat(Subst(Tokens(s[p + 1..]), w, r))
    ensures ReplaceWordFrom(s, w, r, p) == Concat(Subst(Tokens(s[p..]), w, r))
  {
    TokensAtOther(s, p);
    assert !MatchesWordAt(s, w, p) by { assert s[p] != w[0]; }
    ConcatSubstCons([s[p]], Tokens(s[p + 1..]), w, r);
  }

  lemma ReplaceAtMatch(s: string, w: string, r: string, p: nat)
    requires IsIdentifier(w) && p < |s| && (p == 0 || !IsWordChar(s[p - 1]))
    requires s[p..RunEnd(s, p)] == w
    ensures ReplaceWordFrom(s, w, r, p) == r + ReplaceWordFrom(s, w, r, RunEnd(s, p))
  {
    assert MatchesWordAt(s, w, p);
  }

  lemma ReplaceAtOtherWord(s: string, w: string, r: string, p: nat)
    requires IsIdentifier(w) && p < |s| && IsWordChar(s[p])
    requires s[p..RunEnd(s, p)] != w
    ensures ReplaceWordFrom(s, w, r, p) == s[p..RunEnd(s, p)] + ReplaceWordFrom(s, w, r, RunEnd(s, p))
  {
    var e := RunEnd(s, p);
    assert !MatchesWordAt(s, w, p) by {
      MatchIsWholeRun(s, w, p);
      assert WordRun(s[p..]) == e - p;
    }
    assert ReplaceWordFrom(s, w, r, p) == [s[p]] + ReplaceWordFrom(s, w, r, p + 1);
    RunCopy(s, w, r, p + 1, e);
    assert s[p..e] == [s[p]] + s[p + 1..e];
  }

  lemma ReplaceStepWord(s: string, w: string, r: string, p: nat)
    requires IsIdentifier(w) && p < |s| && IsWordChar(s[p]) && (p == 0 || !IsWordChar(s[p - 1]))
    requires ReplaceWordFrom(s, w, r, RunEnd(s, p)) == Concat(Subst(Tokens(s[RunEnd(s, p)..]), w, r))
    ensures ReplaceWordFrom(s, w, r, p) == Concat(Subst(Tokens(s[p..]), w, r))
  {
    var e := RunEnd(s, p);
    TokensAtWord(s, p);
    ConcatSubstCons(s[p..e], Tokens(s[e..]), w, r);
    if s[p..e] == w {
      ReplaceAtMatch(s, w, r, p);
    } else {
      ReplaceAtOtherWord(s, w, r, p);
    }
  }

  /** The replace scanning from a token boundary substitutes on the tokens of what is left. */
  lemma {:induction false} ReplaceFromTokens(s: string, w: string, r: string, p: nat)
    requires IsIdentifier(w) && p <= |s|
    requires p == 0 || p == |s| || !IsWordChar(s[p - 1]) || !IsWordChar(s[p])
    ensures ReplaceWordFrom(s, w, r, p) == Concat(Subst(Tokens(s[p..]), w, r))
    decreases |s| - p
  {
    if p < |s| {
      if !IsWordChar(s[p]) {
        ReplaceFromTokens(s, w, r, p + 1);
        ReplaceStepOther(s, w, r, p);
      } else {
        ReplaceFromTokens(s, w, r, RunEnd(s, p));
        ReplaceStepWord(s, w, r, p);
      }
    } else {
      assert s[p..] == [];
    }
  }

  /** Whole-word replacement is substitution on tokens. */
  lemma ReplaceWordTokens(s: string, w: string, r: string)
    requires IsIdentifier(w)
    ensures ReplaceWord(s, w, r) == Concat(Subst(Tokens(s), w, r))
  {
    ReplaceFromTokens(s, w, r, 0);
    assert s[0..] == s;
  }

  lemma SubstWellFormed(ts: seq<string>, w: string, r: string)
    requires WellFormed(ts) && IsIdentifier(w) && IsIdentifier(r)
    ensures WellFormed(Subst(ts, w, r))
  {
    var us := Subst(ts, w, r);
    forall i | 0 <= i < |us| ensures IsWordToken(us[i]) || IsOtherToken(us[i]) {
      if ts[i] == w { assert us[i] == r; }
    }
    forall i | 0 <= i < |us| - 1 ensures IsOtherToken(us[i]) || IsOtherToken(us[i + 1]) {
      if IsOtherToken(ts[i]) { assert ts[i] != w; } else { assert ts[i + 1] != w; }
    }
  }

  /** The tokens after a whole-word replacement by an identifier: exactly the tokens before,
      with every `w` turned into `r` and nothing else touched. */
  lemma ReplaceWordTokensAfter(s: string, w: string, r: string)
    requires IsIdentifier(w) && IsIdentifier(r)
    ensures Tokens(ReplaceWord(s, w, r)) == Subst(Tokens(s), w, r)
  {
    ReplaceWordTokens(s, w, r);
    TokensSpell(s);
    SubstWellFormed(Tokens(s), w, r);
    TokensOfConcat(Subst(Tokens(s), w, r));
  }

  /** No whole-word occurrence, no change. */
  lemma ReplaceWordAbsent(s: string, w: string, r: string)
    requires IsIdentifier(w) && !HasWord(s, w)
    ensures ReplaceWord(s, w, r) == s
  {
    ReplaceWordTokens(s, w, r);
    TokensSpell(s);
    assert Subst(Tokens(s), w, r) == Tokens(s);
  }

  /** After the replacement `w` is no longer a word, and `r` is one if `w` was. */
  lemma ReplaceWordRemoves(s: string, w: string, r: string)
    requires IsIdentifier(w) && IsIdentifier(r) && r != w
    ensures !HasWord(ReplaceWord(s, w, r), w)
    ensures HasWord(s, w) ==> HasWord(ReplaceWord(s, w, r), r)
  {
    ReplaceWordTokensAfter(s, w, r);
    var ts := Tokens(s);
    if HasWord(s, w) {
      var i :| 0 <= i < |ts| && ts[i] == w;
      assert Subst(ts, w, r)[i] == r;
    }
  }

  /** Replacing back restores the text when `r` was not a word of it before. */
  lemma ReplaceWordInverse(s: string, w: string, r: string)
    requires IsIdentifier(w) && IsIdentifier(r) && !HasWord(s, r)
    ensures ReplaceWord(ReplaceWord(s, w, r), r, w) == s
  {
    var ts := Tokens(s);
    ReplaceWordTokensAfter(s, w, r);
    ReplaceWordTokens(ReplaceWord(s, w, r), r, w);
    TokensSpell(s);
    assert Subst(Subst(ts, w, r), r, w) == ts;
  }

  // ---------------------------------------------------------------------------
  // A weight that whole-word replacement by a generated name never increases: a word costs
  // its length but at least 12 (the longest generated name), any other character 12.

  function TokenWeight(ts: seq<string>): nat
  {
    if ts == [] then 0 else (if |ts[0]| < 12 then 12 else |ts[0]|) + TokenWeight(ts[1..])
  }

  lemma {:induction false} TokenWeightCovers(ts: seq<string>)
    ensures TokenWeight(ts) >= |Concat(ts)|
  {
    if ts != [] {
      TokenWeightCovers(ts[1..]);
    }
  }

  lemma {:induction false} TokenWeightSubst(ts: seq<string>, w: string, r: string)
    requires |w| > 0 && |r| <= 12
    ensures TokenWeight(Subst(ts, w, r)) <= TokenWeight(ts)
  {
    if ts != [] {
      SubstCons(ts[0], ts[1..], w, r);
      assert [ts[0]] + ts[1..] == ts;
      TokenWeightSubst(ts[1..], w, r);
    }
  }

  function Weight(s: string): (n: nat)
    ensures n >= |s|
  {
    TokensSpell(s);
    TokenWeightCovers(Tokens(s));
    TokenWeight(Tokens(s))
  }

  lemma ReplaceWordWeight(s: string, w: string, r: string)
    requires IsIdentifier(w) && IsGeneratedName(r)
    ensures Weight(ReplaceWord(s, w, r)) <= Weight(s)
  {
    ReplaceWordTokensAfter(s, w, r);
    TokenWeightSubst(Tokens(s), w, r);
  }

  // ---------------------------------------------------------------------------
  // `/\blocal\s+([a-zA-Z_][a-zA-Z0-9_]*)\b/g` (obfuscator.js:266). The identifier pattern is
  // greedy and made of word characters only, so the capture is the whole word run, and the
  // trailing `\b` always holds after it; `\s+` must be followed by an identifier start.

  /** `\b` before a word character at `p`. */
  predicate WordStart(s: string, p: nat) { p == 0 || (p <= |s| && !IsWordChar(s[p - 1])) }

  /** The bounds of the name captured when the pattern `\bkeyword\s+(identifier)` is tried at `p`. */
  function DeclAt(s: string, keyword: string, p: nat): (r: Option<(nat, nat)>)
    requires |keyword| > 0
    ensures r.Some? ==> p + |keyword| < r.value.0 < r.value.1 <= |s|
    ensures r.Some? ==> IsIdentifier(s[r.value.0..r.value.1])
    ensures r.Some? ==> r.value.1 == |s| || !IsWordChar(s[r.value.1])
    ensures r.Some? ==> WordStart(s, p) && OccursAt(s, keyword, p) && IsSpace(s[p + |keyword|])
  {
    if WordStart(s, p) && OccursAt(s, keyword, p) then
      var k := p + |keyword|;
      var q := k + SpaceRun(s[k..]);
      if q > k && q < |s| && IsIdentStart(s[q]) then
        var e := q + WordRun(s[q..]);
        assert s[k] == s[k..][0];
        assert forall i :: 0 <= i < e - q ==> s[q..e][i] == s[q..][i];
        assert e < |s| ==> s[e] == s[q..][e - q];
        Some((q, e))
      else None
    else None
  }

  function LocalAt(s: string, p: nat): Option<(nat, nat)>
  {
    DeclAt(s, "local", p)
  }

  /** `exec` from `lastIndex == from`: the first match starting at or after `from`. */
  function NextLocal(s: string, from: nat): (r: Option<(nat, nat)>)
    ensures r.Some? ==> from < r.value.0 < r.value.1 <= |s| && IsIdentifier(s[r.value.0..r.value.1])
    decreases |s| - from
  {
    if from >= |s| then None
    else if LocalAt(s, from).Some? then LocalAt(s, from)
    else NextLocal(s, from + 1)
  }

  /** The names the `exec` loop at obfuscator.js:270 captures, from `from` on. */
  function LocalNames(s: string, from: nat): (names: seq<string>)
    ensures forall i :: 0 <= i < |names| ==> IsIdentifier(names[i])
    decreases |s| - from
  {
    match NextLocal(s, from)
    case None => []
    case Some(m) => [s[m.0..m.1]] + LocalNames(s, m.1)
  }

  /** The reserved list of obfuscator.js:272; the last entry is the string decoder's name. */
  function Reserved(decoder: string): seq<string>
  {
    ["game", "workspace", "script", "print", "warn", "error", "wait", "spawn", "delay",
     "_S", "_L", "_R", "_V", "_X", decoder]
  }

  /** The test of obfuscator.js:273. */
  predicate Kept(name: string, reserved: seq<string>)
  {
    name !in reserved && !StartsWith(name, "_")
  }

  function KeptNames(names: seq<string>, reserved: seq<string>): (kept: seq<string>)
    ensures |kept| <= |names|
  {
    if names == [] then []
    else (if Kept(names[0], reserved) then [names[0]] else []) + KeptNames(names[1..], reserved)
  }

  lemma {:induction false} KeptNamesMembers(names: seq<string>, reserved: seq<string>)
    ensures forall x :: x in KeptNames(names, reserved) <==> x in names && Kept(x, reserved)
  {
    if names != [] {
      KeptNamesMembers(names[1..], reserved);
      assert names == [names[0]] + names[1..];
    }
  }

  lemma {:induction false} KeptNamesAppend(a: seq<string>, b: seq<string>, reserved: seq<string>)
    ensures KeptNames(a + b, reserved) == KeptNames(a, reserved) + KeptNames(b, reserved)
  {
    if a != [] {
      assert (a + b)[1..] == a[1..] + b;
      KeptNamesAppend(a[1..], b, reserved);
    } else {
      assert a + b == b;
    }
  }

  /** The set `variables` of obfuscator.js:267-276, in insertion order. */
  function Variables(code: string, decoder: string): seq<string>
  {
    Dedup(KeptNames(LocalNames(code, 0), Reserved(decoder)))
  }

  /** One turn of the collection loop: the kept names from `last` on are the kept part of the
      name matched next, then the kept names after it. */
  lemma KeptStep(code: string, last: nat, reserved: seq<string>)
    requires NextLocal(code, last).Some?
    ensures var m := NextLocal(code, last).value;
      KeptNames(LocalNames(code, last), reserved)
      == (if Kept(code[m.0..m.1], reserved) then [code[m.0..m.1]] else []) + KeptNames(LocalNames(code, m.1), reserved)
  {
    var m := NextLocal(code, last).value;
    var name := code[m.0..m.1];
    assert LocalNames(code, last) == [name] + LocalNames(code, m.1);
    KeptNamesAppend([name], LocalNames(code, m.1), reserved);
  }

  lemma AppendAssoc<T>(a: seq<T>, b: seq<T>, c: seq<T>)
    ensures a + (b + c) == (a + b) + c && [] + c == c
  {
  }

  /** The local-name collection loop of obfuscator.js:267-276. */
  method CollectVariables(code: string, decoder: string) returns (vars: seq<string>)
    ensures vars == Variables(code, decoder)
  {
    vars := [];
    ghost var kept: seq<string> := [];
    var last := 0;
    var m := NextLocal(code, 0);
    while m.Some?
      invariant last <= |code| && m == NextLocal(code, last)
      invariant KeptNames(LocalNames(code, 0), Reserved(decoder)) == kept + KeptNames(LocalNames(code, last), Reserved(decoder))
      invariant vars == Dedup(kept)
      decreases |code| - last
    {
      vars, kept := AddLocal(code, decoder, last, vars, kept);
      last := m.value.1;
      m := NextLocal(code, last);
    }
    assert kept + [] == kept;
  }

  /** One turn of the collection loop: the name matched next is added to the set unless the
      reserved-list test rejects it. */
  method AddLocal(code: string, decoder: string, last: nat, vars: seq<string>, ghost kept: seq<string>)
    returns (vars': seq<string>, ghost kept': seq<string>)
    requires NextLocal(code, last).Some?
    requires KeptNames(LocalNames(code, 0), Reserved(decoder)) == kept + KeptNames(LocalNames(code, last), Reserved(decoder))
    requires vars == Dedup(kept)
    ensures KeptNames(LocalNames(code, 0), Reserved(decoder)) == kept' + KeptNames(LocalNames(code, NextLocal(code, last).value.1), Reserved(decoder))
    ensures vars' == Dedup(kept')
  {
    var m := NextLocal(code, last).value;
    var name := code[m.0..m.1];
    var reserved := Reserved(decoder);
    ghost var rest := KeptNames(LocalNames(code, m.1), reserved);
    KeptStep(code, last, reserved);
    vars', kept' := vars, kept;
    if Kept(name, reserved) {
      DedupSnoc(kept, name);
      if name !in vars {
        vars' := vars + [name];
      }
      AppendAssoc(kept, [name], rest);
      kept' := kept + [name];
    } else {
      AppendAssoc(kept, [], rest);
    }
  }

  /** Every collected variable is an identifier declared with `local`, outside the reserved
      list and not starting with `_`; each appears once. */
  lemma VariablesProps(code: string, decoder: string)
    ensures forall v :: v in Variables(code, decoder) <==> v in LocalNames(code, 0) && Kept(v, Reserved(decoder))
    ensures forall v :: v in Variables(code, decoder) ==> IsIdentifier(v) && v[0] != '_' && v != decoder
    ensures forall i, j :: 0 <= i < j < |Variables(code, decoder)| ==> Variables(code, decoder)[i] != Variables(code, decoder)[j]
  {
    DedupProps(KeptNames(LocalNames(code, 0), Reserved(decoder)));
    KeptNamesMembers(LocalNames(code, 0), Reserved(decoder));
    forall v | v in Variables(code, decoder) ensures IsIdentifier(v) && v[0] != '_' && v != decoder {
      assert v in LocalNames(code, 0);
      assert v != decoder by { assert decoder in Reserved(decoder); }
      assert v[0] != '_' by { assert !StartsWith(v, "_"); assert v[..1] == [v[0]]; }
    }
  }

  // ---------------------------------------------------------------------------
  // The maps: a name gets its replacement the first time it is seen and keeps it.

  /** The map after looking `name` up: unchanged if present, else extended with the name
      `generateVarName()` makes from the draws at `at`. */
  function AssignAt(d: nat -> nat, at: nat, m: map<string, string>, name: string): (r: (map<string, string>, nat))
    ensures name in r.0 && r.1 >= at
    ensures name in m ==> r == (m, at)
    ensures name !in m ==> r.0 == m[name := VarNameAt(d, at).0] && r.1 > at
  {
    if name in m then (m, at) else (m[name := VarNameAt(d, at).0], VarNameAt(d, at).1)
  }

  /** The `variables.forEach` loop of obfuscator.js:278-285, from variable `vars[0]` on:
      the map, the code and the next draw afterwards. */
  function RenameVarsAt(d: nat -> nat, at: nat, vars: seq<string>, m: map<string, string>, code: string): (r: (map<string, string>, string, nat))
    requires forall v :: v in vars ==> IsIdentifier(v)
    decreases |vars|
  {
    if vars == [] then (m, code, at)
    else
      var a := AssignAt(d, at, m, vars[0]);
      RenameVarsAt(d, a.1, vars[1..], a.0, ReplaceWord(code, vars[0], a.0[vars[0]]))
  }

  /** A map only grows: old entries are kept, each variable gains an entry, nothing else is
      added, and every value stays a generated name. */
  lemma {:induction false} RenameVarsMap(d: nat -> nat, at: nat, vars: seq<string>, m: map<string, string>, code: string)
    requires forall v :: v in vars ==> IsIdentifier(v)
    ensures var r := RenameVarsAt(d, at, vars, m, code);
      (forall k :: k in r.0 <==> k in m || k in vars)
      && (forall k :: k in m ==> r.0[k] == m[k])
      && (AllGenerated(m) ==> AllGenerated(r.0))
      && r.2 >= at
    decreases |vars|
  {
    if vars != [] {
      var a := AssignAt(d, at, m, vars[0]);
      RenameVarsMap(d, a.1, vars[1..], a.0, ReplaceWord(code, vars[0], a.0[vars[0]]));
      assert forall k :: k in vars <==> k == vars[0] || k in vars[1..] by {
        assert vars == [vars[0]] + vars[1..];
      }
    }
  }

  /** Token list `ts` with every collected variable renamed through `f` at once. */
  function RenameTokens(ts: seq<string>, vars: seq<string>, f: map<string, string>): (us: seq<string>)
    requires forall v :: v in vars ==> v in f
    ensures |us| == |ts|
  {
    seq(|ts|, i requires 0 <= i < |ts| => if ts[i] in vars then f[ts[i]] else ts[i])
  }

  /** The renaming is consistent: when no replacement name is itself one of the collected
      variables, the loop's one-variable-at-a-time replacements amount to renaming every
      whole-word occurrence of every variable through the final map, all at once, with every
      other token of the code left as it was. */
  lemma {:induction false} RenameVarsTokens(d: nat -> nat, at: nat, vars: seq<string>, m: map<string, string>, code: string)
    requires forall v :: v in vars ==> IsIdentifier(v)
    requires AllGenerated(m)
    requires var f := RenameVarsAt(d, at, vars, m, code).0; forall v :: v in vars ==> v in f && f[v] !in vars
    ensures var r := RenameVarsAt(d, at, vars, m, code);
      Tokens(r.1) == RenameTokens(Tokens(code), vars, r.0)
    decreases |vars|
  {
    var r := RenameVarsAt(d, at, vars, m, code);
    if vars == [] {
      TokensSpell(code);
    } else {
      var v := vars[0];
      var a := AssignAt(d, at, m, v);
      var code1 := ReplaceWord(code, v, a.0[v]);
      assert r == RenameVarsAt(d, a.1, vars[1..], a.0, code1);
      RenameVarsMap(d, a.1, vars[1..], a.0, code1);
      assert AllGenerated(a.0);
      RenameVarsTokens(d, a.1, vars[1..], a.0, code1);
      ReplaceWordTokensAfter(code, v, a.0[v]);
      var ts := Tokens(code);
      assert r.0[v] == a.0[v];
      forall i | 0 <= i < |ts|
        ensures Tokens(r.1)[i] == RenameTokens(ts, vars, r.0)[i]
      {
        var t1 := Subst(ts, v, a.0[v])[i];
        assert Tokens(r.1)[i] == (if t1 in vars[1..] then r.0[t1] else t1);
        if ts[i] == v {
          assert t1 == r.0[v] && t1 !in vars;
        } else {
          assert t1 == ts[i];
          assert ts[i] in vars <==> ts[i] in vars[1..] by { assert vars == [v] + vars[1..]; }
        }
      }
    }
  }

  // ---------------------------------------------------------------------------
  // `/\bfunction\s+([a-zA-Z_][a-zA-Z0-9_]*)\s*\(/g` (obfuscator.js:288), with `exec` run on
  // the buffer the loop body rewrites and `lastIndex` carried over from the old buffer.

  /** When the pattern is tried at `p`: the name's bounds and the end of the match (just after
      the `(`). */
  function FunctionAt(s: string, p: nat): (r: Option<(nat, nat, nat)>)
    ensures r.Some? ==> p < r.value.0 < r.value.1 < r.value.2 <= |s|
    ensures r.Some? ==> IsIdentifier(s[r.value.0..r.value.1]) && s[r.value.2 - 1] == '('
  {
    match DeclAt(s, "function", p)
    case None => None
    case Some(m) =>
      var e := m.1 + SpaceRun(s[m.1..]);
      if e < |s| && s[e] == '(' then Some((m.0, m.1, e + 1)) else None
  }

  function NextFunction(s: string, from: nat): (r: Option<(nat, nat, nat)>)
    ensures r.Some? ==> from < r.value.0 < r.value.1 < r.value.2 <= |s|
    ensures r.Some? ==> IsIdentifier(s[r.value.0..r.value.1])
    decreases |s| - from
  {
    if from >= |s| then None
    else if FunctionAt(s, from).Some? then FunctionAt(s, from)
    else NextFunction(s, from + 1)
  }

  /** Decreases on every turn of the function loop: the match end moves forward while the
      buffer's weight does not grow. */
  function ScanMeasure(s: string, last: nat): nat
  {
    if last <= |s| then Weight(s) + 1 - last else 0
  }

  /** The loop of obfuscator.js:289-297 from `lastIndex == last` on: the function map, the
      code and the next draw afterwards. */
  function RenameFunctionsAt(d: nat -> nat, at: nat, m: map<string, string>, code: string, last: nat): (r: (map<string, string>, string, nat))
    requires AllGenerated(m)
    decreases ScanMeasure(code, last)
  {
    match NextFunction(code, last)
    case None => (m, code, at)
    case Some(f) =>
      var name := code[f.0..f.1];
      var a := AssignAt(d, at, m, name);
      ReplaceWordWeight(code, name, a.0[name]);
      RenameFunctionsAt(d, a.1, a.0, ReplaceWord(code, name, a.0[name]), f.2)
  }

  /** The function map only grows: old entries are kept and every value stays a generated name. */
  lemma {:induction false} RenameFunctionsMap(d: nat -> nat, at: nat, m: map<string, string>, code: string, last: nat)
    requires AllGenerated(m)
    ensures var r := RenameFunctionsAt(d, at, m, code, last);
      (forall k :: k in m ==> k in r.0 && r.0[k] == m[k]) && AllGenerated(r.0) && r.2 >= at
    decreases ScanMeasure(code, last)
  {
    match NextFunction(code, last)
    case None =>
    case Some(f) =>
      var name := code[f.0..f.1];
      var a := AssignAt(d, at, m, name);
      AssignKeeps(d, at, m, name);
      FunctionStep(d, at, m, code, last);
      ReplaceWordWeight(code, name, a.0[name]);
      RenameFunctionsMap(d, a.1, a.0, ReplaceWord(code, name, a.0[name]), f.2);
  }

  /** Looking a name up keeps every entry and hands out only generated names. */
  lemma AssignKeeps(d: nat -> nat, at: nat, m: map<string, string>, name: string)
    requires AllGenerated(m)
    ensures var a := AssignAt(d, at, m, name);
      (forall k :: k in m ==> k in a.0 && a.0[k] == m[k]) && AllGenerated(a.0) && a.1 >= at
  {
  }

  /** One turn of the function scan. */
  lemma FunctionStep(d: nat -> nat, at: nat, m: map<string, string>, code: string, last: nat)
    requires AllGenerated(m) && NextFunction(code, last).Some?
    ensures var f := NextFunction(code, last).value;
      var name := code[f.0..f.1];
      var a := AssignAt(d, at, m, name);
      AllGenerated(a.0)
      && RenameFunctionsAt(d, at, m, code, last)
         == RenameFunctionsAt(d, a.1, a.0, ReplaceWord(code, name, a.0[name]), f.2)
  {
  }

  /** A match of `\bw\b` is one of the tokens. */
  lemma {:induction false} MatchInTokensFrom(s: string, w: string, q: nat, p: nat)
    requires IsIdentifier(w) && q <= p < |s|
    requires q == 0 || !IsWordChar(s[q - 1]) || !IsWordChar(s[q])
    requires MatchesWordAt(s, w, p)
    ensures w in Tokens(s[q..])
    decreases p - q
  {
    if !IsWordChar(s[q]) {
      assert q < p by { assert IsWordChar(s[p]) by { assert s[p] == w[0]; } }
      MatchInTokensFrom(s, w, q + 1, p);
      TokenAfterOther(s, w, q);
    } else if q == p {
      MatchFirstToken(s, w, p);
    } else {
      MatchPastRun(s, w, q, p);
      MatchInTokensFrom(s, w, RunEnd(s, q), p);
      TokenAfterRun(s, w, q);
    }
  }

  lemma TokenAfterOther(s: string, w: string, q: nat)
    requires q < |s| && !IsWordChar(s[q]) && w in Tokens(s[q + 1..])
    ensures w in Tokens(s[q..])
  {
    TokensAtOther(s, q);
  }

  lemma TokenAfterRun(s: string, w: string, q: nat)
    requires q < |s| && IsWordChar(s[q]) && w in Tokens(s[RunEnd(s, q)..])
    ensures w in Tokens(s[q..])
  {
    TokensAtWord(s, q);
  }

  /** A match is the whole word run it starts, so it is the first token from there. */
  lemma MatchFirstToken(s: string, w: string, p: nat)
    requires IsIdentifier(w) && p < |s| && MatchesWordAt(s, w, p)
    ensures w in Tokens(s[p..])
  {
    MatchIsWholeRun(s, w, p);
    assert IsWordChar(s[p]) by { assert s[p] == w[0]; }
    TokensAtWord(s, p);
    assert RunEnd(s, p) == p + |w|;
  }

  /** A match further on starts after the end of the word run at `q`. */
  lemma MatchPastRun(s: string, w: string, q: nat, p: nat)
    requires IsIdentifier(w) && q < p < |s| && IsWordChar(s[q])
    requires MatchesWordAt(s, w, p)
    ensures RunEnd(s, q) < p
  {
    assert IsWordChar(s[p]) by { assert s[p] == w[0]; }
    assert !IsWordChar(s[p - 1]);
  }

  lemma FunctionNeedsKeyword(s: string, p: nat)
    ensures FunctionAt(s, p).Some? ==> HasWord(s, "function")
  {
    if FunctionAt(s, p).Some? {
      assert MatchesWordAt(s, "function", p);
      MatchInTokensFrom(s, "function", 0, p);
      assert s[0..] == s;
    }
  }

  /** Without the word `function` the function scan finds nothing. */
  lemma {:induction false} NoFunctionWithoutKeyword(s: string, from: nat)
    requires !HasWord(s, "function")
    ensures NextFunction(s, from) == None
    decreases |s| - from
  {
    if from < |s| {
      FunctionNeedsKeyword(s, from);
      NoFunctionWithoutKeyword(s, from + 1);
    }
  }

  /** One variable: look it up, then replace it. */
  lemma RenameOneVar(d: nat -> nat, at: nat, v: string, m: map<string, string>, code: string)
    requires IsIdentifier(v)
    ensures var a := AssignAt(d, at, m, v);
      RenameVarsAt(d, at, [v], m, code) == (a.0, ReplaceWord(code, v, a.0[v]), a.1)
  {
    var a := AssignAt(d, at, m, v);
    assert [v][1..] == [];
  }

  lemma LocalDeclFirst()
    ensures NextLocal("local function f()", 0) == Some((6, 14))
    ensures "local function f()"[6..14] == "function"
  {
    var s := "local function f()";
    assert SpaceRun(s[5..]) == 1 by { assert s[5..][1..] == s[6..]; }
    assert WordRun(s[6..]) == 8 by { WordRunOfConcat("function", " f()"); assert s[6..] == "function" + " f()"; }
    assert LocalAt(s, 0) == Some((6, 14));
  }

  lemma LocalDeclRest()
    ensures NextLocal("local function f()", 14) == None
  {
    var s := "local function f()";
    assert LocalAt(s, 14) == None && LocalAt(s, 15) == None;
    assert LocalAt(s, 16) == None && LocalAt(s, 17) == None;
  }

  /** In `local function f()` the capture after `local` is the keyword `function`, which the
      reserved list does not exclude. */
  lemma LocalFunctionCaptured(decoder: string)
    requires decoder != "function"
    ensures Variables("local function f()", decoder) == ["function"]
  {
    LocalNamesOfDecl();
    KeywordKept(decoder);
    assert Dedup(["function"]) == ["function"];
  }

  lemma LocalNamesOfDecl()
    ensures LocalNames("local function f()", 0) == ["function"]
  {
    var s := "local function f()";
    LocalDeclFirst();
    LocalDeclRest();
    assert LocalNames(s, 14) == [];
  }

  /** The reserved list does not hold `function`, and `function` does not start with `_`. */
  lemma KeywordKept(decoder: string)
    requires decoder != "function"
    ensures KeptNames(["function"], Reserved(decoder)) == ["function"]
  {
    var r := Reserved(decoder);
    assert r[..14] + [decoder] == r;
    assert forall i :: 0 <= i < 14 ==> |r[..14][i]| != 8;
    assert "function"[..1][0] == 'f' && "_"[0] == '_';
    assert Kept("function", r);
    assert ["function"][1..] == [];
  }

  /** As written: on a fresh instance, renaming `local function f()` replaces the keyword
      `function` itself by a generated name, after which the function scan finds no
      declaration, so `f` is never renamed. */
  lemma LocalFunctionLosesKeyword(d: nat -> nat, at: nat)
    ensures var r := RenameVarsAt(d, at, ["function"], map[], "local function f()");
      "function" in r.0 && !HasWord(r.1, "function")
      && RenameFunctionsAt(d, r.2, map[], r.1, 0) == (map[], r.1, r.2)
  {
    KeywordVariableLost(d, at, "local function f()");
  }

  /** Once the keyword is renamed as a variable, the function scan has nothing to find. */
  lemma KeywordVariableLost(d: nat -> nat, at: nat, code: string)
    ensures var r := RenameVarsAt(d, at, ["function"], map[], code);
      "function" in r.0 && !HasWord(r.1, "function")
      && RenameFunctionsAt(d, r.2, map[], r.1, 0) == (map[], r.1, r.2)
  {
    var r := RenameVarsAt(d, at, ["function"], map[], code);
    KeywordReplaced(d, at, code);
    FunctionsUntouched(d, r.2, map[], r.1);
  }

  /** Renaming the variable `function` on a fresh map removes the keyword. */
  lemma KeywordReplaced(d: nat -> nat, at: nat, code: string)
    ensures var r := RenameVarsAt(d, at, ["function"], map[], code);
      "function" in r.0 && !HasWord(r.1, "function")
  {
    VarNameStart(d, at);
    RenameOneVar(d, at, "function", map[], code);
    var r := RenameVarsAt(d, at, ["function"], map[], code);
    assert r.0["function"] == VarNameAt(d, at).0;
    ReplaceWordRemoves(code, "function", r.0["function"]);
  }

  lemma FunctionsUntouched(d: nat -> nat, at: nat, m: map<string, string>, code: string)
    requires AllGenerated(m) && !HasWord(code, "function")
    ensures RenameFunctionsAt(d, at, m, code, 0) == (m, code, at)
  {
    NoFunctionWithoutKeyword(code, 0);
  }

  // ---------------------------------------------------------------------------
  // Corrected collection: the reserved list extended with the reserved words of Lua, so that
  // a keyword captured after `local` (as in `local function f()`) is never renamed.

  function LuaKeywords(): seq<string>
  {
    ["and", "break", "do", "else", "elseif", "end", "false", "for", "function", "if", "in",
     "local", "nil", "not", "or", "repeat", "return", "then", "true", "until", "while"]
  }

  function VariablesCorrected(code: string, decoder: string): seq<string>
  {
    Dedup(KeptNames(LocalNames(code, 0), Reserved(decoder) + LuaKeywords()))
  }

  /** The corrected collection is the original one without the keywords. */
  lemma VariablesCorrectedProps(code: string, decoder: string)
    ensures forall v :: v in VariablesCorrected(code, decoder) <==> v in Variables(code, decoder) && v !in LuaKeywords()
  {
    var names := LocalNames(code, 0);
    DedupProps(KeptNames(names, Reserved(decoder)));
    DedupProps(KeptNames(names, Reserved(decoder) + LuaKeywords()));
    KeptNamesMembers(names, Reserved(decoder));
    KeptNamesMembers(names, Reserved(decoder) + LuaKeywords());
  }

  /** With the corrected list nothing is collected from `local function f()`, and the function
      scan then gives `f` its replacement. */
  lemma LocalFunctionCorrected(decoder: string)
    requires decoder != "function"
    ensures VariablesCorrected("local function f()", decoder) == []
  {
    var s := "local function f()";
    LocalDeclFirst();
    LocalDeclRest();
    assert LocalNames(s, 14) == [];
    assert LocalNames(s, 0) == ["function"];
    assert !Kept("function", Reserved(decoder) + LuaKeywords());
    assert KeptNames(["function"], Reserved(decoder) + LuaKeywords()) == [];
  }

  lemma FunctionDeclAt()
    ensures FunctionAt("local function f()", 6) == Some((15, 16, 17))
  {
    var s := "local function f()";
    assert SpaceRun(s[14..]) == 1 by { assert s[14..][1..] == s[15..]; }
    assert WordRun(s[15..]) == 1 by { assert s[15..][1..] == s[16..]; }
    assert SpaceRun(s[16..]) == 0;
    assert DeclAt(s, "function", 6) == Some((15, 16));
  }

  lemma OccursFirst(s: string, w: string, p: nat)
    requires |w| > 0
    ensures OccursAt(s, w, p) ==> s[p] == w[0]
  {
    if OccursAt(s, w, p) { assert s[p..p + |w|][0] == s[p]; }
  }

  lemma FunctionDeclFirst()
    ensures NextFunction("local function f()", 0) == Some((15, 16, 17))
    ensures "local function f()"[15..16] == "f"
  {
    var s := "local function f()";
    FunctionDeclAt();
    forall p | 0 <= p < 6 ensures FunctionAt(s, p) == None {
      OccursFirst(s, "function", p);
      assert s[p] != 'f';
    }
    assert NextFunction(s, 6) == Some((15, 16, 17));
  }

  lemma FunctionRenamedCorrected(d: nat -> nat, at: nat)
    ensures "f" in RenameFunctionsAt(d, at, map[], "local function f()", 0).0
  {
    var s := "local function f()";
    FunctionDeclFirst();
    var a := AssignAt(d, at, map[], "f");
    ReplaceWordWeight(s, "f", a.0["f"]);
    var s' := ReplaceWord(s, "f", a.0["f"]);
    assert RenameFunctionsAt(d, at, map[], s, 0) == RenameFunctionsAt(d, a.1, a.0, s', 17);
    RenameFunctionsMap(d, a.1, a.0, s', 17);
  }

  // ---------------------------------------------------------------------------
  // The function scan reads the rewritten buffer from the old `lastIndex`: when a long name
  // is replaced by a shorter one, a declaration that moved to before `lastIndex` is skipped.

  /** Tokens are pieces of the text, so none is longer than it. */
  lemma {:induction false} TokensShort(s: string)
    ensures forall t :: t in Tokens(s) ==> |t| <= |s|
    decreases |s|
  {
    if s != [] {
      if IsWordChar(s[0]) {
        TokensShort(s[WordRun(s)..]);
      } else {
        TokensShort(s[1..]);
      }
    }
  }

  lemma WellFormedAppend(ta: seq<string>, tb: seq<string>)
    requires WellFormed(ta) && WellFormed(tb)
    requires ta == [] || tb == [] || IsOtherToken(ta[|ta| - 1]) || IsOtherToken(tb[0])
    ensures WellFormed(ta + tb)
  {
    var u := ta + tb;
    forall i | 0 <= i < |u| ensures IsWordToken(u[i]) || IsOtherToken(u[i]) {
      if i < |ta| { assert u[i] == ta[i]; } else { assert u[i] == tb[i - |ta|]; }
    }
    forall i | 0 <= i < |u| - 1 ensures IsOtherToken(u[i]) || IsOtherToken(u[i + 1]) {
      if i < |ta| - 1 { assert u[i] == ta[i] && u[i + 1] == ta[i + 1]; }
      else if i == |ta| - 1 { assert u[i] == ta[|ta| - 1] && u[i + 1] == tb[0]; }
      else { assert u[i] == tb[i - |ta|] && u[i + 1] == tb[i - |ta| + 1]; }
    }
  }

  /** The first token starts with the first character. */
  lemma FirstToken(s: string)
    requires s != [] && !IsWordChar(s[0])
    ensures Tokens(s) != [] && IsOtherToken(Tokens(s)[0])
  {
  }

  /** A text ending in a non-word character ends in a one-character token. */
  lemma LastToken(s: string)
    requires s != [] && !IsWordChar(s[|s| - 1])
    ensures Tokens(s) != [] && IsOtherToken(Tokens(s)[|Tokens(s)| - 1])
  {
    TokensSpell(s);
    var ts := Tokens(s);
    var t := ts[|ts| - 1];
    ConcatSnoc(ts[..|ts| - 1], t);
    assert ts[..|ts| - 1] + [t] == ts;
    assert IsWordToken(t) || IsOtherToken(t);
    assert t[|t| - 1] == s[|s| - 1];
  }

  /** Tokenising splits at a non-word character. */
  lemma TokensAppend(a: string, b: string)
    requires a == [] || b == [] || !IsWordChar(a[|a| - 1]) || !IsWordChar(b[0])
    ensures Tokens(a + b) == Tokens(a) + Tokens(b)
  {
    TokensSpell(a);
    TokensSpell(b);
    if a != [] && b != [] {
      if !IsWordChar(a[|a| - 1]) { LastToken(a); } else { FirstToken(b); }
    }
    WellFormedAppend(Tokens(a), Tokens(b));
    ConcatAppend(Tokens(a), Tokens(b));
    TokensOfConcat(Tokens(a) + Tokens(b));
  }

  lemma TokensOfWord(w: string)
    requires IsIdentifier(w)
    ensures Tokens(w) == [w]
  {
    WordRunWhole(w);
    assert w[|w|..] == [];
    assert w[..|w|] == w;
  }

  lemma TokensMiddle(a: string, w: string, b: string)
    requires IsIdentifier(w)
    requires a == [] || !IsWordChar(a[|a| - 1])
    requires b == [] || !IsWordChar(b[0])
    ensures Tokens(a + w + b) == Tokens(a) + [w] + Tokens(b)
  {
    calc {
      Tokens(a + w + b);
      { assert a + w + b == a + (w + b); }
      Tokens(a + (w + b));
      { TokensAppend(a, w + b); }
      Tokens(a) + Tokens(w + b);
      { TokensAppend(w, b); TokensOfWord(w); }
      Tokens(a) + ([w] + Tokens(b));
      Tokens(a) + [w] + Tokens(b);
    }
  }

  lemma SubstShort(ts: seq<string>, w: string, r: string, n: nat)
    requires forall t :: t in ts ==> |t| <= n
    requires n < |w|
    ensures Subst(ts, w, r) == ts
  {
    forall i | 0 <= i < |ts| ensures Subst(ts, w, r)[i] == ts[i] {
      assert ts[i] in ts;
    }
  }

  lemma ConcatMiddle(ta: seq<string>, x: string, tb: seq<string>)
    ensures Concat(ta + [x] + tb) == Concat(ta) + x + Concat(tb)
  {
    ConcatAppend(ta + [x], tb);
    ConcatAppend(ta, [x]);
    ConcatCons(x, []);
  }

  /** Replacing a word that is longer than the text on either side of it. */
  lemma ReplaceWordMiddle(a: string, w: string, b: string, r: string)
    requires IsIdentifier(w) && |a| < |w| && |b| < |w|
    requires a == [] || !IsWordChar(a[|a| - 1])
    requires b == [] || !IsWordChar(b[0])
    ensures ReplaceWord(a + w + b, w, r) == a + r + b
  {
    TokensMiddle(a, w, b);
    var ta, tb := Tokens(a), Tokens(b);
    TokensShort(a);
    TokensShort(b);
    SubstShort(ta, w, r, |a|);
    SubstShort(tb, w, r, |b|);
    SubstMiddle(ta, w, tb, r);
    ReplaceWordTokens(a + w + b, w, r);
    ConcatMiddle(ta, r, tb);
    TokensConcat(a);
    TokensConcat(b);
  }

  lemma SubstMiddle(ta: seq<string>, w: string, tb: seq<string>, r: string)
    ensures Subst(ta + [w] + tb, w, r) == Subst(ta, w, r) + [r] + Subst(tb, w, r)
  {
  }

  /** When the pieces of `\bfunction\s+(name)\s*\(` are found at `p`, `q`, `e` and `c`, the
      pattern matches there. */
  lemma FunctionAtParts(s: string, p: nat, q: nat, e: nat, c: nat)
    requires WordStart(s, p) && OccursAt(s, "function", p)
    requires p + 8 < q < |s| && SpaceRun(s[p + 8..]) == q - p - 8 && IsIdentStart(s[q])
    requires q <= e <= |s| && WordRun(s[q..]) == e - q
    requires e <= c < |s| && SpaceRun(s[e..]) == c - e && s[c] == '('
    ensures FunctionAt(s, p).Some? && FunctionAt(s, p).value == (q, e, c + 1)
  {
    DeclAtParts(s, "function", p, q, e);
    FunctionAtDecl(s, p, q, e, c);
  }

  lemma FunctionAtDecl(s: string, p: nat, q: nat, e: nat, c: nat)
    requires DeclAt(s, "function", p) == Some((q, e))
    requires e <= c < |s| && SpaceRun(s[e..]) == c - e && s[c] == '('
    ensures FunctionAt(s, p) == Some((q, e, c + 1))
  {
  }

  lemma DeclAtParts(s: string, keyword: string, p: nat, q: nat, e: nat)
    requires |keyword| > 0 && WordStart(s, p) && OccursAt(s, keyword, p)
    requires p + |keyword| < q < |s| && SpaceRun(s[p + |keyword|..]) == q - p - |keyword| && IsIdentStart(s[q])
    requires q <= e <= |s| && WordRun(s[q..]) == e - q
    ensures DeclAt(s, keyword, p) == Some((q, e))
  {
  }

  lemma DeclaredKeyword(n: string, b: string)
    ensures OccursAt("function " + n + b, "function", 0)
  {
    var s := "function " + n + b;
    assert s == "function" + (" " + n + b);
  }

  lemma DeclaredSpace(n: string, b: string)
    requires IsIdentifier(n)
    ensures SpaceRun(("function " + n + b)[8..]) == 1
  {
    var s := "function " + n + b;
    assert s[8..] == " " + (n + b);
    assert s[8..][1..] == n + b;
    assert !IsSpace(n[0]);
  }

  lemma DeclaredName(n: string, b: string)
    requires IsIdentifier(n) && b != [] && b[0] == '('
    ensures WordRun(("function " + n + b)[9..]) == |n|
    ensures ("function " + n + b)[9..9 + |n|] == n
    ensures ("function " + n + b)[9 + |n|..] == b
  {
    var s := "function " + n + b;
    assert s[9..] == n + b;
    WordRunOfConcat(n, b);
  }

  /** `function n(...`: the scan tried at 0 captures `n` and ends just after `(`. */
  lemma DeclaredFirst(s: string, n: string, b: string)
    requires IsIdentifier(n) && b != [] && b[0] == '('
    requires s == "function " + n + b
    ensures var m := NextFunction(s, 0);
      m.Some? && m.value.0 == 9 && m.value.1 == 9 + |n| && m.value.2 == 10 + |n|
    ensures s[9..9 + |n|] == n
  {
    DeclaredKeyword(n, b);
    DeclaredSpace(n, b);
    DeclaredName(n, b);
    assert SpaceRun(b) == 0;
    FunctionAtParts(s, 0, 9, 9 + |n|, 9 + |n|);
  }

  /** No match can start where `function` no longer fits. */
  lemma {:induction false} NoFunctionNearEnd(s: string, from: nat)
    requires from + 8 > |s|
    ensures NextFunction(s, from) == None
    decreases |s| - from
  {
    if from < |s| {
      NoFunctionNearEnd(s, from + 1);
    }
  }

  /** A program with a 20-character function name followed by a second declaration: after the
      first replacement the buffer is at most 36 characters long, so the scan resumed at index
      30 finds nothing, and `g` gets no entry and keeps its name. */
  lemma FunctionScanSkips(d: nat -> nat, at: nat)
    ensures var r := RenameFunctionsAt(d, at, map[], "function " + "abcdefghijklmnopqrst" + "() function g()", 0);
      r.0 == map["abcdefghijklmnopqrst" := VarNameAt(d, at).0]
      && r.1 == "function " + VarNameAt(d, at).0 + "() function g()"
  {
    var n := "abcdefghijklmnopqrst";
    var b := "() function g()";
    var s := "function " + n + b;
    assert IsIdentifier(n);
    DeclaredFirst(s, n, b);
    var a := AssignAt(d, at, map[], n);
    var rn := a.0[n];
    ReplaceWordWeight(s, n, rn);
    var s' := ReplaceWord(s, n, rn);
    assert RenameFunctionsAt(d, at, map[], s, 0) == RenameFunctionsAt(d, a.1, a.0, s', 30);
    ReplaceWordMiddle("function ", n, b, rn);
    NoFunctionNearEnd(s', 30);
  }
}
