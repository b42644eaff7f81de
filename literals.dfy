/** Step 1 of `obfuscate`: the string pool. Quoted literals are found with the regular
    expression `(['"`])((?:\\.|(?!\1).)*?)\1`, each distinct content gets one table entry
    (XOR with a fresh key, then octal escapes), and every literal is replaced by a call
    `<decoder>(k)` on its 1-based table index. */
module Literals {
  import opened Text
  import opened Utils
  import opened Cipher
  import opened Names

  predicate IsQuote(c: char) { c == '\'' || c == '"' || c == '`' }

  /** Where the lazy body `(?:\\.|(?!\1).)*?` started at `j` meets its closing quote `q`,
      with the regular expression's backtracking order: close as early as possible, and at
      each step try the escape pair `\` + any character before a single character. `.`
      refuses line terminators, so a literal never spans lines. */
  function CloseAt(s: string, q: char, j: nat): (r: Option<nat>)
    ensures r.Some? ==> j <= r.value < |s| && s[r.value] == q
    ensures r.Some? ==> forall k :: j <= k < r.value ==> !IsLineTerminator(s[k])
    decreases |s| - j
  {
    if j >= |s| then None
    else if s[j] == q then Some(j)
    else if IsLineTerminator(s[j]) then None
    else if s[j] == '\\' && j + 1 < |s| && !IsLineTerminator(s[j + 1]) then
      match CloseAt(s, q, j + 2)
      case Some(e) => Some(e)
      case None => CloseAt(s, q, j + 1)
    else CloseAt(s, q, j + 1)
  }

  /** The next match at or after `from`, as the start of its opening quote and the end
      (exclusive) of its closing quote; `exec` tries every start position in turn. */
  function NextMatch(s: string, from: nat): (r: Option<(nat, nat)>)
    ensures r.Some? ==> from <= r.value.0 && r.value.0 + 2 <= r.value.1 <= |s|
    ensures r.Some? ==> IsQuote(s[r.value.0]) && s[r.value.1 - 1] == s[r.value.0]
    ensures r.Some? ==> forall k :: r.value.0 < k < r.value.1 - 1 ==> !IsLineTerminator(s[k])
    decreases |s| - from
  {
    if from >= |s| then None
    else if IsQuote(s[from]) && CloseAt(s, s[from], from + 1).Some? then
      Some((from, CloseAt(s, s[from], from + 1).value + 1))
    else NextMatch(s, from + 1)
  }

  /** The text between the quotes of a match (group 2). */
  function Content(s: string, m: (nat, nat)): string
    requires m.0 + 2 <= m.1 <= |s|
  {
    s[m.0 + 1..m.1 - 1]
  }

  /** The contents of all matches from `from` on, in order: what the `exec` loop sees. */
  function ContentsFrom(s: string, from: nat): (cs: seq<string>)
    ensures forall i :: 0 <= i < |cs| ==> OneLine(cs[i])
    decreases |s| - from
  {
    match NextMatch(s, from)
    case None => []
    case Some(m) =>
      var c := Content(s, m);
      assert forall k :: 0 <= k < |c| ==> c[k] == s[m.0 + 1 + k];
      var rest := ContentsFrom(s, m.1);
      assert forall i :: 1 <= i < |rest| + 1 ==> ([c] + rest)[i] == rest[i - 1];
      [c] + rest
  }

  /** No line terminator. */
  predicate OneLine(c: string) { forall k :: 0 <= k < |c| ==> !IsLineTerminator(c[k]) }

  function Contents(s: string): seq<string> { ContentsFrom(s, 0) }

  /** The table for the distinct contents `uniq`: entry `j` encodes `uniq[j]` under the
      `j`-th key drawn from `at` on. */
  function TableAt(d: nat -> nat, at: nat, uniq: seq<string>): (t: seq<Entry>)
    ensures |t| == |uniq|
    ensures forall j :: 0 <= j < |t| ==> 1 <= t[j].key <= 255 && t[j] == EncodeEntry(uniq[j], t[j].key)
  {
    var t := seq(|uniq|, j requires 0 <= j < |uniq| => EncodeEntry(uniq[j], Pick(d(at + j), 1, 255)));
    assert forall j :: 0 <= j < |t| ==> t[j] == EncodeEntry(uniq[j], Pick(d(at + j), 1, 255));
    t
  }

  /** `stringMap`: each distinct content to its 0-based table index. */
  function IndexMap(uniq: seq<string>): (m: map<string, nat>)
    ensures forall c :: c in m <==> c in uniq
    ensures forall c :: c in m ==> m[c] < |uniq| && uniq[m[c]] == c
  {
    map c | c in uniq :: IndexOf(uniq, c)
  }

  /** The text of `code.replace(stringRegex, ...)` from `from` on: the text between
      matches is kept, and each match becomes `<decoder>(<index + 1>)`. */
  function ReplaceFrom(s: string, from: nat, decoder: string, index: map<string, nat>): string
    requires forall c :: c in ContentsFrom(s, from) ==> c in index
    decreases |s| - from
  {
    match NextMatch(s, from)
    case None => if from <= |s| then s[from..] else []
    case Some(m) =>
      s[from..m.0] + CallText(decoder, index[Content(s, m)] + 1) + ReplaceFrom(s, m.1, decoder, index)
  }

  /** The indices the replaced calls carry, in order. */
  function CallsFrom(s: string, from: nat, index: map<string, nat>): (ks: seq<nat>)
    requires forall c :: c in ContentsFrom(s, from) ==> c in index
    ensures |ks| == |ContentsFrom(s, from)|
    ensures forall i :: 0 <= i < |ks| ==> ks[i] == index[ContentsFrom(s, from)[i]] + 1
    decreases |s| - from
  {
    match NextMatch(s, from)
    case None => []
    case Some(m) => [index[Content(s, m)] + 1] + CallsFrom(s, m.1, index)
  }

  /** The matches from `from` on, as the spans `(start, end)` of their quoted text: in
      order, non-overlapping, and the i-th span holds the i-th content. */
  function MatchesFrom(s: string, from: nat): (ms: seq<(nat, nat)>)
    requires from <= |s|
    ensures Spans(s, from, ms)
    ensures |ms| == |ContentsFrom(s, from)|
    ensures forall i :: 0 <= i < |ms| ==> ContentsFrom(s, from)[i] == Content(s, ms[i])
    decreases |s| - from
  {
    match NextMatch(s, from)
    case None => []
    case Some(m) =>
      var rest := MatchesFrom(s, m.1);
      ContentsStep(s, from, m);
      SpansCons(s, from, m, rest);
      [m] + rest
  }

  lemma SpansCons(s: string, from: nat, m: (nat, nat), rest: seq<(nat, nat)>)
    requires from <= m.0 && m.0 + 2 <= m.1 <= |s|
    requires Spans(s, m.1, rest)
    ensures Spans(s, from, [m] + rest)
    ensures forall i :: 1 <= i <= |rest| ==> ([m] + rest)[i] == rest[i - 1]
  {
  }

  /** Spans inside `s[from..]`, each long enough for two quotes, in increasing order
      without overlap. */
  predicate Spans(s: string, from: nat, ms: seq<(nat, nat)>)
  {
    && from <= |s|
    && (forall i :: 0 <= i < |ms| ==> from <= ms[i].0 && ms[i].0 + 2 <= ms[i].1 <= |s|)
    && (forall i, j :: 0 <= i < j < |ms| ==> ms[i].1 <= ms[j].0)
  }

  /** The text before span `i`, or after the last span when `i == |ms|`. */
  function Gap(s: string, from: nat, ms: seq<(nat, nat)>, i: nat): string
    requires Spans(s, from, ms) && i <= |ms|
  {
    var lo := if i == 0 then from else ms[i - 1].1;
    var hi := if i == |ms| then |s| else ms[i].0;
    s[lo..hi]
  }

  /** The texts around the spans: one more than there are spans. */
  function Gaps(s: string, from: nat, ms: seq<(nat, nat)>): (gs: seq<string>)
    requires Spans(s, from, ms)
    ensures |gs| == |ms| + 1
  {
    seq(|ms| + 1, i requires 0 <= i <= |ms| => Gap(s, from, ms, i))
  }

  /** The quoted texts the spans cover. */
  function LiteralTexts(s: string, ms: seq<(nat, nat)>): (ls: seq<string>)
    requires forall i :: 0 <= i < |ms| ==> ms[i].0 <= ms[i].1 <= |s|
    ensures |ls| == |ms|
  {
    seq(|ms|, i requires 0 <= i < |ms| => s[ms[i].0..ms[i].1])
  }

  /** The decoder calls `<decoder>(k)` for the indices `ks`. */
  function CallTexts(decoder: string, ks: seq<nat>): (cs: seq<string>)
    ensures |cs| == |ks|
  {
    seq(|ks|, i requires 0 <= i < |ks| => CallText(decoder, ks[i]))
  }

  /** `gaps[0] + items[0] + gaps[1] + ... + items[n - 1] + gaps[n]`. */
  function Weave(gaps: seq<string>, items: seq<string>): string
    requires |gaps| == |items| + 1
  {
    if items == [] then gaps[0] else gaps[0] + items[0] + Weave(gaps[1..], items[1..])
  }

  /** Dropping the first span leaves spans after its end, with the first gap split off. */
  lemma GapsCons(s: string, from: nat, ms: seq<(nat, nat)>)
    requires Spans(s, from, ms) && ms != []
    ensures Spans(s, ms[0].1, ms[1..])
    ensures Gaps(s, from, ms) == [s[from..ms[0].0]] + Gaps(s, ms[0].1, ms[1..])
  {
    var tail := ms[1..];
    assert forall i :: 0 <= i < |tail| ==> tail[i] == ms[i + 1];
    assert Spans(s, ms[0].1, tail);
    var g := Gaps(s, from, ms);
    var g' := [s[from..ms[0].0]] + Gaps(s, ms[0].1, tail);
    forall i | 0 <= i < |g|
      ensures g[i] == g'[i]
    {
      if i > 0 {
        assert g'[i] == Gap(s, ms[0].1, tail, i - 1);
      }
    }
  }

  /** The code is the text around its literals woven with the literals themselves. */
  lemma {:induction false} SourceWeave(s: string, from: nat, ms: seq<(nat, nat)>)
    requires Spans(s, from, ms)
    ensures s[from..] == Weave(Gaps(s, from, ms), LiteralTexts(s, ms))
    decreases |ms|
  {
    if ms != [] {
      GapsCons(s, from, ms);
      SourceWeave(s, ms[0].1, ms[1..]);
      var ls := LiteralTexts(s, ms);
      assert ls[1..] == LiteralTexts(s, ms[1..]);
      assert s[from..] == s[from..ms[0].0] + s[ms[0].0..ms[0].1] + s[ms[0].1..];
    }
  }

  /** `code.replace` keeps the text around the literals and puts, in place of the i-th
      literal, the call on the i-th index of `CallsFrom`. */
  lemma {:induction false} ReplaceWeave(s: string, from: nat, decoder: string, index: map<string, nat>)
    requires from <= |s|
    requires forall c :: c in ContentsFrom(s, from) ==> c in index
    ensures ReplaceFrom(s, from, decoder, index)
         == Weave(Gaps(s, from, MatchesFrom(s, from)), CallTexts(decoder, CallsFrom(s, from, index)))
    decreases |s| - from
  {
    if NextMatch(s, from).Some? {
      var m := NextMatch(s, from).value;
      var call := CallText(decoder, index[Content(s, m)] + 1);
      ReplaceStep(s, from, decoder, index);
      ReplaceWeave(s, m.1, decoder, index);
      var ms := MatchesFrom(s, from);
      GapsCons(s, from, ms);
      WeaveCons(s[from..m.0], Gaps(s, m.1, MatchesFrom(s, m.1)),
                call, CallTexts(decoder, CallsFrom(s, m.1, index)));
    }
  }

  /** The call `<decoder>(k)`. */
  function CallText(decoder: string, k: nat): string
  {
    decoder + "(" + Decimal(k) + ")"
  }

  lemma WeaveCons(g: string, gs: seq<string>, x: string, xs: seq<string>)
    requires |gs| == |xs| + 1
    ensures Weave([g] + gs, [x] + xs) == g + x + Weave(gs, xs)
  {
    assert ([g] + gs)[1..] == gs;
    assert ([x] + xs)[1..] == xs;
  }

  /** One match: the replacement, the spans and the calls each take it off the front. */
  lemma ReplaceStep(s: string, from: nat, decoder: string, index: map<string, nat>)
    requires from <= |s|
    requires forall c :: c in ContentsFrom(s, from) ==> c in index
    requires NextMatch(s, from).Some?
    ensures var m := NextMatch(s, from).value;
      && m.1 <= |s|
      && (forall c :: c in ContentsFrom(s, m.1) ==> c in index)
      && MatchesFrom(s, from) == [m] + MatchesFrom(s, m.1)
      && CallTexts(decoder, CallsFrom(s, from, index))
         == [CallText(decoder, index[Content(s, m)] + 1)] + CallTexts(decoder, CallsFrom(s, m.1, index))
      && ReplaceFrom(s, from, decoder, index)
         == s[from..m.0] + CallText(decoder, index[Content(s, m)] + 1) + ReplaceFrom(s, m.1, decoder, index)
  {
    var m := NextMatch(s, from).value;
    ContentsStep(s, from, m);
    assert Content(s, m) in ContentsFrom(s, from);
    CallsStep(s, from, decoder, index, m);
    MatchesStep(s, from, m);
    ReplaceFromStep(s, from, decoder, index, m);
  }

  lemma ContentsStep(s: string, from: nat, m: (nat, nat))
    requires NextMatch(s, from) == Some(m)
    ensures ContentsFrom(s, from) == [Content(s, m)] + ContentsFrom(s, m.1)
  {
  }

  lemma MatchesStep(s: string, from: nat, m: (nat, nat))
    requires from <= |s|
    requires NextMatch(s, from) == Some(m)
    ensures MatchesFrom(s, from) == [m] + MatchesFrom(s, m.1)
  {
  }

  lemma ReplaceFromStep(s: string, from: nat, decoder: string, index: map<string, nat>, m: (nat, nat))
    requires forall c :: c in ContentsFrom(s, from) ==> c in index
    requires NextMatch(s, from) == Some(m)
    requires forall c :: c in ContentsFrom(s, m.1) ==> c in index
    requires Content(s, m) in index
    ensures ReplaceFrom(s, from, decoder, index)
         == s[from..m.0] + CallText(decoder, index[Content(s, m)] + 1) + ReplaceFrom(s, m.1, decoder, index)
  {
  }

  lemma CallsStep(s: string, from: nat, decoder: string, index: map<string, nat>, m: (nat, nat))
    requires forall c :: c in ContentsFrom(s, from) ==> c in index
    requires NextMatch(s, from) == Some(m)
    requires forall c :: c in ContentsFrom(s, m.1) ==> c in index
    requires Content(s, m) in index
    ensures CallTexts(decoder, CallsFrom(s, from, index))
         == [CallText(decoder, index[Content(s, m)] + 1)] + CallTexts(decoder, CallsFrom(s, m.1, index))
  {
    CallsFromStep(s, from, index, m);
    CallTextsCons(decoder, index[Content(s, m)] + 1, CallsFrom(s, m.1, index));
  }

  lemma CallsFromStep(s: string, from: nat, index: map<string, nat>, m: (nat, nat))
    requires forall c :: c in ContentsFrom(s, from) ==> c in index
    requires NextMatch(s, from) == Some(m)
    requires forall c :: c in ContentsFrom(s, m.1) ==> c in index
    requires Content(s, m) in index
    ensures CallsFrom(s, from, index) == [index[Content(s, m)] + 1] + CallsFrom(s, m.1, index)
  {
  }

  lemma CallTextsCons(decoder: string, k: nat, ks: seq<nat>)
    ensures CallTexts(decoder, [k] + ks) == [CallText(decoder, k)] + CallTexts(decoder, ks)
  {
    var l := CallTexts(decoder, [k] + ks);
    var r := [CallText(decoder, k)] + CallTexts(decoder, ks);
    forall i | 0 <= i < |l|
      ensures l[i] == r[i]
    {
      if i > 0 {
        assert ([k] + ks)[i] == ks[i - 1];
      }
    }
  }

  /** `stringMap` after step 1: every literal's content has an index. */
  function PoolIndex(code: string): (index: map<string, nat>)
    ensures index == IndexMap(Distinct(code))
    ensures forall c :: c in ContentsFrom(code, 0) ==> c in index
  {
    DedupProps(Contents(code));
    IndexMap(Distinct(code))
  }

  /** The result of step 1: the table, the decoder's name, and the rewritten code. */
  datatype StringPool = StringPool(table: seq<Entry>, decoder: string, code: string)

  /** Step 1 as a function of the draws: one key per distinct content, in order of first
      occurrence, then the decoder's name. */
  function StringPassAt(d: nat -> nat, at: nat, code: string): (r: (StringPool, nat))
  {
    PoolWith(d, at, code, VarNameAt(d, TableEnd(at, code)))
  }

  /** The first draw after the keys: one key per distinct content. */
  function TableEnd(at: nat, code: string): (next: nat)
    ensures next == at + |Distinct(code)|
  {
    at + |Distinct(code)|
  }

  /** The distinct contents, in order of first occurrence: the keys of `stringMap`. */
  function Distinct(code: string): seq<string> { Dedup(Contents(code)) }

  function PoolWith(d: nat -> nat, at: nat, code: string, name: (string, nat)): (r: (StringPool, nat))
  {
    DedupProps(Contents(code));
    (StringPool(TableAt(d, at, Distinct(code)), name.0, ReplaceFrom(code, 0, name.0, IndexMap(Distinct(code)))), name.1)
  }

  /** The `exec` loop of step 1 (obfuscator.js:234-257): a literal whose content is new
      gets the next table index and a fresh key. */
  method ExtractStrings(rng: RandomSource, code: string) returns (table: seq<Entry>, index: map<string, nat>)
    modifies rng
    ensures table == TableAt(rng.draws, old(rng.used), Distinct(code))
    ensures rng.used == TableEnd(old(rng.used), code)
    ensures index == IndexMap(Distinct(code))
  {
    ghost var start := rng.used;
    table := [];
    index := map[];
    ghost var seen: seq<string> := [];
    var pos := 0;
    var m := NextMatch(code, 0);
    while m.Some?
      invariant m == NextMatch(code, pos)
      invariant Contents(code) == seen + ContentsFrom(code, pos)
      invariant table == TableAt(rng.draws, start, Dedup(seen))
      invariant rng.used == start + |Dedup(seen)|
      invariant index == IndexMap(Dedup(seen))
      decreases |code| - pos
    {
      var str := Content(code, m.value);
      SeenStep(code, pos, seen);
      table, index := Record(rng, table, index, str, seen, start);
      seen := seen + [str];
      pos := m.value.1;
      m := NextMatch(code, pos);
    }
    assert seen + [] == seen;
  }

  /** The literals seen so far, then the one just matched, then those after it. */
  lemma SeenStep(s: string, from: nat, seen: seq<string>)
    requires NextMatch(s, from).Some?
    ensures var m := NextMatch(s, from).value;
      seen + ContentsFrom(s, from) == (seen + [Content(s, m)]) + ContentsFrom(s, m.1)
  {
    var m := NextMatch(s, from).value;
    assert ContentsFrom(s, from) == [Content(s, m)] + ContentsFrom(s, m.1);
  }

  /** One literal seen by the loop: a content not in `stringMap` gets the next index and a
      new entry; a content already there changes nothing. */
  method Record(rng: RandomSource, table: seq<Entry>, index: map<string, nat>, str: string,
                ghost seen: seq<string>, ghost start: nat)
    returns (table': seq<Entry>, index': map<string, nat>)
    requires table == TableAt(rng.draws, start, Dedup(seen))
    requires rng.used == start + |Dedup(seen)|
    requires index == IndexMap(Dedup(seen))
    modifies rng
    ensures table' == TableAt(rng.draws, start, Dedup(seen + [str]))
    ensures rng.used == start + |Dedup(seen + [str])|
    ensures index' == IndexMap(Dedup(seen + [str]))
  {
    DedupSnoc(seen, str);
    if str !in index {
      DedupProps(seen);
      table', index' := RecordNew(rng, table, index, str, Dedup(seen), start);
    } else {
      table', index' := table, index;
    }
  }

  method RecordNew(rng: RandomSource, table: seq<Entry>, index: map<string, nat>, str: string,
                   ghost uniq: seq<string>, ghost start: nat)
    returns (table': seq<Entry>, index': map<string, nat>)
    requires str !in uniq
    requires forall i, j :: 0 <= i < j < |uniq| ==> uniq[i] != uniq[j]
    requires table == TableAt(rng.draws, start, uniq)
    requires rng.used == start + |uniq|
    requires index == IndexMap(uniq)
    modifies rng
    ensures table' == TableAt(rng.draws, start, uniq + [str])
    ensures rng.used == start + |uniq + [str]|
    ensures index' == IndexMap(uniq + [str])
  {
    TableSnoc(rng.draws, start, uniq, str, rng.used);
    var entry := NewEntry(rng, str);
    AppendNew(uniq, str);
    index' := index[str := |table|];
    table' := table + [entry];
  }

  /** The body of the `if (!stringMap.has(str))` branch: draw the key, XOR, then octal. */
  method NewEntry(rng: RandomSource, str: string) returns (entry: Entry)
    modifies rng
    ensures entry == EncodeEntry(str, Pick(rng.draws(old(rng.used)), 1, 255))
    ensures rng.used == old(rng.used) + 1
  {
    var key := rng.Int(1, 255);
    var xored := XorWithKey(str, key);
    var encoded := EncodeToOctal(xored);
    entry := Entry(encoded, key);
  }

  lemma TableSnoc(d: nat -> nat, at: nat, uniq: seq<string>, x: string, next: nat)
    requires next == at + |uniq|
    ensures TableAt(d, at, uniq + [x]) == TableAt(d, at, uniq) + [EncodeEntry(x, Pick(d(next), 1, 255))]
  {
    var t := TableAt(d, at, uniq + [x]);
    var t' := TableAt(d, at, uniq) + [EncodeEntry(x, Pick(d(next), 1, 255))];
    forall j | 0 <= j < |t|
      ensures t[j] == t'[j]
    {
      assert (uniq + [x])[j] == if j < |uniq| then uniq[j] else x;
    }
  }

  /** Adding a new element to an insertion-ordered set gives it the next index. */
  lemma AppendNew(uniq: seq<string>, x: string)
    requires x !in uniq
    requires forall i, j :: 0 <= i < j < |uniq| ==> uniq[i] != uniq[j]
    ensures IndexMap(uniq + [x]) == IndexMap(uniq)[x := |uniq|]
  {
    var m := IndexMap(uniq + [x]);
    var m' := IndexMap(uniq)[x := |uniq|];
    forall c | c in m
      ensures c in m' && m[c] == m'[c]
    {
      if c in uniq {
        IndexOfPrefix(uniq + [x], uniq, c);
      }
    }
  }

  /** `code.replace(stringRegex, ...)` (obfuscator.js:259-262). */
  function ReplaceLiterals(code: string, decoder: string, index: map<string, nat>): (r: string)
    requires forall c :: c in Contents(code) ==> c in index
    ensures Contents(code) == [] ==> r == code
  {
    ReplaceFrom(code, 0, decoder, index)
  }

  /** Step 1 of `obfuscate`: the table loop, then the decoder's name, then the replacement. */
  method StringPass(rng: RandomSource, code: string) returns (pool: StringPool)
    modifies rng
    ensures (pool, rng.used) == StringPassAt(rng.draws, old(rng.used), code)
  {
    ghost var at := rng.used;
    var table, index := ExtractStrings(rng, code);
    ghost var mid := rng.used;
    var decoder := GenerateVarName(rng);
    DedupProps(Contents(code));
    var replaced := ReplaceLiterals(code, decoder, index);
    pool := StringPool(table, decoder, replaced);
    StringPassParts(rng.draws, at, code, (decoder, rng.used), pool);
  }

  /** The pieces step 1 computes in turn make up `StringPassAt`. */
  lemma StringPassParts(d: nat -> nat, at: nat, code: string, name: (string, nat), pool: StringPool)
    requires name == VarNameAt(d, TableEnd(at, code))
    requires forall c :: c in Contents(code) ==> c in IndexMap(Distinct(code))
    requires pool == StringPool(TableAt(d, at, Distinct(code)), name.0,
                                ReplaceLiterals(code, name.0, IndexMap(Distinct(code))))
    ensures (pool, name.1) == StringPassAt(d, at, code)
  {
    PoolWithParts(d, at, code, name, pool);
  }

  lemma PoolWithParts(d: nat -> nat, at: nat, code: string, name: (string, nat), pool: StringPool)
    requires forall c :: c in Contents(code) ==> c in IndexMap(Distinct(code))
    requires pool == StringPool(TableAt(d, at, Distinct(code)), name.0,
                                ReplaceLiterals(code, name.0, IndexMap(Distinct(code))))
    ensures PoolWith(d, at, code, name) == (pool, name.1)
  {
  }

  // ---------------------------------------------------------------------------
  // What the pool guarantees

  /** Call index `k` names the entry of content `c`: a key in [1, 255], the encoding of
      `c` under that key, and decoding it gives `c` back whenever its codes are below 512. */
  predicate NamesEntry(table: seq<Entry>, k: nat, c: string)
  {
    && 1 <= k <= |table|
    && 1 <= table[k - 1].key <= 255
    && table[k - 1] == EncodeEntry(c, table[k - 1].key)
    && (CodesBelow(c, 512) ==> DecodeEntry(table[k - 1]) == Some(c))
  }

  /** The rewritten code is the original with each literal replaced by the call
      `<decoder>(k)` on its own index `k`, and nothing else changed; `k` names the table
      entry of that literal's content. */
  lemma StringPoolCorrect(d: nat -> nat, at: nat, code: string)
    ensures var pool := StringPassAt(d, at, code).0;
      var ms := MatchesFrom(code, 0);
      var ks := CallsFrom(code, 0, PoolIndex(code));
      && code == Weave(Gaps(code, 0, ms), LiteralTexts(code, ms))
      && pool.code == Weave(Gaps(code, 0, ms), CallTexts(pool.decoder, ks))
      && |ks| == |ms| == |Contents(code)|
      && (forall i :: 0 <= i < |ks| ==> Contents(code)[i] == Content(code, ms[i]))
      && (forall i :: 0 <= i < |ks| ==> NamesEntry(pool.table, ks[i], Contents(code)[i]))
  {
    StringPoolWeave(d, at, code);
    var pool := StringPassAt(d, at, code).0;
    var ks := CallsFrom(code, 0, PoolIndex(code));
    forall i | 0 <= i < |ks|
      ensures NamesEntry(pool.table, ks[i], Contents(code)[i])
    {
      CallNamesEntry(d, at, code, i);
    }
  }

  /** The i-th call's index is the 1-based position of the i-th literal's content among the
      distinct contents, and it names that content's entry. */
  lemma CallNamesEntry(d: nat -> nat, at: nat, code: string, i: nat)
    requires i < |Contents(code)|
    ensures var pool := StringPassAt(d, at, code).0;
      var k := CallsFrom(code, 0, PoolIndex(code))[i];
      && 1 <= k <= |Dedup(Contents(code))|
      && Dedup(Contents(code))[k - 1] == Contents(code)[i]
      && NamesEntry(pool.table, k, Contents(code)[i])
  {
    var cs := Contents(code);
    var uniq := Dedup(cs);
    DedupProps(cs);
    var c := cs[i];
    assert c in uniq;
    var k := CallsFrom(code, 0, PoolIndex(code))[i];
    assert k == IndexMap(uniq)[c] + 1;
    PoolTable(d, at, code);
    TableEntry(d, at, uniq, k - 1);
  }

  lemma PoolTable(d: nat -> nat, at: nat, code: string)
    ensures StringPassAt(d, at, code).0.table == TableAt(d, at, Dedup(Contents(code)))
  {
  }

  /** Entry `j` of a table is named by call index `j + 1`. */
  lemma TableEntry(d: nat -> nat, at: nat, uniq: seq<string>, j: nat)
    requires j < |uniq|
    ensures NamesEntry(TableAt(d, at, uniq), j + 1, uniq[j])
  {
    var t := TableAt(d, at, uniq);
    if CodesBelow(uniq[j], 512) {
      EntryRoundTrip(uniq[j], t[j].key);
    }
  }

  /** The code is the text around its literals woven with the literals, and the rewritten
      code is the same text woven with the decoder calls, one per literal, in order. */
  lemma StringPoolWeave(d: nat -> nat, at: nat, code: string)
    ensures var pool := StringPassAt(d, at, code).0;
      var ms := MatchesFrom(code, 0);
      var ks := CallsFrom(code, 0, PoolIndex(code));
      && code == Weave(Gaps(code, 0, ms), LiteralTexts(code, ms))
      && pool.code == Weave(Gaps(code, 0, ms), CallTexts(pool.decoder, ks))
  {
    var ms := MatchesFrom(code, 0);
    SourceWeave(code, 0, ms);
    assert code[0..] == code;
    var pool := StringPassAt(d, at, code).0;
    PoolCode(d, at, code);
    ReplaceWeave(code, 0, pool.decoder, PoolIndex(code));
  }

  lemma PoolCode(d: nat -> nat, at: nat, code: string)
    ensures var pool := StringPassAt(d, at, code).0;
      pool.code == ReplaceFrom(code, 0, pool.decoder, PoolIndex(code))
  {
  }

  /** The table holds no content twice, and holds exactly the contents of the literals. */
  lemma TableDistinct(d: nat -> nat, at: nat, code: string)
    ensures var uniq := Dedup(Contents(code));
      && (forall i, j :: 0 <= i < j < |uniq| ==> uniq[i] != uniq[j])
      && (forall c :: c in uniq <==> c in Contents(code))
      && |StringPassAt(d, at, code).0.table| == |uniq|
  {
    DedupProps(Contents(code));
  }

  // ---------------------------------------------------------------------------
  // How the regular expression reads backslashes

  /** `"a\"b"`: the escape pair lets the inner quote through, and the content is `a\"b`. */
  lemma EscapedQuoteInside()
    ensures Contents("\"a\\\"b\"") == ["a\\\"b"]
  {
    var s := "\"a\\\"b\"";
    assert CloseAt(s, '"', 5) == Some(5);
    assert CloseAt(s, '"', 4) == Some(5);
    assert CloseAt(s, '"', 2) == Some(5);
    assert CloseAt(s, '"', 1) == Some(5);
    assert NextMatch(s, 0) == Some((0, 6));
    assert NextMatch(s, 6) == None;
    assert ContentsFrom(s, 6) == [];
    assert Content(s, (0, 6)) == "a\\\"b";
    assert ContentsFrom(s, 0) == [Content(s, (0, 6))] + ContentsFrom(s, 6);
  }

  /** `"a\"` at the end of a line: the escape pair finds no closing quote after it, so the
      expression backtracks, reads the backslash alone, and the quote after it closes the
      literal: the content is `a\`. */
  lemma TrailingBackslashCloses()
    ensures Contents("\"a\\\"") == ["a\\"]
  {
    var s := "\"a\\\"";
    assert CloseAt(s, '"', 4) == None;
    assert CloseAt(s, '"', 3) == Some(3);
    assert CloseAt(s, '"', 2) == Some(3);
    assert CloseAt(s, '"', 1) == Some(3);
    assert NextMatch(s, 0) == Some((0, 4));
    assert NextMatch(s, 4) == None;
    assert ContentsFrom(s, 4) == [];
    assert Content(s, (0, 4)) == "a\\";
    assert ContentsFrom(s, 0) == [Content(s, (0, 4))] + ContentsFrom(s, 4);
  }

  /** `'x'` and `"x"` share one entry: contents are compared without their quotes. */
  lemma QuotesShareEntry()
    ensures Contents("'x'\"x\"") == ["x", "x"]
    ensures Dedup(Contents("'x'\"x\"")) == ["x"]
  {
    var s := "'x'\"x\"";
    assert CloseAt(s, '\'', 2) == Some(2);
    assert CloseAt(s, '\'', 1) == Some(2);
    assert NextMatch(s, 0) == Some((0, 3));
    assert CloseAt(s, '"', 5) == Some(5);
    assert CloseAt(s, '"', 4) == Some(5);
    assert NextMatch(s, 3) == Some((3, 6));
    assert NextMatch(s, 6) == None;
    assert ContentsFrom(s, 6) == [];
    assert Content(s, (3, 6)) == "x" && Content(s, (0, 3)) == "x";
    assert ContentsFrom(s, 3) == [Content(s, (3, 6))] + ContentsFrom(s, 6);
    assert ContentsFrom(s, 0) == [Content(s, (0, 3))] + ContentsFrom(s, 3);
    assert Dedup(["x", "x"]) == ["x"] by {
      assert ["x", "x"][..1] == ["x"];
      assert ["x"][..0] == [];
    }
  }
}
