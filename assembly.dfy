/** Step 5 of `obfuscate` (obfuscator.js:345-423): the text built around the transformed
    code. A header, the `_S` table of encoded strings with its decoder (only when the table
    has entries), the anti-VM probe (with `antiVM`), and the state-machine loader (with
    `controlFlow`) that runs the code behind an opaque condition and a state comparison.

    The sections and the names and numbers they draw are a `Wrapper` value; `Render` spells
    it out. `WrapperAt` says which wrapper the draws from a position on produce. */
module Assembly {
  import opened Text
  import opened Utils
  import opened Names
  import opened Cipher
  import opened DeadCode
  import opened Literals

  function Header(): string
  {
    "--[[ Digital Rift Obfuscator v2.0 - Maximum Protection ]]\n" + "return(function(...)"
  }

  function Footer(): string { "end)(...)" }

  // ---------------------------------------------------------------------------
  // The `_S` table (obfuscator.js:349-355)

  /** `{"<encoded>",<key>}`. */
  function EntryText(e: Entry): string
  {
    "{\"" + e.encoded + "\"," + SignedDecimal(e.key) + "}"
  }

  /** The entry texts of a table, in order. */
  function EntryTexts(table: seq<Entry>): (r: seq<string>)
    ensures |r| == |table|
    ensures forall j :: 0 <= j < |table| ==> r[j] == EntryText(table[j])
  {
    seq(|table|, j requires 0 <= j < |table| => EntryText(table[j]))
  }

  /** The texts separated by commas. */
  function CommaJoin(ts: seq<string>): string
    decreases |ts|
  {
    if ts == [] then "" else if |ts| == 1 then ts[0] else ts[0] + ("," + CommaJoin(ts[1..]))
  }

  function TableOpen(): string { "\nlocal _S={" }

  function TableClose(): string { "}\n" }

  function TableText(table: seq<Entry>): string
  {
    TableOpen() + CommaJoin(EntryTexts(table)) + TableClose()
  }

  /** The texts from `i` on: the first, then a comma and the others when there are any. */
  lemma CommaJoinFrom(ts: seq<string>, i: nat)
    requires i < |ts|
    ensures i == |ts| - 1 ==> CommaJoin(ts[i..]) == ts[i] && ts[i + 1..] == []
    ensures i < |ts| - 1 ==> CommaJoin(ts[i..]) == ts[i] + ("," + CommaJoin(ts[i + 1..]))
  {
    assert ts[i..][1..] == ts[i + 1..];
  }

  /** The `stringTable.forEach` loop of obfuscator.js:351-354. */
  method BuildTable(table: seq<Entry>) returns (text: string)
    ensures text == TableText(table)
  {
    ghost var ts := EntryTexts(table);
    text := TableOpen();
    var i := 0;
    while i < |table|
      invariant i <= |table|
      invariant text + CommaJoin(ts[i..]) == TableOpen() + CommaJoin(ts)
    {
      CommaJoinFrom(ts, i);
      if i < |table| - 1 {
        AppendThree(text, ts[i], ",", CommaJoin(ts[i + 1..]));
      } else {
        AppendEmpty(text + ts[i]);
      }
      text := text + EntryText(table[i]);
      if i < |table| - 1 {
        text := text + ",";
      }
      i := i + 1;
    }
    assert ts[|table|..] == [];
    assert text + "" == text;
    text := text + TableClose();
  }

  lemma AppendThree(t: string, a: string, b: string, c: string)
    ensures t + (a + (b + c)) == ((t + a) + b) + c
  {
  }

  // ---------------------------------------------------------------------------
  // Reading the table back: the literal the decoder indexes, as a reader sees it.

  /** The first `"` at or after `i`, or the end. */
  function NextQuote(s: string, i: nat): (q: nat)
    requires i <= |s|
    ensures i <= q <= |s| && (q < |s| ==> s[q] == '"')
    decreases |s| - i
  {
    if i == |s| || s[i] == '"' then i else NextQuote(s, i + 1)
  }

  /** The end of the run of digits that starts at `i`. */
  function DigitsEnd(s: string, i: nat): (e: nat)
    requires i <= |s|
    ensures i <= e <= |s| && (e < |s| ==> !IsDigit(s[e]))
    decreases |s| - i
  {
    if i == |s| || !IsDigit(s[i]) then i else DigitsEnd(s, i + 1)
  }

  lemma {:induction false} DigitsEndDigits(s: string, i: nat)
    requires i <= |s|
    ensures AllDigits(s[i..DigitsEnd(s, i)])
    decreases |s| - i
  {
    if i < |s| && IsDigit(s[i]) {
      DigitsEndDigits(s, i + 1);
      assert s[i..DigitsEnd(s, i)] == [s[i]] + s[i + 1..DigitsEnd(s, i)];
    }
  }

  /** One `{"<text>",<digits>}` at the front of `s`: the entry and its length. */
  function ReadEntry(s: string): (r: Option<(Entry, nat)>)
    ensures r.Some? ==> 0 < r.value.1 <= |s|
  {
    if 2 <= |s| && s[0] == '{' && s[1] == '"' then
      var q := NextQuote(s, 2);
      if q + 1 < |s| && s[q + 1] == ',' then
        var e := DigitsEnd(s, q + 2);
        if q + 2 < e < |s| && s[e] == '}' then
          DigitsEndDigits(s, q + 2);
          Some((Entry(s[2..q], DecimalValue(s[q + 2..e])), e + 1))
        else None
      else None
    else None
  }

  /** A comma-separated list of entries making up all of `s`. */
  function ReadEntries(s: string): Option<seq<Entry>>
    decreases |s|
  {
    match ReadEntry(s)
    case None => None
    case Some(r) =>
      if r.1 == |s| then Some([r.0])
      else if s[r.1] == ',' then
        match ReadEntries(s[r.1 + 1..])
        case None => None
        case Some(es) => Some([r.0] + es)
      else None
  }

  /** The table section read back: its entries in order, or nothing if it is not one. */
  function ReadTable(t: string): Option<seq<Entry>>
  {
    var lo := |TableOpen()|;
    if |t| >= lo + |TableClose()| && t[..lo] == TableOpen() && t[|t| - |TableClose()|..] == TableClose() then
      var items := t[lo..|t| - |TableClose()|];
      if items == [] then Some([]) else ReadEntries(items)
    else None
  }

  /** What an entry needs for its text to read back: no quote inside the encoded text and
      a key written without a sign. The string pool's entries are like that (`PoolEntriesReadable`). */
  predicate Readable(e: Entry) { '"' !in e.encoded && e.key >= 0 }

  lemma NextQuoteAt(s: string, i: nat, q: nat)
    requires i <= q < |s| && s[q] == '"'
    requires forall k :: i <= k < q ==> s[k] != '"'
    ensures NextQuote(s, i) == q
    decreases q - i
  {
    if i < q {
      NextQuoteAt(s, i + 1, q);
    }
  }

  lemma DigitsEndAt(s: string, i: nat, e: nat)
    requires i <= e < |s| && !IsDigit(s[e])
    requires forall k :: i <= k < e ==> IsDigit(s[k])
    ensures DigitsEnd(s, i) == e
    decreases e - i
  {
    if i < e {
      DigitsEndAt(s, i + 1, e);
    }
  }

  /** An entry's text reads back as the entry, whatever follows it. */
  lemma ReadEntryText(e: Entry, rest: string)
    requires Readable(e)
    ensures ReadEntry(EntryText(e) + rest) == Some((e, |EntryText(e)|))
  {
    var digits := Decimal(e.key);
    ReadEntryParts(e.encoded, digits, rest);
    DecimalRoundTrip(e.key);
  }

  /** The text `{"<enc>",<digits>}` reads back as `enc` and the digits' value. */
  lemma ReadEntryParts(enc: string, digits: string, rest: string)
    requires '"' !in enc && |digits| >= 1 && AllDigits(digits)
    ensures var t := "{\"" + enc + "\"," + digits + "}";
      ReadEntry(t + rest) == Some((Entry(enc, DecimalValue(digits)), |t|))
  {
    var s := "{\"" + enc + "\"," + digits + "}" + rest;
    var q := 2 + |enc|;
    var end := q + 2 + |digits|;
    EntryLayout(enc, digits, rest);
    NextQuoteAt(s, 2, q);
    DigitsEndAt(s, q + 2, end);
  }

  lemma EntryLayout(enc: string, digits: string, rest: string)
    ensures var s := "{\"" + enc + "\"," + digits + "}" + rest;
      var q := 2 + |enc|;
      var end := q + 2 + |digits|;
      && end < |s| && s[0] == '{' && s[1] == '"' && s[2..q] == enc && s[q] == '"' && s[q + 1] == ','
      && s[q + 2..end] == digits && s[end] == '}'
  {
    var s := "{\"" + enc + "\"," + digits + "}" + rest;
    var q := 2 + |enc|;
    assert s[..q] == "{\"" + enc;
    assert s[2..q] == enc;
    assert s[q + 2..q + 2 + |digits|] == digits;
  }



  lemma ReadEntriesLast(s: string, e: Entry)
    requires ReadEntry(s) == Some((e, |s|))
    ensures ReadEntries(s) == Some([e])
  {
  }

  lemma ReadEntriesCons(s: string, n: nat, e: Entry, es: seq<Entry>)
    requires ReadEntry(s) == Some((e, n)) && n < |s| && s[n] == ','
    requires ReadEntries(s[n + 1..]) == Some(es)
    ensures ReadEntries(s) == Some([e] + es)
  {
  }

  lemma CommaParts(t: string, rest: string)
    ensures var s := t + ("," + rest); |t| < |s| && s[|t|] == ',' && s[|t| + 1..] == rest
  {
    var s := t + ("," + rest);
    assert s[|t| + 1..] == rest;
  }

  /** `s` starts with the text of `e`, `n` characters long. */
  predicate ReadsAs(s: string, e: Entry, n: nat)
  {
    ReadEntry(s) == Some((e, n))
  }

  /** Texts that each read back as their entry, whatever follows them, read back joined
      by commas as the list of those entries. */
  lemma {:induction false} ReadJoin(ts: seq<string>, es: seq<Entry>)
    requires |ts| == |es| > 0
    requires forall j, x :: 0 <= j < |ts| ==> ReadsAs(ts[j] + x, es[j], |ts[j]|)
    ensures ReadEntries(CommaJoin(ts)) == Some(es)
    decreases |ts|
  {
    if |ts| == 1 {
      ReadJoinOne(ts, es);
    } else {
      ReadJoin(ts[1..], es[1..]);
      ReadJoinStep(ts, es);
    }
  }

  lemma ReadJoinOne(ts: seq<string>, es: seq<Entry>)
    requires |ts| == |es| == 1
    requires ReadsAs(ts[0] + "", es[0], |ts[0]|)
    ensures ReadEntries(CommaJoin(ts)) == Some(es)
  {
    AppendEmpty(ts[0]);
    assert ReadsAs(ts[0], es[0], |ts[0]|);
    ReadEntriesLast(ts[0], es[0]);
    assert CommaJoin(ts) == ts[0];
    assert es == [es[0]];
  }

  lemma ReadJoinStep(ts: seq<string>, es: seq<Entry>)
    requires |ts| == |es| > 1
    requires ReadsAs(ts[0] + ("," + CommaJoin(ts[1..])), es[0], |ts[0]|)
    requires ReadEntries(CommaJoin(ts[1..])) == Some(es[1..])
    ensures ReadEntries(CommaJoin(ts)) == Some(es)
  {
    ReadCommaJoin(ts[0], CommaJoin(ts[1..]), es[0], es[1..]);
    assert es == [es[0]] + es[1..];
  }

  lemma ReadCommaJoin(t: string, rest: string, e: Entry, es: seq<Entry>)
    requires ReadEntry(t + ("," + rest)) == Some((e, |t|))
    requires ReadEntries(rest) == Some(es)
    ensures ReadEntries(t + ("," + rest)) == Some([e] + es)
  {
    CommaParts(t, rest);
    ReadEntriesCons(t + ("," + rest), |t|, e, es);
  }

  lemma AppendEmpty(t: string)
    ensures t + "" == t
  {
  }

  /** The table section lists exactly the table's entries, in order: reading it back gives
      the table. */
  lemma ReadTableText(table: seq<Entry>)
    requires forall j :: 0 <= j < |table| ==> Readable(table[j])
    ensures ReadTable(TableText(table)) == Some(table)
  {
    var ts := EntryTexts(table);
    var items := CommaJoin(ts);
    var t := TableText(table);
    var lo := |TableOpen()|;
    assert t[..lo] == TableOpen();
    assert t[|t| - |TableClose()|..] == TableClose();
    assert t[lo..|t| - |TableClose()|] == items;
    if table != [] {
      forall j, x | 0 <= j < |ts|
        ensures ReadsAs(ts[j] + x, table[j], |ts[j]|)
      {
        ReadEntryText(table[j], x);
      }
      ReadJoin(ts, table);
    }
  }

  lemma {:induction false} OctalQuoteFree(s: string)
    ensures '"' !in Octal(s)
    decreases |s|
  {
    if s != [] {
      OctalQuoteFree(s[1..]);
      var digits := Radix(s[0] as nat, 8);
      assert forall k :: 0 <= k < |digits| ==> IsWordChar(digits[k]);
      assert '"' !in PadZeros(digits, 3);
    }
  }

  /** Every entry of the string pool reads back: its encoded text is octal escapes and its
      key is in [1, 255]. */
  lemma PoolEntriesReadable(d: nat -> nat, at: nat, uniq: seq<string>)
    ensures var t := TableAt(d, at, uniq); forall j :: 0 <= j < |t| ==> Readable(t[j])
  {
    var t := TableAt(d, at, uniq);
    forall j | 0 <= j < |t| ensures Readable(t[j]) {
      OctalQuoteFree(XorString(uniq[j], t[j].key));
    }
  }

  // ---------------------------------------------------------------------------
  // The sections

  /** The names the decoder draws, in the order of obfuscator.js:358-361. */
  datatype DecoderNames = DecoderNames(xorVar: string, resultVar: string, iVar: string, decodedVar: string)

  /** The names the anti-VM probe draws (obfuscator.js:388-389). */
  datatype Probe = Probe(checkVar: string, timeVar: string)

  /** The loader's names and the two numbers and the condition it draws (obfuscator.js:398-408). */
  datatype Control = Control(stateVar: string, loaderVar: string, execVar: string, state: int, exec: int, guard: Pred)

  /** The whole wrapper: the table, the decoder's name, each optional section, and the code. */
  datatype Wrapper = Wrapper(
    table: seq<Entry>,
    decoderName: string,
    decoder: Option<DecoderNames>,
    probe: Option<Probe>,
    control: Option<Control>,
    body: string)

  /** Line `k` of the decoder `f` (obfuscator.js:363-383 append them one by one). */
  function DecoderLine(f: string, n: DecoderNames, k: nat): string
  {
    match k
    case 0 => "local function " + f + "(" + n.iVar + ")\n"
    case 1 => "local " + n.xorVar + "=_S[" + n.iVar + "]\n"
    case 2 => "if not " + n.xorVar + " then return \"\"end\n"
    case 3 => "local " + n.resultVar + "=\"\"\n"
    case 4 => "local " + n.decodedVar + "=" + n.xorVar + "[1]\n"
    case 5 => "for " + n.iVar + "=1,#" + n.decodedVar + ",4 do\n"
    case 6 => "local _c=0\n"
    case 7 => "for _j=0,3 do\n"
    case 8 => "if " + n.iVar + "+_j<=#" + n.decodedVar + " then\n"
    case 9 => "local c=string.byte(" + n.decodedVar + "," + n.iVar + "+_j)\n"
    case 10 => "_c=_c*8+(c-48)\n"
    case 11 => "end end\n"
    case 12 => n.resultVar + "=" + n.resultVar + "..string.char(_c)\n"
    case 13 => "end\n"
    case 14 => "local _k=" + n.xorVar + "[2]\n"
    case 15 => "local _r=\"\"\n"
    case 16 => "for " + n.iVar + "=1,#" + n.resultVar + " do\n"
    case 17 => "_r=_r..string.char(bit32.bxor(string.byte(" + n.resultVar + "," + n.iVar + "),_k))\n"
    case 18 => "end\n"
    case 19 => "return _r\n"
    case _ => "end\n"
  }

  /** The decoder's lines from `k` on. */
  function DecoderFrom(f: string, n: DecoderNames, k: nat): string
    decreases 21 - k
  {
    if k >= 21 then "" else DecoderLine(f, n, k) + DecoderFrom(f, n, k + 1)
  }

  function DecoderText(f: string, n: DecoderNames): string { DecoderFrom(f, n, 0) }

  /** Line `k` of the anti-VM probe (obfuscator.js:390-393). */
  function ProbeLine(p: Probe, k: nat): string
  {
    match k
    case 0 => "local " + p.checkVar + "=pcall(function()return game:GetService(\"CoreGui\")end)\n"
    case 1 => "if not " + p.checkVar + " then return end\n"
    case 2 => "local " + p.timeVar + "=tick()\n"
    case _ => "if tick()-" + p.timeVar + ">0.1 then return end\n"
  }

  function ProbeFrom(p: Probe, k: nat): string
    decreases 4 - k
  {
    if k >= 4 then "" else ProbeLine(p, k) + ProbeFrom(p, k + 1)
  }

  function ProbeText(p: Probe): string { ProbeFrom(p, 0) }

  /** Line `k` of the loader up to the code it guards (obfuscator.js:403-410), with the
      state variable `sv`, the loader `lv`, the compared variable `ev` and the condition `guard`. */
  function OpenLine(sv: string, lv: string, ev: string, state: int, exec: int, guard: string, k: nat): string
  {
    match k
    case 0 => "local " + sv + "=" + SignedDecimal(state) + "\n"
    case 1 => "local " + ev + "=" + SignedDecimal(exec) + "\n"
    case 2 => "local " + lv + "=function()\n"
    case 3 => "if " + guard + " then\n"
    case _ => "if " + sv + ">" + ev + " then\n"
  }

  function OpenFrom(sv: string, lv: string, ev: string, state: int, exec: int, guard: string, k: nat): string
    decreases 5 - k
  {
    if k >= 5 then "" else OpenLine(sv, lv, ev, state, exec, guard, k) + OpenFrom(sv, lv, ev, state, exec, guard, k + 1)
  }

  /** The loader up to the code it guards. */
  function ControlOpen(c: Control): string
  {
    OpenFrom(c.stateVar, c.loaderVar, c.execVar, c.state, c.exec, RenderPred(c.guard), 0)
  }

  /** Line `k` of the loader after the code (obfuscator.js:415-420): the `else` branch
      raises `msg`, which is `Invalid state` written in escapes. */
  function CloseLine(msg: string, loaderVar: string, k: nat): string
  {
    match k
    case 0 => "\nend\n"
    case 1 => "else\n"
    case 2 => "error(\"" + msg + "\")\n"
    case 3 => "end\n"
    case 4 => "end\n"
    case _ => "return " + loaderVar + "()\n"
  }

  function CloseFrom(msg: string, loaderVar: string, k: nat): string
    decreases 6 - k
  {
    if k >= 6 then "" else CloseLine(msg, loaderVar, k) + CloseFrom(msg, loaderVar, k + 1)
  }

  function LoaderClose(msg: string, loaderVar: string): string { CloseFrom(msg, loaderVar, 0) }

  function ControlClose(c: Control): string { LoaderClose(Octal("Invalid state"), c.loaderVar) }

  /** The table and decoder section, empty without a decoder. */
  function DecoderSectionText(table: seq<Entry>, decoderName: string, dn: Option<DecoderNames>): string
  {
    if dn.Some? then TableText(table) + DecoderText(decoderName, dn.value) else ""
  }

  function ProbeSectionText(pr: Option<Probe>): string
  {
    if pr.Some? then ProbeText(pr.value) else ""
  }

  function ControlSectionText(cf: Option<Control>): string
  {
    if cf.Some? then ControlOpen(cf.value) else ""
  }

  function DecoderPart(w: Wrapper): string { DecoderSectionText(w.table, w.decoderName, w.decoder) }

  function ProbePart(w: Wrapper): string { ProbeSectionText(w.probe) }

  function ControlPart(w: Wrapper): string { ControlSectionText(w.control) }

  /** The sections, each empty when it is left out. */
  function Sections(w: Wrapper): string
  {
    DecoderPart(w) + ProbePart(w) + ControlPart(w)
  }

  /** Everything before the code, section after section as obfuscator.js:345-403 appends them. */
  function Prelude(w: Wrapper): string
  {
    Header() + Sections(w)
  }

  /** The rest of the loader after the code, or nothing without a loader. */
  function Closing(w: Wrapper): string
  {
    if w.control.Some? then ControlClose(w.control.value) else ""
  }

  /** The prelude, the code, the rest of the loader when there is one, and the closing call. */
  function Render(w: Wrapper): string
  {
    Prelude(w) + w.body + Closing(w) + Footer()
  }

  // ---------------------------------------------------------------------------
  // The draws

  function DecoderNamesAt(d: nat -> nat, at: nat): (r: (DecoderNames, nat))
    ensures r.1 >= at + 4
  {
    var x := VarNameAt(d, at);
    var res := VarNameAt(d, x.1);
    var i := VarNameAt(d, res.1);
    var dec := VarNameAt(d, i.1);
    (DecoderNames(x.0, res.0, i.0, dec.0), dec.1)
  }

  function ProbeAt(d: nat -> nat, at: nat): (r: (Probe, nat))
    ensures r.1 >= at + 2
  {
    var c := VarNameAt(d, at);
    var t := VarNameAt(d, c.1);
    (Probe(c.0, t.0), t.1)
  }

  /** The loader's draws: three names, the state in [10000, 99999], the value it is compared
      with in [1000, 9999], then an "always true" condition. The comparison always holds. */
  function ControlAt(d: nat -> nat, at: nat): (r: (Control, nat))
    ensures 10000 <= r.0.state <= 99999 && 1000 <= r.0.exec <= 9999
    ensures r.0.state > r.0.exec
    ensures r.1 >= at + 15
  {
    var s := VarNameAt(d, at);
    var l := VarNameAt(d, s.1);
    var e := VarNameAt(d, l.1);
    var g := OpaqueAt(d, e.1 + 2, true);
    (Control(s.0, l.0, e.0, Pick(d(e.1), 10000, 99999), Pick(d(e.1 + 1), 1000, 9999), g.0), g.1)
  }

  /** The wrapper the draws from `at` on produce, and the next unused draw: the decoder
      section exactly when the table has entries, the probe exactly with `antiVM`, and the
      loader exactly with `controlFlow`, around the code unchanged. */
  function WrapperAt(d: nat -> nat, at: nat, table: seq<Entry>, decoderName: string, body: string,
                     antiVM: bool, controlFlow: bool): (r: (Wrapper, nat))
    ensures r.0.table == table && r.0.decoderName == decoderName && r.0.body == body
    ensures r.0.decoder.Some? <==> |table| > 0
    ensures r.0.probe.Some? <==> antiVM
    ensures r.0.control.Some? <==> controlFlow
    ensures r.0.control.Some? ==> r.0.control.value.state > r.0.control.value.exec
    ensures r.1 >= at
  {
    var dn := DecoderStage(d, at, table);
    var pr := ProbeStage(d, dn.1, antiVM);
    var cf := ControlStage(d, pr.1, controlFlow);
    (Wrapper(table, decoderName, dn.0, pr.0, cf.0, body), cf.1)
  }

  /** The decoder's names when the table has entries, and the next unused draw. */
  function DecoderStage(d: nat -> nat, at: nat, table: seq<Entry>): (r: (Option<DecoderNames>, nat))
    ensures r.0.Some? <==> |table| > 0
    ensures r.1 >= at
  {
    if |table| > 0 then var n := DecoderNamesAt(d, at); (Some(n.0), n.1) else (None, at)
  }

  function ProbeStage(d: nat -> nat, at: nat, antiVM: bool): (r: (Option<Probe>, nat))
    ensures r.0.Some? <==> antiVM
    ensures r.1 >= at
  {
    if antiVM then var p := ProbeAt(d, at); (Some(p.0), p.1) else (None, at)
  }

  function ControlStage(d: nat -> nat, at: nat, controlFlow: bool): (r: (Option<Control>, nat))
    ensures r.0.Some? <==> controlFlow
    ensures r.0.Some? ==> r.0.value.state > r.0.value.exec
    ensures r.1 >= at
  {
    if controlFlow then var c := ControlAt(d, at); (Some(c.0), c.1) else (None, at)
  }


  // ---------------------------------------------------------------------------
  // The steps, drawing in the source's order

  method DrawDecoderNames(rng: RandomSource) returns (n: DecoderNames)
    modifies rng
    ensures (n, rng.used) == DecoderNamesAt(rng.draws, old(rng.used))
  {
    var xorVar := GenerateVarName(rng);
    var resultVar := GenerateVarName(rng);
    var iVar := GenerateVarName(rng);
    var decodedVar := GenerateVarName(rng);
    n := DecoderNames(xorVar, resultVar, iVar, decodedVar);
  }

  method DrawProbe(rng: RandomSource) returns (p: Probe)
    modifies rng
    ensures (p, rng.used) == ProbeAt(rng.draws, old(rng.used))
  {
    var checkVar := GenerateVarName(rng);
    var timeVar := GenerateVarName(rng);
    p := Probe(checkVar, timeVar);
  }

  method DrawControl(rng: RandomSource) returns (ghost c: Control, open: string, loaderVar: string)
    modifies rng
    ensures (c, rng.used) == ControlAt(rng.draws, old(rng.used))
    ensures open == ControlOpen(c) && loaderVar == c.loaderVar
  {
    var stateVar := GenerateVarName(rng);
    loaderVar := GenerateVarName(rng);
    var execVar := GenerateVarName(rng);
    var state := rng.Int(10000, 99999);
    var exec := rng.Int(1000, 9999);
    ghost var at := rng.used;
    var guard := OpaquePredicate(rng, true);
    ghost var g := OpaqueAt(rng.draws, at, true).0;
    c := Control(stateVar, loaderVar, execVar, state, exec, g);
    open := OpenFrom(stateVar, loaderVar, execVar, state, exec, guard, 0);
  }


  /** The `_S` table and the decoder when the table has entries (obfuscator.js:348-384). */
  method DecoderSection(rng: RandomSource, table: seq<Entry>, decoderName: string) returns (text: string)
    modifies rng
    ensures var (dn, next) := DecoderStage(rng.draws, old(rng.used), table);
      text == DecoderSectionText(table, decoderName, dn) && rng.used == next
  {
    text := "";
    if |table| > 0 {
      var t := BuildTable(table);
      var n := DrawDecoderNames(rng);
      text := t + DecoderText(decoderName, n);
    }
  }

  /** The anti-VM probe with `antiVM` (obfuscator.js:386-394). */
  method ProbeSection(rng: RandomSource, antiVM: bool) returns (text: string)
    modifies rng
    ensures var (pr, next) := ProbeStage(rng.draws, old(rng.used), antiVM);
      text == ProbeSectionText(pr) && rng.used == next
  {
    text := "";
    if antiVM {
      var p := DrawProbe(rng);
      text := ProbeText(p);
    }
  }

  /** The loader up to the code with `controlFlow` (obfuscator.js:397-410), and its name. */
  method ControlSection(rng: RandomSource, controlFlow: bool) returns (text: string, loaderVar: string)
    modifies rng
    ensures var (cf, next) := ControlStage(rng.draws, old(rng.used), controlFlow);
      text == ControlSectionText(cf) && rng.used == next && (cf.Some? ==> loaderVar == cf.value.loaderVar)
  {
    text, loaderVar := "", "";
    if controlFlow {
      ghost var c;
      c, text, loaderVar := DrawControl(rng);
    }
  }

  /** The sections before the code (obfuscator.js:345-410), and the loader's name when
      there is a loader. */
  method AssemblePrelude(rng: RandomSource, table: seq<Entry>, decoderName: string, body: string,
                         antiVM: bool, controlFlow: bool) returns (out: string, loaderVar: string)
    modifies rng
    ensures var (w, next) := WrapperAt(rng.draws, old(rng.used), table, decoderName, body, antiVM, controlFlow);
      out == Prelude(w) && rng.used == next && (w.control.Some? ==> loaderVar == w.control.value.loaderVar)
  {
    var decoder := DecoderSection(rng, table, decoderName);
    var probe := ProbeSection(rng, antiVM);
    var open;
    open, loaderVar := ControlSection(rng, controlFlow);
    out := Header() + (decoder + probe + open);
  }

  /** Step 5 of `obfuscate` (obfuscator.js:345-423): the header, the table and decoder when
      the table has entries, the probe, then the loader around the code or the code alone,
      and the closing call. */
  method Assemble(rng: RandomSource, table: seq<Entry>, decoderName: string, body: string,
                  antiVM: bool, controlFlow: bool) returns (out: string)
    modifies rng
    ensures var (w, next) := WrapperAt(rng.draws, old(rng.used), table, decoderName, body, antiVM, controlFlow);
      out == Render(w) && rng.used == next
  {
    var loaderVar;
    out, loaderVar := AssemblePrelude(rng, table, decoderName, body, antiVM, controlFlow);
    if controlFlow {
      var msg := EncodeToOctal("Invalid state");
      out := out + body + LoaderClose(msg, loaderVar);
    } else {
      out := out + body;
      AppendEmpty(out);
    }
    out := out + Footer();
  }

  // ---------------------------------------------------------------------------
  // What the wrapper guarantees

  lemma StartsWithAppend(a: string, x: string, h: string)
    requires StartsWith(a, h)
    ensures StartsWith(a + x, h)
  {
    assert (a + x)[..|h|] == a[..|h|];
  }

  lemma StartsWithSelf(h: string)
    ensures StartsWith(h, h)
  {
  }

  lemma PreludeHeader(w: Wrapper)
    ensures StartsWith(Prelude(w), Header())
  {
    StartsWithSelf(Header());
    StartsWithAppend(Header(), Sections(w), Header());
  }

  lemma FrameParts(p: string, b: string, c: string, f: string, h: string)
    requires StartsWith(p, h)
    ensures var r := p + b + c + f;
      StartsWith(r, h) && OccursAt(r, b, |p|) && |r| >= |f| && r[|r| - |f|..] == f
  {
    var r := p + b + c + f;
    assert r == p + (b + c + f);
    StartsWithAppend(p, b + c + f, h);
    assert r[|p|..|p| + |b|] == b;
    assert r == (p + b + c) + f;
  }

  /** The output opens with the header, closes with the call `end)(...)`, and holds the code
      unchanged right after the prelude. */
  lemma RenderFrame(w: Wrapper)
    ensures StartsWith(Render(w), Header())
    ensures OccursAt(Render(w), w.body, |Prelude(w)|)
    ensures |Render(w)| >= |Footer()| && Render(w)[|Render(w)| - |Footer()|..] == Footer()
  {
    PreludeHeader(w);
    FrameParts(Prelude(w), w.body, Closing(w), Footer(), Header());
  }

  /** The table the wrapper carries is the one the pool built, and the section reads back as
      it, entry for entry. */
  lemma WrapperTableReadsBack(d: nat -> nat, at: nat, uniq: seq<string>, decoderName: string,
                              body: string, antiVM: bool, controlFlow: bool, wat: nat)
    requires |uniq| > 0
    ensures var w := WrapperAt(d, wat, TableAt(d, at, uniq), decoderName, body, antiVM, controlFlow).0;
      w.decoder.Some? && ReadTable(TableText(w.table)) == Some(TableAt(d, at, uniq))
  {
    PoolEntriesReadable(d, at, uniq);
    ReadTableText(TableAt(d, at, uniq));
  }

  /** With the first two draws 0, the name is `_` and six characters, eight draws in all. */
  lemma VarNameZero(d: nat -> nat, at: nat)
    requires d(at) == 0 && d(at + 1) == 0
    ensures VarNameAt(d, at).1 == at + 8
  {
    assert Templates[Pick(d(at), 0, 3)] == Underscored;
  }

  /** Through the false first candidate of `generateOpaquePredicate(true)` (obfuscator.js:185),
      the loader's condition can be false; the loaded code then never runs and the loader
      raises `Invalid state` instead. It happens whenever the loader's names are each `_`
      and six characters and the condition's draws pick `(5 * 2) > 10`. */
  lemma LoaderCanRefuse(d: nat -> nat)
    requires d(0) == 0 && d(1) == 0 && d(8) == 0 && d(9) == 0 && d(16) == 0 && d(17) == 0
    requires d(26) == 0 && d(27) == 0 && d(28) == 9 && d(35) == 0
    ensures var c := ControlAt(d, 0).0;
      c.guard == ProductAbove(5, 2, 10) && !Eval(c.guard)
  {
    ThreeNamesZero(d, 0);
    ControlGuard(d, 0);
    FirstCandidate(d, 26);
  }

  /** Three such names in a row take twenty-four draws. */
  lemma ThreeNamesZero(d: nat -> nat, at: nat)
    requires d(at) == 0 && d(at + 1) == 0 && d(at + 8) == 0 && d(at + 9) == 0
    requires d(at + 16) == 0 && d(at + 17) == 0
    ensures VarNameAt(d, VarNameAt(d, VarNameAt(d, at).1).1).1 == at + 24
  {
    VarNameZero(d, at);
    VarNameZero(d, at + 8);
    VarNameZero(d, at + 16);
  }

  /** With the pick for the candidate 0, the "always true" list gives its first entry. */
  lemma FirstCandidate(d: nat -> nat, at: nat)
    requires d(at) == 0 && d(at + 1) == 0 && d(at + 2) == 9 && d(at + 9) == 0
    ensures OpaqueAt(d, at, true).0 == ProductAbove(5, 2, 10)
    ensures !Eval(ProductAbove(5, 2, 10))
  {
  }

  /** The loader's condition is drawn right after its three names and two numbers. */
  lemma ControlGuard(d: nat -> nat, at: nat)
    ensures ControlAt(d, at).0.guard == OpaqueAt(d, VarNameAt(d, VarNameAt(d, VarNameAt(d, at).1).1).1 + 2, true).0
  {
  }
}
