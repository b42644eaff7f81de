// The `LuauObfuscator` class of assets/js/core/obfuscator.js: its options, the maps it
// keeps between runs, the five passes of `obfuscate` chained in order, the statistics it
// reports and `reset`.

module Obfuscator {
  import opened Text
  import opened Utils
  import opened Names
  import opened Literals
  import opened Renamer
  import opened DeadCode
  import Constants
  import Assembly
  import Minifier
  import Cipher

  // ---------------------------------------------------------------------------
  // Options

  /** The options object handed to the constructor: `None` for a property that is absent
      (or holds something other than a boolean). */
  datatype Flags = Flags(renameVariables: Option<bool>, encryptStrings: Option<bool>,
                         controlFlow: Option<bool>, deadCode: Option<bool>,
                         wrapConstants: Option<bool>, antiVM: Option<bool>)

  /** `this.options` once resolved. */
  datatype Options = Options(renameVariables: bool, encryptStrings: bool, controlFlow: bool,
                             deadCode: bool, wrapConstants: bool, antiVM: bool)

  /** obfuscator.js:11-18: the first three options are on unless set to `false`, the last
      three are off unless set to `true`. */
  function Resolve(f: Flags): (o: Options)
    ensures f.renameVariables.Some? ==> o.renameVariables == f.renameVariables.value
    ensures f.encryptStrings.Some? ==> o.encryptStrings == f.encryptStrings.value
    ensures f.controlFlow.Some? ==> o.controlFlow == f.controlFlow.value
    ensures f.deadCode.Some? ==> o.deadCode == f.deadCode.value
    ensures f.wrapConstants.Some? ==> o.wrapConstants == f.wrapConstants.value
    ensures f.antiVM.Some? ==> o.antiVM == f.antiVM.value
    ensures f.renameVariables.None? ==> o.renameVariables
    ensures f.encryptStrings.None? ==> o.encryptStrings
    ensures f.controlFlow.None? ==> o.controlFlow
    ensures f.deadCode.None? ==> !o.deadCode
    ensures f.wrapConstants.None? ==> !o.wrapConstants
    ensures f.antiVM.None? ==> !o.antiVM
  {
    Options(f.renameVariables != Some(false), f.encryptStrings != Some(false),
            f.controlFlow != Some(false), f.deadCode == Some(true),
            f.wrapConstants == Some(true), f.antiVM == Some(true))
  }

  /** `new LuauObfuscator()` renames, encodes and flattens, and does nothing else. */
  lemma ResolveDefaults()
    ensures Resolve(Flags(None, None, None, None, None, None)) == Options(true, true, true, false, false, false)
  {
  }

  // ---------------------------------------------------------------------------
  // What `obfuscate` returns

  /** The `stats` object, without `executionTime`; `complexityIncrease` is the rounded
      percentage, `None` where the source divides by an empty input's length. */
  datatype Stats = Stats(originalLength: nat, obfuscatedLength: nat, variablesRenamed: nat,
                         functionsRenamed: nat, stringsEncoded: nat, complexityIncrease: Option<int>)

  datatype Output = Output(code: string, stats: Stats)

  /** One run as a function of the draws: the output, the two maps and the next draw. */
  datatype Run = Run(output: Output, variableMap: map<string, string>, functionMap: map<string, string>, next: nat)

  /** `p` is `out / original * 100` rounded half up. */
  predicate RoundedPercent(p: int, original: nat, out: nat)
  {
    2 * original * p <= 200 * out + original < 2 * original * (p + 1)
  }

  /** `Math.round(out / original * 100)`, or `None` when the original is empty. */
  function Complexity(original: nat, out: nat): (r: Option<int>)
    ensures r.None? <==> original == 0
    ensures r.Some? ==> RoundedPercent(r.value, original, out)
  {
    if original == 0 then None else Some(RoundDiv(100 * out, original))
  }

  // ---------------------------------------------------------------------------
  // The passes of `obfuscate` as functions of the draws

  /** Step 2 (obfuscator.js:265-298): the variables collected from the code are renamed one
      after the other, then the `function` declarations found by the scan; both maps keep
      their entries from earlier runs. Skipped when `renameVariables` is off. */
  function RenameStageAt(d: nat -> nat, at: nat, rename: bool, vm: map<string, string>,
                         fm: map<string, string>, code: string, decoder: string)
    : (r: (map<string, string>, map<string, string>, string, nat))
    requires AllGenerated(fm)
    ensures !rename ==> r == (vm, fm, code, at)
  {
    if !rename then (vm, fm, code, at)
    else
      var vars := Variables(code, decoder);
      VariablesProps(code, decoder);
      var v := RenameVarsAt(d, at, vars, vm, code);
      var f := RenameFunctionsAt(d, v.2, fm, v.1, 0);
      (v.0, f.0, f.1, f.2)
  }

  /** Step 3 (obfuscator.js:301-323), when `deadCode` is on. */
  function DeadCodeStageAt(d: nat -> nat, at: nat, on: bool, code: string): (r: (string, nat))
    ensures !on ==> r == (code, at)
  {
    if on then DeadCodePassAt(d, at, code) else (code, at)
  }

  /** Step 4 (obfuscator.js:326-342), when `wrapConstants` is on. */
  function ConstantsStageAt(d: nat -> nat, at: nat, on: bool, code: string): (r: (string, nat))
    ensures !on ==> r == (code, at)
  {
    if on then Constants.ConstantsAt(d, at, code) else (code, at)
  }

  /** Step 3 as the source runs it: `if (this.options.deadCode)`. */
  method DeadCodeStage(rng: RandomSource, on: bool, code: string) returns (out: string)
    modifies rng
    ensures (out, rng.used) == DeadCodeStageAt(rng.draws, old(rng.used), on, code)
  {
    out := code;
    if on {
      out := InjectDeadCode(rng, code);
    }
  }

  /** Step 4 as the source runs it: `if (this.options.wrapConstants)`. */
  method ConstantsStage(rng: RandomSource, on: bool, code: string) returns (out: string)
    modifies rng
    ensures (out, rng.used) == ConstantsStageAt(rng.draws, old(rng.used), on, code)
  {
    out := code;
    if on {
      out := Constants.WrapConstants(rng, code);
    }
  }

  /** Steps 3 to 6 (obfuscator.js:301-453) on the renamed code: dead code, constants, the
      assembled output, then the minifier; with the next unused draw. */
  function FinishAt(o: Options, d: nat -> nat, at: nat, table: seq<Cipher.Entry>, decoder: string, code: string)
    : (r: (string, nat))
    ensures r.1 >= at
  {
    var (c3, n3) := DeadCodeStageAt(d, at, o.deadCode, code);
    var (c4, n4) := ConstantsStageAt(d, n3, o.wrapConstants, c3);
    var (w, n5) := Assembly.WrapperAt(d, n4, table, decoder, c4, o.antiVM, o.controlFlow);
    (Minifier.MinifyText(Assembly.Render(w)), n5)
  }

  /** Steps 3 to 6 as the source runs them. */
  method Finish(rng: RandomSource, o: Options, table: seq<Cipher.Entry>, decoder: string, code: string)
    returns (out: string)
    modifies rng
    ensures (out, rng.used) == FinishAt(o, rng.draws, old(rng.used), table, decoder, code)
  {
    ghost var at := rng.used;
    var c3 := DeadCodeStage(rng, o.deadCode, code);
    ghost var n3 := rng.used;
    var c4 := ConstantsStage(rng, o.wrapConstants, c3);
    ghost var n4 := rng.used;
    var wrapped := Assembly.Assemble(rng, table, decoder, c4, o.antiVM, o.controlFlow);
    out := Minifier.Minify(wrapped);
    FinishParts(o, rng.draws, at, table, decoder, code, c3, n3, c4, n4, wrapped, rng.used, out);
  }

  lemma FinishParts(o: Options, d: nat -> nat, at: nat, table: seq<Cipher.Entry>, decoder: string, code: string,
                    c3: string, n3: nat, c4: string, n4: nat, wrapped: string, n5: nat, out: string)
    requires (c3, n3) == DeadCodeStageAt(d, at, o.deadCode, code)
    requires (c4, n4) == ConstantsStageAt(d, n3, o.wrapConstants, c3)
    requires var (w, next) := Assembly.WrapperAt(d, n4, table, decoder, c4, o.antiVM, o.controlFlow);
      wrapped == Assembly.Render(w) && n5 == next
    requires out == Minifier.MinifyText(wrapped)
    ensures (out, n5) == FinishAt(o, d, at, table, decoder, code)
  {
  }

  /** `obfuscate(code)` (obfuscator.js:230-468) on the draws from `at` on, with the maps the
      object holds before the call. */
  function ObfuscateAt(o: Options, d: nat -> nat, at: nat, vm: map<string, string>,
                       fm: map<string, string>, code: string): (r: Run)
    requires AllGenerated(fm)
    ensures r.output.stats.originalLength == |code|
    ensures r.output.stats.obfuscatedLength == |r.output.code|
    ensures r.output.stats.variablesRenamed == |r.variableMap|
    ensures r.output.stats.functionsRenamed == |r.functionMap|
    ensures r.output.stats.stringsEncoded == |StringPassAt(d, at, code).0.table|
    ensures r.output.stats.complexityIncrease == Complexity(|code|, |r.output.code|)
  {
    var (pool, n1) := StringPassAt(d, at, code);
    var (vm2, fm2, c2, n2) := RenameStageAt(d, n1, o.renameVariables, vm, fm, pool.code, pool.decoder);
    var (out, n5) := FinishAt(o, d, n2, pool.table, pool.decoder, c2);
    var stats := Stats(|code|, |out|, |vm2|, |fm2|, |pool.table|, Complexity(|code|, |out|));
    Run(Output(out, stats), vm2, fm2, n5)
  }

  /** The results of the passes, each computed from the previous one, make up a run. */
  lemma ObfuscateParts(o: Options, d: nat -> nat, at: nat, vm: map<string, string>, fm: map<string, string>,
                       code: string, pool: StringPool, n1: nat, vm2: map<string, string>,
                       fm2: map<string, string>, c2: string, n2: nat, out: string, n5: nat, result: Output)
    requires AllGenerated(fm)
    requires (pool, n1) == StringPassAt(d, at, code)
    requires (vm2, fm2, c2, n2) == RenameStageAt(d, n1, o.renameVariables, vm, fm, pool.code, pool.decoder)
    requires (out, n5) == FinishAt(o, d, n2, pool.table, pool.decoder, c2)
    requires result == Output(out, Stats(|code|, |out|, |vm2|, |fm2|, |pool.table|, Complexity(|code|, |out|)))
    ensures ObfuscateAt(o, d, at, vm, fm, code) == Run(result, vm2, fm2, n5)
  {
  }

  // ---------------------------------------------------------------------------
  // The object

  class LuauObfuscator {
    const options: Options
    /** The source of `Random.int` and `Random.choice`. */
    const rng: RandomSource
    var variableMap: map<string, string>
    var functionMap: map<string, string>
    /** Never written by `obfuscate`, which fills a local map of its own; only cleared. */
    var stringMap: map<string, nat>
    var obfuscationId: string

    /** Every name either map hands out is one `generateVarName` can produce. */
    ghost predicate Valid()
      reads this
    {
      AllGenerated(variableMap) && AllGenerated(functionMap)
    }

    /** obfuscator.js:10-24. */
    constructor (flags: Flags, rng: RandomSource)
      modifies rng
      ensures Valid()
      ensures options == Resolve(flags) && this.rng == rng
      ensures variableMap == map[] && functionMap == map[] && stringMap == map[]
      ensures obfuscationId == IdAt(rng.draws, old(rng.used), 8) && rng.used == old(rng.used) + 8
    {
      var id := GenerateId(rng, 8);
      options := Resolve(flags);
      this.rng := rng;
      variableMap := map[];
      functionMap := map[];
      stringMap := map[];
      obfuscationId := id;
    }

    /** The `variables.forEach` loop (obfuscator.js:278-285). */
    method RenameVariables(vars: seq<string>, code: string) returns (out: string)
      requires forall v :: v in vars ==> IsIdentifier(v)
      requires Valid()
      modifies this, rng
      ensures Valid()
      ensures (variableMap, out, rng.used) == RenameVarsAt(rng.draws, old(rng.used), vars, old(variableMap), code)
      ensures functionMap == old(functionMap) && stringMap == old(stringMap) && obfuscationId == old(obfuscationId)
    {
      out := code;
      var i := 0;
      while i < |vars|
        invariant i <= |vars| && Valid()
        invariant functionMap == old(functionMap) && stringMap == old(stringMap) && obfuscationId == old(obfuscationId)
        invariant RenameVarsAt(rng.draws, rng.used, vars[i..], variableMap, out)
          == RenameVarsAt(rng.draws, old(rng.used), vars, old(variableMap), code)
      {
        var v := vars[i];
        if v !in variableMap {
          var name := GenerateVarName(rng);
          variableMap := variableMap[v := name];
        }
        var newName := variableMap[v];
        out := ReplaceWord(out, v, newName);
        assert vars[i..][1..] == vars[i + 1..];
        i := i + 1;
      }
    }

    /** The `funcRegex.exec` loop (obfuscator.js:288-297): the scan resumes on the rewritten
        code at the end of the previous match. */
    method RenameFunctions(code: string) returns (out: string)
      requires Valid()
      modifies this, rng
      ensures Valid()
      ensures (functionMap, out, rng.used) == RenameFunctionsAt(rng.draws, old(rng.used), old(functionMap), code, 0)
      ensures variableMap == old(variableMap) && stringMap == old(stringMap) && obfuscationId == old(obfuscationId)
    {
      out := code;
      var last := 0;
      while NextFunction(out, last).Some?
        invariant Valid()
        invariant variableMap == old(variableMap) && stringMap == old(stringMap) && obfuscationId == old(obfuscationId)
        invariant RenameFunctionsAt(rng.draws, rng.used, functionMap, out, last)
          == RenameFunctionsAt(rng.draws, old(rng.used), old(functionMap), code, 0)
        decreases ScanMeasure(out, last)
      {
        var f := NextFunction(out, last).value;
        var name := out[f.0..f.1];
        if name !in functionMap {
          var newName := GenerateVarName(rng);
          functionMap := functionMap[name := newName];
        }
        var replacement := functionMap[name];
        ReplaceWordWeight(out, name, replacement);
        out := ReplaceWord(out, name, replacement);
        last := f.2;
      }
    }

    /** Step 2 as a whole. */
    method RenameStage(code: string, decoder: string) returns (out: string)
      requires Valid()
      modifies this, rng
      ensures Valid()
      ensures (variableMap, functionMap, out, rng.used)
        == RenameStageAt(rng.draws, old(rng.used), options.renameVariables, old(variableMap), old(functionMap), code, decoder)
      ensures stringMap == old(stringMap) && obfuscationId == old(obfuscationId)
    {
      out := code;
      if options.renameVariables {
        var vars := CollectVariables(code, decoder);
        VariablesProps(code, decoder);
        out := RenameVariables(vars, out);
        out := RenameFunctions(out);
      }
    }

    /** `obfuscate(code)` (obfuscator.js:230-468), with `executionTime` left out. */
    method Obfuscate(code: string) returns (result: Output)
      requires Valid()
      modifies this, rng
      ensures Valid()
      ensures var r := ObfuscateAt(options, rng.draws, old(rng.used), old(variableMap), old(functionMap), code);
        result == r.output && variableMap == r.variableMap && functionMap == r.functionMap && rng.used == r.next
      ensures stringMap == old(stringMap) && obfuscationId == old(obfuscationId)
    {
      ghost var at, vm, fm := rng.used, variableMap, functionMap;
      var pool := StringPass(rng, code);
      ghost var n1 := rng.used;
      var c := RenameStage(pool.code, pool.decoder);
      ghost var n2 := rng.used;
      var out := Finish(rng, options, pool.table, pool.decoder, c);
      var stats := Stats(|code|, |out|, |variableMap|, |functionMap|, |pool.table|, Complexity(|code|, |out|));
      result := Output(out, stats);
      ObfuscateParts(options, rng.draws, at, vm, fm, code, pool, n1, variableMap, functionMap, c, n2,
                     out, rng.used, result);
    }

    /** `reset()` (obfuscator.js:475-480). */
    method Reset()
      modifies this, rng
      ensures Valid()
      ensures variableMap == map[] && functionMap == map[] && stringMap == map[]
      ensures obfuscationId == IdAt(rng.draws, old(rng.used), 8) && rng.used == old(rng.used) + 8
    {
      variableMap := map[];
      functionMap := map[];
      stringMap := map[];
      obfuscationId := GenerateId(rng, 8);
    }
  }

  // ---------------------------------------------------------------------------
  // What a run guarantees

  /** The maps only grow across runs: every earlier entry keeps its name, every value is a
      generated name, with renaming on the variable map gains exactly the collected
      variables, and with renaming off neither map changes. */
  lemma {:induction false} ObfuscateMaps(o: Options, d: nat -> nat, at: nat, vm: map<string, string>,
                                         fm: map<string, string>, code: string)
    requires AllGenerated(vm) && AllGenerated(fm)
    ensures var r := ObfuscateAt(o, d, at, vm, fm, code);
      && (forall k :: k in vm ==> k in r.variableMap && r.variableMap[k] == vm[k])
      && (forall k :: k in fm ==> k in r.functionMap && r.functionMap[k] == fm[k])
      && AllGenerated(r.variableMap) && AllGenerated(r.functionMap)
      && r.next >= at
    ensures var r := ObfuscateAt(o, d, at, vm, fm, code);
      var pool := StringPassAt(d, at, code).0;
      o.renameVariables ==> forall k :: k in r.variableMap <==> k in vm || k in Variables(pool.code, pool.decoder)
    ensures var r := ObfuscateAt(o, d, at, vm, fm, code);
      !o.renameVariables ==> r.variableMap == vm && r.functionMap == fm
  {
    var (pool, n1) := StringPassAt(d, at, code);
    RenameStageMaps(d, n1, o.renameVariables, vm, fm, pool.code, pool.decoder);
  }

  /** Step 2 keeps every earlier entry of both maps and adds the collected variables. */
  lemma RenameStageMaps(d: nat -> nat, at: nat, rename: bool, vm: map<string, string>,
                        fm: map<string, string>, code: string, decoder: string)
    requires AllGenerated(vm) && AllGenerated(fm)
    ensures var r := RenameStageAt(d, at, rename, vm, fm, code, decoder);
      && (forall k :: k in vm ==> k in r.0 && r.0[k] == vm[k])
      && (forall k :: k in fm ==> k in r.1 && r.1[k] == fm[k])
      && AllGenerated(r.0) && AllGenerated(r.1) && r.3 >= at
      && (rename ==> forall k :: k in r.0 <==> k in vm || k in Variables(code, decoder))
  {
    if rename {
      var vars := Variables(code, decoder);
      VariablesProps(code, decoder);
      var v := RenameVarsAt(d, at, vars, vm, code);
      RenameVarsMap(d, at, vars, vm, code);
      RenameFunctionsMap(d, v.2, fm, v.1, 0);
    }
  }

  /** Every distinct literal content is encoded once, and the complexity figure is the
      output's length as a rounded percentage of the input's. */
  lemma ObfuscateCounts(o: Options, d: nat -> nat, at: nat, vm: map<string, string>,
                        fm: map<string, string>, code: string)
    requires AllGenerated(fm)
    ensures var s := ObfuscateAt(o, d, at, vm, fm, code).output.stats;
      && s.stringsEncoded == |Distinct(code)|
      && (forall c :: c in Distinct(code) <==> c in Contents(code))
      && (s.complexityIncrease.None? <==> code == [])
      && (s.complexityIncrease.Some? ==> RoundedPercent(s.complexityIncrease.value, |code|, s.obfuscatedLength))
  {
    var r := ObfuscateAt(o, d, at, vm, fm, code);
    TableDistinct(d, at, code);
  }

  /** A map's size never drops when its keys are kept. */
  lemma {:induction false} KeysKept(m: map<string, string>, n: map<string, string>)
    requires forall k :: k in m ==> k in n
    ensures |m| <= |n|
  {
    assert m.Keys <= n.Keys;
    SubsetSize(m.Keys, n.Keys);
  }

  lemma {:induction false} SubsetSize(a: set<string>, b: set<string>)
    requires a <= b
    ensures |a| <= |b|
    decreases |a|
  {
    if a != {} {
      var x :| x in a;
      SubsetSize(a - {x}, b - {x});
    }
  }

  /** The counts reported by successive runs on one object never decrease: the statistics
      count the maps, which carry over from run to run until `reset`. */
  lemma RunsAccumulate(o: Options, d: nat -> nat, at: nat, vm: map<string, string>,
                       fm: map<string, string>, code1: string, code2: string)
    requires AllGenerated(vm) && AllGenerated(fm)
    ensures var r1 := ObfuscateAt(o, d, at, vm, fm, code1);
      AllGenerated(r1.functionMap) &&
      var r2 := ObfuscateAt(o, d, r1.next, r1.variableMap, r1.functionMap, code2);
      && r1.output.stats.variablesRenamed <= r2.output.stats.variablesRenamed
      && r1.output.stats.functionsRenamed <= r2.output.stats.functionsRenamed
      && r2.next >= at
  {
    var r1 := ObfuscateAt(o, d, at, vm, fm, code1);
    ObfuscateMaps(o, d, at, vm, fm, code1);
    var r2 := ObfuscateAt(o, d, r1.next, r1.variableMap, r1.functionMap, code2);
    ObfuscateMaps(o, d, r1.next, r1.variableMap, r1.functionMap, code2);
    KeysKept(r1.variableMap, r2.variableMap);
    KeysKept(r1.functionMap, r2.functionMap);
  }
}
