/** Random identifiers: `generateId` and `generateVarName`. Both are written twice: as
    functions of the draw stream (`IdAt`, `VarNameAt`), which say what comes out for given
    draws, and as methods on a `RandomSource`, which draw in the order the source does. */
module Names {
  import opened Text
  import opened Utils

  /** The first-character alphabet of `generateId`: `a` to `z`, then `A` to `Z`. */
  function Letters(): (a: string)
    ensures |a| == 52 && forall i :: 0 <= i < 52 ==> IsLetter(a[i]) && a[i] == AlphabetChar(i)
  {
    seq(52, AlphabetChar)
  }

  /** The alphabet of the remaining characters: the letters, then `0` to `9`, then `_`. */
  function Alphabet(): (a: string)
    ensures |a| == 63 && forall i :: 0 <= i < 63 ==> IsWordChar(a[i]) && a[i] == AlphabetChar(i)
  {
    seq(63, AlphabetChar)
  }

  function AlphabetChar(i: int): char
  {
    if 0 <= i < 26 then ('a' as int + i) as char
    else if 26 <= i < 52 then ('A' as int + i - 26) as char
    else if 52 <= i < 62 then ('0' as int + i - 52) as char
    else '_'
  }

  /** The identifier `generateId(length)` returns when the draws from `at` on are `d(at), d(at+1), ...`:
      one letter, then `length - 1` characters of the full alphabet (none when `length < 1`). */
  function IdAt(d: nat -> nat, at: nat, length: int): (r: string)
    ensures |r| == if length < 1 then 1 else length
    ensures IsLetter(r[0]) && AllWordChars(r)
  {
    [Letters()[Pick(d(at), 0, 51)]] + IdTail(d, at + 1, if length < 1 then 0 else length - 1)
  }

  /** The `n` characters after the first, one draw each. */
  function IdTail(d: nat -> nat, from: nat, n: nat): (t: string)
    ensures |t| == n && AllWordChars(t)
    ensures forall i :: 0 <= i < n ==> t[i] == Alphabet()[Pick(d(from + i), 0, 62)]
  {
    var a := Alphabet();
    var t := seq(n, i requires 0 <= i < n => a[Pick(d(from + i), 0, 62)]);
    assert forall i :: 0 <= i < n ==> t[i] == a[Pick(d(from + i), 0, 62)] && IsWordChar(t[i]);
    t
  }

  lemma IdTailSnoc(d: nat -> nat, from: nat, n: nat)
    ensures IdTail(d, from, n + 1) == IdTail(d, from, n) + [Alphabet()[Pick(d(from + n), 0, 62)]]
  {
  }

  /** `generateId(length)` (obfuscator.js:30-38). */
  method GenerateId(rng: RandomSource, length: int) returns (id: string)
    modifies rng
    ensures id == IdAt(rng.draws, old(rng.used), length)
    ensures rng.used == old(rng.used) + |id|
  {
    var start := rng.used;
    var first := rng.Int(0, |Letters()| - 1);
    var tail := "";
    var i := 1;
    while i < length
      invariant 1 <= i && (i <= length || i == 1)
      invariant rng.used == start + i
      invariant tail == IdTail(rng.draws, start + 1, i - 1)
    {
      var k := rng.Int(0, |Alphabet()| - 1);
      IdTailSnoc(rng.draws, start + 1, i - 1);
      tail := tail + [Alphabet()[k]];
      i := i + 1;
    }
    id := [Letters()[first]] + tail;
  }

  /** Position of a letter in `Letters()`, and of a word character in `Alphabet()`. */
  function LetterIndex(c: char): (k: nat)
    requires IsLetter(c)
    ensures k < 52 && Letters()[k] == c
  {
    if 'a' <= c <= 'z' then (c as int - 'a' as int) as nat else (c as int - 'A' as int + 26) as nat
  }

  function AlphabetIndex(c: char): (k: nat)
    requires IsWordChar(c)
    ensures k < 63 && Alphabet()[k] == c
  {
    if IsLetter(c) then LetterIndex(c)
    else if IsDigit(c) then (c as int - '0' as int + 52) as nat
    else 62
  }

  /** Draws under which `generateId` produces `t`. */
  function DrawsFor(t: string): nat -> nat
    requires |t| >= 1 && IsLetter(t[0]) && AllWordChars(t)
  {
    (i: nat) => if i == 0 then LetterIndex(t[0]) else if i < |t| then AlphabetIndex(t[i]) else 0
  }

  /** Every identifier that starts with a letter and has only word characters is a
      possible result of `generateId(|t|)`: the generator can reach all of its range. */
  lemma IdReachable(t: string)
    requires |t| >= 1 && IsLetter(t[0]) && AllWordChars(t)
    ensures IdAt(DrawsFor(t), 0, |t|) == t
  {
    var d := DrawsFor(t);
    var r := IdAt(d, 0, |t|);
    forall i | 0 <= i < |t|
      ensures r[i] == t[i]
    {
      if i > 0 {
        assert r[i] == Alphabet()[Pick(d(i), 0, 62)];
      }
    }
  }

  /** The four name templates of `generateVarName`. */
  datatype Template = Underscored | DoubleUnderscored | Hex | Confusable

  const Templates: seq<Template> := [Underscored, DoubleUnderscored, Hex, Confusable]

  /** The prefixes of the look-alike template. */
  const Confusables: seq<string> := ["l", "ll", "I", "II", "O", "o"]

  /** The name `generateVarName()` returns for the draws from `at` on, with the position of
      the next unused draw. Every name is an identifier of 4 to 12 word characters. */
  function VarNameAt(d: nat -> nat, at: nat): (r: (string, nat))
    ensures IsIdentifier(r.0) && 4 <= |r.0| <= 12
    ensures r.1 > at
  {
    TemplateNameAt(Templates[Pick(d(at), 0, 3)], d, at + 1)
  }

  /** The name one template builds from the draws from `at` on. */
  function TemplateNameAt(t: Template, d: nat -> nat, at: nat): (r: (string, nat))
    ensures IsIdentifier(r.0) && 4 <= |r.0| <= 12
    ensures r.1 > at
  {
    match t
    case Underscored =>
      var len := Pick(d(at), 6, 10);
      ("_" + IdAt(d, at + 1, len), at + 1 + len)
    case DoubleUnderscored =>
      var len := Pick(d(at), 4, 8);
      ("__" + IdAt(d, at + 1, len) + "__", at + 1 + len)
    case Hex =>
      var h := Pick(d(at), 100000, 999999);
      assert Pow(16, 4) == 65536 && Pow(16, 5) == 1048576;
      RadixLength(h, 16, 5);
      ("_0x" + Radix(h, 16), at + 1)
    case Confusable =>
      var prefix := Confusables[Pick(d(at), 0, 5)];
      var len := Pick(d(at + 1), 3, 6);
      (prefix + IdAt(d, at + 2, len), at + 2 + len)
  }

  /** `generateVarName()` (obfuscator.js:43-55): a template is chosen first, then its own draws are made. */
  method GenerateVarName(rng: RandomSource) returns (name: string)
    modifies rng
    ensures (name, rng.used) == VarNameAt(rng.draws, old(rng.used))
  {
    var t := rng.Choice(Templates);
    name := TemplateName(rng, t);
  }

  method TemplateName(rng: RandomSource, t: Template) returns (name: string)
    modifies rng
    ensures (name, rng.used) == TemplateNameAt(t, rng.draws, old(rng.used))
  {
    match t
    case Underscored =>
      var len := rng.Int(6, 10);
      var id := GenerateId(rng, len);
      name := "_" + id;
    case DoubleUnderscored =>
      var len := rng.Int(4, 8);
      var id := GenerateId(rng, len);
      name := "__" + id + "__";
    case Hex =>
      var h := rng.Int(100000, 999999);
      name := "_0x" + Radix(h, 16);
    case Confusable =>
      var prefix := rng.Choice(Confusables);
      var len := rng.Int(3, 6);
      var id := GenerateId(rng, len);
      name := prefix + id;
  }

  /** Every generated name starts with `_` or with one of the look-alike letters. */
  lemma VarNameStart(d: nat -> nat, at: nat)
    ensures VarNameAt(d, at).0[0] in "_lIOo"
  {
    var t := Templates[Pick(d(at), 0, 3)];
    if t == Confusable {
      var prefix := Confusables[Pick(d(at + 1), 0, 5)];
      assert prefix[0] in "_lIOo";
      assert VarNameAt(d, at).0[0] == prefix[0];
    }
  }

  /** The names every map value and every generated name satisfies. */
  predicate IsGeneratedName(s: string) { IsIdentifier(s) && 4 <= |s| <= 12 }

  predicate AllGenerated(m: map<string, string>) { forall k :: k in m ==> IsGeneratedName(m[k]) }
}
