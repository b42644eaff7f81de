/** The two layers the string pool applies to every literal: each character code is
    XORed with a one-byte key, then every resulting code is written as a backslash and
    its zero-padded octal digits. */
module Cipher {
  import opened Text

  // ---------------------------------------------------------------------------
  // XOR with a one-byte key

  /** Bitwise exclusive or of two naturals, one binary digit at a time. */
  function Xor(a: nat, b: nat): (r: nat)
    decreases a + b
  {
    if a == 0 && b == 0 then 0
    else (if a % 2 != b % 2 then 1 else 0) + 2 * Xor(a / 2, b / 2)
  }

  /** XOR of two numbers below 2^n stays below 2^n. */
  lemma {:induction false} XorBelow(a: nat, b: nat, n: nat)
    requires a < Pow2(n) && b < Pow2(n)
    ensures Xor(a, b) < Pow2(n)
    decreases n
  {
    if !(a == 0 && b == 0) {
      assert n > 0;
      XorBelow(a / 2, b / 2, n - 1);
    }
  }

  /** XOR with the same operand undoes itself. */
  lemma {:induction false} XorTwice(a: nat, b: nat)
    ensures Xor(Xor(a, b), b) == a
    decreases a + b
  {
    if !(a == 0 && b == 0) {
      var x := Xor(a, b);
      var bit := if a % 2 != b % 2 then 1 else 0;
      assert x == bit + 2 * Xor(a / 2, b / 2);
      assert x % 2 == bit && x / 2 == Xor(a / 2, b / 2);
      XorTwice(a / 2, b / 2);
      assert !(x == 0 && b == 0);
      assert Xor(x, b) == (if x % 2 != b % 2 then 1 else 0) + 2 * Xor(x / 2, b / 2);
    }
  }

  function Pow2(n: nat): (r: nat)
    ensures r >= 1
  {
    if n == 0 then 1 else 2 * Pow2(n - 1)
  }

  /** `a ^ k` on two bytes. */
  function XorByte(a: nat, k: nat): (r: nat)
    requires a < 256 && k < 256
    ensures r < 256
  {
    assert Pow2(8) == 256;
    XorBelow(a, k, 8);
    Xor(a, k)
  }

  lemma XorByteTwice(a: nat, k: nat)
    requires a < 256 && k < 256
    ensures XorByte(XorByte(a, k), k) == a
  {
    XorTwice(a, k);
  }

  /** `code ^ key` for a key below 256: only the low byte of the code changes. */
  function XorCode(c: nat, k: nat): (r: nat)
    requires k < 256
    ensures r / 256 == c / 256
  {
    var low := XorByte(c % 256, k);
    BlockSplit(c / 256, low);
    (c / 256) * 256 + low
  }

  lemma XorCodeInvolution(c: nat, k: nat)
    requires k < 256
    ensures XorCode(XorCode(c, k), k) == c
  {
    var q, low := c / 256, XorByte(c % 256, k);
    BlockSplit(q, low);
    XorByteTwice(c % 256, k);
    BlockSplit(q, c % 256);
  }

  lemma BlockSplit(q: nat, low: nat)
    requires low < 256
    ensures (q * 256 + low) / 256 == q && (q * 256 + low) % 256 == low
  {
  }

  /** Codes below 256 stay below 256, and codes below 512 stay below 512. */
  lemma XorCodeBounds(c: nat, k: nat)
    requires k < 256
    ensures c < 256 ==> XorCode(c, k) < 256
    ensures c < 512 ==> XorCode(c, k) < 512
  {
  }

  predicate IsScalar(n: int) { 0 <= n < 0xD800 || 0xE000 <= n < 0x11_0000 }

  lemma SameBlockScalar(c: int, r: nat)
    requires IsScalar(c) && r / 256 == c / 256
    ensures IsScalar(r)
  {
  }

  /** `String.fromCharCode(str.charCodeAt(i) ^ key)` on one character. */
  function XorChar(ch: char, k: nat): (r: char)
    requires k < 256
    ensures r as int == XorCode(ch as nat, k)
  {
    var r := XorCode(ch as nat, k);
    SameBlockScalar(ch as int, r);
    r as char
  }

  /** Every character of `s` XORed with the key. */
  function XorString(s: string, k: nat): (r: string)
    requires k < 256
    ensures |r| == |s|
    ensures forall i :: 0 <= i < |s| ==> r[i] == XorChar(s[i], k)
  {
    seq(|s|, i requires 0 <= i < |s| => XorChar(s[i], k))
  }

  /** XOR with the same key undoes itself. */
  lemma XorStringInvolution(s: string, k: nat)
    requires k < 256
    ensures XorString(XorString(s, k), k) == s
  {
    var x := XorString(s, k);
    forall i | 0 <= i < |s|
      ensures XorString(x, k)[i] == s[i]
    {
      XorCodeInvolution(s[i] as nat, k);
    }
  }

  /** The XOR loop of the string pool (obfuscator.js:246-249). */
  method XorWithKey(str: string, key: nat) returns (xored: string)
    requires key < 256
    ensures xored == XorString(str, key)
  {
    xored := "";
    var i := 0;
    while i < |str|
      invariant 0 <= i <= |str|
      invariant xored == XorString(str[..i], key)
    {
      xored := xored + [XorChar(str[i], key)];
      i := i + 1;
    }
    assert str[..|str|] == str;
  }

  predicate CodesBelow(s: string, bound: nat) { forall i :: 0 <= i < |s| ==> s[i] as int < bound }

  lemma XorStringBounds(s: string, k: nat, bound: nat)
    requires k < 256 && (bound == 256 || bound == 512)
    requires CodesBelow(s, bound)
    ensures CodesBelow(XorString(s, k), bound)
  {
    forall i | 0 <= i < |s|
      ensures XorString(s, k)[i] as int < bound
    {
      XorCodeBounds(s[i] as nat, k);
    }
  }

  // ---------------------------------------------------------------------------
  // Octal escapes

  /** `'\\' + code.toString(8).padStart(3, '0')` for one character. */
  function OctalEscape(ch: char): string
  {
    "\\" + PadZeros(Radix(ch as nat, 8), 3)
  }

  /** The text `encodeToOctal` builds: the escapes of all characters, in order. */
  function Octal(s: string): (r: string)
  {
    if s == [] then "" else OctalEscape(s[0]) + Octal(s[1..])
  }

  lemma OctalSnoc(s: string, ch: char)
    ensures Octal(s + [ch]) == Octal(s) + OctalEscape(ch)
  {
    if s != [] {
      assert (s + [ch])[1..] == s[1..] + [ch];
      OctalSnoc(s[1..], ch);
    } else {
      assert Octal([ch]) == OctalEscape(ch) + Octal([]);
    }
  }

  /** `encodeToOctal(str)` (obfuscator.js:218-225). */
  method EncodeToOctal(str: string) returns (result: string)
    ensures result == Octal(str)
  {
    result := "";
    var i := 0;
    while i < |str|
      invariant 0 <= i <= |str|
      invariant result == Octal(str[..i])
    {
      OctalSnoc(str[..i], str[i]);
      assert str[..i + 1] == str[..i] + [str[i]];
      result := result + OctalEscape(str[i]);
      i := i + 1;
    }
    assert str[..|str|] == str;
  }

  lemma {:induction false} RadixOctalShort(n: nat)
    requires n < 512
    ensures |Radix(n, 8)| <= 3
  {
    if n >= 8 {
      DivStep(n, 8);
      RadixOctalShort(n / 8);
      if n / 8 >= 8 {
        DivStep(n / 8, 8);
        assert n / 8 / 8 < 8;
        assert |Radix(n / 8, 8)| == 2;
      }
    }
  }

  lemma {:induction false} RadixValueLeadingZeros(z: string, t: string, base: nat)
    requires 2 <= base <= 16
    requires forall i :: 0 <= i < |z| ==> z[i] == '0'
    requires forall i :: 0 <= i < |t| ==> IsRadixDigit(t[i], base)
    ensures forall i :: 0 <= i < |z + t| ==> IsRadixDigit((z + t)[i], base)
    ensures RadixValue(z + t, base) == RadixValue(t, base)
  {
    if t == [] {
      assert z + t == z;
      ZerosValue(z, base);
    } else {
      var t' := t[..|t| - 1];
      assert (z + t)[..|z + t| - 1] == z + t';
      RadixValueLeadingZeros(z, t', base);
    }
  }

  lemma {:induction false} ZerosValue(z: string, base: nat)
    requires 2 <= base <= 16
    requires forall i :: 0 <= i < |z| ==> z[i] == '0'
    ensures RadixValue(z, base) == 0
  {
    if z != [] {
      ZerosValue(z[..|z| - 1], base);
    }
  }

  /** For a code below 512 the escape is a backslash and exactly three octal digits,
      whose value is the code. */
  lemma OctalEscapeShape(ch: char)
    requires ch as int < 512
    ensures |OctalEscape(ch)| == 4 && OctalEscape(ch)[0] == '\\'
    ensures forall i :: 1 <= i < 4 ==> IsRadixDigit(OctalEscape(ch)[i], 8)
    ensures RadixValue(OctalEscape(ch)[1..], 8) == ch as nat
  {
    var digits := Radix(ch as nat, 8);
    RadixOctalShort(ch as nat);
    RadixRoundTrip(ch as nat, 8);
    var padded := PadZeros(digits, 3);
    var z := seq(3 - |digits|, _ => '0');
    assert padded == z + digits;
    RadixValueLeadingZeros(z, digits, 8);
    assert OctalEscape(ch)[1..] == padded;
  }

  /** Reads a text of 4-character groups `\ddd` back into characters: the inverse the
      emitted decoder is meant to compute. */
  function DecodeOctal(e: string): (r: Option<string>)
  {
    if e == [] then Some("")
    else if |e| >= 4 && e[0] == '\\' && forall i :: 1 <= i < 4 ==> IsRadixDigit(e[i], 8) then
      var v := RadixValue(e[1..4], 8);
      if v < 0xD800 then
        match DecodeOctal(e[4..])
        case Some(rest) => Some([v as char] + rest)
        case None => None
      else None
    else None
  }

  lemma RadixThreeOctal(d: string)
    requires |d| == 3 && forall i :: 0 <= i < 3 ==> IsRadixDigit(d[i], 8)
    ensures RadixValue(d, 8) < 512
  {
    assert d[..2][..1] == d[..1];
    assert RadixValue(d[..1], 8) < 8;
    assert RadixValue(d[..2], 8) < 64;
  }

  /** Reading the octal text back gives the characters that were written, for codes below 512. */
  lemma {:induction false} OctalRoundTrip(s: string)
    requires CodesBelow(s, 512)
    ensures |Octal(s)| == 4 * |s|
    ensures DecodeOctal(Octal(s)) == Some(s)
  {
    if s != [] {
      var e := Octal(s);
      OctalEscapeShape(s[0]);
      OctalRoundTrip(s[1..]);
      var esc := OctalEscape(s[0]);
      assert e == esc + Octal(s[1..]);
      assert e[1..4] == esc[1..];
      assert e[4..] == Octal(s[1..]);
      assert forall i :: 1 <= i < 4 ==> e[i] == esc[i];
      assert [s[0]] + s[1..] == s;
    }
  }

  // ---------------------------------------------------------------------------
  // Pool entries

  /** One entry of the string table: the octal text of the XORed literal, and its key. */
  datatype Entry = Entry(encoded: string, key: int)

  /** The decoding the emitted decoder stands for: octal groups back to codes, then XOR with the key. */
  function DecodeEntry(e: Entry): (r: Option<string>)
  {
    if 0 <= e.key < 256 then
      match DecodeOctal(e.encoded)
      case Some(x) => Some(XorString(x, e.key))
      case None => None
    else None
  }

  /** The entry the string pool builds for a literal under a key. */
  function EncodeEntry(s: string, k: nat): (e: Entry)
    requires 1 <= k <= 255
  {
    Entry(Octal(XorString(s, k)), k)
  }

  /** Round trip of the two layers: for codes below 512 (in particular every byte string),
      decoding the entry gives back the literal, and the octal text is four characters per
      character of the literal. */
  lemma EntryRoundTrip(s: string, k: nat)
    requires 1 <= k <= 255
    requires CodesBelow(s, 512)
    ensures DecodeEntry(EncodeEntry(s, k)) == Some(s)
    ensures |EncodeEntry(s, k).encoded| == 4 * |s|
  {
    XorStringBounds(s, k, 512);
    OctalRoundTrip(XorString(s, k));
    XorStringInvolution(s, k);
  }
}
