/**
 * The frame-selector convention of the extraction step: the frame filter applies exactly when
 * `isNaN(frame) && parseInt(frame) !== -1`. `isNaN` coerces the selector with JavaScript's
 * string-to-number conversion; `parseInt` reads an optionally signed run of digits from its start.
 */
module FrameSelector {
  import opened Strings

  /** JavaScript WhiteSpace and LineTerminator code points, the characters both conversions skip. */
  predicate IsJsSpace(c: char)
  {
    || c == '\t' || c == '\U{000B}' || c == '\U{000C}' || c == ' ' || c == '\U{00A0}' || c == '\U{FEFF}'
    || c == '\U{1680}' || ('\U{2000}' <= c <= '\U{200A}') || c == '\U{202F}' || c == '\U{205F}'
    || c == '\U{3000}' || c == '\n' || c == '\r' || c == '\U{2028}' || c == '\U{2029}'
  }

  /** `s` without its leading white space. */
  function TrimStart(s: string): (r: string)
    ensures |r| <= |s| && r == s[|s| - |r|..]
    ensures forall i :: 0 <= i < |s| - |r| ==> IsJsSpace(s[i])
    ensures r != [] ==> !IsJsSpace(r[0])
  {
    if s != [] && IsJsSpace(s[0]) then TrimStart(s[1..]) else s
  }

  /** `s` without its trailing white space. */
  function TrimEnd(s: string): (r: string)
    ensures |r| <= |s| && r == s[..|r|]
    ensures forall i :: |r| <= i < |s| ==> IsJsSpace(s[i])
    ensures r != [] ==> !IsJsSpace(r[|r| - 1])
  {
    if s != [] && IsJsSpace(s[|s| - 1]) then TrimEnd(s[..|s| - 1]) else s
  }

  function Trim(s: string): string
  {
    TrimEnd(TrimStart(s))
  }

  predicate AllDigits(s: string)
  {
    forall i :: 0 <= i < |s| ==> IsDigit(s[i])
  }

  /** DecimalDigits: one or more decimal digits (no numeric separators in string conversion). */
  predicate Digits(s: string)
  {
    |s| > 0 && AllDigits(s)
  }

  predicate IsSign(c: char) { c == '+' || c == '-' }

  /** SignedInteger: digits after an optional sign. */
  predicate SignedInteger(s: string)
  {
    Digits(s) || (|s| > 0 && IsSign(s[0]) && Digits(s[1..]))
  }

  predicate IsExponentIndicator(c: char) { c == 'e' || c == 'E' }

  /** The position of the first exponent indicator in `s`, or `|s|` when there is none. */
  function ExponentStart(s: string): (k: nat)
    ensures k <= |s|
    ensures forall i :: 0 <= i < k ==> !IsExponentIndicator(s[i])
    ensures k < |s| ==> IsExponentIndicator(s[k])
  {
    if s == [] || IsExponentIndicator(s[0]) then 0 else 1 + ExponentStart(s[1..])
  }

  /** The position of the first '.' in `s`, or `|s|` when there is none. */
  function DotPosition(s: string): (p: nat)
    ensures p <= |s|
    ensures forall i :: 0 <= i < p ==> s[i] != '.'
    ensures p < |s| ==> s[p] == '.'
  {
    if s == [] || s[0] == '.' then 0 else 1 + DotPosition(s[1..])
  }

  /** The significand of a decimal literal: `D`, `D.`, `D.D` or `.D`. */
  predicate Significand(m: string)
  {
    var p := DotPosition(m);
    if p == |m| then Digits(m)
    else AllDigits(m[..p]) && AllDigits(m[p + 1..]) && (0 < p || p + 1 < |m|)
  }

  /** StrUnsignedDecimalLiteral: `Infinity`, or a significand with an optional exponent. */
  predicate UnsignedDecimal(u: string)
  {
    || u == "Infinity"
    || (var k := ExponentStart(u);
        Significand(u[..k]) && (k == |u| || SignedInteger(u[k + 1..])))
  }

  /** StrDecimalLiteral: an unsigned decimal literal after an optional sign. */
  predicate StrDecimal(t: string)
  {
    if t != [] && IsSign(t[0]) then UnsignedDecimal(t[1..]) else UnsignedDecimal(t)
  }

  predicate IsHexDigit(c: char) { IsDigit(c) || ('a' <= c <= 'f') || ('A' <= c <= 'F') }

  predicate IsOctalDigit(c: char) { '0' <= c <= '7' }

  predicate IsBinaryDigit(c: char) { c == '0' || c == '1' }

  /** NonDecimalIntegerLiteral: `0x`, `0o` or `0b` followed by digits of that base (no sign allowed). */
  predicate NonDecimalInteger(t: string)
  {
    && |t| >= 3 && t[0] == '0'
    && (|| ((t[1] == 'x' || t[1] == 'X') && forall i :: 2 <= i < |t| ==> IsHexDigit(t[i]))
        || ((t[1] == 'o' || t[1] == 'O') && forall i :: 2 <= i < |t| ==> IsOctalDigit(t[i]))
        || ((t[1] == 'b' || t[1] == 'B') && forall i :: 2 <= i < |t| ==> IsBinaryDigit(t[i])))
  }

  /**
   * `!isNaN(s)`: the string converts to a number. It does when, once trimmed, it is empty
   * (converting to 0), a decimal literal or a non-decimal integer literal.
   */
  predicate IsNumeric(s: string)
  {
    var t := Trim(s);
    t == [] || StrDecimal(t) || NonDecimalInteger(t)
  }

  /** The longest prefix of `s` made of decimal digits, or of hexadecimal digits when `hex`. */
  function DigitRun(s: string, hex: bool): (z: string)
    ensures |z| <= |s| && z == s[..|z|]
    ensures forall i :: 0 <= i < |z| ==> (if hex then IsHexDigit(z[i]) else IsDigit(z[i]))
    ensures |z| < |s| ==> !(if hex then IsHexDigit(s[|z|]) else IsDigit(s[|z|]))
  {
    if s != [] && (if hex then IsHexDigit(s[0]) else IsDigit(s[0])) then [s[0]] + DigitRun(s[1..], hex)
    else []
  }

  /**
   * `parseInt(s) === -1`: after leading white space comes '-', then either `0x`/`0X` and a run of
   * hexadecimal digits, or a run of decimal digits, and that run is non-empty and worth 1.
   */
  predicate ParsesToMinusOne(s: string)
  {
    var t := TrimStart(s);
    && |t| > 0 && t[0] == '-'
    && var u := t[1..];
       var hex := |u| >= 2 && u[0] == '0' && (u[1] == 'x' || u[1] == 'X');
       var z := DigitRun(if hex then u[2..] else u, hex);
       |z| > 0 && RadixValue(z, if hex then 16 else 10) == 1
  }

  /** `isNaN(frame) && parseInt(frame) !== -1`: whether a frame filter applies. */
  predicate ShouldGetFrame(frame: string)
  {
    !IsNumeric(frame) && !ParsesToMinusOne(frame)
  }

  /** A digit run is worth 1 exactly when it is zeros followed by a single '1'. */
  lemma {:induction false} ValueOneIsZerosThenOne(z: string, radix: nat)
    requires radix >= 2
    ensures RadixValue(z, radix) == 1 <==>
      |z| > 0 && DigitValue(z[|z| - 1]) == 1 && RadixValue(z[..|z| - 1], radix) == 0
  {
    if z != [] {
      var v := RadixValue(z[..|z| - 1], radix);
      if v > 0 {
        assert v * radix >= radix by {
          assert v * radix == (v - 1) * radix + radix;
        }
      }
    }
  }

  /** Trimming never removes a character that is not white space. */
  lemma TrimKeeps(s: string, j: int)
    requires 0 <= j < |s| && !IsJsSpace(s[j])
    ensures s[j] in Trim(s)
  {
    var a := TrimStart(s);
    var off := |s| - |a|;
    assert j >= off;
    assert a[j - off] == s[j];
    var t := TrimEnd(a);
    assert j - off < |t|;
    assert t[j - off] == s[j];
  }

  lemma NoSlashInSignedInteger(s: string)
    requires SignedInteger(s)
    ensures '/' !in s
  {
    forall i | 0 <= i < |s|
      ensures s[i] != '/'
    {
      if !Digits(s) && i > 0 {
        assert s[1..][i - 1] == s[i];
      }
    }
  }

  lemma NoSlashInSignificand(m: string)
    requires Significand(m)
    ensures '/' !in m
  {
    var p := DotPosition(m);
    forall i | 0 <= i < |m|
      ensures m[i] != '/'
    {
      if p < |m| && i < p {
        assert m[..p][i] == m[i];
      } else if p < |m| && i > p {
        assert m[p + 1..][i - p - 1] == m[i];
      }
    }
  }

  lemma NoSlashInUnsignedDecimal(u: string)
    requires UnsignedDecimal(u)
    ensures '/' !in u
  {
    if u != "Infinity" {
      var k := ExponentStart(u);
      NoSlashInSignificand(u[..k]);
      if k < |u| {
        NoSlashInSignedInteger(u[k + 1..]);
      }
      forall i | 0 <= i < |u|
        ensures u[i] != '/'
      {
        if i < k {
          assert u[..k][i] == u[i];
        } else if i > k {
          assert u[k + 1..][i - k - 1] == u[i];
        }
      }
    }
  }

  lemma NoSlashInLiteral(t: string)
    requires StrDecimal(t) || NonDecimalInteger(t)
    ensures '/' !in t
  {
    if StrDecimal(t) {
      if t != [] && IsSign(t[0]) {
        NoSlashInUnsignedDecimal(t[1..]);
        assert t == [t[0]] + t[1..];
      } else {
        NoSlashInUnsignedDecimal(t);
      }
    }
  }

  /** A selector containing '/' never converts to a number. */
  lemma SlashIsNotNumeric(s: string)
    requires '/' in s
    ensures !IsNumeric(s)
  {
    var j :| 0 <= j < |s| && s[j] == '/';
    TrimKeeps(s, j);
    var t := Trim(s);
    if StrDecimal(t) || NonDecimalInteger(t) {
      NoSlashInLiteral(t);
    }
  }

  /**
   * The frame-selector convention for paths: a selector containing '/' selects a frame exactly
   * when `parseInt` does not read it as -1 (so "Icons/Outline" is a path and "-1/Icons" is not).
   */
  lemma SlashSelectorIsPath(s: string)
    requires '/' in s
    ensures ShouldGetFrame(s) <==> !ParsesToMinusOne(s)
  {
    SlashIsNotNumeric(s);
  }

  lemma DigitsAreUnsignedDecimal(u: string)
    requires Digits(u)
    ensures UnsignedDecimal(u)
  {
    var k := ExponentStart(u);
    assert k == |u|;
    assert u[..k] == u;
    assert DotPosition(u) == |u|;
  }

  /** A string that neither starts nor ends with white space is its own trimmed form. */
  lemma TrimUnchanged(s: string)
    requires s != [] && !IsJsSpace(s[0]) && !IsJsSpace(s[|s| - 1])
    ensures Trim(s) == s && TrimStart(s) == s
  {
  }

  /** An integer selector, optionally signed, converts to a number, so no frame filter applies. */
  lemma IntegerSelectorIsNoFilter(sign: string, digits: string)
    requires sign == "" || sign == "-" || sign == "+"
    requires Digits(digits)
    ensures IsNumeric(sign + digits)
    ensures !ShouldGetFrame(sign + digits)
  {
    var s := sign + digits;
    assert s[|s| - 1] == digits[|digits| - 1];
    assert IsDigit(s[|s| - 1]);
    assert IsDigit(s[0]) || IsSign(s[0]);
    TrimUnchanged(s);
    SignedDigitsDecimal(sign, digits);
  }

  /** Digits after an optional sign form a decimal literal. */
  lemma SignedDigitsDecimal(sign: string, digits: string)
    requires sign == "" || sign == "-" || sign == "+"
    requires Digits(digits)
    ensures StrDecimal(sign + digits)
  {
    DigitsAreUnsignedDecimal(digits);
    if sign == "" {
      assert sign + digits == digits;
    } else {
      assert (sign + digits)[1..] == digits;
    }
  }

  /** The selectors "3" and "-1" mean no frame filter. */
  lemma NumberSelectorExamples()
    ensures !ShouldGetFrame("3") && !ShouldGetFrame("-1")
  {
    assert Digits("3") && Digits("1");
    IntegerSelectorIsNoFilter("", "3");
    assert "" + "3" == "3";
    IntegerSelectorIsNoFilter("-", "1");
    assert "-" + "1" == "-1";
  }

  /**
   * A selector that starts with "-1" followed by anything but a digit (such as "-1x" or "-1/Icons")
   * is read as -1 by `parseInt`, so no frame filter applies even when it is not a number.
   */
  lemma MinusOnePrefixIsNoFilter(rest: string)
    requires rest == [] || !IsDigit(rest[0])
    ensures ParsesToMinusOne("-1" + rest)
    ensures !ShouldGetFrame("-1" + rest)
  {
    var s := "-1" + rest;
    assert !IsJsSpace(s[0]);
    assert TrimStart(s) == s;
    var u := s[1..];
    assert u == "1" + rest;
    assert u[1..] == rest;
    assert DigitRun(u[1..], false) == [];
    var z := DigitRun(u, false);
    assert z == "1";
    assert z[..0] == [];
    assert RadixValue(z, 10) == 1;
  }

  /** A selector containing '/' whose first character is neither white space nor '-' is a frame path. */
  lemma PlainPathIsFilter(s: string)
    requires '/' in s
    requires !IsJsSpace(s[0]) && s[0] != '-'
    ensures ShouldGetFrame(s)
  {
    SlashIsNotNumeric(s);
    assert TrimStart(s) == s;
  }

  /** "Icons/Outline" is a frame path. */
  lemma PathSelectorExample()
    ensures ShouldGetFrame("Icons/Outline")
  {
    var p := "Icons/Outline";
    assert p[5] == '/';
    PlainPathIsFilter(p);
  }
}
