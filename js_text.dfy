/** The pieces of ECMAScript string handling the two components rely on:
    the white-space set of `String.prototype.trim`, and `parseInt` with no
    radix argument (section 19.2.5 of ECMA-262). Strings are sequences of
    Unicode scalar values; UTF-16 surrogate pairs are not modelled. */
module JsText {
  import opened Wrappers

  /** WhiteSpace and LineTerminator code points (sections 12.2 and 12.3 of
      ECMA-262): the characters both `trim` and `parseInt` skip. */
  predicate IsWhiteSpace(c: char) {
    || c == '\t' || c == '\n' || c == '\U{000B}' || c == '\U{000C}' || c == '\r'
    || c == ' ' || c == '\U{00A0}' || c == '\U{1680}'
    || ('\U{2000}' <= c <= '\U{200A}')
    || c == '\U{2028}' || c == '\U{2029}' || c == '\U{202F}' || c == '\U{205F}'
    || c == '\U{3000}' || c == '\U{FEFF}'
  }

  predicate AllWhiteSpace(s: string) {
    forall i :: 0 <= i < |s| ==> IsWhiteSpace(s[i])
  }

  /** Drops the leading white space (see `TrimStartSpec`). */
  function TrimStart(s: string): string {
    if s == [] || !IsWhiteSpace(s[0]) then s else TrimStart(s[1..])
  }

  /** Drops the trailing white space (see `TrimEndSpec`). */
  function TrimEnd(s: string): string {
    if s == [] || !IsWhiteSpace(s[|s| - 1]) then s else TrimEnd(s[..|s| - 1])
  }

  /** `String.prototype.trim`. */
  function Trim(s: string): string {
    TrimEnd(TrimStart(s))
  }

  /** `TrimStart(s)` is the longest suffix of `s` that does not start with
      white space: what it drops is all white space. */
  lemma {:induction false} TrimStartSpec(s: string)
    ensures |TrimStart(s)| <= |s| && TrimStart(s) == s[|s| - |TrimStart(s)|..]
    ensures AllWhiteSpace(s[..|s| - |TrimStart(s)|])
    ensures TrimStart(s) == [] || !IsWhiteSpace(TrimStart(s)[0])
  {
    if s != [] && IsWhiteSpace(s[0]) {
      TrimStartSpec(s[1..]);
      var k := |s| - |TrimStart(s)|;
      assert forall i :: 1 <= i < k ==> s[i] == s[1..][i - 1];
    }
  }

  /** `TrimEnd(s)` is the longest prefix of `s` that does not end with white
      space: what it drops is all white space. */
  lemma {:induction false} TrimEndSpec(s: string)
    ensures |TrimEnd(s)| <= |s| && TrimEnd(s) == s[..|TrimEnd(s)|]
    ensures AllWhiteSpace(s[|TrimEnd(s)|..])
    ensures TrimEnd(s) == [] || !IsWhiteSpace(TrimEnd(s)[|TrimEnd(s)| - 1])
  {
    if s != [] && IsWhiteSpace(s[|s| - 1]) {
      var t := s[..|s| - 1];
      TrimEndSpec(t);
      var k := |TrimEnd(t)|;
      assert s[k..] == t[k..] + [s[|s| - 1]];
      assert forall i :: k <= i < |s| - 1 ==> s[i] == t[k..][i - k];
    }
  }

  lemma {:induction false} TrimStartSkipsWhiteSpace(w: string, s: string)
    requires AllWhiteSpace(w)
    ensures TrimStart(w + s) == TrimStart(s)
  {
    if w != [] {
      assert (w + s)[0] == w[0];
      assert (w + s)[1..] == w[1..] + s;
      TrimStartSkipsWhiteSpace(w[1..], s);
    } else {
      assert w + s == s;
    }
  }

  lemma {:induction false} TrimEndSkipsWhiteSpace(s: string, w: string)
    requires AllWhiteSpace(w)
    ensures TrimEnd(s + w) == TrimEnd(s)
  {
    if w != [] {
      assert (s + w)[|s + w| - 1] == w[|w| - 1];
      assert (s + w)[..|s + w| - 1] == s + w[..|w| - 1];
      TrimEndSkipsWhiteSpace(s, w[..|w| - 1]);
    } else {
      assert s + w == s;
    }
  }

  /** Surrounding white space never changes what `trim` returns, and a string
      without surrounding white space is returned as it is. */
  lemma TrimIgnoresSurroundingWhiteSpace(w1: string, s: string, w2: string)
    requires AllWhiteSpace(w1) && AllWhiteSpace(w2)
    requires s == [] || (!IsWhiteSpace(s[0]) && !IsWhiteSpace(s[|s| - 1]))
    ensures Trim(w1 + s + w2) == s
  {
    assert w1 + s + w2 == w1 + (s + w2);
    TrimStartSkipsWhiteSpace(w1, s + w2);
    if s == [] {
      TrimStartSkipsWhiteSpace(w2, []);
      assert w2 + [] == w2;
      assert s + w2 == w2;
    } else {
      assert (s + w2)[0] == s[0];
      TrimEndSkipsWhiteSpace(s, w2);
    }
  }

  // ---------------------------------------------------------------- parseInt

  /** The digit value of a character in radix 36 (`0`-`9`, then `a`-`z` or
      `A`-`Z`); 36 for a character that is a digit in no radix. */
  function DigitValue(c: char): (v: nat)
    ensures v <= 36
    ensures v < 10 <==> '0' <= c <= '9'
  {
    if '0' <= c <= '9' then c as int - '0' as int
    else if 'a' <= c <= 'z' then c as int - 'a' as int + 10
    else if 'A' <= c <= 'Z' then c as int - 'A' as int + 10
    else 36
  }

  predicate IsDigit(c: char, radix: nat) {
    DigitValue(c) < radix
  }

  /** The longest prefix of `s` made of radix-`radix` digits (see
      `DigitPrefixSpec`). */
  function DigitPrefix(s: string, radix: nat): string {
    if s == [] || !IsDigit(s[0], radix) then [] else [s[0]] + DigitPrefix(s[1..], radix)
  }

  /** `DigitPrefix(s, radix)` is a prefix of `s`, all digits, and stops at
      the end of `s` or at the first character that is not a digit. */
  lemma {:induction false} DigitPrefixSpec(s: string, radix: nat)
    ensures |DigitPrefix(s, radix)| <= |s| && DigitPrefix(s, radix) == s[..|DigitPrefix(s, radix)|]
    ensures forall i :: 0 <= i < |DigitPrefix(s, radix)| ==> IsDigit(DigitPrefix(s, radix)[i], radix)
    ensures |DigitPrefix(s, radix)| == |s| || !IsDigit(s[|DigitPrefix(s, radix)|], radix)
  {
    if s != [] && IsDigit(s[0], radix) {
      DigitPrefixSpec(s[1..], radix);
    }
  }

  /** The mathematical value of a digit string read in radix 16 when `hex`
      holds, in radix 10 otherwise. */
  function DigitsValue(z: string, hex: bool): nat {
    if z == [] then 0
    else if hex then DigitsValue(z[..|z| - 1], hex) * 16 + DigitValue(z[|z| - 1])
    else DigitsValue(z[..|z| - 1], hex) * 10 + DigitValue(z[|z| - 1])
  }

  /** The digits after an optional sign: a `0x` or `0X` prefix selects
      radix 16, otherwise radix 10, and the longest run of digits that
      follows is read. `None` when that run is empty. */
  function ParseUnsigned(u: string): Option<nat> {
    var hex := |u| >= 2 && u[0] == '0' && (u[1] == 'x' || u[1] == 'X');
    var radix := if hex then 16 else 10;
    var z := DigitPrefix(if hex then u[2..] else u, radix);
    if z == [] then None else Some(DigitsValue(z, hex))
  }

  /** `parseInt(s)` with no radix argument: leading white space and one sign
      are skipped, then the digits are read as `ParseUnsigned` does. `None`
      stands for NaN. Floating-point rounding of very long digit runs is not
      modelled, and -0 is 0. */
  function ParseInt(s: string): Option<int> {
    ParseSigned(TrimStart(s))
  }

  function ParseSigned(t: string): Option<int> {
    if t == [] then None
    else if t[0] == '-' then
      match ParseUnsigned(t[1..])
      case None => None
      case Some(v) => Some(-(v as int))
    else if t[0] == '+' then
      match ParseUnsigned(t[1..])
      case None => None
      case Some(v) => Some(v as int)
    else
      match ParseUnsigned(t)
      case None => None
      case Some(v) => Some(v as int)
  }

  /** The decimal numeral of a natural number, as `String(n)` renders a
      non-negative integer below 10^21. */
  function DecimalString(n: nat): (s: string)
    ensures |s| >= 1
    ensures forall i :: 0 <= i < |s| ==> '0' <= s[i] <= '9'
  {
    if n < 10 then ['0' + n as char] else DecimalString(n / 10) + ['0' + (n % 10) as char]
  }

  lemma {:induction false} DecimalStringValue(n: nat)
    ensures DigitsValue(DecimalString(n), false) == n
  {
    var s := DecimalString(n);
    if n >= 10 {
      DecimalStringValue(n / 10);
      assert s[..|s| - 1] == DecimalString(n / 10);
    }
  }

  lemma {:induction false} DigitPrefixOfNumeral(z: string, rest: string, radix: nat)
    requires forall i :: 0 <= i < |z| ==> IsDigit(z[i], radix)
    requires rest == [] || !IsDigit(rest[0], radix)
    ensures DigitPrefix(z + rest, radix) == z
  {
    if z == [] {
      assert z + rest == rest;
    } else {
      assert (z + rest)[0] == z[0];
      assert (z + rest)[1..] == z[1..] + rest;
      DigitPrefixOfNumeral(z[1..], rest, radix);
      assert z == [z[0]] + z[1..];
    }
  }

  lemma ParseUnsignedOfNumeral(n: nat, rest: string)
    requires rest == [] || (!IsDigit(rest[0], 10) && (n == 0 ==> rest[0] != 'x' && rest[0] != 'X'))
    ensures ParseUnsigned(DecimalString(n) + rest) == Some(n)
  {
    var d := DecimalString(n);
    var u := d + rest;
    if |u| >= 2 && u[0] == '0' {
      assert u[1] != 'x' && u[1] != 'X' by {
        if |d| >= 2 { assert u[1] == d[1]; } else { assert u[1] == rest[0]; }
      }
    }
    DigitPrefixOfNumeral(d, rest, 10);
    DecimalStringValue(n);
  }

  /** A string that starts with a decimal digit is read by `parseInt` as
      `ParseUnsigned` reads it; with a minus sign in front, negated. */
  lemma ParseIntOfDigitStart(u: string, v: nat)
    requires u != [] && '0' <= u[0] <= '9'
    requires ParseUnsigned(u) == Some(v)
    ensures ParseInt(u) == Some(v)
  {
    assert TrimStart(u) == u;
  }

  lemma ParseIntOfMinusDigitStart(u: string, v: nat)
    requires u != [] && '0' <= u[0] <= '9'
    requires ParseUnsigned(u) == Some(v)
    ensures ParseInt(['-'] + u) == Some(-(v as int))
  {
    var s := ['-'] + u;
    assert TrimStart(s) == s;
    assert s[1..] == u;
  }

  lemma NumeralStart(n: nat, rest: string)
    ensures DecimalString(n) + rest != []
    ensures '0' <= (DecimalString(n) + rest)[0] <= '9'
  {
    assert (DecimalString(n) + rest)[0] == DecimalString(n)[0];
  }

  /** A decimal numeral followed by nothing or a non-digit parses back to
      its value (after the numeral `0`, an `x` or `X` would start a hex
      prefix instead): the round trip of `String(n)` through `parseInt`,
      e.g. for `"3000"`, `"250ms"` or `"5x"`. */
  lemma ParseIntOfNumeral(n: nat, rest: string)
    requires rest == [] || (!IsDigit(rest[0], 10) && (n == 0 ==> rest[0] != 'x' && rest[0] != 'X'))
    ensures ParseInt(DecimalString(n) + rest) == Some(n)
  {
    ParseUnsignedOfNumeral(n, rest);
    NumeralStart(n, rest);
    ParseIntOfDigitStart(DecimalString(n) + rest, n);
  }

  /** The same for a numeral with a minus sign, e.g. `"-5"`. */
  lemma ParseIntOfNegativeNumeral(n: nat, rest: string)
    requires rest == [] || (!IsDigit(rest[0], 10) && (n == 0 ==> rest[0] != 'x' && rest[0] != 'X'))
    ensures ParseInt(['-'] + (DecimalString(n) + rest)) == Some(-(n as int))
  {
    ParseUnsignedOfNumeral(n, rest);
    NumeralStart(n, rest);
    ParseIntOfMinusDigitStart(DecimalString(n) + rest, n);
  }

  /** The same for a numeral with a plus sign, e.g. `"+5"`. */
  lemma ParseIntOfPlusNumeral(n: nat, rest: string)
    requires rest == [] || (!IsDigit(rest[0], 10) && (n == 0 ==> rest[0] != 'x' && rest[0] != 'X'))
    ensures ParseInt(['+'] + (DecimalString(n) + rest)) == Some(n)
  {
    ParseUnsignedOfNumeral(n, rest);
    var s := ['+'] + (DecimalString(n) + rest);
    assert s[0] == '+' && s[1..] == DecimalString(n) + rest;
    assert TrimStart(s) == s;
  }

  /** Without a digit where the number should start, `parseInt` is NaN: after
      white space, the empty string or a character that is neither a digit
      nor a sign; and, after one sign, the empty string or a non-digit. */
  lemma ParseIntNoDigits(w: string, s: string)
    requires AllWhiteSpace(w)
    requires s == [] || (!IsWhiteSpace(s[0]) && !IsDigit(s[0], 10) && s[0] != '-' && s[0] != '+')
    ensures ParseInt(w + s) == None
  {
    ParseIntSkipsWhiteSpace(w, s);
    assert TrimStart(s) == s;
  }

  lemma ParseIntSignNoDigits(w: string, sign: char, s: string)
    requires AllWhiteSpace(w) && (sign == '-' || sign == '+')
    requires s == [] || !IsDigit(s[0], 10)
    ensures ParseInt(w + ([sign] + s)) == None
  {
    ParseIntSkipsWhiteSpace(w, [sign] + s);
    var t := [sign] + s;
    assert t[0] == sign && t[1..] == s;
    assert TrimStart(t) == t;
  }

  /** Any run of decimal digits, leading zeros included, reads as its value
      when what follows is not a digit (nor `x`/`X` after a lone `0`):
      `parseInt("0300")` is 300. */
  lemma {:induction false} ParseIntOfDigitRun(z: string, rest: string)
    requires z != [] && forall i :: 0 <= i < |z| ==> IsDigit(z[i], 10)
    requires rest == [] || (!IsDigit(rest[0], 10) && (z == "0" ==> rest[0] != 'x' && rest[0] != 'X'))
    ensures ParseInt(z + rest) == Some(DigitsValue(z, false))
  {
    var u := z + rest;
    assert u[0] == z[0];
    if |u| >= 2 && u[0] == '0' {
      assert u[1] != 'x' && u[1] != 'X' by {
        if |z| >= 2 { assert u[1] == z[1]; } else { assert z == "0" && u[1] == rest[0]; }
      }
    }
    DigitPrefixOfNumeral(z, rest, 10);
    assert ParseUnsigned(u) == Some(DigitsValue(z, false));
    ParseIntOfDigitStart(u, DigitsValue(z, false));
  }

  /** Leading white space is skipped: `parseInt(" 42")` equals `parseInt("42")`. */
  lemma ParseIntSkipsWhiteSpace(w: string, s: string)
    requires AllWhiteSpace(w)
    ensures ParseInt(w + s) == ParseInt(s)
  {
    TrimStartSkipsWhiteSpace(w, s);
  }

  /** A `0x` or `0X` prefix switches to radix 16: the hex digit run `h`
      after it, ended by the end of the string or by a character that is not
      a hex digit, is read in radix 16, and with no digit at all the result
      is NaN. With a minus sign in front the value is negated. */
  lemma {:induction false} ParseIntOfHexNumeral(x: char, h: string, rest: string)
    requires x == 'x' || x == 'X'
    requires forall i :: 0 <= i < |h| ==> IsDigit(h[i], 16)
    requires rest == [] || !IsDigit(rest[0], 16)
    ensures ParseInt(['0', x] + h + rest) == if h == [] then None else Some(DigitsValue(h, true))
    ensures ParseInt(['-'] + (['0', x] + h + rest)) == if h == [] then None else Some(-(DigitsValue(h, true) as int))
  {
    ParseUnsignedOfHex(x, h, rest);
    var v: Option<nat> := if h == [] then None else Some(DigitsValue(h, true));
    ParseIntOfZeroStart(['0', x] + h + rest, v);
  }

  /** A string that starts with `0` is read without trimming or sign
      handling; with a minus sign in front, negated. */
  lemma ParseIntOfZeroStart(u: string, v: Option<nat>)
    requires u != [] && u[0] == '0'
    requires ParseUnsigned(u) == v
    ensures ParseInt(u) == if v.None? then None else Some(v.value as int)
    ensures ParseInt(['-'] + u) == if v.None? then None else Some(-(v.value as int))
  {
    assert TrimStart(u) == u;
    var s := ['-'] + u;
    assert s[0] == '-' && s[1..] == u;
    assert TrimStart(s) == s;
  }

  lemma {:induction false} ParseUnsignedOfHex(x: char, h: string, rest: string)
    requires x == 'x' || x == 'X'
    requires forall i :: 0 <= i < |h| ==> IsDigit(h[i], 16)
    requires rest == [] || !IsDigit(rest[0], 16)
    ensures ParseUnsigned(['0', x] + h + rest) == if h == [] then None else Some(DigitsValue(h, true))
  {
    var u := ['0', x] + h + rest;
    assert u[0] == '0' && u[1] == x && u[2..] == h + rest;
    DigitPrefixOfNumeral(h, rest, 16);
  }

  /** For example `"0x1F"` reads as 31. */
  lemma ParseIntHex()
    ensures ParseInt("0x1F") == Some(31)
  {
    ParseIntOfHexNumeral('x', "1F", []);
    assert ['0', 'x'] + "1F" + [] == "0x1F";
    assert "1F"[..1] == "1" && DigitsValue("1", true) == 1;
  }

  /** `0X` works after white space too, and the digit run stops at the first
      character that is not a hex digit. */
  lemma ParseIntHexStopsAtNonDigit()
    ensures ParseInt(" 0X10px") == Some(16)
  {
    var u := ['0', 'X'] + "10" + "px";
    assert " 0X10px" == " " + u;
    ParseIntSkipsWhiteSpace(" ", u);
    ParseIntOfHexNumeral('X', "10", "px");
    HexTen();
  }

  lemma HexTen()
    ensures DigitsValue("10", true) == 16
  {
    assert "10"[..1] == "1" && DigitsValue("1", true) == 1;
  }

  /** A `0x` prefix without hex digits after it is NaN. */
  lemma ParseIntHexWithoutDigits()
    ensures ParseInt("0x") == None && ParseInt("0xg") == None
  {
    ParseIntOfHexNumeral('x', [], []);
    assert ['0', 'x'] + [] + [] == "0x";
    ParseIntOfHexNumeral('x', [], "g");
    assert ['0', 'x'] + [] + "g" == "0xg";
  }
}
