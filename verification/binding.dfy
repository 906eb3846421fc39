/**
 * Spring MVC's argument binding for the client endpoints: the `{id}` path
 * segment is converted to a `Long` by `NumberUtils.parseNumber` (all
 * whitespace removed, then `Long.decode` for a hexadecimal literal and
 * `Long.valueOf` otherwise). A segment that does not convert is a 400 raised
 * before the handler, and so before its role check, runs.
 */
module Binding {
  import opened Basics

  const MinLong: int := -0x8000_0000_0000_0000
  const MaxLong: int := 0x7FFF_FFFF_FFFF_FFFF

  predicate InLong(v: int)
  {
    MinLong <= v <= MaxLong
  }

  predicate IsDecimalDigit(c: char)
  {
    '0' <= c <= '9'
  }

  /** `Character.digit(c, radix)` on ASCII: 0-9, then the letters a-z in either case for 10-35. */
  function DigitValue(c: char, radix: nat): (v: Option<nat>)
    requires 2 <= radix <= 36
    ensures v.Some? ==> v.value < radix
    ensures radix == 10 ==> (v.Some? <==> IsDecimalDigit(c))
    ensures IsDecimalDigit(c) && c as int - '0' as int < radix ==> v == Some(c as int - '0' as int)
  {
    var d :=
      if '0' <= c <= '9' then c as int - '0' as int
      else if 'a' <= c <= 'z' then c as int - 'a' as int + 10
      else if 'A' <= c <= 'Z' then c as int - 'A' as int + 10
      else 36;
    if d < radix then Some(d) else None
  }

  predicate AllDigits(ds: string, radix: nat)
    requires 2 <= radix <= 36
  {
    forall k :: 0 <= k < |ds| ==> DigitValue(ds[k], radix).Some?
  }

  /** The value of a digit string, most significant digit first. */
  function DigitsValue(ds: string, radix: nat): (v: nat)
    requires 2 <= radix <= 36 && AllDigits(ds, radix)
    decreases |ds|
  {
    if ds == [] then 0
    else DigitsValue(ds[..|ds| - 1], radix) * radix + DigitValue(ds[|ds| - 1], radix).value
  }

  /** `Long.valueOf(s, radix)`: an optional sign, then at least one digit, the value within 64 bits. */
  function ParseSigned(s: string, radix: nat): (r: Option<int>)
    requires 2 <= radix <= 36
    ensures r.Some? ==> InLong(r.value)
    ensures r.Some? ==> exists k :: 0 <= k < |s| && DigitValue(s[k], radix).Some?
  {
    if s == [] then None
    else
      var digits := if s[0] == '-' || s[0] == '+' then s[1..] else s;
      if digits == [] || !AllDigits(digits, radix) then None
      else
        assert DigitValue(s[|s| - 1], radix).Some? by {
          assert s[|s| - 1] == digits[|digits| - 1];
        }
        var v: int := if s[0] == '-' then 0 - DigitsValue(digits, radix) as int else DigitsValue(digits, radix);
        if InLong(v) then Some(v) else None
  }

  /** `NumberUtils.isHexNumber`: an optional '-' and then "0x", "0X" or "#". */
  predicate IsHexNumber(t: string)
  {
    var i := if StartsWith(t, "-") then 1 else 0;
    StartsWith(t[i..], "0x") || StartsWith(t[i..], "0X") || StartsWith(t[i..], "#")
  }

  /**
   * `Long.decode` of a hexadecimal literal: the digits after the prefix, which
   * may not carry a sign of their own, negated after a leading '-'.
   */
  function DecodeHex(t: string): (r: Option<int>)
    requires IsHexNumber(t)
    ensures r.Some? ==> InLong(r.value)
  {
    var negative := StartsWith(t, "-");
    var i := if negative then 1 else 0;
    var rest := if StartsWith(t[i..], "#") then t[i + 1..] else t[i + 2..];
    if rest == [] || !AllDigits(rest, 16) then None
    else
      var v: int := if negative then 0 - DigitsValue(rest, 16) as int else DigitsValue(rest, 16);
      if InLong(v) then Some(v) else None
  }

  /** `StringUtils.trimAllWhitespace`: every whitespace character removed, wherever it is. */
  function TrimAllWhitespace(text: string): (t: string)
    ensures forall c :: c in t <==> c in text && !IsJavaWhitespace(c)
  {
    Filter(text, c => !IsJavaWhitespace(c))
  }

  /**
   * `NumberUtils.parseNumber(text, Long.class)`; `None` is the
   * NumberFormatException. A segment with neither a decimal digit nor '#',
   * such as "abc" or "health", never converts.
   */
  function ParseLong(text: string): (r: Option<int>)
    ensures r.Some? ==> InLong(r.value)
    ensures r.Some? ==> '#' in text || exists k :: 0 <= k < |text| && IsDecimalDigit(text[k])
  {
    var t := TrimAllWhitespace(text);
    if IsHexNumber(t) then
      HexHasPrefix(t);
      DecodeHex(t)
    else
      var r := ParseSigned(t, 10);
      DigitsComeFromText(text, r.Some?);
      r
  }

  lemma DigitsComeFromText(text: string, hasDigit: bool)
    requires hasDigit ==> var t := TrimAllWhitespace(text);
      exists k :: 0 <= k < |t| && DigitValue(t[k], 10).Some?
    ensures hasDigit ==> exists k :: 0 <= k < |text| && IsDecimalDigit(text[k])
  {
    if hasDigit {
      var t := TrimAllWhitespace(text);
      var k :| 0 <= k < |t| && DigitValue(t[k], 10).Some?;
      assert t[k] in text;
    }
  }

  /** A hexadecimal literal shows its '0' or '#' prefix. */
  lemma HexHasPrefix(t: string)
    requires IsHexNumber(t)
    ensures '#' in t || '0' in t
  {
    var i := if StartsWith(t, "-") then 1 else 0;
    assert t[i..][0] == t[i];
  }

  /** What `Long.toString` writes, `NumberUtils.parseNumber` reads back: every 64-bit id has its path form. */
  lemma ParseLongRoundTrip(n: int)
    requires InLong(n)
    ensures ParseLong(IntToString(n)) == Some(n)
  {
    var s := IntToString(n);
    RenderedHasNoWhitespace(n);
    RenderedIsNotHex(n);
    RenderedIsDecimal(n);
  }

  lemma RenderedHasNoWhitespace(n: int)
    ensures TrimAllWhitespace(IntToString(n)) == IntToString(n)
  {
    var s := IntToString(n);
    assert forall c :: c in s ==> c == '-' || IsDecimalDigit(c) by {
      if n < 0 {
        assert s == "-" + NatToString(-n);
      }
    }
    FilterKeepsAll(s, c => !IsJavaWhitespace(c));
  }

  /** The rendering is no hexadecimal literal: a digit follows the optional '-'. */
  lemma RenderedIsNotHex(n: int)
    ensures !IsHexNumber(IntToString(n))
  {
    var s := IntToString(n);
    var digits := NatToString(Abs(n));
    var i := if n < 0 then 1 else 0;
    assert s[i..] == digits;
    assert StartsWith(s, "-") <==> n < 0;
    if |digits| >= 2 {
      assert digits[1] != 'x' && digits[1] != 'X';
    }
    assert digits[0] != '#';
  }

  /** The decimal reading of the rendering is the number. */
  lemma RenderedIsDecimal(n: int)
    requires InLong(n)
    ensures ParseSigned(IntToString(n), 10) == Some(n)
  {
    var s := IntToString(n);
    var digits := NatToString(Abs(n));
    NatToStringValue(Abs(n));
    if n < 0 {
      assert s[0] == '-' && s[1..] == digits;
    } else {
      assert s == digits && s[0] != '-' && s[0] != '+';
    }
  }

  lemma {:induction false} NatToStringValue(n: nat)
    ensures AllDigits(NatToString(n), 10)
    ensures DigitsValue(NatToString(n), 10) == n
    decreases n
  {
    if n >= 10 {
      var init := NatToString(n / 10);
      NatToStringValue(n / 10);
      AppendDigit(init, n % 10);
      assert NatToString(n) == init + [DigitChar(n % 10)];
    } else {
      DigitCharValue(n);
      assert NatToString(n) == [] + [DigitChar(n)];
    }
  }

  /** Writing one more digit multiplies the value by ten and adds the digit. */
  lemma AppendDigit(init: string, d: nat)
    requires d < 10 && AllDigits(init, 10)
    ensures AllDigits(init + [DigitChar(d)], 10)
    ensures DigitsValue(init + [DigitChar(d)], 10) == DigitsValue(init, 10) * 10 + d
  {
    var s := init + [DigitChar(d)];
    DigitCharValue(d);
    assert s[..|s| - 1] == init;
    assert forall k :: 0 <= k < |init| ==> s[k] == init[k];
  }

  lemma DigitCharValue(d: nat)
    requires d < 10
    ensures DigitValue(DigitChar(d), 10) == Some(d)
  {
    assert "0123456789"[d] as int == '0' as int + d;
  }

  lemma FilterKeepsAll<T(!new)>(xs: seq<T>, p: T -> bool)
    requires forall x :: x in xs ==> p(x)
    ensures Filter(xs, p) == xs
    decreases |xs|
  {
    if xs != [] {
      FilterKeepsAll(xs[1..], p);
      assert xs == [xs[0]] + xs[1..];
    }
  }
}
