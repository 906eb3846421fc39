/**
 * Shared vocabulary: Option/Result for Java's null and exceptions, 32-bit
 * integers, and the few java.lang.String operations the service relies on,
 * over `string` (a `seq<char>`).
 */
module Basics {

  /** A possibly-null Java reference. */
  datatype Option<+T> = None | Some(value: T)

  /** A value or the error (exception) that replaced it. */
  datatype Result<+T, +E> = Ok(value: T) | Err(error: E)

  /** Java's `int`. */
  type Int32 = x: int | -0x8000_0000 <= x < 0x8000_0000

  /** Two's-complement wrap-around of a mathematical integer into an `int`. */
  function Wrap32(x: int): (r: Int32)
    ensures (r - x) % 0x1_0000_0000 == 0
    ensures -0x8000_0000 <= x < 0x8000_0000 ==> r == x
  {
    (x + 0x8000_0000) % 0x1_0000_0000 - 0x8000_0000
  }

  /** How Java renders a possibly-null string inside a concatenation. */
  function Show(s: Option<string>): string
  {
    match s
    case Some(v) => v
    case None => "null"
  }

  predicate StartsWith(s: string, prefix: string)
  {
    |prefix| <= |s| && s[..|prefix|] == prefix
  }

  lemma StartsWithConcat(prefix: string, rest: string)
    ensures StartsWith(prefix + rest, prefix)
    ensures (prefix + rest)[|prefix|..] == rest
  {
    assert (prefix + rest)[..|prefix|] == prefix;
  }

  /** A character `String.trim` removes: any code point up to U+0020. */
  predicate IsTrimSpace(c: char)
  {
    c <= ' '
  }

  /** No removable character at either end. */
  predicate IsTrimmed(s: string)
  {
    s == [] || (!IsTrimSpace(s[0]) && !IsTrimSpace(s[|s| - 1]))
  }

  function TrimStart(s: string): (r: string)
    ensures |r| <= |s| && r == s[|s| - |r|..]
    ensures forall k :: 0 <= k < |s| - |r| ==> IsTrimSpace(s[k])
    ensures r == [] || !IsTrimSpace(r[0])
    decreases |s|
  {
    if |s| > 0 && IsTrimSpace(s[0]) then TrimStart(s[1..]) else s
  }

  function TrimEnd(s: string): (r: string)
    ensures |r| <= |s| && r == s[..|r|]
    ensures forall k :: |r| <= k < |s| ==> IsTrimSpace(s[k])
    ensures r == [] || !IsTrimSpace(r[|r| - 1])
    decreases |s|
  {
    if |s| > 0 && IsTrimSpace(s[|s| - 1]) then TrimEnd(s[..|s| - 1]) else s
  }

  /** `String.trim`: drops every leading and trailing character up to U+0020. */
  function Trim(s: string): (r: string)
    ensures IsTrimmed(r)
    ensures |r| <= |s|
    ensures IsTrimmed(s) ==> r == s
  {
    var t := TrimStart(s);
    var r := TrimEnd(t);
    assert r != [] ==> r[0] == t[0];
    TrimmedIsFixed(s);
    r
  }

  /** Neither half of `trim` touches a string that is already trimmed. */
  lemma TrimmedIsFixed(s: string)
    ensures IsTrimmed(s) ==> TrimStart(s) == s && TrimEnd(s) == s
  {
  }

  /** Trimming only removes characters: one absent before is absent after. */
  lemma TrimKeepsAbsent(s: string, c: char)
    requires c !in s
    ensures c !in Trim(s)
  {
    var t := TrimStart(s);
    assert forall k :: 0 <= k < |t| ==> t[k] == s[|s| - |t| + k];
    assert forall k :: 0 <= k < |TrimEnd(t)| ==> TrimEnd(t)[k] == t[k];
  }

  /** `s.trim().isEmpty()`; Bean Validation's @NotBlank rejects exactly these. */
  predicate IsBlank(s: string)
  {
    Trim(s) == []
  }

  lemma BlankIffAllSpace(s: string)
    ensures IsBlank(s) <==> forall k :: 0 <= k < |s| ==> IsTrimSpace(s[k])
  {
    var t := TrimStart(s);
    assert t == [] || t[0] == s[|s| - |t|];
    if !forall k :: 0 <= k < |s| ==> IsTrimSpace(s[k]) {
      var k :| 0 <= k < |s| && !IsTrimSpace(s[k]);
      assert t != [] && t[k - (|s| - |t|)] == s[k];
    }
  }

  /** `Character.isWhitespace`, the test behind Spring's `StringUtils.hasText`. */
  predicate IsJavaWhitespace(c: char)
  {
    var n := c as int;
    n == 0x20 || 0x09 <= n <= 0x0D || 0x1C <= n <= 0x1F || n == 0x1680
    || 0x2000 <= n <= 0x2006 || 0x2008 <= n <= 0x200A
    || n == 0x2028 || n == 0x2029 || n == 0x205F || n == 0x3000
  }

  /** `StringUtils.hasText`: some character is not whitespace. */
  predicate HasText(s: string)
  {
    exists k :: 0 <= k < |s| && !IsJavaWhitespace(s[k])
  }

  /**
   * The fields of `s` between occurrences of one separator character, empty
   * fields included. Java's `String.split` then removes trailing empty fields
   * (`"a,,".split(",")` is `["a"]`); `JavaSplit` adds that step.
   */
  function Split(s: string, sep: char): (parts: seq<string>)
    ensures |parts| >= 1
    ensures forall i :: 0 <= i < |parts| ==> sep !in parts[i]
    decreases |s|
  {
    if s == [] then [[]]
    else
      var rest := Split(s[1..], sep);
      if s[0] == sep then [[]] + rest else [[s[0]] + rest[0]] + rest[1..]
  }

  /** Splitting at a separator splits the fields there: the two halves are split independently. */
  lemma {:induction false} SplitConcat(a: string, b: string, sep: char)
    ensures Split(a + [sep] + b, sep) == Split(a, sep) + Split(b, sep)
    decreases |a|
  {
    var s := a + [sep] + b;
    if a == [] {
      assert s[0] == sep && s[1..] == b;
    } else {
      assert s[0] == a[0] && s[1..] == a[1..] + [sep] + b;
      SplitConcat(a[1..], b, sep);
    }
  }

  /** The parts without their trailing run of empty strings. */
  function DropTrailingEmpty(parts: seq<string>): (r: seq<string>)
    ensures |r| <= |parts| && r == parts[..|r|]
    ensures forall i :: |r| <= i < |parts| ==> parts[i] == []
    ensures r == [] || r[|r| - 1] != []
  {
    if parts != [] && parts[|parts| - 1] == [] then DropTrailingEmpty(parts[..|parts| - 1]) else parts
  }

  /** `String.split` with a one-character pattern: no separator gives the text itself, else trailing empty fields go. */
  function JavaSplit(s: string, sep: char): (parts: seq<string>)
    ensures sep !in s ==> parts == [s]
    ensures sep in s ==> parts == DropTrailingEmpty(Split(s, sep))
  {
    if sep !in s then [s] else DropTrailingEmpty(Split(s, sep))
  }

  /** `String.join`: the parts with one separator between neighbours. */
  function Join(parts: seq<string>, sep: char): string
  {
    if |parts| == 0 then []
    else if |parts| == 1 then parts[0]
    else parts[0] + [sep] + Join(parts[1..], sep)
  }

  lemma {:induction false} SplitNoSeparator(x: string, sep: char)
    requires sep !in x
    ensures Split(x, sep) == [x]
    decreases |x|
  {
    if x != [] {
      SplitNoSeparator(x[1..], sep);
      assert [x[0]] + x[1..] == x;
    }
  }

  lemma {:induction false} SplitAppend(x: string, y: string, sep: char)
    requires sep !in x
    ensures Split(x + [sep] + y, sep) == [x] + Split(y, sep)
    decreases |x|
  {
    var s := x + [sep] + y;
    if x == [] {
      assert s[0] == sep && s[1..] == y;
    } else {
      assert s[0] == x[0] && s[1..] == x[1..] + [sep] + y;
      SplitAppend(x[1..], y, sep);
      assert [x[0]] + x[1..] == x;
    }
  }

  /** Splitting a join gives the parts back when no part holds the separator. */
  lemma {:induction false} SplitJoin(parts: seq<string>, sep: char)
    requires |parts| >= 1
    requires forall i :: 0 <= i < |parts| ==> sep !in parts[i]
    ensures Split(Join(parts, sep), sep) == parts
    decreases |parts|
  {
    if |parts| == 1 {
      SplitNoSeparator(parts[0], sep);
    } else {
      SplitAppend(parts[0], Join(parts[1..], sep), sep);
      SplitJoin(parts[1..], sep);
      assert [parts[0]] + parts[1..] == parts;
    }
  }

  /** ASCII lower-casing of one character. */
  function LowerChar(c: char): char
  {
    if 'A' <= c <= 'Z' then (c as int + 32) as char else c
  }

  /** `String.toLowerCase`, restricted to the ASCII letters. */
  function ToLower(s: string): (r: string)
    ensures |r| == |s|
    ensures forall i :: 0 <= i < |s| ==> r[i] == LowerChar(s[i])
  {
    seq(|s|, i requires 0 <= i < |s| => LowerChar(s[i]))
  }

  /** `s.contains(q)`: q occurs in s at some position. */
  predicate Contains(s: string, q: string)
  {
    exists i :: 0 <= i <= |s| - |q| && OccursAt(s, q, i)
  }

  /** q occurs in s starting at position i. */
  predicate OccursAt(s: string, q: string, i: int)
    requires 0 <= i <= |s| - |q|
  {
    s[i..i + |q|] == q
  }

  /** `String.replace(pattern, replacement)`: one left-to-right pass over non-overlapping occurrences. */
  function ReplaceAll(s: string, pattern: string, replacement: string): string
    requires |pattern| > 0
    decreases |s|
  {
    if |s| < |pattern| then s
    else if s[..|pattern|] == pattern then replacement + ReplaceAll(s[|pattern|..], pattern, replacement)
    else [s[0]] + ReplaceAll(s[1..], pattern, replacement)
  }

  /** A text with no occurrence of the pattern comes back unchanged. */
  lemma {:induction false} ReplaceAllNoOccurrence(s: string, pattern: string, replacement: string)
    requires |pattern| > 0
    requires !Contains(s, pattern)
    ensures ReplaceAll(s, pattern, replacement) == s
    decreases |s|
  {
    if |s| >= |pattern| {
      assert !OccursAt(s, pattern, 0);
      assert s[0..0 + |pattern|] == s[..|pattern|];
      forall i | 0 <= i <= |s| - 1 - |pattern|
        ensures !OccursAt(s[1..], pattern, i)
      {
        assert !OccursAt(s, pattern, i + 1);
        assert s[1..][i..i + |pattern|] == s[i + 1..i + 1 + |pattern|];
      }
      ReplaceAllNoOccurrence(s[1..], pattern, replacement);
      assert [s[0]] + s[1..] == s;
    }
  }

  function DigitChar(d: int): char
    requires 0 <= d < 10
  {
    "0123456789"[d]
  }

  /** Decimal rendering of a non-negative number. */
  function NatToString(n: nat): (r: string)
    ensures |r| >= 1
    ensures forall i :: 0 <= i < |r| ==> '0' <= r[i] <= '9'
    decreases n
  {
    if n < 10 then [DigitChar(n)] else NatToString(n / 10) + [DigitChar(n % 10)]
  }

  /** `Long.toString`/`String.valueOf` of an integer. */
  function IntToString(i: int): string
  {
    if i < 0 then "-" + NatToString(-i) else NatToString(i)
  }

  /** `Math.abs` on mathematical integers. */
  function Abs(x: int): (r: nat)
    ensures r == x || r == -x
  {
    if x < 0 then -x else x
  }

  /** The elements that satisfy `p`, in their original order. */
  function Filter<T(!new)>(xs: seq<T>, p: T -> bool): (r: seq<T>)
    ensures |r| <= |xs|
    ensures forall x :: x in r <==> x in xs && p(x)
    ensures multiset(r) <= multiset(xs)
  {
    if xs == [] then []
    else
      var rest := Filter(xs[1..], p);
      assert xs == [xs[0]] + xs[1..];
      if p(xs[0]) then [xs[0]] + rest else rest
  }

  /** Ascending order of the keys. */
  predicate SortedBy<T>(xs: seq<T>, key: T -> int)
  {
    forall i, j :: 0 <= i < j < |xs| ==> key(xs[i]) <= key(xs[j])
  }

  /** Puts `x` in front of the first element with a larger key. */
  function InsertBy<T>(x: T, xs: seq<T>, key: T -> int): (r: seq<T>)
    requires SortedBy(xs, key)
    ensures SortedBy(r, key)
    ensures multiset(r) == multiset(xs) + multiset{x}
    ensures |r| == |xs| + 1
    ensures r[0] == x || (xs != [] && r[0] == xs[0])
  {
    if xs == [] || key(x) <= key(xs[0]) then [x] + xs
    else
      var rest := InsertBy(x, xs[1..], key);
      assert xs == [xs[0]] + xs[1..];
      assert key(xs[0]) <= key(rest[0]);
      [xs[0]] + rest
  }

  /** A sort by key (a stable insertion sort): ordered, and a permutation of the input. */
  function SortBy<T>(xs: seq<T>, key: T -> int): (r: seq<T>)
    ensures SortedBy(r, key)
    ensures multiset(r) == multiset(xs)
    ensures |r| == |xs|
  {
    if xs == [] then []
    else
      assert xs == [xs[0]] + xs[1..];
      InsertBy(xs[0], SortBy(xs[1..], key), key)
  }
}
