/** The few Python string operations the parser, the data store and the schema
    generator depend on: counting, splitting, joining, stripping, lower-casing
    and decimal printing. Strings are sequences of characters; only the ASCII
    whitespace and ASCII letters are treated specially. */
module Strings {

  /** `str.isspace` restricted to the ASCII range. */
  predicate IsSpace(c: char) {
    c == ' ' || c == '\t' || c == '\n' || c == '\r' || c == '\U{0B}' || c == '\U{0C}'
    || c == '\U{1C}' || c == '\U{1D}' || c == '\U{1E}' || c == '\U{1F}'
  }

  /** Number of occurrences of `c` in `s` (`str.count` with a one-character argument). */
  function Count(s: string, c: char): nat {
    if |s| == 0 then 0 else (if s[0] == c then 1 else 0) + Count(s[1..], c)
  }

  lemma {:induction false} CountAppend(a: string, b: string, c: char)
    ensures Count(a + b, c) == Count(a, c) + Count(b, c)
  {
    if |a| == 0 {
      assert a + b == b;
    } else {
      assert (a + b)[1..] == a[1..] + b;
      CountAppend(a[1..], b, c);
    }
  }

  lemma {:induction false} CountZero(s: string, c: char)
    ensures Count(s, c) == 0 <==> c !in s
  {
    if |s| > 0 {
      CountZero(s[1..], c);
      assert s == [s[0]] + s[1..];
    }
  }

  /** Number of non-overlapping occurrences of "->", scanning left to right as `str.count` does. */
  function CountArrow(s: string): nat {
    if |s| < 2 then 0
    else if s[0] == '-' && s[1] == '>' then 1 + CountArrow(s[2..])
    else CountArrow(s[1..])
  }

  /** `sep.join(parts)`. */
  function Join(parts: seq<string>, sep: string): string {
    if |parts| == 0 then ""
    else if |parts| == 1 then parts[0]
    else parts[0] + sep + Join(parts[1..], sep)
  }

  /** `s.split(c)` for a one-character separator: the maximal pieces between separators. */
  function Split(s: string, c: char): (r: seq<string>)
    ensures |r| == Count(s, c) + 1
    ensures forall i :: 0 <= i < |r| ==> c !in r[i]
    ensures Join(r, [c]) == s
  {
    if |s| == 0 then [""]
    else
      var rest := Split(s[1..], c);
      if s[0] == c then
        assert Join([""] + rest, [c]) == [c] + Join(rest, [c]) by {
          assert ([""] + rest)[1..] == rest;
        }
        [""] + rest
      else
        var r := [[s[0]] + rest[0]] + rest[1..];
        assert Join(r, [c]) == [s[0]] + Join(rest, [c]) by {
          if |rest| > 1 {
            assert r[1..] == rest[1..];
          }
        }
        assert s == [s[0]] + s[1..];
        r
  }

  /** Splitting text that contains exactly one separator yields the text before and after it. */
  lemma SplitAround(a: string, c: char, b: string)
    requires c !in a && c !in b
    ensures Split(a + [c] + b, c) == [a, b]
  {
    var s := a + [c] + b;
    var r := Split(s, c);
    CountAppend(a + [c], b, c);
    CountAppend(a, [c], c);
    CountZero(a, c);
    CountZero(b, c);
    assert |r| == 2;
    assert Join(r, [c]) == r[0] + [c] + r[1];
    SplitUnique(r[0], r[1], a, b, c);
  }

  lemma SplitUnique(x: string, y: string, a: string, b: string, c: char)
    requires c !in x && c !in y && c !in a && c !in b
    requires x + [c] + y == a + [c] + b
    ensures x == a && y == b
  {
    var s := x + [c] + y;
    FirstIndexAfter(x, c, y);
    FirstIndexAfter(a, c, b);
    assert x == s[..|x|];
    assert a == s[..|a|];
    assert y == s[|x| + 1..];
    assert b == s[|a| + 1..];
  }

  /** Position of the first occurrence of `c` in `s`. */
  function FirstIndex(s: string, c: char): (r: nat)
    requires c in s
    ensures r < |s| && s[r] == c
    ensures forall j :: 0 <= j < r ==> s[j] != c
  {
    if s[0] == c then 0 else FirstIndex(s[1..], c) + 1
  }

  lemma FirstIndexAfter(x: string, c: char, y: string)
    requires c !in x
    ensures FirstIndex(x + [c] + y, c) == |x|
  {
    var s := x + [c] + y;
    var r := FirstIndex(s, c);
    assert s[|x|] == c;
    assert forall j :: 0 <= j < |x| ==> s[j] == x[j];
  }

  /** Text before the first separator becomes the first piece; the rest splits on its own. */
  lemma {:induction false} SplitCons(a: string, c: char, b: string)
    requires c !in a
    ensures Split(a + [c] + b, c) == [a] + Split(b, c)
  {
    if |a| == 0 {
      assert a + [c] + b == [c] + b;
      assert ([c] + b)[1..] == b;
    } else {
      assert (a + [c] + b)[1..] == a[1..] + [c] + b;
      SplitCons(a[1..], c, b);
      assert a == [a[0]] + a[1..];
    }
  }

  lemma {:induction false} SplitNoSeparator(s: string, c: char)
    requires c !in s
    ensures Split(s, c) == [s]
  {
    if |s| > 0 {
      SplitNoSeparator(s[1..], c);
      assert s == [s[0]] + s[1..];
    }
  }

  /** A character found in neither the pieces nor the separator is absent from their join. */
  lemma {:induction false} NotInJoin(parts: seq<string>, sep: string, c: char)
    requires c !in sep && forall i :: 0 <= i < |parts| ==> c !in parts[i]
    ensures c !in Join(parts, sep)
  {
    if |parts| > 1 {
      NotInJoin(parts[1..], sep, c);
    }
  }

  /** Text without a dash contributes no arrow. */
  lemma {:induction false} CountArrowSkip(x: string, y: string)
    requires '-' !in x
    ensures CountArrow(x + y) == CountArrow(y)
  {
    if |x| > 0 {
      assert x[0] in x;
      if |x + y| >= 2 {
        assert (x + y)[0] == x[0] != '-';
        assert (x + y)[1..] == x[1..] + y;
        CountArrowSkip(x[1..], y);
      }
    } else {
      assert x + y == y;
    }
  }

  /** Index of the first "->" found scanning left to right. */
  function ArrowIndex(s: string): (i: nat)
    requires CountArrow(s) > 0
    ensures i + 1 < |s| && s[i] == '-' && s[i + 1] == '>'
  {
    if s[0] == '-' && s[1] == '>' then 0 else ArrowIndex(s[1..]) + 1
  }

  lemma {:induction false} ArrowIndexSkip(x: string, y: string)
    requires '-' !in x && CountArrow(y) > 0
    ensures CountArrow(x + y) == CountArrow(y) && ArrowIndex(x + y) == |x| + ArrowIndex(y)
  {
    CountArrowSkip(x, y);
    if |x| > 0 {
      assert (x + y)[1..] == x[1..] + y;
      CountArrowSkip(x[1..], y);
      ArrowIndexSkip(x[1..], y);
    } else {
      assert x + y == y;
    }
  }

  /** `s.lstrip()`: drop leading whitespace. */
  function LStrip(s: string): (r: string)
    ensures |r| <= |s| && r == s[|s| - |r|..]
    ensures |r| > 0 ==> !IsSpace(r[0])
  {
    if |s| > 0 && IsSpace(s[0]) then LStrip(s[1..]) else s
  }

  /** `s.rstrip()`: drop trailing whitespace. */
  function RStrip(s: string): (r: string)
    ensures |r| <= |s| && r == s[..|r|]
    ensures |r| > 0 ==> !IsSpace(r[|r| - 1])
  {
    if |s| > 0 && IsSpace(s[|s| - 1]) then RStrip(s[..|s| - 1]) else s
  }

  /** `s.strip()`. */
  function Strip(s: string): string {
    RStrip(LStrip(s))
  }

  /** A string with no whitespace at either end is its own strip. */
  lemma StripTrimmed(s: string)
    requires |s| > 0 ==> !IsSpace(s[0]) && !IsSpace(s[|s| - 1])
    ensures Strip(s) == s
  {
  }

  /** Leading spaces vanish under strip. */
  lemma {:induction false} StripLeadingSpace(s: string)
    requires |s| > 0 ==> !IsSpace(s[0]) && !IsSpace(s[|s| - 1])
    ensures Strip(" " + s) == s
  {
    assert (" " + s)[1..] == s;
    assert LStrip(" " + s) == LStrip(s);
    StripTrimmed(s);
  }

  /** Trailing spaces vanish under strip. */
  lemma {:induction false} StripTrailingSpace(s: string)
    requires |s| > 0 ==> !IsSpace(s[0]) && !IsSpace(s[|s| - 1])
    ensures Strip(s + " ") == s
  {
    if |s| == 0 {
      assert LStrip(s + " ") == "";
    } else {
      assert (s + " ")[0] == s[0];
      assert LStrip(s + " ") == s + " ";
      assert (s + " ")[|s|] == ' ';
      assert (s + " ")[..|s|] == s;
      assert RStrip(s + " ") == RStrip(s);
    }
  }

  /** Stripping is idempotent and never introduces characters. */
  lemma StripIdempotent(s: string)
    ensures Strip(Strip(s)) == Strip(s)
  {
    var l := LStrip(s);
    var r := RStrip(l);
    if |r| > 0 {
      assert r == l[..|r|];
      assert r[0] == l[0];
    }
  }

  /** ASCII `str.lower`. */
  function Lower(s: string): (r: string)
    ensures |r| == |s|
    ensures forall i :: 0 <= i < |s| ==> r[i] == LowerChar(s[i])
  {
    if |s| == 0 then "" else [LowerChar(s[0])] + Lower(s[1..])
  }

  function LowerChar(c: char): char {
    if 'A' <= c <= 'Z' then (c as int + 32) as char else c
  }

  /** Decimal digits of a natural number, most significant first (`str(n)`). */
  function NatToString(n: nat): (r: string)
    ensures |r| > 0
    ensures forall i :: 0 <= i < |r| ==> '0' <= r[i] <= '9'
    ensures n < 10 ==> r == [DigitChar(n)]
  {
    if n < 10 then [DigitChar(n)] else NatToString(n / 10) + [DigitChar(n % 10)]
  }

  function DigitChar(d: nat): char
    requires d < 10
  {
    (d + '0' as int) as char
  }

  /** The decimal value of a string of digits. */
  function DigitsValue(s: string): nat
    requires forall i :: 0 <= i < |s| ==> '0' <= s[i] <= '9'
  {
    if |s| == 0 then 0 else DigitsValue(s[..|s| - 1]) * 10 + (s[|s| - 1] as int - '0' as int)
  }

  /** Printing a number in decimal loses nothing: its digits read back to it. */
  lemma {:induction false} NatToStringValue(n: nat)
    ensures DigitsValue(NatToString(n)) == n
  {
    if n >= 10 {
      var s := NatToString(n);
      assert s[..|s| - 1] == NatToString(n / 10);
      NatToStringValue(n / 10);
    }
  }

  /** Distinct numbers print differently. */
  lemma NatToStringInjective(m: nat, n: nat)
    requires NatToString(m) == NatToString(n)
    ensures m == n
  {
    NatToStringValue(m);
    NatToStringValue(n);
  }
}
