/**
 The Python `str` builtins the scripts rely on, over `string` (a sequence of
 Unicode scalar values, like a Python `str`): `strip()` with no argument,
 `split` on one character, `join`, `lower()` as far as it matters for a
 comparison with "y", and `int()` on decimal text.
 */
module Strings {

  datatype Option<+T> = None | Some(value: T)

  /** Python's `str.isspace()` for one character: the code points `strip()` removes. */
  predicate IsSpace(c: char) {
    var n := c as int;
    || (0x09 <= n <= 0x0D)
    || (0x1C <= n <= 0x20)
    || n == 0x85 || n == 0xA0 || n == 0x1680
    || (0x2000 <= n <= 0x200A)
    || n == 0x2028 || n == 0x2029 || n == 0x202F || n == 0x205F || n == 0x3000
  }

  predicate AllSpace(s: string) {
    forall i :: 0 <= i < |s| ==> IsSpace(s[i])
  }

  /** Neither end of `s` is whitespace (vacuously so for the empty string). */
  predicate Trimmed(s: string) {
    s == [] || (!IsSpace(s[0]) && !IsSpace(s[|s| - 1]))
  }

  /** The first index from `i` on that does not hold whitespace, or `|s|`. */
  function SkipSpace(s: string, i: nat): (r: nat)
    requires i <= |s|
    ensures i <= r <= |s|
    ensures forall k :: i <= k < r ==> IsSpace(s[k])
    ensures r < |s| ==> !IsSpace(s[r])
    decreases |s| - i
  {
    if i < |s| && IsSpace(s[i]) then SkipSpace(s, i + 1) else i
  }

  /** The end of `s[..j]` once the whitespace it ends with is dropped. */
  function SkipSpaceBack(s: string, j: nat): (r: nat)
    requires j <= |s|
    ensures r <= j
    ensures forall k :: r <= k < j ==> IsSpace(s[k])
    ensures r > 0 ==> !IsSpace(s[r - 1])
  {
    if j > 0 && IsSpace(s[j - 1]) then SkipSpaceBack(s, j - 1) else j
  }

  /** How many whitespace characters `s` starts with. */
  function Indent(s: string): (n: nat)
    ensures n <= |s|
  {
    SkipSpace(s, 0)
  }

  /** Python's `s.strip()`: `s` without the whitespace at either end. */
  function Strip(s: string): (r: string)
    ensures |r| <= |s|
  {
    var i := SkipSpace(s, 0);
    if i == |s| then
      []
    else
      var j := SkipSpaceBack(s, |s|);
      assert i < j;
      s[i..j]
  }

  /**
   What strip keeps is a trimmed, contiguous part of the text, empty exactly
   when the text is all whitespace, and what it removes is whitespace.
   */
  lemma StripSpec(s: string)
    ensures Trimmed(Strip(s))
    ensures Strip(s) == [] <==> AllSpace(s)
    ensures var r := Strip(s);
            && Indent(s) + |r| <= |s| && r == s[Indent(s)..Indent(s) + |r|]
            && AllSpace(s[..Indent(s)]) && AllSpace(s[Indent(s) + |r|..])
  {
    var i := SkipSpace(s, 0);
    if i < |s| {
      var j := SkipSpaceBack(s, |s|);
      assert i < j;
      assert !AllSpace(s) by { assert !IsSpace(s[i]); }
    }
  }

  /**
   Strip is characterised by its shape: whatever splits `s` into whitespace,
   a trimmed middle and whitespace has that middle as its strip.
   */
  lemma StripUnique(s: string, a: string, t: string, b: string)
    requires s == a + t + b && AllSpace(a) && AllSpace(b) && Trimmed(t)
    ensures Strip(s) == t
  {
    if t == [] {
      assert AllSpace(s) by {
        forall k | 0 <= k < |s| ensures IsSpace(s[k]) {
          if k < |a| { assert s[k] == a[k]; } else { assert s[k] == b[k - |a|]; }
        }
      }
      StripSpec(s);
    } else {
      assert s[|a|] == t[0];
      SkipSpaceOver(s, |a|, 0);
      assert s[|a| + |t| - 1] == t[|t| - 1];
      SkipSpaceBackOver(s, |a| + |t|, |s|);
      assert s[|a|..|a| + |t|] == t;
    }
  }

  /** Skipping from `i` stops at the first non-space at or after it. */
  lemma {:induction false} SkipSpaceOver(s: string, m: nat, i: nat)
    requires i <= m < |s| && !IsSpace(s[m])
    requires forall k :: i <= k < m ==> IsSpace(s[k])
    ensures SkipSpace(s, i) == m
    decreases m - i
  {
    if i < m {
      SkipSpaceOver(s, m, i + 1);
    }
  }

  /** Skipping back from `j` stops just after the last non-space before it. */
  lemma {:induction false} SkipSpaceBackOver(s: string, m: nat, j: nat)
    requires 0 < m <= j <= |s| && !IsSpace(s[m - 1])
    requires forall k :: m <= k < j ==> IsSpace(s[k])
    ensures SkipSpaceBack(s, j) == m
    decreases j - m
  {
    if m < j {
      SkipSpaceBackOver(s, m, j - 1);
    }
  }

  /** Stripping twice is stripping once. */
  lemma StripIdempotent(s: string)
    ensures Strip(Strip(s)) == Strip(s)
  {
    var t := Strip(s);
    StripSpec(s);
    assert t == [] + t + [];
    StripUnique(t, [], t, []);
  }

  /** Python's `s.split(sep)`: the pieces between separators, empty ones included. */
  function Split(s: string, sep: char): (parts: seq<string>)
    ensures |parts| >= 1
    decreases |s|
  {
    if s == [] then [[]]
    else
      var rest := Split(s[1..], sep);
      if s[0] == sep then [[]] + rest else [[s[0]] + rest[0]] + rest[1..]
  }

  /** No piece of a split contains the separator. */
  lemma {:induction false} SplitPartsLackSeparator(s: string, sep: char)
    ensures forall k :: 0 <= k < |Split(s, sep)| ==> sep !in Split(s, sep)[k]
    decreases |s|
  {
    if s != [] {
      SplitPartsLackSeparator(s[1..], sep);
    }
  }

  /** Text without the separator is one piece. */
  lemma {:induction false} SplitNoSeparator(s: string, sep: char)
    requires sep !in s
    ensures Split(s, sep) == [s]
    decreases |s|
  {
    if s != [] {
      SplitNoSeparator(s[1..], sep);
      assert [s[0]] + s[1..] == s;
    }
  }

  /** Splitting at a separator the text carries splits the pieces apart. */
  lemma {:induction false} SplitAppend(a: string, b: string, sep: char)
    ensures Split(a + [sep] + b, sep) == Split(a, sep) + Split(b, sep)
    decreases |a|
  {
    var s := a + [sep] + b;
    if a == [] {
      assert s == [sep] + b;
      assert s[1..] == b;
    } else {
      assert s[1..] == a[1..] + [sep] + b;
      SplitAppend(a[1..], b, sep);
    }
  }

  /** Python's `sep.join(parts)`. */
  function Join(parts: seq<string>, sep: string): string
  {
    if |parts| == 0 then ""
    else if |parts| == 1 then parts[0]
    else parts[0] + sep + Join(parts[1..], sep)
  }

  /** Joining one more piece adds the separator and the piece at the end. */
  lemma {:induction false} JoinAppend(parts: seq<string>, x: string, sep: string)
    requires parts != []
    ensures Join(parts + [x], sep) == Join(parts, sep) + sep + x
  {
    if |parts| == 1 {
      assert (parts + [x])[1..] == [x];
    } else {
      assert (parts + [x])[1..] == parts[1..] + [x];
      JoinAppend(parts[1..], x, sep);
    }
  }

  /** Joining the pieces of a split with the separator gives the text back. */
  lemma {:induction false} JoinSplit(s: string, sep: char)
    ensures Join(Split(s, sep), [sep]) == s
    decreases |s|
  {
    if s != [] {
      var rest := Split(s[1..], sep);
      JoinSplit(s[1..], sep);
      if s[0] == sep {
        assert s == [sep] + s[1..];
      } else if |rest| == 1 {
        assert s == [s[0]] + rest[0];
      } else {
        assert Join(rest, [sep]) == rest[0] + [sep] + Join(rest[1..], [sep]);
        assert s == [s[0]] + rest[0] + [sep] + Join(rest[1..], [sep]);
      }
    }
  }

  /** Splitting a join of separator-free pieces gives the pieces back. */
  lemma {:induction false} SplitJoin(parts: seq<string>, sep: char)
    requires |parts| >= 1
    requires forall k :: 0 <= k < |parts| ==> sep !in parts[k]
    ensures Split(Join(parts, [sep]), sep) == parts
  {
    var p := parts[0];
    assert sep !in p;
    SplitNoSeparator(p, sep);
    if |parts| > 1 {
      var rest := Join(parts[1..], [sep]);
      SplitJoin(parts[1..], sep);
      SplitAppend(p, rest, sep);
      assert parts == [p] + parts[1..];
    }
  }

  /** Python's `str.lower()` on one character, for the ASCII letters. */
  function LowerChar(c: char): char {
    if 'A' <= c <= 'Z' then (c as int + 32) as char else c
  }

  function Lower(s: string): (r: string)
    ensures |r| == |s|
  {
    seq(|s|, i requires 0 <= i < |s| => LowerChar(s[i]))
  }

  /** The answers that lower-case to exactly "y". */
  lemma LowerIsY(s: string)
    ensures Lower(s) == "y" <==> s == "y" || s == "Y"
  {
    if Lower(s) == "y" {
      assert |s| == 1;
      assert Lower(s)[0] == LowerChar(s[0]);
      assert s == [s[0]];
    }
  }

  predicate IsDigit(c: char) {
    '0' <= c <= '9'
  }

  /**
   The digit strings Python's `int()` accepts: ASCII digits, with single
   underscores allowed between two digits.
   */
  predicate DigitString(s: string) {
    && |s| >= 1
    && IsDigit(s[0])
    && IsDigit(s[|s| - 1])
    && (forall k :: 0 <= k < |s| ==> IsDigit(s[k]) || s[k] == '_')
    && (forall k :: 0 <= k < |s| - 1 ==> IsDigit(s[k]) || IsDigit(s[k + 1]))
  }

  /** The number the digits of `s` spell, underscores ignored. */
  function DigitsValue(s: string): nat
  {
    if s == [] then 0
    else if IsDigit(s[|s| - 1]) then 10 * DigitsValue(s[..|s| - 1]) + (s[|s| - 1] as int - '0' as int)
    else DigitsValue(s[..|s| - 1])
  }

  /** Python's `int(s)` in base 10; None where Python raises ValueError. */
  function ParseInt(s: string): (r: Option<int>)
    ensures r.Some? ==> Strip(s) != []
  {
    var t := Strip(s);
    if t != [] && (t[0] == '+' || t[0] == '-') then
      if DigitString(t[1..]) then
        var v: int := DigitsValue(t[1..]);
        Some(if t[0] == '-' then -v else v)
      else None
    else if DigitString(t) then Some(DigitsValue(t))
    else None
  }

  function DigitChar(d: nat): (c: char)
    requires d < 10
    ensures IsDigit(c)
  {
    ('0' as int + d) as char
  }

  /** The decimal text of `n`, as `str(n)` and `git rev-list --count` print it. */
  function NatToString(n: nat): (s: string)
    ensures |s| >= 1
    ensures forall k :: 0 <= k < |s| ==> IsDigit(s[k])
  {
    if n < 10 then [DigitChar(n)] else NatToString(n / 10) + [DigitChar(n % 10)]
  }

  lemma {:induction false} DigitsValueOfNat(n: nat)
    ensures DigitsValue(NatToString(n)) == n
  {
    var s := NatToString(n);
    if n < 10 {
      assert s[..0] == [];
    } else {
      assert s[..|s| - 1] == NatToString(n / 10);
      DigitsValueOfNat(n / 10);
    }
  }

  /** A digit string has nothing to strip. */
  lemma StripDigits(s: string)
    requires |s| >= 1 && forall k :: 0 <= k < |s| ==> IsDigit(s[k])
    ensures Strip(s) == s
  {
    assert IsDigit(s[0]) && IsDigit(s[|s| - 1]);
    assert s == [] + s + [];
    StripUnique(s, [], s, []);
  }

  lemma DigitStringOfDigits(s: string)
    requires |s| >= 1 && forall k :: 0 <= k < |s| ==> IsDigit(s[k])
    ensures DigitString(s)
  {
    assert IsDigit(s[0]) && IsDigit(s[|s| - 1]);
  }

  /** `int()` reads a trimmed digit string as the number it spells. */
  lemma ParseIntDigitString(s: string)
    requires Strip(s) == s && DigitString(s)
    ensures ParseInt(s) == Some(DigitsValue(s))
  {
    assert IsDigit(s[0]);
  }

  /** `int(str(n)) == n` for every count git can print. */
  lemma ParseIntOfNat(n: nat)
    ensures ParseInt(NatToString(n)) == Some(n)
  {
    var s := NatToString(n);
    StripDigits(s);
    DigitStringOfDigits(s);
    ParseIntDigitString(s);
    DigitsValueOfNat(n);
  }
}
