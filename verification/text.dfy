/**
 * The string operations the scripts rely on: `str.startswith`, Python's
 * code-point ordering of `str` (used by `sorted`), the decimal rendering of a
 * non-negative `int` in an f-string, and `"\n".join` with its inverse
 * `str.split("\n")`.
 */
module Text {

  /** `s.startswith(prefix)` */
  predicate StartsWith(s: string, prefix: string) {
    |prefix| <= |s| && s[..|prefix|] == prefix
  }

  /** `a < b` on Python strings: lexicographic by code point, a proper prefix first. */
  predicate Less(a: string, b: string)
    decreases |a|
  {
    if |a| == 0 then |b| > 0
    else if |b| == 0 then false
    else if a[0] != b[0] then a[0] < b[0]
    else Less(a[1..], b[1..])
  }

  /** `a <= b` on Python strings. */
  predicate Le(a: string, b: string) {
    a == b || Less(a, b)
  }

  lemma {:induction false} LessIrreflexive(a: string)
    ensures !Less(a, a)
  {
    if |a| > 0 {
      LessIrreflexive(a[1..]);
    }
  }

  lemma {:induction false} LessAsymmetric(a: string, b: string)
    requires Less(a, b)
    ensures !Less(b, a)
  {
    if |a| > 0 && |b| > 0 && a[0] == b[0] {
      LessAsymmetric(a[1..], b[1..]);
    }
  }

  lemma {:induction false} LessTransitive(a: string, b: string, c: string)
    requires Less(a, b) && Less(b, c)
    ensures Less(a, c)
  {
    if |a| > 0 && a[0] == b[0] && b[0] == c[0] {
      LessTransitive(a[1..], b[1..], c[1..]);
    }
  }

  /** Any two distinct strings are ordered one way or the other. */
  lemma {:induction false} LessTotal(a: string, b: string)
    ensures a == b || Less(a, b) || Less(b, a)
  {
    if |a| > 0 && |b| > 0 && a[0] == b[0] {
      LessTotal(a[1..], b[1..]);
      if a[1..] == b[1..] {
        assert a == [a[0]] + a[1..] && b == [b[0]] + b[1..];
      }
    }
  }

  lemma LeTransitive(a: string, b: string, c: string)
    requires Le(a, b) && Le(b, c)
    ensures Le(a, c)
  {
    if a != b && b != c {
      LessTransitive(a, b, c);
    }
  }

  predicate IsDigit(c: char) {
    '0' <= c <= '9'
  }

  function DigitChar(d: nat): (c: char)
    requires d < 10
    ensures IsDigit(c)
  {
    (d + '0' as int) as char
  }

  function DigitValue(c: char): (d: nat)
    requires IsDigit(c)
    ensures d < 10
  {
    c as int - '0' as int
  }

  /** `f"{n}"` for a non-negative `int`: decimal digits, no leading zero. */
  function NatToString(n: nat): (s: string)
    ensures 0 < |s|
    ensures forall k :: 0 <= k < |s| ==> IsDigit(s[k])
  {
    if n < 10 then [DigitChar(n)] else NatToString(n / 10) + [DigitChar(n % 10)]
  }

  /** Reads a string of decimal digits back as a number (`int(s)`). */
  function ParseDigits(s: string): nat
    requires forall k :: 0 <= k < |s| ==> IsDigit(s[k])
  {
    if |s| == 0 then 0 else 10 * ParseDigits(s[..|s| - 1]) + DigitValue(s[|s| - 1])
  }

  /** Rendering and reading back are inverse: distinct indices give distinct names. */
  lemma {:induction false} ParseNatToString(n: nat)
    ensures ParseDigits(NatToString(n)) == n
  {
    var s := NatToString(n);
    if n >= 10 {
      ParseNatToString(n / 10);
      assert s[..|s| - 1] == NatToString(n / 10);
    }
  }

  lemma NatToStringInjective(a: nat, b: nat)
    requires NatToString(a) == NatToString(b)
    ensures a == b
  {
    ParseNatToString(a);
    ParseNatToString(b);
  }

  predicate NoNewline(s: string) {
    forall k :: 0 <= k < |s| ==> s[k] != '\n'
  }

  /** `"\n".join(lines)` */
  function Join(lines: seq<string>): string {
    if |lines| == 0 then ""
    else if |lines| == 1 then lines[0]
    else lines[0] + "\n" + Join(lines[1..])
  }

  /** Index of the first newline of `s`, or `|s|` when there is none. */
  function NewlineIndex(s: string): (k: nat)
    ensures k <= |s|
    ensures k < |s| ==> s[k] == '\n'
    ensures NoNewline(s[..k])
  {
    if |s| == 0 then 0
    else if s[0] == '\n' then 0
    else
      var k := 1 + NewlineIndex(s[1..]);
      assert s[..k] == [s[0]] + s[1..][..k - 1];
      k
  }

  /** `s.split("\n")`: never empty; the pieces hold no newline. */
  function Split(s: string): (pieces: seq<string>)
    ensures 0 < |pieces|
    ensures forall k :: 0 <= k < |pieces| ==> NoNewline(pieces[k])
    decreases |s|
  {
    var k := NewlineIndex(s);
    if k == |s| then
      assert s[..k] == s;
      [s]
    else
      var rest := Split(s[k + 1..]);
      assert forall j :: 1 <= j < 1 + |rest| ==> ([s[..k]] + rest)[j] == rest[j - 1];
      [s[..k]] + rest
  }

  /** Joining the pieces of a split gives back the text. */
  lemma {:induction false} JoinSplit(s: string)
    ensures Join(Split(s)) == s
    decreases |s|
  {
    var k := NewlineIndex(s);
    if k < |s| {
      var head, tail := s[..k], s[k + 1..];
      var rest := Split(tail);
      assert Split(s) == [head] + rest;
      JoinSplit(tail);
      assert Join([head] + rest) == head + "\n" + Join(rest) by {
        assert ([head] + rest)[0] == head && ([head] + rest)[1..] == rest;
      }
      assert s == head + "\n" + tail by {
        assert s[k] == '\n';
      }
    } else {
      assert s[..k] == s;
    }
  }

  /** Splitting joined lines gives back the lines, as long as none holds a newline. */
  lemma {:induction false} SplitJoin(lines: seq<string>)
    requires 0 < |lines|
    requires forall k :: 0 <= k < |lines| ==> NoNewline(lines[k])
    ensures Split(Join(lines)) == lines
  {
    var x := lines[0];
    NewlineIndexOf(x, if |lines| == 1 then "" else "\n" + Join(lines[1..]));
    if |lines| > 1 {
      var s := x + "\n" + Join(lines[1..]);
      assert s == x + ("\n" + Join(lines[1..]));
      assert NewlineIndex(s) == |x| < |s|;
      assert s[..|x|] == x;
      assert s[|x| + 1..] == Join(lines[1..]);
      assert Join(lines) == s;
      SplitJoin(lines[1..]);
      assert Split(s) == [x] + lines[1..];
      assert [x] + lines[1..] == lines;
    } else {
      assert x + "" == x;
    }
  }

  /** The first newline of `x + rest` is at `|x|` when `x` has none and `rest` starts with one. */
  lemma {:induction false} NewlineIndexOf(x: string, rest: string)
    requires NoNewline(x)
    requires |rest| == 0 || rest[0] == '\n'
    ensures NewlineIndex(x + rest) == |x|
  {
    if |x| > 0 {
      assert (x + rest)[1..] == x[1..] + rest;
      NewlineIndexOf(x[1..], rest);
    }
  }
}
