/**
 * Character classes and the few string conversions of Python's built-ins that the
 * agent relies on: `str(n)` for integers, `int(s)`, `s.split(sep)`, `s.split()` and
 * `sep.join(xs)`. Only ASCII characters are classified; see README.
 */
module Text {
  import opened Wrappers

  /** `\d` and `str.isdigit` restricted to ASCII. */
  predicate IsDigit(c: char) { '0' <= c <= '9' }

  /** `\w` restricted to ASCII: letters, digits and the underscore. */
  predicate IsWordChar(c: char) {
    ('a' <= c <= 'z') || ('A' <= c <= 'Z') || IsDigit(c) || c == '_'
  }

  /** The ASCII characters for which Python's `str.isspace` holds. */
  predicate IsSpace(c: char) {
    c == ' ' || (9 <= c as int <= 13) || (28 <= c as int <= 31)
  }

  predicate AllDigits(s: string) { forall i :: 0 <= i < |s| ==> IsDigit(s[i]) }

  /** `s.startswith(p)`. */
  predicate StartsWith(s: string, p: string) {
    |p| <= |s| && s[..|p|] == p
  }

  /** No element occurs twice. */
  predicate Distinct<T(==)>(xs: seq<T>) {
    forall i, j :: 0 <= i < j < |xs| ==> xs[i] != xs[j]
  }

  function DigitValue(c: char): (d: nat)
    requires IsDigit(c)
    ensures d < 10
  {
    (c as int) - ('0' as int)
  }

  function DigitChar(d: nat): (c: char)
    requires d < 10
    ensures IsDigit(c) && DigitValue(c) == d
  {
    (('0' as int) + d) as char
  }

  /** The value of a string of decimal digits, most significant first (leading zeros allowed). */
  function DigitsValue(s: string): nat
    requires AllDigits(s)
  {
    if s == [] then 0 else DigitsValue(s[..|s| - 1]) * 10 + DigitValue(s[|s| - 1])
  }

  /** `str(n)` for a natural number: the shortest decimal rendering, which reads back as n. */
  function NatToString(n: nat): (r: string)
    ensures |r| > 0 && AllDigits(r)
    ensures DigitsValue(r) == n
    ensures r[0] == '0' ==> r == "0"
  {
    if n < 10 then [DigitChar(n)]
    else
      var prefix := NatToString(n / 10);
      var r := prefix + [DigitChar(n % 10)];
      assert r[..|r| - 1] == prefix;
      r
  }

  /** `str(i)` for any integer. */
  function IntToString(i: int): (r: string)
    ensures |r| > 0
    ensures i >= 0 ==> AllDigits(r) && DigitsValue(r) == i
    ensures i < 0 ==> r[0] == '-' && AllDigits(r[1..]) && DigitsValue(r[1..]) == -i
  {
    if i < 0 then
      var r := "-" + NatToString(-i);
      assert r[1..] == NatToString(-i);
      r
    else NatToString(i)
  }

  /**
   * The whitespace `int()` skips around its digits: ASCII space, tab, LF, VT, FF and CR.
   * The separators 0x1C-0x1F satisfy `str.isspace` but are not among them.
   */
  predicate IsIntSpace(c: char) {
    c == ' ' || (9 <= c as int <= 13)
  }

  /** The text `int()` reads: leading and trailing `IsIntSpace` characters dropped. */
  function IntStrip(s: string): (r: string)
    ensures |r| <= |s|
    ensures r != [] ==> !IsIntSpace(r[0]) && !IsIntSpace(r[|r| - 1])
    ensures (s == [] || (!IsIntSpace(s[0]) && !IsIntSpace(s[|s| - 1]))) ==> r == s
  {
    if s == [] then s
    else if IsIntSpace(s[0]) then IntStrip(s[1..])
    else if IsIntSpace(s[|s| - 1]) then IntStrip(s[..|s| - 1])
    else s
  }

  /**
   * The digit part Python's `int()` accepts: digits, where a single underscore may stand
   * between two digits.
   */
  predicate IsDigitGroup(b: string) {
    && |b| > 0
    && IsDigit(b[0])
    && IsDigit(b[|b| - 1])
    && (forall i :: 0 <= i < |b| ==> IsDigit(b[i]) || b[i] == '_')
    && (forall i :: 0 < i < |b| ==> b[i] == '_' ==> b[i - 1] != '_')
  }

  function DropUnderscores(b: string): (r: string)
    requires forall i :: 0 <= i < |b| ==> IsDigit(b[i]) || b[i] == '_'
    ensures AllDigits(r) && |r| <= |b|
  {
    if b == [] then []
    else if b[0] == '_' then DropUnderscores(b[1..])
    else [b[0]] + DropUnderscores(b[1..])
  }

  lemma {:induction false} DropUnderscoresOfDigits(b: string)
    requires AllDigits(b)
    ensures DropUnderscores(b) == b
  {
    if b != [] { DropUnderscoresOfDigits(b[1..]); }
  }

  /**
   * Python's `int(s)` on a string: None where it raises ValueError. Surrounding `IsIntSpace`
   * characters are ignored and one sign is allowed.
   */
  function PyInt(s: string): Option<int>
  {
    var t := IntStrip(s);
    var neg := |t| > 0 && t[0] == '-';
    var body := if |t| > 0 && (t[0] == '-' || t[0] == '+') then t[1..] else t;
    if IsDigitGroup(body) then
      var v: int := DigitsValue(DropUnderscores(body));
      Some(if neg then -v else v)
    else None
  }

  lemma {:induction false} DigitsGroup(d: string)
    requires |d| > 0 && AllDigits(d)
    ensures IsDigitGroup(d) && IntStrip(d) == d && !IsIntSpace(d[|d| - 1])
    ensures DigitsValue(DropUnderscores(d)) == DigitsValue(d)
  {
    assert IsDigit(d[0]) && IsDigit(d[|d| - 1]);
    DropUnderscoresOfDigits(d);
  }

  lemma {:induction false} PyIntOfDigits(d: string)
    requires |d| > 0 && AllDigits(d)
    ensures PyInt(d) == Some(DigitsValue(d))
  {
    DigitsGroup(d);
    assert d[0] != '-' && d[0] != '+';
  }

  lemma {:induction false} PyIntOfNegatedDigits(d: string)
    requires |d| > 0 && AllDigits(d)
    ensures PyInt("-" + d) == Some(-(DigitsValue(d) as int))
  {
    var m := "-" + d;
    DigitsGroup(d);
    assert m[0] == '-' && m[1..] == d && m[|m| - 1] == d[|d| - 1];
    assert IntStrip(m) == m;
  }

  /** `int(str(i)) == i`: Python's integer parse reads back what `str` renders. */
  lemma {:induction false} PyIntOfIntToString(i: int)
    ensures PyInt(IntToString(i)) == Some(i)
  {
    if i < 0 {
      PyIntOfNegatedDigits(NatToString(-i));
    } else {
      PyIntOfDigits(NatToString(i));
    }
  }

  /**
   * A digit padded with an information separator (0x1C) is refused, although `str.isspace`
   * holds for that character.
   */
  lemma {:induction false} PyIntRefusesSeparator()
    ensures PyInt([28 as char, '5']) == None
  {
    var s := [28 as char, '5'];
    assert IntStrip(s) == s;
    assert !IsDigitGroup(s) by { assert !IsDigit(s[0]) && s[0] != '_'; }
  }

  /** `s.split(sep)`: the pieces between occurrences of `sep`; never empty. */
  function Split(s: string, sep: char): (r: seq<string>)
    ensures |r| > 0
    ensures forall i :: 0 <= i < |r| ==> sep !in r[i]
  {
    if s == [] then [[]]
    else if s[0] == sep then [[]] + Split(s[1..], sep)
    else
      var rest := Split(s[1..], sep);
      [[s[0]] + rest[0]] + rest[1..]
  }

  /** `sep.join(xs)`. */
  function Join(xs: seq<string>, sep: char): string
  {
    if |xs| == 0 then []
    else if |xs| == 1 then xs[0]
    else xs[0] + [sep] + Join(xs[1..], sep)
  }

  lemma {:induction false} SplitWithout(x: string, sep: char)
    requires sep !in x
    ensures Split(x, sep) == [x]
  {
    if x != [] {
      SplitWithout(x[1..], sep);
      assert [x[0]] + x[1..] == x;
    }
  }

  lemma {:induction false} SplitAfterPiece(x: string, sep: char, rest: string)
    requires sep !in x
    ensures Split(x + [sep] + rest, sep) == [x] + Split(rest, sep)
  {
    if x == [] {
      assert x + [sep] + rest == [sep] + rest;
    } else {
      assert (x + [sep] + rest)[1..] == x[1..] + [sep] + rest;
      SplitAfterPiece(x[1..], sep, rest);
      assert [x[0]] + x[1..] == x;
    }
  }

  /** Splitting a join on the same separator gives the pieces back. */
  lemma {:induction false} SplitJoin(xs: seq<string>, sep: char)
    requires |xs| > 0
    requires forall i :: 0 <= i < |xs| ==> sep !in xs[i]
    ensures Split(Join(xs, sep), sep) == xs
  {
    if |xs| == 1 {
      SplitWithout(xs[0], sep);
    } else {
      SplitAfterPiece(xs[0], sep, Join(xs[1..], sep));
      SplitJoin(xs[1..], sep);
    }
  }

  /** The length of the longest prefix of s without whitespace. */
  function WordLength(s: string): (n: nat)
    ensures n <= |s|
    ensures forall i :: 0 <= i < n ==> !IsSpace(s[i])
    ensures n < |s| ==> IsSpace(s[n])
  {
    if s == [] || IsSpace(s[0]) then 0 else 1 + WordLength(s[1..])
  }

  /** `s.split()`: the maximal runs of non-whitespace characters, in order. */
  function SplitWhitespace(s: string): (r: seq<string>)
    ensures forall i :: 0 <= i < |r| ==> |r[i]| > 0
    decreases |s|
  {
    if s == [] then []
    else if IsSpace(s[0]) then SplitWhitespace(s[1..])
    else
      var n := WordLength(s);
      [s[..n]] + SplitWhitespace(s[n..])
  }

  predicate IsSplitWord(w: string) {
    |w| > 0 && forall i :: 0 <= i < |w| ==> !IsSpace(w[i])
  }

  lemma {:induction false} WordLengthOfSplitWord(w: string, rest: string)
    requires forall i :: 0 <= i < |w| ==> !IsSpace(w[i])
    requires rest == [] || IsSpace(rest[0])
    ensures WordLength(w + rest) == |w|
  {
    if w != [] {
      assert (w + rest)[1..] == w[1..] + rest;
      WordLengthOfSplitWord(w[1..], rest);
    }
  }

  /** Splitting a space-joined list of words on whitespace gives the words back. */
  lemma {:induction false} SplitWhitespaceJoin(xs: seq<string>)
    requires forall i :: 0 <= i < |xs| ==> IsSplitWord(xs[i])
    ensures SplitWhitespace(Join(xs, ' ')) == xs
  {
    if |xs| == 1 {
      var w := xs[0];
      assert w + [] == w;
      WordLengthOfSplitWord(w, []);
      assert w[..|w|] == w && w[|w|..] == [];
      assert !IsSpace(w[0]);
      assert SplitWhitespace(w) == [w] + SplitWhitespace([]);
    } else if |xs| > 1 {
      var s := Join(xs, ' ');
      var tail := Join(xs[1..], ' ');
      assert s == xs[0] + ([' '] + tail);
      WordLengthOfSplitWord(xs[0], [' '] + tail);
      assert s[..|xs[0]|] == xs[0];
      assert s[|xs[0]|..] == [' '] + tail;
      assert ([' '] + tail)[1..] == tail;
      SplitWhitespaceJoin(xs[1..]);
    }
  }
}
