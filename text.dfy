/**
 * The handful of Python string operations the report relies on:
 * `str.strip()`, `str.split(sep)` with a one-character separator,
 * `sep.join(parts)`, the ASCII classes behind the regular expressions
 * `\d` and `\w`, and `int()` of a run of decimal digits.
 */
module Text {

  /** The ASCII characters for which Python's `str.isspace()` holds. */
  predicate IsSpace(c: char) {
    c == ' ' || c == '\t' || c == '\n' || c == '\r' || c == '\U{0B}' || c == '\U{0C}'
    || ('\U{1C}' <= c <= '\U{1F}')
  }

  predicate AllSpace(s: string) {
    forall k :: 0 <= k < |s| ==> IsSpace(s[k])
  }

  /** A string with no whitespace at either end, as `strip()` leaves it. */
  predicate Stripped(s: string) {
    s == [] || (!IsSpace(s[0]) && !IsSpace(s[|s| - 1]))
  }

  /** `\d` restricted to ASCII. */
  predicate IsDigit(c: char) {
    '0' <= c <= '9'
  }

  /** `\w` restricted to ASCII. */
  predicate IsWordChar(c: char) {
    ('a' <= c <= 'z') || ('A' <= c <= 'Z') || IsDigit(c) || c == '_'
  }

  predicate AllDigits(s: string) {
    forall k :: 0 <= k < |s| ==> IsDigit(s[k])
  }

  // ---------------------------------------------------------------------
  // str.strip()

  /** The first index at or after `i` that is not whitespace (or |s|). */
  function SpaceRunEnd(s: string, i: nat): (j: nat)
    requires i <= |s|
    ensures i <= j <= |s|
    ensures forall k :: i <= k < j ==> IsSpace(s[k])
    ensures j == |s| || !IsSpace(s[j])
    decreases |s| - i
  {
    if i < |s| && IsSpace(s[i]) then SpaceRunEnd(s, i + 1) else i
  }

  /** The last index at or before `j`, and after `lo`, that follows non-whitespace (or lo). */
  function SpaceRunStart(s: string, lo: nat, j: nat): (i: nat)
    requires lo <= j <= |s|
    ensures lo <= i <= j
    ensures forall k :: i <= k < j ==> IsSpace(s[k])
    ensures i == lo || !IsSpace(s[i - 1])
    decreases j
  {
    if j > lo && IsSpace(s[j - 1]) then SpaceRunStart(s, lo, j - 1) else j
  }

  /**
   * Python's `s.strip()`: the result is a slice of `s` with no whitespace at
   * either end, and everything cut off on both sides is whitespace.
   */
  function Strip(s: string): (r: string)
    ensures |r| <= |s| && Stripped(r)
    ensures exists i :: 0 <= i <= |s| - |r| && r == s[i..i + |r|]
                        && AllSpace(s[..i]) && AllSpace(s[i + |r|..])
  {
    var i := SpaceRunEnd(s, 0);
    var j := SpaceRunStart(s, i, |s|);
    assert i < j ==> !IsSpace(s[i]);
    assert AllSpace(s[..i]) && AllSpace(s[j..]);
    assert s[i..j] == s[i..i + (j - i)];
    s[i..j]
  }

  /** Stripping a string that has no whitespace at its ends changes nothing. */
  lemma StripStripped(s: string)
    requires Stripped(s)
    ensures Strip(s) == s
  {
    if s != [] {
      assert SpaceRunEnd(s, 0) == 0;
    }
  }

  // ---------------------------------------------------------------------
  // str.split(sep) and sep.join(parts)

  function CountChar(s: string, c: char): (n: nat)
    ensures n <= |s|
    ensures n == 0 <==> c !in s
  {
    if s == [] then 0 else (if s[0] == c then 1 else 0) + CountChar(s[1..], c)
  }

  /**
   * Python's `s.split(sep)` for a one-character separator: the pieces between
   * separators, empty ones included; never an empty list.
   */
  function Split(s: string, sep: char): (parts: seq<string>)
    ensures |parts| == CountChar(s, sep) + 1
    ensures forall k :: 0 <= k < |parts| ==> sep !in parts[k]
  {
    if s == [] then [[]]
    else
      var rest := Split(s[1..], sep);
      if s[0] == sep then [[]] + rest
      else [[s[0]] + rest[0]] + rest[1..]
  }

  /** Python's `sep.join(parts)`. */
  function Join(parts: seq<string>, sep: string): string
  {
    if |parts| == 0 then []
    else if |parts| == 1 then parts[0]
    else parts[0] + sep + Join(parts[1..], sep)
  }

  /** Joining the pieces of a split with the separator gives back the string. */
  lemma {:induction false} JoinSplit(s: string, sep: char)
    ensures Join(Split(s, sep), [sep]) == s
  {
    if s != [] {
      var rest := Split(s[1..], sep);
      JoinSplit(s[1..], sep);
      if s[0] != sep && |rest| > 1 {
        assert Join(rest, [sep]) == rest[0] + [sep] + Join(rest[1..], [sep]);
      }
    }
  }

  /** Splitting a join of separator-free pieces gives back the pieces. */
  lemma {:induction false} SplitJoin(parts: seq<string>, sep: char)
    requires |parts| > 0
    requires forall k :: 0 <= k < |parts| ==> sep !in parts[k]
    ensures Split(Join(parts, [sep]), sep) == parts
  {
    if |parts| == 1 {
      SplitFree(parts[0], sep);
    } else {
      var tail := Join(parts[1..], [sep]);
      var b := [sep] + tail;
      SplitJoin(parts[1..], sep);
      assert b[1..] == tail;
      var pb := Split(b, sep);
      assert pb == [[]] + parts[1..];
      SplitPrefix(parts[0], b, sep);
      assert Join(parts, [sep]) == parts[0] + b;
      assert parts[0] + pb[0] == parts[0];
      assert [parts[0]] + pb[1..] == parts;
    }
  }

  /** A character in neither the pieces nor the separator is not in the join. */
  lemma {:induction false} JoinFree(parts: seq<string>, sep: string, c: char)
    requires c !in sep
    requires forall k :: 0 <= k < |parts| ==> c !in parts[k]
    ensures c !in Join(parts, sep)
  {
    if |parts| > 1 {
      JoinFree(parts[1..], sep, c);
    }
  }

  /** Non-empty pieces without whitespace at their ends join into such a string. */
  lemma {:induction false} JoinStripped(parts: seq<string>, sep: string)
    requires |parts| > 0
    requires forall k :: 0 <= k < |parts| ==> parts[k] != [] && Stripped(parts[k])
    ensures Join(parts, sep) != [] && Stripped(Join(parts, sep))
  {
    if |parts| > 1 {
      JoinStripped(parts[1..], sep);
      var j := Join(parts, sep);
      assert j == parts[0] + sep + Join(parts[1..], sep);
      assert j[0] == parts[0][0];
      assert j[|j| - 1] == Join(parts[1..], sep)[|Join(parts[1..], sep)| - 1];
    }
  }

  /**
   * Pieces without whitespace at their ends, empty ones included, join into
   * such a string when the separator itself has none at its ends.
   */
  lemma {:induction false} JoinStrippedSep(parts: seq<string>, sep: string)
    requires sep != [] && Stripped(sep)
    requires forall k :: 0 <= k < |parts| ==> Stripped(parts[k])
    ensures Stripped(Join(parts, sep))
  {
    if |parts| > 1 {
      var rest := Join(parts[1..], sep);
      JoinStrippedSep(parts[1..], sep);
      var j := Join(parts, sep);
      assert j == parts[0] + sep + rest;
      assert j[0] == if parts[0] != [] then parts[0][0] else sep[0];
      assert j[|j| - 1] == if rest != [] then rest[|rest| - 1] else sep[|sep| - 1];
    }
  }

  /** A string without the separator splits into itself alone. */
  lemma {:induction false} SplitFree(s: string, sep: char)
    requires sep !in s
    ensures Split(s, sep) == [s]
  {
    if s != [] {
      SplitFree(s[1..], sep);
      assert [s[0]] + s[1..] == s;
    }
  }

  /** A separator-free prefix becomes the start of the first piece. */
  lemma {:induction false} SplitPrefix(a: string, b: string, sep: char)
    requires sep !in a
    ensures var pb := Split(b, sep);
            Split(a + b, sep) == [a + pb[0]] + pb[1..]
  {
    if a != [] {
      SplitPrefix(a[1..], b, sep);
      assert (a + b)[1..] == a[1..] + b;
      assert [a[0]] + (a[1..] + Split(b, sep)[0]) == a + Split(b, sep)[0];
    } else {
      var pb := Split(b, sep);
      assert a + b == b;
      assert a + pb[0] == pb[0];
      assert [pb[0]] + pb[1..] == pb;
    }
  }

  // ---------------------------------------------------------------------
  // Maximal runs, as greedy `\d+` and `\w+` take them

  /** The end of the longest run of digits that starts at `p`. */
  function DigitRunEnd(s: string, p: nat): (q: nat)
    requires p <= |s|
    ensures p <= q <= |s|
    ensures AllDigits(s[p..q])
    ensures q == |s| || !IsDigit(s[q])
    decreases |s| - p
  {
    if p < |s| && IsDigit(s[p]) then DigitRunEnd(s, p + 1) else p
  }

  /** The end of the longest run of word characters that starts at `p`. */
  function WordRunEnd(s: string, p: nat): (q: nat)
    requires p <= |s|
    ensures p <= q <= |s|
    ensures forall k :: p <= k < q ==> IsWordChar(s[k])
    ensures q == |s| || !IsWordChar(s[q])
    decreases |s| - p
  {
    if p < |s| && IsWordChar(s[p]) then WordRunEnd(s, p + 1) else p
  }

  // ---------------------------------------------------------------------
  // int() of decimal digits, and its inverse str() on naturals

  function DigitValue(c: char): nat
    requires IsDigit(c)
  {
    (c - '0') as nat
  }

  function DigitChar(d: nat): (c: char)
    requires d < 10
    ensures IsDigit(c) && DigitValue(c) == d
  {
    ('0' as int + d) as char
  }

  /** Python's `int(ds)` for a string of ASCII digits (leading zeros allowed). */
  function DecimalValue(ds: string): nat
    requires AllDigits(ds)
  {
    if ds == [] then 0
    else DecimalValue(ds[..|ds| - 1]) * 10 + DigitValue(ds[|ds| - 1])
  }

  /** Python's `str(n)` for a natural number. */
  function NatToDecimal(n: nat): (ds: string)
    ensures ds != [] && AllDigits(ds)
  {
    if n < 10 then [DigitChar(n)] else NatToDecimal(n / 10) + [DigitChar(n % 10)]
  }

  /** Reading back the decimal rendering of `n` gives `n`. */
  lemma {:induction false} DecimalRoundTrip(n: nat)
    ensures DecimalValue(NatToDecimal(n)) == n
  {
    var ds := NatToDecimal(n);
    if n < 10 {
      assert ds[..0] == [];
    } else {
      DecimalRoundTrip(n / 10);
      assert ds[..|ds| - 1] == NatToDecimal(n / 10);
    }
  }
}
