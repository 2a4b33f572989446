/** The Python string operations the pipeline relies on: `str(k)` of a
    non-negative int, the display name `n + ' ' + str(k)`, and the ordering
    `<` that `sorted` uses on strings. */
module Text {
  import opened Results

  predicate IsDigit(c: char) {
    '0' <= c <= '9'
  }

  predicate AllDigits(s: string) {
    forall i :: 0 <= i < |s| ==> IsDigit(s[i])
  }

  function DigitChar(d: nat): (c: char)
    requires d < 10
    ensures IsDigit(c)
  {
    ('0' as int + d) as char
  }

  /** The number a run of decimal digits denotes (most significant first). */
  function DigitsValue(s: string): nat
    requires AllDigits(s)
  {
    if |s| == 0 then 0
    else DigitsValue(s[..|s| - 1]) * 10 + (s[|s| - 1] as int - '0' as int)
  }

  /** `str(n)` for a non-negative int: decimal digits, no leading zero. */
  function NatToString(n: nat): (s: string)
    ensures |s| >= 1 && AllDigits(s)
    ensures |s| > 1 ==> s[0] != '0'
    ensures DigitsValue(s) == n
    decreases n
  {
    if n < 10 then [DigitChar(n)]
    else
      var prefix := NatToString(n / 10);
      var s := prefix + [DigitChar(n % 10)];
      assert s[..|s| - 1] == prefix;
      s
  }

  /** The label the pipeline gives an instance: class name, a space, ordinal. */
  function DisplayName(name: string, ordinal: nat): string {
    name + " " + NatToString(ordinal)
  }

  /** Index of the last space in `s`, or -1 when there is none. */
  function LastSpace(s: string): (i: int)
    ensures -1 <= i < |s|
    ensures i >= 0 ==> s[i] == ' '
    ensures forall j :: i < j < |s| ==> s[j] != ' '
  {
    if |s| == 0 then -1
    else if s[|s| - 1] == ' ' then |s| - 1
    else LastSpace(s[..|s| - 1])
  }

  /** Inverse of DisplayName: split at the last space into the class name and
      the decimal ordinal after it. */
  function SplitDisplayName(s: string): Option<(string, nat)> {
    var i := LastSpace(s);
    if i < 0 then None
    else
      var digits := s[i + 1..];
      if |digits| > 0 && AllDigits(digits) then Some((s[..i], DigitsValue(digits)))
      else None
  }

  /** A display name can be split back into the class name and ordinal it was
      built from, even when the class name itself contains spaces. */
  lemma DisplayNameRoundTrip(name: string, ordinal: nat)
    ensures SplitDisplayName(DisplayName(name, ordinal)) == Some((name, ordinal))
  {
    var digits := NatToString(ordinal);
    var s := DisplayName(name, ordinal);
    var i := LastSpace(s);
    assert s[|name|] == ' ';
    assert i == |name|;
    assert s[i + 1..] == digits;
    assert s[..i] == name;
  }

  /** Distinct (class, ordinal) pairs never share a display name. */
  lemma DisplayNameInjective(n1: string, k1: nat, n2: string, k2: nat)
    requires DisplayName(n1, k1) == DisplayName(n2, k2)
    ensures n1 == n2 && k1 == k2
  {
    DisplayNameRoundTrip(n1, k1);
    DisplayNameRoundTrip(n2, k2);
  }

  /** Python's `a < b` on str: lexicographic by code point, and a proper
      prefix comes first. */
  predicate LexLess(a: string, b: string) {
    if |b| == 0 then false
    else if |a| == 0 then true
    else if a[0] != b[0] then a[0] < b[0]
    else LexLess(a[1..], b[1..])
  }

  lemma {:induction false} LexIrreflexive(a: string)
    ensures !LexLess(a, a)
  {
    if |a| > 0 {
      LexIrreflexive(a[1..]);
    }
  }

  lemma {:induction false} LexTransitive(a: string, b: string, c: string)
    requires LexLess(a, b) && LexLess(b, c)
    ensures LexLess(a, c)
  {
    if |a| > 0 && a[0] == b[0] && b[0] == c[0] {
      LexTransitive(a[1..], b[1..], c[1..]);
    }
  }

  /** Any two strings are equal or ordered one way; never both ways. */
  lemma {:induction false} LexTrichotomy(a: string, b: string)
    ensures a == b || LexLess(a, b) || LexLess(b, a)
    ensures !(LexLess(a, b) && LexLess(b, a))
  {
    if |a| > 0 && |b| > 0 && a[0] == b[0] {
      LexTrichotomy(a[1..], b[1..]);
      if a[1..] == b[1..] {
        assert a == [a[0]] + a[1..];
        assert b == [b[0]] + b[1..];
      }
    }
  }

  /** The order is on characters, not on the numbers they spell: a tenth
      instance sorts before a second one. */
  lemma TenthBeforeSecond()
    ensures LexLess(DisplayName("cat", 10), DisplayName("cat", 2))
  {
    assert NatToString(10) == "10";
    assert NatToString(2) == "2";
    assert DisplayName("cat", 10) == "cat 10";
    assert DisplayName("cat", 2) == "cat 2";
    assert LexLess("10", "2");
    assert LexLess(" 10", " 2");
  }
}
