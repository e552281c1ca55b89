/** Character classes and small string operations shared by every part of the
    crawler: the ASCII reading of Python's `\w`, `\d`, `\s`, `str.lower`,
    `str.strip`, slicing, `str(int)`, and the leftmost-position scan that
    `re.search` performs. */
module Text {
  import opened Wrappers

  /** `\d`, restricted to ASCII. */
  predicate IsDigit(c: char) { '0' <= c <= '9' }

  /** `\w`, restricted to ASCII: letters, digits and the underscore. */
  predicate IsWordChar(c: char) {
    'a' <= c <= 'z' || 'A' <= c <= 'Z' || IsDigit(c) || c == '_'
  }

  /** The ASCII characters for which `str.isspace` holds, which is also what
      `\s` and `str.strip()` treat as whitespace: tab, line feed, vertical
      tab, form feed, carriage return, the four separators 0x1C-0x1F and space. */
  predicate IsSpace(c: char) {
    9 <= c as int <= 13 || 28 <= c as int <= 32
  }

  /** `str.lower` on one character, restricted to ASCII. */
  function ToLower(c: char): char {
    if 'A' <= c <= 'Z' then (c as int + 32) as char else c
  }

  function Lower(s: string): (r: string)
    ensures |r| == |s|
    ensures forall i :: 0 <= i < |s| ==> r[i] == ToLower(s[i])
  {
    seq(|s|, i requires 0 <= i < |s| => ToLower(s[i]))
  }

  lemma LowerSlice(s: string, a: nat, b: nat)
    requires a <= b <= |s|
    ensures Lower(s[a..b]) == Lower(s)[a..b]
  {
  }

  lemma LowerIdempotent(s: string)
    ensures Lower(Lower(s)) == Lower(s)
  {
  }

  /** The literal `lit` occurs in `t` at position `i`. */
  predicate StartsAt(t: string, i: nat, lit: string) {
    i + |lit| <= |t| && t[i..i + |lit|] == lit
  }

  /** The lower-case literal `lit` occurs in `t` at position `i`, ignoring
      ASCII case (a literal matched under `re.IGNORECASE`). */
  predicate StartsAtFolded(t: string, i: nat, lit: string) {
    i + |lit| <= |t| && Lower(t[i..i + |lit|]) == lit
  }

  /** Python's `sub in s`. */
  predicate Contains(s: string, sub: string) {
    exists i: nat :: i + |sub| <= |s| && StartsAt(s, i, sub)
  }

  /** An occurrence in `b` is still an occurrence once text is put before it. */
  lemma ContainsAfterPrefix(a: string, b: string, sub: string)
    requires Contains(b, sub)
    ensures Contains(a + b, sub)
  {
    var i: nat :| i + |sub| <= |b| && StartsAt(b, i, sub);
    assert (a + b)[|a| + i..|a| + i + |sub|] == b[i..i + |sub|];
    assert StartsAt(a + b, |a| + i, sub);
  }

  /** The length of the longest run of characters satisfying `P` that starts
      at position `i` of `t`: what a greedy `[...]*` consumes. */
  function SpanFrom(t: string, i: nat, P: char -> bool): (n: nat)
    requires i <= |t|
    decreases |t| - i
    ensures i + n <= |t|
    ensures forall k :: i <= k < i + n ==> P(t[k])
    ensures i + n < |t| ==> !P(t[i + n])
  {
    if i < |t| && P(t[i]) then 1 + SpanFrom(t, i + 1, P) else 0
  }

  /** The number of whitespace characters at the end of `s`. */
  function TrailingSpace(s: string): (n: nat)
    ensures n <= |s|
    ensures forall k :: |s| - n <= k < |s| ==> IsSpace(s[k])
    ensures n < |s| ==> !IsSpace(s[|s| - n - 1])
  {
    if |s| > 0 && IsSpace(s[|s| - 1]) then 1 + TrailingSpace(s[..|s| - 1]) else 0
  }

  /** The number of whitespace characters at the start of `s`. */
  function Indent(s: string): nat
    ensures Indent(s) <= |s|
  {
    SpanFrom(s, 0, IsSpace)
  }

  /** Python's `str.strip()`: the middle of `s` left once every leading and
      every trailing whitespace character is removed. */
  function Strip(s: string): (r: string)
    ensures Indent(s) + |r| <= |s| && r == s[Indent(s)..Indent(s) + |r|]
    ensures forall k :: 0 <= k < Indent(s) ==> IsSpace(s[k])
    ensures forall k :: Indent(s) + |r| <= k < |s| ==> IsSpace(s[k])
    ensures |r| > 0 ==> !IsSpace(r[0]) && !IsSpace(r[|r| - 1])
  {
    var a := Indent(s);
    if a == |s| then ""
    else
      var b := |s| - TrailingSpace(s);
      assert !IsSpace(s[a]);
      s[a..b]
  }

  /** Text that neither starts nor ends with whitespace is left as it is. */
  lemma StripUntouched(s: string)
    requires |s| > 0 && !IsSpace(s[0]) && !IsSpace(s[|s| - 1])
    ensures Strip(s) == s
  {
    assert Indent(s) == 0;
    assert TrailingSpace(s) == 0;
  }

  /** `a` is a prefix of `b`. */
  predicate IsPrefix(a: string, b: string) {
    |a| <= |b| && a == b[..|a|]
  }

  /** Python's `s[:n]`. */
  function Truncate(s: string, n: nat): (r: string)
    ensures |r| == (if |s| <= n then |s| else n)
    ensures IsPrefix(r, s)
  {
    if |s| <= n then s else s[..n]
  }

  function DigitChar(d: nat): (c: char)
    requires d < 10
    ensures IsDigit(c)
  {
    ('0' as int + d) as char
  }

  function DigitValue(c: char): (d: nat)
    requires IsDigit(c)
    ensures d < 10 && DigitChar(d) == c
  {
    c as int - '0' as int
  }

  predicate AllDigits(s: string) {
    forall i :: 0 <= i < |s| ==> IsDigit(s[i])
  }

  /** Python's `str(n)` for a non-negative integer: its decimal digits, with
      no leading zero. */
  function NatToString(n: nat): (r: string)
    ensures |r| > 0 && AllDigits(r)
    ensures |r| > 1 ==> r[0] != '0'
  {
    if n < 10 then [DigitChar(n)] else NatToString(n / 10) + [DigitChar(n % 10)]
  }

  /** The value of a string of decimal digits (Python's `int(s)`). */
  function ParseDecimal(s: string): nat
    requires AllDigits(s)
  {
    if |s| == 0 then 0 else ParseDecimal(s[..|s| - 1]) * 10 + DigitValue(s[|s| - 1])
  }

  /** Reading back the decimal rendering of `n` gives `n`: the rendering loses
      nothing, so two different timestamps or page numbers never render alike. */
  lemma {:induction false} DecimalRoundTrip(n: nat)
    ensures ParseDecimal(NatToString(n)) == n
  {
    var s := NatToString(n);
    if n < 10 {
      assert s[..|s| - 1] == [];
    } else {
      assert s[..|s| - 1] == NatToString(n / 10);
      DecimalRoundTrip(n / 10);
    }
  }

  lemma DecimalInjective(m: nat, n: nat)
    requires NatToString(m) == NatToString(n)
    ensures m == n
  {
    DecimalRoundTrip(m);
    DecimalRoundTrip(n);
  }

  /** The leftmost position `j` with `from <= j <= end` at which `P` holds:
      the scan `re.search` performs over candidate match positions. */
  function FirstFrom(from: nat, end: nat, P: nat -> bool): (r: Option<nat>)
    decreases end - from
    ensures r.Some? ==> from <= r.value <= end && P(r.value)
    ensures r.Some? ==> forall j :: from <= j < r.value ==> !P(j)
    ensures r.None? ==> forall j :: from <= j <= end ==> !P(j)
  {
    if from > end then None
    else if P(from) then Some(from)
    else FirstFrom(from + 1, end, P)
  }
}
