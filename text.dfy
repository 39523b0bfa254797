/**
 * String helpers the two scripts rely on: Python's `str(int)` / `"%d"`,
 * `str.split`, `str.replace`, `str.find`, `str.rjust` / `str.ljust`, and the
 * `posixpath` functions `basename` and `dirname`.
 */
module Text {

  import opened Wrappers

  // ---------------------------------------------------------------------------
  // Decimal rendering of integers (`str(i)` and `"%d" % i`)
  // ---------------------------------------------------------------------------

  predicate IsDigit(c: char) { '0' <= c <= '9' }

  predicate AllDigits(s: string) { forall i :: 0 <= i < |s| ==> IsDigit(s[i]) }

  function DigitChar(d: nat): (c: char)
    requires d < 10
    ensures IsDigit(c) && c as int - '0' as int == d
  {
    ('0' as int + d) as char
  }

  function DigitValue(c: char): nat
    requires IsDigit(c)
  {
    c as int - '0' as int
  }

  /** The shortest decimal numeral of `n` (no leading zero unless `n` is 0). */
  function NatToString(n: nat): (s: string)
    ensures |s| > 0 && AllDigits(s)
    ensures |s| > 1 ==> s[0] != '0'
    decreases n
  {
    if n < 10 then [DigitChar(n)] else NatToString(n / 10) + [DigitChar(n % 10)]
  }

  /** The value of a numeral; the inverse of `NatToString`. */
  function ParseDecimal(s: string): nat
    requires AllDigits(s)
    decreases |s|
  {
    if s == [] then 0 else 10 * ParseDecimal(s[..|s| - 1]) + DigitValue(s[|s| - 1])
  }

  lemma {:induction false} ParseNatToString(n: nat)
    ensures ParseDecimal(NatToString(n)) == n
    decreases n
  {
    var s := NatToString(n);
    if n >= 10 {
      ParseNatToString(n / 10);
      assert s[..|s| - 1] == NatToString(n / 10);
    }
  }

  /** Python's `str(i)` for an integer: a minus sign, then the digits. */
  function IntToString(i: int): (s: string)
    ensures |s| > 0 && (s[0] == '-' || IsDigit(s[0]))
    ensures forall k :: 0 < k < |s| ==> IsDigit(s[k])
    ensures i >= 0 ==> AllDigits(s)
  {
    if i < 0 then "-" + NatToString(-i) else NatToString(i)
  }

  /** Distinct integers have distinct renderings. */
  lemma IntToStringInjective(a: int, b: int)
    requires IntToString(a) == IntToString(b)
    ensures a == b
  {
    if a < 0 && b < 0 {
      SignedDigits(-a);
      SignedDigits(-b);
      NatToStringInjective(-a, -b);
    } else if a >= 0 && b >= 0 {
      NatToStringInjective(a, b);
    }
  }

  lemma SignedDigits(n: nat)
    ensures ("-" + NatToString(n))[1..] == NatToString(n)
  {
  }

  lemma NatToStringInjective(m: nat, n: nat)
    requires NatToString(m) == NatToString(n)
    ensures m == n
  {
    ParseNatToString(m);
    ParseNatToString(n);
  }

  // ---------------------------------------------------------------------------
  // Searching
  // ---------------------------------------------------------------------------

  /** `pat` occurs in `s` starting at index `i`. */
  predicate OccursAt(s: string, i: int, pat: string) {
    0 <= i && i + |pat| <= |s| && s[i..i + |pat|] == pat
  }

  predicate Contains(s: string, pat: string) {
    exists i :: 0 <= i <= |s| && OccursAt(s, i, pat)
  }

  /** `s.find(pat, from)`: the first occurrence of `pat` at or after `from`. */
  function FindFrom(s: string, from: nat, pat: string): (r: Option<nat>)
    ensures r.Some? ==> from <= r.value && OccursAt(s, r.value, pat)
    ensures r.Some? ==> forall q :: from <= q < r.value ==> !OccursAt(s, q, pat)
    ensures r.None? ==> forall q :: from <= q ==> !OccursAt(s, q, pat)
    decreases |s| - from
  {
    if from + |pat| > |s| then None
    else if s[from..from + |pat|] == pat then Some(from)
    else FindFrom(s, from + 1, pat)
  }

  /** Index of the last occurrence of `c` in `s`, or -1 (`s.rfind(c)`). */
  function LastIndex(s: string, c: char): (r: int)
    ensures -1 <= r < |s|
    ensures r >= 0 ==> s[r] == c
    ensures forall q :: r < q < |s| ==> s[q] != c
    decreases |s|
  {
    if s == [] then -1
    else if s[|s| - 1] == c then |s| - 1
    else LastIndex(s[..|s| - 1], c)
  }

  /** The text after the last `c` (`s.split(c)[-1]`; the whole text when there is none). */
  function AfterLast(s: string, c: char): (r: string)
    ensures |r| <= |s| && r == s[|s| - |r|..]
    ensures c !in r
    ensures |r| < |s| ==> s[|s| - |r| - 1] == c
  {
    s[LastIndex(s, c) + 1..]
  }

  /** The text after the first `c`, when there is one (`s.split(c, 1)[1]`). */
  function AfterFirst(s: string, c: char): (r: Option<string>)
    ensures r.None? <==> c !in s
    ensures r.Some? ==> |r.value| < |s| && s == s[..|s| - |r.value| - 1] + [c] + r.value
    ensures r.Some? ==> c !in s[..|s| - |r.value| - 1]
    decreases |s|
  {
    if s == [] then None
    else if s[0] == c then Some(s[1..])
    else match AfterFirst(s[1..], c)
      case None => None
      case Some(t) =>
        assert s[1..][..|s| - 1 - |t| - 1] == s[1..|s| - |t| - 1];
        Some(t)
  }

  /** `s.replace(c, "")`: every `c` removed, the other characters kept in order. */
  function Remove(s: string, c: char): (r: string)
    ensures c !in r
    ensures forall d :: d != c ==> multiset(r)[d] == multiset(s)[d]
    decreases |s|
  {
    if s == [] then []
    else if s[0] == c then
      assert s == [s[0]] + s[1..];
      Remove(s[1..], c)
    else
      assert s == [s[0]] + s[1..];
      [s[0]] + Remove(s[1..], c)
  }

  // ---------------------------------------------------------------------------
  // Padding (`str.rjust`, `str.ljust`)
  // ---------------------------------------------------------------------------

  function Spaces(k: nat): (r: string)
    ensures |r| == k && forall i :: 0 <= i < k ==> r[i] == ' '
  {
    seq(k, _ => ' ')
  }

  function RJust(s: string, width: nat): (r: string)
    ensures |r| == if |s| < width then width else |s|
    ensures r[|r| - |s|..] == s
    ensures forall i :: 0 <= i < |r| - |s| ==> r[i] == ' '
  {
    if |s| < width then Spaces(width - |s|) + s else s
  }

  function LJust(s: string, width: nat): (r: string)
    ensures |r| == if |s| < width then width else |s|
    ensures r[..|s|] == s
    ensures forall i :: |s| <= i < |r| ==> r[i] == ' '
  {
    if |s| < width then s + Spaces(width - |s|) else s
  }

  /** The text with leading and trailing blanks cut off (Python's `s.strip(" ")`). */
  function Trim(s: string): (r: string)
    decreases |s|
  {
    if s != [] && s[0] == ' ' then Trim(s[1..])
    else if s != [] && s[|s| - 1] == ' ' then Trim(s[..|s| - 1])
    else s
  }

  lemma {:induction false} TrimPadded(s: string, pre: nat, post: nat)
    requires s != [] && s[0] != ' ' && s[|s| - 1] != ' '
    ensures Trim(Spaces(pre) + s + Spaces(post)) == s
    decreases pre + post
  {
    var t := Spaces(pre) + s + Spaces(post);
    if pre > 0 {
      assert t[1..] == Spaces(pre - 1) + s + Spaces(post);
      TrimPadded(s, pre - 1, post);
    } else if post > 0 {
      assert t[0] == s[0];
      assert t[..|t| - 1] == Spaces(0) + s + Spaces(post - 1);
      TrimPadded(s, 0, post - 1);
    } else {
      assert t == s;
    }
  }
}
