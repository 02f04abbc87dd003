/**
 * The few Python string and path built-ins the pipeline relies on:
 * `str.isspace`/`str.strip` (blank-page test), `str.lower` (extension test),
 * `str(int)` (ids and prompt headers) and `pathlib.PurePath.name`/`.suffix`.
 */
module PyText {

  /** Python's `str.isspace` on one code point: exactly the characters `str.strip()` removes. */
  predicate IsSpace(c: char) {
    || ('\t' <= c <= '\r')
    || ('\U{1C}' <= c <= '\U{1F}')
    || c == ' ' || c == '\U{85}' || c == '\U{A0}' || c == '\U{1680}'
    || ('\U{2000}' <= c <= '\U{200A}')
    || c == '\U{2028}' || c == '\U{2029}' || c == '\U{202F}' || c == '\U{205F}' || c == '\U{3000}'
  }

  /** `s.lstrip()`: the longest suffix of `s` that does not start with whitespace. */
  function LStrip(s: string): (r: string)
    ensures |r| <= |s| && r == s[|s| - |r|..]
    ensures forall i :: 0 <= i < |s| - |r| ==> IsSpace(s[i])
    ensures r == [] || !IsSpace(r[0])
  {
    if s != [] && IsSpace(s[0]) then LStrip(s[1..]) else s
  }

  /** `s.rstrip()`: the longest prefix of `s` that does not end with whitespace. */
  function RStrip(s: string): (r: string)
    ensures |r| <= |s| && r == s[..|r|]
    ensures forall i :: |r| <= i < |s| ==> IsSpace(s[i])
    ensures r == [] || !IsSpace(r[|r| - 1])
  {
    if s != [] && IsSpace(s[|s| - 1]) then RStrip(s[..|s| - 1]) else s
  }

  /** `s.strip()`. */
  function Strip(s: string): string {
    RStrip(LStrip(s))
  }

  /** `s` holds a character that is not whitespace. */
  predicate HasContent(s: string) {
    exists i :: 0 <= i < |s| && !IsSpace(s[i])
  }

  /** The truth value of `s.strip()` in a Python condition is `HasContent(s)`. */
  lemma StripTruthIsHasContent(s: string)
    ensures Strip(s) != "" <==> HasContent(s)
  {
    var l := LStrip(s);
    if Strip(s) != "" {
      var r := RStrip(l);
      assert r[0] == l[0] == s[|s| - |l|];
    }
  }

  lemma HasContentNonEmpty(s: string)
    requires HasContent(s)
    ensures s != ""
  {
  }

  /** Python's `str.lower` restricted to ASCII letters (see README for why this suffices here). */
  function LowerChar(c: char): char {
    if 'A' <= c <= 'Z' then (c as int + 32) as char else c
  }

  function Lower(s: string): (r: string)
    ensures |r| == |s|
  {
    seq(|s|, i requires 0 <= i < |s| => LowerChar(s[i]))
  }

  /** `a.lower() == b.lower()`, for the ASCII fold above. */
  predicate SameUpToCase(a: string, b: string) {
    |a| == |b| && forall i :: 0 <= i < |a| ==> LowerChar(a[i]) == LowerChar(b[i])
  }

  /** Strings that agree up to case lower-case to the same string; a string without upper-case letters lower-cases to itself. */
  lemma LowerRespectsCase(a: string, b: string)
    ensures SameUpToCase(a, b) ==> Lower(a) == Lower(b)
    ensures (forall i :: 0 <= i < |b| ==> !('A' <= b[i] <= 'Z')) ==> Lower(b) == b
  {
    if SameUpToCase(a, b) {
      assert forall i :: 0 <= i < |a| ==> Lower(a)[i] == Lower(b)[i];
    }
  }

  predicate IsDigit(c: char) {
    '0' <= c <= '9'
  }

  function DigitChar(d: nat): (c: char)
    requires d < 10
    ensures IsDigit(c) && (c as int) - ('0' as int) == d
  {
    (d + '0' as int) as char
  }

  /** `str(n)` for a non-negative int: decimal digits, no leading zero. */
  function NatToDecimal(n: nat): (r: string)
    ensures |r| >= 1
    ensures forall i :: 0 <= i < |r| ==> IsDigit(r[i])
    ensures r[0] == '0' ==> n == 0
    ensures n >= 10 ==> |r| >= 2
    decreases n
  {
    if n < 10 then [DigitChar(n)] else NatToDecimal(n / 10) + [DigitChar(n % 10)]
  }

  /** Distinct numbers print differently, so the printed number can be read back. */
  lemma {:induction false} NatToDecimalInjective(a: nat, b: nat)
    requires NatToDecimal(a) == NatToDecimal(b)
    ensures a == b
    decreases a
  {
    if a >= 10 && b >= 10 {
      var sa, sb := NatToDecimal(a), NatToDecimal(b);
      assert sa[|sa| - 1] == DigitChar(a % 10) && sb[|sb| - 1] == DigitChar(b % 10);
      assert a % 10 == b % 10;
      assert NatToDecimal(a / 10) == sa[..|sa| - 1] == sb[..|sb| - 1] == NatToDecimal(b / 10);
      NatToDecimalInjective(a / 10, b / 10);
    }
  }

  /** `str(n)` for any int: a minus sign before the digits of a negative number. */
  function IntToDecimal(n: int): (r: string)
    ensures |r| >= 1
    ensures forall i :: 0 <= i < |r| ==> IsDigit(r[i]) || r[i] == '-'
    ensures r[0] == '-' <==> n < 0
  {
    if n < 0 then "-" + NatToDecimal(-n) else NatToDecimal(n)
  }

  lemma IntToDecimalInjective(a: int, b: int)
    requires IntToDecimal(a) == IntToDecimal(b)
    ensures a == b
  {
    if a < 0 && b < 0 {
      assert NatToDecimal(-a) == IntToDecimal(a)[1..] == IntToDecimal(b)[1..] == NatToDecimal(-b);
      NatToDecimalInjective(-a, -b);
    } else if a >= 0 && b >= 0 {
      NatToDecimalInjective(a, b);
    }
  }

  /** A string built as `a + sep + b`, with no `sep` in `a`, splits back at its first `sep`. */
  lemma SplitAtFirst(a: string, b: string, a': string, b': string, sep: char)
    requires sep !in a && sep !in a'
    requires a + [sep] + b == a' + [sep] + b'
    ensures a == a' && b == b'
  {
    var s := a + [sep] + b;
    assert s[|a|] == sep && s[|a'|] == sep;
    assert forall i :: 0 <= i < |a| ==> s[i] != sep;
    assert forall i :: 0 <= i < |a'| ==> s[i] != sep;
    assert a == s[..|a|] == a';
    assert b == s[|a| + 1..] == b';
  }

  /** Python's `s.rfind(c)`: the last index of `c` in `s`, or -1. */
  function LastIndexOf(s: string, c: char): (i: int)
    ensures -1 <= i < |s|
    ensures i >= 0 ==> s[i] == c
    ensures forall j :: i < j < |s| ==> s[j] != c
  {
    if s == [] then -1 else if s[|s| - 1] == c then |s| - 1 else LastIndexOf(s[..|s| - 1], c)
  }

  /** `PurePath(path).name`: the last path component. */
  function FileName(path: string): (name: string)
    ensures '/' !in name
    ensures |name| <= |path| && name == path[|path| - |name|..]
  {
    path[LastIndexOf(path, '/') + 1..]
  }

  /** The name is everything after the last `/`: the whole path, or preceded by a `/`. */
  lemma FileNameAfterLastSlash(path: string)
    ensures |FileName(path)| == |path| || path[|path| - |FileName(path)| - 1] == '/'
  {
  }

  /**
   * `PurePath(path).suffix`: from the last dot of the name to its end, provided that dot
   * is neither the first nor the last character of the name; otherwise empty.
   */
  function Suffix(path: string): (ext: string)
    ensures ext != "" ==> |ext| >= 2 && ext[0] == '.' && '.' !in ext[1..]
    ensures ext != "" ==> |ext| < |FileName(path)| && ext == FileName(path)[|FileName(path)| - |ext|..]
    ensures '.' !in FileName(path) ==> ext == ""
  {
    var name := FileName(path);
    var i := LastIndexOf(name, '.');
    if 0 < i < |name| - 1 then name[i..] else ""
  }

  /** A name has a suffix exactly when it has a dot, neither first nor last, with no dot after it. */
  lemma SuffixWhenNonEmpty(path: string)
    ensures Suffix(path) != "" <==>
      exists i :: 0 < i < |FileName(path)| - 1 && FileName(path)[i] == '.' && '.' !in FileName(path)[i + 1..]
  {
    var name := FileName(path);
    var i := LastIndexOf(name, '.');
    assert forall j :: 0 < j < |name| - 1 && name[j] == '.' && i > j ==> name[j + 1..][i - j - 1] == '.';
    if Suffix(path) != "" {
      assert 0 < i < |name| - 1 && name[i] == '.' && '.' !in name[i + 1..];
    }
  }
}
