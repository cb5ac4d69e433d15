/**
 * The handful of Python `str` operations the signage core relies on:
 * `strip`, `lower`, `in`, `startswith`/`endswith`, `split` at one
 * separator, `int(...)` on a decimal string, `PurePath.suffix`, and the
 * code-point order that `sorted` uses on strings.
 */
module Text {
  import opened Wrappers

  /** Python's `str.isspace` for one character. */
  predicate IsSpace(c: char) {
    c == ' ' || ('\t' <= c <= '\r') || ('\U{1c}' <= c <= '\U{1f}')
    || c == '\U{85}' || c == '\U{a0}' || c == '\U{1680}'
    || ('\U{2000}' <= c <= '\U{200a}') || c == '\U{2028}' || c == '\U{2029}'
    || c == '\U{202f}' || c == '\U{205f}' || c == '\U{3000}'
  }

  /** `s.lstrip()`: drop leading whitespace. */
  function LStrip(s: string): (r: string)
    ensures |r| <= |s| && r == s[|s| - |r|..]
    ensures r == [] || !IsSpace(r[0])
    ensures forall i :: 0 <= i < |s| - |r| ==> IsSpace(s[i])
  {
    if |s| > 0 && IsSpace(s[0]) then LStrip(s[1..]) else s
  }

  /** `s.rstrip()`: drop trailing whitespace. */
  function RStrip(s: string): (r: string)
    ensures |r| <= |s| && r == s[..|r|]
    ensures r == [] || !IsSpace(r[|r| - 1])
    ensures forall i :: |r| <= i < |s| ==> IsSpace(s[i])
  {
    if |s| > 0 && IsSpace(s[|s| - 1]) then RStrip(s[..|s| - 1]) else s
  }

  /** No whitespace at either end. */
  predicate Trimmed(s: string) {
    s == [] || (!IsSpace(s[0]) && !IsSpace(s[|s| - 1]))
  }

  /** `r` is the slice of `s` at `k` and everything around it is whitespace. */
  predicate StrippedAt(s: string, r: string, k: nat) {
    k + |r| <= |s| && r == s[k..k + |r|]
    && (forall i :: 0 <= i < k ==> IsSpace(s[i]))
    && (forall i :: k + |r| <= i < |s| ==> IsSpace(s[i]))
  }

  /** `s.strip()`: the slice of `s` left after dropping the whitespace at
      both ends. */
  function Strip(s: string): (r: string)
    ensures |r| <= |s|
    ensures Trimmed(r)
    ensures exists k: nat :: StrippedAt(s, r, k)
  {
    var l := LStrip(s);
    var r := RStrip(l);
    InnerSlice(s, l, r, |s| - |l|);
    r
  }

  /** A whitespace-bounded slice of a whitespace-bounded suffix. */
  lemma InnerSlice(s: string, l: string, r: string, k: nat)
    requires k <= |s| && l == s[k..] && |r| <= |l| && r == l[..|r|]
    requires forall i :: 0 <= i < k ==> IsSpace(s[i])
    requires forall i :: |r| <= i < |l| ==> IsSpace(l[i])
    ensures StrippedAt(s, r, k)
  {
    forall i | k + |r| <= i < |s| ensures IsSpace(s[i]) {
      assert s[i] == l[i - k];
    }
  }

  /** A string with no whitespace at either end is its own `strip()`. */
  lemma {:induction false} StripUnchanged(s: string)
    requires Trimmed(s)
    ensures Strip(s) == s
  {
    assert LStrip(s) == s;
    assert RStrip(s) == s;
  }

  /** `s.lower()` on ASCII letters; every other character is kept. */
  function Lower(s: string): (r: string)
    ensures |r| == |s|
    ensures forall i :: 0 <= i < |s| ==>
      r[i] == (if 'A' <= s[i] <= 'Z' then (s[i] as int + 32) as char else s[i])
  {
    if s == [] then []
    else [if 'A' <= s[0] <= 'Z' then (s[0] as int + 32) as char else s[0]] + Lower(s[1..])
  }

  predicate StartsWith(s: string, prefix: string) {
    |prefix| <= |s| && s[..|prefix|] == prefix
  }

  predicate EndsWith(s: string, suffix: string) {
    |suffix| <= |s| && s[|s| - |suffix|..] == suffix
  }

  /** Python's `sub in s`. */
  predicate Contains(s: string, sub: string) {
    StartsWith(s, sub) || (|s| > 0 && Contains(s[1..], sub))
  }

  /** Number of occurrences of `c` in `s`. */
  function Count(s: string, c: char): (n: nat)
    ensures n <= |s|
    ensures n == 0 <==> c !in s
  {
    if s == [] then 0 else (if s[0] == c then 1 else 0) + Count(s[1..], c)
  }

  lemma {:induction false} CountAppend(a: string, b: string, c: char)
    ensures Count(a + b, c) == Count(a, c) + Count(b, c)
  {
    if a != [] {
      CountAppend(a[1..], b, c);
      assert (a + b)[1..] == a[1..] + b;
    } else {
      assert a + b == b;
    }
  }

  /** Index of the first `c` in `s`, or `|s|` when there is none. */
  function FirstIndex(s: string, c: char): (r: nat)
    ensures r <= |s|
    ensures r < |s| ==> s[r] == c
    ensures forall j :: 0 <= j < r ==> s[j] != c
  {
    if s == [] then 0 else if s[0] == c then 0 else 1 + FirstIndex(s[1..], c)
  }

  /** Python's `s.rfind(c)`: index of the last `c`, or -1. */
  function LastIndex(s: string, c: char): (r: int)
    ensures -1 <= r < |s|
    ensures r >= 0 ==> s[r] == c
    ensures forall j :: r < j < |s| ==> s[j] != c
  {
    if s == [] then -1
    else if s[|s| - 1] == c then |s| - 1
    else LastIndex(s[..|s| - 1], c)
  }

  /** A string with exactly one `c` splits into the part before it and the part after it. */
  lemma {:induction false} CountOne(s: string, c: char)
    requires Count(s, c) == 1
    ensures FirstIndex(s, c) < |s|
    ensures c !in s[..FirstIndex(s, c)] && c !in s[FirstIndex(s, c) + 1..]
  {
    if s[0] == c {
      assert s[1..] == s[FirstIndex(s, c) + 1..];
    } else {
      CountOne(s[1..], c);
      assert s[..FirstIndex(s, c)] == [s[0]] + s[1..][..FirstIndex(s[1..], c)];
      assert s[FirstIndex(s, c) + 1..] == s[1..][FirstIndex(s[1..], c) + 1..];
    }
  }

  /** `PurePath(name).suffix` for a bare file name: from the last `.` on,
      unless that dot is the first or the last character. */
  function Suffix(name: string): (r: string)
    ensures r == [] || (r[0] == '.' && EndsWith(name, r) && |r| < |name| && '.' !in r[1..])
    ensures '.' !in name ==> r == []
  {
    var i := LastIndex(name, '.');
    if 0 < i < |name| - 1 then name[i..] else ""
  }

  /** A name ending in a dotted tag with no other dot, such as `.tmp`, has
      that tag as its suffix, unless the tag is the whole name. */
  lemma {:induction false} SuffixOfTagged(x: string, tag: string)
    requires |tag| >= 2 && tag[0] == '.' && '.' !in tag[1..]
    ensures Suffix(x + tag) == if x == [] then [] else tag
  {
    var s := x + tag;
    assert s[|x|] == '.';
    forall j | |x| < j < |s| ensures s[j] != '.' {
      assert s[j] == tag[1..][j - |x| - 1];
    }
    assert LastIndex(s, '.') == |x|;
    assert s[|x|..] == tag;
  }

  /** `s.rstrip('/')`. */
  function RStripSlash(s: string): (r: string)
    ensures |r| <= |s| && r == s[..|r|]
    ensures r == [] || r[|r| - 1] != '/'
  {
    if |s| > 0 && s[|s| - 1] == '/' then RStripSlash(s[..|s| - 1]) else s
  }

  /** `s.split('/')[-1]`: everything after the last `/`. */
  function LastComponent(s: string): (r: string)
    ensures '/' !in r && EndsWith(s, r)
    ensures '/' !in s ==> r == s
  {
    var i := LastIndex(s, '/');
    s[i + 1..]
  }

  /** The last component of `parent/name` is `name`. */
  lemma {:induction false} LastComponentAfterSlash(parent: string, name: string)
    requires '/' !in name
    ensures LastComponent(parent + "/" + name) == name
  {
    var s := parent + "/" + name;
    assert s[|parent|] == '/';
    forall j | |parent| < j < |s| ensures s[j] != '/' {
      assert s[j] == name[j - |parent| - 1];
    }
    assert LastIndex(s, '/') == |parent|;
    assert s[|parent| + 1..] == name;
  }

  /** A tag without `/` appended to a path stays in its last component. */
  lemma {:induction false} LastComponentOfTagged(path: string, tag: string)
    requires '/' !in tag
    ensures LastComponent(path + tag) == LastComponent(path) + tag
  {
    var s := path + tag;
    var i := LastIndex(path, '/');
    forall j | i < j < |s| ensures s[j] != '/' {
      if j < |path| {
        assert s[j] == path[j];
      } else {
        assert s[j] == tag[j - |path|];
      }
    }
    assert i == -1 || s[i] == path[i];
    assert LastIndex(s, '/') == i;
    assert s[i + 1..] == path[i + 1..] + tag;
  }

  /** Python's `s.replace("//", "/")`: one left-to-right pass over
      non-overlapping occurrences, so `"///"` becomes `"//"`. */
  function CollapseDoubleSlash(s: string): (r: string)
    ensures |r| <= |s|
    ensures |s| > 0 ==> |r| > 0 && r[0] == s[0]
  {
    if |s| >= 2 && s[0] == '/' && s[1] == '/' then "/" + CollapseDoubleSlash(s[2..])
    else if s == [] then []
    else [s[0]] + CollapseDoubleSlash(s[1..])
  }

  /** Strings without a doubled slash pass through `replace("//", "/")` unchanged. */
  lemma {:induction false} CollapseUnchanged(s: string)
    requires forall i :: 0 <= i < |s| - 1 ==> !(s[i] == '/' && s[i + 1] == '/')
    ensures CollapseDoubleSlash(s) == s
  {
    if s != [] {
      CollapseUnchanged(s[1..]);
    }
  }

  /** `sep.join(parts)`. */
  function Join(sep: string, parts: seq<string>): string {
    if parts == [] then ""
    else if |parts| == 1 then parts[0]
    else parts[0] + sep + Join(sep, parts[1..])
  }

  predicate IsDigit(c: char) {
    '0' <= c <= '9'
  }

  function DigitValue(c: char): int
    requires IsDigit(c)
  {
    c as int - '0' as int
  }

  /** Decimal text of a natural number, as `str(n)` writes it. */
  function NatToString(n: nat): (r: string)
    ensures |r| > 0 && forall i :: 0 <= i < |r| ==> IsDigit(r[i])
    ensures GroupValue(r) == n
  {
    var d := [('0' as int + n % 10) as char];
    if n < 10 then
      assert d[..0] == [];
      d
    else
      var p := NatToString(n / 10);
      assert (p + d)[..|p|] == p;
      p + d
  }

  /** The digits Python's `int()` accepts after an optional sign: decimal
      digits with single underscores between them. */
  predicate IsDigitGroup(s: string) {
    |s| > 0 && IsDigit(s[0]) && IsDigit(s[|s| - 1])
    && forall i | 0 <= i < |s| :: IsDigit(s[i]) || (s[i] == '_' && i + 1 < |s| && IsDigit(s[i + 1]))
  }

  /** Value of a digit group, underscores ignored. */
  function GroupValue(s: string): (v: nat)
    requires forall i :: 0 <= i < |s| ==> IsDigit(s[i]) || s[i] == '_'
  {
    if s == [] then 0
    else if s[|s| - 1] == '_' then GroupValue(s[..|s| - 1])
    else 10 * GroupValue(s[..|s| - 1]) + DigitValue(s[|s| - 1])
  }

  /** Python's `int(s)` on a string: surrounding whitespace, an optional
      sign, then a digit group; anything else raises, here `None`. */
  function ParseInt(s: string): (r: Option<int>)
    ensures r.Some? ==> |Strip(s)| > 0
  {
    var t := Strip(s);
    if |t| > 0 && (t[0] == '+' || t[0] == '-') then
      var body := t[1..];
      if IsDigitGroup(body) then
        Some(if t[0] == '-' then -(GroupValue(body) as int) else GroupValue(body))
      else None
    else if IsDigitGroup(t) then Some(GroupValue(t))
    else None
  }

  /** `int(str(n)) == n`: the decimal text of a size reads back to it. */
  lemma NatToStringRoundTrip(n: nat)
    ensures ParseInt(NatToString(n)) == Some(n)
  {
    var t := NatToString(n);
    assert !IsSpace(t[0]) && !IsSpace(t[|t| - 1]);
    StripUnchanged(t);
    assert t[0] != '+' && t[0] != '-';
    assert IsDigitGroup(t);
  }

  /** Two-digit, zero-padded text of `n` (`f"{n:02d}"`). */
  function TwoDigits(n: nat): (r: string)
    requires n < 100
    ensures |r| == 2 && IsDigit(r[0]) && IsDigit(r[1])
  {
    [('0' as int + n / 10) as char, ('0' as int + n % 10) as char]
  }

  /** `int()` reads two-digit zero-padded text back to its number. */
  lemma ParseTwoDigits(n: nat)
    requires n < 100
    ensures ParseInt(TwoDigits(n)) == Some(n)
  {
    var t := TwoDigits(n);
    StripUnchanged(t);
    assert t[..1] == [t[0]];
    assert GroupValue(t[..1]) == 10 * GroupValue([]) + DigitValue(t[0]);
  }

  /** `a <= b` in Python's order on strings (code point by code point,
      a proper prefix first). */
  predicate LexLe(a: string, b: string) {
    |a| == 0 || (|b| > 0 && (a[0] < b[0] || (a[0] == b[0] && LexLe(a[1..], b[1..]))))
  }

  lemma {:induction false} LexLeReflexive(a: string)
    ensures LexLe(a, a)
  {
    if |a| > 0 {
      LexLeReflexive(a[1..]);
    }
  }

  lemma {:induction false} LexLeTotal(a: string, b: string)
    ensures LexLe(a, b) || LexLe(b, a)
  {
    if |a| > 0 && |b| > 0 && a[0] == b[0] {
      LexLeTotal(a[1..], b[1..]);
    }
  }

  lemma {:induction false} LexLeAntisymmetric(a: string, b: string)
    requires LexLe(a, b) && LexLe(b, a)
    ensures a == b
  {
    if |a| > 0 {
      LexLeAntisymmetric(a[1..], b[1..]);
      assert a == [a[0]] + a[1..] && b == [b[0]] + b[1..];
    }
  }

  lemma {:induction false} LexLeTransitive(a: string, b: string, c: string)
    requires LexLe(a, b) && LexLe(b, c)
    ensures LexLe(a, c)
  {
    if |a| > 0 && a[0] == b[0] && b[0] == c[0] {
      LexLeTransitive(a[1..], b[1..], c[1..]);
    }
  }
}
