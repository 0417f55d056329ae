/**
 * The few pieces of Python's `str` and `pathlib` behaviour that the pipeline
 * relies on: whitespace, ASCII lower-casing, substring search, `split`,
 * `strip`, slicing, decimal rendering of integers and file-name parts.
 */
module Text {
  import opened Wrappers

  /** The characters for which Python's `str.isspace()` holds; `\s` in a
      `str` pattern and the argument-less `str.strip()` use the same set. */
  const Whitespace: set<char> := {
    '\t', '\n', '\U{B}', '\U{C}', '\r', '\U{1C}', '\U{1D}', '\U{1E}', '\U{1F}', ' ',
    '\U{85}', '\U{A0}', '\U{1680}', '\U{2000}', '\U{2001}', '\U{2002}', '\U{2003}',
    '\U{2004}', '\U{2005}', '\U{2006}', '\U{2007}', '\U{2008}', '\U{2009}', '\U{200A}',
    '\U{2028}', '\U{2029}', '\U{202F}', '\U{205F}', '\U{3000}'
  }

  predicate IsSpace(c: char) {
    c in Whitespace
  }

  predicate IsDigit(c: char) {
    '0' <= c <= '9'
  }

  /** `c.lower()` restricted to the ASCII letters. */
  function LowerChar(c: char): char {
    if 'A' <= c <= 'Z' then (c as int + 32) as char else c
  }

  /** `s.lower()` restricted to the ASCII letters. */
  function Lower(s: string): string {
    seq(|s|, i requires 0 <= i < |s| => LowerChar(s[i]))
  }

  // ---------------------------------------------------------------- strip

  /** The number of whitespace characters `s.lstrip()` removes. */
  function LeadingSpaces(s: string): (n: nat)
    ensures n <= |s|
    ensures forall i :: 0 <= i < n ==> IsSpace(s[i])
    ensures n == |s| || !IsSpace(s[n])
  {
    if s != [] && IsSpace(s[0]) then 1 + LeadingSpaces(s[1..]) else 0
  }

  /** The number of whitespace characters `s.rstrip()` removes. */
  function TrailingSpaces(s: string): (n: nat)
    ensures n <= |s|
    ensures forall i :: |s| - n <= i < |s| ==> IsSpace(s[i])
    ensures n == |s| || !IsSpace(s[|s| - n - 1])
  {
    if s != [] && IsSpace(s[|s| - 1]) then 1 + TrailingSpaces(s[..|s| - 1]) else 0
  }

  /** `s.strip()`: the slice of `s` left once whitespace is removed at both ends. */
  function Strip(s: string): string {
    var t := s[LeadingSpaces(s)..];
    t[..|t| - TrailingSpaces(t)]
  }

  lemma StripShape(s: string)
    ensures |Strip(s)| <= |s|
    ensures Strip(s) == [] || (!IsSpace(Strip(s)[0]) && !IsSpace(Strip(s)[|Strip(s)| - 1]))
    ensures forall c :: c in Strip(s) ==> c in s
  {
    var t := s[LeadingSpaces(s)..];
    var r := t[..|t| - TrailingSpaces(t)];
    assert Strip(s) == r;
    if r != [] {
      assert r[0] == t[0] == s[LeadingSpaces(s)];
    }
    forall c | c in r ensures c in s {
      var i :| 0 <= i < |r| && r[i] == c;
      assert s[LeadingSpaces(s) + i] == c;
    }
  }

  /** `s.strip()` is the slice of `s` that starts after its leading whitespace. */
  lemma StripSlice(s: string)
    ensures LeadingSpaces(s) + |Strip(s)| <= |s|
    ensures Strip(s) == s[LeadingSpaces(s)..LeadingSpaces(s) + |Strip(s)|]
  {
    var t := s[LeadingSpaces(s)..];
    assert Strip(s) == t[..|t| - TrailingSpaces(t)];
  }

  /** A slice of a prefix is the same slice of the whole. */
  lemma SliceOfPrefix(s: string, i: nat, a: nat, b: nat)
    requires a <= b <= i <= |s|
    ensures s[..i][a..b] == s[a..b]
  {
    assert forall m :: 0 <= m < b - a ==> s[..i][a..b][m] == s[a + m];
  }

  /** `s.strip()` is empty exactly when every character of `s` is whitespace. */
  lemma StripEmptyIff(s: string)
    ensures Strip(s) == [] <==> forall i :: 0 <= i < |s| ==> IsSpace(s[i])
  {
    var n := LeadingSpaces(s);
    var t := s[n..];
    if forall i :: 0 <= i < |s| ==> IsSpace(s[i]) {
      assert n == |s|;
    }
  }

  /** `s.strip()` leaves a string without whitespace at its ends unchanged. */
  lemma StripClean(s: string)
    requires s == [] || (!IsSpace(s[0]) && !IsSpace(s[|s| - 1]))
    ensures Strip(s) == s
  {
  }

  // ------------------------------------------------------------- search

  /** `p` occurs in `s` at index `i`. */
  predicate OccursAt(s: string, p: string, i: int) {
    0 <= i && i + |p| <= |s| && s[i..i + |p|] == p
  }

  /** `s.find(p, from)`, with `None` for Python's -1. */
  function FindFrom(s: string, p: string, from: nat): (r: Option<nat>)
    decreases |s| - from
    ensures r.Some? ==> from <= r.value && OccursAt(s, p, r.value)
    ensures r.Some? ==> forall j :: from <= j < r.value ==> !OccursAt(s, p, j)
    ensures r.None? ==> forall j :: from <= j ==> !OccursAt(s, p, j)
  {
    if from + |p| > |s| then None
    else if s[from..from + |p|] == p then Some(from)
    else FindFrom(s, p, from + 1)
  }

  /** `s.find(p)`. */
  function Find(s: string, p: string): Option<nat> {
    FindFrom(s, p, 0)
  }

  /** The first occurrence is the one `s.find(p)` reports. */
  lemma FindFirst(s: string, p: string, i: nat)
    requires OccursAt(s, p, i)
    requires forall j :: 0 <= j < i ==> !OccursAt(s, p, j)
    ensures Find(s, p) == Some(i)
  {
  }

  /** Python's `p in s` for strings: `p` occurs somewhere in `s`. */
  predicate Contains(s: string, p: string) {
    exists i :: 0 <= i <= |s| - |p| && OccursAt(s, p, i)
  }

  /** `p in s` holds exactly when `s.find(p)` finds something. */
  lemma ContainsIff(s: string, p: string)
    ensures Contains(s, p) <==> Find(s, p).Some?
  {
    if Find(s, p).Some? {
      assert OccursAt(s, p, Find(s, p).value);
    }
  }

  /** A witness of an occurrence makes `p in s` true. */
  lemma ContainsAt(s: string, p: string, i: nat)
    requires OccursAt(s, p, i)
    ensures Contains(s, p)
  {
  }

  /** A substring found in `s` is still found once `s` is extended on either side. */
  lemma {:induction false} ContainsExtend(a: string, s: string, b: string, p: string)
    requires Contains(s, p)
    ensures Contains(a + s + b, p)
  {
    ContainsIff(s, p);
    var i := Find(s, p).value;
    assert (a + s + b)[|a| + i..|a| + i + |p|] == s[i..i + |p|];
    ContainsAt(a + s + b, p, |a| + i);
  }

  /** No occurrence of `p` starts before index `i` when the `k`-th character of
      `p` is missing from the stretch of `s` that such an occurrence would cover. */
  lemma NoOccurrenceBefore(s: string, p: string, i: nat, k: nat)
    requires k < |p| && i + k <= |s|
    requires forall j :: k <= j < i + k ==> s[j] != p[k]
    ensures forall j :: 0 <= j < i ==> !OccursAt(s, p, j)
  {
    forall j | 0 <= j < i ensures !OccursAt(s, p, j) {
      assert s[j + k] != p[k];
      assert j + |p| <= |s| ==> s[j..j + |p|][k] == s[j + k];
    }
  }

  /** A pattern with a character that `s` lacks does not occur in `s`. */
  lemma NotContainsChar(s: string, p: string, k: nat)
    requires k < |p| && p[k] !in s
    ensures !Contains(s, p)
  {
  }

  /** The first index of `c` in `s` (`s.find(c)` for a one-character string). */
  function FindChar(s: string, c: char): (r: Option<nat>)
    ensures r.Some? ==> r.value < |s| && s[r.value] == c && c !in s[..r.value]
    ensures r.None? ==> c !in s
  {
    if s == [] then None
    else if s[0] == c then Some(0)
    else match FindChar(s[1..], c)
      case None => None
      case Some(i) => assert s[..i + 1] == [s[0]] + s[1..][..i]; Some(i + 1)
  }

  /** The last index of `c` in `s` (`s.rfind(c)`). */
  function RFindChar(s: string, c: char): (r: Option<nat>)
    ensures r.Some? ==> r.value < |s| && s[r.value] == c && c !in s[r.value + 1..]
    ensures r.None? ==> c !in s
  {
    if s == [] then None
    else if s[|s| - 1] == c then Some(|s| - 1)
    else match RFindChar(s[..|s| - 1], c)
      case None => None
      case Some(i) => assert s[i + 1..] == s[..|s| - 1][i + 1..] + [s[|s| - 1]]; Some(i)
  }

  /** `s.split(sep)[0]` for a non-empty separator: everything before the first `sep`. */
  function SplitHead(s: string, sep: string): string {
    match Find(s, sep)
    case Some(i) => s[..i]
    case None => s
  }

  /** `s.split(sep)[0]` is the part of `s` before its first occurrence of `sep`. */
  lemma SplitHeadFirst(s: string, sep: string)
    requires Contains(s, sep)
    ensures exists rest :: s == SplitHead(s, sep) + sep + rest
    ensures forall j :: 0 <= j < |SplitHead(s, sep)| ==> !OccursAt(s, sep, j)
  {
    var i := Find(s, sep).value;
    assert s == SplitHead(s, sep) + sep + s[i + |sep|..];
  }

  /** `s.count(c)` for a one-character string. */
  function Count(s: string, c: char): nat {
    if s == [] then 0 else (if s[0] == c then 1 else 0) + Count(s[1..], c)
  }

  lemma {:induction false} CountAppend(a: string, b: string, c: char)
    ensures Count(a + b, c) == Count(a, c) + Count(b, c)
  {
    if a == [] {
      assert a + b == b;
    } else {
      assert (a + b)[0] == a[0];
      assert (a + b)[1..] == a[1..] + b;
      CountAppend(a[1..], b, c);
    }
  }

  lemma {:induction false} CountAbsent(s: string, c: char)
    requires c !in s
    ensures Count(s, c) == 0
  {
    if s != [] {
      CountAbsent(s[1..], c);
    }
  }

  /** `s.split(c)` for a one-character separator. */
  function SplitChar(s: string, c: char): (parts: seq<string>)
    decreases |s|
    ensures |parts| >= 1
  {
    match FindChar(s, c)
    case None => [s]
    case Some(i) => [s[..i]] + SplitChar(s[i + 1..], c)
  }

  /** `c.join(parts)`. */
  function JoinChar(parts: seq<string>, c: char): string
    requires |parts| >= 1
  {
    if |parts| == 1 then parts[0] else parts[0] + [c] + JoinChar(parts[1..], c)
  }

  /** `s.split(c)` has one more part than `s` has occurrences of `c`. */
  lemma {:induction false} SplitCharCount(s: string, c: char)
    ensures |SplitChar(s, c)| == Count(s, c) + 1
    decreases |s|
  {
    match FindChar(s, c)
    case None =>
      CountAbsent(s, c);
    case Some(i) =>
      var rest := s[i + 1..];
      SplitCharCount(rest, c);
      assert s == s[..i] + ([c] + rest);
      CountAppend(s[..i], [c] + rest, c);
      CountAppend([c], rest, c);
      assert [c][1..] == [];
      assert Count([c], c) == 1;
      CountAbsent(s[..i], c);
  }

  /** No part of `s.split(c)` holds `c`. */
  lemma {:induction false} SplitCharParts(s: string, c: char, k: nat)
    requires k < |SplitChar(s, c)|
    ensures c !in SplitChar(s, c)[k]
    decreases |s|
  {
    match FindChar(s, c)
    case None =>
    case Some(i) =>
      if k > 0 {
        SplitCharParts(s[i + 1..], c, k - 1);
      }
  }

  /** `c.join(s.split(c)) == s`. */
  lemma {:induction false} SplitCharJoin(s: string, c: char)
    ensures JoinChar(SplitChar(s, c), c) == s
    decreases |s|
  {
    match FindChar(s, c)
    case None =>
    case Some(i) =>
      var rest := s[i + 1..];
      var tail := SplitChar(rest, c);
      SplitCharJoin(rest, c);
      var parts := SplitChar(s, c);
      assert parts == [s[..i]] + tail;
      assert |parts| >= 2 && parts[0] == s[..i] && parts[1..] == tail;
      assert JoinChar(parts, c) == s[..i] + [c] + JoinChar(tail, c);
      assert s == s[..i] + [c] + rest;
  }

  // --------------------------------------------------------- filtering

  /** `s` with every character of `cs` deleted (`re.sub("[...]", "", s)`). */
  function Without(s: string, cs: set<char>): string {
    if s == [] then [] else (if s[0] in cs then [] else [s[0]]) + Without(s[1..], cs)
  }

  lemma {:induction false} WithoutLaws(s: string, cs: set<char>)
    ensures forall c :: c in Without(s, cs) <==> c in s && c !in cs
    ensures |Without(s, cs)| <= |s|
  {
    if s != [] {
      WithoutLaws(s[1..], cs);
      assert s == [s[0]] + s[1..];
    }
  }

  lemma {:induction false} WithoutNone(s: string, cs: set<char>)
    requires forall i :: 0 <= i < |s| ==> s[i] !in cs
    ensures Without(s, cs) == s
  {
    if s != [] {
      WithoutNone(s[1..], cs);
    }
  }

  /** `s.replace(a, b)` for one-character strings. */
  function ReplaceChar(s: string, a: char, b: char): (r: string)
    ensures |r| == |s|
    ensures forall i :: 0 <= i < |s| ==> r[i] == if s[i] == a then b else s[i]
  {
    seq(|s|, i requires 0 <= i < |s| => if s[i] == a then b else s[i])
  }

  /** The characters of `s.replace(a, b)`: `b`, or a character of `s` other than `a`. */
  lemma ReplaceCharMembers(s: string, a: char, b: char)
    ensures forall c :: c in ReplaceChar(s, a, b) ==> c == b || (c in s && c != a)
    ensures forall c :: c in s && c != a ==> c in ReplaceChar(s, a, b)
  {
    var r := ReplaceChar(s, a, b);
    forall c | c in s && c != a ensures c in r {
      var i :| 0 <= i < |s| && s[i] == c;
      assert r[i] == c;
    }
  }

  /** `s[:n]`. */
  function Take(s: string, n: nat): (r: string)
    ensures |r| <= n && |r| <= |s|
    ensures r == s[..|r|]
    ensures |s| <= n ==> r == s
  {
    if |s| <= n then s else s[..n]
  }

  /** Python's `s[i:j]` for `0 <= i` and `j <= |s|`: empty when `j <= i`. */
  function Slice(s: string, i: nat, j: nat): (r: string)
    requires i <= |s| && j <= |s|
  {
    if j <= i then [] else s[i..j]
  }

  // -------------------------------------------------- decimal integers

  function DigitChar(d: nat): char
    requires d < 10
  {
    ('0' as int + d) as char
  }

  /** `str(n)` for a non-negative integer. */
  function NatToString(n: nat): (r: string)
    ensures |r| >= 1
    ensures forall i :: 0 <= i < |r| ==> IsDigit(r[i])
  {
    if n < 10 then [DigitChar(n)] else NatToString(n / 10) + [DigitChar(n % 10)]
  }

  /** `str(n)` for any integer. */
  function IntToString(n: int): (r: string)
    ensures |r| >= 1
    ensures n >= 0 ==> r == NatToString(n)
  {
    if n >= 0 then NatToString(n) else "-" + NatToString(-n)
  }

  /** `int(s)` for a string of decimal digits. */
  function DigitsValue(s: string): nat
    requires forall i :: 0 <= i < |s| ==> IsDigit(s[i])
  {
    if s == [] then 0
    else
      assert IsDigit(s[|s| - 1]);
      DigitsValue(s[..|s| - 1]) * 10 + (s[|s| - 1] as int - '0' as int)
  }

  /** `int(str(n)) == n`. */
  lemma {:induction false} DigitsRoundTrip(n: nat)
    ensures DigitsValue(NatToString(n)) == n
  {
    if n >= 10 {
      var r := NatToString(n);
      assert r[..|r| - 1] == NatToString(n / 10);
      DigitsRoundTrip(n / 10);
    }
  }

  /** Distinct integers are rendered as distinct strings. */
  lemma NatToStringInjective(a: nat, b: nat)
    requires NatToString(a) == NatToString(b)
    ensures a == b
  {
    DigitsRoundTrip(a);
    DigitsRoundTrip(b);
  }

  /** `x == y` whenever `p + x + q == p + y + q`. */
  lemma CancelAround(p: string, x: string, y: string, q: string)
    requires p + x + q == p + y + q
    ensures x == y
  {
    var l := p + x + q;
    assert |x| == |y|;
    assert x == l[|p|..|p| + |x|];
  }

  // ------------------------------------------------------------- paths

  /** `os.path.basename(p)`: everything after the last `/`. */
  function Basename(p: string): (r: string)
    ensures '/' !in r
  {
    match RFindChar(p, '/')
    case Some(i) => p[i + 1..]
    case None => p
  }

  /** Index of the dot that starts `pathlib`'s suffix of `name`, if any. */
  function SuffixDot(name: string): Option<nat> {
    match RFindChar(name, '.')
    case Some(i) => if 0 < i < |name| - 1 then Some(i) else None
    case None => None
  }

  /** `PurePath(name).stem`. */
  function PathStem(name: string): string {
    match SuffixDot(name)
    case Some(i) => name[..i]
    case None => name
  }

  /** `PurePath(name).suffix`. */
  function PathSuffix(name: string): string {
    match SuffixDot(name)
    case Some(i) => name[i..]
    case None => ""
  }

  /** The last `c` of `s + [c] + t`, when `t` holds none, is the one between them. */
  lemma {:induction false} RFindCharLast(s: string, c: char, t: string)
    requires c !in t
    ensures RFindChar(s + [c] + t, c) == Some(|s|)
    decreases |t|
  {
    var w := s + [c] + t;
    if t != [] {
      var t' := t[..|t| - 1];
      assert w[..|w| - 1] == s + [c] + t';
      assert t[|t| - 1] in t;
      RFindCharLast(s, c, t');
    }
  }

  /** `PurePath(stem + "." + ext)` has stem `stem` and suffix `"." + ext` when the
      stem is non-empty and the extension is a non-empty run without dots. */
  lemma StemOfSuffixed(stem: string, ext: string)
    requires stem != [] && ext != [] && '.' !in ext
    ensures PathStem(stem + "." + ext) == stem
    ensures PathSuffix(stem + "." + ext) == "." + ext
  {
    RFindCharLast(stem, '.', ext);
    var name := stem + "." + ext;
    assert name == stem + ['.'] + ext;
    assert SuffixDot(name) == Some(|stem|);
  }

  /** A name is its stem followed by its suffix; a non-empty suffix is a dot
      followed by at least one character, none of them a dot. */
  lemma StemSuffix(name: string)
    ensures PathStem(name) + PathSuffix(name) == name
    ensures PathSuffix(name) != [] ==> |PathSuffix(name)| >= 2 && PathSuffix(name)[0] == '.'
    ensures PathSuffix(name) != [] ==> '.' !in PathSuffix(name)[1..]
  {
    match SuffixDot(name)
    case Some(i) =>
      assert name[i + 1..] == PathSuffix(name)[1..];
    case None =>
  }

  /** Concatenation regroups freely. */
  lemma ConcatAssoc<T>(a: seq<T>, b: seq<T>, c: seq<T>)
    ensures a + b + c == a + (b + c)
  {
  }
}
