/**
 * The pure half of `FileManager` in src/file_manager.py: cleaning one
 * metadata field into a filename component, reducing an author field to
 * its first author, and assembling "{year} - {author} - {title}.pdf".
 */
module FileNaming {
  import opened Wrappers
  import opened Text
  import opened Json
  import Config

  /** Characters that filesystems refuse in names (`[<>:"/\\|?*]`). */
  const Reserved: set<char> := {'<', '>', ':', '"', '/', '\\', '|', '?', '*'}

  /** Symbols removed because they cause trouble in names (`[†‡§¶#@$%^&*+={}[\]~`]`). */
  const Symbols: set<char> := {
    '\U{2020}', '\U{2021}', '\U{A7}', '\U{B6}', '#', '@', '$', '%', '^', '&', '*',
    '+', '=', '{', '}', '[', ']', '~', '`'
  }

  /** A character that sanitizing deletes or turns into (at most) a space. */
  predicate Dropped(c: char) {
    c in Reserved || c in Symbols || IsSpace(c)
  }

  // ------------------------------------------------------------ sanitize

  /** `re.sub(r"\s+", " ", s)`: each maximal run of whitespace becomes one space. */
  function CollapseSpaces(s: string): string
    decreases |s|
  {
    if s == [] then []
    else if IsSpace(s[0]) then [' '] + CollapseSpaces(s[1..][LeadingSpaces(s[1..])..])
    else [s[0]] + CollapseSpaces(s[1..])
  }

  /** Collapsing introduces no character but a space and keeps every other character. */
  lemma {:induction false} CollapseChars(s: string)
    ensures forall c :: c in CollapseSpaces(s) ==> c == ' ' || (c in s && !IsSpace(c))
    ensures forall c :: c in s && !IsSpace(c) ==> c in CollapseSpaces(s)
    decreases |s|
  {
    if s != [] {
      var t := s[1..];
      if IsSpace(s[0]) {
        var u := t[LeadingSpaces(t)..];
        CollapseChars(u);
        forall c | c in s && !IsSpace(c) ensures c in u {
          var i :| 0 <= i < |s| && s[i] == c;
          assert i >= 1 + LeadingSpaces(t);
          assert u[i - 1 - LeadingSpaces(t)] == c;
        }
      } else {
        CollapseChars(t);
        assert s == [s[0]] + t;
      }
    }
  }

  /** A string whose whitespace is already single spaces between other characters
      comes out of collapsing unchanged. */
  lemma {:induction false} CollapseClean(s: string)
    requires forall i :: 0 <= i < |s| && IsSpace(s[i]) ==> s[i] == ' ' && (i + 1 < |s| ==> !IsSpace(s[i + 1]))
    ensures CollapseSpaces(s) == s
    decreases |s|
  {
    if s != [] {
      CollapseClean(s[1..]);
      if IsSpace(s[0]) && |s| > 1 {
        assert !IsSpace(s[1..][0]);
      }
    }
  }

  /** The characters `sanitize_filename` keeps from a non-sentinel input, before
      stripping and truncation: reserved characters deleted, newlines turned into
      spaces, whitespace runs collapsed, symbols deleted. */
  function Scrub(text: string): string {
    Without(CollapseSpaces(ReplaceChar(Without(text, Reserved), '\n', ' ')), Symbols)
  }

  /** `sanitize_filename(text)` (src/file_manager.py:47-59): the sentinel and the
      empty string become "Unknown"; anything else is scrubbed, stripped and cut
      to `MaxFilenameLength` characters. */
  function Sanitize(text: string): string {
    if text == "" || text == Config.NotFound then "Unknown"
    else Take(Strip(Scrub(text)), Config.MaxFilenameLength)
  }

  /** Scrubbing leaves plain spaces and the characters of the input that are neither
      reserved, nor symbols, nor whitespace — and all of the latter. */
  lemma ScrubChars(text: string)
    ensures forall c :: c in Scrub(text) ==> c == ' ' || (c in text && !Dropped(c))
    ensures forall c :: c in text && !Dropped(c) ==> c in Scrub(text)
  {
    var noReserved := Without(text, Reserved);
    var replaced := ReplaceChar(noReserved, '\n', ' ');
    var spaced := CollapseSpaces(replaced);
    WithoutLaws(text, Reserved);
    ReplaceCharMembers(noReserved, '\n', ' ');
    CollapseChars(replaced);
    WithoutLaws(spaced, Symbols);
    assert IsSpace('\n');
  }

  /** A character that may appear in a sanitized component. */
  predicate SafeChar(c: char) {
    c !in Reserved && c !in Symbols && (IsSpace(c) ==> c == ' ')
  }

  /** What every sanitized component satisfies: no reserved character, no symbol,
      no whitespace but the plain space, no leading whitespace, and at most
      `MaxFilenameLength` characters. */
  predicate SafeComponent(r: string) {
    && |r| <= Config.MaxFilenameLength
    && (forall i :: 0 <= i < |r| ==> SafeChar(r[i]))
    && (r == [] || !IsSpace(r[0]))
  }

  /** A prefix of a safe character run is a safe component once it is short enough. */
  lemma TakeSafe(s: string)
    requires forall c :: c in s ==> SafeChar(c)
    requires s == [] || !IsSpace(s[0])
    ensures SafeComponent(Take(s, Config.MaxFilenameLength))
  {
    var r := Take(s, Config.MaxFilenameLength);
    forall i | 0 <= i < |r| ensures SafeChar(r[i]) {
      assert r[i] == s[i];
      assert s[i] in s;
    }
  }

  /** Every output of `sanitize_filename` is a safe component. */
  lemma SanitizeSafe(text: string)
    ensures SafeComponent(Sanitize(text))
  {
    if text == "" || text == Config.NotFound {
      UnknownSafe();
    } else {
      var scrubbed := Scrub(text);
      var stripped := Strip(scrubbed);
      ScrubChars(text);
      StripShape(scrubbed);
      forall c | c in stripped ensures SafeChar(c) {
        assert c in scrubbed;
      }
      TakeSafe(stripped);
    }
  }

  /** The placeholder "Unknown" is itself a safe component. */
  lemma UnknownSafe()
    ensures SafeComponent("Unknown")
  {
    var u := "Unknown";
    forall i | 0 <= i < |u| ensures SafeChar(u[i]) {
      assert Alphanumeric(u[i]);
    }
  }

  /** `sanitize_filename` gives "Unknown" for the empty string and the sentinel, and
      it gives the empty string exactly when every character of a non-sentinel input
      is reserved, a symbol or whitespace (so "???" gives ""). */
  lemma SanitizeEmptyIff(text: string)
    ensures (text == "" || text == Config.NotFound) ==> Sanitize(text) == "Unknown"
    ensures Sanitize(text) == "" <==>
              text != "" && text != Config.NotFound && forall i :: 0 <= i < |text| ==> Dropped(text[i])
  {
    if text != "" && text != Config.NotFound {
      var scrubbed := Scrub(text);
      ScrubChars(text);
      StripEmptyIff(scrubbed);
      if forall i :: 0 <= i < |text| ==> Dropped(text[i]) {
        forall i | 0 <= i < |scrubbed| ensures IsSpace(scrubbed[i]) {
          var c := scrubbed[i];
          assert c in scrubbed;
          assert !(c in text && !Dropped(c));
        }
      } else {
        var k :| 0 <= k < |text| && !Dropped(text[k]);
        assert text[k] in scrubbed;
        var m :| 0 <= m < |scrubbed| && scrubbed[m] == text[k];
        assert !IsSpace(scrubbed[m]);
      }
    }
  }

  /** A component that is already clean — not the sentinel, no reserved character,
      no symbol, single plain spaces only between other characters, at most
      `MaxFilenameLength` characters — passes through `sanitize_filename` unchanged. */
  lemma SanitizeFixedPoint(text: string)
    requires text != "" && text != Config.NotFound
    requires |text| <= Config.MaxFilenameLength
    requires forall i :: 0 <= i < |text| ==> text[i] !in Reserved && text[i] !in Symbols
    requires forall i :: 0 <= i < |text| && IsSpace(text[i]) ==> text[i] == ' ' && 0 < i < |text| - 1 && !IsSpace(text[i + 1])
    ensures Sanitize(text) == text
  {
    WithoutNone(text, Reserved);
    assert ReplaceChar(text, '\n', ' ') == text;
    CollapseClean(text);
    WithoutNone(text, Symbols);
    assert Scrub(text) == text;
    StripClean(text);
  }

  // -------------------------------------------------------------- author

  /** `any(s in segment.strip().lower() for s in ["jr", "sr", "ii", "iii", "iv"])`. */
  predicate HasGenerationalSuffix(segment: string) {
    var l := Lower(Strip(segment));
    Contains(l, "jr") || Contains(l, "sr") || Contains(l, "ii") || Contains(l, "iii") || Contains(l, "iv")
  }

  /** The multi-author reduction of `_process_author_name` (src/file_manager.py:70-83),
      applied to an already sanitized author: a case-insensitively detected " and "
      (split case-sensitively), then " & ", then ";", then — only with more than one
      comma and a second segment that carries no generational suffix — the first comma. */
  function ReduceAuthor(author: string): string {
    if Contains(Lower(author), " and ") then Strip(SplitHead(author, " and "))
    else if Contains(author, " & ") then Strip(SplitHead(author, " & "))
    else if Contains(author, ";") then Strip(SplitHead(author, ";"))
    else if Count(author, ',') > 1 then
      var parts := SplitChar(author, ',');
      if |parts| >= 2 && !HasGenerationalSuffix(parts[1]) then Strip(parts[0]) else author
    else author
  }

  /** `str(x)` of the author field after list reduction: a list gives its first element
      (or "Unknown" when empty), anything else itself. */
  function AuthorText(raw: Json): string {
    match raw
    case JList(items) => if items != [] then Show(items[0]) else "Unknown"
    case _ => Show(raw)
  }

  /** `_process_author_name(author_raw)` (src/file_manager.py:61-83). */
  function ProcessAuthorName(raw: Json): string {
    ReduceAuthor(Sanitize(AuthorText(raw)))
  }

  /** `s.split(sep)[0]` is a leading part of `s`. */
  lemma SplitHeadIsPrefix(s: string, sep: string)
    ensures exists j :: 0 <= j <= |s| && SplitHead(s, sep) == s[..j]
  {
    match Find(s, sep)
    case None => assert s[..|s|] == s;
    case Some(i) =>
  }

  /** `s.split(c)[0]` is a leading part of `s`. */
  lemma SplitCharIsPrefix(s: string, c: char)
    ensures exists j :: 0 <= j <= |s| && SplitChar(s, c)[0] == s[..j]
  {
    match FindChar(s, c)
    case None => assert s[..|s|] == s;
    case Some(i) =>
  }

  /** The reduction keeps the whole author or cuts it at some point and strips the
      part before the cut: the result is always a leading part of the author. */
  lemma ReduceAuthorLeading(author: string)
    ensures ReduceAuthor(author) == author ||
            exists j :: 0 <= j <= |author| && ReduceAuthor(author) == Strip(author[..j])
  {
    if Contains(Lower(author), " and ") {
      SplitHeadIsPrefix(author, " and ");
    } else if Contains(author, " & ") {
      SplitHeadIsPrefix(author, " & ");
    } else if Contains(author, ";") {
      SplitHeadIsPrefix(author, ";");
    } else if Count(author, ',') > 1 {
      SplitCharIsPrefix(author, ',');
    }
  }

  /** The reduction never lengthens the author, and a safe component stays safe. */
  lemma ReduceAuthorSafe(author: string)
    requires SafeComponent(author)
    ensures |ReduceAuthor(author)| <= |author|
    ensures SafeComponent(ReduceAuthor(author))
  {
    ReduceAuthorLeading(author);
    var r := ReduceAuthor(author);
    if r != author {
      var j :| 0 <= j <= |author| && r == Strip(author[..j]);
      StripPrefixSafe(author, j);
    }
  }

  /** The strip of a leading part of a safe component is a safe component. */
  lemma StripPrefixSafe(author: string, j: nat)
    requires SafeComponent(author) && j <= |author|
    ensures |Strip(author[..j])| <= |author|
    ensures SafeComponent(Strip(author[..j]))
  {
    var r := Strip(author[..j]);
    StripShape(author[..j]);
    StripSlice(author[..j]);
    var a := LeadingSpaces(author[..j]);
    forall i | 0 <= i < |r| ensures SafeChar(r[i]) {
      assert r[i] == author[a + i];
    }
  }

  /** A name that none of the rules applies to — no " and " in any letter case, no
      " & ", no ";" and at most one comma — is kept as it is by the reduction
      ("Smith, J." stays "Smith, J."). */
  lemma ReduceAuthorSingleName(author: string)
    requires !Contains(Lower(author), " and ") && !Contains(author, " & ") && !Contains(author, ";")
    requires Count(author, ',') <= 1
    ensures ReduceAuthor(author) == author
  {
  }

  /** Lower-casing keeps an occurrence of a pattern that is already lower case. */
  lemma LowerKeepsLowerOccurrence(s: string, p: string, i: nat)
    requires OccursAt(s, p, i)
    requires forall k :: 0 <= k < |p| ==> LowerChar(p[k]) == p[k]
    ensures OccursAt(Lower(s), p, i)
  {
    assert Lower(s)[i..i + |p|] == p by {
      forall k | 0 <= k < |p| ensures Lower(s)[i..i + |p|][k] == p[k] {
        assert s[i + k] == p[k];
      }
    }
  }

  /** No occurrence of a non-empty `p` starts before index `i` of `s`, so none
      occurs in the strip of `s[..i]`. */
  lemma NoOccurrenceInStrippedPrefix(s: string, i: nat, p: string)
    requires i <= |s| && p != []
    requires forall j :: 0 <= j < i ==> !OccursAt(s, p, j)
    ensures !Contains(Strip(s[..i]), p)
  {
    var h := s[..i];
    StripSlice(h);
    var a := LeadingSpaces(h);
    var r := Strip(h);
    SliceOfPrefix(s, i, a, a + |r|);
    NoOccurrenceInSlice(s, i, a, |r|, p);
  }

  /** A slice of `s` that ends by index `i` holds no occurrence of `p` when none
      starts before `i`. */
  lemma NoOccurrenceInSlice(s: string, i: nat, a: nat, n: nat, p: string)
    requires a + n <= i <= |s| && p != []
    requires forall j :: 0 <= j < i ==> !OccursAt(s, p, j)
    ensures !Contains(s[a..a + n], p)
  {
    var r := s[a..a + n];
    forall k | 0 <= k <= |r| - |p| ensures !OccursAt(r, p, k) {
      var u, v := r[k..k + |p|], s[a + k..a + k + |p|];
      assert forall m :: 0 <= m < |p| ==> u[m] == v[m];
      assert u == v;
      assert !OccursAt(s, p, a + k);
    }
  }

  /** When " and " occurs (in this letter case) the result is the stripped text before
      its first occurrence, which holds no " and " of its own. */
  lemma ReduceAuthorAnd(author: string)
    requires Contains(author, " and ")
    ensures exists rest :: author == SplitHead(author, " and ") + " and " + rest
    ensures ReduceAuthor(author) == Strip(SplitHead(author, " and "))
    ensures !Contains(ReduceAuthor(author), " and ")
  {
    var i := Find(author, " and ").value;
    LowerKeepsLowerOccurrence(author, " and ", i);
    ContainsAt(Lower(author), " and ", i);
    SplitHeadFirst(author, " and ");
    NoOccurrenceInStrippedPrefix(author, i, " and ");
  }

  /** An " and " that is found only once the author is lower-cased (as in "AND")
      triggers the first rule, but the case-sensitive split finds nothing to cut: the
      author comes back stripped and otherwise whole. */
  lemma ReduceAuthorAndOtherCase(author: string)
    requires Contains(Lower(author), " and ") && !Contains(author, " and ")
    ensures ReduceAuthor(author) == Strip(author)
  {
  }

  /** Sanitizing deletes every '&', so the `" & "` rule never applies to a sanitized
      author and the reduction goes on to the `";"` rule. */
  lemma AmpRuleUnreachable(text: string)
    ensures '&' !in Sanitize(text)
    ensures !Contains(Sanitize(text), " & ")
  {
    SanitizeSafe(text);
    NotContainsChar(Sanitize(text), " & ", 1);
  }

  /** With no " and " in any letter case and no " & ", a ";" cuts the author: the
      result is the stripped text before the first ";", which holds no ";". */
  lemma ReduceAuthorSemicolon(author: string)
    requires !Contains(Lower(author), " and ") && !Contains(author, " & ")
    requires ';' in author
    ensures exists rest :: author == SplitHead(author, ";") + ";" + rest
    ensures ReduceAuthor(author) == Strip(SplitHead(author, ";"))
    ensures ';' !in ReduceAuthor(author)
  {
    CharContains(author, ';');
    SemicolonRule(author);
    SplitHeadFirst(author, ";");
    NoOccurrenceInStrippedPrefix(author, Find(author, ";").value, ";");
    CharContains(Strip(SplitHead(author, ";")), ';');
  }

  /** The reduction of an author that reaches the `";"` rule. */
  lemma SemicolonRule(author: string)
    requires !Contains(Lower(author), " and ") && !Contains(author, " & ") && Contains(author, ";")
    ensures ReduceAuthor(author) == Strip(SplitHead(author, ";"))
  {
  }

  /** `c in s` is `[c] in s` for strings. */
  lemma CharContains(s: string, c: char)
    ensures c in s <==> Contains(s, [c])
  {
    if c in s {
      var k :| 0 <= k < |s| && s[k] == c;
      assert s[k..k + 1] == [c];
      ContainsAt(s, [c], k);
    }
    if Contains(s, [c]) {
      var k :| 0 <= k <= |s| - 1 && OccursAt(s, [c], k);
      assert s[k..k + 1][0] == s[k];
    }
  }

  /** When only the comma rule can apply — no " and " in any letter case, no " & ",
      no ";" — and the author has more than one comma, the author is cut at its
      first comma exactly when the second comma-separated segment carries no
      generational suffix ("Smith, Jones, Lee" gives "Smith"); with a suffix
      ("Smith, Jr., Lee") it is kept whole. */
  lemma ReduceAuthorCommas(author: string)
    requires !Contains(Lower(author), " and ") && !Contains(author, " & ") && ';' !in author
    requires Count(author, ',') > 1
    ensures |SplitChar(author, ',')| == Count(author, ',') + 1
    ensures exists rest :: author == SplitChar(author, ',')[0] + "," + rest
    ensures !HasGenerationalSuffix(SplitChar(author, ',')[1]) ==>
              ReduceAuthor(author) == Strip(SplitChar(author, ',')[0]) && ',' !in ReduceAuthor(author)
    ensures HasGenerationalSuffix(SplitChar(author, ',')[1]) ==> ReduceAuthor(author) == author
  {
    SplitCharCount(author, ',');
    NotContainsChar(author, ";", 0);
    CommaRule(author);
    FirstCommaPart(author);
  }

  /** The reduction of an author that reaches the comma rule. */
  lemma CommaRule(author: string)
    requires !Contains(Lower(author), " and ") && !Contains(author, " & ") && !Contains(author, ";")
    requires Count(author, ',') > 1 && |SplitChar(author, ',')| >= 2
    ensures ReduceAuthor(author) ==
              if HasGenerationalSuffix(SplitChar(author, ',')[1]) then author else Strip(SplitChar(author, ',')[0])
  {
  }

  /** The first part of `author.split(",")` is the text before the first comma, and
      its strip holds no comma. */
  lemma FirstCommaPart(author: string)
    requires ',' in author
    ensures exists rest :: author == SplitChar(author, ',')[0] + "," + rest
    ensures ',' !in Strip(SplitChar(author, ',')[0])
  {
    var j := FindChar(author, ',').value;
    assert SplitChar(author, ',')[0] == author[..j];
    assert author == author[..j] + "," + author[j + 1..];
    SplitCharParts(author, ',', 0);
    StripShape(SplitChar(author, ',')[0]);
  }

  // The worked examples below state each fact about a literal in a helper lemma of
  // its own and take the literal as a parameter, so that the solver does not
  // evaluate every rule of the reduction on it at once.

  lemma UpperAndLowered()
    ensures Contains(Lower("Smith AND Jones"), " and ")
  {
    assert Lower("Smith AND Jones")[5..10] == " and ";
    ContainsAt(Lower("Smith AND Jones"), " and ", 5);
  }

  lemma UpperAndStripped()
    ensures Strip("Smith AND Jones") == "Smith AND Jones"
  {
    StripClean("Smith AND Jones");
  }

  /** "Smith AND Jones" is therefore kept as it is. */
  lemma ReduceAuthorUpperAnd(a: string)
    requires a == "Smith AND Jones"
    ensures ReduceAuthor(a) == a
  {
    UpperAndLowered();
    NotContainsChar(a, " and ", 1);
    UpperAndStripped();
    ReduceAuthorAndOtherCase(a);
  }

  lemma TwoAuthorsFirstAnd()
    ensures OccursAt("Smith, J. and Jones, K.", " and ", 9)
    ensures forall j :: 0 <= j < 9 ==> !OccursAt("Smith, J. and Jones, K.", " and ", j)
  {
    var a := "Smith, J. and Jones, K.";
    assert 'a' !in a[1..10];
    NoOccurrenceBefore(a, " and ", 9, 1);
    assert a[9..14] == " and ";
  }

  lemma TwoAuthorsHead()
    ensures Strip("Smith, J. and Jones, K."[..9]) == "Smith, J."
  {
    assert "Smith, J. and Jones, K."[..9] == "Smith, J.";
    assert !IsSpace('.');
    StripClean("Smith, J.");
  }

  /** The first `c` of `x + [c] + rest`, when `x` lacks `c`, is the one after `x`. */
  lemma FindCharAfterHead(x: string, c: char, rest: string)
    requires c !in x
    ensures FindChar(x + [c] + rest, c) == Some(|x|)
  {
    var s := x + [c] + rest;
    assert s[|x|] == c;
    assert s[..|x|] == x;
  }

  /** Splitting at a `c` that the head lacks gives the head, then the split of the rest. */
  lemma SplitCharCons(x: string, c: char, rest: string)
    requires c !in x
    ensures SplitChar(x + [c] + rest, c) == [x] + SplitChar(rest, c)
    ensures Count(x + [c] + rest, c) == 1 + Count(rest, c)
  {
    var s := x + [c] + rest;
    FindCharAfterHead(x, c, rest);
    assert s[..|x|] == x;
    assert s[|x| + 1..] == rest;
    CountCons(x, c, rest);
  }

  lemma CountCons(x: string, c: char, rest: string)
    requires c !in x
    ensures Count(x + [c] + rest, c) == 1 + Count(rest, c)
  {
    assert x + [c] + rest == x + ([c] + rest);
    CountAppend(x, [c] + rest, c);
    CountAbsent(x, c);
    CountAppend([c], rest, c);
    assert [c][1..] == [];
  }

  /** An author of three comma-separated parts that none of the earlier rules cuts. */
  lemma ReduceThreeParts(a: string, first: string, second: string, third: string)
    requires a == first + [','] + second + [','] + third
    requires ',' !in first && ',' !in second && ',' !in third
    requires 'd' !in a && 'D' !in a && '&' !in a && ';' !in a
    ensures ReduceAuthor(a) == if HasGenerationalSuffix(second) then a else Strip(first)
  {
    assert a == first + [','] + (second + [','] + third);
    SplitCharCons(first, ',', second + [','] + third);
    SplitCharCons(second, ',', third);
    CountAbsent(third, ',');
    assert SplitChar(third, ',') == [third];
    var l := Lower(a);
    forall k | 0 <= k < |l| ensures l[k] != 'd' {
      assert a[k] != 'd' && a[k] != 'D';
    }
    NotContainsChar(l, " and ", 3);
    NotContainsChar(a, " & ", 1);
    ReduceAuthorCommas(a);
  }

  /** `" " + w` strips to `w` when `w` has no whitespace at its ends. */
  lemma StripOneLeadingSpace(w: string)
    requires w != [] && !IsSpace(w[0]) && !IsSpace(w[|w| - 1])
    ensures Strip([' '] + w) == w
  {
    assert ([' '] + w)[1..] == w;
  }

  lemma SuffixFound(segment: string, word: string, l: string, suffix: string, at: nat)
    requires Strip(segment) == word && Lower(word) == l && OccursAt(l, suffix, at)
    requires suffix in ["jr", "sr", "ii", "iii", "iv"]
    ensures HasGenerationalSuffix(segment)
  {
    ContainsAt(l, suffix, at);
  }

  /** The three-part reduction, cut at the first comma. */
  lemma CommaCut(a: string, first: string, second: string, third: string)
    requires a == first + [','] + second + [','] + third
    requires ',' !in first && ',' !in second && ',' !in third
    requires 'd' !in a && 'D' !in a && '&' !in a && ';' !in a
    requires !HasGenerationalSuffix(second)
    requires first == [] || (!IsSpace(first[0]) && !IsSpace(first[|first| - 1]))
    ensures ReduceAuthor(a) == first
  {
    ReduceThreeParts(a, first, second, third);
    StripClean(first);
  }

  /** The three-part reduction, kept whole. */
  lemma CommaKept(a: string, first: string, second: string, third: string)
    requires a == first + [','] + second + [','] + third
    requires ',' !in first && ',' !in second && ',' !in third
    requires 'd' !in a && 'D' !in a && '&' !in a && ';' !in a
    requires HasGenerationalSuffix(second)
    ensures ReduceAuthor(a) == a
  {
    ReduceThreeParts(a, first, second, third);
  }

  /** A character missing from the three parts and other than ',' is missing from
      the author they make up. */
  lemma PartsLack(a: string, first: string, second: string, third: string, c: char)
    requires a == first + [','] + second + [','] + third
    requires c != ',' && c !in first && c !in second && c !in third
    ensures c !in a
  {
  }

  /** None of the characters the `" and "`, `" & "`, `";"` and comma rules look for. */
  predicate LacksRuleChars(s: string) {
    ',' !in s && 'd' !in s && 'D' !in s && '&' !in s && ';' !in s
  }

  lemma CommaExampleParts(a: string, first: string, second: string, third: string)
    requires a == first + [','] + second + [','] + third
    requires LacksRuleChars(first) && LacksRuleChars(second) && LacksRuleChars(third)
    ensures ',' !in first && ',' !in second && ',' !in third
    ensures 'd' !in a && 'D' !in a && '&' !in a && ';' !in a
  {
    PartsLack(a, first, second, third, 'd');
    PartsLack(a, first, second, third, 'D');
    PartsLack(a, first, second, third, '&');
    PartsLack(a, first, second, third, ';');
  }

  lemma ExampleOuterParts()
    ensures LacksRuleChars("Smith") && LacksRuleChars(" Lee")
    ensures !IsSpace('S') && !IsSpace('h')
  {
  }

  lemma ExampleMiddleParts()
    ensures LacksRuleChars(" Jones")
    ensures LacksRuleChars(" Jr.")
    ensures LacksRuleChars(" Olivia")
  {
  }

  lemma JonesNoSuffix(segment: string)
    requires segment == " Jones"
    ensures !HasGenerationalSuffix(segment)
  {
    StripOneLeadingSpace("Jones");
    assert [' '] + "Jones" == segment;
    var l := Lower("Jones");
    assert l == "jones";
    NotContainsChar(l, "jr", 1);
    NotContainsChar(l, "sr", 1);
    NotContainsChar(l, "ii", 0);
    NotContainsChar(l, "iii", 0);
    NotContainsChar(l, "iv", 0);
  }

  lemma JuniorSuffix(segment: string)
    requires segment == " Jr."
    ensures HasGenerationalSuffix(segment)
  {
    StripOneLeadingSpace("Jr.");
    assert [' '] + "Jr." == segment;
    var l := Lower("Jr.");
    assert l[0] == 'j' && l[1..] == "r.";
    assert l == "jr.";
    assert l[0..2] == "jr";
    SuffixFound(segment, "Jr.", l, "jr", 0);
  }

  lemma OliviaSuffix(segment: string)
    requires segment == " Olivia"
    ensures HasGenerationalSuffix(segment)
  {
    StripOneLeadingSpace("Olivia");
    assert [' '] + "Olivia" == segment;
    var l := Lower("Olivia");
    assert l[0] == 'o' && l[1..] == "livia";
    assert l == "olivia";
    assert l[2..4] == "iv";
    SuffixFound(segment, "Olivia", l, "iv", 2);
  }

  /** "Smith, Jones, Lee" keeps only its first name, "Smith". */
  lemma ReduceAuthorCommasExample(a: string)
    requires a == "Smith, Jones, Lee"
    ensures ReduceAuthor(a) == "Smith"
  {
    assert a == "Smith" + [','] + " Jones" + [','] + " Lee";
    ExampleOuterParts();
    ExampleMiddleParts();
    CommaExampleParts(a, "Smith", " Jones", " Lee");
    JonesNoSuffix(" Jones");
    CommaCut(a, "Smith", " Jones", " Lee");
  }

  /** "Smith, Jr., Lee" has a generational suffix in its second segment and is kept
      whole. */
  lemma ReduceAuthorSuffixExample(a: string)
    requires a == "Smith, Jr., Lee"
    ensures ReduceAuthor(a) == a
  {
    assert a == "Smith" + [','] + " Jr." + [','] + " Lee";
    ExampleOuterParts();
    ExampleMiddleParts();
    CommaExampleParts(a, "Smith", " Jr.", " Lee");
    JuniorSuffix(" Jr.");
    CommaKept(a, "Smith", " Jr.", " Lee");
  }

  /** The suffix test looks for substrings, so "iv" inside "Olivia" counts as a
      suffix and "Smith, Olivia, Lee" is kept whole. */
  lemma ReduceAuthorSubstringSuffix(a: string)
    requires a == "Smith, Olivia, Lee"
    ensures ReduceAuthor(a) == a
  {
    assert a == "Smith" + [','] + " Olivia" + [','] + " Lee";
    ExampleOuterParts();
    ExampleMiddleParts();
    CommaExampleParts(a, "Smith", " Olivia", " Lee");
    OliviaSuffix(" Olivia");
    CommaKept(a, "Smith", " Olivia", " Lee");
  }

  /** "Smith, J. and Jones, K." keeps only its first author, "Smith, J.". */
  lemma ReduceAuthorAndExample(a: string)
    requires a == "Smith, J. and Jones, K."
    ensures ReduceAuthor(a) == "Smith, J."
  {
    TwoAuthorsFirstAnd();
    FindFirst(a, " and ", 9);
    ContainsAt(a, " and ", 9);
    ReduceAuthorAnd(a);
    TwoAuthorsHead();
  }

  // ------------------------------------------------------------ filename

  /** Why a non-string field makes `re.sub` raise. */
  function TypeErrorMessage(v: Json): string {
    "expected string or bytes-like object, got '" + TypeName(v) + "'"
  }

  /** `sanitize_filename` applied to a decoded field value: a falsy value or the
      sentinel gives "Unknown", a string is sanitized, and any other value makes
      the substitution raise. */
  function SanitizeValue(v: Json): Result<string> {
    if !Truthy(v) || v == JStr(Config.NotFound) then Ok("Unknown")
    else if v.JStr? then Ok(Sanitize(v.s))
    else Err(TypeErrorMessage(v))
  }

  /** `f"{year} - {author} - {title}.pdf"`. */
  function Assemble(year: string, author: string, title: string): string {
    year + " - " + author + " - " + title + ".pdf"
  }

  /** `create_new_filename(metadata)` (src/file_manager.py:85-92), with the exception
      raised by a non-string year or title as an error. */
  function CreateNewFilename(meta: Dict): Result<string> {
    var year := SanitizeValue(GetOr(meta, "year", JStr("Unknown")));
    var author := ProcessAuthorName(GetOr(meta, "author", JStr("Unknown")));
    var title := SanitizeValue(GetOr(meta, "title", JStr("Unknown")));
    if year.Err? then Err(year.message)
    else if title.Err? then Err(title.message)
    else Ok(Assemble(year.value, author, title.value))
  }

  /** A field value that `sanitize_filename` accepts. */
  predicate Nameable(v: Json) {
    v.JStr? || !Truthy(v)
  }

  /** Building the name fails exactly when the year or the title is a truthy
      non-string; then the error is the substitution's `TypeError`. */
  lemma CreateNewFilenameFails(meta: Dict)
    ensures CreateNewFilename(meta).Ok? <==>
              Nameable(GetOr(meta, "year", JStr("Unknown"))) && Nameable(GetOr(meta, "title", JStr("Unknown")))
  {
  }

  /** The shape of a generated filename: no `/`, at least the fixed text, ends in
      ".pdf", and its `pathlib` stem is everything before ".pdf". */
  predicate PdfName(name: string) {
    && '/' !in name
    && |name| >= 5
    && name[|name| - 4..] == ".pdf"
    && PathStem(name) + ".pdf" == name
  }

  /** Every generated name is made of three safe components around " - ", ends in
      ".pdf", has the part before ".pdf" as its `pathlib` stem, contains no "/"
      (so it is one entry of the output directory) and is at most 310 characters. */
  lemma CreateNewFilenameSafe(meta: Dict)
    requires CreateNewFilename(meta).Ok?
    ensures var name := CreateNewFilename(meta).value;
      && (exists y, a, t :: SafeComponent(y) && SafeComponent(a) && SafeComponent(t) && name == Assemble(y, a, t))
      && (forall i :: 0 <= i < |name| ==> SafeChar(name[i]))
      && PdfName(name) && |name| >= 10
      && |name| <= 3 * Config.MaxFilenameLength + 10
  {
    var y := SanitizeValue(GetOr(meta, "year", JStr("Unknown"))).value;
    var t := SanitizeValue(GetOr(meta, "title", JStr("Unknown"))).value;
    var raw := Sanitize(AuthorText(GetOr(meta, "author", JStr("Unknown"))));
    var a := ReduceAuthor(raw);
    SanitizeValueSafe(GetOr(meta, "year", JStr("Unknown")));
    SanitizeValueSafe(GetOr(meta, "title", JStr("Unknown")));
    SanitizeSafe(AuthorText(GetOr(meta, "author", JStr("Unknown"))));
    ReduceAuthorSafe(raw);
    var name := Assemble(y, a, t);
    assert CreateNewFilename(meta).value == name;
    AssembleSafe(y, a, t);
  }

  lemma SanitizeValueSafe(v: Json)
    requires SanitizeValue(v).Ok?
    ensures SafeComponent(SanitizeValue(v).value)
  {
    if v.JStr? && Truthy(v) && v != JStr(Config.NotFound) {
      SanitizeSafe(v.s);
    } else {
      SanitizeSafe("");
    }
  }

  /** The characters of an assembled name are those of its components and of the
      fixed text around them. */
  lemma AssembleChars(y: string, a: string, t: string)
    requires SafeComponent(y) && SafeComponent(a) && SafeComponent(t)
    ensures forall i :: 0 <= i < |Assemble(y, a, t)| ==> SafeChar(Assemble(y, a, t)[i])
  {
    var name := Assemble(y, a, t);
    var sep := " - ";
    var ext := ".pdf";
    assert forall i :: 0 <= i < |sep| ==> SafeChar(sep[i]);
    assert forall i :: 0 <= i < |ext| ==> SafeChar(ext[i]);
    forall i | 0 <= i < |name| ensures SafeChar(name[i]) {
      if i < |y| { assert name[i] == y[i]; }
      else if i < |y| + 3 { assert name[i] == sep[i - |y|]; }
      else if i < |y| + 3 + |a| { assert name[i] == a[i - |y| - 3]; }
      else if i < |y| + 6 + |a| { assert name[i] == sep[i - |y| - 3 - |a|]; }
      else if i < |y| + 6 + |a| + |t| { assert name[i] == t[i - |y| - 6 - |a|]; }
      else { assert name[i] == ext[i - |y| - 6 - |a| - |t|]; }
    }
  }

  lemma AssembleSafe(y: string, a: string, t: string)
    requires SafeComponent(y) && SafeComponent(a) && SafeComponent(t)
    ensures var name := Assemble(y, a, t);
      && (forall i :: 0 <= i < |name| ==> SafeChar(name[i]))
      && PdfName(name) && |name| >= 10
      && |name| <= 3 * Config.MaxFilenameLength + 10
  {
    var name := Assemble(y, a, t);
    var stem := y + " - " + a + " - " + t;
    assert name == stem + "." + "pdf";
    AssembleChars(y, a, t);
    assert !SafeChar('/');
    StemOfSuffixed(stem, "pdf");
  }

  lemma SingleLetterAuthor()
    ensures ProcessAuthorName(JStr("A")) == "A"
  {
    AlphanumericFixedPoint("A");
    assert Lower("A") == "a";
    NotContainsChar("A", ";", 0);
    NotContainsChar("A", " & ", 0);
    NotContainsChar("a", " and ", 0);
    CountAbsent("A", ',');
  }

  /** The placeholder survives the author rules unchanged. */
  lemma UnknownAuthorKept()
    ensures ReduceAuthor("Unknown") == "Unknown"
  {
    assert Lower("Unknown") == "unknown";
    NotContainsChar("Unknown", ";", 0);
    NotContainsChar("Unknown", " & ", 0);
    NotContainsChar("unknown", " and ", 0);
    CountAbsent("Unknown", ',');
    ReduceAuthorSingleName("Unknown");
  }

  /** A list author is reduced to its first element, shown as `str` shows it, before
      sanitizing; an empty list and a first element "Not found" both give "Unknown". */
  lemma ListAuthor(items: seq<Json>)
    ensures items != [] ==> ProcessAuthorName(JList(items)) == ReduceAuthor(Sanitize(Show(items[0])))
    ensures items == [] || items[0] == JStr(Config.NotFound) ==> ProcessAuthorName(JList(items)) == "Unknown"
  {
    if items == [] {
      AlphanumericFixedPoint("Unknown");
    }
    UnknownAuthorKept();
  }

  predicate Alphanumeric(c: char) {
    '0' <= c <= '9' || 'A' <= c <= 'Z' || 'a' <= c <= 'z'
  }

  /** A short run of ASCII letters and digits is its own sanitized form. */
  lemma AlphanumericFixedPoint(text: string)
    requires text != "" && |text| <= Config.MaxFilenameLength
    requires forall i :: 0 <= i < |text| ==> Alphanumeric(text[i])
    ensures Sanitize(text) == text
  {
    assert Config.NotFound[3] == ' ';
    forall i | 0 <= i < |text| ensures text[i] !in Reserved && text[i] !in Symbols && !IsSpace(text[i]) {
      assert Alphanumeric(text[i]);
    }
    SanitizeFixedPoint(text);
  }

  lemma PlainTitle()
    ensures SanitizeValue(JStr("T")) == Ok("T")
  {
    AlphanumericFixedPoint("T");
  }

  lemma PlainYear()
    ensures SanitizeValue(JStr("2021")) == Ok("2021")
  {
    AlphanumericFixedPoint("2021");
  }

  lemma ExampleFields(meta: Dict)
    requires meta == [Field("title", JStr("T")), Field("author", JStr("A")), Field("year", JStr("2021"))]
    ensures GetOr(meta, "year", JStr("Unknown")) == JStr("2021")
    ensures GetOr(meta, "author", JStr("Unknown")) == JStr("A")
    ensures GetOr(meta, "title", JStr("Unknown")) == JStr("T")
  {
    GetFirst(meta, 0);
    GetFirst(meta, 1);
    GetFirst(meta, 2);
  }

  lemma ExampleComponents(y: Json, a: Json, t: Json)
    requires y == JStr("2021") && a == JStr("A") && t == JStr("T")
    ensures SanitizeValue(y) == Ok("2021") && ProcessAuthorName(a) == "A" && SanitizeValue(t) == Ok("T")
  {
    SingleLetterAuthor();
    PlainTitle();
    PlainYear();
  }

  lemma ExampleAssembled()
    ensures Assemble("2021", "A", "T") == "2021 - A - T.pdf"
  {
  }

  /** The name the orchestrator's test scenario expects: {"title": "T", "author": "A",
      "year": "2021"} is named "2021 - A - T.pdf". */
  lemma CreateNewFilenameExample(meta: Dict)
    requires meta == [Field("title", JStr("T")), Field("author", JStr("A")), Field("year", JStr("2021"))]
    ensures CreateNewFilename(meta) == Ok("2021 - A - T.pdf")
  {
    ExampleFields(meta);
    ExampleComponents(GetOr(meta, "year", JStr("Unknown")), GetOr(meta, "author", JStr("Unknown")),
                      GetOr(meta, "title", JStr("Unknown")));
    ExampleAssembled();
  }
}
