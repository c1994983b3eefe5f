/** The email validator: a suffix cleaner for junk glued after a known top
    level domain, an anchored syntax check, and the batch `processEmails`.
    Both regular expressions are fixed, so they are written out here as
    predicates over characters. */
module EmailValidation {
  import opened Wrappers
  import opened JsString
  import opened Seqs

  /** One entry of `processEmails`. `isValid` is the verdict on the
      ORIGINAL string, `cleaned` the cleaned string when that one is valid. */
  datatype ValidatedEmail = ValidatedEmail(original: string, cleaned: Option<string>, isValid: bool)

  // ---------------------------------------------------------------------
  // isValidEmail: ^[a-zA-Z0-9._%+-]+@[a-zA-Z0-9.-]+\.[a-zA-Z]{2,}$
  // ---------------------------------------------------------------------

  predicate IsLocalChar(c: char) {
    IsAsciiLetter(c) || IsAsciiDigit(c) || c == '.' || c == '_' || c == '%' || c == '+' || c == '-'
  }

  predicate IsDomainChar(c: char) {
    IsAsciiLetter(c) || IsAsciiDigit(c) || c == '.' || c == '-'
  }

  predicate AllLocal(s: string) { forall k :: 0 <= k < |s| ==> IsLocalChar(s[k]) }

  predicate AllDomain(s: string) { forall k :: 0 <= k < |s| ==> IsDomainChar(s[k]) }

  predicate AllLetters(s: string) { forall k :: 0 <= k < |s| ==> IsAsciiLetter(s[k]) }

  /** The regular expression read literally: `e` splits at `at` and `dot`
      into a non-empty local part, "@", a non-empty domain, "." and at least
      two letters running to the end. */
  predicate SplitsAsEmail(e: string, at: int, dot: int) {
    && 0 < at && at + 1 < dot && dot + 3 <= |e|
    && e[at] == '@' && e[dot] == '.'
    && AllLocal(e[..at]) && AllDomain(e[at + 1..dot]) && AllLetters(e[dot + 1..])
  }

  ghost predicate MatchesEmailPattern(e: string) {
    exists at, dot :: SplitsAsEmail(e, at, dot)
  }

  /** `isValidEmail`, decided without search: neither character class holds
      "@", so the split is at the only "@"; letters hold no ".", so the TLD
      starts after the last ".". */
  predicate IsValidEmail(e: string) {
    match IndexOf(e, "@")
    case None => false
    case Some(at) =>
      var domain := e[at + 1..];
      && 0 < at && AllLocal(e[..at]) && AllDomain(domain)
      && match LastIndexOfChar(domain, '.')
         case None => false
         case Some(dot) => 0 < dot && dot + 3 <= |domain| && AllLetters(domain[dot + 1..])
  }

  lemma AtOccurrence(e: string, i: int)
    ensures OccursAt(e, i, "@") <==> 0 <= i < |e| && e[i] == '@'
  {
    if 0 <= i < |e| {
      assert e[i..i + 1] == [e[i]];
    }
  }

  /** The decision procedure accepts exactly the strings the anchored
      regular expression matches. */
  lemma ValidEmailIffPattern(e: string)
    ensures IsValidEmail(e) <==> MatchesEmailPattern(e)
  {
    if IsValidEmail(e) {
      ValidEmailMatches(e);
    }
    if MatchesEmailPattern(e) {
      PatternIsValidEmail(e);
    }
  }

  lemma ValidEmailMatches(e: string)
    requires IsValidEmail(e)
    ensures MatchesEmailPattern(e)
  {
    var at := IndexOf(e, "@").value;
    AtOccurrence(e, at);
    var domain := e[at + 1..];
    var dot := LastIndexOfChar(domain, '.').value;
    assert e[at + 1..at + 1 + dot] == domain[..dot];
    assert e[at + 1 + dot + 1..] == domain[dot + 1..];
    assert SplitsAsEmail(e, at, at + 1 + dot);
  }

  lemma PatternIsValidEmail(e: string)
    requires MatchesEmailPattern(e)
    ensures IsValidEmail(e)
  {
    var at, dot :| SplitsAsEmail(e, at, dot);
    PatternAt(e, at, dot);
    PatternDomain(e, at, dot);
  }

  /** Neither character class holds "@", so the split is at the first one. */
  lemma PatternAt(e: string, at: int, dot: int)
    requires SplitsAsEmail(e, at, dot)
    ensures IndexOf(e, "@") == Some(at)
  {
    forall j | 0 <= j < at ensures !OccursAt(e, j, "@") {
      AtOccurrence(e, j);
      assert e[j] == e[..at][j];
    }
    AtOccurrence(e, at);
  }

  /** Letters hold no ".", so the TLD starts after the last "." of the
      domain, and every character after "@" is a domain character. */
  lemma PatternDomain(e: string, at: int, dot: int)
    requires SplitsAsEmail(e, at, dot)
    ensures var domain := e[at + 1..];
            && AllDomain(domain)
            && LastIndexOfChar(domain, '.') == Some(dot - at - 1)
            && domain[dot - at..] == e[dot + 1..]
  {
    var domain := e[at + 1..];
    var d := dot - at - 1;
    forall k | 0 <= k < |domain| ensures IsDomainChar(domain[k]) {
      if k < d {
        assert domain[k] == e[at + 1..dot][k];
      } else if k > d {
        assert domain[k] == e[dot + 1..][k - d - 1];
      }
    }
    forall j | d < j < |domain| ensures domain[j] != '.' {
      assert domain[j] == e[dot + 1..][j - d - 1];
    }
    assert domain[d + 1..] == e[dot + 1..];
  }

  // ---------------------------------------------------------------------
  // cleanDomainSuffixes:
  //   replace(/\.(com|co\.in|net|org|edu)(hashtag|Subject|Job|At|Role|Let|Join|or|For).*/i, ".$1")
  // ---------------------------------------------------------------------

  const Tlds: seq<string> := ["com", "co.in", "net", "org", "edu"]

  const Keywords: seq<string> := ["hashtag", "Subject", "Job", "At", "Role", "Let", "Join", "or", "For"]

  /** `w` occurs at `p` in `s` up to ASCII case. */
  predicate WordAtCI(s: string, p: int, w: string) {
    0 <= p && p + |w| <= |s| && forall k :: 0 <= k < |w| ==> Lower(s[p + k]) == Lower(w[k])
  }

  predicate KeywordAt(s: string, p: int) {
    exists k :: 0 <= k < |Keywords| && WordAtCI(s, p, Keywords[k])
  }

  /** Every keyword has at least two characters. */
  lemma KeywordRoom(s: string, p: int)
    requires KeywordAt(s, p)
    ensures p + 2 <= |s|
  {
    var kw :| 0 <= kw < |Keywords| && WordAtCI(s, p, Keywords[kw]);
    assert |Keywords[kw]| >= 2;
  }

  /** The suffix regular expression, read literally, matches starting at
      position `i`. */
  ghost predicate SuffixMatchesAt(s: string, i: int) {
    && 0 <= i < |s| && s[i] == '.'
    && exists k :: 0 <= k < |Tlds| && WordAtCI(s, i + 1, Tlds[k]) && KeywordAt(s, i + 1 + |Tlds[k]|)
  }

  /** The end of the captured TLD for the first alternative of `tlds`
      with which the match at `i` succeeds. */
  function TldEnd(s: string, i: nat, tlds: seq<string>): (r: Option<nat>)
    ensures r.Some? ==> exists k :: 0 <= k < |tlds| && r.value == i + 1 + |tlds[k]| && WordAtCI(s, i + 1, tlds[k]) && KeywordAt(s, r.value)
    ensures r.None? ==> forall k :: 0 <= k < |tlds| ==> !(WordAtCI(s, i + 1, tlds[k]) && KeywordAt(s, i + 1 + |tlds[k]|))
    decreases |tlds|
  {
    if tlds == [] then None
    else if WordAtCI(s, i + 1, tlds[0]) && KeywordAt(s, i + 1 + |tlds[0]|) then Some(i + 1 + |tlds[0]|)
    else
      var r := TldEnd(s, i, tlds[1..]);
      assert forall k :: 1 <= k < |tlds| ==> tlds[k] == tlds[1..][k - 1];
      r
  }

  /** Where the kept part ends when the suffix pattern matches at `i`. */
  function SuffixAt(s: string, i: nat): (r: Option<nat>)
    ensures r.Some? <==> SuffixMatchesAt(s, i)
    ensures r.Some? ==> i + 4 <= r.value && r.value + 2 <= |s| && r.value - i - 1 in {3, 5}
  {
    if i < |s| && s[i] == '.' then
      var r := TldEnd(s, i, Tlds);
      if r.Some? then KeywordRoom(s, r.value); r else r
    else None
  }

  /** The first position in `[from, n)` where `hit` holds. */
  function FirstWhere(n: nat, from: nat, hit: nat -> bool): (r: Option<nat>)
    ensures r.Some? ==> from <= r.value < n && hit(r.value)
    ensures r.Some? ==> forall j :: from <= j < r.value ==> !hit(j)
    ensures r.None? ==> forall j :: from <= j < n ==> !hit(j)
    decreases n - from
  {
    if from >= n then None
    else if hit(from) then Some(from)
    else FirstWhere(n, from + 1, hit)
  }

  /** The leftmost position at or after `from` where the pattern matches. */
  function Leftmost(s: string, from: nat): (r: Option<nat>)
    ensures r.Some? ==> from <= r.value < |s| && SuffixAt(s, r.value).Some?
    ensures r.Some? ==> forall j :: from <= j < r.value ==> SuffixAt(s, j).None?
    ensures r.None? ==> forall j :: from <= j < |s| ==> SuffixAt(s, j).None?
  {
    var hit := (j: nat) => SuffixAt(s, j).Some?;
    assert forall j: nat :: hit(j) == SuffixAt(s, j).Some?;
    FirstWhere(|s|, from, hit)
  }

  /** Where `.*` stops: the first line terminator at or after `p`. */
  function LineEnd(s: string, p: nat): (r: nat)
    requires p <= |s|
    ensures p <= r <= |s|
    ensures forall k :: p <= k < r ==> !IsLineTerminator(s[k])
    ensures r < |s| ==> IsLineTerminator(s[r])
    decreases |s| - p
  {
    if p == |s| || IsLineTerminator(s[p]) then p else LineEnd(s, p + 1)
  }

  /** The leftmost match at `i` keeps `s` up to the end `e` of its TLD and
      removes the keyword and the rest of that line. */
  ghost predicate CutAt(s: string, i: int, e: int, r: string) {
    && 0 <= i < e <= |s| && SuffixMatchesAt(s, i)
    && (exists k :: 0 <= k < |Tlds| && e == i + 1 + |Tlds[k]| && WordAtCI(s, i + 1, Tlds[k]))
    && r == s[..e] + s[LineEnd(s, e)..]
  }

  predicate NoLineTerminator(s: string) {
    forall k :: 0 <= k < |s| ==> !IsLineTerminator(s[k])
  }

  /** `cleanDomainSuffixes`: no match leaves the string alone; otherwise
      the leftmost match is cut, which on a single line only truncates. */
  function CleanDomainSuffixes(s: string): (r: string)
    ensures |r| <= |s|
    ensures NoLineTerminator(s) ==> r == s[..|r|]
  {
    match Leftmost(s, 0)
    case None => s
    case Some(i) =>
      var e := SuffixAt(s, i).value;
      s[..e] + s[LineEnd(s, e)..]
  }

  /** Cleaning does what the replace call does: without a match the string
      is returned as is, otherwise only the leftmost match is replaced by
      "." and the captured TLD. */
  lemma CleanReplacesLeftmostMatch(s: string)
    ensures (forall i :: !SuffixMatchesAt(s, i)) ==> CleanDomainSuffixes(s) == s
    ensures forall i :: SuffixMatchesAt(s, i) && (forall j :: 0 <= j < i ==> !SuffixMatchesAt(s, j)) ==>
              exists e :: CutAt(s, i, e, CleanDomainSuffixes(s))
  {
    match Leftmost(s, 0)
    case None =>
      forall i | 0 <= i < |s| ensures !SuffixMatchesAt(s, i) {
        assert SuffixAt(s, i).None?;
      }
    case Some(i) =>
      var e := SuffixAt(s, i).value;
      assert CutAt(s, i, e, CleanDomainSuffixes(s));
      forall i' | SuffixMatchesAt(s, i') && (forall j :: 0 <= j < i' ==> !SuffixMatchesAt(s, j))
        ensures i' == i
      {
        assert SuffixAt(s, i').Some?;
        assert SuffixMatchesAt(s, i);
      }
  }

  /** A match inside a prefix is a match in the whole string. */
  lemma MatchInPrefix(t: string, s: string, j: int)
    requires |t| <= |s| && t == s[..|t|] && SuffixMatchesAt(t, j)
    ensures SuffixMatchesAt(s, j)
  {
    var k :| 0 <= k < |Tlds| && WordAtCI(t, j + 1, Tlds[k]) && KeywordAt(t, j + 1 + |Tlds[k]|);
    var kw :| 0 <= kw < |Keywords| && WordAtCI(t, j + 1 + |Tlds[k]|, Keywords[kw]);
    assert WordAtCI(s, j + 1 + |Tlds[k]|, Keywords[kw]);
  }

  /** A match needs a TLD of at least three letters and a keyword of at
      least two characters after its ".". */
  lemma MatchRoom(t: string, j: int)
    requires SuffixMatchesAt(t, j)
    ensures j + 6 <= |t|
  {
    var k :| 0 <= k < |Tlds| && WordAtCI(t, j + 1, Tlds[k]) && KeywordAt(t, j + 1 + |Tlds[k]|);
    KeywordRoom(t, j + 1 + |Tlds[k]|);
    TldLength(k);
  }

  lemma TldLength(k: int)
    requires 0 <= k < |Tlds|
    ensures 3 <= |Tlds[k]|
  {
  }

  /** The kept part of a match at `i` ends right after one of the TLDs. */
  lemma SuffixAtTld(s: string, i: nat)
    requires SuffixAt(s, i).Some?
    ensures exists k :: 0 <= k < |Tlds| && SuffixAt(s, i).value == i + 1 + |Tlds[k]| && WordAtCI(s, i + 1, Tlds[k])
  {
  }

  /** "co.in" has its "." third. */
  lemma CoInDot(s: string, p: int)
    requires WordAtCI(s, p, Tlds[1])
    ensures s[p + 2] == '.'
  {
    assert Lower(s[p + 2]) == Lower(Tlds[1][2]);
  }

  /** The three-letter TLDs have a letter third. */
  lemma ShortTldLetter(s: string, p: int, k: int)
    requires 0 <= k < |Tlds| && |Tlds[k]| == 3 && WordAtCI(s, p, Tlds[k])
    ensures s[p + 2] != '.'
  {
    assert Lower(s[p + 2]) == Lower(Tlds[k][2]);
  }

  /** What is kept of a match at `i` ends in a three-letter TLD or in
      "co.in". */
  lemma CutShape(s: string, i: nat)
    requires SuffixAt(s, i).Some?
    ensures var t := s[..SuffixAt(s, i).value];
            |t| == i + 4 || (|t| == i + 6 && WordAtCI(t, i + 1, Tlds[1]))
  {
    var e := SuffixAt(s, i).value;
    SuffixAtTld(s, i);
    var k :| 0 <= k < |Tlds| && e == i + 1 + |Tlds[k]| && WordAtCI(s, i + 1, Tlds[k]);
    if k == 1 {
      assert WordAtCI(s[..e], i + 1, Tlds[1]);
    }
  }

  /** A string cut after a TLD that starts at `i + 1` has no match at or
      after `i`: a match needs six characters from its ".", and in the only
      case that long ("co.in") the character where a three-letter TLD needs
      a letter is a ".". */
  lemma NoMatchAfterCut(t: string, i: int, j: int)
    requires 0 <= i <= j
    requires |t| == i + 4 || (|t| == i + 6 && WordAtCI(t, i + 1, Tlds[1]))
    ensures !SuffixMatchesAt(t, j)
  {
    if SuffixMatchesAt(t, j) {
      MatchRoom(t, j);
      assert j == i && |t| == i + 6;
      CoInDot(t, i + 1);
      var k :| 0 <= k < |Tlds| && WordAtCI(t, j + 1, Tlds[k]) && KeywordAt(t, j + 1 + |Tlds[k]|);
      KeywordRoom(t, j + 1 + |Tlds[k]|);
      ShortTldLetter(t, i + 1, k);
      assert false;
    }
  }

  /** On a single line, cleaning a second time changes nothing: the cut
      leaves no room for another match at or after the first one, and the
      text before it was already free of matches. */
  lemma CleanIdempotent(s: string)
    requires NoLineTerminator(s)
    ensures CleanDomainSuffixes(CleanDomainSuffixes(s)) == CleanDomainSuffixes(s)
  {
    match Leftmost(s, 0)
    case None =>
    case Some(i) =>
      var t := CleanDomainSuffixes(s);
      assert t == s[..SuffixAt(s, i).value];
      forall j | 0 <= j ensures !SuffixMatchesAt(t, j) {
        if j < i {
          assert SuffixAt(s, j).None?;
          if SuffixMatchesAt(t, j) {
            MatchInPrefix(t, s, j);
          }
        } else {
          CutShape(s, i);
          NoMatchAfterCut(t, i, j);
        }
      }
      assert Leftmost(t, 0).None?;
  }

  /** A match starts at a ".", so the search skips any other character. */
  lemma LeftmostStep(s: string, k: nat)
    requires k < |s| && s[k] != '.'
    ensures Leftmost(s, k) == Leftmost(s, k + 1)
  {
  }

  /** A "." followed by "com" and a keyword is a match that keeps the
      "com". */
  lemma ComMatch(s: string, i: nat, kw: nat)
    requires i < |s| && s[i] == '.' && WordAtCI(s, i + 1, Tlds[0])
    requires kw < |Keywords| && WordAtCI(s, i + 4, Keywords[kw])
    ensures SuffixAt(s, i) == Some(i + 4) && Leftmost(s, i) == Some(i)
  {
    assert KeywordAt(s, i + 4);
  }

  /** With the leftmost match at `i` ending its TLD at `e`, cleaning keeps
      `s` up to `e` and drops the rest of that line. */
  lemma CleanAt(s: string, i: nat, e: nat)
    requires Leftmost(s, 0) == Some(i) && SuffixAt(s, i) == Some(e)
    ensures CleanDomainSuffixes(s) == s[..e] + s[LineEnd(s, e)..]
  {
  }

  /** On a single line `.*` runs to the end. */
  lemma LineEndOfSingleLine(s: string, p: nat)
    requires p <= |s| && NoLineTerminator(s[p..])
    ensures LineEnd(s, p) == |s|
    decreases |s| - p
  {
    if p < |s| {
      assert s[p] == s[p..][0];
      assert s[p + 1..] == s[p..][1..];
      LineEndOfSingleLine(s, p + 1);
    }
  }

  /** The search passes over a stretch without ".". */
  lemma {:induction false} LeftmostSkip(s: string, from: nat, to: int)
    requires from <= to <= |s|
    requires forall j :: from <= j < to ==> s[j] != '.'
    ensures Leftmost(s, from) == Leftmost(s, to)
    decreases |s| - from
  {
    if from < to {
      LeftmostStep(s, from);
      LeftmostSkip(s, from + 1, to);
    }
  }

  /** Every keyword is made of letters. */
  lemma KeywordLetters(kw: nat)
    requires kw < |Keywords|
    ensures AllLetters(Keywords[kw])
  {
  }

  /** The case the cleaning is for: an address whose parts hold no ".",
      ending in ".com" and glued to a keyword and the rest of the line, is
      cut back to the address. */
  lemma CleanCutsKeywordSuffix(address: string, kw: nat, rest: string)
    requires forall j :: 0 <= j < |address| ==> address[j] != '.'
    requires kw < |Keywords| && NoLineTerminator(rest)
    ensures CleanDomainSuffixes(address + ".com" + Keywords[kw] + rest) == address + ".com"
  {
    var s := address + ".com" + Keywords[kw] + rest;
    var i := |address|;
    KeywordSuffixMatch(address, kw, rest);
    CleanAt(s, i, i + 4);
    KeywordSuffixRunsToEnd(address, kw, rest);
    assert s[..i + 4] == address + ".com";
  }

  /** The match is the ".com" right after the address. */
  lemma KeywordSuffixMatch(address: string, kw: nat, rest: string)
    requires forall j :: 0 <= j < |address| ==> address[j] != '.'
    requires kw < |Keywords|
    ensures var s := address + ".com" + Keywords[kw] + rest;
            Leftmost(s, 0) == Some(|address|) && SuffixAt(s, |address|) == Some(|address| + 4)
  {
    var word := Keywords[kw];
    var s := address + ".com" + word + rest;
    var i := |address|;
    assert s[..i] == address;
    assert s[i..i + 4] == ".com";
    assert s[i + 4..] == word + rest;
    assert WordAtCI(s, i + 1, Tlds[0]) by {
      forall k | 0 <= k < 3 ensures s[i + 1 + k] == Tlds[0][k] {
        assert s[i + 1 + k] == s[i..i + 4][1 + k];
      }
    }
    assert WordAtCI(s, i + 4, word) by {
      forall k | 0 <= k < |word| ensures s[i + 4 + k] == word[k] {
        assert s[i + 4 + k] == s[i + 4..][k];
      }
    }
    ComMatch(s, i, kw);
    LeftmostSkip(s, 0, i);
  }

  /** A keyword of letters and a single-line rest: `.*` runs to the end. */
  lemma KeywordSuffixRunsToEnd(address: string, kw: nat, rest: string)
    requires kw < |Keywords| && NoLineTerminator(rest)
    ensures var s := address + ".com" + Keywords[kw] + rest;
            LineEnd(s, |address| + 4) == |s|
  {
    var word := Keywords[kw];
    var s := address + ".com" + word + rest;
    var i := |address|;
    KeywordLetters(kw);
    var tail := s[i + 4..];
    assert tail == word + rest;
    assert NoLineTerminator(tail) by {
      forall k | 0 <= k < |tail| ensures !IsLineTerminator(tail[k]) {
        if k < |word| {
          assert tail[k] == word[k];
          assert IsAsciiLetter(word[k]);
        } else {
          assert tail[k] == rest[k - |word|];
        }
      }
    }
    LineEndOfSingleLine(s, i + 4);
  }

  /** Both the TLD and the keyword are matched without regard to case. */
  lemma CleanExampleUpperCase(s: string)
    requires s == "a@b.COMJOB"
    ensures CleanDomainSuffixes(s) == "a@b.COM"
  {
    UpperCaseMatch(s);
    CleanAt(s, 3, 7);
    LineEndOfSingleLine(s, 7);
  }

  lemma UpperCaseMatch(s: string)
    requires s == "a@b.COMJOB"
    ensures Leftmost(s, 0) == Some(3) && SuffixAt(s, 3) == Some(7)
  {
    assert WordAtCI(s, 4, Tlds[0]);
    assert WordAtCI(s, 7, Keywords[2]);
    ComMatch(s, 3, 2);
    assert s[0] == 'a' && s[1] == '@' && s[2] == 'b';
    LeftmostSkip(s, 0, 3);
  }

  /** The first cleaning of two junk-suffixed lines cuts only the first. */
  lemma CleanFirstLine(s: string)
    requires s == ".comor\n.comor"
    ensures CleanDomainSuffixes(s) == ".com\n.comor"
  {
    assert WordAtCI(s, 1, Tlds[0]);
    assert WordAtCI(s, 4, Keywords[7]);
    ComMatch(s, 0, 7);
    CleanAt(s, 0, 4);
    assert LineEnd(s, 6) == 6;
    assert LineEnd(s, 4) == 6;
    assert s[..4] + s[6..] == ".com\n.comor";
  }

  /** A TLD followed by a line terminator is no match. */
  lemma NoMatchBeforeBreak(t: string)
    requires t == ".com\n.comor"
    ensures SuffixAt(t, 0).None?
  {
    assert !KeywordAt(t, 4) by {
      forall kw | 0 <= kw < |Keywords| ensures !WordAtCI(t, 4, Keywords[kw]) {
        assert Lower(t[4]) != Lower(Keywords[kw][0]);
      }
    }
    assert !WordAtCI(t, 1, Tlds[1]) by {
      assert Lower(t[1 + 3]) != Lower(Tlds[1][3]);
    }
    forall k | 2 <= k < |Tlds| ensures !WordAtCI(t, 1, Tlds[k]) {
      assert Lower(t[1]) != Lower(Tlds[k][0]);
    }
  }

  /** On ".com\n.comor" the leftmost match is the second line's. */
  lemma SecondLineMatch(t: string)
    requires t == ".com\n.comor"
    ensures Leftmost(t, 0) == Some(5) && SuffixAt(t, 5) == Some(9)
  {
    assert WordAtCI(t, 6, Tlds[0]);
    assert WordAtCI(t, 9, Keywords[7]);
    ComMatch(t, 5, 7);
    assert t[1] == 'c' && t[2] == 'o' && t[3] == 'm' && t[4] == '\n';
    LeftmostSkip(t, 1, 5);
    NoMatchBeforeBreak(t);
  }

  /** The match on the second line is found once the first line is clean. */
  lemma CleanSecondLine(t: string)
    requires t == ".com\n.comor"
    ensures CleanDomainSuffixes(t) == ".com\n.com"
  {
    SecondLineMatch(t);
    CleanAt(t, 5, 9);
    assert LineEnd(t, 10) == 11;
    assert LineEnd(t, 9) == 11;
    assert t[..9] == ".com\n.com";
  }

  /** `.*` stops at a line terminator, so the second line keeps its junk
      until a second cleaning: idempotence needs a single line. */
  lemma CleanNotIdempotentAcrossLines()
    ensures var once := CleanDomainSuffixes(".comor\n.comor");
            CleanDomainSuffixes(once) != once
  {
    CleanFirstLine(".comor\n.comor");
    CleanSecondLine(".com\n.comor");
    assert ".com\n.com" != ".com\n.comor";
  }

  // ---------------------------------------------------------------------
  // validateAndCleanEmail and processEmails
  // ---------------------------------------------------------------------

  /** `validateAndCleanEmail`: the cleaned string when it is valid, else null. */
  function ValidateAndCleanEmail(s: string): (r: Option<string>)
  {
    var cleaned := CleanDomainSuffixes(s);
    if IsValidEmail(cleaned) then Some(cleaned) else None
  }

  /** A non-null result is the cleaned string and is valid; null means the
      cleaned string is invalid. In terms of the address pattern: the
      result is non-null exactly when the cleaned string splits as
      local-part "@" domain "." top-level domain. */
  lemma ValidateAndCleanEmailSpec(s: string)
    ensures var r := ValidateAndCleanEmail(s);
            && (r.Some? ==> IsValidEmail(r.value) && r.value == CleanDomainSuffixes(s))
            && (r.None? ==> !IsValidEmail(CleanDomainSuffixes(s)))
            && (r.Some? <==> MatchesEmailPattern(CleanDomainSuffixes(s)))
  {
    ValidEmailIffPattern(CleanDomainSuffixes(s));
  }

  /** The verdict the `.map` of `processEmails` builds for one input. */
  function Validate(s: string): ValidatedEmail {
    ValidatedEmail(s, ValidateAndCleanEmail(s), IsValidEmail(s))
  }

  /** The `.map` of `processEmails`: one verdict per input, in order. */
  function Verdicts(emails: seq<string>): (r: seq<ValidatedEmail>)
    ensures |r| == |emails| && forall k :: 0 <= k < |r| ==> r[k].original == emails[k]
  {
    Map(emails, Validate)
  }

  /** `result.cleaned !== null`. */
  predicate HasCleaned(v: ValidatedEmail) {
    v.cleaned.Some?
  }

  /** `processEmails`: map every input to its verdict, then drop those
      whose cleaned value is null. */
  function ProcessEmails(emails: seq<string>): (r: seq<ValidatedEmail>)
    ensures |r| <= |emails|
    ensures forall k :: 0 <= k < |r| ==> r[k].cleaned.Some?
  {
    Filter(Verdicts(emails), HasCleaned)
  }

  /** Every entry of `processEmails` is the verdict on one of the inputs,
      and its cleaned value is present. */
  lemma ProcessEmailsEntries(emails: seq<string>)
    ensures forall k :: 0 <= k < |ProcessEmails(emails)| ==>
              ProcessEmails(emails)[k].cleaned.Some? &&
              exists j :: 0 <= j < |emails| && ProcessEmails(emails)[k] == Validate(emails[j])
  {
    var vs := Verdicts(emails);
    var r := ProcessEmails(emails);
    FilterMembers(vs, HasCleaned);
    forall k | 0 <= k < |r| ensures exists j :: 0 <= j < |emails| && r[k] == Validate(emails[j]) {
      assert r[k] in vs;
      var j :| 0 <= j < |vs| && vs[j] == r[k];
      assert vs[j] == Validate(emails[j]);
    }
  }

  function Originals(vs: seq<ValidatedEmail>): (r: seq<string>)
    ensures |r| == |vs| && forall k :: 0 <= k < |vs| ==> r[k] == vs[k].original
  {
    seq(|vs|, k requires 0 <= k < |vs| => vs[k].original)
  }

  /** Taking the originals keeps a subsequence a subsequence. */
  lemma {:induction false} OriginalsKeepOrder(a: seq<ValidatedEmail>, b: seq<ValidatedEmail>)
    requires IsSubsequence(a, b)
    ensures IsSubsequence(Originals(a), Originals(b))
    decreases |b|
  {
    if a != [] {
      var a0 := a[..|a| - 1];
      var b0 := b[..|b| - 1];
      var x := b[|b| - 1].original;
      assert Originals(b) == Originals(b0) + [x];
      if a[|a| - 1] == b[|b| - 1] {
        OriginalsKeepOrder(a0, b0);
        assert Originals(a) == Originals(a0) + [x];
        SubsequenceSnoc(Originals(a0), Originals(b0), x);
      } else {
        OriginalsKeepOrder(a, b0);
        SubsequenceExtend(Originals(a), Originals(b0), x);
      }
    }
  }

  /** `processEmails` keeps its input order. */
  lemma ProcessEmailsKeepsOrder(emails: seq<string>)
    ensures IsSubsequence(Originals(ProcessEmails(emails)), emails)
  {
    var vs := Verdicts(emails);
    FilterMembers(vs, HasCleaned);
    OriginalsKeepOrder(ProcessEmails(emails), vs);
    assert Originals(vs) == emails;
  }

  /** `processEmails` keeps every input whose cleaned value is non-null. */
  lemma ProcessEmailsKeepsAccepted(emails: seq<string>, j: nat)
    requires j < |emails| && ValidateAndCleanEmail(emails[j]).Some?
    ensures emails[j] in Originals(ProcessEmails(emails))
  {
    var vs := Verdicts(emails);
    var r := ProcessEmails(emails);
    FilterMembers(vs, HasCleaned);
    assert vs[j] == Validate(emails[j]) && HasCleaned(vs[j]);
    assert vs[j] in r;
    var k :| 0 <= k < |r| && r[k] == vs[j];
    assert Originals(r)[k] == emails[j];
  }

  /** "a@b.comAt!": the pattern matches first at the "." before "com". */
  lemma CleanExample(s: string)
    requires s == "a@b.comAt!"
    ensures CleanDomainSuffixes(s) == "a@b.com"
  {
    ExampleMatch(s);
    CleanAt(s, 3, 7);
    LineEndOfSingleLine(s, 7);
  }

  lemma ExampleMatch(s: string)
    requires s == "a@b.comAt!"
    ensures Leftmost(s, 0) == Some(3) && SuffixAt(s, 3) == Some(7)
  {
    assert WordAtCI(s, 4, Tlds[0]);
    assert WordAtCI(s, 7, Keywords[3]);
    ComMatch(s, 3, 3);
    assert s[0] == 'a' && s[1] == '@' && s[2] == 'b';
    LeftmostSkip(s, 0, 3);
  }

  lemma ValidExample(c: string)
    requires c == "a@b.com"
    ensures IsValidEmail(c)
  {
    AtOccurrence(c, 0);
    AtOccurrence(c, 1);
    assert IndexOf(c, "@") == Some(1);
    var d := c[2..];
    assert d[1] == '.' && d[2] != '.' && d[3] != '.' && d[4] != '.' && d[0] != '.';
    assert LastIndexOfChar(d, '.') == Some(1);
  }

  lemma InvalidExample(s: string)
    requires s == "a@b.comAt!"
    ensures !IsValidEmail(s)
  {
    AtOccurrence(s, 0);
    AtOccurrence(s, 1);
    assert IndexOf(s, "@") == Some(1);
    assert !IsDomainChar(s[2..][7]);
  }

  /** `isValid` judges the original string: an entry can be kept (its
      cleaned form is valid) while the original is not. */
  lemma KeptButOriginalInvalid(e: string)
    requires e == "a@b.comAt!"
    ensures var v := Validate(e); v.cleaned == Some("a@b.com") && !v.isValid
  {
    CleanExample(e);
    var c := "a@b.com";
    ValidExample(c);
    InvalidExample(e);
  }

  /** `.map((result) => result.cleaned).filter((email) => email !== null)`. */
  function CleanedValues(vs: seq<ValidatedEmail>): (r: seq<string>)
    ensures |r| <= |vs|
    decreases |vs|
  {
    if vs == [] then []
    else
      var n := |vs| - 1;
      CleanedValues(vs[..n]) + (match vs[n].cleaned case Some(c) => [c] case None => [])
  }

  /** Some verdict of `vs` has the cleaned value `x`. */
  predicate CleansTo(vs: seq<ValidatedEmail>, x: string) {
    exists k :: 0 <= k < |vs| && vs[k].cleaned == Some(x)
  }

  /** A value is listed exactly when some verdict has it as cleaned value. */
  lemma {:induction false} CleanedValuesMembers(vs: seq<ValidatedEmail>)
    ensures forall x :: x in CleanedValues(vs) <==> CleansTo(vs, x)
    decreases |vs|
  {
    if vs != [] {
      var n := |vs| - 1;
      var front := vs[..n];
      CleanedValuesMembers(front);
      forall x ensures x in CleanedValues(vs) <==> CleansTo(vs, x) {
        if CleansTo(front, x) {
          var k :| 0 <= k < |front| && front[k].cleaned == Some(x);
          assert vs[k] == front[k];
        }
        if CleansTo(vs, x) {
          var k :| 0 <= k < |vs| && vs[k].cleaned == Some(x);
          if k < n {
            assert front[k] == vs[k];
          }
        }
      }
    }
  }

  /** The cleaned values of `processEmails`, the list every caller uses. */
  function CleanedEmails(emails: seq<string>): (r: seq<string>)
    ensures |r| <= |emails|
  {
    CleanedValues(ProcessEmails(emails))
  }

  /** Adding one input adds its cleaned value, if any, at the end. */
  lemma CleanedEmailsSnoc(emails: seq<string>, e: string)
    ensures CleanedEmails(emails + [e]) ==
            CleanedEmails(emails) + (match ValidateAndCleanEmail(e) case Some(c) => [c] case None => [])
  {
    var es := emails + [e];
    var vs := Verdicts(es);
    var v := Validate(e);
    assert vs[..|emails|] == Verdicts(emails);
    assert vs[|emails|] == v;
    var pre := ProcessEmails(emails);
    if HasCleaned(v) {
      assert ProcessEmails(es) == pre + [v];
      assert (pre + [v])[..|pre|] == pre;
    } else {
      assert ProcessEmails(es) == pre;
    }
  }

  /** Every input with a non-null cleaned value contributes it. */
  lemma CleanedEmailsComplete(emails: seq<string>, j: nat)
    requires j < |emails| && ValidateAndCleanEmail(emails[j]).Some?
    ensures ValidateAndCleanEmail(emails[j]).value in CleanedEmails(emails)
  {
    var vs := Verdicts(emails);
    var r := ProcessEmails(emails);
    FilterMembers(vs, HasCleaned);
    CleanedValuesMembers(r);
    assert vs[j] == Validate(emails[j]) && HasCleaned(vs[j]);
    assert vs[j] in r;
    var k :| 0 <= k < |r| && r[k] == vs[j];
    assert CleansTo(r, ValidateAndCleanEmail(emails[j]).value);
  }

  /** Every value in the list is the non-null cleaned value of some input,
      hence a valid address. */
  lemma CleanedEmailsSound(emails: seq<string>)
    ensures forall x :: x in CleanedEmails(emails) ==>
              IsValidEmail(x) && exists j :: 0 <= j < |emails| && ValidateAndCleanEmail(emails[j]) == Some(x)
  {
    forall x | x in CleanedEmails(emails)
      ensures IsValidEmail(x) && exists j :: 0 <= j < |emails| && ValidateAndCleanEmail(emails[j]) == Some(x)
    {
      var j := CleanedEmailSource(emails, x);
      ValidateAndCleanEmailSpec(emails[j]);
    }
  }

  /** The input a listed value comes from. */
  lemma CleanedEmailSource(emails: seq<string>, x: string) returns (j: nat)
    requires x in CleanedEmails(emails)
    ensures j < |emails| && Validate(emails[j]).cleaned == Some(x)
  {
    var vs := Verdicts(emails);
    var r := ProcessEmails(emails);
    FilterMembers(vs, HasCleaned);
    CleanedValuesMembers(r);
    assert CleansTo(r, x);
    var k :| 0 <= k < |r| && r[k].cleaned == Some(x);
    assert r[k] in vs;
    j :| 0 <= j < |vs| && vs[j] == r[k];
  }
}
