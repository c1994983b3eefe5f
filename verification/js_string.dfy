/** The ECMAScript string built-ins the core relies on (`trim`, `includes`,
    `startsWith`, `endsWith`, `replace` with a string pattern, `split`,
    `join`, the `\s` class and `/i` case folding), over `seq<char>`. */
module JsString {
  import opened Wrappers

  /** The characters `\s` matches and `trim` strips: ECMAScript WhiteSpace
      (tab, vertical tab, form feed, space, no-break space, byte order mark,
      category Zs) and LineTerminator. */
  predicate IsWhitespace(c: char) {
    || c == '\t' || c == '\n' || c == '\U{B}' || c == '\U{C}' || c == '\r'
    || c == ' ' || c == '\U{A0}' || c == '\U{1680}'
    || ('\U{2000}' <= c <= '\U{200A}')
    || c == '\U{2028}' || c == '\U{2029}' || c == '\U{202F}' || c == '\U{205F}'
    || c == '\U{3000}' || c == '\U{FEFF}'
  }

  /** The characters a regular-expression `.` does not match. */
  predicate IsLineTerminator(c: char) {
    c == '\n' || c == '\r' || c == '\U{2028}' || c == '\U{2029}'
  }

  /** Case folding of a non-unicode `/i` regular expression: only ASCII
      letters have a case partner among the characters the patterns use. */
  function Lower(c: char): (r: char)
    ensures 'A' <= c <= 'Z' ==> 'a' <= r <= 'z'
    ensures !('A' <= c <= 'Z') ==> r == c
  {
    if 'A' <= c <= 'Z' then (c as int + 32) as char else c
  }

  predicate IsAsciiDigit(c: char) { '0' <= c <= '9' }

  predicate IsAsciiLetter(c: char) { 'a' <= c <= 'z' || 'A' <= c <= 'Z' }

  predicate NoWhitespace(s: string) {
    forall k :: 0 <= k < |s| ==> !IsWhitespace(s[k])
  }

  /** Leading-whitespace removal. */
  function TrimStart(s: string): (r: string)
    ensures |r| <= |s|
    decreases |s|
  {
    if s != [] && IsWhitespace(s[0]) then TrimStart(s[1..]) else s
  }

  /** The result is a suffix of `s` that starts with a non-whitespace
      character, every removed character being whitespace. */
  lemma {:induction false} TrimStartSpec(s: string)
    ensures var r := TrimStart(s);
            && r == s[|s| - |r|..]
            && (r != [] ==> !IsWhitespace(r[0]))
            && forall k :: 0 <= k < |s| - |r| ==> IsWhitespace(s[k])
    decreases |s|
  {
    if s != [] && IsWhitespace(s[0]) {
      TrimStartSpec(s[1..]);
    }
  }

  /** Trailing-whitespace removal. */
  function TrimEnd(s: string): (r: string)
    ensures |r| <= |s|
    decreases |s|
  {
    if s != [] && IsWhitespace(s[|s| - 1]) then TrimEnd(s[..|s| - 1]) else s
  }

  /** The result is a prefix of `s` that ends with a non-whitespace
      character, every removed character being whitespace. */
  lemma {:induction false} TrimEndSpec(s: string)
    ensures var r := TrimEnd(s);
            && r == s[..|r|]
            && (r != [] ==> !IsWhitespace(r[|r| - 1]))
            && forall k :: |r| <= k < |s| ==> IsWhitespace(s[k])
    decreases |s|
  {
    if s != [] && IsWhitespace(s[|s| - 1]) {
      TrimEndSpec(s[..|s| - 1]);
    }
  }

  /** `r` sits in `s` at `a`, and everything around it is whitespace. */
  predicate TrimmedAt(r: string, s: string, a: int) {
    && 0 <= a && a + |r| <= |s| && s[a..a + |r|] == r
    && (forall k :: 0 <= k < a ==> IsWhitespace(s[k]))
    && (forall k :: a + |r| <= k < |s| ==> IsWhitespace(s[k]))
  }

  /** `String.prototype.trim`. */
  function Trim(s: string): (r: string)
    ensures |r| <= |s|
  {
    TrimEnd(TrimStart(s))
  }

  /** The trimmed string has no whitespace at either end and sits in `s`
      after the leading whitespace, with only whitespace around it. */
  lemma TrimSpec(s: string)
    ensures var r := Trim(s);
            && (r != [] ==> !IsWhitespace(r[0]) && !IsWhitespace(r[|r| - 1]))
            && TrimmedAt(r, s, |s| - |TrimStart(s)|)
  {
    var t := TrimStart(s);
    var r := TrimEnd(t);
    var a := |s| - |t|;
    TrimStartSpec(s);
    TrimEndSpec(t);
    assert s[a..a + |r|] == r by {
      assert t == s[a..];
      assert r == t[..|r|];
    }
    forall k | a + |r| <= k < |s| ensures IsWhitespace(s[k]) {
      assert s[k] == t[k - a];
    }
    assert TrimmedAt(r, s, a);
  }

  /** A string without whitespace at either end is its own trim. */
  lemma {:induction false} TrimOfTrimmed(s: string)
    requires s == [] || (!IsWhitespace(s[0]) && !IsWhitespace(s[|s| - 1]))
    ensures Trim(s) == s
  {
    assert TrimStart(s) == s;
    assert TrimEnd(s) == s;
  }

  predicate OccursAt(s: string, i: int, w: string) {
    0 <= i && i + |w| <= |s| && s[i..i + |w|] == w
  }

  /** The first occurrence of `w` in `s` at or after `from`. */
  function IndexOfFrom(s: string, w: string, from: nat): (r: Option<nat>)
    ensures r.Some? ==> from <= r.value && OccursAt(s, r.value, w)
    ensures r.Some? ==> forall j :: from <= j < r.value ==> !OccursAt(s, j, w)
    ensures r.None? ==> forall j :: from <= j ==> !OccursAt(s, j, w)
    decreases |s| - from
  {
    if from + |w| > |s| then None
    else if s[from..from + |w|] == w then Some(from)
    else IndexOfFrom(s, w, from + 1)
  }

  /** `s.indexOf(w)`, with `None` for -1. */
  function IndexOf(s: string, w: string): (r: Option<nat>)
    ensures r.Some? ==> OccursAt(s, r.value, w) && forall j :: 0 <= j < r.value ==> !OccursAt(s, j, w)
    ensures r.None? ==> forall j :: !OccursAt(s, j, w)
  {
    IndexOfFrom(s, w, 0)
  }

  /** The last position of character `c` in `s`. */
  function LastIndexOfChar(s: string, c: char): (r: Option<nat>)
    ensures r.Some? ==> r.value < |s| && s[r.value] == c && forall j :: r.value < j < |s| ==> s[j] != c
    ensures r.None? ==> forall j :: 0 <= j < |s| ==> s[j] != c
    decreases |s|
  {
    if s == [] then None
    else if s[|s| - 1] == c then Some(|s| - 1)
    else LastIndexOfChar(s[..|s| - 1], c)
  }

  /** `s.includes(w)`. */
  predicate Includes(s: string, w: string) {
    IndexOf(s, w).Some?
  }

  lemma IncludesIff(s: string, w: string)
    ensures Includes(s, w) <==> exists i :: OccursAt(s, i, w)
  {
  }

  predicate StartsWith(s: string, w: string) {
    |w| <= |s| && s[..|w|] == w
  }

  predicate EndsWith(s: string, w: string) {
    |w| <= |s| && s[|s| - |w|..] == w
  }

  /** `s.replace(w, rep)` with a string pattern: only the first occurrence
      of `w` is replaced. */
  function ReplaceFirst(s: string, w: string, rep: string): (r: string)
    ensures IndexOf(s, w).None? ==> r == s
    ensures IndexOf(s, w).Some? ==>
              var i := IndexOf(s, w).value;
              r == s[..i] + rep + s[i + |w|..]
  {
    match IndexOf(s, w)
    case None => s
    case Some(i) => s[..i] + rep + s[i + |w|..]
  }

  /** `xs.join(sep)`. */
  function Join(xs: seq<string>, sep: string): string
    decreases |xs|
  {
    if xs == [] then []
    else if |xs| == 1 then xs[0]
    else xs[0] + sep + Join(xs[1..], sep)
  }

  /** `s.split(sep)` for a non-empty separator: the pieces between
      successive non-overlapping occurrences, so never an empty array. */
  function Split(s: string, sep: string): (parts: seq<string>)
    requires sep != []
    ensures |parts| >= 1
    decreases |s|
  {
    match IndexOf(s, sep)
    case None => [s]
    case Some(i) => [s[..i]] + Split(s[i + |sep|..], sep)
  }

  /** Splitting a joined list at its separator gives the list back, provided
      the list is non-empty and no piece contains the separator's first
      character. The empty list is the exception: it joins to "" and ""
      splits to [""]. */
  lemma {:induction false} SplitJoin(xs: seq<string>, sep: string)
    requires sep != [] && xs != []
    requires forall k, j :: 0 <= k < |xs| && 0 <= j < |xs[k]| ==> xs[k][j] != sep[0]
    ensures Split(Join(xs, sep), sep) == xs
    decreases |xs|
  {
    var s := Join(xs, sep);
    if |xs| == 1 {
      assert s == xs[0];
      forall j | 0 <= j < |s| ensures !OccursAt(s, j, sep) {
        assert s[j] == xs[0][j] != sep[0];
        if j + |sep| <= |s| {
          assert s[j..j + |sep|][0] == s[j];
        }
      }
      assert IndexOf(s, sep).None?;
    } else {
      var tail := Join(xs[1..], sep);
      assert s == xs[0] + sep + tail;
      var n := |xs[0]|;
      assert OccursAt(s, n, sep) by {
        assert s[n..n + |sep|] == sep;
      }
      forall j | 0 <= j < n ensures !OccursAt(s, j, sep) {
        assert s[j] == xs[0][j] != sep[0];
        if j + |sep| <= |s| {
          assert s[j..j + |sep|][0] == s[j];
        }
      }
      assert IndexOf(s, sep) == Some(n);
      assert s[n + |sep|..] == tail;
      assert s[..n] == xs[0];
      SplitJoin(xs[1..], sep);
      assert Split(s, sep) == [xs[0]] + Split(tail, sep);
      assert xs == [xs[0]] + xs[1..];
    }
  }

  /** `Split(s, "@")[0]`: everything before the first "@". */
  lemma SplitHeadIsPrefix(s: string, sep: string)
    requires sep != []
    ensures Split(s, sep)[0] == (match IndexOf(s, sep) case None => s case Some(i) => s[..i])
  {
  }
}
