/**
 * The JavaScript string operations the README extractors of script.js are
 * built from: indexOf/includes, startsWith, trim, toLowerCase, split("\n"),
 * join and slice, over strings modelled as sequences of characters.
 */
module Text {

  datatype Option<+T> = None | Some(value: T)

  /** JavaScript's WhiteSpace and LineTerminator code points: what `trim` removes and `\s` matches. */
  predicate IsWhiteSpace(c: char) {
    || c == '\t' || c == '\n' || c == '\U{B}' || c == '\U{C}' || c == '\r' || c == ' '
    || c == '\U{A0}' || c == '\U{1680}' || ('\U{2000}' <= c <= '\U{200A}')
    || c == '\U{2028}' || c == '\U{2029}' || c == '\U{202F}' || c == '\U{205F}'
    || c == '\U{3000}' || c == '\U{FEFF}'
  }

  /** The characters a regular-expression `.` does not match. */
  predicate IsLineTerminator(c: char) {
    c == '\n' || c == '\r' || c == '\U{2028}' || c == '\U{2029}'
  }

  predicate NoLineTerminator(t: string) {
    forall k :: 0 <= k < |t| ==> !IsLineTerminator(t[k])
  }

  predicate AllWhiteSpace(t: string) {
    forall k :: 0 <= k < |t| ==> IsWhiteSpace(t[k])
  }

  /** p occurs in s at position i. */
  predicate PrefixAt(s: string, i: nat, p: string) {
    i + |p| <= |s| && s[i..i + |p|] == p
  }

  predicate StartsWith(s: string, p: string) {
    PrefixAt(s, 0, p)
  }

  ghost predicate Contains(s: string, p: string) {
    exists k: nat :: PrefixAt(s, k, p)
  }

  /** The first position at or after k where p occurs, or -1. */
  function IndexFrom(s: string, p: string, k: nat): (r: int)
    ensures r == -1 || (k <= r && PrefixAt(s, r, p))
    ensures forall j: nat :: k <= j && (r == -1 || j < r) ==> !PrefixAt(s, j, p)
    decreases |s| - k
  {
    if k + |p| > |s| then -1
    else if s[k..k + |p|] == p then k
    else IndexFrom(s, p, k + 1)
  }

  /** `s.indexOf(p)`: the first position where p occurs in s, or -1 when it does not occur. */
  function IndexOf(s: string, p: string): (r: int)
    ensures r == -1 <==> !Contains(s, p)
    ensures r >= 0 ==> PrefixAt(s, r, p) && forall j: nat :: j < r ==> !PrefixAt(s, j, p)
  {
    IndexFrom(s, p, 0)
  }

  /** `s.includes(p)`: true exactly when p occurs in s. */
  function Includes(s: string, p: string): (r: bool)
    ensures r <==> Contains(s, p)
  {
    IndexOf(s, p) >= 0
  }

  /** An occurrence inside a prefix of s is an occurrence in s. */
  lemma PrefixAtWithin(s: string, t: string, k: nat, p: string)
    requires StartsWith(s, t) && PrefixAt(t, k, p)
    ensures PrefixAt(s, k, p)
  {
    assert s[k..k + |p|] == t[k..k + |p|];
  }

  /** Two adjacent slices of s make up the slice that spans both. */
  lemma Extend(s: string, a: nat, b: nat, c: nat, p: string, q: string)
    requires a <= b <= c <= |s| && s[a..b] == p && s[b..c] == q
    ensures s[a..c] == p + q
  {
    assert s[a..c] == s[a..b] + s[b..c];
  }

  /** An occurrence of a + b is an occurrence of a followed by one of b. */
  lemma PrefixSplit(s: string, k: nat, a: string, b: string)
    requires PrefixAt(s, k, a + b)
    ensures PrefixAt(s, k, a) && PrefixAt(s, k + |a|, b)
  {
    assert s[k..k + |a|] == (a + b)[..|a|];
    assert s[k + |a|..k + |a| + |b|] == (a + b)[|a|..];
  }

  /** An occurrence of u is an occurrence of every prefix of u. */
  lemma PrefixOfPrefix(s: string, k: nat, u: string, p: string)
    requires PrefixAt(s, k, u) && StartsWith(u, p)
    ensures PrefixAt(s, k, p)
  {
    assert s[k..k + |p|] == u[..|p|];
  }

  lemma IncludesAt(s: string, k: nat, p: string)
    requires PrefixAt(s, k, p)
    ensures Includes(s, p)
  {
  }

  /** Where the white space that starts at i ends. */
  function TrimStartIndex(s: string, i: nat): (a: nat)
    requires i <= |s|
    ensures i <= a <= |s|
    decreases |s| - i
  {
    if i < |s| && IsWhiteSpace(s[i]) then TrimStartIndex(s, i + 1) else i
  }

  /** The end of s[a..b] once its trailing white space is removed. */
  function TrimEndIndex(s: string, a: nat, b: nat): (e: nat)
    requires a <= b <= |s|
    ensures a <= e <= b
    decreases b
  {
    if b > a && IsWhiteSpace(s[b - 1]) then TrimEndIndex(s, a, b - 1) else b
  }

  /** `s.trim()`: s without its leading and trailing white space. */
  function Trim(s: string): (r: string)
    ensures |r| <= |s|
  {
    var a := TrimStartIndex(s, 0);
    s[a..TrimEndIndex(s, a, |s|)]
  }

  lemma {:induction false} TrimStartIndexSkips(s: string, i: nat)
    requires i <= |s|
    ensures forall k :: i <= k < TrimStartIndex(s, i) ==> IsWhiteSpace(s[k])
    ensures TrimStartIndex(s, i) < |s| ==> !IsWhiteSpace(s[TrimStartIndex(s, i)])
    decreases |s| - i
  {
    if i < |s| && IsWhiteSpace(s[i]) {
      TrimStartIndexSkips(s, i + 1);
    }
  }

  lemma {:induction false} TrimEndIndexSkips(s: string, a: nat, b: nat)
    requires a <= b <= |s|
    ensures forall k :: TrimEndIndex(s, a, b) <= k < b ==> IsWhiteSpace(s[k])
    ensures TrimEndIndex(s, a, b) > a ==> !IsWhiteSpace(s[TrimEndIndex(s, a, b) - 1])
    decreases b
  {
    if b > a && IsWhiteSpace(s[b - 1]) {
      TrimEndIndexSkips(s, a, b - 1);
    }
  }

  /** Trimming leaves nothing exactly when s is all white space, and otherwise
      leaves a text that starts and ends with something else. */
  lemma TrimSpec(s: string)
    ensures Trim(s) == [] <==> AllWhiteSpace(s)
    ensures Trim(s) != [] ==> !IsWhiteSpace(Trim(s)[0]) && !IsWhiteSpace(Trim(s)[|Trim(s)| - 1])
  {
    var a := TrimStartIndex(s, 0);
    TrimStartIndexSkips(s, 0);
    TrimEndIndexSkips(s, a, |s|);
  }

  /** Trimming a line that starts with a non-blank character keeps every
      occurrence of a word that ends with a non-blank character. */
  lemma TrimKeepsWord(s: string, i: nat, p: string)
    requires |s| > 0 && !IsWhiteSpace(s[0])
    requires |p| > 0 && !IsWhiteSpace(p[|p| - 1])
    requires PrefixAt(s, i, p)
    ensures PrefixAt(Trim(s), i, p)
  {
    var a := TrimStartIndex(s, 0);
    assert a == 0;
    var e := TrimEndIndex(s, 0, |s|);
    TrimEndIndexSkips(s, 0, |s|);
    assert s[i + |p| - 1] == p[|p| - 1];
    assert i + |p| <= e;
    assert Trim(s)[i..i + |p|] == s[i..i + |p|];
  }

  /** `trim` removes white space only: what it keeps is a stretch of s with
      nothing but white space before and after it. */
  lemma TrimRemovesOnlyBlanks(s: string)
    ensures exists a, b :: && 0 <= a <= b <= |s| && Trim(s) == s[a..b]
                           && AllWhiteSpace(s[..a]) && AllWhiteSpace(s[b..])
  {
    var a := TrimStartIndex(s, 0);
    var b := TrimEndIndex(s, a, |s|);
    TrimStartIndexSkips(s, 0);
    TrimEndIndexSkips(s, a, |s|);
    forall k | 0 <= k < a ensures IsWhiteSpace(s[..a][k]) {
      assert s[..a][k] == s[k];
    }
    forall k | 0 <= k < |s| - b ensures IsWhiteSpace(s[b..][k]) {
      assert s[b..][k] == s[b + k];
    }
    assert Trim(s) == s[a..b] && AllWhiteSpace(s[..a]) && AllWhiteSpace(s[b..]);
  }

  /** An occurrence of a word that starts and ends with a non-blank survives `trim`. */
  lemma TrimKeepsOccurrence(s: string, i: nat, p: string) returns (j: nat)
    requires PrefixAt(s, i, p) && |p| > 0 && !IsWhiteSpace(p[0]) && !IsWhiteSpace(p[|p| - 1])
    ensures PrefixAt(Trim(s), j, p)
  {
    var a := TrimStartIndex(s, 0);
    var e := TrimEndIndex(s, a, |s|);
    TrimStartIndexSkips(s, 0);
    TrimEndIndexSkips(s, a, |s|);
    assert s[i] == p[0] && s[i + |p| - 1] == p[|p| - 1];
    assert a <= i;
    assert i + |p| <= e;
    j := i - a;
    assert Trim(s)[j..j + |p|] == s[i..i + |p|];
  }

  /** ASCII case folding: the part of `toLowerCase` the extractors rely on. */
  function LowerChar(c: char): char {
    if 'A' <= c <= 'Z' then (c as int - 'A' as int + 'a' as int) as char else c
  }

  /** `s.toLowerCase()`, restricted to ASCII letters: no capital letter is left,
      each one becomes its small letter, and every other character is kept. */
  function ToLower(s: string): (r: string)
    ensures |r| == |s|
    ensures forall k :: 0 <= k < |r| ==> !('A' <= r[k] <= 'Z')
    ensures forall k :: 0 <= k < |s| && 'A' <= s[k] <= 'Z' ==> r[k] as int == s[k] as int + 32
    ensures forall k :: 0 <= k < |s| && !('A' <= s[k] <= 'Z') ==> r[k] == s[k]
  {
    seq(|s|, k requires 0 <= k < |s| => LowerChar(s[k]))
  }

  lemma ToLowerKeepsWord(s: string, i: nat, p: string)
    requires PrefixAt(s, i, p)
    ensures PrefixAt(ToLower(s), i, ToLower(p))
  {
    assert ToLower(s)[i..i + |p|] == ToLower(p);
  }

  /** `parts.join(sep)`. */
  function Join(sep: string, parts: seq<string>): string
  {
    if |parts| == 0 then ""
    else if |parts| == 1 then parts[0]
    else parts[0] + sep + Join(sep, parts[1..])
  }

  /** Joining one more part adds the separator and that part at the end. */
  lemma {:induction false} JoinAppend(sep: string, parts: seq<string>, p: string)
    requires |parts| >= 1
    ensures Join(sep, parts + [p]) == Join(sep, parts) + sep + p
    decreases |parts|
  {
    if |parts| == 1 {
      assert (parts + [p])[1..] == [p];
    } else {
      assert (parts + [p])[1..] == parts[1..] + [p];
      JoinAppend(sep, parts[1..], p);
    }
  }

  /** `s.split("\n")`: the lines of s, which joined back with "\n" give s. */
  function Lines(s: string): (r: seq<string>)
    ensures |r| >= 1
    ensures forall k :: 0 <= k < |r| ==> '\n' !in r[k]
    ensures Join("\n", r) == s
    decreases |s|
  {
    var i := IndexOf(s, "\n");
    if i == -1 then
      NoBreakBefore(s, |s|);
      assert s[..|s|] == s;
      [s]
    else
      NoBreakBefore(s, i);
      assert s == s[..i] + "\n" + s[i + 1..];
      [s[..i]] + Lines(s[i + 1..])
  }

  lemma NoBreakBefore(s: string, i: nat)
    requires i <= |s|
    requires forall j: nat :: j < i ==> !PrefixAt(s, j, "\n")
    ensures '\n' !in s[..i]
  {
    forall j | 0 <= j < i ensures s[j] != '\n' {
      assert !PrefixAt(s, j, "\n");
    }
  }

  /** A text that starts with a word free of line breaks has that word at the start of its first line. */
  lemma FirstLineStartsWith(s: string, p: string)
    requires StartsWith(s, p) && '\n' !in p
    ensures StartsWith(Lines(s)[0], p)
  {
    var i := IndexOf(s, "\n");
    if i != -1 {
      assert forall j :: 0 <= j < |p| ==> s[j] == p[j];
      assert s[i] == '\n';
      assert i >= |p|;
      assert s[..i][..|p|] == p;
    }
  }

  /** `s.slice(from, from + n)` for a start inside s: at most n characters of s from `from` on. */
  function Window(s: string, from: nat, n: nat): (r: string)
    requires from <= |s|
    ensures |r| <= n
    ensures from + |r| <= |s| && r == s[from..from + |r|]
    ensures |r| == n || from + |r| == |s|
  {
    if from + n <= |s| then s[from..from + n] else s[from..]
  }

  /** `xs.slice(0, n)`: the first n elements, or all of them when there are fewer. */
  function Take<T>(xs: seq<T>, n: nat): (r: seq<T>)
    ensures |r| == if |xs| < n then |xs| else n
    ensures r == xs[..|r|]
  {
    if |xs| <= n then xs else xs[..n]
  }
}
