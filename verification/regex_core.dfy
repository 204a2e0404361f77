/**
 * Pieces shared by the hand-written matchers of the extractors' regular
 * expressions: the result of one `exec`, the character classes that are
 * repeated greedily, and the `https?:\/\/` scheme.
 *
 * Every greedy repetition in these expressions is followed by a character
 * outside its class (`[^\s)]+` by `)`, `\s*` by `<` or `[`, `[^\)]+` by `)`,
 * `[A-Za-z0-9_-]{6,}` by a lazy `.*?` that cannot find `**` inside the run).
 * Giving back characters of such a run never lets the rest of the expression
 * succeed where the longest run failed, so JavaScript's backtracking reduces
 * to: take the longest run, then continue. Lazy `.*?` groups are searched
 * from the shortest length up, as JavaScript does.
 */
module RegexCore {
  import opened Text

  /** A successful `exec`: where the match starts and ends, and its capture groups in order. */
  datatype Match = Match(start: nat, end: nat, groups: seq<string>)

  /** The character classes the extractors' expressions repeat. */
  datatype CharClass =
    | Dot            // ., any character but a line terminator
    | Space          // \s
    | UrlChar        // [^\s)], also written [^)\s]
    | NotCloseParen  // [^\)]
    | VideoIdChar    // [A-Za-z0-9_-]

  predicate InClass(c: char, cls: CharClass) {
    match cls
    case Dot => !IsLineTerminator(c)
    case Space => IsWhiteSpace(c)
    case UrlChar => !IsWhiteSpace(c) && c != ')'
    case NotCloseParen => c != ')'
    case VideoIdChar => ('A' <= c <= 'Z') || ('a' <= c <= 'z') || ('0' <= c <= '9') || c == '_' || c == '-'
  }

  predicate AllIn(t: string, cls: CharClass) {
    forall k :: 0 <= k < |t| ==> InClass(t[k], cls)
  }

  /** Where the longest run of `cls` characters starting at i ends: what a greedy repetition consumes. */
  function RunEnd(s: string, i: nat, cls: CharClass): (e: nat)
    requires i <= |s|
    ensures i <= e <= |s|
    ensures forall k :: i <= k < e ==> InClass(s[k], cls)
    ensures e < |s| ==> !InClass(s[e], cls)
    decreases |s| - i
  {
    if i < |s| && InClass(s[i], cls) then RunEnd(s, i + 1, cls) else i
  }

  /** The rest of the line from a reaches b exactly when no line terminator lies between them. */
  lemma LineRun(s: string, a: nat, b: nat)
    requires a <= b <= |s|
    ensures b <= RunEnd(s, a, Dot) <==> NoLineTerminator(s[a..b])
  {
    var e := RunEnd(s, a, Dot);
    if b <= e {
      forall k | 0 <= k < b - a ensures !IsLineTerminator(s[a..b][k]) {
        assert s[a..b][k] == s[a + k] && InClass(s[a + k], Dot);
      }
    } else {
      assert s[a..b][e - a] == s[e] && !InClass(s[e], Dot);
    }
  }

  /** The rest of the line from a, which reaches j, goes on over line-terminator-free text from j to m. */
  lemma LineRunPast(s: string, a: nat, j: nat, m: nat)
    requires a <= j <= m <= |s| && j <= RunEnd(s, a, Dot)
    requires forall k :: j <= k < m ==> !IsLineTerminator(s[k])
    ensures m <= RunEnd(s, a, Dot)
  {
    var e := RunEnd(s, a, Dot);
    if e < m {
      assert InClass(s[e], Dot);
    }
  }

  /** The first position from j up to hi at which ok holds: the order in which a lazy `.*?` tries its lengths. */
  function FirstWhere(ok: nat -> bool, j: nat, hi: nat): (r: Option<nat>)
    ensures r.Some? ==> j <= r.value <= hi && ok(r.value) && forall p :: j <= p < r.value ==> !ok(p)
    ensures r.None? ==> forall p :: j <= p <= hi ==> !ok(p)
    decreases hi + 1 - j
  {
    if j > hi then None
    else if ok(j) then Some(j)
    else FirstWhere(ok, j + 1, hi)
  }

  /** Length of the text `https?:\/\/` matches at i: 8, 7, or 0 when it does not match. */
  function SchemeLength(s: string, i: nat): (n: nat)
    ensures n == 8 <==> PrefixAt(s, i, "https://")
    ensures n == 7 <==> PrefixAt(s, i, "http://")
    ensures n == 0 <==> !PrefixAt(s, i, "https://") && !PrefixAt(s, i, "http://")
  {
    if PrefixAt(s, i, "https://") then
      assert s[i + 4] == "https://"[4] != "http://"[4];
      8
    else if PrefixAt(s, i, "http://") then 7
    else 0
  }

  /** A whole URL `https?:\/\/` followed by a non-empty run of `cls` characters. */
  predicate IsSchemeUrl(url: string, cls: CharClass) {
    && ((|url| > 8 && url[..8] == "https://") || (|url| > 7 && url[..7] == "http://"))
    && AllIn(url, cls)
  }

  /** `\]\((https?:\/\/C+)\)` at j, C being cls: where the URL ends. */
  function LinkTargetEnd(s: string, j: nat, cls: CharClass): (r: Option<nat>)
    requires j <= |s|
    requires cls == UrlChar || cls == NotCloseParen
    ensures r.Some? ==> && PrefixAt(s, j, "](")
                        && j + 2 < r.value < |s| && s[r.value] == ')'
                        && IsSchemeUrl(s[j + 2..r.value], cls)
  {
    if !PrefixAt(s, j, "](") then None
    else
      var n := SchemeLength(s, j + 2);
      if n == 0 then None
      else
        var e := RunEnd(s, j + 2 + n, cls);
        if e == j + 2 + n || e == |s| || s[e] != ')' then None
        else
          SchemeUrlFromParts(s, j + 2, n, e, cls);
          Some(e)
  }

  lemma SchemeUrlFromParts(s: string, u: nat, n: nat, e: nat, cls: CharClass)
    requires u + n < e <= |s|
    requires (n == 8 && PrefixAt(s, u, "https://")) || (n == 7 && PrefixAt(s, u, "http://"))
    requires forall k :: u + n <= k < e ==> InClass(s[k], cls)
    requires cls == UrlChar || cls == NotCloseParen
    ensures IsSchemeUrl(s[u..e], cls)
  {
    var url := s[u..e];
    var scheme := if n == 8 then "https://" else "http://";
    assert url[..n] == s[u..u + n] == scheme;
    SchemeInClass(cls);
    forall k | 0 <= k < |url| ensures InClass(url[k], cls) {
      if k < n {
        assert url[k] == scheme[k];
      }
    }
  }

  /** The characters of both schemes belong to both URL classes. */
  lemma SchemeInClass(cls: CharClass)
    requires cls == UrlChar || cls == NotCloseParen
    ensures AllIn("https://", cls) && AllIn("http://", cls)
  {
  }

  /**
   * `(.*?)\]\((https?:\/\/C+)\)` with the lazy group tried at lengths that
   * end at t, t + 1, ... up to the end of the line: the end of the label and
   * the end of the URL of the first length that matches.
   */
  function LazyLabel(s: string, t: nat, cls: CharClass): (r: Option<(nat, nat)>)
    requires t <= |s|
    requires cls == UrlChar || cls == NotCloseParen
    ensures r.Some? ==> t <= r.value.0 && r.value.0 + 2 < r.value.1 < |s|
    decreases |s| - t
  {
    match LinkTargetEnd(s, t, cls)
    case Some(e) => Some((t, e))
    case None =>
      if t < |s| && !IsLineTerminator(s[t]) then LazyLabel(s, t + 1, cls)
      else None
  }

  /** The lazy label ends where `](url)` follows, and the URL ends where that target says. */
  lemma {:induction false} LazyLabelTarget(s: string, t: nat, cls: CharClass)
    requires t <= |s|
    requires cls == UrlChar || cls == NotCloseParen
    ensures LazyLabel(s, t, cls).Some? ==>
              LinkTargetEnd(s, LazyLabel(s, t, cls).value.0, cls) == Some(LazyLabel(s, t, cls).value.1)
    decreases |s| - t
  {
    if LinkTargetEnd(s, t, cls).None? && t < |s| && !IsLineTerminator(s[t]) {
      LazyLabelTarget(s, t + 1, cls);
    }
  }

  /** The lazy label never runs past the end of its line. */
  lemma {:induction false} LazyLabelOnLine(s: string, t: nat, cls: CharClass)
    requires t <= |s|
    requires cls == UrlChar || cls == NotCloseParen
    ensures LazyLabel(s, t, cls).Some? ==> NoLineTerminator(s[t..LazyLabel(s, t, cls).value.0])
    decreases |s| - t
  {
    if LinkTargetEnd(s, t, cls).None? && t < |s| && !IsLineTerminator(s[t]) {
      LazyLabelOnLine(s, t + 1, cls);
      assert LazyLabel(s, t, cls) == LazyLabel(s, t + 1, cls);
      if LazyLabel(s, t + 1, cls).Some? {
        NoLineTerminatorCons(s, t, LazyLabel(s, t + 1, cls).value.0);
      }
    }
  }

  lemma NoLineTerminatorCons(s: string, t: nat, e: nat)
    requires t < e <= |s| && !IsLineTerminator(s[t]) && NoLineTerminator(s[t + 1..e])
    ensures NoLineTerminator(s[t..e])
  {
    forall k | 0 <= k < e - t ensures !IsLineTerminator(s[t..e][k]) {
      if k > 0 {
        assert s[t..e][k] == s[t + 1..e][k - 1];
      }
    }
  }

  /** The text `[label](url)`. */
  function LinkText(caption: string, url: string): string {
    "[" + caption + "](" + url + ")"
  }

  /** `\[(.*?)\]\((https?:\/\/C+)\)` anchored at i; group 1 is the label, group 2 the URL. */
  function BracketLinkAt(s: string, i: nat, cls: CharClass): (r: Option<Match>)
    requires cls == UrlChar || cls == NotCloseParen
    ensures r.Some? ==> r.value.start == i && i < r.value.end <= |s| && |r.value.groups| == 2
  {
    if i < |s| && s[i] == '[' then
      match LazyLabel(s, i + 1, cls)
      case None => None
      case Some((le, ue)) => Some(Match(i, ue + 1, [s[i + 1..le], s[le + 2..ue]]))
    else None
  }

  /** A match is `[label](url)` with a label on one line and a URL of the expression's shape. */
  lemma BracketLinkShape(s: string, i: nat, cls: CharClass)
    requires cls == UrlChar || cls == NotCloseParen
    requires BracketLinkAt(s, i, cls).Some?
    ensures var m := BracketLinkAt(s, i, cls).value;
            && NoLineTerminator(m.groups[0]) && IsSchemeUrl(m.groups[1], cls)
            && s[i..m.end] == LinkText(m.groups[0], m.groups[1])
  {
    LazyLabelOnLine(s, i + 1, cls);
    LazyLabelTarget(s, i + 1, cls);
    var (le, ue) := LazyLabel(s, i + 1, cls).value;
    BracketLinkOfLabel(s, i, le, ue, cls);
    LinkTextAt(s, i, le, ue, cls);
  }

  /** A `[` at i, a label up to le and `](url)` from le up to ue make up `[label](url)`. */
  lemma LinkTextAt(s: string, i: nat, le: nat, ue: nat, cls: CharClass)
    requires cls == UrlChar || cls == NotCloseParen
    requires i < le <= |s| && s[i] == '[' && LinkTargetEnd(s, le, cls) == Some(ue)
    ensures le + 2 < ue < |s| && IsSchemeUrl(s[le + 2..ue], cls)
    ensures s[i..ue + 1] == LinkText(s[i + 1..le], s[le + 2..ue])
  {
    LinkPartsAt(s, i, le, ue);
  }

  lemma LinkPartsAt(s: string, i: nat, le: nat, ue: nat)
    requires i < le && le + 2 <= ue < |s|
    requires s[i] == '[' && PrefixAt(s, le, "](") && s[ue] == ')'
    ensures s[i..ue + 1] == LinkText(s[i + 1..le], s[le + 2..ue])
  {
    assert s[i..i + 1] == "[";
    Extend(s, i, i + 1, le, "[", s[i + 1..le]);
    Extend(s, i, le, le + 2, "[" + s[i + 1..le], "](");
    Extend(s, i, le + 2, ue, "[" + s[i + 1..le] + "](", s[le + 2..ue]);
    Extend(s, i, ue, ue + 1, "[" + s[i + 1..le] + "](" + s[le + 2..ue], ")");
  }

  /** The run of `cls` characters from i is exactly s[i..x]. */
  lemma RunEndIs(s: string, i: nat, x: nat, cls: CharClass)
    requires i <= x <= |s|
    requires forall k :: i <= k < x ==> InClass(s[k], cls)
    requires x < |s| ==> !InClass(s[x], cls)
    ensures RunEnd(s, i, cls) == x
  {
  }

  /** Lengths of the lazy label at which no link target follows do not end it. */
  lemma {:induction false} LazyLabelSkips(s: string, t: nat, le: nat, cls: CharClass)
    requires t <= le <= |s| && NoLineTerminator(s[t..le])
    requires cls == UrlChar || cls == NotCloseParen
    requires forall j :: t <= j < le ==> LinkTargetEnd(s, j, cls).None?
    ensures LazyLabel(s, t, cls) == LazyLabel(s, le, cls)
    decreases le - t
  {
    if t < le {
      assert s[t] == s[t..le][0];
      assert s[t + 1..le] == s[t..le][1..];
      LazyLabelSkips(s, t + 1, le, cls);
    }
  }

  /** The lazy label takes the shortest length that works: no link target
      follows any shorter one, and when there is none, no link target follows
      any length that stays on the line. */
  lemma LazyLabelFirst(s: string, t: nat, cls: CharClass)
    requires t <= |s|
    requires cls == UrlChar || cls == NotCloseParen
    ensures LazyLabel(s, t, cls).Some? ==>
              forall j :: t <= j < LazyLabel(s, t, cls).value.0 ==> LinkTargetEnd(s, j, cls).None?
    ensures LazyLabel(s, t, cls).None? ==>
              forall j :: t <= j <= |s| && NoLineTerminator(s[t..j]) ==> LinkTargetEnd(s, j, cls).None?
  {
    if LazyLabel(s, t, cls).Some? {
      LazyLabelFirstFound(s, t, LazyLabel(s, t, cls).value.0, LazyLabel(s, t, cls).value.1, cls);
    } else {
      LazyLabelNoneOnLine(s, t, cls);
    }
  }

  /** One step of the lazy label: a target here, or one more character of the line, or failure. */
  lemma LazyLabelStep(s: string, t: nat, cls: CharClass)
    requires t <= |s|
    requires cls == UrlChar || cls == NotCloseParen
    ensures LinkTargetEnd(s, t, cls).Some? ==> LazyLabel(s, t, cls) == Some((t, LinkTargetEnd(s, t, cls).value))
    ensures LinkTargetEnd(s, t, cls).None? && t < |s| && !IsLineTerminator(s[t]) ==>
              LazyLabel(s, t, cls) == LazyLabel(s, t + 1, cls)
    ensures LinkTargetEnd(s, t, cls).None? && (t == |s| || IsLineTerminator(s[t])) ==> LazyLabel(s, t, cls).None?
  {
  }

  lemma LazyLabelFirstFound(s: string, t: nat, le: nat, ue: nat, cls: CharClass)
    requires t <= |s|
    requires cls == UrlChar || cls == NotCloseParen
    requires LazyLabel(s, t, cls) == Some((le, ue))
    ensures forall j :: t <= j < le ==> LinkTargetEnd(s, j, cls).None?
  {
    forall j | t <= j < le ensures LinkTargetEnd(s, j, cls).None? {
      NoTargetBeforeLabel(s, t, le, ue, j, cls);
    }
  }

  lemma {:induction false} NoTargetBeforeLabel(s: string, t: nat, le: nat, ue: nat, j: nat, cls: CharClass)
    requires t <= j < le
    requires cls == UrlChar || cls == NotCloseParen
    requires t <= |s| && LazyLabel(s, t, cls) == Some((le, ue))
    ensures LinkTargetEnd(s, j, cls).None?
    decreases j - t
  {
    LazyLabelStep(s, t, cls);
    if t < j {
      NoTargetBeforeLabel(s, t + 1, le, ue, j, cls);
    }
  }

  lemma {:induction false} LazyLabelNoneOnLine(s: string, t: nat, cls: CharClass)
    requires t <= |s|
    requires cls == UrlChar || cls == NotCloseParen
    requires LazyLabel(s, t, cls).None?
    ensures forall j :: t <= j <= |s| && NoLineTerminator(s[t..j]) ==> LinkTargetEnd(s, j, cls).None?
    decreases |s| - t
  {
    LazyLabelStep(s, t, cls);
    if t < |s| && !IsLineTerminator(s[t]) {
      LazyLabelNoneOnLine(s, t + 1, cls);
      forall j | t + 1 <= j <= |s| && NoLineTerminator(s[t..j]) ensures NoLineTerminator(s[t + 1..j]) {
        assert s[t + 1..j] == s[t..j][1..];
      }
    } else {
      forall j | t < j <= |s| ensures !NoLineTerminator(s[t..j]) {
        assert s[t..j][0] == s[t];
      }
    }
  }

  /** A stretch free of `]` holds no position where a link target starts. */
  lemma NoTargetInBracketFree(s: string, t: nat, le: nat, cls: CharClass)
    requires t <= le <= |s| && ']' !in s[t..le]
    requires cls == UrlChar || cls == NotCloseParen
    ensures forall j :: t <= j < le ==> LinkTargetEnd(s, j, cls).None?
  {
    forall j | t <= j < le ensures LinkTargetEnd(s, j, cls).None? {
      assert s[j] == s[t..le][j - t];
      NoTargetWithoutBracket(s, j, cls);
    }
  }

  /** `](` cannot start where the character is not `]`. */
  lemma NoTargetWithoutBracket(s: string, t: nat, cls: CharClass)
    requires t < |s| && s[t] != ']'
    requires cls == UrlChar || cls == NotCloseParen
    ensures LinkTargetEnd(s, t, cls) == None
  {
    assert !PrefixAt(s, t, "](") by {
      if t + 2 <= |s| {
        assert s[t..t + 2][0] == s[t];
      }
    }
  }

  /** After the label, `](url)` with a URL of the expression's shape is matched exactly. */
  lemma LinkTargetAt(s: string, j: nat, url: string, cls: CharClass)
    requires cls == UrlChar || cls == NotCloseParen
    requires IsSchemeUrl(url, cls)
    requires j + 3 + |url| <= |s| && s[j..j + 2] == "](" && s[j + 2..j + 2 + |url|] == url
    requires s[j + 2 + |url|] == ')'
    ensures LinkTargetEnd(s, j, cls) == Some(j + 2 + |url|)
  {
    var u := j + 2;
    var e := u + |url|;
    assert forall k :: 0 <= k < |url| ==> s[u + k] == url[k];
    var n := SchemeLength(s, u);
    if |url| > 8 && url[..8] == "https://" {
      assert s[u..u + 8] == url[..8];
    } else {
      assert s[u..u + 7] == url[..7];
    }
    assert n == 8 || n == 7;
    forall k | u + n <= k < e ensures InClass(s[k], cls) {
      assert s[k] == url[k - u];
    }
    RunEndIs(s, u + n, e, cls);
  }

  /** The matcher finds `[caption](url)` written out on its own, with the same groups. */
  lemma BracketLinkWhole(caption: string, url: string, cls: CharClass)
    requires cls == UrlChar || cls == NotCloseParen
    requires NoLineTerminator(caption) && ']' !in caption && IsSchemeUrl(url, cls)
    ensures BracketLinkAt(LinkText(caption, url), 0, cls)
         == Some(Match(0, |LinkText(caption, url)|, [caption, url]))
  {
    var s := LinkText(caption, url);
    var le := 1 + |caption|;
    var ue := le + 2 + |url|;
    assert s[1..le] == caption;
    assert s[le..le + 2] == "](" && s[le + 2..ue] == url;
    LinkTargetAt(s, le, url, cls);
    BracketLinkFound(s, 0, le, ue, caption, url, cls);
  }

  /** `[` at i, a label free of `]` and line breaks, then `](url)`: the matcher takes all of it. */
  lemma BracketLinkFound(s: string, i: nat, le: nat, ue: nat, caption: string, url: string, cls: CharClass)
    requires cls == UrlChar || cls == NotCloseParen
    requires i < le <= |s| && s[i] == '[' && s[i + 1..le] == caption
    requires NoLineTerminator(caption) && ']' !in caption
    requires LinkTargetEnd(s, le, cls) == Some(ue) && s[le + 2..ue] == url
    ensures BracketLinkAt(s, i, cls) == Some(Match(i, ue + 1, [caption, url]))
  {
    NoTargetInBracketFree(s, i + 1, le, cls);
    LazyLabelFound(s, i + 1, le, ue, cls);
    BracketLinkOfLabel(s, i, le, ue, cls);
  }

  /** The lazy label stops at the first link target on its line: a label on
      one line, with no link target after any shorter length, that reaches a
      link target ends there. */
  lemma LazyLabelFound(s: string, t: nat, le: nat, ue: nat, cls: CharClass)
    requires t <= le <= |s| && NoLineTerminator(s[t..le])
    requires cls == UrlChar || cls == NotCloseParen
    requires forall j :: t <= j < le ==> LinkTargetEnd(s, j, cls).None?
    requires LinkTargetEnd(s, le, cls) == Some(ue)
    ensures LazyLabel(s, t, cls) == Some((le, ue))
  {
    LazyLabelAtTarget(s, le, cls);
    LazyLabelSkips(s, t, le, cls);
  }

  lemma BracketLinkOfLabel(s: string, i: nat, le: nat, ue: nat, cls: CharClass)
    requires cls == UrlChar || cls == NotCloseParen
    requires i < |s| && s[i] == '[' && LazyLabel(s, i + 1, cls) == Some((le, ue))
    ensures BracketLinkAt(s, i, cls) == Some(Match(i, ue + 1, [s[i + 1..le], s[le + 2..ue]]))
  {
  }

  lemma LazyLabelAtTarget(s: string, t: nat, cls: CharClass)
    requires cls == UrlChar || cls == NotCloseParen
    requires t <= |s| && LinkTargetEnd(s, t, cls).Some?
    ensures LazyLabel(s, t, cls) == Some((t, LinkTargetEnd(s, t, cls).value))
  {
  }

  /** The text `-` white space `[caption](url)`. */
  function BulletText(ws: string, caption: string, url: string): string {
    "-" + ws + LinkText(caption, url)
  }

  /** `-\s*\[(.*?)\]\((https?:\/\/[^\)]+)\).*?` anchored at i (the trailing lazy `.*?` matches nothing). */
  function BulletLinkAt(s: string, i: nat): (r: Option<Match>)
    ensures r.Some? ==> r.value.start == i && i < r.value.end <= |s| && |r.value.groups| == 2
  {
    if i < |s| && s[i] == '-' then
      match BracketLinkAt(s, RunEnd(s, i + 1, Space), NotCloseParen)
      case None => None
      case Some(m) => Some(Match(i, m.end, m.groups))
    else None
  }

  /** A match is a dash, white space, then `[label](url)` with a label on one
      line and a URL with an explicit scheme and no `)`. */
  lemma BulletLinkShape(s: string, i: nat)
    requires BulletLinkAt(s, i).Some?
    ensures var m := BulletLinkAt(s, i).value;
            && NoLineTerminator(m.groups[0]) && IsSchemeUrl(m.groups[1], NotCloseParen)
            && exists ws :: AllWhiteSpace(ws) && s[i..m.end] == BulletText(ws, m.groups[0], m.groups[1])
  {
    var b := RunEnd(s, i + 1, Space);
    var m := BracketLinkAt(s, b, NotCloseParen).value;
    BulletLinkOfLink(s, i, b, m);
    BracketLinkShape(s, b, NotCloseParen);
    BulletTextAt(s, i, b, m.end, m.groups[0], m.groups[1]);
    SpaceRun(s, i + 1);
  }

  lemma BulletLinkOfLink(s: string, i: nat, b: nat, m: Match)
    requires i < |s| && s[i] == '-' && b == RunEnd(s, i + 1, Space)
    requires BracketLinkAt(s, b, NotCloseParen) == Some(m)
    ensures BulletLinkAt(s, i) == Some(Match(i, m.end, m.groups))
  {
  }

  /** The blanks `\s*` takes are white space. */
  lemma SpaceRun(s: string, a: nat)
    requires a <= |s|
    ensures AllWhiteSpace(s[a..RunEnd(s, a, Space)])
  {
    var e := RunEnd(s, a, Space);
    assert forall k :: 0 <= k < e - a ==> s[a..e][k] == s[a + k];
  }

  /** A `-` at i, any text up to b and `[caption](url)` from b up to e make up the bullet. */
  lemma BulletTextAt(s: string, i: nat, b: nat, e: nat, caption: string, url: string)
    requires i < b <= e <= |s| && s[i] == '-' && s[b..e] == LinkText(caption, url)
    ensures s[i..e] == BulletText(s[i + 1..b], caption, url)
  {
    assert s[i..i + 1] == "-";
    Extend(s, i, i + 1, b, "-", s[i + 1..b]);
    Extend(s, i, b, e, "-" + s[i + 1..b], s[b..e]);
  }

  /** A bullet link written in the text, `-`, white space and `[caption](url)`
      with a caption free of `]` and line breaks, is matched whole, with the
      caption and the URL as its groups. */
  lemma BulletLinkWhole(s: string, x: nat, ws: string, caption: string, url: string)
    requires PrefixAt(s, x, BulletText(ws, caption, url))
    requires AllWhiteSpace(ws) && NoLineTerminator(caption) && ']' !in caption
    requires IsSchemeUrl(url, NotCloseParen)
    ensures BulletLinkAt(s, x) == Some(Match(x, x + |BulletText(ws, caption, url)|, [caption, url]))
  {
    var b := x + 1 + |ws|;
    var le := b + 1 + |caption|;
    BulletPieces(s, x, b, le, ws, caption, url);
    assert |BulletText(ws, caption, url)| == |ws| + |caption| + |url| + 5;
    BulletLinkFromPieces(s, x, b, le, x + |BulletText(ws, caption, url)|, caption, url);
  }

  lemma BulletLinkFromPieces(s: string, x: nat, b: nat, le: nat, end: nat, caption: string, url: string)
    requires x < b && le == b + 1 + |caption| && end == le + 3 + |url| <= |s|
    requires s[x] == '-' && RunEnd(s, x + 1, Space) == b && s[b] == '['
    requires s[b + 1..le] == caption && NoLineTerminator(caption) && ']' !in caption
    requires s[le..le + 2] == "](" && s[le + 2..le + 2 + |url|] == url && s[le + 2 + |url|] == ')'
    requires IsSchemeUrl(url, NotCloseParen)
    ensures BulletLinkAt(s, x) == Some(Match(x, end, [caption, url]))
  {
    var ue := le + 2 + |url|;
    LinkTargetAt(s, le, url, NotCloseParen);
    BracketLinkFound(s, b, le, ue, caption, url, NotCloseParen);
    BulletLinkOfLink(s, x, b, Match(b, ue + 1, [caption, url]));
  }

  /** The pieces of a bullet link written at x, each at its place. */
  lemma BulletPieces(s: string, x: nat, b: nat, le: nat, ws: string, caption: string, url: string)
    requires b == x + 1 + |ws| && le == b + 1 + |caption|
    requires PrefixAt(s, x, BulletText(ws, caption, url)) && AllWhiteSpace(ws)
    ensures le + 3 + |url| <= |s| && s[x] == '-' && s[b] == '[' && RunEnd(s, x + 1, Space) == b
    ensures s[b + 1..le] == caption && s[le..le + 2] == "](" && s[le + 2..le + 2 + |url|] == url
    ensures s[le + 2 + |url|] == ')'
  {
    PrefixSplit(s, x, "-" + ws, LinkText(caption, url));
    assert x + |"-" + ws| == b;
    LinkPieces(s, b, le, caption, url);
    DashAndBlanks(s, x, ws);
  }

  /** `-` and white space at x, followed by something that is not white space. */
  lemma DashAndBlanks(s: string, x: nat, ws: string)
    requires PrefixAt(s, x, "-" + ws) && AllWhiteSpace(ws)
    requires x + 1 + |ws| < |s| && s[x + 1 + |ws|] == '['
    ensures s[x] == '-' && RunEnd(s, x + 1, Space) == x + 1 + |ws|
  {
    var b := x + 1 + |ws|;
    PrefixSplit(s, x, "-", ws);
    assert s[x] == s[x..x + 1][0];
    forall k | x + 1 <= k < b ensures InClass(s[k], Space) {
      assert s[k] == ws[k - x - 1];
    }
    RunEndIs(s, x + 1, b, Space);
  }

  /** The pieces of `[caption](url)` written at b, each at its place. */
  lemma LinkPieces(s: string, b: nat, le: nat, caption: string, url: string)
    requires le == b + 1 + |caption| && PrefixAt(s, b, LinkText(caption, url))
    ensures le + 3 + |url| <= |s| && s[b] == '['
    ensures s[b + 1..le] == caption && s[le..le + 2] == "](" && s[le + 2..le + 2 + |url|] == url
    ensures s[le + 2 + |url|] == ')'
  {
    PrefixSplit(s, b, "[" + caption + "](" + url, ")");
    PrefixSplit(s, b, "[" + caption + "](", url);
    PrefixSplit(s, b, "[" + caption, "](");
    PrefixSplit(s, b, "[", caption);
    assert s[b] == s[b..b + 1][0];
    assert s[le + 2 + |url|] == s[le + 2 + |url|..le + 3 + |url|][0];
  }
}
