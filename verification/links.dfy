/**
 * The markdown-link rewrite applied to the intro (script.js:104-105) and to
 * each highlight (script.js:129):
 * `md.replace(/\[(.*?)\]\((https?:\/\/[^\s)]+)\)/g, '<a href="$2" target="_blank" rel="noopener">$1</a>')`.
 */
module Links {
  import opened Text
  import opened RegexCore
  import opened RegexExec

  /** The replacement for one link: `$2` is the URL, `$1` the caption, inserted as they are. */
  function Anchor(url: string, caption: string): string {
    "<a href=\"" + url + "\" target=\"_blank\" rel=\"noopener\">" + caption + "</a>"
  }

  /** Two texts that each start with a `"`-free part followed by `"` agree on that part. */
  lemma QuotedPrefix(u1: string, rest1: string, u2: string, rest2: string)
    requires '"' !in u1 && '"' !in u2 && u1 + "\"" + rest1 == u2 + "\"" + rest2
    ensures u1 == u2
  {
    var w1, w2 := u1 + "\"" + rest1, u2 + "\"" + rest2;
    var n := if |u1| <= |u2| then |u1| else |u2|;
    assert w1[n] == w2[n];
    assert forall k :: 0 <= k < |u1| ==> u1[k] != '"';
    assert forall k :: 0 <= k < |u2| ==> u2[k] != '"';
    assert u1 == w1[..|u1|] == w2[..|u2|] == u2;
  }

  /** Where an anchor's URL and caption sit inside it. */
  lemma AnchorParts(url: string, caption: string)
    ensures Anchor(url, caption)[9..] == url + "\"" + (" target=\"_blank\" rel=\"noopener\">" + caption + "</a>")
    ensures |Anchor(url, caption)| == 9 + |url| + 33 + |caption| + 4
    ensures Anchor(url, caption)[9 + |url| + 33..9 + |url| + 33 + |caption|] == caption
  {
    var a := Anchor(url, caption);
    var tail := " target=\"_blank\" rel=\"noopener\">";
    assert |tail| == 32;
    assert a == "<a href=\"" + (url + "\"" + (tail + caption + "</a>"));
    assert a == ("<a href=\"" + url + "\"" + tail) + caption + "</a>";
  }

  /** An anchor gives back its URL and caption, as long as the URL holds no `"`. */
  lemma AnchorInjective(url1: string, caption1: string, url2: string, caption2: string)
    requires '"' !in url1 && '"' !in url2 && Anchor(url1, caption1) == Anchor(url2, caption2)
    ensures url1 == url2 && caption1 == caption2
  {
    var tail := " target=\"_blank\" rel=\"noopener\">";
    AnchorParts(url1, caption1);
    AnchorParts(url2, caption2);
    QuotedPrefix(url1, tail + caption1 + "</a>", url2, tail + caption2 + "</a>");
  }

  /** The global replace of expression p from position pos on: the text before
      each match is copied, the match becomes its anchor. */
  function RewriteFrom(p: Matcher, s: string, pos: nat): string
    requires pos <= |s|
    decreases |s| - pos
  {
    match Exec(p, s, pos)
    case None => s[pos..]
    case Some(m) => s[pos..m.start] + Anchor(m.groups[1], m.groups[0]) + RewriteFrom(p, s, m.end)
  }

  function RewriteLinks(s: string): string {
    RewriteFrom(MarkdownLink, s, 0)
  }

  /** Matches that follow one another from pos on, within s. */
  ghost predicate InOrder(ms: seq<Match>, pos: nat, n: nat)
    decreases |ms|
  {
    ms == [] || (pos <= ms[0].start <= ms[0].end <= n && |ms[0].groups| == 2 && InOrder(ms[1..], ms[0].end, n))
  }

  /** Splicing anchors into s: the text between the matches is copied and each
      match is replaced by its anchor. */
  ghost function Splice(s: string, ms: seq<Match>, pos: nat): string
    requires pos <= |s| && InOrder(ms, pos, |s|)
    decreases |ms|
  {
    if ms == [] then s[pos..]
    else s[pos..ms[0].start] + Anchor(ms[0].groups[1], ms[0].groups[0]) + Splice(s, ms[1..], ms[0].end)
  }

  /** The global replace replaces exactly the matches the `exec` loop visits: the
      text between them is kept and each match becomes its anchor. */
  lemma {:induction false} RewriteFromAllMatches(p: Matcher, s: string, pos: nat)
    requires pos <= |s|
    ensures InOrder(AllMatches(p, s, pos), pos, |s|)
    ensures RewriteFrom(p, s, pos) == Splice(s, AllMatches(p, s, pos), pos)
    decreases |s| - pos
  {
    AllMatchesStep(p, s, pos);
    match Exec(p, s, pos)
    case None =>
    case Some(m) =>
      RewriteFromAllMatches(p, s, m.end);
      assert AllMatches(p, s, pos)[1..] == AllMatches(p, s, m.end);
  }

  /** Inside every match of the link expression, right after its label, a `](` is directly followed by an explicit scheme. */
  lemma MatchHasScheme(s: string, i: nat)
    requires MarkdownLink(s, i).Some?
    ensures var m := MarkdownLink(s, i).value;
            && |m.groups| == 2 && i + 1 + |m.groups[0]| + |"](http://"| <= m.end
            && (PrefixAt(s, i + 1 + |m.groups[0]|, "](http://") || PrefixAt(s, i + 1 + |m.groups[0]|, "](https://"))
    ensures Contains(s, "](http://") || Contains(s, "](https://")
  {
    var m := MarkdownLink(s, i).value;
    BracketLinkShape(s, i, UrlChar);
    var caption, url := m.groups[0], m.groups[1];
    var k := 1 + |caption|;
    LinkTextHasScheme(caption, url);
    if PrefixAt(LinkText(caption, url), k, "](https://") {
      OccurrenceInSlice(s, i, m.end, k, "](https://");
    } else {
      OccurrenceInSlice(s, i, m.end, k, "](http://");
    }
  }

  /** In `[caption](url)` with a URL of the expression's shape, the `](` is followed by the scheme. */
  lemma LinkTextHasScheme(caption: string, url: string)
    requires IsSchemeUrl(url, UrlChar)
    ensures PrefixAt(LinkText(caption, url), 1 + |caption|, "](https://")
         || PrefixAt(LinkText(caption, url), 1 + |caption|, "](http://")
  {
    var t := LinkText(caption, url);
    var j := 1 + |caption|;
    assert t[j..j + 2] == "](";
    assert t[j + 2..j + 2 + |url|] == url;
    if |url| > 8 && url[..8] == "https://" {
      assert t[j + 2..j + 10] == url[..8];
      assert t[j..j + 10] == t[j..j + 2] + t[j + 2..j + 10];
    } else {
      assert t[j + 2..j + 9] == url[..7];
      assert t[j..j + 9] == t[j..j + 2] + t[j + 2..j + 9];
    }
  }

  lemma OccurrenceInSlice(s: string, a: nat, b: nat, k: nat, p: string)
    requires a <= b <= |s| && PrefixAt(s[a..b], k, p)
    ensures a + k + |p| <= b && PrefixAt(s, a + k, p)
  {
    var t := s[a..b];
    assert |t| == b - a && k + |p| <= |t|;
    forall x | 0 <= x < |p| ensures s[a + k + x] == p[x] {
      assert t[k..k + |p|][x] == p[x];
      assert t[k + x] == s[a + k + x];
    }
    assert s[a + k..a + k + |p|] == p;
  }

  /** Text without `](http://` and `](https://` comes back unchanged. */
  lemma RewriteKeepsPlainText(s: string)
    requires !Contains(s, "](http://") && !Contains(s, "](https://")
    ensures RewriteLinks(s) == s
  {
    match Exec(MarkdownLink, s, 0)
    case None =>
    case Some(m) =>
      MatchHasScheme(s, m.start);
  }

  /** A link written on its own, whose caption has no `]` and no line break, becomes exactly its anchor. */
  lemma RewriteSingleLink(caption: string, url: string)
    requires NoLineTerminator(caption) && ']' !in caption && IsSchemeUrl(url, UrlChar)
    ensures RewriteLinks(LinkText(caption, url)) == Anchor(url, caption)
  {
    var s := LinkText(caption, url);
    BracketLinkWhole(caption, url, UrlChar);
    ExecHere(MarkdownLink, s, 0);
    RewriteWholeMatch(MarkdownLink, s, Match(0, |s|, [caption, url]));
  }

  /** A text whose first match covers all of it is replaced by that match's anchor. */
  lemma RewriteWholeMatch(p: Matcher, s: string, m: Match)
    requires |m.groups| == 2 && Exec(p, s, 0) == Some(m) && m.start == 0 && m.end == |s|
    ensures RewriteFrom(p, s, 0) == Anchor(m.groups[1], m.groups[0])
  {
    RewriteFromEnd(p, s);
    RewriteFromMatch(p, s, 0);
    var a := Anchor(m.groups[1], m.groups[0]);
    assert s[0..0] + a == a;
  }

  /** Nothing is left to replace at the end of the text. */
  lemma RewriteFromEnd(p: Matcher, s: string)
    ensures RewriteFrom(p, s, |s|) == []
  {
    ExecAtEnd(p, s);
  }

  /** One replacement: the text up to the next match, its anchor, then the rest. */
  lemma RewriteFromMatch(p: Matcher, s: string, pos: nat)
    requires pos <= |s| && Exec(p, s, pos).Some?
    ensures var m := Exec(p, s, pos).value;
            RewriteFrom(p, s, pos) == s[pos..m.start] + Anchor(m.groups[1], m.groups[0]) + RewriteFrom(p, s, m.end)
  {
  }
}
