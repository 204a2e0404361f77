/**
 * Anchored matchers for the two YouTube expressions of script.js:
 *
 *  - the README video card (script.js:169), group 1 the watch URL, group 2 the title:
 *    /\[!\[.*?\]\]\((https:\/\/www\.youtube\.com\/watch\?v=[^)\s]+)\)\s*<br>\s*\[\*\*(.*?)\*\*\]\(\1\)/
 *  - the watch URL followed later on the same line by `**`, of the fallback scan
 *    (script.js:194), group 1 the URL, group 2 the id:
 *    /(https:\/\/www\.youtube\.com\/watch\?v=([A-Za-z0-9_-]{6,})).*?\*\*\]?\)?/
 */
module YouTubeRegex {
  import opened Text
  import opened RegexCore

  const WatchPrefix := "https://www.youtube.com/watch?v="

  /** A URL the card's first group accepts: the watch prefix, then a non-empty run of `[^)\s]`. */
  predicate IsWatchUrl(url: string) {
    |url| > |WatchPrefix| && StartsWith(url, WatchPrefix) && AllIn(url[|WatchPrefix|..], UrlChar)
  }

  /** A card as the README writes it: a thumbnail link, a line break, and a bold caption linking to the same URL. */
  function CardText(alt: string, url: string, ws1: string, ws2: string, title: string): string {
    "[![" + alt + "]](" + url + ")" + ws1 + "<br>" + ws2 + "[**" + title + ("**](" + url + ")")
  }

  ghost predicate IsCard(t: string, url: string, title: string) {
    exists alt, ws1, ws2 :: && NoLineTerminator(alt) && AllWhiteSpace(ws1) && AllWhiteSpace(ws2)
                            && t == CardText(alt, url, ws1, ws2, title)
  }

  /** `]](url)` at j, the URL ending at e. */
  ghost predicate ThumbTargetAt(s: string, j: nat, e: nat) {
    j + 3 < e < |s| && PrefixAt(s, j, "]](") && IsWatchUrl(s[j + 3..e]) && s[e] == ')'
  }

  /** White space from a, `<br>` at b, white space, `[**` at c. */
  ghost predicate LineBreakAt(s: string, a: nat, b: nat, c: nat) {
    a <= b && b + 4 <= c && c + 3 <= |s| && AllWhiteSpace(s[a..b]) && PrefixAt(s, b, "<br>")
    && AllWhiteSpace(s[b + 4..c]) && PrefixAt(s, c, "[**")
  }

  /** Where the parts of a card end, once the lazy alt text is chosen. */
  datatype CardParts = CardParts(altEnd: nat, urlEnd: nat, brAt: nat, captionAt: nat, titleEnd: nat)

  ghost predicate CardPartsAt(s: string, i: nat, p: CardParts) {
    && i + 3 <= p.altEnd <= |s| && PrefixAt(s, i, "[![") && NoLineTerminator(s[i + 3..p.altEnd])
    && ThumbTargetAt(s, p.altEnd, p.urlEnd)
    && LineBreakAt(s, p.urlEnd + 1, p.brAt, p.captionAt)
    && p.captionAt + 3 <= p.titleEnd <= |s| && NoLineTerminator(s[p.captionAt + 3..p.titleEnd])
    && PrefixAt(s, p.titleEnd, "**](" + s[p.altEnd + 3..p.urlEnd] + ")")
  }

  /** `(.*?)\*\*\]\(\1\)`: the end of the shortest title from t0 that is followed by `**](url)`. */
  function CardTitle(s: string, url: string, t0: nat, t: nat): (r: Option<nat>)
    requires t0 <= t <= |s| && NoLineTerminator(s[t0..t])
    ensures r.Some? ==> && t <= r.value <= |s| && NoLineTerminator(s[t0..r.value])
                        && PrefixAt(s, r.value, "**](" + url + ")")
    decreases |s| - t
  {
    if PrefixAt(s, t, "**](" + url + ")") then Some(t)
    else if t < |s| && !IsLineTerminator(s[t]) then
      assert s[t0..t + 1] == s[t0..t] + [s[t]];
      CardTitle(s, url, t0, t + 1)
    else None
  }

  /** `\]\]\((https:\/\/www\.youtube\.com\/watch\?v=[^)\s]+)\)` at j: where the URL ends. */
  function ThumbTarget(s: string, j: nat): (r: Option<nat>)
    ensures r.Some? ==> ThumbTargetAt(s, j, r.value)
  {
    if !PrefixAt(s, j, "]](") || !PrefixAt(s, j + 3, WatchPrefix) then None
    else
      var q := j + 3 + |WatchPrefix|;
      var e := RunEnd(s, q, UrlChar);
      if e == q || e == |s| || s[e] != ')' then None
      else
        assert s[j + 3..e][..|WatchPrefix|] == s[j + 3..q];
        assert s[j + 3..e][|WatchPrefix|..] == s[q..e];
        Some(e)
  }

  /** `\s*<br>\s*\[\*\*` from a: where `<br>` and `[**` start. */
  function LineBreak(s: string, a: nat): (r: Option<(nat, nat)>)
    requires a <= |s|
    ensures r.Some? ==> LineBreakAt(s, a, r.value.0, r.value.1)
  {
    var b := RunEnd(s, a, Space);
    if !PrefixAt(s, b, "<br>") then None
    else
      var c := RunEnd(s, b + 4, Space);
      if !PrefixAt(s, c, "[**") then None
      else
        assert AllWhiteSpace(s[a..b]) && AllWhiteSpace(s[b + 4..c]);
        Some((b, c))
  }

  /** Everything after the alt text, which is taken to end at j. */
  function CardAfterAlt(s: string, i: nat, j: nat): (r: Option<CardParts>)
    requires PrefixAt(s, i, "[![") && i + 3 <= j <= RunEnd(s, i + 3, Dot)
    ensures r.Some? ==> r.value.altEnd == j && CardPartsAt(s, i, r.value)
  {
    match ThumbTarget(s, j)
    case None => None
    case Some(e) => CardAfterThumb(s, i, j, e)
  }

  /** Everything after the thumbnail link, which ends at e. */
  function CardAfterThumb(s: string, i: nat, j: nat, e: nat): (r: Option<CardParts>)
    requires PrefixAt(s, i, "[![") && i + 3 <= j <= RunEnd(s, i + 3, Dot)
    requires ThumbTargetAt(s, j, e)
    ensures r.Some? ==> r.value.altEnd == j && CardPartsAt(s, i, r.value)
  {
    match LineBreak(s, e + 1)
    case None => None
    case Some((b, c)) => CardAfterBreak(s, i, j, e, b, c)
  }

  /** The title, after the `<br>` at b and the `[**` at c. */
  function CardAfterBreak(s: string, i: nat, j: nat, e: nat, b: nat, c: nat): (r: Option<CardParts>)
    requires PrefixAt(s, i, "[![") && i + 3 <= j <= RunEnd(s, i + 3, Dot)
    requires ThumbTargetAt(s, j, e) && LineBreakAt(s, e + 1, b, c)
    ensures r.Some? ==> r.value.altEnd == j && CardPartsAt(s, i, r.value)
  {
    match CardTitle(s, s[j + 3..e], c + 3, c + 3)
    case None => None
    case Some(t) =>
      LineRun(s, i + 3, j);
      CardPartsFrom(s, i, j, e, b, c, t);
      Some(CardParts(j, e, b, c, t))
  }

  /** The parts found one after the other make up a card. */
  lemma CardPartsFrom(s: string, i: nat, j: nat, e: nat, b: nat, c: nat, t: nat)
    requires i + 3 <= j <= |s| && PrefixAt(s, i, "[![") && NoLineTerminator(s[i + 3..j])
    requires ThumbTargetAt(s, j, e) && LineBreakAt(s, e + 1, b, c)
    requires c + 3 <= t <= |s| && NoLineTerminator(s[c + 3..t]) && PrefixAt(s, t, "**](" + s[j + 3..e] + ")")
    ensures CardPartsAt(s, i, CardParts(j, e, b, c, t))
  {
  }

  /** The alt text may end at p: p is on the line and the rest of the card matches after it. */
  predicate AltEndsAt(s: string, i: nat, p: nat)
  {
    && PrefixAt(s, i, "[![") && i + 3 <= p <= RunEnd(s, i + 3, Dot)
    && CardAfterAlt(s, i, p).Some?
  }

  /**
   * `\[!\[.*?` and the rest: the lazy alt text is tried at every length from
   * the shortest up to the end of the line, and the first length after which
   * the rest of the card matches is taken. No shorter alt text works, and when
   * no card is found, no alt text on the line works.
   */
  function CardAlt(s: string, i: nat): (r: Option<CardParts>)
    requires PrefixAt(s, i, "[![")
    ensures r.Some? ==> && i + 3 <= r.value.altEnd <= RunEnd(s, i + 3, Dot) && CardPartsAt(s, i, r.value)
                        && forall p :: i + 3 <= p < r.value.altEnd ==> CardAfterAlt(s, i, p).None?
    ensures r.None? ==> forall p :: i + 3 <= p <= RunEnd(s, i + 3, Dot) ==> CardAfterAlt(s, i, p).None?
  {
    var e := RunEnd(s, i + 3, Dot);
    var ends := (p: nat) => AltEndsAt(s, i, p);
    assert forall p: nat :: ends(p) == AltEndsAt(s, i, p);
    match FirstWhere(ends, i + 3, e)
    case None =>
      NoAltEnds(s, i, ends, i + 3, e + 1);
      None
    case Some(j) =>
      NoAltEnds(s, i, ends, i + 3, j);
      CardAfterAlt(s, i, j)
  }

  /** Positions at which the alt text does not end, seen through `CardAfterAlt`. */
  lemma NoAltEnds(s: string, i: nat, ends: nat -> bool, lo: nat, hi: nat)
    requires PrefixAt(s, i, "[![") && i + 3 <= lo && hi <= RunEnd(s, i + 3, Dot) + 1
    requires forall p: nat :: ends(p) == AltEndsAt(s, i, p)
    requires forall p :: lo <= p < hi ==> !ends(p)
    ensures forall p :: lo <= p < hi ==> CardAfterAlt(s, i, p).None?
  {
    forall p | lo <= p < hi ensures CardAfterAlt(s, i, p).None? {
      assert !ends(p);
    }
  }

  /** The parts of a card laid end to end spell out the card. */
  lemma CardTextAt(s: string, i: nat, p: CardParts)
    requires i + 3 <= p.altEnd && p.altEnd + 3 <= p.urlEnd && p.urlEnd + 1 <= p.brAt
    requires p.brAt + 4 <= p.captionAt && p.captionAt + 3 <= p.titleEnd
    requires PrefixAt(s, i, "[![") && PrefixAt(s, p.altEnd, "]](") && p.urlEnd < |s| && s[p.urlEnd] == ')'
    requires PrefixAt(s, p.brAt, "<br>") && PrefixAt(s, p.captionAt, "[**")
    requires PrefixAt(s, p.titleEnd, "**](" + s[p.altEnd + 3..p.urlEnd] + ")")
    ensures var url := s[p.altEnd + 3..p.urlEnd];
            p.titleEnd + |url| + 5 <= |s| &&
            s[i..p.titleEnd + |url| + 5]
            == CardText(s[i + 3..p.altEnd], url, s[p.urlEnd + 1..p.brAt], s[p.brAt + 4..p.captionAt],
                        s[p.captionAt + 3..p.titleEnd])
  {
    var url := s[p.altEnd + 3..p.urlEnd];
    var alt := s[i + 3..p.altEnd];
    var ws1 := s[p.urlEnd + 1..p.brAt];
    var ws2 := s[p.brAt + 4..p.captionAt];
    var title := s[p.captionAt + 3..p.titleEnd];
    var tail := "**](" + url + ")";
    assert |tail| == |url| + 5;
    CardHead(s, i, p);
    var head := "[![" + alt + "]](" + url + ")" + ws1;
    Extend(s, i, p.brAt, p.brAt + 4, head, "<br>");
    Extend(s, i, p.brAt + 4, p.captionAt, head + "<br>", ws2);
    Extend(s, i, p.captionAt, p.captionAt + 3, head + "<br>" + ws2, "[**");
    Extend(s, i, p.captionAt + 3, p.titleEnd, head + "<br>" + ws2 + "[**", title);
    Extend(s, i, p.titleEnd, p.titleEnd + |tail|, head + "<br>" + ws2 + "[**" + title, tail);
  }

  /** The thumbnail link of a card and the blanks after it. */
  lemma CardHead(s: string, i: nat, p: CardParts)
    requires i + 3 <= p.altEnd && p.altEnd + 3 <= p.urlEnd && p.urlEnd + 1 <= p.brAt <= |s|
    requires PrefixAt(s, i, "[![") && PrefixAt(s, p.altEnd, "]](") && s[p.urlEnd] == ')'
    ensures s[i..p.brAt] == "[![" + s[i + 3..p.altEnd] + "]](" + s[p.altEnd + 3..p.urlEnd] + ")" + s[p.urlEnd + 1..p.brAt]
  {
    var url := s[p.altEnd + 3..p.urlEnd];
    var alt := s[i + 3..p.altEnd];
    var ws1 := s[p.urlEnd + 1..p.brAt];
    Extend(s, i, i + 3, p.altEnd, "[![", alt);
    Extend(s, i, p.altEnd, p.altEnd + 3, "[![" + alt, "]](");
    Extend(s, i, p.altEnd + 3, p.urlEnd, "[![" + alt + "]](", url);
    Extend(s, i, p.urlEnd, p.urlEnd + 1, "[![" + alt + "]](" + url, ")");
    Extend(s, i, p.urlEnd + 1, p.brAt, "[![" + alt + "]](" + url + ")", ws1);
  }

  lemma CardPartsMakeCard(s: string, i: nat, p: CardParts)
    requires CardPartsAt(s, i, p)
    ensures var url := s[p.altEnd + 3..p.urlEnd];
            && p.titleEnd + |url| + 5 <= |s|
            && IsCard(s[i..p.titleEnd + |url| + 5], url, s[p.captionAt + 3..p.titleEnd])
  {
    CardTextAt(s, i, p);
    CardTextIsCard(s[i + 3..p.altEnd], s[p.altEnd + 3..p.urlEnd], s[p.urlEnd + 1..p.brAt],
                   s[p.brAt + 4..p.captionAt], s[p.captionAt + 3..p.titleEnd]);
  }

  /** The card's link is a watch URL and its caption stays on one line. */
  lemma CardPartsGroups(s: string, i: nat, p: CardParts)
    requires CardPartsAt(s, i, p)
    ensures IsWatchUrl(s[p.altEnd + 3..p.urlEnd]) && NoLineTerminator(s[p.captionAt + 3..p.titleEnd])
  {
  }

  lemma CardTextIsCard(alt: string, url: string, ws1: string, ws2: string, title: string)
    requires NoLineTerminator(alt) && AllWhiteSpace(ws1) && AllWhiteSpace(ws2)
    ensures IsCard(CardText(alt, url, ws1, ws2, title), url, title)
  {
  }

  /** The card expression anchored at i. */
  function VideoCardAt(s: string, i: nat): (r: Option<Match>)
    ensures r.Some? ==> && r.value.start == i && i < r.value.end <= |s| && |r.value.groups| == 2
                        && IsWatchUrl(r.value.groups[0]) && NoLineTerminator(r.value.groups[1])
                        && IsCard(s[i..r.value.end], r.value.groups[0], r.value.groups[1])
  {
    if !PrefixAt(s, i, "[![") then None
    else
      match CardAlt(s, i)
      case None => None
      case Some(p) => Some(CardMatch(s, i, p))
  }

  /** The match for a card found at i: it spans the card, group 1 is the URL and group 2 the caption. */
  function CardMatch(s: string, i: nat, p: CardParts): (m: Match)
    requires CardPartsAt(s, i, p)
    ensures && m.start == i && i < m.end <= |s| && |m.groups| == 2
            && IsWatchUrl(m.groups[0]) && NoLineTerminator(m.groups[1])
            && IsCard(s[i..m.end], m.groups[0], m.groups[1])
  {
    var url := s[p.altEnd + 3..p.urlEnd];
    var title := s[p.captionAt + 3..p.titleEnd];
    CardPartsGroups(s, i, p);
    CardPartsMakeCard(s, i, p);
    Match(i, p.titleEnd + |url| + 5, [url, title])
  }

  /** `.*?\*\*` from k0: the first `**` on the rest of the line, searched from k on. */
  function StarsFrom(s: string, k0: nat, k: nat): (r: Option<nat>)
    requires k0 <= k <= |s| && NoLineTerminator(s[k0..k])
    ensures r.Some? ==> && k <= r.value && r.value + 2 <= |s|
                        && NoLineTerminator(s[k0..r.value]) && PrefixAt(s, r.value, "**")
    decreases |s| - k
  {
    if PrefixAt(s, k, "**") then Some(k)
    else if k < |s| && !IsLineTerminator(s[k]) then
      assert s[k0..k + 1] == s[k0..k] + [s[k]];
      StarsFrom(s, k0, k + 1)
    else None
  }

  /** A greedy optional `c?` at k: where it stops. */
  function SkipOptional(s: string, k: nat, c: char): (r: nat)
    requires k <= |s|
    ensures r <= |s| && (r == k || (r == k + 1 && s[k] == c))
    ensures k < |s| && s[k] == c ==> r == k + 1
  {
    if k < |s| && s[k] == c then k + 1 else k
  }

  /** A fallback match: the watch URL, any text up to the first `**` of the line, then `]` and `)` when present. */
  function WatchText(url: string, gap: string, close: string): string {
    url + gap + "**" + close
  }

  ghost predicate IsWatchMatch(t: string, url: string) {
    exists gap, close :: && NoLineTerminator(gap) && (close == "" || close == "]" || close == ")" || close == "])")
                         && t == WatchText(url, gap, close)
  }

  /** The fallback expression anchored at i. */
  function WatchUrlAt(s: string, i: nat): (r: Option<Match>)
    ensures r.Some? ==> && r.value.start == i && i < r.value.end <= |s| && |r.value.groups| == 2
                        && r.value.groups[0] == WatchPrefix + r.value.groups[1]
                        && |r.value.groups[1]| >= 6 && AllIn(r.value.groups[1], VideoIdChar)
                        && IsWatchMatch(s[i..r.value.end], r.value.groups[0])
  {
    if !PrefixAt(s, i, WatchPrefix) then None
    else
      var q := i + |WatchPrefix|;
      var e := RunEnd(s, q, VideoIdChar);
      if e - q < 6 then None
      else
        assert s[e..e] == [];
        match StarsFrom(s, e, e)
        case None => None
        case Some(k) =>
          var c := SkipOptional(s, k + 2, ']');
          var f := SkipOptional(s, c, ')');
          WatchTextAt(s, i, q, e, k, f);
          Some(Match(i, f, [s[i..e], s[q..e]]))
  }

  lemma WatchTextAt(s: string, i: nat, q: nat, e: nat, k: nat, f: nat)
    requires i + |WatchPrefix| == q <= e <= k && k + 2 <= f <= |s| && f <= k + 4
    requires PrefixAt(s, i, WatchPrefix) && PrefixAt(s, k, "**") && NoLineTerminator(s[e..k])
    requires f == k + 3 ==> s[k + 2] == ']' || s[k + 2] == ')'
    requires f == k + 4 ==> s[k + 2] == ']' && s[k + 3] == ')'
    ensures s[i..e] == WatchPrefix + s[q..e]
    ensures IsWatchMatch(s[i..f], s[i..e])
  {
    Extend(s, i, q, e, WatchPrefix, s[q..e]);
    var close := s[k + 2..f];
    assert close == "" || close == "]" || close == ")" || close == "])";
    Extend(s, i, e, k, s[i..e], s[e..k]);
    Extend(s, i, k, k + 2, s[i..e] + s[e..k], "**");
    Extend(s, i, k + 2, f, s[i..e] + s[e..k] + "**", close);
    assert s[i..f] == WatchText(s[i..e], s[e..k], close);
  }

  // The lazy searches stop at the first place that works.

  lemma CardTitleStep(s: string, url: string, t0: nat, t: nat)
    requires t0 <= t <= |s| && NoLineTerminator(s[t0..t])
    ensures PrefixAt(s, t, "**](" + url + ")") ==> CardTitle(s, url, t0, t) == Some(t)
    ensures !PrefixAt(s, t, "**](" + url + ")") && t < |s| && !IsLineTerminator(s[t]) ==>
              NoLineTerminator(s[t0..t + 1]) && CardTitle(s, url, t0, t) == CardTitle(s, url, t0, t + 1)
    ensures !PrefixAt(s, t, "**](" + url + ")") && (t == |s| || IsLineTerminator(s[t])) ==>
              CardTitle(s, url, t0, t).None?
  {
    if t < |s| {
      assert s[t0..t + 1] == s[t0..t] + [s[t]];
    }
  }

  /** The title ends at the first `**](url)` of the line: none starts before
      it, and when none is found, none starts anywhere on the rest of the line. */
  lemma CardTitleFirst(s: string, url: string, t0: nat, t: nat)
    requires t0 <= t <= |s| && NoLineTerminator(s[t0..t])
    ensures CardTitle(s, url, t0, t).Some? ==>
              forall j :: t <= j < CardTitle(s, url, t0, t).value ==> !PrefixAt(s, j, "**](" + url + ")")
    ensures CardTitle(s, url, t0, t).None? ==>
              forall j :: t <= j <= |s| && NoLineTerminator(s[t..j]) ==> !PrefixAt(s, j, "**](" + url + ")")
  {
    if CardTitle(s, url, t0, t).Some? {
      forall j | t <= j < CardTitle(s, url, t0, t).value ensures !PrefixAt(s, j, "**](" + url + ")") {
        NoTitleEndBefore(s, url, t0, t, CardTitle(s, url, t0, t).value, j);
      }
    } else {
      forall j | t <= j <= |s| && NoLineTerminator(s[t..j]) ensures !PrefixAt(s, j, "**](" + url + ")") {
        NoTitleEndOnLine(s, url, t0, t, j);
      }
    }
  }

  lemma {:induction false} NoTitleEndBefore(s: string, url: string, t0: nat, t: nat, r: nat, j: nat)
    requires t0 <= t <= |s| && NoLineTerminator(s[t0..t])
    requires CardTitle(s, url, t0, t) == Some(r) && t <= j < r
    ensures !PrefixAt(s, j, "**](" + url + ")")
    decreases j - t
  {
    CardTitleStep(s, url, t0, t);
    if t < j {
      NoTitleEndBefore(s, url, t0, t + 1, r, j);
    }
  }

  lemma {:induction false} NoTitleEndOnLine(s: string, url: string, t0: nat, t: nat, j: nat)
    requires t0 <= t <= |s| && NoLineTerminator(s[t0..t])
    requires CardTitle(s, url, t0, t).None? && t <= j <= |s| && NoLineTerminator(s[t..j])
    ensures !PrefixAt(s, j, "**](" + url + ")")
    decreases j - t
  {
    CardTitleStep(s, url, t0, t);
    if t < j {
      assert s[t] == s[t..j][0];
      assert s[t + 1..j] == s[t..j][1..];
      NoTitleEndOnLine(s, url, t0, t + 1, j);
    }
  }

  /** A `**](url)` further on the line is reached by the title search. */
  lemma {:induction false} CardTitleReaches(s: string, url: string, t0: nat, t: nat, t': nat)
    requires t0 <= t <= t' <= |s| && NoLineTerminator(s[t0..t']) && PrefixAt(s, t', "**](" + url + ")")
    ensures NoLineTerminator(s[t0..t]) && CardTitle(s, url, t0, t).Some?
    decreases t' - t
  {
    assert forall k :: 0 <= k < t - t0 ==> s[t0..t][k] == s[t0..t'][k];
    CardTitleStep(s, url, t0, t);
    if !PrefixAt(s, t, "**](" + url + ")") {
      assert s[t] == s[t0..t'][t - t0];
      CardTitleReaches(s, url, t0, t + 1, t');
    }
  }

  lemma StarsFromStep(s: string, k0: nat, k: nat)
    requires k0 <= k <= |s| && NoLineTerminator(s[k0..k])
    ensures PrefixAt(s, k, "**") ==> StarsFrom(s, k0, k) == Some(k)
    ensures !PrefixAt(s, k, "**") && k < |s| && !IsLineTerminator(s[k]) ==>
              NoLineTerminator(s[k0..k + 1]) && StarsFrom(s, k0, k) == StarsFrom(s, k0, k + 1)
    ensures !PrefixAt(s, k, "**") && (k == |s| || IsLineTerminator(s[k])) ==> StarsFrom(s, k0, k).None?
  {
    if k < |s| {
      assert s[k0..k + 1] == s[k0..k] + [s[k]];
    }
  }

  /** `.*?\*\*` stops at the first `**` of the line: none starts before it,
      and when none is found, none starts anywhere on the rest of the line. */
  lemma StarsFromFirst(s: string, k0: nat, k: nat)
    requires k0 <= k <= |s| && NoLineTerminator(s[k0..k])
    ensures StarsFrom(s, k0, k).Some? ==> forall j :: k <= j < StarsFrom(s, k0, k).value ==> !PrefixAt(s, j, "**")
    ensures StarsFrom(s, k0, k).None? ==> forall j :: k <= j <= |s| && NoLineTerminator(s[k..j]) ==> !PrefixAt(s, j, "**")
  {
    if StarsFrom(s, k0, k).Some? {
      forall j | k <= j < StarsFrom(s, k0, k).value ensures !PrefixAt(s, j, "**") {
        NoStarsBefore(s, k0, k, StarsFrom(s, k0, k).value, j);
      }
    } else {
      forall j | k <= j <= |s| && NoLineTerminator(s[k..j]) ensures !PrefixAt(s, j, "**") {
        NoStarsOnLine(s, k0, k, j);
      }
    }
  }

  lemma {:induction false} NoStarsBefore(s: string, k0: nat, k: nat, r: nat, j: nat)
    requires k0 <= k <= |s| && NoLineTerminator(s[k0..k])
    requires StarsFrom(s, k0, k) == Some(r) && k <= j < r
    ensures !PrefixAt(s, j, "**")
    decreases j - k
  {
    StarsFromStep(s, k0, k);
    if k < j {
      NoStarsBefore(s, k0, k + 1, r, j);
    }
  }

  lemma {:induction false} NoStarsOnLine(s: string, k0: nat, k: nat, j: nat)
    requires k0 <= k <= |s| && NoLineTerminator(s[k0..k])
    requires StarsFrom(s, k0, k).None? && k <= j <= |s| && NoLineTerminator(s[k..j])
    ensures !PrefixAt(s, j, "**")
    decreases j - k
  {
    StarsFromStep(s, k0, k);
    if k < j {
      assert s[k] == s[k..j][0];
      assert s[k + 1..j] == s[k..j][1..];
      NoStarsOnLine(s, k0, k + 1, j);
    }
  }

  /** A `**` further on the line is reached by the search. */
  lemma {:induction false} StarsFromReaches(s: string, k0: nat, k: nat, k': nat)
    requires k0 <= k <= k' <= |s| && NoLineTerminator(s[k0..k']) && PrefixAt(s, k', "**")
    ensures NoLineTerminator(s[k0..k]) && StarsFrom(s, k0, k).Some?
    decreases k' - k
  {
    assert forall i :: 0 <= i < k - k0 ==> s[k0..k][i] == s[k0..k'][i];
    StarsFromStep(s, k0, k);
    if !PrefixAt(s, k, "**") {
      assert s[k] == s[k0..k'][k - k0];
      StarsFromReaches(s, k0, k + 1, k');
    }
  }

  /** The whole shape of a fallback match: the id run is as long as it goes,
      the gap up to the first `**` of the line, then `]` and `)` taken when present. */
  lemma WatchUrlShape(s: string, i: nat)
    requires WatchUrlAt(s, i).Some?
    ensures var m := WatchUrlAt(s, i).value;
            var e := i + |m.groups[0]|;
            && e <= |s| && (e == |s| || !InClass(s[e], VideoIdChar))
            && exists k :: && e <= k && k + 2 <= |s| && PrefixAt(s, k, "**") && NoLineTerminator(s[e..k])
                           && (forall j :: e <= j < k ==> !PrefixAt(s, j, "**"))
                           && m.end == SkipOptional(s, SkipOptional(s, k + 2, ']'), ')')
  {
    var q := i + |WatchPrefix|;
    var e := RunEnd(s, q, VideoIdChar);
    assert s[e..e] == [];
    var k := StarsFrom(s, e, e).value;
    StarsFromFirst(s, e, e);
    assert WatchUrlAt(s, i).value.groups[0] == s[i..e];
    assert e <= k && k + 2 <= |s| && PrefixAt(s, k, "**") && NoLineTerminator(s[e..k]);
  }

  /** A watch URL with an id of six or more characters, then text on the same
      line up to a `**`, is found by the fallback expression. */
  lemma WatchUrlWhole(s: string, x: nat, id: string, gap: string)
    requires PrefixAt(s, x, WatchPrefix + id + gap + "**")
    requires |id| >= 6 && AllIn(id, VideoIdChar) && NoLineTerminator(gap)
    requires gap == [] || !InClass(gap[0], VideoIdChar)
    ensures WatchUrlAt(s, x).Some? && WatchUrlAt(s, x).value.groups == [WatchPrefix + id, id]
  {
    var q := x + |WatchPrefix|;
    var e := q + |id|;
    var k := e + |gap|;
    WatchPieces(s, x, q, e, k, id, gap);
    RunEndIs(s, q, e, VideoIdChar);
    assert s[e..e] == [];
    StarsFromReaches(s, e, e, k);
    assert s[x..e] == WatchPrefix + id;
  }

  lemma WatchPieces(s: string, x: nat, q: nat, e: nat, k: nat, id: string, gap: string)
    requires q == x + |WatchPrefix| && e == q + |id| && k == e + |gap|
    requires PrefixAt(s, x, WatchPrefix + id + gap + "**") && AllIn(id, VideoIdChar)
    requires gap == [] || !InClass(gap[0], VideoIdChar)
    ensures k + 2 <= |s| && PrefixAt(s, x, WatchPrefix) && s[x..e] == WatchPrefix + id && s[q..e] == id
    ensures forall p :: q <= p < e ==> InClass(s[p], VideoIdChar)
    ensures !InClass(s[e], VideoIdChar) && s[e..k] == gap && PrefixAt(s, k, "**")
  {
    PrefixSplit(s, x, WatchPrefix + id + gap, "**");
    PrefixSplit(s, x, WatchPrefix + id, gap);
    PrefixSplit(s, x, WatchPrefix, id);
    IdRun(s, q, e, id);
    if gap == [] {
      assert s[e] == s[k..k + 2][0];
    } else {
      assert s[e] == s[e..k][0];
    }
  }

  lemma IdRun(s: string, q: nat, e: nat, id: string)
    requires q <= e <= |s| && s[q..e] == id && AllIn(id, VideoIdChar)
    ensures forall p :: q <= p < e ==> InClass(s[p], VideoIdChar)
  {
    forall p | q <= p < e ensures InClass(s[p], VideoIdChar) {
      assert s[p] == id[p - q];
    }
  }

  /** A card written out on one line, with a watch URL, is found by the card expression. */
  lemma VideoCardWhole(s: string, x: nat, alt: string, url: string, ws1: string, ws2: string, title: string)
    requires PrefixAt(s, x, CardText(alt, url, ws1, ws2, title))
    requires NoLineTerminator(alt) && AllWhiteSpace(ws1) && AllWhiteSpace(ws2)
    requires NoLineTerminator(title) && IsWatchUrl(url)
    ensures VideoCardAt(s, x).Some?
  {
    var j := x + 3 + |alt|;
    var e := j + 3 + |url|;
    var b := e + 1 + |ws1|;
    var c := b + 4 + |ws2|;
    var t := c + 3 + |title|;
    CardAltFound(s, x, j, e, b, c, t, alt, url, ws1, ws2, title);
    CardThumbFound(s, x, j, e, b, c, t, alt, url, ws1, ws2, title);
    CardBreakFound(s, x, j, e, b, c, t, alt, url, ws1, ws2, title);
    CardTitleFound(s, x, j, e, b, c, t, alt, url, ws1, ws2, title);
    VideoCardOfParts(s, x, j, e, b, c, CardTitle(s, s[j + 3..e], c + 3, c + 3).value);
  }

  lemma CardAltFound(s: string, x: nat, j: nat, e: nat, b: nat, c: nat, t: nat,
                     alt: string, url: string, ws1: string, ws2: string, title: string)
    requires j == x + 3 + |alt| && e == j + 3 + |url| && b == e + 1 + |ws1| && c == b + 4 + |ws2| && t == c + 3 + |title|
    requires PrefixAt(s, x, CardText(alt, url, ws1, ws2, title)) && NoLineTerminator(alt)
    ensures PrefixAt(s, x, "[![") && x + 3 <= j <= RunEnd(s, x + 3, Dot) && j < |s|
  {
    CardTailPieces(s, x, b, c, t, alt, url, ws1, ws2, title);
    CardHeadPieces(s, x, j, e, b, alt, url, ws1);
    LineRun(s, x + 3, j);
  }

  lemma CardThumbFound(s: string, x: nat, j: nat, e: nat, b: nat, c: nat, t: nat,
                       alt: string, url: string, ws1: string, ws2: string, title: string)
    requires j == x + 3 + |alt| && e == j + 3 + |url| && b == e + 1 + |ws1| && c == b + 4 + |ws2| && t == c + 3 + |title|
    requires PrefixAt(s, x, CardText(alt, url, ws1, ws2, title)) && IsWatchUrl(url)
    ensures ThumbTarget(s, j) == Some(e)
  {
    CardTailPieces(s, x, b, c, t, alt, url, ws1, ws2, title);
    CardHeadPieces(s, x, j, e, b, alt, url, ws1);
    ThumbTargetWhole(s, j, e, url);
  }

  lemma CardBreakFound(s: string, x: nat, j: nat, e: nat, b: nat, c: nat, t: nat,
                       alt: string, url: string, ws1: string, ws2: string, title: string)
    requires j == x + 3 + |alt| && e == j + 3 + |url| && b == e + 1 + |ws1| && c == b + 4 + |ws2| && t == c + 3 + |title|
    requires PrefixAt(s, x, CardText(alt, url, ws1, ws2, title)) && AllWhiteSpace(ws1) && AllWhiteSpace(ws2)
    ensures LineBreak(s, e + 1) == Some((b, c))
  {
    CardTailPieces(s, x, b, c, t, alt, url, ws1, ws2, title);
    CardHeadPieces(s, x, j, e, b, alt, url, ws1);
    LineBreakWhole(s, e + 1, b, c, ws1, ws2);
  }

  lemma CardTitleFound(s: string, x: nat, j: nat, e: nat, b: nat, c: nat, t: nat,
                       alt: string, url: string, ws1: string, ws2: string, title: string)
    requires j == x + 3 + |alt| && e == j + 3 + |url| && b == e + 1 + |ws1| && c == b + 4 + |ws2| && t == c + 3 + |title|
    requires PrefixAt(s, x, CardText(alt, url, ws1, ws2, title)) && NoLineTerminator(title)
    ensures j + 3 <= e <= |s| && c + 3 <= |s| && CardTitle(s, s[j + 3..e], c + 3, c + 3).Some?
  {
    CardTailPieces(s, x, b, c, t, alt, url, ws1, ws2, title);
    CardHeadPieces(s, x, j, e, b, alt, url, ws1);
    CardTitleWhole(s, j, e, c, t, url, title);
  }

  lemma CardTitleWhole(s: string, j: nat, e: nat, c: nat, t: nat, url: string, title: string)
    requires j + 3 <= e <= |s| && s[j + 3..e] == url
    requires c + 3 <= t <= |s| && s[c + 3..t] == title && NoLineTerminator(title) && PrefixAt(s, t, "**](" + url + ")")
    ensures CardTitle(s, s[j + 3..e], c + 3, c + 3).Some?
  {
    CardTitleReaches(s, url, c + 3, c + 3, t);
  }

  /** The card expression finds a card once each of its parts is found after an alt text on the line. */
  lemma VideoCardOfParts(s: string, x: nat, j: nat, e: nat, b: nat, c: nat, t: nat)
    requires PrefixAt(s, x, "[![") && x + 3 <= j <= RunEnd(s, x + 3, Dot)
    requires ThumbTarget(s, j) == Some(e) && LineBreak(s, e + 1) == Some((b, c))
    requires CardTitle(s, s[j + 3..e], c + 3, c + 3) == Some(t)
    ensures VideoCardAt(s, x).Some?
  {
    CardAfterAltSome(s, x, j, e, b, c, t);
    VideoCardOfAlt(s, x, j);
  }

  /** When the rest of the card matches after some alt text on the line, the card expression finds a card at x. */
  lemma VideoCardOfAlt(s: string, x: nat, j: nat)
    requires PrefixAt(s, x, "[![") && x + 3 <= j <= RunEnd(s, x + 3, Dot) && CardAfterAlt(s, x, j).Some?
    ensures VideoCardAt(s, x).Some?
  {
  }

  lemma CardTailPieces(s: string, x: nat, b: nat, c: nat, t: nat,
                       alt: string, url: string, ws1: string, ws2: string, title: string)
    requires b == x + 3 + |alt| + 3 + |url| + 1 + |ws1| && c == b + 4 + |ws2| && t == c + 3 + |title|
    requires PrefixAt(s, x, CardText(alt, url, ws1, ws2, title))
    ensures PrefixAt(s, x, "[![" + alt + "]](" + url + ")" + ws1)
    ensures PrefixAt(s, b, "<br>") && s[b + 4..c] == ws2 && PrefixAt(s, c, "[**")
    ensures s[c + 3..t] == title && PrefixAt(s, t, "**](" + url + ")")
  {
    var head := "[![" + alt + "]](" + url + ")" + ws1;
    PrefixSplit(s, x, head + "<br>" + ws2 + "[**" + title, "**](" + url + ")");
    PrefixSplit(s, x, head + "<br>" + ws2 + "[**", title);
    PrefixSplit(s, x, head + "<br>" + ws2, "[**");
    PrefixSplit(s, x, head + "<br>", ws2);
    PrefixSplit(s, x, head, "<br>");
  }

  lemma CardHeadPieces(s: string, x: nat, j: nat, e: nat, b: nat, alt: string, url: string, ws1: string)
    requires j == x + 3 + |alt| && e == j + 3 + |url| && b == e + 1 + |ws1|
    requires PrefixAt(s, x, "[![" + alt + "]](" + url + ")" + ws1)
    ensures PrefixAt(s, x, "[![") && s[x + 3..j] == alt && PrefixAt(s, j, "]](") && s[j + 3..e] == url
    ensures e < |s| && s[e] == ')' && s[e + 1..b] == ws1
  {
    PrefixSplit(s, x, "[![" + alt + "]](" + url + ")", ws1);
    PrefixSplit(s, x, "[![" + alt + "]](" + url, ")");
    PrefixSplit(s, x, "[![" + alt + "]](", url);
    PrefixSplit(s, x, "[![" + alt, "]](");
    PrefixSplit(s, x, "[![", alt);
    assert s[e] == s[e..e + 1][0];
  }

  lemma ThumbTargetWhole(s: string, j: nat, e: nat, url: string)
    requires j + 3 <= e < |s| && PrefixAt(s, j, "]](") && s[j + 3..e] == url && s[e] == ')'
    requires IsWatchUrl(url)
    ensures ThumbTarget(s, j) == Some(e)
  {
    PrefixOfPrefix(s, j + 3, url, WatchPrefix);
    var q := j + 3 + |WatchPrefix|;
    forall k | q <= k < e ensures InClass(s[k], UrlChar) {
      assert s[k] == url[|WatchPrefix|..][k - q];
    }
    RunEndIs(s, q, e, UrlChar);
  }

  lemma LineBreakWhole(s: string, a: nat, b: nat, c: nat, ws1: string, ws2: string)
    requires a <= b <= |s| && s[a..b] == ws1 && AllWhiteSpace(ws1) && PrefixAt(s, b, "<br>")
    requires c == b + 4 + |ws2| <= |s| && s[b + 4..c] == ws2 && AllWhiteSpace(ws2) && PrefixAt(s, c, "[**")
    ensures LineBreak(s, a) == Some((b, c))
  {
    forall k | a <= k < b ensures InClass(s[k], Space) {
      assert s[k] == ws1[k - a];
    }
    assert s[b] == s[b..b + 4][0];
    RunEndIs(s, a, b, Space);
    forall k | b + 4 <= k < c ensures InClass(s[k], Space) {
      assert s[k] == ws2[k - b - 4];
    }
    assert s[c] == s[c..c + 3][0];
    RunEndIs(s, b + 4, c, Space);
  }

  lemma CardAfterAltSome(s: string, i: nat, j: nat, e: nat, b: nat, c: nat, t: nat)
    requires PrefixAt(s, i, "[![") && i + 3 <= j <= RunEnd(s, i + 3, Dot)
    requires ThumbTarget(s, j) == Some(e) && LineBreak(s, e + 1) == Some((b, c))
    requires CardTitle(s, s[j + 3..e], c + 3, c + 3) == Some(t)
    ensures CardAfterAlt(s, i, j).Some?
  {
    CardAfterThumbSome(s, i, j, e, b, c, t);
  }

  lemma CardAfterThumbSome(s: string, i: nat, j: nat, e: nat, b: nat, c: nat, t: nat)
    requires PrefixAt(s, i, "[![") && i + 3 <= j <= RunEnd(s, i + 3, Dot)
    requires ThumbTargetAt(s, j, e) && LineBreak(s, e + 1) == Some((b, c))
    requires CardTitle(s, s[j + 3..e], c + 3, c + 3) == Some(t)
    ensures CardAfterThumb(s, i, j, e).Some?
  {
    CardAfterBreakSome(s, i, j, e, b, c, t);
  }

  lemma CardAfterBreakSome(s: string, i: nat, j: nat, e: nat, b: nat, c: nat, t: nat)
    requires PrefixAt(s, i, "[![") && i + 3 <= j <= RunEnd(s, i + 3, Dot)
    requires ThumbTargetAt(s, j, e) && LineBreakAt(s, e + 1, b, c)
    requires CardTitle(s, s[j + 3..e], c + 3, c + 3) == Some(t)
    ensures CardAfterBreak(s, i, j, e, b, c).Some?
  {
  }
}
