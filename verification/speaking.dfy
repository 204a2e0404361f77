/**
 * `parseSpeakingFromReadme` (script.js:299-310): the talks listed after
 * "Sometimes I speak at conferences", one per `- [title](url)` link.
 */
module Speaking {
  import opened Text
  import opened RegexCore
  import opened RegexExec

  datatype Talk = Talk(title: string, url: string)

  const SpeakingMarker := "Sometimes I speak at conferences"
  /** Only this many characters from the marker on are searched for talks. */
  const SpeakingWindow := 6000
  const MaxTalks := 20

  /** The talk one bullet match gives: group 1 the title, group 2 the URL. */
  function TalkOf(m: Match): Talk
    requires |m.groups| == 2
  {
    Talk(m.groups[0], m.groups[1])
  }

  /** A bullet link written out as `- [title](url)` is read back as that talk. */
  lemma TalkOfWrittenLink(s: string, x: nat, ws: string, title: string, url: string)
    requires PrefixAt(s, x, BulletText(ws, title, url))
    requires AllWhiteSpace(ws) && NoLineTerminator(title) && ']' !in title
    requires IsSchemeUrl(url, NotCloseParen)
    ensures BulletLinkAt(s, x).Some? && TalkOf(BulletLinkAt(s, x).value) == Talk(title, url)
  {
    BulletLinkWhole(s, x, ws, title, url);
  }

  /** The README text the talks are searched in: 6000 characters from the marker on. */
  function TalkWindow(text: string): (w: Option<string>)
    ensures w.None? <==> !Contains(text, SpeakingMarker)
    ensures w.Some? ==> |w.value| <= SpeakingWindow
  {
    var idx := IndexOf(text, SpeakingMarker);
    if idx == -1 then None else Some(Window(text, idx, SpeakingWindow))
  }

  /** The talks the extractor returns: the first twenty bullet links of the window. */
  function ReadmeTalks(text: string): (r: seq<Talk>)
    ensures |r| <= MaxTalks
    ensures !Contains(text, SpeakingMarker) ==> r == []
  {
    match TalkWindow(text)
    case None => []
    case Some(w) => Take(MapMatches(TalkOf, AllMatches(TalkBullet, w, 0)), MaxTalks)
  }

  /** Each talk is the k-th bullet link of the window, in document order: a
      dash, blanks, then `[title](url)` with a title on one line and a URL
      with an explicit http or https scheme and no `)`. */
  lemma ReadmeTalkIsBulletLink(text: string, k: nat)
    requires k < |ReadmeTalks(text)|
    ensures TalkWindow(text).Some?
    ensures var w := TalkWindow(text).value;
            var ms := AllMatches(TalkBullet, w, 0);
            var t := ReadmeTalks(text)[k];
            && k < |ms| && NoLineTerminator(t.title) && IsSchemeUrl(t.url, NotCloseParen)
            && (exists ws :: AllWhiteSpace(ws) && w[ms[k].start..ms[k].end] == BulletText(ws, t.title, t.url))
            && (0 < k ==> ms[k - 1].end <= ms[k].start)
  {
    var w := TalkWindow(text).value;
    var ms := AllMatches(TalkBullet, w, 0);
    assert ReadmeTalks(text) == Take(MapMatches(TalkOf, ms), MaxTalks);
    assert ReadmeTalks(text)[k] == TalkOf(ms[k]);
    assert BulletLinkAt(w, ms[k].start) == Some(ms[k]);
    BulletLinkShape(w, ms[k].start);
  }

  /** No talk is skipped: when fewer than twenty talks come back, every position
      of the window where a bullet link starts lies inside one of them. */
  lemma ReadmeTalksMissNoLink(text: string, x: nat)
    requires |ReadmeTalks(text)| < MaxTalks
    requires TalkWindow(text).Some? && BulletLinkAt(TalkWindow(text).value, x).Some?
    ensures var ms := AllMatches(TalkBullet, TalkWindow(text).value, 0);
            && |ms| == |ReadmeTalks(text)|
            && exists k :: 0 <= k < |ms| && ms[k].start <= x < ms[k].end
  {
    TalksUncut(text);
    BulletLinkCovered(TalkWindow(text).value, x);
  }

  /** A bullet link written in the window is found: it lies inside one of the
      matches, as long as the cap of twenty talks was not reached. */
  lemma ReadmeTalksFindWrittenLink(text: string, x: nat, ws: string, title: string, url: string)
    requires |ReadmeTalks(text)| < MaxTalks && TalkWindow(text).Some?
    requires PrefixAt(TalkWindow(text).value, x, BulletText(ws, title, url))
    requires AllWhiteSpace(ws) && NoLineTerminator(title) && ']' !in title
    requires IsSchemeUrl(url, NotCloseParen)
    ensures var ms := AllMatches(TalkBullet, TalkWindow(text).value, 0);
            exists k :: 0 <= k < |ms| && ms[k].start <= x < ms[k].end
  {
    BulletLinkWhole(TalkWindow(text).value, x, ws, title, url);
    ReadmeTalksMissNoLink(text, x);
  }

  lemma BulletLinkCovered(w: string, x: nat)
    requires BulletLinkAt(w, x).Some?
    ensures exists k :: 0 <= k < |AllMatches(TalkBullet, w, 0)|
                        && AllMatches(TalkBullet, w, 0)[k].start <= x < AllMatches(TalkBullet, w, 0)[k].end
  {
    assert TalkBullet(w, x).Some?;
    AllMatchesCover(TalkBullet, w, 0, x);
  }

  /** Fewer than twenty talks means the cap cut nothing off: one talk per match. */
  lemma TalksUncut(text: string)
    requires |ReadmeTalks(text)| < MaxTalks && TalkWindow(text).Some?
    ensures |AllMatches(TalkBullet, TalkWindow(text).value, 0)| == |ReadmeTalks(text)|
  {
    var w := TalkWindow(text).value;
    assert ReadmeTalks(text) == Take(MapMatches(TalkOf, AllMatches(TalkBullet, w, 0)), MaxTalks);
  }

  method ParseSpeakingFromReadme(readmeText: string) returns (items: seq<Talk>)
    ensures items == ReadmeTalks(readmeText)
  {
    var start := IndexOf(readmeText, SpeakingMarker);
    if start == -1 {
      return [];
    }
    var slice := Window(readmeText, start, SpeakingWindow);
    items := CollectMatches(TalkBullet, slice, MaxTalks, TalkOf);
  }
}
