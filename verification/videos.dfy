/**
 * The video list of the page: `parseVideosFromReadme` (script.js:164-181),
 * the fallback scan for watch URLs followed later on the same line by `**`,
 * and the choice between the two in `fetchVideos` (script.js:191-206).
 */
module Videos {
  import opened Text
  import opened RegexCore
  import opened YouTubeRegex
  import opened RegexExec

  /** One card of the grid; `date` is always null here. */
  datatype Video = Video(url: string, title: string, thumb: string, date: Option<string>)

  const VideosMarker := "Recent YouTube Videos"
  /** Only this many characters from the marker on are searched for cards. */
  const VideosWindow := 8000
  const MaxVideos := 6
  const FallbackTitle := "YouTube Video"

  /** The thumbnail image YouTube serves for a video id. */
  function ThumbnailUrl(id: string): string {
    "https://img.youtube.com/vi/" + id + "/hqdefault.jpg"
  }

  /** Different ids give different thumbnails. */
  lemma ThumbnailUrlInjective(id1: string, id2: string)
    requires ThumbnailUrl(id1) == ThumbnailUrl(id2)
    ensures id1 == id2
  {
    var t1, t2 := ThumbnailUrl(id1), ThumbnailUrl(id2);
    assert t1 == "https://img.youtube.com/vi/" + (id1 + "/hqdefault.jpg");
    assert t2 == "https://img.youtube.com/vi/" + (id2 + "/hqdefault.jpg");
    assert id1 == t1[27..27 + |id1|] == t2[27..27 + |id2|] == id2;
  }

  /** Where the query parameter value that starts at k ends: at the next `&` or `#`. */
  function ParamEnd(s: string, k: nat): (e: nat)
    requires k <= |s|
    ensures k <= e <= |s|
    ensures forall j :: k <= j < e ==> s[j] != '&' && s[j] != '#'
    ensures e < |s| ==> s[e] == '&' || s[e] == '#'
    decreases |s| - k
  {
    if k == |s| || s[k] == '&' || s[k] == '#' then k else ParamEnd(s, k + 1)
  }

  /** `new URL(url).searchParams.get("v")` for a URL that starts with the watch
      prefix, whose query therefore starts with `v=`: the value runs up to the
      next `&` or `#`. */
  function WatchId(url: string): (id: string)
    requires StartsWith(url, WatchPrefix)
    ensures PrefixAt(url, |WatchPrefix|, id)
    ensures '&' !in id && '#' !in id
    ensures |WatchPrefix| + |id| == |url| || url[|WatchPrefix| + |id|] in "&#"
  {
    var e := ParamEnd(url, |WatchPrefix|);
    assert forall j :: 0 <= j < e - |WatchPrefix| ==> url[|WatchPrefix|..e][j] == url[|WatchPrefix| + j];
    url[|WatchPrefix|..e]
  }

  /** An id made of `[A-Za-z0-9_-]` characters is read back whole from its watch URL. */
  lemma WatchIdOfId(id: string)
    requires AllIn(id, VideoIdChar)
    ensures WatchId(WatchPrefix + id) == id
  {
    var url := WatchPrefix + id;
    assert url[..|WatchPrefix|] == WatchPrefix;
    var r := WatchId(url);
    assert url[|WatchPrefix|..] == id;
    assert forall j :: 0 <= j < |id| ==> InClass(id[j], VideoIdChar);
    assert |r| == |id|;
  }

  /** What the README card expression captures, as the card is built from it. */
  predicate IsCardMatch(m: Match) {
    |m.groups| == 2 && IsWatchUrl(m.groups[0])
  }

  lemma CardMatchesAreCards(s: string, lastIndex: nat)
    ensures forall k :: 0 <= k < |AllMatches(VideoCard, s, lastIndex)| ==> IsCardMatch(AllMatches(VideoCard, s, lastIndex)[k])
  {
    var ms := AllMatches(VideoCard, s, lastIndex);
    forall k | 0 <= k < |ms| ensures IsCardMatch(ms[k]) {
      assert VideoCardAt(s, ms[k].start) == Some(ms[k]);
    }
  }

  /** The card the page builds from a card match: the link as URL, the caption
      as title, the thumbnail of the link's id and no date. */
  function CardOf(m: Match): Video
    requires IsCardMatch(m)
  {
    Video(m.groups[0], m.groups[1], ThumbnailUrl(WatchId(m.groups[0])), None)
  }

  /** The README text the cards are searched in: 8000 characters from the marker on. */
  function CardWindow(text: string): (w: Option<string>)
    ensures w.None? <==> !Contains(text, VideosMarker)
    ensures w.Some? ==> |w.value| <= VideosWindow
  {
    var idx := IndexOf(text, VideosMarker);
    if idx == -1 then None else Some(Window(text, idx, VideosWindow))
  }

  /** The cards the README extractor returns: the first six card matches of the window. */
  function ReadmeVideos(text: string): (r: seq<Video>)
    ensures |r| <= MaxVideos
    ensures !Contains(text, VideosMarker) ==> r == []
  {
    match CardWindow(text)
    case None => []
    case Some(w) =>
      CardMatchesAreCards(w, 0);
      Take(MapMatches(CardOf, AllMatches(VideoCard, w, 0)), MaxVideos)
  }

  /** Each returned card is the k-th card match of the window, in document
      order: a thumbnail link and a bold caption that link to the same watch
      URL, the caption's text as title and the thumbnail taken from the URL's id. */
  lemma ReadmeVideoIsCard(text: string, k: nat)
    requires k < |ReadmeVideos(text)|
    ensures CardWindow(text).Some?
    ensures var w := CardWindow(text).value;
            var ms := AllMatches(VideoCard, w, 0);
            var v := ReadmeVideos(text)[k];
            && k < |ms| && IsWatchUrl(v.url) && v.date.None?
            && v.thumb == ThumbnailUrl(WatchId(v.url))
            && IsCard(w[ms[k].start..ms[k].end], v.url, v.title)
            && (0 < k ==> ms[k - 1].end <= ms[k].start)
  {
    var w := CardWindow(text).value;
    var ms := AllMatches(VideoCard, w, 0);
    CardMatchesAreCards(w, 0);
    assert ReadmeVideos(text) == Take(MapMatches(CardOf, ms), MaxVideos);
    assert ReadmeVideos(text)[k] == CardOf(ms[k]);
    assert VideoCardAt(w, ms[k].start) == Some(ms[k]);
  }

  /** No card is skipped: when fewer than six cards come back, they are all the
      card matches of the window, and every position of the window where a card
      starts lies inside one of them. */
  lemma ReadmeVideosMissNoCard(text: string, x: nat)
    requires |ReadmeVideos(text)| < MaxVideos
    requires CardWindow(text).Some? && VideoCardAt(CardWindow(text).value, x).Some?
    ensures var ms := AllMatches(VideoCard, CardWindow(text).value, 0);
            && |ms| == |ReadmeVideos(text)|
            && exists k :: 0 <= k < |ms| && ms[k].start <= x < ms[k].end
  {
    CardsUncut(text);
    CardCovered(CardWindow(text).value, x);
  }

  /** A card written in the window is found: it lies inside one of the card
      matches, as long as the cap of six videos was not reached. */
  lemma ReadmeVideosFindWrittenCard(text: string, x: nat, alt: string, url: string, ws1: string, ws2: string, title: string)
    requires |ReadmeVideos(text)| < MaxVideos && CardWindow(text).Some?
    requires PrefixAt(CardWindow(text).value, x, CardText(alt, url, ws1, ws2, title))
    requires NoLineTerminator(alt) && AllWhiteSpace(ws1) && AllWhiteSpace(ws2)
    requires NoLineTerminator(title) && IsWatchUrl(url)
    ensures var ms := AllMatches(VideoCard, CardWindow(text).value, 0);
            exists k :: 0 <= k < |ms| && ms[k].start <= x < ms[k].end
  {
    VideoCardWhole(CardWindow(text).value, x, alt, url, ws1, ws2, title);
    ReadmeVideosMissNoCard(text, x);
  }

  /** Fewer than six videos means the cap cut nothing off: one video per match. */
  lemma CardsUncut(text: string)
    requires |ReadmeVideos(text)| < MaxVideos && CardWindow(text).Some?
    ensures |AllMatches(VideoCard, CardWindow(text).value, 0)| == |ReadmeVideos(text)|
  {
    var w := CardWindow(text).value;
    CardMatchesAreCards(w, 0);
    assert ReadmeVideos(text) == Take(MapMatches(CardOf, AllMatches(VideoCard, w, 0)), MaxVideos);
  }

  lemma CardCovered(w: string, x: nat)
    requires VideoCardAt(w, x).Some?
    ensures exists k :: 0 <= k < |AllMatches(VideoCard, w, 0)|
                        && AllMatches(VideoCard, w, 0)[k].start <= x < AllMatches(VideoCard, w, 0)[k].end
  {
    assert VideoCard(w, x).Some?;
    AllMatchesCover(VideoCard, w, 0, x);
  }

  method ParseVideosFromReadme(readmeText: string) returns (items: seq<Video>)
    ensures items == ReadmeVideos(readmeText)
  {
    var sectionStart := IndexOf(readmeText, VideosMarker);
    if sectionStart == -1 {
      return [];
    }
    var slice := Window(readmeText, sectionStart, VideosWindow);
    CardMatchesAreCards(slice, 0);
    items := CollectMatches(VideoCard, slice, MaxVideos, CardOf);
  }

  /** The fallback card built from a match of a watch URL followed later on its line by `**`:
      the id is the second group. */
  function FallbackVideo(m: Match): Video
    requires |m.groups| == 2
  {
    Video(m.groups[0], FallbackTitle, ThumbnailUrl(m.groups[1]), None)
  }

  /** What the fallback expression captures: a watch URL and its id. */
  predicate IsWatchMatchGroups(m: Match) {
    && |m.groups| == 2 && m.groups[0] == WatchPrefix + m.groups[1]
    && |m.groups[1]| >= 6 && AllIn(m.groups[1], VideoIdChar)
  }

  lemma WatchMatchesAreWatchUrls(s: string, lastIndex: nat)
    ensures forall k :: 0 <= k < |AllMatches(WatchUrl, s, lastIndex)| ==> IsWatchMatchGroups(AllMatches(WatchUrl, s, lastIndex)[k])
  {
    var ms := AllMatches(WatchUrl, s, lastIndex);
    forall k | 0 <= k < |ms| ensures IsWatchMatchGroups(ms[k]) {
      assert WatchUrlAt(s, ms[k].start) == Some(ms[k]);
    }
  }

  /** The fallback list: the first six watch URLs of the whole README. */
  function FallbackVideos(text: string): (r: seq<Video>)
    ensures |r| <= MaxVideos
  {
    Take(MapMatches(FallbackVideo, AllMatches(WatchUrl, text, 0)), MaxVideos)
  }

  /** The fallback card of a watch URL match links to that URL, carries the
      generic title, and shows the thumbnail of the id the URL gives back. */
  lemma FallbackVideoOfMatch(m: Match)
    requires IsWatchMatchGroups(m)
    ensures var v := FallbackVideo(m);
            && IsWatchUrl(v.url) && WatchId(v.url) == m.groups[1] && v.title == FallbackTitle
            && v.thumb == ThumbnailUrl(WatchId(v.url)) && v.date.None?
  {
    WatchIdOfId(m.groups[1]);
    WatchUrlOfId(m.groups[1]);
  }

  /** A fallback card links to a watch URL, carries the generic title, and its
      thumbnail is the one of the id its URL gives back. */
  lemma FallbackVideoIsWatchUrl(text: string, k: nat)
    requires k < |FallbackVideos(text)|
    ensures var v := FallbackVideos(text)[k];
            && IsWatchUrl(v.url) && v.title == FallbackTitle && v.date.None?
            && v.thumb == ThumbnailUrl(WatchId(v.url))
  {
    var ms := AllMatches(WatchUrl, text, 0);
    WatchMatchesAreWatchUrls(text, 0);
    assert FallbackVideos(text)[k] == FallbackVideo(ms[k]);
    FallbackVideoOfMatch(ms[k]);
  }

  /** A watch prefix followed by a non-empty video id is a watch URL. */
  lemma WatchUrlOfId(id: string)
    requires |id| > 0 && AllIn(id, VideoIdChar)
    ensures IsWatchUrl(WatchPrefix + id)
  {
    var url := WatchPrefix + id;
    assert url[..|WatchPrefix|] == WatchPrefix;
    assert url[|WatchPrefix|..] == id;
    forall j | 0 <= j < |id| ensures InClass(id[j], UrlChar) {
      assert InClass(id[j], VideoIdChar);
    }
  }

  /** The fallback scan of `fetchVideos`: the same loop, over the whole README. */
  method ScanWatchUrls(text: string) returns (fallback: seq<Video>)
    ensures fallback == FallbackVideos(text)
  {
    fallback := CollectMatches(WatchUrl, text, MaxVideos, FallbackVideo);
  }

  /** The videos the grid shows: the README cards, or the fallback list when there are none. */
  function VideosToShow(text: string): (r: seq<Video>)
    ensures |r| <= MaxVideos
  {
    var videos := ReadmeVideos(text);
    if |videos| == 0 then FallbackVideos(text) else videos
  }

  /** Whichever list is shown, every card links to a watch URL and shows the
      thumbnail of the id that URL carries. */
  lemma ShownVideosAreWatchUrls(text: string, k: nat)
    requires k < |VideosToShow(text)|
    ensures var v := VideosToShow(text)[k];
            IsWatchUrl(v.url) && v.thumb == ThumbnailUrl(WatchId(v.url)) && v.date.None?
  {
    if |ReadmeVideos(text)| == 0 {
      FallbackVideoIsWatchUrl(text, k);
    } else {
      ReadmeVideoIsCard(text, k);
    }
  }

  /** The choice `fetchVideos` makes before rendering. */
  method ChooseVideos(text: string) returns (videos: seq<Video>)
    ensures videos == VideosToShow(text)
    ensures videos == [] ==> ReadmeVideos(text) == [] && FallbackVideos(text) == []
  {
    videos := ParseVideosFromReadme(text);
    if |videos| == 0 {
      var fallback := ScanWatchUrls(text);
      videos := fallback;
    }
  }
}
