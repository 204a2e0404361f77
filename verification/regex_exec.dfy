/**
 * `RegExp.prototype.exec` on a global expression, for the four expressions
 * the extractors use: starting at `lastIndex`, the leftmost position where the
 * expression matches, and the sequence of matches a `while (re.exec(s))` loop
 * visits, each search resuming where the previous match ended.
 */
module RegexExec {
  import opened Text
  import opened RegexCore
  import opened YouTubeRegex

  /** What an anchored matcher promises: a match found at i starts at i, is not
      empty, lies within s and has two capture groups. */
  ghost predicate Anchored(m: (string, nat) -> Option<Match>) {
    forall s: string, i: nat :: m(s, i).Some? ==>
      && m(s, i).value.start == i && i < m(s, i).value.end <= |s| && |m(s, i).value.groups| == 2
  }

  /** One of the extractors' expressions, tried at one position only. */
  type Matcher = m: (string, nat) -> Option<Match> | Anchored(m) witness (s: string, i: nat) => None

  /** /\[(.*?)\]\((https?:\/\/[^\s)]+)\)/g (script.js:105, :129) */
  const MarkdownLink: Matcher := (s: string, i: nat) => BracketLinkAt(s, i, UrlChar)
  /** the README card expression (script.js:169) */
  const VideoCard: Matcher := (s: string, i: nat) => VideoCardAt(s, i)
  /** the watch URL followed later on the same line by `**`, of the fallback scan (script.js:194) */
  const WatchUrl: Matcher := (s: string, i: nat) => WatchUrlAt(s, i)
  /** /-\s*\[(.*?)\]\((https?:\/\/[^\)]+)\).*?/g (script.js:303) */
  const TalkBullet: Matcher := (s: string, i: nat) => BulletLinkAt(s, i)

  /** `re.lastIndex = lastIndex; re.exec(s)`: the leftmost match starting at or after lastIndex. */
  function Exec(p: Matcher, s: string, lastIndex: nat): (r: Option<Match>)
    ensures r.Some? ==> && lastIndex <= r.value.start < r.value.end <= |s| && |r.value.groups| == 2
                        && p(s, r.value.start) == r
                        && forall k: nat :: lastIndex <= k < r.value.start ==> p(s, k).None?
    ensures r.None? ==> forall k: nat :: lastIndex <= k ==> p(s, k).None?
    decreases |s| + 1 - lastIndex
  {
    if lastIndex > |s| then None
    else match p(s, lastIndex)
      case Some(m) => Some(m)
      case None => Exec(p, s, lastIndex + 1)
  }

  /** exec tried where the expression matches finds that match. */
  lemma ExecHere(p: Matcher, s: string, i: nat)
    requires i <= |s| && p(s, i).Some?
    ensures Exec(p, s, i) == p(s, i)
  {
  }

  /** exec from the end of the text finds nothing: a match is never empty. */
  lemma ExecAtEnd(p: Matcher, s: string)
    ensures Exec(p, s, |s|).None?
  {
  }

  /** The matches `while (m = re.exec(s))` visits from lastIndex on, in the order found. */
  function AllMatches(p: Matcher, s: string, lastIndex: nat): (r: seq<Match>)
    ensures forall k :: 0 <= k < |r| ==> && lastIndex <= r[k].start < r[k].end <= |s| && |r[k].groups| == 2
                                         && p(s, r[k].start) == Some(r[k])
    ensures forall k :: 0 < k < |r| ==> r[k - 1].end <= r[k].start
    decreases |s| + 1 - lastIndex
  {
    match Exec(p, s, lastIndex)
    case None => []
    case Some(m) => [m] + AllMatches(p, s, m.end)
  }

  /** One step of the `while (m = re.exec(s))` loop: the match found, then the
      matches found from its end on. */
  lemma AllMatchesStep(p: Matcher, s: string, lastIndex: nat)
    ensures Exec(p, s, lastIndex).None? ==> AllMatches(p, s, lastIndex) == []
    ensures Exec(p, s, lastIndex).Some? ==>
              AllMatches(p, s, lastIndex) == [Exec(p, s, lastIndex).value] + AllMatches(p, s, Exec(p, s, lastIndex).value.end)
  {
  }

  /** No match is missed: every position from lastIndex on where the expression
      matches starts a visited match or lies inside one. */
  lemma {:induction false} AllMatchesCover(p: Matcher, s: string, lastIndex: nat, x: nat)
    requires lastIndex <= x && p(s, x).Some?
    ensures exists k :: 0 <= k < |AllMatches(p, s, lastIndex)|
                        && AllMatches(p, s, lastIndex)[k].start <= x < AllMatches(p, s, lastIndex)[k].end
    decreases |s| + 1 - lastIndex
  {
    var r := AllMatches(p, s, lastIndex);
    match Exec(p, s, lastIndex)
    case None =>
    case Some(m) =>
      assert r[0] == m;
      if m.end <= x {
        AllMatchesCover(p, s, m.end, x);
        var rest := AllMatches(p, s, m.end);
        var k :| 0 <= k < |rest| && rest[k].start <= x < rest[k].end;
        assert r[k + 1] == rest[k];
      }
  }

  /** Each match turned into an item by f, in order. */
  function MapMatches<T>(f: Match --> T, ms: seq<Match>): (r: seq<T>)
    requires forall m :: m in ms ==> f.requires(m)
    ensures |r| == |ms|
  {
    seq(|ms|, k requires 0 <= k < |ms| => f(ms[k]))
  }

  /** `while ((m = re.exec(s)) && items.length < n) items.push(f(m))`: the
      items of the first n matches, or of all of them when there are fewer. */
  method CollectMatches<T>(p: Matcher, s: string, n: nat, f: Match --> T) returns (items: seq<T>)
    requires forall m :: m in AllMatches(p, s, 0) ==> f.requires(m)
    ensures items == Take(MapMatches(f, AllMatches(p, s, 0)), n)
  {
    ghost var ms := AllMatches(p, s, 0);
    ghost var i := 0;
    items := [];
    var lastIndex := 0;
    while true
      invariant lastIndex <= |s| && i <= |ms| && i <= n
      invariant ms[i..] == AllMatches(p, s, lastIndex)
      invariant items == MapMatches(f, ms[..i])
      decreases |s| - lastIndex
    {
      var m := Exec(p, s, lastIndex);
      if m.None? || |items| >= n {
        break;
      }
      ExecResumes(p, s, ms, i, lastIndex);
      MapMatchesSnoc(f, ms, i);
      items := items + [f(m.value)];
      i := i + 1;
      lastIndex := m.value.end;
    }
    CollectStop(p, s, f, ms, i, lastIndex, n);
  }

  /** A collecting loop that stops when exec finds nothing more or when n
      matches are collected has collected the first n matches, or all of them. */
  lemma CollectStop<T>(p: Matcher, s: string, f: Match --> T, ms: seq<Match>, i: nat, lastIndex: nat, n: nat)
    requires forall m :: m in ms ==> f.requires(m)
    requires i <= |ms| && i <= n && ms[i..] == AllMatches(p, s, lastIndex)
    requires Exec(p, s, lastIndex).None? || i == n
    ensures MapMatches(f, ms[..i]) == Take(MapMatches(f, ms), n)
  {
    AllMatchesStep(p, s, lastIndex);
    assert i == if |ms| < n then |ms| else n;
    MapMatchesPrefix(f, ms, i);
  }

  /** The match exec finds next is the next one of the matches still to visit,
      and the search resumes at its end with the ones after it. */
  lemma ExecResumes(p: Matcher, s: string, ms: seq<Match>, i: nat, lastIndex: nat)
    requires i <= |ms| && ms[i..] == AllMatches(p, s, lastIndex) && Exec(p, s, lastIndex).Some?
    ensures i < |ms| && ms[i] == Exec(p, s, lastIndex).value
    ensures ms[i + 1..] == AllMatches(p, s, Exec(p, s, lastIndex).value.end)
  {
    AllMatchesStep(p, s, lastIndex);
    assert ms[i + 1..] == ms[i..][1..];
  }

  lemma MapMatchesSnoc<T>(f: Match --> T, ms: seq<Match>, i: nat)
    requires i < |ms| && forall m :: m in ms ==> f.requires(m)
    ensures MapMatches(f, ms[..i + 1]) == MapMatches(f, ms[..i]) + [f(ms[i])]
  {
  }

  lemma MapMatchesPrefix<T>(f: Match --> T, ms: seq<Match>, i: nat)
    requires i <= |ms| && forall m :: m in ms ==> f.requires(m)
    ensures MapMatches(f, ms[..i]) == MapMatches(f, ms)[..i]
  {
  }
}
