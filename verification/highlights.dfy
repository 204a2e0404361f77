/**
 * `parseHighlightsFromReadme` (script.js:109-134) and how its result is shown
 * (script.js:147-156): the bullet lines of the README's "That's me" section,
 * each without its leading dash and with its markdown links turned into anchors.
 */
module Highlights {
  import opened Text
  import opened Sections
  import opened RegexCore
  import opened Links

  /** The section heading as the page searches for it: the UTF-8 bytes of the
      seedling emoji read back as Windows-1252 characters. */
  const HighlightsMarker := "#### \U{F0}\U{178}\U{152}\U{B1} That's me"

  /** At most this many highlights are shown. */
  const MaxShown := 6

  /** Shown as the only item when the README yields no highlights. */
  const DefaultHighlight := "Creating content, building communities, organizing events and conferences."

  /** The test the heading search applies to each line. */
  predicate IsThatsMeLine(line: string) {
    Includes(ToLower(Trim(line)), "that's me")
  }

  /** Any line holding "that's me", in any mix of ASCII capital and small letters, passes the test. */
  lemma ThatsMeLineOfWord(line: string, i: nat, w: string)
    requires PrefixAt(line, i, w) && ToLower(w) == "that's me"
    ensures IsThatsMeLine(line)
  {
    assert ToLower(w)[0] == 't' && ToLower(w)[8] == 'e';
    var j := TrimKeepsOccurrence(line, i, w);
    ToLowerKeepsWord(Trim(line), j, w);
  }

  /** `/^-\s+/.test(line)`: a dash at the very start, then at least one blank. */
  predicate IsBullet(line: string) {
    |line| >= 2 && line[0] == '-' && IsWhiteSpace(line[1])
  }

  /** The test `/^-\s+/` passes exactly when the line starts with a dash and at least one blank. */
  lemma BulletShape(line: string)
    ensures IsBullet(line) <==> exists ws :: |ws| >= 1 && AllWhiteSpace(ws) && StartsWith(line, "-" + ws)
  {
    if IsBullet(line) {
      var ws := [line[1]];
      assert line[..2] == "-" + ws;
    }
    if ws :| |ws| >= 1 && AllWhiteSpace(ws) && StartsWith(line, "-" + ws) {
      assert line[..1 + |ws|] == "-" + ws;
      assert line[0] == ("-" + ws)[0] && line[1] == ("-" + ws)[1] == ws[0];
    }
  }

  /** `line.replace(/^-\s+/, "")` on a bullet line: what follows the dash and all the blanks after it. */
  function StripBullet(line: string): (r: string)
    requires IsBullet(line)
    ensures |r| <= |line| - 2
    ensures r == [] || !IsWhiteSpace(r[0])
  {
    line[RunEnd(line, 1, Space)..]
  }

  /** What is removed is the dash and blanks only: the rest of the line is kept as it is. */
  lemma StripBulletSuffix(line: string)
    requires IsBullet(line)
    ensures line[|line| - |StripBullet(line)|..] == StripBullet(line)
    ensures AllWhiteSpace(line[1..|line| - |StripBullet(line)|])
  {
    var b := RunEnd(line, 1, Space);
    assert |line| - |StripBullet(line)| == b;
  }

  /** A bullet line that holds one link, `- [caption](url)`, gives exactly that link's anchor. */
  lemma BulletItemOfLink(ws: string, caption: string, url: string)
    requires |ws| >= 1 && AllWhiteSpace(ws)
    requires NoLineTerminator(caption) && ']' !in caption && IsSchemeUrl(url, UrlChar)
    ensures IsBullet("-" + ws + LinkText(caption, url))
    ensures BulletItem("-" + ws + LinkText(caption, url)) == Anchor(url, caption)
  {
    var link := LinkText(caption, url);
    var line := "-" + ws + link;
    assert line[1] == ws[0];
    forall k | 1 <= k < 1 + |ws| ensures InClass(line[k], Space) {
      assert line[k] == ws[k - 1];
    }
    assert line[1 + |ws|] == link[0] == '[';
    RunEndIs(line, 1, 1 + |ws|, Space);
    assert StripBullet(line) == line[1 + |ws|..] == link;
    RewriteSingleLink(caption, url);
  }

  /** The item of each bullet line of a run of lines, in order: the line
      without its dash, with its markdown links turned into anchors; other lines
      are skipped. */
  function BulletItems(ls: seq<string>): (r: seq<string>)
    ensures |r| <= |ls|
  {
    if ls == [] then []
    else
      BulletItems(ls[..|ls| - 1]) + LineItem(ls[|ls| - 1])
  }

  /** What one line adds: its item when it is a bullet, nothing otherwise. */
  function LineItem(line: string): (r: seq<string>)
    ensures |r| <= 1
  {
    if IsBullet(line) then [BulletItem(line)] else []
  }

  /** The item of a bullet line: the line without its dash and the blanks after
      it, with its markdown links turned into anchors. */
  function BulletItem(line: string): string
    requires IsBullet(line)
  {
    RewriteLinks(StripBullet(line))
  }

  /** The first heading at or after i: where the section ends. */
  function SectionEnd(ls: seq<string>, i: nat): (r: nat)
    requires i <= |ls|
    ensures i <= r <= |ls|
    ensures forall k :: i <= k < r ==> !IsHeading(ls[k])
    ensures r < |ls| ==> IsHeading(ls[r])
    decreases |ls| - i
  {
    if i == |ls| || IsHeading(ls[i]) then i else SectionEnd(ls, i + 1)
  }

  /** What the extractor returns: nothing without the marker, else one item per
      bullet line between the heading and the next heading. */
  function HighlightItems(text: string): (r: seq<string>)
    ensures !Contains(text, HighlightsMarker) ==> r == []
  {
    var idx := IndexOf(text, HighlightsMarker);
    if idx == -1 then []
    else
      var ls := SectionLines(text, idx);
      BulletItems(ls[1..SectionEnd(ls, 1)])
  }

  /** Items are collected line by line: the items of two runs of lines put
      together are the items of the first run followed by those of the second. */
  lemma {:induction false} BulletItemsAppend(a: seq<string>, b: seq<string>)
    ensures BulletItems(a + b) == BulletItems(a) + BulletItems(b)
    decreases |b|
  {
    if b == [] {
      assert a + b == a;
    } else {
      var b' := b[..|b| - 1];
      assert (a + b)[..|a + b| - 1] == a + b';
      BulletItemsAppend(a, b');
    }
  }

  /** Every bullet line gives its item, at the rank of that bullet among the
      bullets before it. */
  lemma BulletItemAt(ls: seq<string>, k: nat)
    requires k < |ls| && IsBullet(ls[k])
    ensures |BulletItems(ls[..k])| < |BulletItems(ls)|
    ensures BulletItems(ls)[|BulletItems(ls[..k])|] == BulletItem(ls[k])
  {
    assert ls == ls[..k] + [ls[k]] + ls[k + 1..];
    BulletItemsAppend(ls[..k] + [ls[k]], ls[k + 1..]);
    BulletItemsAppend(ls[..k], [ls[k]]);
    assert BulletItems([ls[k]]) == [BulletItem(ls[k])] by {
      assert [ls[k]][..0] == [];
    }
  }

  /** Every item is the item of one of the bullet lines. */
  lemma {:induction false} BulletItemFrom(ls: seq<string>, n: nat)
    requires n < |BulletItems(ls)|
    ensures exists k :: 0 <= k < |ls| && IsBullet(ls[k]) && BulletItems(ls)[n] == BulletItem(ls[k])
    decreases |ls|
  {
    var init := ls[..|ls| - 1];
    var last := ls[|ls| - 1];
    if n < |BulletItems(init)| {
      BulletItemFrom(init, n);
      var k :| 0 <= k < |init| && IsBullet(init[k]) && BulletItems(init)[n] == BulletItem(init[k]);
      assert init[k] == ls[k];
    } else {
      assert IsBullet(last) && BulletItems(ls)[n] == BulletItem(last);
    }
  }

  /** A run of lines yields no item exactly when none of its lines is a bullet. */
  lemma {:induction false} NoBulletNoItem(ls: seq<string>)
    ensures BulletItems(ls) == [] <==> forall k :: 0 <= k < |ls| ==> !IsBullet(ls[k])
    decreases |ls|
  {
    if ls != [] {
      var init := ls[..|ls| - 1];
      NoBulletNoItem(init);
      assert forall k :: 0 <= k < |init| ==> init[k] == ls[k];
    }
  }

  /** One more line of the section adds its item at the end when it is a bullet. */
  lemma BulletItemsStep(ls: seq<string>, i: nat, j: nat)
    requires i <= j < |ls|
    ensures IsBullet(ls[j]) ==> BulletItems(ls[i..j + 1]) == BulletItems(ls[i..j]) + [BulletItem(ls[j])]
    ensures !IsBullet(ls[j]) ==> BulletItems(ls[i..j + 1]) == BulletItems(ls[i..j])
  {
    var t := ls[i..j + 1];
    assert t[..|t| - 1] == ls[i..j];
    assert t[|t| - 1] == ls[j];
  }

  lemma SectionGoesOn(ls: seq<string>, i: nat, j: nat)
    requires i <= j < |ls| && j <= SectionEnd(ls, i) && !IsHeading(ls[j])
    ensures j + 1 <= SectionEnd(ls, i)
  {
  }

  lemma SectionEndIs(ls: seq<string>, i: nat, r: nat)
    requires i <= r <= |ls| && r <= SectionEnd(ls, i)
    requires r < |ls| ==> IsHeading(ls[r])
    ensures SectionEnd(ls, i) == r
  {
  }

  lemma HighlightsMarkerFits()
    ensures IsLineMarker(HighlightsMarker)
  {
  }

  /** The heading search always stops at the section's first line, the one
      holding the marker itself, so the bullet search starts at line 1. */
  lemma ThatsMeIsFirstLine(text: string)
    requires IndexOf(text, HighlightsMarker) >= 0
    ensures IsThatsMeLine(SectionLines(text, IndexOf(text, HighlightsMarker))[0])
  {
    var first := SectionLines(text, IndexOf(text, HighlightsMarker))[0];
    HighlightsMarkerFits();
    MarkerOpensFirstLine(text, HighlightsMarker);
    assert PrefixAt(ToLower(HighlightsMarker), 10, "that's me") by {
      // the lower-cased heading holds "that's me" at position 10
      assert HighlightsMarker[10..19] == "That's me";
      assert LowerChar('T') == 't';
      assert ToLower(HighlightsMarker)[10..19] == "that's me";
    }
    PrefixAtWithin(ToLower(Trim(first)), ToLower(HighlightsMarker), 10, "that's me");
    IncludesAt(ToLower(Trim(first)), 10, "that's me");
  }

  /** The bullet loop: every bullet line up to the next heading gives an item. */
  method BulletsFrom(lines: seq<string>, start: nat) returns (items: seq<string>)
    requires start <= |lines|
    ensures items == BulletItems(lines[start..SectionEnd(lines, start)])
  {
    items := [];
    var j := start;
    while j < |lines|
      invariant start <= j <= |lines|
      invariant j <= SectionEnd(lines, start)
      invariant items == BulletItems(lines[start..j])
    {
      var line := lines[j];
      if IsHeading(line) {
        break;
      }
      SectionGoesOn(lines, start, j);
      BulletItemsStep(lines, start, j);
      if IsBullet(line) {
        items := items + [BulletItem(line)];
      }
      j := j + 1;
    }
    SectionEndIs(lines, start, j);
  }

  method ParseHighlightsFromReadme(text: string) returns (items: seq<string>)
    ensures items == HighlightItems(text)
  {
    var idx := IndexOf(text, HighlightsMarker);
    if idx == -1 {
      return [];
    }
    var lines := SectionLines(text, idx);
    var start := FindHeading(lines, IsThatsMeLine);
    ThatsMeIsFirstLine(text);
    if start == -1 {
      // unreachable: the first line holds the marker
      assert false;
    }
    assert start == 1;
    items := BulletsFrom(lines, start);
  }

  /** `highlights.slice(0, 6)`, or the default item when there are none. */
  function DisplayedHighlights(h: seq<string>): (r: seq<string>)
    ensures 1 <= |r| <= MaxShown
    ensures h != [] ==> |r| == (if |h| < MaxShown then |h| else MaxShown) && r == h[..|r|]
    ensures h == [] ==> r == [DefaultHighlight]
  {
    if h != [] then Take(h, MaxShown) else [DefaultHighlight]
  }
}
