/**
 * `parseIntroFromReadme` (script.js:78-106) and how its result is shown
 * (script.js:145-146): the first paragraph of the README's "About" section,
 * its lines joined by spaces and its markdown links turned into anchors.
 */
module Intro {
  import opened Text
  import opened Sections
  import opened Links

  const AboutMarker := "#### About"

  /** Shown when the README yields no intro, or an empty one. */
  const DefaultIntro := "Developer Advocate focused on UX, research and content."

  /** `line.trim() === ""`. */
  predicate IsBlank(line: string) {
    Trim(line) == []
  }

  /** The test the heading search applies to each line. */
  predicate IsAboutHeading(line: string) {
    StartsWith(ToLower(Trim(line)), "#### about")
  }

  /** A line is blank exactly when it is white space only. */
  lemma BlankIsWhiteSpace(line: string)
    ensures IsBlank(line) <==> AllWhiteSpace(line)
  {
    TrimSpec(line);
  }

  /** The line the heading search stops at is itself a heading. */
  lemma AboutHeadingIsHeading(line: string)
    requires IsAboutHeading(line)
    ensures IsHeading(line)
  {
    var tr := Trim(line);
    var low := ToLower(tr);
    assert low[..4] == "####";
    forall k | 0 <= k < 4 ensures tr[k] == '#' {
      assert low[k] == "####"[k];
    }
    assert tr[..4] == "####";
  }

  /** The first line at or after i that is not blank. */
  function FirstNonBlank(ls: seq<string>, i: nat): (r: nat)
    requires i <= |ls|
    ensures i <= r <= |ls|
    ensures forall k :: i <= k < r ==> IsBlank(ls[k])
    ensures r < |ls| ==> !IsBlank(ls[r])
    decreases |ls| - i
  {
    if i == |ls| || !IsBlank(ls[i]) then i else FirstNonBlank(ls, i + 1)
  }

  /** The end of the paragraph that starts at i: the first blank line or heading at or after i. */
  function ParagraphEnd(ls: seq<string>, i: nat): (r: nat)
    requires i <= |ls|
    ensures i <= r <= |ls|
    ensures forall k :: i <= k < r ==> !IsBlank(ls[k]) && !IsHeading(ls[k])
    ensures r < |ls| ==> IsBlank(ls[r]) || IsHeading(ls[r])
    decreases |ls| - i
  {
    if i == |ls| || IsBlank(ls[i]) || IsHeading(ls[i]) then i else ParagraphEnd(ls, i + 1)
  }

  /** The lines of the intro paragraph: after the heading line, blank lines are
      skipped, then lines are taken up to the next blank line or heading. A
      heading before any text gives no lines. */
  function IntroLines(ls: seq<string>): (r: seq<string>)
    requires |ls| >= 1
    ensures forall k :: 0 <= k < |r| ==> !IsBlank(r[k]) && !IsHeading(r[k])
  {
    var f := FirstNonBlank(ls, 1);
    ls[f..ParagraphEnd(ls, f)]
  }

  /** What the extractor returns: nothing without the marker, else the paragraph. */
  function IntroText(text: string): (r: Option<string>)
    ensures r.None? <==> !Contains(text, AboutMarker)
  {
    var idx := IndexOf(text, AboutMarker);
    if idx == -1 then None
    else Some(RewriteLinks(Join(" ", IntroLines(SectionLines(text, idx)))))
  }

  /** The heading search always stops at the section's first line, the one
      holding the marker itself, so the paragraph search starts at line 1. */
  lemma AboutHeadingIsFirstLine(text: string)
    requires IndexOf(text, AboutMarker) >= 0
    ensures IsAboutHeading(SectionLines(text, IndexOf(text, AboutMarker))[0])
  {
    assert IsLineMarker(AboutMarker);
    MarkerOpensFirstLine(text, AboutMarker);
    LowerAboutMarker();
  }

  lemma LowerAboutMarker()
    ensures ToLower(AboutMarker) == "#### about"
  {
    var low := ToLower(AboutMarker);
    assert LowerChar('A') == 'a';
    assert low[5] == 'a';
    assert forall k :: 0 <= k < 10 && k != 5 ==> low[k] == AboutMarker[k];
  }

  /** A blank line before the paragraph is skipped. */
  lemma BlankBeforeParagraph(ls: seq<string>, start: nat, j: nat)
    requires start <= j < |ls| && j <= FirstNonBlank(ls, start) && IsBlank(ls[j])
    ensures j + 1 <= FirstNonBlank(ls, start)
  {
  }

  /** The first line that is neither blank nor a heading opens the paragraph. */
  lemma ParagraphOpens(ls: seq<string>, start: nat, j: nat)
    requires start <= j < |ls| && j <= FirstNonBlank(ls, start)
    requires !IsBlank(ls[j]) && !IsHeading(ls[j])
    ensures FirstNonBlank(ls, start) == j && j + 1 <= ParagraphEnd(ls, j)
    ensures ls[j..j + 1] == [ls[j]]
  {
  }

  /** A paragraph under way goes on past a line that is neither blank nor a heading. */
  lemma ParagraphGoesOn(ls: seq<string>, f: nat, j: nat)
    requires f <= j < |ls| && j <= ParagraphEnd(ls, f)
    requires !IsBlank(ls[j]) && !IsHeading(ls[j])
    ensures j + 1 <= ParagraphEnd(ls, f)
    ensures ls[f..j + 1] == ls[f..j] + [ls[j]]
  {
  }

  /** Reaching the end or a heading before any text: the paragraph is empty. */
  lemma NoParagraph(ls: seq<string>, start: nat, j: nat)
    requires start <= j <= |ls| && j <= FirstNonBlank(ls, start)
    requires j < |ls| ==> IsHeading(ls[j])
    ensures ParagraphEnd(ls, FirstNonBlank(ls, start)) == FirstNonBlank(ls, start)
  {
    if j < |ls| {
      HeadingIsNotBlank(ls[j]);
    }
    ParagraphEndIs(ls, j, j);
  }

  lemma ParagraphEndIs(ls: seq<string>, i: nat, r: nat)
    requires i <= r <= |ls| && r <= ParagraphEnd(ls, i)
    requires r < |ls| ==> IsBlank(ls[r]) || IsHeading(ls[r])
    ensures ParagraphEnd(ls, i) == r
  {
  }

  lemma HeadingIsNotBlank(line: string)
    requires IsHeading(line)
    ensures !IsBlank(line)
  {
    assert |Trim(line)| >= 4;
  }

  /** The paragraph loop: blank lines before the paragraph are skipped, a blank
      line after it or a heading anywhere ends it. */
  method ParagraphFrom(lines: seq<string>, start: nat) returns (paras: seq<string>)
    requires start <= |lines|
    ensures paras == lines[FirstNonBlank(lines, start)..ParagraphEnd(lines, FirstNonBlank(lines, start))]
  {
    ghost var f := FirstNonBlank(lines, start);
    paras := [];
    var j := start;
    while j < |lines|
      invariant start <= j <= |lines|
      invariant paras == [] ==> j <= f
      invariant paras != [] ==> f < j <= ParagraphEnd(lines, f) && paras == lines[f..j]
    {
      var line := lines[j];
      if IsHeading(line) {
        break;
      }
      if IsBlank(line) {
        if |paras| > 0 {
          break;
        }
        BlankBeforeParagraph(lines, start, j);
      } else if paras == [] {
        ParagraphOpens(lines, start, j);
        paras := [line];
      } else {
        ParagraphGoesOn(lines, f, j);
        paras := paras + [line];
      }
      j := j + 1;
    }
    if paras == [] {
      NoParagraph(lines, start, j);
    } else {
      ParagraphEndIs(lines, f, j);
    }
  }

  method ParseIntroFromReadme(text: string) returns (r: Option<string>)
    ensures r == IntroText(text)
  {
    var aboutIdx := IndexOf(text, AboutMarker);
    if aboutIdx == -1 {
      return None;
    }
    var lines := SectionLines(text, aboutIdx);
    var start := FindHeading(lines, IsAboutHeading);
    AboutHeadingIsFirstLine(text);
    if start == -1 {
      // unreachable: the first line holds the marker
      assert false;
    }
    assert start == 1;
    var paras := ParagraphFrom(lines, start);
    assert paras == IntroLines(lines);
    r := Some(RewriteLinks(Join(" ", paras)));
  }

  /** `if (intro) ... else ...`: an empty intro counts as missing. */
  function DisplayedIntro(intro: Option<string>): (r: string)
    ensures r != []
    ensures intro.Some? && intro.value != [] ==> r == intro.value
    ensures intro.None? || intro.value == [] ==> r == DefaultIntro
  {
    if intro.Some? && intro.value != [] then intro.value else DefaultIntro
  }
}
