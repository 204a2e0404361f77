/**
 * What the intro and highlights extractors share: a README section is read
 * from its marker on, line by line, and ends at the next `####` heading.
 */
module Sections {
  import opened Text

  /** `line.trim().startsWith("####")`: the heading of the next section. */
  predicate IsHeading(line: string) {
    StartsWith(Trim(line), "####")
  }

  /** A line is a heading exactly when it is white space, then `####`. */
  lemma HeadingShape(line: string)
    ensures IsHeading(line) <==> exists ws :: AllWhiteSpace(ws) && StartsWith(line, ws + "####")
  {
    var a := TrimStartIndex(line, 0);
    var e := TrimEndIndex(line, a, |line|);
    TrimStartIndexSkips(line, 0);
    TrimEndIndexSkips(line, a, |line|);
    assert Trim(line) == line[a..e];
    if IsHeading(line) {
      var ws := line[..a];
      forall k | 0 <= k < a ensures IsWhiteSpace(ws[k]) {
        assert ws[k] == line[k];
      }
      assert line[a..a + 4] == Trim(line)[..4];
      assert line[..a + 4] == ws + "####";
    }
    if ws :| AllWhiteSpace(ws) && StartsWith(line, ws + "####") {
      assert line[..|ws|] == (ws + "####")[..|ws|];
      HeadingOfShape(line, ws, a, e);
    }
  }

  lemma HeadingOfShape(line: string, ws: string, a: nat, e: nat)
    requires AllWhiteSpace(ws) && StartsWith(line, ws + "####")
    requires a <= e <= |line| && Trim(line) == line[a..e]
    requires forall k :: 0 <= k < a ==> IsWhiteSpace(line[k])
    requires a < |line| ==> !IsWhiteSpace(line[a])
    requires forall k :: e <= k < |line| ==> IsWhiteSpace(line[k])
    ensures IsHeading(line)
  {
    var n := |ws|;
    var h := line[..n + 4];
    assert h == ws + "####";
    assert line[n] == h[n] == '#' && line[n + 3] == h[n + 3] == '#';
    WhiteSpaceStop(line, ws, a);
    assert e >= n + 4;
    assert Trim(line)[..4] == line[n..n + 4] == h[n..];
  }

  /** A line that starts with the white space ws and then a non-blank: its leading white space ends where ws does. */
  lemma WhiteSpaceStop(line: string, ws: string, a: nat)
    requires AllWhiteSpace(ws) && |ws| < |line| && line[..|ws|] == ws && !IsWhiteSpace(line[|ws|])
    requires a <= |line| && forall k :: 0 <= k < a ==> IsWhiteSpace(line[k])
    requires a < |line| ==> !IsWhiteSpace(line[a])
    ensures a == |ws|
  {
    assert forall k :: 0 <= k < |ws| ==> line[k] == ws[k];
  }

  /** `text.slice(idx).split("\n")`. */
  function SectionLines(text: string, idx: nat): (ls: seq<string>)
    requires idx <= |text|
    ensures |ls| >= 1
    ensures Join("\n", ls) == text[idx..]
  {
    Lines(text[idx..])
  }

  /** A marker that fits on one line and has no blank at either end. */
  predicate IsLineMarker(marker: string) {
    && |marker| > 0 && '\n' !in marker
    && !IsWhiteSpace(marker[0]) && !IsWhiteSpace(marker[|marker| - 1])
  }

  /** The first line of a section found by its marker starts, once trimmed and
      lower-cased, with the lower-cased marker. */
  lemma MarkerOpensFirstLine(text: string, marker: string)
    requires IndexOf(text, marker) >= 0 && IsLineMarker(marker)
    ensures StartsWith(ToLower(Trim(SectionLines(text, IndexOf(text, marker))[0])), ToLower(marker))
  {
    var idx := IndexOf(text, marker);
    var rest := text[idx..];
    assert StartsWith(rest, marker) by {
      assert rest[..|marker|] == text[idx..idx + |marker|];
    }
    FirstLineStartsWith(rest, marker);
    var first := Lines(rest)[0];
    assert first[0] == marker[0];
    TrimKeepsWord(first, 0, marker);
    ToLowerKeepsWord(Trim(first), 0, marker);
  }

  /** The heading search: the line after the first line that passes the test,
      or -1 when no line does. */
  method FindHeading(lines: seq<string>, test: string -> bool) returns (start: int)
    ensures start == -1 <==> forall k :: 0 <= k < |lines| ==> !test(lines[k])
    ensures start != -1 ==> && 1 <= start <= |lines| && test(lines[start - 1])
                            && forall k :: 0 <= k < start - 1 ==> !test(lines[k])
  {
    start := -1;
    var i := 0;
    while i < |lines|
      invariant 0 <= i <= |lines|
      invariant forall k :: 0 <= k < i ==> !test(lines[k])
    {
      if test(lines[i]) {
        start := i + 1;
        return;
      }
      i := i + 1;
    }
  }
}
