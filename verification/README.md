# README extractors of the portfolio page

The portfolio page (`script.js`) fills most of its content by mining the
owner's GitHub profile README, a free-form markdown text. This project models
the extractors that do that mining, and proves what they return:

- `parseIntroFromReadme` finds the "#### About" section. It returns the section's
  first paragraph, its lines joined by spaces and its markdown links
  `[label](https://…)` rewritten into `<a>` anchors. It returns null when the
  section is missing. The page shows a default sentence when the intro is
  missing or empty.
- `parseHighlightsFromReadme` finds the "That's me" section. It returns one item
  per `- ` bullet line up to the next `####` heading, each with its dash removed
  and its links rewritten. The page shows at most six items, or a default item
  when there are none.
- `parseVideosFromReadme` searches the 8000 characters that start at "Recent
  YouTube Videos" for video cards. A card is a thumbnail link, `<br>`, and a bold
  caption linking to the same watch URL. The function returns the first six
  cards, each with the thumbnail URL built from the video id.
- `fetchVideos` has a fallback for when no card is found. It scans the whole
  README for watch URLs followed later on the same line by `**`, and takes the
  first six, each with the title "YouTube Video".
- `parseSpeakingFromReadme` searches the 6000 characters that start at
  "Sometimes I speak at conferences". It returns up to twenty `- [title](url)`
  bullet links as talks.

Each regular expression is modelled as a matcher written by hand. A matcher is
tried at one position and follows JavaScript's backtracking order: lazy groups
are tried shortest first, greedy runs are taken whole, and `.` stops at line
terminators. The generic `Exec` adds the leftmost search of a global
expression's `exec`, starting at `lastIndex`. `AllMatches` is the sequence of
matches a `while (m = re.exec(s))` loop visits. The extractors' loops are
methods proved equal to specification functions. Lemmas about those functions
state what the page relies on, such as:

- a section is found exactly when its marker occurs;
- the heading search stops at the marker's own line;
- every item comes from a bullet line of the section, in order;
- every video card links to a watch URL whose id gives back its thumbnail;
- no match in the searched window is skipped when the cap is not reached;
- a text without links comes back unchanged from the link rewrite;
- a single link becomes exactly its anchor;
- every lazy search stops at the first place it can, and a card, bullet link or
  watch URL written out in full is found.

The model follows `script.js` in these details:

- A paragraph ends at the first blank line after its text, and any number of
  blank lines before the text are skipped.
- The highlights parser returns every bullet. The six-item cap is applied when
  the list is displayed.
- A bullet is a dash followed by at least one white-space character of any kind.
- Videos come from the README cards or the watch-URL fallback, at most six. They
  have no date and are not deduplicated.

Files:

- `text.dfy`: the JavaScript string operations.
- `sections.dfy`: the section and heading search shared by the intro and
  highlights extractors.
- `regex_core.dfy` and `youtube_regex.dfy`: the anchored matchers.
- `regex_exec.dfy`: `exec`, the match sequence and the collecting loop.
- `links.dfy`: the link rewrite.
- `intro.dfy`, `highlights.dfy`, `videos.dfy` and `speaking.dfy`: the
  extractors.

## Model

| member | source | states |
|---|---|---|
| Text.IndexOf | script.js:79-80 | `indexOf` is -1 exactly when the marker does not occur; otherwise it is an occurrence with no earlier one |
| Text.TrimSpec | script.js:96 | `trim()` leaves nothing exactly when the line is all white space, and otherwise leaves text that starts and ends with a non-blank character |
| Text.TrimRemovesOnlyBlanks | script.js:86 | `trim()` keeps one contiguous stretch of the line and removes only white space before and after it |
| Text.TrimKeepsOccurrence | script.js:116 | a word that starts and ends with a non-blank character and occurs in a line still occurs in the trimmed line |
| Text.ToLower | script.js:86 | `toLowerCase()` keeps the length, leaves no ASCII capital letter, turns each capital into its small letter and keeps every other character |
| Text.ToLowerKeepsWord | script.js:116 | an occurrence of a word becomes an occurrence of the lower-cased word |
| Text.Includes | script.js:116 | `includes` is true exactly when the word occurs |
| Text.JoinAppend | script.js:102 | `join` puts the separator between consecutive parts: one more part adds the separator and that part at the end |
| Text.Lines | script.js:83 | `split("\n")` gives at least one line, no line holds a line feed, and joining the lines with "\n" gives back the text |
| Text.FirstLineStartsWith | script.js:81-83 | a text that starts with a marker free of line feeds has the marker at the start of its first line |
| Text.Window | script.js:167 | `slice(from, from + n)` is at most n characters, taken contiguously from `from`, and shorter only when the text ends |
| Text.Take | script.js:149 | `slice(0, n)` is the first n elements, or all of them when there are fewer |
| Sections.SectionLines | script.js:81-83 | the lines of the section, joined with "\n", give back the text from the marker on |
| Sections.MarkerOpensFirstLine | script.js:79-86 | the first line of a section found by its marker, trimmed and lower-cased, starts with the lower-cased marker |
| Sections.HeadingShape | script.js:124 | a line is a heading exactly when it is white space followed by `####` |
| Sections.FindHeading | script.js:84-90 | the search gives -1 exactly when no line passes the test, and otherwise the index after the first line that passes |
| Intro.BlankIsWhiteSpace | script.js:96 | `line.trim() === ""` holds exactly when the line is all white space |
| Intro.AboutHeadingIsHeading | script.js:86 | a line the "#### about" test accepts also passes the `####` heading test |
| Intro.FirstNonBlank | script.js:96-98 | the paragraph starts at the first non-blank line, and every line skipped before it is blank |
| Intro.ParagraphEnd | script.js:95-97 | the paragraph ends at the first blank line or heading, and no line inside it is either |
| Intro.IntroLines | script.js:92-101 | no line of the intro paragraph is blank or a heading |
| Intro.IntroText | script.js:79-80 | the intro is missing exactly when "#### About" does not occur |
| Intro.AboutHeadingIsFirstLine | script.js:84-91 | the heading search stops at the section's first line, so the paragraph search starts at line 1 |
| Intro.HeadingIsNotBlank | script.js:95-96 | a heading line is never blank, so a heading ends the paragraph whether or not text was found |
| Intro.ParagraphFrom | script.js:92-101 | the paragraph loop collects the lines from the first non-blank line up to the next blank line or heading |
| Intro.ParseIntroFromReadme | script.js:78-106 | the extractor returns null without the marker, and otherwise the rewritten, space-joined paragraph |
| Intro.DisplayedIntro | script.js:145-146 | the shown intro is never empty: a missing or empty intro gives the default sentence, anything else is shown as it is |
| Highlights.ThatsMeLineOfWord | script.js:116 | a line holding "that's me", in any mix of ASCII capital and small letters, passes the heading test |
| Highlights.BulletShape | script.js:125 | `/^-\s+/.test(line)` holds exactly when the line starts with a dash and at least one white-space character |
| Highlights.StripBullet | script.js:127-128 | removing `^-\s+` from a bullet line takes away at least the dash and one blank, and leaves text that does not start with a blank |
| Highlights.StripBulletSuffix | script.js:127-128 | what is left is the end of the line unchanged, and everything removed after the dash is white space |
| Highlights.SectionEnd | script.js:122-124 | the section ends at the first heading after its first line, and no line inside it is a heading |
| Highlights.HighlightItems | script.js:109-111 | there are no highlights when the marker does not occur |
| Highlights.BulletItemsAppend | script.js:121-132 | items are collected line by line: two runs of lines put together give the first run's items followed by the second's |
| Highlights.BulletItemAt | script.js:125-130 | every bullet line gives its item, at the rank of that bullet among the bullet lines before it |
| Highlights.BulletItemFrom | script.js:125-130 | every item is the item of one of the bullet lines |
| Highlights.BulletItemOfLink | script.js:125-129 | a bullet line `- [caption](url)`, with at least one white-space character after the dash, a caption free of `]` and line breaks, and a URL with an explicit scheme and no white space or `)`, gives exactly the anchor of its link |
| Highlights.NoBulletNoItem | script.js:125 | a run of lines gives no item exactly when none of its lines is a bullet |
| Highlights.ThatsMeIsFirstLine | script.js:110-120 | the heading search stops at the section's first line, so `start` is never -1 and the bullet loop starts at line 1 |
| Highlights.BulletsFrom | script.js:121-133 | the bullet loop gives one rewritten item per bullet line before the next heading, in order |
| Highlights.ParseHighlightsFromReadme | script.js:109-134 | the extractor returns nothing without the marker, and otherwise one item per bullet line of the section |
| Highlights.DisplayedHighlights | script.js:147-156 | the shown list has one to six items: the first six highlights, or the default item when there are none |
| Links.MatchHasScheme | script.js:105 | inside every match of the link expression, right after its label, `](` is immediately followed by `http://` or `https://` |
| Links.AnchorInjective | script.js:105 | the anchor gives back its URL and caption: two links whose URLs hold no `"` make the same anchor only when URL and caption agree |
| Links.RewriteFromAllMatches | script.js:104-105 | the global replace rewrites exactly the matches the `exec` loop visits, in order, each into its anchor, and keeps the text between them |
| Links.RewriteKeepsPlainText | script.js:104-105 | a text in which `](http://` and `](https://` do not occur comes back unchanged |
| Links.RewriteSingleLink | script.js:129 | a link written on its own, with a caption free of `]` and line breaks and a URL with an explicit scheme and no white space or `)`, becomes exactly its anchor |
| RegexCore.RunEnd | script.js:105 | a greedy run of a character class ends at the first character outside the class, and every character before it is inside |
| RegexCore.SchemeLength | script.js:105 | `https?:\/\/` matches 8 characters exactly at `https://`, 7 exactly at `http://`, and none otherwise |
| RegexCore.LinkTargetEnd | script.js:105 | `\]\((https?:\/\/C+)\)` matches a `](`, a URL with an explicit scheme and a non-empty run of the class, then `)` |
| RegexCore.LazyLabelTarget | script.js:105 | where the lazy label stops, `](url)` follows, and the URL ends where that target ends it |
| RegexCore.LazyLabelFound | script.js:105 | a label on one line, with no link target after any shorter length, that reaches a link target ends there |
| RegexCore.LazyLabelFirst | script.js:105 | the lazy label takes the shortest length followed by a link target; when it fails, no length on the rest of the line is followed by one |
| RegexCore.BracketLinkFound | script.js:105 | a `[`, a label free of `]` and line breaks, and a link target right after it are matched whole, with the label and the URL as groups |
| RegexCore.LazyLabelOnLine | script.js:105 | the lazy label never runs past the end of its line |
| RegexCore.BracketLinkAt | script.js:105 | a link match starts where it is tried, is not empty and has two groups |
| RegexCore.BracketLinkShape | script.js:105 | a link match is `[label](url)` with a label on one line and a URL with an explicit scheme |
| RegexCore.BracketLinkWhole | script.js:105 | `[caption](url)` written on its own, with a caption free of `]` and line breaks and a URL with an explicit scheme and no white space or `)` (for the talk expression of script.js:303, no `)`), is matched whole, with the caption and the URL as its groups |
| RegexCore.BulletLinkAt | script.js:303 | a bullet match starts where it is tried, is not empty and has two groups |
| RegexCore.BulletLinkShape | script.js:303 | a bullet match is a dash, white space, and `[title](url)` with a title on one line and a URL with an explicit scheme and no `)` |
| RegexCore.BulletLinkWhole | script.js:303 | a written `- [title](url)`, with a title free of `]` and line breaks and a URL with an explicit scheme and no `)`, is matched whole with the title and the URL as groups |
| YouTubeRegex.CardTitle | script.js:169 | where the lazy title ends, `**](`, the same URL as the thumbnail's (`\1`), and `)` follow, and the title stays on one line |
| YouTubeRegex.CardTitleFirst | script.js:169 | the title ends at the first `**](url)` of the line: none starts before it, and when the search fails none starts anywhere on the rest of the line |
| RegexCore.FirstWhere | script.js:169 | the lazy search takes the first position of its range at which its test holds, and fails only when the test holds at no position of the range |
| YouTubeRegex.CardAlt | script.js:169 | the lazy alt text `\[!\[.*?\]\]` is the shortest one on the line after which the rest of the card matches; when no card is found, the rest matches after no alt text on the line |
| YouTubeRegex.CardPartsMakeCard | script.js:169 | the parts the card expression finds, laid end to end, spell out a card whose two links carry the same watch URL |
| YouTubeRegex.VideoCardAt | script.js:169 | a card match is a thumbnail link, `<br>` between blanks and a bold caption linking to the same watch URL; group 1 is that URL, group 2 the caption on one line |
| YouTubeRegex.StarsFrom | script.js:194 | where `.*?\*\*` stops, `**` follows, and the text skipped stays on one line |
| YouTubeRegex.StarsFromFirst | script.js:194 | `.*?\*\*` stops at the first `**` of the line: none starts before it, and when the search fails none starts anywhere on the rest of the line |
| YouTubeRegex.WatchUrlAt | script.js:194 | a fallback match is the watch prefix, an id of at least six `[A-Za-z0-9_-]`, text on the same line, `**`, and an optional `]` and `)`; group 1 is the URL and group 2 the id |
| YouTubeRegex.WatchUrlShape | script.js:194 | the id run of a fallback match is as long as it goes, the text after it stops at the first `**` of the line, and the `]` and `)` are taken when present |
| YouTubeRegex.WatchUrlWhole | script.js:194 | a watch URL with an id of six or more `[A-Za-z0-9_-]`, then text on the same line up to `**`, is found with the URL and the id as groups |
| YouTubeRegex.VideoCardWhole | script.js:169 | a card written out in full, with its alt text and title on one line and a watch URL, is found by the card expression |
| RegexExec.Exec | script.js:172 | `exec` finds the leftmost match at or after `lastIndex`, and nothing when no position from there on matches |
| RegexExec.AllMatches | script.js:172 | the matches the `exec` loop visits lie in the text, are in order and do not overlap |
| RegexExec.AllMatchesCover | script.js:197 | no match is skipped: every position where the expression matches starts a visited match or lies inside one |
| RegexExec.CollectMatches | script.js:305-308 | the loop `while ((m = re.exec(s)) && items.length < n) items.push(f(m))` gives the items of the first n matches, or of all of them |
| Videos.WatchId | script.js:176 | `searchParams.get("v")` of a watch URL is the text after the prefix up to the next `&` or `#` |
| Videos.ThumbnailUrlInjective | script.js:176 | different ids give different thumbnail URLs |
| Videos.WatchIdOfId | script.js:176 | an id made of `[A-Za-z0-9_-]` is read back whole from its watch URL |
| Videos.CardWindow | script.js:165-167 | the searched text is missing exactly when "Recent YouTube Videos" does not occur, and otherwise is at most 8000 characters |
| Videos.ReadmeVideos | script.js:164-181 | the extractor returns at most six videos, and none when the marker does not occur |
| Videos.ReadmeVideoIsCard | script.js:169-179 | each video is the card match of the same rank in document order; its URL is a watch URL, its title the caption, its thumbnail the one of its id, and its date null |
| Videos.ReadmeVideosMissNoCard | script.js:172 | with fewer than six videos, every card of the window starts inside one of the matches returned |
| Videos.ReadmeVideosFindWrittenCard | script.js:167-172 | with fewer than six videos, a card written out in full in the window lies inside one of the matches returned |
| Videos.ParseVideosFromReadme | script.js:164-181 | the extractor returns the first six card matches of the window, as videos |
| Videos.FallbackVideos | script.js:193-205 | the fallback list has at most six videos |
| Videos.FallbackVideoOfMatch | script.js:198-203 | the video built from a fallback match links to a watch URL whose id is the match's second group, has the title "YouTube Video" and no date, and shows that id's thumbnail |
| Videos.FallbackVideoIsWatchUrl | script.js:194-203 | a fallback video links to a watch URL, has the title "YouTube Video" and no date, and its thumbnail is the one of the id its URL gives back |
| Videos.ScanWatchUrls | script.js:193-205 | the fallback loop returns the first six watch-URL matches of the whole README, as videos |
| Videos.VideosToShow | script.js:191-206 | the grid shows at most six videos |
| Videos.ShownVideosAreWatchUrls | script.js:191-206 | whichever list is shown, every video links to a watch URL, shows the thumbnail of that URL's id and has no date |
| Videos.ChooseVideos | script.js:191-208 | the grid gets the README cards, or the fallback list when there are none; it is empty only when both are |
| Speaking.TalkWindow | script.js:300-302 | the searched text is missing exactly when "Sometimes I speak at conferences" does not occur, and otherwise is at most 6000 characters |
| Speaking.ReadmeTalks | script.js:299-310 | the extractor returns at most twenty talks, and none when the marker does not occur |
| Speaking.ReadmeTalkIsBulletLink | script.js:303-307 | each talk is the bullet match of the same rank in document order: a dash, white space and `[title](url)` with a title on one line and a URL with an explicit scheme and no `)` |
| Speaking.ReadmeTalksMissNoLink | script.js:306 | with fewer than twenty talks, every bullet link of the window starts inside one of the matches returned |
| Speaking.TalkOfWrittenLink | script.js:303-307 | a written `- [title](url)`, with only white space (possibly none) between the dash and `[`, a title free of `]` and line breaks, and a URL with an explicit scheme and no `)`, is read back as the talk with that title and URL |
| Speaking.ReadmeTalksFindWrittenLink | script.js:302-307 | with fewer than twenty talks, a bullet link written out in the window lies inside one of the matches returned |
| Speaking.ParseSpeakingFromReadme | script.js:299-310 | the extractor returns the first twenty bullet links of the window, as talks |

## Left out

- Fetching the README, `async`/`await`, `res.ok` and the `try`/`catch` error paths are not modelled. The extractors take the README text as a parameter.
- The DOM is not modelled. This covers `innerHTML`, `textContent` and the list and card elements, apart from the choices made before rendering (`Intro.DisplayedIntro`, `Highlights.DisplayedHighlights`, `Videos.ChooseVideos`).
- The rest of `script.js` is not part of this model: the GitHub profile card, the articles feed, and talk rendering.
- Text.ToLower: only ASCII letters are lower-cased. `toLowerCase` also folds other letters, but the words compared after it ("#### about" and "that's me") are ASCII. Among non-ASCII characters, only U+0130 and U+212A lower-case to ASCII letters ("i" and "k"), and neither of those letters occurs in the compared words.
- Strings are sequences of Unicode scalar values, not UTF-16 code units. Every character the extractors test for lies in the Basic Multilingual Plane.
- Videos.CardWindow: the 8000-character window of `slice` (script.js:167) counts UTF-16 code units, and the model counts scalar values. When characters outside the Basic Multilingual Plane, such as emoji, follow the marker, the model's window reaches further into the README than the page's.
- Speaking.TalkWindow: the 6000-character window (script.js:302) is counted in scalar values, not UTF-16 code units, for the same reason. With emoji after the marker, the model's window is longer than the page's.
- Videos.WatchId: models `new URL(url).searchParams.get("v")` only for URLs that start with the watch prefix, which are the only ones it is applied to. Percent-decoding and `+` as a space are not modelled, and neither are the exceptions `new URL` can throw.
- The source loops are separate methods: the heading search (`Sections.FindHeading`), the paragraph loop (`Intro.ParagraphFrom`), the bullet loop (`Highlights.BulletsFrom`) and the three `exec` loops (`RegexExec.CollectMatches`, given each loop's conversion of a match).
- The `start === -1` branch of `parseIntroFromReadme` is not modelled as a reachable path, and neither is the same case in `parseHighlightsFromReadme`, where it would read `lines[-1]`. Both are proved unreachable, because the marker's own line always passes the heading test.
- The `lastIndex` bookkeeping for empty matches is not modelled. None of the four expressions can match the empty string.
