# Newser preprocessing, modelled in Dafny

Newser prepares crawled news articles (Markdown files) for a retrieval
pipeline. This project models the per-document text transforms of that
preparation and proves what each one guarantees:

- **Byline block** (`preprocess/author.py`). Scanning upwards from the end,
  the run of source/author/editor lines at the foot of an article is found.
  The article is then rewritten as the body, a `---` rule, and the block as
  Markdown quote lines.
- **Author extraction** (`extract_metadata` in `preprocess/clean.py`).
  Lines that open with 撰稿人：, 投稿人： or 信息来源： give author names. The
  names are split at '、', stripped, deduplicated and sorted.
- **Article cleaning** (`clean_content` in `preprocess/clean.py`). In order:
  - the first Setext title and the first `# ` title are removed;
  - a leading cover-image line is dropped;
  - every line mentioning 阅读原文 is dropped;
  - the promotional phrases are deleted;
  - the characters `*`, `〓` and `▼` are deleted;
  - runs of blank lines are collapsed;
  - the ends are stripped.
- **Title** (`preprocess/main_title.py`). A Markdown file gets an H1 line
  made from its file name, unless its content already opens with one.
- **Light cleaning** (`clean_content` in `preprocess.py`). Three deletions
  in a fixed order: a link literal, cover-image links, and ASCII-colon
  bylines.
- **Paragraph split** (`split.py`). A document is cut at `"\n\n"`, the
  pieces are stripped, and the empty ones are dropped. The paragraphs
  become rows numbered from 0 per document.

Strings are `seq<char>`. Whitespace is the exact set of characters Python's
`str.isspace` accepts. That is also what `\s` matches in a `str` regex and
what `strip()` removes. `str.splitlines` is modelled with all of Python's
line boundaries, and `"\r\n"` counts as one. Each regular expression
becomes a deterministic scanner equal to what the backtracking matcher
does on that pattern; each scanner's doc comment argues why. No general
regex engine is modelled.

Modules:
- `Text` and `StringOrder` (text.dfy): the string primitives.
- `Patterns` (patterns.dfy): deleting every match of a pattern.
- `MetadataLine` and `Byline` (metadata_line.dfy, byline.dfy).
- `Authors` (authors.dfy).
- `ArticleCleaner` (article_clean.dfy).
- `MainTitle` (main_title.dfy).
- `LightCleaner` (light_clean.dfy).
- `Paragraphs` (paragraphs.dfy).

Some behaviour the proofs bring out:
- A line holding `阅读*原文` survives the read-more filter, because the
  filter runs before the `*` deletion. Once the `*` is gone the word is
  whole again (`SplitReadMoreSurvives`).
- The `[阅读原文](javascript:;)` promotional alternative can never match,
  because its lines are already gone (`ReadMorePromoNeverMatches`).
- The link literal in `preprocess/clean.py:11` is a non-raw Python string,
  so its `\(` keeps the backslash. It therefore differs from the literal
  `preprocess.py:10` deletes. Both are modelled as written.
- The light cleaner's order matters. A byline label directly followed by a
  cover-image link keeps the label, but deleting bylines first would have
  taken the link with it (`OrderOfDeletions`).
- Adding a title twice adds a second title whenever neither the file
  name's stem nor the content has a visible character (`BlankTitleTwice`).
  Such stems occur: the name " .md" has the stem " " (`SpaceNameStem`).

## Model

| member | source | states |
|---|---|---|
| Text.SplitLines | preprocess/clean.py:27 | `str.splitlines`: no line holds a line boundary, and only the empty text has no lines |
| Text.SplitLinesJoin | preprocess/clean.py:51-53 | for text whose only boundary is '\n', splitting into lines and joining with '\n' gives the text back less a final '\n' |
| Text.StripEnds | preprocess/clean.py:67-68 | `strip()` leaves no whitespace at either end, and the result is empty exactly when the text is all whitespace |
| Text.StripIdempotent | preprocess/clean.py:67-68 | stripping twice is stripping once |
| Text.Strip | preprocess/clean.py:67-68 | `strip()`: the leading run of the class, then the trailing one, is cut off (its properties are StripEnds, StripIdempotent and StripDropsOnly) |
| Text.StripDropsOnly | preprocess/clean.py:67-68 | what `strip()` cuts off at either end is whitespace only |
| Text.Find | split.py:7 | the leftmost occurrence of a non-empty pattern, or none exactly when it does not occur |
| Text.SplitOn | split.py:7 | `str.split(sep)`: joining the pieces with `sep` gives the text back, no piece holds `sep`, there is one piece exactly when `sep` does not occur, and otherwise the first cut is at the leftmost occurrence |
| Text.SplitOnCount | split.py:7 | the number of pieces is the number of non-overlapping occurrences plus one |
| Text.SplitCharPieces | preprocess/clean.py:30 | `split('、')`: at least one piece, no piece holds '、', and joining with '、' gives the text back |
| Text.SplitCharJoin | preprocess/clean.py:64 | the pieces of two texts joined by the separator are the pieces of each, one after the other |
| Text.NonBlankKeeps | preprocess/author.py:69 | filtering out blank items keeps the others in order, each as often as it occurs, and drops every blank one |
| Text.StripLeadingSpaces | preprocess/clean.py:67 | whitespace put in front of a text changes nothing under `strip()` |
| Text.StripTrailingSpaces | preprocess/clean.py:68 | whitespace put behind a text changes nothing under `strip()` |
| Text.Join | preprocess/clean.py:53 | `sep.join(items)`: the items with `sep` between neighbours (its properties are SplitLinesJoin, SplitCharPieces, JoinAvoids, JoinHasItem and JoinFromItems) |
| Text.JoinCons | preprocess/clean.py:53 | joining an item in front of a non-empty list puts one separator between it and the rest |
| Text.JoinAvoids | preprocess/clean.py:51-53 | lines free of a pattern that holds no '\n', joined by '\n', are free of it too: no occurrence is made across a line boundary |
| Text.JoinHasItem | preprocess/clean.py:53 | every character of every item is in the joined text |
| Text.JoinFromItems | preprocess/clean.py:53 | every character of the joined text comes from an item or from the separator |
| Text.Concat | preprocess/author.py:72-75 | `"".join(items)`: the items one after the other (its property is ConcatAppend) |
| Text.ConcatAppend | preprocess/author.py:72-75 | concatenating two lists of lines is concatenating each and putting the results together |
| Text.RStrip | preprocess/author.py:72 | `rstrip()`: the text up to where its trailing run of the class starts (its property is RStripSplit) |
| Text.RStripSplit | preprocess/author.py:72 | the text is its `rstrip()` followed by characters of the class only, so `rstrip()` keeps a prefix and cuts off nothing else |
| Text.Occurrences | split.py:7 | the non-overlapping occurrences of `sep` counted from the left, the way `str.split` finds them (its property is SplitOnCount) |
| Text.OccurrencesSkip | split.py:7 | a prefix in which no occurrence starts adds nothing to the count |
| StringOrder.SortedSet | preprocess/clean.py:35 | `sorted(set(xs))`: strictly ascending, and holding exactly the items of `xs` |
| Patterns.Delete | preprocess/clean.py:56 | deleting every match leaves a subsequence of the text |
| Patterns.FirstAlternative | preprocess/clean.py:7-16 | an alternation tries its alternatives in order: it matches the length of the first alternative that opens the text (none before it does), and fails only when none does |
| Patterns.CoverImageLength | preprocess.py:12 | the match of `!\[cover_image\]\(https?://[^\)]+\)` at a position (its properties are the LightCleaner rows) |
| Patterns.AsciiBylineLength | preprocess.py:14 | the match of `撰稿人:\s*\S+` at a position (its properties are the LightCleaner rows) |
| Patterns.DeleteNoMatch | preprocess/clean.py:56 | a text where the pattern matches nowhere is unchanged |
| Patterns.DeleteKeepsUnmatchedPrefix | preprocess.py:12-14 | text before the first match is kept, and deletion goes on after it |
| Patterns.DeleteTrailingMatch | preprocess.py:12-14 | unmatched text followed by one match running to the end leaves only the unmatched text |
| Patterns.LiteralAbsent | preprocess/clean.py:59 | `replace(t, "")` changes nothing when `t` does not occur |
| Patterns.AnyLiteralAbsent | preprocess/clean.py:7-16 | the escaped alternation changes nothing when no alternative occurs |
| Patterns.DeleteCharIsWithout | preprocess/clean.py:59-61 | `replace(c, "")` for one character is filtering that character out |
| Patterns.DeleteCharGone | preprocess/clean.py:59-61 | after `replace(c, "")` no `c` is left |
| MetadataLine.KeywordOffset | preprocess/author.py:24 | where the keyword search starts: after leading whitespace, one optional '*' or '-', and more whitespace; never past the end |
| MetadataLine.MetadataPattern | preprocess/author.py:24 | `METADATA_PATTERN.match`: a keyword at that offset, then whitespace, a colon of either width and the rest of one line (its properties are MetadataMatchHasShape, MetadataShapeMatches, MetadataNotBlank and ForeignStartNotMetadata) |
| MetadataLine.MetadataMatchHasShape | preprocess/author.py:24 | every text the pattern matches reads whitespace, at most one '*' or '-', whitespace, a keyword at the keyword offset, whitespace, a colon of either width, and the rest of one line |
| MetadataLine.MetadataShapeMatches | preprocess/author.py:24 | every text of that shape matches, and the keyword offset lands on its keyword |
| MetadataLine.KeywordMatchHasShape | preprocess/author.py:24 | a keyword leading to a colon at the keyword offset gives the shape, with that keyword |
| MetadataLine.KeywordShapeMatches | preprocess/author.py:24 | the shape with a keyword that opens with neither whitespace nor a marker: the keyword offset lands on the keyword, and the keyword leads to the colon |
| MetadataLine.KeywordOffsetParts | preprocess/author.py:24 | what the keyword offset skips is whitespace, at most one '*' or '-', and whitespace |
| MetadataLine.KeywordOffsetAt | preprocess/author.py:24 | whitespace, at most one marker and whitespace before a character that is none of these: the offset stops at that character |
| MetadataLine.IsMetadataLine | preprocess/author.py:46-49 | the line, stripped and then stripped of "*- _", matches the pattern (its properties are ClassifyLine and QuoteLineNotMetadata) |
| MetadataLine.MetadataNotBlank | preprocess/author.py:24 | a blank line never matches the metadata pattern |
| MetadataLine.QuoteLine | preprocess/author.py:69 | a quoted line opens with "> " and ends with '\n' |
| MetadataLine.ClassifyLine | preprocess/author.py:46-49 | the line is metadata exactly when its kind is metadata; otherwise its stripped content is empty exactly when it is blank |
| MetadataLine.ForeignStartNotMetadata | preprocess/author.py:24 | a line opening with no whitespace, no mark and no keyword start is not metadata |
| MetadataLine.QuoteLineNotMetadata | preprocess/author.py:69 | a quoted line is never taken for metadata |
| Byline.LastVisible | preprocess/author.py:45-53 | the last non-blank line, with only blank lines below it |
| Byline.LastVisibleIs | preprocess/author.py:45-53 | the non-blank line with only blank lines below it is the last visible one |
| Byline.BlockEndsWithMetadata | preprocess/author.py:49-50 | the last line of a trailing block is a metadata line |
| Byline.BlockUnique | preprocess/author.py:43-59 | there is at most one maximal trailing block |
| Byline.NoBlockExcludesBlock | preprocess/author.py:52-53 | when the last visible line is text there is no trailing block |
| Byline.TrailingBlockIndices | preprocess/author.py:43-59 | the scan returns consecutive indices forming the maximal trailing block, or none exactly when the last visible line is text |
| Byline.Quoted | preprocess/author.py:69 | the quote has no more lines than the block |
| Byline.QuotedInOrder | preprocess/author.py:69 | line `i` of the quote is the `i`-th non-blank block line, quoted |
| Byline.QuotedMatchesVisible | preprocess/author.py:69 | one quote line per non-blank block line, in order, and every non-blank line is quoted; blank lines give none |
| Byline.QuotedAppend | preprocess/author.py:69 | quoting works line by line |
| Byline.QuotedIgnoresBlankTail | preprocess/author.py:69 | blank lines after the last visible one add nothing to the quote |
| Byline.Body | preprocess/author.py:72 | the lines before the block, joined and right-stripped (its property is BodyKept) |
| Byline.Reassembled | preprocess/author.py:65-72 | the body, the rule "\n\n---" and the quoted block (its properties are FormatMetadata and the Quoted rows) |
| Byline.BodyKept | preprocess/author.py:72 | the original equals the body, then whitespace only, then the block lines |
| Byline.FormatMetadata | preprocess/author.py:43-75 | without a block the content is unchanged; with one it is the body, the rule and the quoted block, and the indices are the maximal trailing block |
| Authors.SearchKey | preprocess/clean.py:26 | the key followed by the fullwidth colon (its property is Contribution) |
| Authors.AuthorsOf | preprocess/clean.py:29-30 | a qualifying line gives at least one author |
| Authors.AuthorsOfClean | preprocess/clean.py:29-30 | every author from a line is stripped and holds no '、' |
| Authors.Contribution | preprocess/clean.py:28-31 | a line contributes authors exactly when it opens with the key and the fullwidth colon |
| Authors.GatherLinesSound | preprocess/clean.py:27-31 | every gathered author comes from some line |
| Authors.GatherLinesComplete | preprocess/clean.py:27-31 | every author of every line is gathered |
| Authors.GatherKeysSound | preprocess/clean.py:25-31 | every gathered author comes from some line for some key |
| Authors.GatherKeysComplete | preprocess/clean.py:25-31 | every author of every line for every key is gathered |
| Authors.AllAuthors | preprocess/clean.py:22-31 | the authors of every qualifying line, key after key (its properties are AllAuthorsMembers and the Gather rows) |
| Authors.AllAuthorsMembers | preprocess/clean.py:25-31 | the gathered list holds exactly the authors of the text, and is empty exactly when no line qualifies |
| Authors.CollectForKey | preprocess/clean.py:27-31 | the inner loop appends the authors of the qualifying lines in line order |
| Authors.ExtractMetadata | preprocess/clean.py:20-37 | the only key is "authors"; it is present exactly when some line qualifies; its list is strictly ascending and holds exactly the text's authors |
| Authors.AuthorsAreClean | preprocess/clean.py:29-30 | every author of a text is stripped and holds no '、' |
| Authors.KeyAloneGivesEmptyAuthor | preprocess/clean.py:29-31 | a line holding only the key and colon contributes one empty author |
| Authors.IndentedLineIgnored | preprocess/clean.py:28 | an indented line never qualifies |
| Authors.AsciiColonIgnored | preprocess/clean.py:26-28 | a byline with an ASCII colon does not qualify |
| ArticleCleaner.SetextLength | preprocess/clean.py:5 | the Setext match at a line start (its properties are SetextMatchHasShape and SetextShapeMatches) |
| ArticleCleaner.AtxLength | preprocess/clean.py:6 | the ATX match at a line start (its properties are AtxMatchHasShape and AtxShapeMatches) |
| ArticleCleaner.HeadingLength | preprocess/clean.py:5-6 | a title match is non-empty and lies within the text |
| ArticleCleaner.SetextMatchHasShape | preprocess/clean.py:5 | a Setext match is a non-empty line, a run of '=', then the whole run of '\n' |
| ArticleCleaner.SetextShapeMatches | preprocess/clean.py:5 | a text opening with that shape is matched, for the whole title |
| ArticleCleaner.AtxMatchHasShape | preprocess/clean.py:6 | an ATX match is "# ", a non-empty rest of line, then the whole run of '\n' |
| ArticleCleaner.AtxShapeMatches | preprocess/clean.py:6 | a text opening with that shape is matched, for the whole title |
| ArticleCleaner.FindHeading | preprocess/clean.py:42-43 | the first line start from `p` on where the pattern matches; no match at any earlier line start |
| ArticleCleaner.RemoveHeading | preprocess/clean.py:42-43 | without a match the text is unchanged; otherwise exactly the first match is cut out |
| ArticleCleaner.Cut | preprocess/clean.py:42-43 | cutting keeps everything before and after the cut span |
| ArticleCleaner.RemoveHeadingFirst | preprocess/clean.py:42-43 | the title at the first line start that has one is the one removed, and the rest is kept as it is |
| ArticleCleaner.DropCover | preprocess/clean.py:46-48 | a text opening with the cover tag loses its first line and that line's '\n' (everything, with no '\n'); any other text is kept |
| ArticleCleaner.KeepLines | preprocess/clean.py:52 | the kept lines are in order, are exactly the lines without 阅读原文, and are all lines when none mentions it |
| ArticleCleaner.KeepLinesCounts | preprocess/clean.py:52 | every line without 阅读原文 is kept as often as it occurs, and no other line is kept |
| ArticleCleaner.DropReadMore | preprocess/clean.py:51-53 | the kept lines joined by '\n' (its properties are ReadMoreGone and DropReadMoreKeeps) |
| ArticleCleaner.ReadMoreGone | preprocess/clean.py:51-53 | no 阅读原文 is left, not even across a line break |
| ArticleCleaner.DropReadMoreKeeps | preprocess/clean.py:51-53 | text with only '\n' breaks and no 阅读原文 comes back less a final '\n' |
| ArticleCleaner.PromosWellFormed | preprocess/clean.py:7-16 | the eight promotional phrases form a pattern with no empty alternative |
| ArticleCleaner.NoPromoUnchanged | preprocess/clean.py:7-16 | text holding no promotional phrase is kept as it is |
| ArticleCleaner.ReadMorePromoNeverMatches | preprocess/clean.py:12 | after the read-more filter, the `[阅读原文](javascript:;)` alternative cannot occur |
| ArticleCleaner.DeleteMarks | preprocess/clean.py:59-61 | the three characters filtered out in turn (its properties are DeleteMarksIsReplace and DeleteMarksMembers) |
| ArticleCleaner.DeleteMarksIsReplace | preprocess/clean.py:59-61 | the three `replace` calls in order are the three character filters |
| ArticleCleaner.DeleteMarksMembers | preprocess/clean.py:59-61 | no mark is left and every other character is kept |
| ArticleCleaner.MarkRejoins | preprocess/clean.py:59-61 | a mark between two mark-free pieces is deleted and the pieces join |
| ArticleCleaner.SplitReadMoreSurvives | preprocess/clean.py:51-61 | "阅读*原文" does not hold 阅读原文, so its line passes the filter; after the mark deletion it is 阅读原文 |
| ArticleCleaner.BlankRunEnd | preprocess/clean.py:17 | where the match of `\n(\s*\n)+` at a leading '\n' ends: past that '\n' and never past the text (its properties are stated by BlankRunEndRun) |
| ArticleCleaner.BlankRunEndRun | preprocess/clean.py:17 | a match of `\n(\s*\n)+` skips only whitespace, ends just after a '\n', and leaves a first line that is not blank |
| ArticleCleaner.Collapse | preprocess/clean.py:64 | every match of `\n(\s*\n)+` replaced by one '\n' (its properties are the Collapse rows below) |
| ArticleCleaner.CollapseSubseq | preprocess/clean.py:64 | the collapse only deletes characters |
| ArticleCleaner.CollapseNoBlank | preprocess/clean.py:64 | after the collapse no line between two line breaks is blank |
| ArticleCleaner.CollapseKeepsVisible | preprocess/clean.py:64 | the collapse deletes whitespace only: the visible characters are unchanged and in order |
| ArticleCleaner.CollapseFixed | preprocess/clean.py:64 | text without blank lines is unchanged, so collapsing twice is collapsing once |
| ArticleCleaner.NoVisibleLines | preprocess/clean.py:64 | a text of whitespace only has no line with a visible character |
| ArticleCleaner.CollapseLines | preprocess/clean.py:64 | behind any start of a line, the collapse leaves the lines with a visible character as they were, in order |
| ArticleCleaner.CollapseKeepsLines | preprocess/clean.py:63-64 | the collapse drops blank lines only: the lines with a visible character are the same, in the same order; with CollapseNoBlank, each run of blank lines between two visible lines becomes one line break |
| ArticleCleaner.CollapseEnds | preprocess/clean.py:63-64 | the collapse keeps the first and the last character and empties only the empty text, so a run of blank lines at either end of the text still leaves one line break there |
| ArticleCleaner.StripKeepsLines | preprocess/clean.py:66-68 | stripping the ends changes no line with a visible character other than by whitespace at its ends |
| ArticleCleaner.Prepare | preprocess/clean.py:42-56 | the titles, the cover line, the read-more lines and the promotional phrases removed in that order (its properties are the rows above) |
| ArticleCleaner.Finish | preprocess/clean.py:59-68 | the marks deleted, the runs collapsed and the ends stripped (its properties are FinishClean and FinishKeepsLines) |
| ArticleCleaner.FinishClean | preprocess/clean.py:58-68 | after the marks, the collapse and the strip: no mark, no blank line, nothing left to strip |
| ArticleCleaner.FinishKeepsLines | preprocess/clean.py:58-68 | the finished text has the visible lines of the text with its marks deleted, in order, up to whitespace at their ends |
| ArticleCleaner.CleanContent | preprocess/clean.py:39-70 | `clean_content`: Finish after Prepare (its properties are CleanContentClean) |
| ArticleCleaner.CleanContentClean | preprocess/clean.py:39-70 | a cleaned article holds no mark, no blank line between line breaks, and no whitespace at either end; its visible lines are those of the prepared text with the marks deleted, in order, up to whitespace at their ends |
| MainTitle.Stem | preprocess/main_title.py:29 | `os.path.splitext(name)[0]`: never longer than the name (its properties are the Stem rows) |
| MainTitle.RFind | preprocess/main_title.py:29 | the index of the last occurrence, or -1 when there is none |
| MainTitle.StemIsPrefix | preprocess/main_title.py:29 | `splitext(name)[0]` is a prefix of the name |
| MainTitle.StemDropsExtension | preprocess/main_title.py:29 | what is dropped is nothing, or one '.' followed by no '.' and no '/' |
| MainTitle.StemKeepsBaseName | preprocess/main_title.py:29 | a leading dot is never taken as an extension: the kept base name is not all dots |
| MainTitle.MarkdownStem | preprocess/main_title.py:29 | a ".md" name with a real base name loses exactly ".md" |
| MainTitle.Titled | preprocess/main_title.py:41 | the stripped content opens with "# " (its properties are TitleLineTitles and BlankTitleTwice) |
| MainTitle.AddTitle | preprocess/main_title.py:41-45 | the content is kept exactly when it is titled; otherwise the title line and a blank line are put in front |
| MainTitle.TitleLineTitles | preprocess/main_title.py:32 | a title line followed by text with a visible character makes the content titled |
| MainTitle.AddTitleIdempotent | preprocess/main_title.py:41-45 | a second run changes nothing when the stem or the content has a visible character |
| MainTitle.BlankTitleTwice | preprocess/main_title.py:32-45 | for every blank stem and blank content a second run adds a second title |
| MainTitle.SpaceNameStem | preprocess/main_title.py:29 | the name " .md" has the blank stem " ", so BlankTitleTwice applies to a real file name |
| MainTitle.TitleFiles | preprocess/main_title.py:23-24 | only ".md" names are written |
| MainTitle.TitleFilesExactly | preprocess/main_title.py:23-49 | every ".md" file is written with its new content, and nothing else is written |
| LightCleaner.CleanContent | preprocess.py:7-15 | the result is a subsequence of the text |
| LightCleaner.NothingToDeleteUnchanged | preprocess.py:7-15 | text holding none of the three patterns is unchanged |
| LightCleaner.FullwidthBylineKept | preprocess.py:14 | a byline with the fullwidth colon is not matched |
| LightCleaner.OrderOfDeletions | preprocess.py:12-14 | a byline label followed by a cover link keeps the label; bylines first would delete both |
| Paragraphs.NonEmptyStripped | split.py:7 | no more paragraphs than pieces |
| Paragraphs.NonEmptyStrippedSound | split.py:7 | every paragraph is a non-empty stripped piece |
| Paragraphs.NonEmptyStrippedComplete | split.py:7 | every non-blank piece gives its stripped paragraph |
| Paragraphs.NonEmptyStrippedCounts | split.py:7 | one paragraph per non-blank piece: each stripped piece occurs among the paragraphs exactly as often as among the stripped pieces, the empty one never; with NonEmptyStrippedInOrder this fixes the paragraphs |
| Paragraphs.SplitParagraphs | split.py:4-7 | `split_text_by_paragraphs`: the stripped non-blank pieces between "\n\n" (its properties are the Paragraph rows) |
| Paragraphs.ParagraphShape | split.py:4-7 | every paragraph is non-empty, stripped, and holds no "\n\n" |
| Paragraphs.ParagraphCount | split.py:4-7 | at most one more paragraph than "\n\n" occurrences; the paragraphs are the stripped pieces in piece order, one per non-blank piece |
| Paragraphs.NoParagraphsIffBlank | split.py:4-7 | there are no paragraphs exactly when the text is all whitespace |
| Paragraphs.FileRows | split.py:25-30 | row `i` of a document is its file name, `i` and its `i`-th paragraph |
| Paragraphs.DocRows | split.py:24-30 | the numbered rows of one document (its properties are FileRows and RowsOfDocument) |
| Paragraphs.AllRows | split.py:20-30 | the rows of every document, document after document (its properties are SplitDocuments and RowsOfDocument) |
| Paragraphs.AppendChunks | split.py:25-30 | the inner loop appends one row per paragraph, numbered from 0 in order, to the table |
| Paragraphs.SplitDocuments | split.py:20-30 | the table is the rows of every document, document after document |
| Paragraphs.RowsOfDocument | split.py:20-30 | each document's paragraphs are numbered 0, 1, ... in order, right after the rows of the documents before it |

## Left out

- File and directory I/O, `os.listdir`, `os.walk`, printing, and the `try`/`except` around reading are left out. Each transform is modelled on one document's text, file name or list of lines. The loops of `preprocess/main_title.py:23-49` and `split.py:20-30` are modelled over a sequence of files or documents. The per-file loops of `preprocess/clean.py:72-96`, `preprocess/author.py:30-79` and `preprocess.py:39-45` are not: they read each file, apply the modelled transforms to it, and write or collect the result.
- The CSV glue (pandas `read_csv`, `DataFrame`, `to_csv`) is left out. split.py's loop is modelled over a sequence of documents, each a file name and its content.
- preprocess/format.py is not part of this model.
- The `MarkdownIt()` parser created in `preprocess.py:24` is never used, and `structured_data` in `preprocess/clean.py:90-96` is built and dropped. Neither is modelled.
- The `len(cleaned_content) < 100` skip at `preprocess/clean.py:83` belongs to the directory loop and is not modelled.
- The misspelt `input_input_dir` at `preprocess/main_title.py:15` raises a `NameError` only on the missing-directory path, which is I/O and not modelled.
- author.py's "file already exists" skip (lines 36-38) depends on the file system and is not modelled.
- Regular expressions are not modelled in general. Each pattern is modelled as a scanner that matches what the backtracking matcher matches on that pattern.
- Byline.TrailingBlockIndices: the line kinds it is specified against are a ghost parameter. The method itself tests each line as the source does.
- ArticleCleaner.CleanContent is written as two halves, `Prepare` and `Finish`. Their composition is the source's sequence of steps.
- MainTitle.AddTitleIdempotent: stated only when the stem or the content has a visible character. Without one it does not hold (`BlankTitleTwice`).
