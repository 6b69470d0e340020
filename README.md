# airules: the generate command's section extraction, in Dafny

airules copies markdown rule files from a registered rules directory into a project. Its
`generate` command lists the rule files and their headings and lets the user pick files or
single sections. It then copies each picked file whole, or writes just the picked sections of
a file, with the file's front matter, under the same name.

This project models the core of that command:

- which rules directory is in effect (the `AIRULES_DIR` variable, then the configuration);
- the heading list of a file, from the expression `^(#{1,6})\s+(.+)$` applied with the
  flags `g` and `m`, matched position by position as JavaScript matches it;
- the display path of a listed file;
- the selection update after the prompt, and the formatting of a list of headings;
- the counting of what was selected, and the choice per file between a whole-file copy and
  a section extraction;
- splitting front matter off a markdown text and putting it back;
- finding a heading by its text, computing a slug from a heading text, and slicing the
  section a heading opens out of a parsed document;
- the aggregation of several sections into one output, and the exists / force / dry-run rule
  that decides whether a file is written.

The markdown parser and stringifier are a `Markdown` value: a parse function from text to a
`Document` (the root's top-level children and every heading of the tree, in document order)
and a stringify function from children to text. Both are parameters the model knows nothing
about. The Unicode classes `\p{L}` and `\p{N}` and `toLowerCase` are a `CharClasses` value,
with a sample instance for the worked examples. The path helpers are a `PathOps` value. The
file system appears as a `fileExists` or `dirExists` predicate, a `readFile` function and the
list of files a directory walk yields, and the environment as a map.

JavaScript's white space (what `trim` removes and `\s` matches) is modelled exactly: the
WhiteSpace and LineTerminator code points of ECMA-262 (sections 12.2 and 12.3).
The character classes the regular expressions use are named by small datatypes:
`HeadingExtractor.RunClass` (the `\s+` and `-+` of the slug) and `FileListing.RunKind`
(the `#`, `\s` and `.` runs of the heading expression).

The modules, one per file: `Nullable`, `Text`, `FrontMatter`, `MarkdownTypes`,
`HeadingExtractor`, `Slicer`, `GenerateTypes`, `RulesDir`, `Ui`, `FileOperations`,
`FileListing` and `Command`.

Points where the code behaves differently from how a markdown reader might expect, as the
model states them:

- The section count reported after an extraction is the number of selected headings,
  including the ones that were not found (`FileOperations.Extract`).
- `foundHeading` reports whether the stringified section is anything but white space. It is
  not a direct record of whether a heading matched (`Slicer.FoundMeansMatched`,
  `Slicer.NestedHeadingDropped`).
- The heading list comes from a regular expression, and the sections come from the markdown
  parser, so the two can disagree:
  - a closing `#` sequence stays in the listed text (`FileListing.ClosingSequenceKept`);
  - a lone `#` takes the next line as its text (`FileListing.LoneHashTakesNextLine`).
- A `.prompt.md` file is listed twice, since the `*.md` glob matches it as well
  (`FileListing.ListRuleFiles`, `FileListing.PromptFileEnumeratedTwice`);
  `FileListing.ListRuleFilesOnce` is the listing with every file once.
- The extracted body begins with the line feed of the blank line that follows the front
  matter (`FrontMatter.RoundTrip`).

## Model

| member | source | states |
|---|---|---|
| Text.Trim | src/markdown/slicer.ts:85 | `trim` leaves no white space at either end and never lengthens the text |
| Text.TrimIsInfix | src/markdown/heading-extractor.ts:47 | the trimmed text is a contiguous piece of the input with only white space cut off on either side |
| Text.TrimTrimmed | src/markdown/heading-extractor.ts:61 | trimming an already trimmed text changes nothing |
| Text.BlankIffAllWhitespace | src/markdown/slicer.ts:122 | `trim().length > 0` is false exactly when every character is white space |
| Text.TrimStart | src/markdown/frontmatter.ts:17 | `trimStart` never lengthens the text and leaves no leading white space |
| Text.TrimStartCut | src/markdown/frontmatter.ts:17 | `trimStart` removes a prefix made only of white space and keeps the rest of the text unchanged |
| Text.TrimStartKeeps | src/markdown/frontmatter.ts:17 | text not starting with white space is left as it is |
| Text.LineTerminatorIsWhitespace | src/commands/generate/file-listing.ts:73 | every line terminator is also white space, so `\s+` may cross a line end |
| Text.Join | src/markdown/heading-extractor.ts:22 | no ensures of its own: `Text.JoinAppend`, `HeadingExtractor.InlineTextIsJoin` and the `Ui.Format` lemmas state it |
| Text.JoinAppend | src/commands/generate/file-operations.ts:66 | joining two non-empty lists is joining each and putting the separator between them |
| FrontMatter.DelimiterLineEnd | src/markdown/frontmatter.ts:27 | the opening `---\r?\n` matched at a position, with the carriage return taken exactly when a line feed follows |
| FrontMatter.ClosingEnd | src/markdown/frontmatter.ts:27 | the closing `\r?\n---\r?\n` matched at a position is one of its four spellings |
| FrontMatter.FindClosing | src/markdown/frontmatter.ts:27 | the lazy body ends at the first position where a closing delimiter starts, and there is none before it |
| FrontMatter.ExtractFrontMatter | src/markdown/frontmatter.ts:15-49 | no `---` prefix after leading white space, or no match, gives the input back with no front matter; a match splits the input into opening, front matter, closing and content, with no closing delimiter inside the front matter |
| FrontMatter.Splits | src/markdown/frontmatter.ts:15-49 | the converse: text of the split shape, with any spelling of the delimiters, is split into exactly that front matter and content |
| FrontMatter.SplitsWith | src/markdown/frontmatter.ts:17-47 | with the opening and closing delimiter named, the prefix test passes and the match yields the text between them and what follows |
| FrontMatter.DelimiterAt | src/markdown/frontmatter.ts:27 | a `---` line with either line end, present at a position, is matched whole there |
| FrontMatter.OpeningAt | src/markdown/frontmatter.ts:17-27 | text opening with a delimiter line passes the `trimStart().startsWith` test and the anchored opening is matched whole |
| FrontMatter.ClosingAt | src/markdown/frontmatter.ts:27 | each of the four spellings of the closing delimiter, present at a position, is matched whole there |
| FrontMatter.CrlfDocument | src/markdown/frontmatter.ts:27-47 | `---`, `k: v` and `---` on carriage-return line ends, then `body`, split into `k: v` and `body` |
| FrontMatter.CombineNull | src/markdown/frontmatter.ts:62-64 | null front matter adds nothing |
| FrontMatter.CombineEmpty | src/markdown/frontmatter.ts:66-67 | empty front matter still gets both delimiters and the blank line |
| FrontMatter.CombineFrontMatter | src/markdown/frontmatter.ts:58-68 | no ensures of its own: `FrontMatter.CombineNull`, `FrontMatter.CombineEmpty`, `FrontMatter.CombinedLayout` and `FrontMatter.RoundTrip` state it |
| FrontMatter.DelimiterInside | src/markdown/frontmatter.ts:27 | a delimiter line inside the combined text corresponds to one in the front matter followed by a line feed |
| FrontMatter.NoClosingInside | src/markdown/frontmatter.ts:27 | inside front matter with no `---` line and no final carriage return, no closing delimiter starts |
| FrontMatter.FirstClosing | src/markdown/frontmatter.ts:27 | the search for the closing delimiter finds the first one |
| FrontMatter.ExtractAt | src/markdown/frontmatter.ts:27-42 | once the opening and the first closing delimiter are located, the front matter is the text between them and the content what follows the closing one |
| FrontMatter.CombinedLayout | src/markdown/frontmatter.ts:58-68 | the combined text opens with `---` and a line feed, holds the front matter next, then a closing delimiter, then a line feed and the content |
| FrontMatter.CombinedClosing | src/markdown/frontmatter.ts:27-68 | in combined text the first closing delimiter is the one the combiner wrote, provided the front matter holds none |
| FrontMatter.RoundTrip | src/markdown/frontmatter.ts:15-68 | splitting what the combiner made gives back the front matter, and the content preceded by one line feed |
| FrontMatter.EmptyFrontMatter | src/markdown/frontmatter.test.ts:28-37 | `---\n\n---\n\n` followed by content splits into empty front matter and a line feed plus the content |
| FrontMatter.ClosingAtEndOfInput | src/markdown/frontmatter.ts:27-37 | a closing `---` without a line feed after it closes nothing, so there is no front matter |
| FrontMatter.LeadingWhitespace | src/markdown/frontmatter.ts:17-37 | white space before the opening `---` passes the prefix test but not the anchored expression |
| FrontMatter.InteriorDelimiterClosesEarly | src/markdown/frontmatter.ts:27 | a `---` line inside the front matter ends the block early |
| FrontMatter.InteriorOpening | src/markdown/frontmatter.ts:17-27 | `---\na\n---\n---\n\nb` opens with a delimiter line ending at offset 4 |
| FrontMatter.InteriorClosing | src/markdown/frontmatter.ts:27 | in that text the first closing delimiter runs from offset 5 to offset 10, leaving `a` as front matter and the second `---` line in the content |
| HeadingExtractor.InlineText | src/markdown/heading-extractor.ts:19-22 | no ensures of its own: `HeadingExtractor.InlineTextIsJoin` relates it to the filter, map and join |
| HeadingExtractor.InlineTextIsJoin | src/markdown/heading-extractor.ts:19-22 | gluing the text runs one by one equals keeping the text children, taking their values and joining them with the empty separator |
| HeadingExtractor.GetHeadingText | src/markdown/heading-extractor.ts:18-23 | the values of the heading's text children, in order, joined with the empty separator |
| HeadingExtractor.InlineTextAppend | src/markdown/heading-extractor.ts:18-23 | the text of children one after the other is their texts one after the other |
| HeadingExtractor.InlineTextSingle | src/markdown/heading-extractor.ts:20-22 | a text child contributes its value, any other child nothing |
| HeadingExtractor.NoTextChildren | src/markdown/heading-extractor.ts:20 | a heading without text children has the empty text |
| HeadingExtractor.TwoTextRuns | src/markdown/heading-extractor.test.ts:19-46 | the runs `Heading` and ` Text` give `Heading Text` |
| HeadingExtractor.FirstMatchFrom | src/markdown/heading-extractor.ts:46-48 | the first index at or after a start whose trimmed heading text equals the trimmed query, or none when no such index exists |
| HeadingExtractor.FirstMatch | src/markdown/heading-extractor.ts:46-48 | the first heading in document order whose trimmed text equals the trimmed query; none exactly when no heading matches |
| HeadingExtractor.FindHeadingNode | src/markdown/heading-extractor.ts:32-51 | the loop returns the first matching heading of the parsed document, or nothing |
| HeadingExtractor.Lowercase | src/markdown/heading-extractor.ts:62 | maps each character by `CharClasses.toLower`, one character for one, so the length is kept |
| HeadingExtractor.RemoveSpecial | src/markdown/heading-extractor.ts:63 | only letters, numbers, white space and hyphens remain, each taken from the input; input made only of those is unchanged |
| HeadingExtractor.DropRun | src/markdown/heading-extractor.ts:64-65 | dropping a leading run leaves a suffix that does not start with the class |
| HeadingExtractor.ReplaceRuns | src/markdown/heading-extractor.ts:64-65 | the result is empty exactly when the input is, and it starts with a hyphen where the input starts with the class, with the input's first character otherwise |
| HeadingExtractor.ReplaceRunsStep | src/markdown/heading-extractor.ts:64-65 | one step of the global replacement: a leading run becomes one hyphen and the scan resumes after it; any other character is copied |
| HeadingExtractor.ReplaceRunsAtRun | src/markdown/heading-extractor.ts:64-65 | a leading run becomes one hyphen followed by the replacement of what follows the run |
| HeadingExtractor.ReplaceRunsAtPlain | src/markdown/heading-extractor.ts:64-65 | a leading character outside the class is copied |
| HeadingExtractor.ReplaceRunsChars | src/markdown/heading-extractor.ts:64-65 | every character of the result is a hyphen or an input character outside the class |
| HeadingExtractor.ConsNoDoubleHyphen | src/markdown/heading-extractor.ts:65 | a character put before text with no two hyphens in a row keeps that property unless both are hyphens |
| HeadingExtractor.HyphensSeparated | src/markdown/heading-extractor.ts:65 | after the hyphen runs are collapsed no two hyphens are adjacent |
| HeadingExtractor.HyphensCollapsed | src/markdown/heading-extractor.ts:65 | text with no two adjacent hyphens is left unchanged by the collapsing of hyphen runs, so applying that step twice equals applying it once |
| HeadingExtractor.ReplaceRunsUnchanged | src/markdown/heading-extractor.ts:64-65 | text where the class occurs only as single replacement characters is unchanged |
| HeadingExtractor.SettledTail | src/markdown/heading-extractor.ts:64-65 | what follows the first character of settled text is settled too |
| HeadingExtractor.SlugCharacters | src/markdown/heading-extractor.ts:59-66 | a slug holds no white space and no two hyphens in a row; every other character is a lowercase image that is a letter or number |
| HeadingExtractor.SlugIdempotent | src/markdown/heading-extractor.ts:59-66 | the slug of a slug is itself when lowercasing is idempotent and leaves the hyphen alone |
| HeadingExtractor.HeadingToSlug | src/markdown/heading-extractor.ts:59-66 | no ensures of its own: `HeadingExtractor.SlugCharacters`, `HeadingExtractor.SlugIdempotent` and the three worked examples state it |
| HeadingExtractor.RemoveSpecialAppend | src/markdown/heading-extractor.ts:63 | deleting special characters works piecewise |
| HeadingExtractor.ReplaceRunsPlain | src/markdown/heading-extractor.ts:64 | a stretch without the class passes through unchanged |
| HeadingExtractor.DropWholeRun | src/markdown/heading-extractor.ts:64 | a whole run is dropped up to the first character outside the class |
| HeadingExtractor.ReplaceRunsCollapse | src/markdown/heading-extractor.ts:64-65 | a maximal run becomes one replacement character |
| HeadingExtractor.ReplaceRunsNone | src/markdown/heading-extractor.ts:64-65 | text without the class is unchanged |
| HeadingExtractor.DropRunAt | src/markdown/heading-extractor.ts:64-65 | a leading run ending at `j` is dropped up to `j` |
| HeadingExtractor.RunAtStart | src/markdown/heading-extractor.ts:64-65 | text that opens with the only run of the class becomes a hyphen and the rest |
| HeadingExtractor.PrefixPlain | src/markdown/heading-extractor.ts:64-65 | a leading stretch without the class is copied and the replacement goes on after it |
| HeadingExtractor.SuffixRun | src/markdown/heading-extractor.ts:64-65 | from the start of the only remaining run, the replacement is a hyphen and the text after the run |
| HeadingExtractor.ReplaceOneRun | src/markdown/heading-extractor.ts:64 | one run between two stretches without the class becomes one replacement character |
| HeadingExtractor.SpacesLower | src/markdown/heading-extractor.ts:61-62 | `Hello  World!` is already trimmed and lowercases to `hello  world!` |
| HeadingExtractor.SpacesCleaned | src/markdown/heading-extractor.ts:63 | the exclamation mark is deleted |
| HeadingExtractor.SpacesHyphenated | src/markdown/heading-extractor.ts:64 | two spaces become one hyphen |
| HeadingExtractor.HyphensAlone | src/markdown/heading-extractor.ts:65 | a single hyphen stays |
| HeadingExtractor.SlugExampleSpaces | src/markdown/heading-extractor.test.ts:9 | `Hello  World!` gives `hello-world` |
| HeadingExtractor.IdeographsLower | src/markdown/heading-extractor.ts:61-62 | ideographs are untouched by lowercasing |
| HeadingExtractor.IdeographsCleaned | src/markdown/heading-extractor.ts:63 | ideographs are letters and are kept |
| HeadingExtractor.IdeographsHyphenated | src/markdown/heading-extractor.ts:64 | the space becomes a hyphen |
| HeadingExtractor.IdeographHyphensAlone | src/markdown/heading-extractor.ts:65 | a single hyphen stays |
| HeadingExtractor.SlugExampleIdeographs | src/markdown/heading-extractor.test.ts:10 | four ideographs, a space and `Test` give the ideographs, a hyphen and `test` |
| HeadingExtractor.TrimSpaceLower | src/markdown/heading-extractor.ts:61-62 | surrounding spaces are trimmed before lowercasing |
| HeadingExtractor.TrimSpaceCleaned | src/markdown/heading-extractor.ts:63 | nothing is deleted from `trim space` |
| HeadingExtractor.TrimSpaceHyphenated | src/markdown/heading-extractor.ts:64 | the inner space becomes a hyphen |
| HeadingExtractor.TrimSpaceHyphensAlone | src/markdown/heading-extractor.ts:65 | a single hyphen stays |
| HeadingExtractor.SlugExampleTrim | src/markdown/heading-extractor.test.ts:11 | ` Trim Space ` gives `trim-space` |
| Slicer.NextFrom | src/markdown/slicer.ts:27-32 | the first index from a start whose depth is at most the given one; none exactly when every later heading is deeper |
| Slicer.NextBoundary | src/markdown/slicer.ts:22-33 | the first heading after the current one that is not deeper; none exactly when all later ones are deeper |
| Slicer.FindNextHeadingOfSameOrLowerDepth | src/markdown/slicer.ts:22-33 | the loop returns that heading, or nothing |
| Slicer.NextBoundaryExample | src/markdown/slicer.test.ts:51-60 | with depths 1, 2, 2, 1 the boundaries are the fourth heading, the third, and none |
| Slicer.KeepBetween | src/markdown/slicer.ts:48-56 | the result is never longer than the children |
| Slicer.KeepBetweenMembers | src/markdown/slicer.ts:48-56 | a child is kept exactly when it has a start offset at or after the start and before the end |
| Slicer.KeepBetweenAppend | src/markdown/slicer.ts:48 | filtering works piecewise, so kept children keep their order |
| Slicer.KeepBetweenIdempotent | src/markdown/slicer.ts:48-56 | filtering twice is filtering once |
| Slicer.RootNode.constructor | src/markdown/slicer.ts:75 | a root holding the given children |
| Slicer.ExtractNodesBetweenOffsets | src/markdown/slicer.ts:42-58 | the root's children become those in range, in place |
| Slicer.SectionBounds | src/markdown/slicer.ts:83-111 | no bounds exactly when no heading matches; otherwise the start is the matched heading's offset, there is no end exactly when every later heading is deeper, and a finite end is the start offset of the first later heading that is not deeper |
| Slicer.SectionBlocks | src/markdown/slicer.ts:97-114 | no ensures of its own: the top-level children of the section, stated by `Slicer.SectionWindow` and `Slicer.SectionBounds` |
| Slicer.Slice | src/markdown/slicer.ts:67-124 | no ensures of its own: the result `Slicer.SliceMarkdownByHeading` computes, stated by `Slicer.NotFound` and `Slicer.FoundMeansMatched` |
| Slicer.SliceMarkdownByHeading | src/markdown/slicer.ts:67-124 | the content is the stringified children of the section, or of an empty root when nothing matches, and `foundHeading` says that content is not blank |
| Slicer.SectionWindow | src/markdown/slicer.ts:97-114 | every kept child starts at or after the matched heading and before every later heading that is not deeper; every positioned child in that window is kept |
| Slicer.NotFound | src/markdown/slicer.ts:89-95 | no matching heading gives the stringified empty root, which is not found when it is blank |
| Slicer.FoundMeansMatched | src/markdown/slicer.ts:89-122 | when an empty root stringifies to blank text, a found section comes from a matching heading |
| Slicer.NestedHeadingDropped | src/markdown/slicer.ts:77-114 | a heading nested in a blockquote is matched but its section keeps no top-level child, so it is not found |
| Slicer.UnpositionedDropped | src/markdown/slicer.ts:49-52 | a child without a position is never kept |
| Slicer.SecondSectionBounds | src/markdown/slicer.test.ts:67-77 | the section of `Heading 2` runs from its offset to that of `Heading 3` |
| Slicer.KeepAll | src/markdown/slicer.ts:48-56 | filtering keeps every child when each is in range |
| Slicer.KeepNone | src/markdown/slicer.ts:48-56 | filtering keeps nothing when none is in range |
| Slicer.KeepSlice | src/markdown/slicer.ts:48-56 | a stretch of children all in range is kept whole, one all out of range is dropped |
| Slicer.KeepDropPrefix | src/markdown/slicer.ts:48-56 | children before the range are dropped in front of what follows |
| Slicer.KeepDropSuffix | src/markdown/slicer.ts:48-56 | children after the range are dropped behind what precedes |
| Slicer.KeepContiguous | src/markdown/slicer.ts:48-56 | when exactly the children `i` to `j` are in range, the filter yields that stretch |
| Slicer.SecondSectionFilter | src/markdown/slicer.test.ts:67-83 | of six children, those at offsets 37 and 50 are kept |
| Slicer.SliceSecondSection | src/markdown/slicer.test.ts:64-85 | the section of `Heading 2` is its heading and its paragraph |
| RulesDir.OrNull | src/config/rules-dir.ts:15 | `x || null`: a missing or empty string becomes null |
| RulesDir.GetEnvRulesDir | src/config/rules-dir.ts:14-16 | the variable's value exactly when it is set and not empty |
| RulesDir.GetEffectiveRulesDir | src/config/rules-dir.ts:26-37 | never the empty string; it is the environment's directory or the configured one |
| RulesDir.EnvironmentWins | src/config/rules-dir.ts:30-33 | a non-empty variable wins over any configuration, a missing one included |
| RulesDir.ConfigFallback | src/config/rules-dir.ts:36 | without a usable variable the configured directory is used unless it is empty |
| RulesDir.NothingConfigured | src/config/rules-dir.test.ts:5-14 | neither variable nor configuration gives null |
| RulesDir.NoneIff | src/config/rules-dir.ts:26-37 | null exactly when neither source gives a non-empty directory |
| Ui.QuotedTexts | src/commands/generate/ui.ts:77 | the heading texts, each quoted, in order |
| Ui.NatToString | src/commands/generate/ui.ts:84 | a number as interpolation writes it: decimal digits, no leading zero |
| Ui.NatToStringValue | src/commands/generate/ui.ts:84 | the digits read back as the number |
| Ui.FormatHeadingsList | src/commands/generate/ui.ts:74-86 | no ensures of its own: its results are stated by `Ui.FormatShort` and `Ui.FormatLong` |
| Ui.FormatShort | src/commands/generate/ui.ts:74-77 | up to three headings are all quoted and separated by commas; none gives the empty string |
| Ui.FormatLong | src/commands/generate/ui.ts:78-85 | with more than three, exactly the first two quoted, separated by a comma, then `, and `, the decimal digits of the number left out and ` more` |
| Ui.FormatTwoExample | src/commands/generate/ui.test.ts:5-33 | two headings are both listed, quoted and separated by a comma |
| Ui.FormatFourExample | src/commands/generate/ui.test.ts:5-33 | four headings give the first two and `and 2 more` |
| Ui.ApplySelection | src/commands/generate/ui.ts:54-63 | the file is selected exactly when its path is among the values, a heading exactly when its file is or its own value is; nothing else changes |
| Ui.SelectedFileSelectsAll | src/commands/generate/ui.ts:61 | a selected file has every heading selected |
| Ui.SameTextSameFlag | src/commands/generate/ui.ts:26-61 | headings with the same text in one file end up equally selected |
| Ui.ApplySelectionTwice | src/commands/generate/ui.ts:54-63 | the result depends only on the last answer |
| Ui.UpdateSelections | src/commands/generate/ui.ts:54-63 | the loops update every file of the array in place, as the selection rule says |
| FileOperations.Decide | src/commands/generate/file-operations.ts:72-96 | a write happens exactly when the target is missing or forced and it is no dry run; a refusal exactly when it exists and is not forced |
| FileOperations.Sections | src/commands/generate/file-operations.ts:46-58 | no ensures of its own: the found sections of the selection loop, stated by `FileOperations.SectionsAppend`, `SectionsSingle`, `SectionsAccount` and `SectionsFromSelection` |
| FileOperations.Missing | src/commands/generate/file-operations.ts:46-58 | no ensures of its own: the texts of the headings not found, stated by `FileOperations.MissingAppend`, `SectionsAccount` and `MissingFromSelection` |
| FileOperations.Extract | src/commands/generate/file-operations.ts:24-97 | no ensures of its own: the outcome of an extraction, which `FileOperations.ExtractSelectedHeadings` computes and `NothingFoundWritesNothing`, `ExtractedContent`, `FrontMatterPreserved` and `SameWriteRule` state |
| FileOperations.CopyWholeFile | src/commands/generate/file-operations.ts:106-131 | the target keeps the file name in the target directory, and the decision follows the write rule for that target |
| FileOperations.ExtractSelectedHeadings | src/commands/generate/file-operations.ts:24-97 | the loop collects the sections found and the headings missing, each in selection order, and then ends as the aggregation prescribes |
| FileOperations.SectionsAppend | src/commands/generate/file-operations.ts:46-58 | every heading is sliced from the same body on its own, so the sections of a selection are those of its parts |
| FileOperations.MissingAppend | src/commands/generate/file-operations.ts:46-58 | likewise the headings reported missing for a selection are those of its parts |
| FileOperations.SectionsSingle | src/commands/generate/file-operations.ts:47-57 | one heading gives its section when found and a miss otherwise |
| FileOperations.SectionsAccount | src/commands/generate/file-operations.ts:46-58 | each selected heading is either found or missing, so the two counts add up to the selection |
| FileOperations.SectionsFromSelection | src/commands/generate/file-operations.ts:46-58 | every section is the non-blank slice of some selected heading |
| FileOperations.MissingFromSelection | src/commands/generate/file-operations.ts:46-58 | every missing text is that of a selected heading whose slice was not found |
| FileOperations.NoSections | src/commands/generate/file-operations.ts:52-55 | no heading found, no section |
| FileOperations.NothingFoundWritesNothing | src/commands/generate/file-operations.ts:61-63 | no heading found: nothing is written or reported, whatever the target |
| FileOperations.ExtractedContent | src/commands/generate/file-operations.ts:66-69 | the output is the front matter (if any) and the sections found joined by a blank line |
| FileOperations.FrontMatterPreserved | src/commands/generate/file-operations.ts:36-69 | splitting the output gives back the front matter split off the source |
| FileOperations.SameWriteRule | src/commands/generate/file-operations.ts:72-130 | an extraction and a whole copy to the same target follow the same write rule; the report counts every selected heading |
| FileListing.RunEnd | src/commands/generate/file-listing.ts:73 | a greedy run: every character up to its end is in the class, the next is not |
| FileListing.LastNonTerminator | src/commands/generate/file-listing.ts:73 | where backtracking `\s+` at the end of the input leaves `.` a character: the last one that ends no line |
| FileListing.MatchAt | src/commands/generate/file-listing.ts:73 | the text of a match starts after the `#` run and is non-empty |
| FileListing.MatchShape | src/commands/generate/file-listing.ts:73 | a match starts at a line start with one to six `#` followed by white space; its text holds no line terminator and runs to a line end or the end of the input |
| FileListing.Exec | src/commands/generate/file-listing.ts:76 | a match found by `exec` starts at or after `lastIndex`, and its text ends within the input |
| FileListing.ExecFound | src/commands/generate/file-listing.ts:76 | what `exec` returns is the match at the position it reports |
| FileListing.ExecFirst | src/commands/generate/file-listing.ts:76 | no match starts between `lastIndex` and the reported position; when `exec` finds nothing, no match starts anywhere from `lastIndex` on |
| FileListing.ListedHeadings | src/commands/generate/file-listing.ts:73-83 | no ensures of its own: the items of the `exec` loop, stated by `FileListing.ListedStep`, `ListedDone` and `ListedTexts` |
| FileListing.ListedStep | src/commands/generate/file-listing.ts:76-83 | the list is the first match's trimmed text, unselected, followed by the list after that match |
| FileListing.ListedDone | src/commands/generate/file-listing.ts:76 | once `exec` finds nothing the loop adds nothing |
| FileListing.ExtractHeadings | src/commands/generate/file-listing.ts:69-86 | the loop yields one item per match, in order |
| FileListing.TrimChars | src/commands/generate/file-listing.ts:78 | every character of the trimmed text is one of the text's |
| FileListing.MatchTextOneLine | src/commands/generate/file-listing.ts:73-78 | a listed text is trimmed and holds no line end |
| FileListing.ListedTexts | src/commands/generate/file-listing.ts:76-83 | every listed item is unselected, trimmed and on one line |
| FileListing.RunCovers | src/commands/generate/file-listing.ts:73 | a run covers every leading character of its class |
| FileListing.SevenHashes | src/commands/generate/file-listing.ts:73 | a line starting with seven `#` yields no item |
| FileListing.NoSpaceAfterHashes | src/commands/generate/file-listing.ts:73 | a `#` run not followed by white space yields no item |
| FileListing.RestOfLine | src/commands/generate/file-listing.ts:73-78 | where the white space stops before the end of the input, the text is the rest of that line |
| FileListing.ClosingSequenceKept | src/commands/generate/file-listing.ts:73-78 | `## Title ##` lists `Title ##` |
| FileListing.RunToEnd | src/commands/generate/file-listing.ts:73 | a run reaches the end of the input when every remaining character is in the class |
| FileListing.LoneHashTakesNextLine | src/commands/generate/file-listing.ts:73 | `#`, a line feed and `foo` list `foo` |
| FileListing.RelativePath | src/commands/generate/file-listing.ts:29-42 | under the rules directory the path is the rules directory, at most one separator, and the display path, the separator dropped exactly when one follows the directory; otherwise the parent directory's name, a slash and the file name |
| FileListing.MakeRuleFile | src/commands/generate/file-listing.ts:24-55 | a record for one file: its path and name, the display path `RelativePath` gives, unselected, collapsed, with the headings of its content |
| FileListing.MakeRuleFiles | src/commands/generate/file-listing.ts:22-57 | the loop over one glob's visits gives one record per visit, in order, each with that path, its name, its display path, unselected, collapsed, and the headings of its content |
| FileListing.GlobPaths | src/commands/generate/file-listing.ts:21-22 | a glob yields exactly the walked files whose name ends with the extension |
| FileListing.CountAppend | src/commands/generate/file-listing.ts:20 | occurrences in lists one after the other add up |
| FileListing.CountFilter | src/commands/generate/file-listing.ts:21-22 | a glob keeps all occurrences of a matching file and none of another |
| FileListing.PromptSuffixes | src/commands/generate/types.ts:45 | a `.prompt.md` name also ends in `.md` and never in `.mdc` |
| FileListing.PromptFileEnumeratedTwice | src/commands/generate/file-listing.ts:20-22 | a `.prompt.md` file found once by the walk is visited twice |
| FileListing.Dedup | src/commands/generate/file-listing.ts:20-22 | the visited files without repetitions: the same files, each once |
| FileListing.CountAbsent | src/commands/generate/file-listing.ts:20 | a path that is absent occurs zero times |
| FileListing.Enumerated | src/commands/generate/file-listing.ts:20-22 | the listing as intended: the visited files, each once |
| FileListing.EnumeratedDistinct | src/commands/generate/file-listing.ts:20-22 | the intended listing holds no path twice |
| FileListing.EnumeratedOnce | src/commands/generate/file-listing.ts:20-23 | a file is listed, once, exactly when the walk found it and its name has a target extension |
| FileListing.CountTwoPositions | src/commands/generate/file-listing.ts:20 | a path at two positions occurs at least twice |
| FileListing.CountPresent | src/commands/generate/file-listing.ts:20 | a present path occurs at least once |
| FileListing.ListRuleFiles | src/commands/generate/file-listing.ts:16-61 | as written: one record per visit of the three globs in turn, in visit order, each with the path, name, display path, selection and headings `MakeRuleFile` gives, so a `.prompt.md` file gets two records |
| FileListing.RecordsAppend | src/commands/generate/file-listing.ts:20-58 | the records of one glob appended to those of the earlier globs are the records of both visit lists |
| FileListing.GlobsAll | src/commands/generate/file-listing.ts:20 | the three globs one after the other are the as-written visit list |
| FileListing.ListRuleFilesOnce | src/commands/generate/file-listing.ts:16-61 | as intended: one record per file of the deduplicated listing, in order, and no path twice |
| Command.SelectedHeadings | src/commands/generate/command.ts:103 | exactly the selected headings, never more than there are |
| Command.SelectedHeadingsAppend | src/commands/generate/command.ts:103 | the filter keeps the order of what it keeps |
| Command.SelectedFileCount | src/commands/generate/command.ts:69-83 | no ensures of its own: the number of selected files, which `Command.CountSelections` computes and `Command.PlanEmptyIff` and `PlanSize` use |
| Command.SelectedHeadingCount | src/commands/generate/command.ts:69-83 | no ensures of its own: the selected headings of the files not selected, which `Command.CountSelections` computes and `Command.PlanEmptyIff` and `PlanSize` use |
| Command.CountSelections | src/commands/generate/command.ts:69-83 | the loops count the selected files, and the selected headings of the other files |
| Command.Plan | src/commands/generate/command.ts:97-115 | never more tasks than files |
| Command.PlanEmptyIff | src/commands/generate/command.ts:85-90 | there is nothing to do exactly when both counts are zero |
| Command.PlanCoversFiles | src/commands/generate/command.ts:97-115 | every selected file is copied whole, every other file with selected headings has exactly those extracted, and every task comes from one file in that way |
| Command.PlanSize | src/commands/generate/command.ts:69-115 | at least one task per selected file and no more tasks than selections |
| Command.PlanAppend | src/commands/generate/command.ts:97 | the tasks follow the order of the files |
| Command.Dispatch | src/commands/generate/command.ts:97-115 | the dispatch loop produces the plan |
| Command.Generate | src/commands/generate/command.ts:30-118 | success exactly when a rules directory is given and exists, a destination is given and files were listed; no rules directory means nothing is done; tasks only on success |
| Command.GenerateRunsPlan | src/commands/generate/command.ts:85-117 | on success the tasks are the plan; the early exit only skips an empty plan |
| Command.GenerateAction | src/commands/generate/command.ts:30-118 | the action body, guards in order, returns what `Generate` describes |

## Left out

- The markdown parser and stringifier (remark, unified, unist-util-visit) are the function values of `Markdown`. Nothing is assumed about their output, and the whitespace of stringified text is not modelled.
- The Unicode tables of `\p{L}` and `\p{N}` and the mapping of `toLowerCase` are the function values of `CharClasses`. `HeadingExtractor.SlugIdempotent` assumes lowercasing is idempotent and keeps the hyphen. 
- HeadingExtractor.Lowercase: a per-character map by `CharClasses.toLower`. It does not capture the mappings of `toLowerCase` that turn one character into several (U+0130 becomes `i` and a combining dot), nor the context-dependent ones (a capital sigma at the end of a word becomes the final sigma U+03C2, so `ΣΟΣ` gives `σος`); for text containing those the model's slug differs from the source's.
- `basename`, `dirname` and `join` of the standard path module are the function values of `PathOps`.
- File-system I/O: `exists`, `readTextFile`, `writeTextFile`, `copyFile`, `expandGlob` and the `isFile` test. `fileExists`, `dirExists` and `readFile` are parameters, and the walk is the list of files it yields in walk order. Writing, copying and logging become returned outcomes.
- Configuration loading and saving (src/config/file.ts), the setup command and the choice of destination (src/commands/generate/destination.ts) are not part of this model. The configuration and the chosen destination are inputs of `Command.Generate`.
- The interactive prompts. The answer of the checkbox prompt, a list of option values, is an input of `Ui.UpdateSelections`; building the option tree is not modelled.
- Console messages and their texts, apart from the data of the extraction report (section count, formatted heading list, front-matter flag).
- `async` and promises: every step runs in sequence.
- CLI wiring and re-exports (airules.ts, the command builders, src/commands/generate.ts, src/markdown/slice.ts, src/config.ts).
- Ui.UpdateSelections: works on an array of values. The source mutates the file and heading objects in place, so aliasing between them is not modelled.
- Command.Generate: takes the file list after the prompt. The source checks the list's length before the prompt, and the prompt keeps the same list.
- Command.GenerateAction: returns the tasks for `FileOperations.CopyWholeFile` and `FileOperations.ExtractSelectedHeadings` rather than running them.

## Findings

| source | as written | input that shows it | evidently intended | confidence | as-written member | corrected member |
|---|---|---|---|---|---|---|
| src/commands/generate/file-listing.ts:20-22 | one glob per extension, in the order `.md`, `.mdc`, `.prompt.md`; `*.md` also matches names ending in `.prompt.md` | a rules directory holding one file `a.prompt.md`: the `.md` glob and the `.prompt.md` glob both visit it, so it is listed, and offered in the prompt, twice (`FileListing.PromptFileEnumeratedTwice`: a `.prompt.md` file the walk yields once is visited twice, and `FileListing.ListRuleFiles` makes a record per visit) | each rule file listed once | not executed | FileListing.ListRuleFiles | FileListing.ListRuleFilesOnce |
