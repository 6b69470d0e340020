/**
 * What the generate command does with one chosen file (src/commands/generate/file-operations.ts):
 * copy it whole, or cut the chosen sections out of it and write them, with its front matter,
 * to a file of the same name in the target directory.
 *
 * The file system is a parameter: `fileExists` answers for the target path. Instead of
 * writing, copying and logging, each operation returns what it would do.
 */
module FileOperations {
  import opened Nullable
  import opened Text
  import opened FrontMatter
  import opened MarkdownTypes
  import opened Slicer
  import opened GenerateTypes
  import opened Ui

  /** The outcome of the exists / force / dry-run checks. */
  datatype Decision = Refused | DryRun | Written

  /** An existing target is refused unless forced; otherwise a dry run only reports. */
  function Decide(targetExists: bool, options: GenerateOptions): (d: Decision)
    ensures d == Written <==> (!targetExists || options.force) && !options.dryRun
    ensures d == Refused <==> targetExists && !options.force
  {
    if targetExists && !options.force then Refused
    else if options.dryRun then DryRun
    else Written
  }

  /** The target keeps the source's own file name. */
  function TargetPath(sourcePath: string, targetDir: string, paths: PathOps): string {
    paths.join(targetDir, paths.basename(sourcePath))
  }

  datatype CopyOutcome = CopyOutcome(targetPath: string, decision: Decision)

  /** copyWholeFile. */
  method CopyWholeFile(sourcePath: string, targetDir: string, options: GenerateOptions,
                       paths: PathOps, fileExists: string -> bool) returns (outcome: CopyOutcome)
    ensures outcome.targetPath == TargetPath(sourcePath, targetDir, paths)
    ensures outcome.decision == Decide(fileExists(outcome.targetPath), options)
  {
    var fileName := paths.basename(sourcePath);
    var targetPath := paths.join(targetDir, fileName);
    var targetExists := fileExists(targetPath);
    if targetExists && !options.force {
      return CopyOutcome(targetPath, Refused);
    }
    if options.dryRun {
      return CopyOutcome(targetPath, DryRun);
    }
    return CopyOutcome(targetPath, Written);
  }

  // ---------------------------------------------------------------------------------------
  // extractSelectedHeadings

  /** The contents of the selected headings that were found in `body`, in selection order. */
  function Sections(body: string, headings: seq<HeadingItem>, md: Markdown): seq<string>
  {
    if headings == [] then []
    else
      var last := Slice(body, headings[|headings| - 1].text, md);
      Sections(body, headings[..|headings| - 1], md) + if last.foundHeading then [last.content] else []
  }

  /** The texts of the selected headings that were not found, in selection order. */
  function Missing(body: string, headings: seq<HeadingItem>, md: Markdown): seq<string>
  {
    if headings == [] then []
    else
      var h := headings[|headings| - 1];
      Missing(body, headings[..|headings| - 1], md) + if Slice(body, h.text, md).foundHeading then [] else [h.text]
  }

  /** What extractSelectedHeadings ends with: nothing to write, or the target path, the
      combined content, the decision about it, and the data of the report line (the number of
      selected headings, their formatted list and whether front matter was kept). */
  datatype Extraction =
    | NothingFound
    | Extracted(targetPath: string, content: string, decision: Decision,
                sectionCount: nat, headingNames: string, withFrontMatter: bool)

  /** The result the aggregation promises, as a function of its inputs. */
  function Extract(content: string, selectedHeadings: seq<HeadingItem>, sourcePath: string, targetDir: string,
                   options: GenerateOptions, md: Markdown, paths: PathOps, fileExists: string -> bool): Extraction
  {
    var fm := ExtractFrontMatter(content);
    var found := Sections(fm.content, selectedHeadings, md);
    if found == [] then NothingFound
    else
      var targetPath := TargetPath(sourcePath, targetDir, paths);
      Extracted(targetPath, CombineFrontMatter(fm.frontMatter, Join(found, "\n\n")),
                Decide(fileExists(targetPath), options),
                |selectedHeadings|, FormatHeadingsList(selectedHeadings), fm.hasFrontMatter)
  }

  /** extractSelectedHeadings: strip the front matter, slice every selected heading out of the
      same body (reporting the ones not found), join the sections, put the front matter back
      and decide about the target. */
  method ExtractSelectedHeadings(content: string, selectedHeadings: seq<HeadingItem>, sourcePath: string,
                                 targetDir: string, options: GenerateOptions, md: Markdown,
                                 paths: PathOps, fileExists: string -> bool)
    returns (outcome: Extraction, missing: seq<string>)
    ensures outcome == Extract(content, selectedHeadings, sourcePath, targetDir, options, md, paths, fileExists)
    ensures missing == Missing(ExtractFrontMatter(content).content, selectedHeadings, md)
  {
    var fileName := paths.basename(sourcePath);
    var targetPath := paths.join(targetDir, fileName);
    var fm := ExtractFrontMatter(content);
    var contentWithoutFrontMatter := fm.content;

    var extractedContents: seq<string> := [];
    missing := [];
    for i := 0 to |selectedHeadings|
      invariant extractedContents == Sections(contentWithoutFrontMatter, selectedHeadings[..i], md)
      invariant missing == Missing(contentWithoutFrontMatter, selectedHeadings[..i], md)
    {
      assert selectedHeadings[..i + 1][..i] == selectedHeadings[..i];
      var result := SliceMarkdownByHeading(contentWithoutFrontMatter, selectedHeadings[i].text, md);
      if !result.foundHeading {
        missing := missing + [selectedHeadings[i].text];
        continue;
      }
      extractedContents := extractedContents + [result.content];
    }
    assert selectedHeadings[..|selectedHeadings|] == selectedHeadings;

    if |extractedContents| == 0 {
      return NothingFound, missing;
    }
    var extractedContent := Join(extractedContents, "\n\n");
    var finalContent := CombineFrontMatter(fm.frontMatter, extractedContent);
    var targetExists := fileExists(targetPath);
    var headingNames := FormatHeadingsList(selectedHeadings);
    if targetExists && !options.force {
      return Extracted(targetPath, finalContent, Refused, |selectedHeadings|, headingNames, fm.hasFrontMatter), missing;
    }
    if options.dryRun {
      return Extracted(targetPath, finalContent, DryRun, |selectedHeadings|, headingNames, fm.hasFrontMatter), missing;
    }
    return Extracted(targetPath, finalContent, Written, |selectedHeadings|, headingNames, fm.hasFrontMatter), missing;
  }

  // ---------------------------------------------------------------------------------------
  // Properties of the aggregation

  /** Each heading is sliced out of the one body on its own: the sections of a selection are
      those of its parts, one after the other. */
  lemma {:induction false} SectionsAppend(body: string, a: seq<HeadingItem>, b: seq<HeadingItem>, md: Markdown)
    ensures Sections(body, a + b, md) == Sections(body, a, md) + Sections(body, b, md)
    decreases |b|
  {
    if b == [] {
      assert a + b == a;
    } else {
      var b' := b[..|b| - 1];
      assert (a + b)[..|a + b| - 1] == a + b';
      assert (a + b)[|a + b| - 1] == b[|b| - 1];
      SectionsAppend(body, a, b', md);
    }
  }

  /** The same holds for the headings reported missing. */
  lemma {:induction false} MissingAppend(body: string, a: seq<HeadingItem>, b: seq<HeadingItem>, md: Markdown)
    ensures Missing(body, a + b, md) == Missing(body, a, md) + Missing(body, b, md)
    decreases |b|
  {
    if b == [] {
      assert a + b == a;
    } else {
      var b' := b[..|b| - 1];
      assert (a + b)[..|a + b| - 1] == a + b';
      assert (a + b)[|a + b| - 1] == b[|b| - 1];
      MissingAppend(body, a, b', md);
    }
  }

  /** One heading: its section when found, otherwise it is reported missing. */
  lemma SectionsSingle(body: string, h: HeadingItem, md: Markdown)
    ensures Sections(body, [h], md) == if Slice(body, h.text, md).foundHeading then [Slice(body, h.text, md).content] else []
    ensures Missing(body, [h], md) == if Slice(body, h.text, md).foundHeading then [] else [h.text]
  {
    assert [h][..0] == [];
  }

  /** Every heading is either found or missing: the counts add up. */
  lemma {:induction false} SectionsAccount(body: string, headings: seq<HeadingItem>, md: Markdown)
    ensures |Sections(body, headings, md)| + |Missing(body, headings, md)| == |headings|
  {
    if headings != [] {
      SectionsAccount(body, headings[..|headings| - 1], md);
    }
  }

  /** Every section is the non-blank slice of some selected heading. */
  lemma {:induction false} SectionsFromSelection(body: string, headings: seq<HeadingItem>, md: Markdown)
    ensures forall s :: s in Sections(body, headings, md) ==>
      !IsBlank(s) && exists j :: 0 <= j < |headings| && Slice(body, headings[j].text, md).content == s
  {
    if headings != [] {
      var init := headings[..|headings| - 1];
      SectionsFromSelection(body, init, md);
      forall s | s in Sections(body, headings, md)
        ensures !IsBlank(s) && exists j :: 0 <= j < |headings| && Slice(body, headings[j].text, md).content == s
      {
        if s !in Sections(body, init, md) {
          var j := |headings| - 1;
          assert Slice(body, headings[j].text, md).content == s;
        } else {
          var j :| 0 <= j < |init| && Slice(body, init[j].text, md).content == s;
          assert headings[j] == init[j];
        }
      }
    }
  }

  /** Every missing text is that of a selected heading whose slice was blank. */
  lemma {:induction false} MissingFromSelection(body: string, headings: seq<HeadingItem>, md: Markdown)
    ensures forall t :: t in Missing(body, headings, md) ==>
      exists j :: 0 <= j < |headings| && headings[j].text == t && !Slice(body, headings[j].text, md).foundHeading
  {
    if headings != [] {
      var init := headings[..|headings| - 1];
      MissingFromSelection(body, init, md);
      forall t | t in Missing(body, headings, md)
        ensures exists j :: 0 <= j < |headings| && headings[j].text == t && !Slice(body, headings[j].text, md).foundHeading
      {
        if t !in Missing(body, init, md) {
          var j := |headings| - 1;
          assert headings[j].text == t;
        } else {
          var j :| 0 <= j < |init| && init[j].text == t && !Slice(body, init[j].text, md).foundHeading;
          assert headings[j] == init[j];
        }
      }
    }
  }

  /** No section when no heading is found. */
  lemma {:induction false} NoSections(body: string, headings: seq<HeadingItem>, md: Markdown)
    requires forall j :: 0 <= j < |headings| ==> !Slice(body, headings[j].text, md).foundHeading
    ensures Sections(body, headings, md) == []
  {
    if headings != [] {
      NoSections(body, headings[..|headings| - 1], md);
    }
  }

  /** When no selected heading is found, nothing is written or reported, whatever the target
      and the options. */
  lemma NothingFoundWritesNothing(content: string, selectedHeadings: seq<HeadingItem>, sourcePath: string, targetDir: string,
                                  options: GenerateOptions, md: Markdown, paths: PathOps, fileExists: string -> bool)
    requires forall j :: 0 <= j < |selectedHeadings| ==>
      !Slice(ExtractFrontMatter(content).content, selectedHeadings[j].text, md).foundHeading
    ensures Extract(content, selectedHeadings, sourcePath, targetDir, options, md, paths, fileExists) == NothingFound
  {
    NoSections(ExtractFrontMatter(content).content, selectedHeadings, md);
  }

  /** A content with front matter gets it back in front of the joined sections; one without
      gets just the joined sections. The report counts every selected heading, the ones not
      found included. */
  lemma ExtractedContent(content: string, selectedHeadings: seq<HeadingItem>, sourcePath: string, targetDir: string,
                         options: GenerateOptions, md: Markdown, paths: PathOps, fileExists: string -> bool)
    requires Extract(content, selectedHeadings, sourcePath, targetDir, options, md, paths, fileExists).Extracted?
    ensures var fm := ExtractFrontMatter(content);
      var x := Extract(content, selectedHeadings, sourcePath, targetDir, options, md, paths, fileExists);
      var joined := Join(Sections(fm.content, selectedHeadings, md), "\n\n");
      (fm.hasFrontMatter ==> x.content == "---\n" + fm.frontMatter.value + "\n---\n\n" + joined)
      && (!fm.hasFrontMatter ==> x.content == joined)
      && x.withFrontMatter == fm.hasFrontMatter
      && x.sectionCount == |selectedHeadings|
  {
  }

  /** Front matter that was split off the source is the one put back: splitting the written
      content again, when the front matter round-trips, gives the same front matter. */
  lemma FrontMatterPreserved(content: string, selectedHeadings: seq<HeadingItem>, sourcePath: string, targetDir: string,
                             options: GenerateOptions, md: Markdown, paths: PathOps, fileExists: string -> bool)
    requires Extract(content, selectedHeadings, sourcePath, targetDir, options, md, paths, fileExists).Extracted?
    requires ExtractFrontMatter(content).hasFrontMatter
    requires RoundTrips(ExtractFrontMatter(content).frontMatter.value)
    ensures ExtractFrontMatter(Extract(content, selectedHeadings, sourcePath, targetDir, options, md, paths, fileExists).content).frontMatter
      == ExtractFrontMatter(content).frontMatter
  {
    var fm := ExtractFrontMatter(content);
    RoundTrip(fm.frontMatter.value, Join(Sections(fm.content, selectedHeadings, md), "\n\n"));
  }

  /** The write rule is the same for both operations: a file is written exactly when the target
      is absent or forcing is on, and it is not a dry run. */
  lemma SameWriteRule(content: string, selectedHeadings: seq<HeadingItem>, sourcePath: string, targetDir: string,
                      options: GenerateOptions, md: Markdown, paths: PathOps, fileExists: string -> bool)
    requires Extract(content, selectedHeadings, sourcePath, targetDir, options, md, paths, fileExists).Extracted?
    ensures var x := Extract(content, selectedHeadings, sourcePath, targetDir, options, md, paths, fileExists);
      x.targetPath == TargetPath(sourcePath, targetDir, paths)
      && (x.decision == Written <==> (!fileExists(x.targetPath) || options.force) && !options.dryRun)
  {
  }
}
