/**
 * Listing rule files and their headings (src/commands/generate/file-listing.ts).
 *
 * The heading list comes from the regular expression `^(#{1,6})\s+(.+)$` with the flags
 * `g` and `m`, applied repeatedly from the position where the previous match ended. The
 * functions below spell out how that expression matches at one position; the directory walk
 * itself is outside the model, which takes the walk's file list as a parameter.
 */
module FileListing {
  import opened Nullable
  import opened Text
  import opened GenerateTypes

  // ---------------------------------------------------------------------------------------
  // Matching `^(#{1,6})\s+(.+)$` at one position

  /** `^` in multiline mode: the start of the input or just after a line terminator. */
  predicate LineStart(s: string, p: nat)
    requires p <= |s|
  {
    p == 0 || IsLineTerminator(s[p - 1])
  }

  /** The three runs the expression matches: `#{1,6}`, `\s+` and `.+`. */
  datatype RunKind = Hashes | Spaces | LineChars

  /** The characters a run of the kind consists of; `.` is anything but a line terminator. */
  predicate InRun(c: char, k: RunKind) {
    match k
    case Hashes => c == '#'
    case Spaces => IsWhitespace(c)
    case LineChars => !IsLineTerminator(c)
  }

  /** The end of the run of characters of kind `k` that starts at `p`. */
  function RunEnd(s: string, p: nat, k: RunKind): (e: nat)
    requires p <= |s|
    ensures p <= e <= |s|
    ensures forall j :: p <= j < e ==> InRun(s[j], k)
    ensures e == |s| || !InRun(s[e], k)
    decreases |s| - p
  {
    if p < |s| && InRun(s[p], k) then RunEnd(s, p + 1, k) else p
  }

  /** The largest position in the open interval `(lo, hi)` holding a character `.` matches. */
  function LastNonTerminator(s: string, lo: nat, hi: nat): (t: Option<nat>)
    requires lo <= hi <= |s|
    ensures t.Some? ==> lo < t.value < hi && !IsLineTerminator(s[t.value])
    ensures t.Some? ==> forall k :: t.value < k < hi ==> IsLineTerminator(s[k])
    ensures t.None? ==> forall k :: lo < k < hi ==> IsLineTerminator(s[k])
    decreases hi - lo
  {
    if hi <= lo + 1 then None
    else if !IsLineTerminator(s[hi - 1]) then Some(hi - 1)
    else LastNonTerminator(s, lo, hi - 1)
  }

  /** One match: where the text of the second group starts and where the match ends. */
  datatype Match = Match(textStart: nat, end: nat)

  /** The match starting at `p`, if there is one. The `#` run must be one to six long and be
      followed by white space (with fewer `#` the next character would be a `#`). The
      white-space run is greedy and may cross line ends; the text then runs to the end of its
      line. When the white space reaches the end of the input, `\s+` gives back characters
      until `.` can match one: the last one of the run that is not a line terminator. */
  function MatchAt(s: string, p: nat): (r: Option<Match>)
    requires p <= |s|
    ensures r.Some? ==> p < r.value.textStart < r.value.end <= |s|
  {
    if !LineStart(s, p) then None
    else
      var h := RunEnd(s, p, Hashes);
      if h == p || h - p > 6 || h == |s| || !IsWhitespace(s[h]) then None
      else
        var w := RunEnd(s, h, Spaces);
        var start := if w < |s| then Some(w) else LastNonTerminator(s, h, w);
        match start
        case None => None
        case Some(t) =>
          LineTerminatorIsWhitespace(s[t]);
          Some(Match(t, RunEnd(s, t, LineChars)))
  }

  /** The shape of a match: it starts at a line start with one to six `#` followed by white
      space, and its text is non-empty, holds no line terminator and runs to the end of its
      line or of the input. */
  lemma MatchShape(s: string, p: nat)
    requires p <= |s|
    ensures MatchAt(s, p).Some? ==> LineStart(s, p)
    ensures MatchAt(s, p).Some? ==>
      var h := RunEnd(s, p, Hashes); 1 <= h - p <= 6 && h < |s| && IsWhitespace(s[h])
    ensures MatchAt(s, p).Some? ==>
      var m := MatchAt(s, p).value;
      (m.end == |s| || IsLineTerminator(s[m.end]))
      && forall k :: m.textStart <= k < m.end ==> !IsLineTerminator(s[k])
  {
  }

  /** The text of the second group. */
  function GroupText(s: string, m: Match): string
    requires m.textStart <= m.end <= |s|
  {
    s[m.textStart..m.end]
  }

  /** `regex.exec` from `lastIndex`: the first position at or after it where a match starts. */
  function Exec(s: string, lastIndex: nat): (r: Option<(nat, Match)>)
    requires lastIndex <= |s|
    ensures r.Some? ==> lastIndex <= r.value.0 < r.value.1.textStart < r.value.1.end <= |s|
    decreases |s| - lastIndex
  {
    match MatchAt(s, lastIndex)
    case Some(m) => Some((lastIndex, m))
    case None => if lastIndex == |s| then None else Exec(s, lastIndex + 1)
  }

  /** What `exec` finds is a match at the position it reports. */
  lemma {:induction false} ExecFound(s: string, lastIndex: nat)
    requires lastIndex <= |s| && Exec(s, lastIndex).Some?
    ensures MatchAt(s, Exec(s, lastIndex).value.0) == Some(Exec(s, lastIndex).value.1)
    decreases |s| - lastIndex
  {
    if MatchAt(s, lastIndex).None? {
      ExecFound(s, lastIndex + 1);
    }
  }

  /** What `exec` finds is the first match: none starts between `lastIndex` and it, and when
      it finds nothing, no match starts anywhere from `lastIndex` on. */
  lemma {:induction false} ExecFirst(s: string, lastIndex: nat)
    requires lastIndex <= |s|
    ensures Exec(s, lastIndex).Some? ==> forall q :: lastIndex <= q < Exec(s, lastIndex).value.0 ==> MatchAt(s, q).None?
    ensures Exec(s, lastIndex).None? ==> forall q :: lastIndex <= q <= |s| ==> MatchAt(s, q).None?
    decreases |s| - lastIndex
  {
    if MatchAt(s, lastIndex).None? && lastIndex < |s| {
      ExecFirst(s, lastIndex + 1);
    }
  }

  /** The items of every match from `lastIndex` on, in order, each text trimmed. */
  function ListedHeadings(s: string, lastIndex: nat): seq<HeadingItem>
    requires lastIndex <= |s|
    decreases |s| - lastIndex
  {
    match Exec(s, lastIndex)
    case None => []
    case Some((_, m)) => [HeadingItem(Trim(GroupText(s, m)), false)] + ListedHeadings(s, m.end)
  }

  /** One step of the listing: the first match's item, then the items after it. */
  lemma ListedStep(s: string, lastIndex: nat, before: seq<HeadingItem>)
    requires lastIndex <= |s| && Exec(s, lastIndex).Some?
    ensures var m := Exec(s, lastIndex).value.1;
      lastIndex < m.end <= |s| && m.textStart <= m.end
      && before + ListedHeadings(s, lastIndex)
         == (before + [HeadingItem(Trim(s[m.textStart..m.end]), false)]) + ListedHeadings(s, m.end)
  {
    var m := Exec(s, lastIndex).value.1;
    var item := HeadingItem(Trim(s[m.textStart..m.end]), false);
    assert (before + [item]) + ListedHeadings(s, m.end) == before + ([item] + ListedHeadings(s, m.end));
  }

  /** Once `exec` finds nothing, nothing more is listed. */
  lemma ListedDone(s: string, lastIndex: nat, before: seq<HeadingItem>)
    requires lastIndex <= |s| && Exec(s, lastIndex).None?
    ensures before + ListedHeadings(s, lastIndex) == before
  {
    assert ListedHeadings(s, lastIndex) == [];
  }

  /** extractHeadings: run the expression to exhaustion, collecting the trimmed texts. */
  method ExtractHeadings(content: string) returns (headings: seq<HeadingItem>)
    ensures headings == ListedHeadings(content, 0)
  {
    headings := [];
    var lastIndex := 0;
    var match_ := Exec(content, lastIndex);
    assert headings + ListedHeadings(content, lastIndex) == ListedHeadings(content, 0);
    while match_.Some?
      invariant lastIndex <= |content|
      invariant match_ == Exec(content, lastIndex)
      invariant headings + ListedHeadings(content, lastIndex) == ListedHeadings(content, 0)
      decreases |content| - lastIndex
    {
      ListedStep(content, lastIndex, headings);
      var m := match_.value.1;
      var headingText := Trim(content[m.textStart..m.end]);
      headings := headings + [HeadingItem(headingText, false)];
      lastIndex := m.end;
      match_ := Exec(content, lastIndex);
    }
    ListedDone(content, lastIndex, headings);
  }

  // ---------------------------------------------------------------------------------------
  // Properties of the heading list

  /** Every character of the trimmed text is one of the text's. */
  lemma TrimChars(s: string)
    ensures forall i :: 0 <= i < |Trim(s)| ==> Trim(s)[i] in s
  {
    var k := TrimIsInfix(s);
    forall i | 0 <= i < |Trim(s)|
      ensures Trim(s)[i] in s
    {
      assert Trim(s)[i] == s[k + i];
    }
  }

  /** A listed text: trimmed and on one line. */
  predicate OneLineText(text: string) {
    IsTrimmed(text) && forall k :: 0 <= k < |text| ==> !IsLineTerminator(text[k])
  }

  lemma MatchTextOneLine(s: string, p: nat)
    requires p <= |s| && MatchAt(s, p).Some?
    ensures OneLineText(Trim(GroupText(s, MatchAt(s, p).value)))
  {
    MatchShape(s, p);
    var m := MatchAt(s, p).value;
    var text := GroupText(s, m);
    assert forall k :: 0 <= k < |text| ==> text[k] == s[m.textStart + k];
    TrimChars(text);
  }

  /** Every listed item is unselected, and its text trimmed and on one line. */
  lemma {:induction false} ListedTexts(s: string, lastIndex: nat)
    requires lastIndex <= |s|
    ensures forall i :: 0 <= i < |ListedHeadings(s, lastIndex)| ==>
      !ListedHeadings(s, lastIndex)[i].selected && OneLineText(ListedHeadings(s, lastIndex)[i].text)
    decreases |s| - lastIndex
  {
    match Exec(s, lastIndex)
    case None =>
    case Some((p, m)) =>
      ExecFound(s, lastIndex);
      MatchTextOneLine(s, p);
      ListedTexts(s, m.end);
  }

  /** A run covers at least the `n` characters of its kind that start it. */
  lemma {:induction false} RunCovers(s: string, p: nat, k: RunKind, n: nat)
    requires p + n <= |s| && forall j :: p <= j < p + n ==> InRun(s[j], k)
    ensures RunEnd(s, p, k) >= p + n
    decreases n
  {
    if n > 0 {
      RunCovers(s, p + 1, k, n - 1);
    }
  }

  /** A line that starts with seven or more `#` is no heading. */
  lemma SevenHashes(s: string, p: nat)
    requires p + 7 <= |s| && forall k :: p <= k < p + 7 ==> s[k] == '#'
    ensures MatchAt(s, p).None?
  {
    RunCovers(s, p, Hashes, 7);
    MatchShape(s, p);
  }

  /** A `#` run not followed by white space is no heading. */
  lemma NoSpaceAfterHashes(s: string, p: nat)
    requires p <= |s|
    requires var h := RunEnd(s, p, Hashes); h < |s| && !IsWhitespace(s[h])
    ensures MatchAt(s, p).None?
  {
  }

  /** Where the white space after the `#` run stops before the end of the input, the text is
      the rest of that line from the first character after the white space. */
  lemma RestOfLine(s: string, p: nat)
    requires p <= |s| && MatchAt(s, p).Some?
    requires RunEnd(s, RunEnd(s, p, Hashes), Spaces) < |s|
    ensures var w := RunEnd(s, RunEnd(s, p, Hashes), Spaces);
      GroupText(s, MatchAt(s, p).value) == s[w..RunEnd(s, w, LineChars)]
  {
  }

  /** The text a closing `#` sequence belongs to: `## Title ##` lists `Title ##`, where a
      markdown parser reads the heading text `Title`. */
  lemma ClosingSequenceKept(s: string)
    requires s == "## Title ##"
    ensures ListedHeadings(s, 0) == [HeadingItem("Title ##", false)]
  {
    var h := RunEnd(s, 0, Hashes);
    assert h == 2 by {
      assert s[0] == '#' && s[1] == '#' && s[2] == ' ';
      assert RunEnd(s, 2, Hashes) == 2;
      assert RunEnd(s, 1, Hashes) == 2;
    }
    var w := RunEnd(s, 2, Spaces);
    assert w == 3 by {
      assert RunEnd(s, 3, Spaces) == 3;
    }
    var e := RunEnd(s, 3, LineChars);
    assert e == |s| by {
      RunToEnd(s, 3, LineChars);
    }
    assert s[3..] == "Title ##";
    assert MatchAt(s, 0) == Some(Match(3, |s|));
    assert GroupText(s, Match(3, |s|)) == "Title ##";
    TrimTrimmed("Title ##");
    assert Exec(s, |s|) == None;
    assert ListedHeadings(s, |s|) == [];
    assert Exec(s, 0) == Some((0, Match(3, |s|)));
  }

  /** A run reaches the end of the input when every character from `p` on is of its kind. */
  lemma {:induction false} RunToEnd(s: string, p: nat, k: RunKind)
    requires p <= |s| && forall j :: p <= j < |s| ==> InRun(s[j], k)
    ensures RunEnd(s, p, k) == |s|
    decreases |s| - p
  {
    if p < |s| {
      RunToEnd(s, p + 1, k);
    }
  }

  /** White space after the `#` run may cross a line end: a lone `#` takes the next line as its
      text, where a markdown parser reads an empty heading followed by a paragraph. */
  lemma LoneHashTakesNextLine(s: string)
    requires s == "#\nfoo"
    ensures ListedHeadings(s, 0) == [HeadingItem("foo", false)]
  {
    assert RunEnd(s, 1, Hashes) == 1;
    assert RunEnd(s, 0, Hashes) == 1;
    assert RunEnd(s, 2, Spaces) == 2;
    assert RunEnd(s, 1, Spaces) == 2;
    RunToEnd(s, 2, LineChars);
    assert s[2..] == "foo";
    assert MatchAt(s, 0) == Some(Match(2, 5));
    assert GroupText(s, Match(2, 5)) == "foo";
    TrimTrimmed("foo");
    assert Exec(s, 5) == None;
    assert ListedHeadings(s, 5) == [];
    assert Exec(s, 0) == Some((0, Match(2, 5)));
  }

  // ---------------------------------------------------------------------------------------
  // The display name of a listed file

  predicate IsSeparator(c: char) {
    c == '/' || c == '\\'
  }

  /** The display path: relative to the rules directory when the file path starts with it
      (without one leading `/` or `\`), else the parent directory's name and the file name. */
  function RelativePath(filePath: string, rulesDir: string, paths: PathOps): (r: string)
    ensures StartsWith(filePath, rulesDir) ==>
      exists sep :: (sep == "" || sep == "/" || sep == "\\") && filePath == rulesDir + sep + r
        && (sep == "" <==> !(|filePath| > |rulesDir| && IsSeparator(filePath[|rulesDir|])))
    ensures StartsWith(filePath, rulesDir) ==> EndsWith(filePath, r)
    ensures !StartsWith(filePath, rulesDir) ==>
      r == paths.basename(paths.dirname(filePath)) + "/" + paths.basename(filePath)
  {
    if StartsWith(filePath, rulesDir) then
      var rest := filePath[|rulesDir|..];
      assert filePath == rulesDir + "" + rest;
      if StartsWith(rest, "/") || StartsWith(rest, "\\") then
        assert filePath == rulesDir + rest[..1] + rest[1..];
        assert filePath[|filePath| - |rest[1..]|..] == rest[1..];
        rest[1..]
      else
        assert filePath[|filePath| - |rest|..] == rest;
        rest
    else
      paths.basename(paths.dirname(filePath)) + "/" + paths.basename(filePath)
  }

  /** The record listRuleFiles makes for one file, given its content. */
  method MakeRuleFile(filePath: string, rulesDir: string, content: string, paths: PathOps) returns (file: RuleFile)
    ensures file.sourcePath == filePath && file.fileName == paths.basename(filePath)
    ensures file.displayName == RelativePath(filePath, rulesDir, paths)
    ensures !file.selected && !file.expanded
    ensures file.headings == ListedHeadings(content, 0)
  {
    var fileName := paths.basename(filePath);
    var relativePath := filePath;
    if StartsWith(filePath, rulesDir) {
      relativePath := filePath[|rulesDir|..];
      if StartsWith(relativePath, "/") || StartsWith(relativePath, "\\") {
        relativePath := relativePath[1..];
      }
    } else {
      var directory := paths.basename(paths.dirname(filePath));
      relativePath := directory + "/" + fileName;
    }
    var displayName := relativePath;
    var headings := ExtractHeadings(content);
    file := RuleFile(filePath, displayName, fileName, false, false, headings);
  }

  // ---------------------------------------------------------------------------------------
  // Which files are listed

  /** The paths the pattern `<rulesDir>/**/*<ext>` yields from a walk of the rules directory:
      the files whose name ends with `ext`, in walk order. */
  function GlobPaths(walk: seq<string>, ext: string, paths: PathOps): (r: seq<string>)
    ensures forall f :: f in r <==> f in walk && EndsWith(paths.basename(f), ext)
  {
    if walk == [] then []
    else
      var rest := GlobPaths(walk[1..], ext, paths);
      assert forall f :: f in walk <==> f == walk[0] || f in walk[1..];
      (if EndsWith(paths.basename(walk[0]), ext) then [walk[0]] else []) + rest
  }

  /** The paths listRuleFiles visits: one glob per extension, one after the other. */
  function EnumeratedAsWritten(walk: seq<string>, paths: PathOps): seq<string>
  {
    GlobPaths(walk, TargetExtensions[0], paths) + GlobPaths(walk, TargetExtensions[1], paths)
      + GlobPaths(walk, TargetExtensions[2], paths)
  }

  function Count(s: seq<string>, x: string): nat
  {
    if s == [] then 0 else (if s[0] == x then 1 else 0) + Count(s[1..], x)
  }

  lemma {:induction false} CountAppend(a: seq<string>, b: seq<string>, x: string)
    ensures Count(a + b, x) == Count(a, x) + Count(b, x)
  {
    if a == [] {
      assert a + b == b;
    } else {
      assert (a + b)[1..] == a[1..] + b;
      CountAppend(a[1..], b, x);
    }
  }

  lemma {:induction false} CountFilter(walk: seq<string>, ext: string, paths: PathOps, x: string)
    ensures Count(GlobPaths(walk, ext, paths), x) == if EndsWith(paths.basename(x), ext) then Count(walk, x) else 0
  {
    if walk != [] {
      CountFilter(walk[1..], ext, paths, x);
      var head := if EndsWith(paths.basename(walk[0]), ext) then [walk[0]] else [];
      CountAppend(head, GlobPaths(walk[1..], ext, paths), x);
    }
  }

  /** A name ending in `.prompt.md` also ends in `.md`, and never in `.mdc`. */
  lemma PromptSuffixes(name: string)
    requires EndsWith(name, ".prompt.md")
    ensures EndsWith(name, ".md") && !EndsWith(name, ".mdc")
  {
    assert name[|name| - 3..] == name[|name| - 10..][7..];
    assert name[|name| - 1] == 'd';
  }

  /** A `*.prompt.md` file is visited twice, by the `.md` glob and again by the `.prompt.md`
      one, so it is listed twice. */
  lemma PromptFileEnumeratedTwice(walk: seq<string>, paths: PathOps, f: string)
    requires Count(walk, f) == 1 && EndsWith(paths.basename(f), ".prompt.md")
    ensures Count(EnumeratedAsWritten(walk, paths), f) == 2
  {
    PromptSuffixes(paths.basename(f));
    CountFilter(walk, ".md", paths, f);
    CountFilter(walk, ".mdc", paths, f);
    CountFilter(walk, ".prompt.md", paths, f);
    CountAppend(GlobPaths(walk, ".md", paths), GlobPaths(walk, ".mdc", paths), f);
    CountAppend(GlobPaths(walk, ".md", paths) + GlobPaths(walk, ".mdc", paths), GlobPaths(walk, ".prompt.md", paths), f);
  }

  /** `visited` without its repetitions, first occurrences kept. */
  function Dedup(visited: seq<string>, seen: set<string>): (r: seq<string>)
    ensures forall f :: f in r <==> f in visited && f !in seen
    ensures forall f :: f in r ==> Count(r, f) == 1
  {
    if visited == [] then []
    else
      var f := visited[0];
      assert forall g :: g in visited <==> g == f || g in visited[1..];
      if f in seen then Dedup(visited[1..], seen)
      else
        var rest := Dedup(visited[1..], seen + {f});
        CountAppend([f], rest, f);
        forall g | g in [f] + rest ensures Count([f] + rest, g) == 1 {
          CountAppend([f], rest, g);
          if g != f {
            assert g in rest;
          } else {
            CountAbsent(rest, f);
          }
        }
        [f] + rest
  }

  lemma {:induction false} CountAbsent(s: seq<string>, x: string)
    requires x !in s
    ensures Count(s, x) == 0
  {
    if s != [] {
      CountAbsent(s[1..], x);
    }
  }

  /** The listing as evidently intended: the same files in the same order of first visit,
      each of them once. */
  function Enumerated(walk: seq<string>, paths: PathOps): (r: seq<string>)
    ensures forall f :: f in r <==> f in EnumeratedAsWritten(walk, paths)
    ensures forall f :: f in r ==> Count(r, f) == 1
  {
    Dedup(EnumeratedAsWritten(walk, paths), {})
  }

  /** A file is listed, once, exactly when the walk found it and its name ends in one of the
      target extensions. */
  lemma EnumeratedOnce(walk: seq<string>, paths: PathOps, f: string)
    ensures f in Enumerated(walk, paths) <==>
      f in walk && exists i :: 0 <= i < |TargetExtensions| && EndsWith(paths.basename(f), TargetExtensions[i])
    ensures f in Enumerated(walk, paths) ==> Count(Enumerated(walk, paths), f) == 1
  {
    if f in walk && EndsWith(paths.basename(f), TargetExtensions[2]) {
      assert f in GlobPaths(walk, TargetExtensions[2], paths);
    }
  }

  /** Two positions holding the same path make it occur at least twice. */
  lemma {:induction false} CountTwoPositions(s: seq<string>, i: nat, j: nat)
    requires i < j < |s| && s[i] == s[j]
    ensures Count(s, s[i]) >= 2
  {
    if i == 0 {
      assert s[j] == s[1..][j - 1];
      assert s[i] in s[1..];
      CountPresent(s[1..], s[i]);
    } else {
      assert s[i] == s[1..][i - 1] && s[j] == s[1..][j - 1];
      CountTwoPositions(s[1..], i - 1, j - 1);
    }
  }

  lemma {:induction false} CountPresent(s: seq<string>, x: string)
    requires x in s
    ensures Count(s, x) >= 1
  {
    if s[0] != x {
      assert x in s[1..];
      CountPresent(s[1..], x);
    }
  }

  /** No path is listed at two positions. */
  lemma EnumeratedDistinct(walk: seq<string>, paths: PathOps)
    ensures var e := Enumerated(walk, paths); forall i, j :: 0 <= i < j < |e| ==> e[i] != e[j]
  {
    var e := Enumerated(walk, paths);
    forall i, j | 0 <= i < j < |e|
      ensures e[i] != e[j]
    {
      if e[i] == e[j] {
        CountTwoPositions(e, i, j);
      }
    }
  }

  /** The record listRuleFiles makes for `path`. */
  predicate IsRecordOf(file: RuleFile, path: string, rulesDir: string, readFile: string -> string, paths: PathOps) {
    file.sourcePath == path && file.fileName == paths.basename(path)
    && file.displayName == RelativePath(path, rulesDir, paths)
    && !file.selected && !file.expanded
    && file.headings == ListedHeadings(readFile(path), 0)
  }

  /** The loop of listRuleFiles over the files it visits: a record per visit, in order. */
  method MakeRuleFiles(filePaths: seq<string>, rulesDir: string, readFile: string -> string, paths: PathOps)
    returns (ruleFiles: seq<RuleFile>)
    ensures |ruleFiles| == |filePaths|
    ensures forall i :: 0 <= i < |ruleFiles| ==> IsRecordOf(ruleFiles[i], filePaths[i], rulesDir, readFile, paths)
  {
    ruleFiles := [];
    for k := 0 to |filePaths|
      invariant |ruleFiles| == k
      invariant forall i :: 0 <= i < k ==> IsRecordOf(ruleFiles[i], filePaths[i], rulesDir, readFile, paths)
    {
      var file := MakeRuleFile(filePaths[k], rulesDir, readFile(filePaths[k]), paths);
      ruleFiles := ruleFiles + [file];
    }
  }

  /** `files` are the records for `visited`, one per visit, in order. */
  predicate RecordsOf(files: seq<RuleFile>, visited: seq<string>, rulesDir: string, readFile: string -> string, paths: PathOps) {
    |files| == |visited| && forall i :: 0 <= i < |files| ==> IsRecordOf(files[i], visited[i], rulesDir, readFile, paths)
  }

  lemma RecordsAppend(a: seq<RuleFile>, va: seq<string>, b: seq<RuleFile>, vb: seq<string>,
                      rulesDir: string, readFile: string -> string, paths: PathOps)
    requires RecordsOf(a, va, rulesDir, readFile, paths) && RecordsOf(b, vb, rulesDir, readFile, paths)
    ensures RecordsOf(a + b, va + vb, rulesDir, readFile, paths)
  {
    forall i | 0 <= i < |a|
      ensures IsRecordOf((a + b)[i], (va + vb)[i], rulesDir, readFile, paths)
    {
      assert (a + b)[i] == a[i] && (va + vb)[i] == va[i];
    }
    forall i | |a| <= i < |a + b|
      ensures IsRecordOf((a + b)[i], (va + vb)[i], rulesDir, readFile, paths)
    {
      assert (a + b)[i] == b[i - |a|] && (va + vb)[i] == vb[i - |a|];
    }
  }

  /** listRuleFiles as written: one glob per target extension and a record for every file
      each glob visits, so a file two globs visit gets two records. `walk` is the files under
      the rules directory in walk order, and `readFile` their contents. */
  method ListRuleFiles(walk: seq<string>, rulesDir: string, readFile: string -> string, paths: PathOps)
    returns (ruleFiles: seq<RuleFile>)
    ensures |ruleFiles| == |EnumeratedAsWritten(walk, paths)|
    ensures forall i :: 0 <= i < |ruleFiles| ==>
      IsRecordOf(ruleFiles[i], EnumeratedAsWritten(walk, paths)[i], rulesDir, readFile, paths)
  {
    ruleFiles := [];
    for e := 0 to |TargetExtensions|
      invariant RecordsOf(ruleFiles, GlobsUpTo(walk, paths, e), rulesDir, readFile, paths)
    {
      var visited := GlobPaths(walk, TargetExtensions[e], paths);
      var found := MakeRuleFiles(visited, rulesDir, readFile, paths);
      RecordsAppend(ruleFiles, GlobsUpTo(walk, paths, e), found, visited, rulesDir, readFile, paths);
      ruleFiles := ruleFiles + found;
    }
    GlobsAll(walk, paths);
  }

  /** The paths the first `e` globs visit, one glob after the other. */
  function GlobsUpTo(walk: seq<string>, paths: PathOps, e: nat): seq<string>
    requires e <= |TargetExtensions|
  {
    if e == 0 then [] else GlobsUpTo(walk, paths, e - 1) + GlobPaths(walk, TargetExtensions[e - 1], paths)
  }

  /** All three globs together are the listing as written. */
  lemma GlobsAll(walk: seq<string>, paths: PathOps)
    ensures GlobsUpTo(walk, paths, |TargetExtensions|) == EnumeratedAsWritten(walk, paths)
  {
    var g0 := GlobPaths(walk, TargetExtensions[0], paths);
    assert GlobsUpTo(walk, paths, 1) == [] + g0 == g0;
  }

  /** listRuleFiles with each listed file visited once, as evidently intended: a record per
      file of the deduplicated listing, no path twice. */
  method ListRuleFilesOnce(walk: seq<string>, rulesDir: string, readFile: string -> string, paths: PathOps)
    returns (ruleFiles: seq<RuleFile>)
    ensures |ruleFiles| == |Enumerated(walk, paths)|
    ensures forall i :: 0 <= i < |ruleFiles| ==>
      IsRecordOf(ruleFiles[i], Enumerated(walk, paths)[i], rulesDir, readFile, paths)
    ensures forall i, j :: 0 <= i < j < |ruleFiles| ==> ruleFiles[i].sourcePath != ruleFiles[j].sourcePath
  {
    ruleFiles := MakeRuleFiles(Enumerated(walk, paths), rulesDir, readFile, paths);
    EnumeratedDistinct(walk, paths);
  }
}
