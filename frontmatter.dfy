/**
 * Splitting a leading `---` ... `---` block off a markdown document and putting it back
 * (src/markdown/frontmatter.ts).
 *
 * The splitter is a prefix test on the left-trimmed text followed by the anchored,
 * non-greedy regular expression `^---\r?\n([\s\S]*?)\r?\n---\r?\n`. Both `\r?` are greedy
 * and followed by a mandatory `\n`, so each optional carriage return is taken exactly when a
 * line feed follows it; the lazy body makes the FIRST closing delimiter end the block. The
 * functions below spell out that matching.
 */
module FrontMatter {
  import opened Nullable
  import opened Text

  datatype FrontMatterResult = FrontMatterResult(frontMatter: Option<string>, content: string, hasFrontMatter: bool)

  /** The "no front matter" answer: nothing split off, the input returned as it is. */
  function NoFrontMatter(markdown: string): FrontMatterResult {
    FrontMatterResult(None, markdown, false)
  }

  /** The texts the opening `---\r?\n` can match. */
  predicate IsOpening(d: string) {
    d == "---\n" || d == "---\r\n"
  }

  /** The texts the closing `\r?\n---\r?\n` can match. */
  predicate IsClosing(d: string) {
    d == "\n---\n" || d == "\n---\r\n" || d == "\r\n---\n" || d == "\r\n---\r\n"
  }

  /** `---\r?\n` starting at `j`: the index just past it, if it is there. */
  function DelimiterLineEnd(s: string, j: nat): (e: Option<nat>)
    ensures e.Some? ==> j + 4 <= e.value <= |s| && IsOpening(s[j..e.value])
  {
    if j + 4 <= |s| && s[j] == '-' && s[j + 1] == '-' && s[j + 2] == '-' then
      if s[j + 3] == '\r' && j + 5 <= |s| && s[j + 4] == '\n' then
        assert s[j..j + 5] == "---\r\n";
        Some(j + 5)
      else if s[j + 3] == '\n' then
        assert s[j..j + 4] == "---\n";
        Some(j + 4)
      else None
    else None
  }

  /** `\r?\n---\r?\n` starting at `q`: the index just past it, if it is there. */
  function ClosingEnd(s: string, q: nat): (e: Option<nat>)
    ensures e.Some? ==> q < e.value <= |s| && IsClosing(s[q..e.value])
  {
    if q + 1 < |s| && s[q] == '\r' && s[q + 1] == '\n' then
      var e := DelimiterLineEnd(s, q + 2);
      if e.Some? then
        assert s[q..e.value] == "\r\n" + s[q + 2..e.value];
        e
      else None
    else if q < |s| && s[q] == '\n' then
      var e := DelimiterLineEnd(s, q + 1);
      if e.Some? then
        assert s[q..e.value] == "\n" + s[q + 1..e.value];
        e
      else None
    else None
  }

  /** The lazy `[\s\S]*?`: the first position at or after `q` where a closing delimiter
      starts, with the index just past that delimiter. */
  function FindClosing(s: string, q: nat): (r: Option<(nat, nat)>)
    ensures r.Some? ==> q <= r.value.0 && ClosingEnd(s, r.value.0) == Some(r.value.1)
    ensures r.Some? ==> forall k :: q <= k < r.value.0 ==> ClosingEnd(s, k).None?
    ensures r.None? ==> forall k :: q <= k ==> ClosingEnd(s, k).None?
    decreases |s| - q
  {
    if q >= |s| then None
    else match ClosingEnd(s, q)
      case Some(e) => Some((q, e))
      case None => FindClosing(s, q + 1)
  }

  /** `markdown` is an opening delimiter, then `frontMatter`, then a closing delimiter, then
      `content`, and no closing delimiter starts inside `frontMatter`. */
  ghost predicate SplitsInto(markdown: string, frontMatter: string, content: string) {
    exists open, close :: IsOpening(open) && IsClosing(close)
      && markdown == open + frontMatter + close + content
      && forall k :: |open| <= k < |open| + |frontMatter| ==> ClosingEnd(markdown, k).None?
  }

  /** A text is its pieces between three cut points, one after the other. */
  lemma Pieces(s: string, p: nat, q: nat, e: nat)
    requires p <= q <= e <= |s|
    ensures s == s[..p] + s[p..q] + s[q..e] + s[e..]
  {
    assert s[..p] + s[p..q] == s[..q];
    assert s[..q] + s[q..e] == s[..e];
    assert s[..e] + s[e..] == s;
  }

  /** extractFrontMatter: split the front matter off `markdown`. */
  function ExtractFrontMatter(markdown: string): (r: FrontMatterResult)
    ensures r.hasFrontMatter <==> r.frontMatter.Some?
    ensures !r.hasFrontMatter ==> r == NoFrontMatter(markdown)
    ensures !StartsWith(TrimStart(markdown), "---") ==> r == NoFrontMatter(markdown)
    ensures r.hasFrontMatter ==> SplitsInto(markdown, r.frontMatter.value, r.content)
  {
    if !StartsWith(TrimStart(markdown), "---") then NoFrontMatter(markdown)
    else match DelimiterLineEnd(markdown, 0)
      case None => NoFrontMatter(markdown)
      case Some(p) =>
        match FindClosing(markdown, p)
        case None => NoFrontMatter(markdown)
        case Some((q, e)) =>
          var open, f, close, rest := markdown[..p], markdown[p..q], markdown[q..e], markdown[e..];
          Pieces(markdown, p, q, e);
          assert IsOpening(open) && IsClosing(close);
          FrontMatterResult(Some(f), rest, true)
  }

  /** A delimiter line at `j` is matched whole. */
  lemma DelimiterAt(s: string, j: nat, d: string)
    requires IsOpening(d) && j + |d| <= |s| && s[j..j + |d|] == d
    ensures DelimiterLineEnd(s, j) == Some(j + |d|)
  {
    var t := s[j..j + |d|];
    assert s[j] == t[0] && s[j + 1] == t[1] && s[j + 2] == t[2] && s[j + 3] == t[3];
    if d == "---\r\n" {
      assert s[j + 4] == t[4];
    }
  }

  /** An opening delimiter at the start passes the prefix test and is matched whole. */
  lemma OpeningAt(s: string, open: string)
    requires IsOpening(open) && |open| <= |s| && s[..|open|] == open
    ensures StartsWith(TrimStart(s), "---") && DelimiterLineEnd(s, 0) == Some(|open|)
  {
    assert s[0..|open|] == s[..|open|];
    DelimiterAt(s, 0, open);
    assert s[0] == open[0];
    assert !IsWhitespace(s[0]);
    TrimStartKeeps(s);
    assert s[..3] == open[..3];
  }

  /** A closing delimiter at `q` is matched whole. */
  lemma ClosingAt(s: string, q: nat, close: string)
    requires IsClosing(close) && q + |close| <= |s| && s[q..q + |close|] == close
    ensures ClosingEnd(s, q) == Some(q + |close|)
  {
    var t := s[q..q + |close|];
    assert s[q] == t[0] && s[q + 1] == t[1];
    if close[0] == '\r' {
      assert s[q + 2..q + |close|] == close[2..];
      DelimiterAt(s, q + 2, close[2..]);
    } else {
      assert s[q + 1..q + |close|] == close[1..];
      DelimiterAt(s, q + 1, close[1..]);
    }
  }

  /** The four pieces of a text made of four pieces. */
  lemma Segments(a: string, b: string, c: string, d: string)
    ensures var s, p, q := a + b + c + d, |a|, |a| + |b|;
      s[..p] == a && s[p..q] == b && s[q..q + |c|] == c && s[q + |c|..] == d
  {
    var s := a + b + c + d;
    assert s == (a + b) + (c + d);
    assert s[..|a| + |b|] == a + b;
    assert (a + b)[|a|..] == b;
  }

  /** The split of a text whose delimiters are known. */
  lemma SplitsWith(markdown: string, open: string, frontMatter: string, close: string, content: string)
    requires IsOpening(open) && IsClosing(close) && markdown == open + frontMatter + close + content
    requires forall k :: |open| <= k < |open| + |frontMatter| ==> ClosingEnd(markdown, k).None?
    ensures ExtractFrontMatter(markdown) == FrontMatterResult(Some(frontMatter), content, true)
  {
    var p, q := |open|, |open| + |frontMatter|;
    Segments(open, frontMatter, close, content);
    OpeningAt(markdown, open);
    ClosingAt(markdown, q, close);
    FirstClosing(markdown, p, q, q + |close|);
    ExtractAt(markdown, p, q, q + |close|);
  }

  /** Text of the split shape is split: the converse of the last ensures of
      `ExtractFrontMatter`, for any of the delimiters' spellings. */
  lemma Splits(markdown: string, frontMatter: string, content: string)
    requires SplitsInto(markdown, frontMatter, content)
    ensures ExtractFrontMatter(markdown) == FrontMatterResult(Some(frontMatter), content, true)
  {
    var open, close :| IsOpening(open) && IsClosing(close)
      && markdown == open + frontMatter + close + content
      && forall k :: |open| <= k < |open| + |frontMatter| ==> ClosingEnd(markdown, k).None?;
    SplitsWith(markdown, open, frontMatter, close, content);
  }

  /** A document with carriage-return line ends is split like any other. */
  lemma CrlfDocument(markdown: string)
    requires markdown == "---\r\nk: v\r\n---\r\nbody"
    ensures ExtractFrontMatter(markdown) == FrontMatterResult(Some("k: v"), "body", true)
  {
    var open, f, close := "---\r\n", "k: v", "\r\n---\r\n";
    assert markdown == open + f + close + "body";
    forall k | |open| <= k < |open| + |f|
      ensures ClosingEnd(markdown, k).None?
    {
      assert markdown[k] == f[k - 5];
    }
    SplitsWith(markdown, open, f, close, "body");
  }

  /** combineFrontMatter: `null` adds nothing, any string (the empty one too) is wrapped in
      delimiters and followed by a blank line. */
  function CombineFrontMatter(frontMatter: Option<string>, content: string): string
  {
    match frontMatter
    case None => content
    case Some(f) => "---\n" + f + "\n---\n\n" + content
  }

  lemma CombineNull(content: string)
    ensures CombineFrontMatter(None, content) == content
  {
  }

  lemma CombineEmpty(content: string)
    ensures CombineFrontMatter(Some(""), content) == "---\n\n---\n\n" + content
  {
  }

  /** Front matter that survives a round trip: no line after its first is a closing
      delimiter line (`---`, possibly followed by a carriage return), and it does not end in a
      carriage return (which would pair with the line feed the combiner adds). */
  predicate RoundTrips(f: string) {
    (forall i :: 0 <= i < |f| && f[i] == '\n' ==> DelimiterLineEnd(f + "\n", i + 1).None?)
    && (f == [] || f[|f| - 1] != '\r')
  }

  /** Inside `"---\n" + f + "\n---" + rest`, a delimiter line starting at `4 + j` (for `j` within
      `f` or at its end) is one that starts at `j` in `f + "\n"`. */
  lemma DelimiterInside(f: string, rest: string, j: nat)
    requires j <= |f|
    requires DelimiterLineEnd(f + "\n", j).None?
    ensures DelimiterLineEnd("---\n" + f + "\n---" + rest, 4 + j).None?
  {
    var s := "---\n" + f + "\n---" + rest;
    var t := f + "\n";
    assert forall k :: 0 <= k < |t| ==> s[4 + k] == t[k];
    assert 4 + |f| + 1 < |s| && s[4 + |f| + 1] == '-';
  }

  /** No closing delimiter starts inside front matter that round-trips. */
  lemma {:induction false} NoClosingInside(f: string, rest: string, k: nat)
    requires RoundTrips(f)
    requires 4 <= k < 4 + |f|
    ensures ClosingEnd("---\n" + f + "\n---" + rest, k).None?
  {
    var s := "---\n" + f + "\n---" + rest;
    var i := k - 4;
    assert s[k] == f[i];
    assert s[4 + |f|] == '\n';
    if f[i] == '\n' {
      DelimiterInside(f, rest, i + 1);
    } else if f[i] == '\r' && i + 1 < |f| && f[i + 1] == '\n' {
      assert s[k + 1] == f[i + 1];
      DelimiterInside(f, rest, i + 2);
    } else if f[i] == '\r' {
      assert i + 1 < |f|;
      assert s[k + 1] == f[i + 1];
    }
  }

  /** What `FindClosing` finds is the first closing delimiter. */
  lemma FirstClosing(s: string, q: nat, q': nat, e: nat)
    requires q <= q'
    requires forall k :: q <= k < q' ==> ClosingEnd(s, k).None?
    requires ClosingEnd(s, q') == Some(e)
    ensures FindClosing(s, q) == Some((q', e))
  {
  }

  /** The split, once its three cut points are known. */
  lemma ExtractAt(s: string, p: nat, q: nat, e: nat)
    requires StartsWith(TrimStart(s), "---") && DelimiterLineEnd(s, 0) == Some(p)
    requires FindClosing(s, p) == Some((q, e))
    ensures ExtractFrontMatter(s) == FrontMatterResult(Some(s[p..q]), s[e..], true)
  {
  }

  /** The combined text: an opening delimiter at the start, the front matter, and right after
      it a closing delimiter followed by the line feed of the blank line and the content. */
  lemma CombinedLayout(f: string, content: string)
    ensures var s := CombineFrontMatter(Some(f), content);
      TrimStart(s) == s && StartsWith(s, "---") && DelimiterLineEnd(s, 0) == Some(4)
      && ClosingEnd(s, 4 + |f|) == Some(9 + |f|)
      && s[4..4 + |f|] == f && s[9 + |f|..] == "\n" + content
  {
    var s := CombineFrontMatter(Some(f), content);
    assert s[..4] == "---\n";
    assert s[4 + |f|..9 + |f|] == "\n---\n";
    assert s[9 + |f|] == '\n';
  }

  /** In the combined text of front matter that round-trips, the first closing delimiter is
      the one the combiner wrote. */
  lemma CombinedClosing(f: string, content: string)
    requires RoundTrips(f)
    ensures FindClosing(CombineFrontMatter(Some(f), content), 4) == Some((4 + |f|, 9 + |f|))
  {
    var s := CombineFrontMatter(Some(f), content);
    var rest := "\n\n" + content;
    assert s == "---\n" + f + "\n---" + rest;
    forall k | 4 <= k < 4 + |f|
      ensures ClosingEnd(s, k).None?
    {
      NoClosingInside(f, rest, k);
    }
    CombinedLayout(f, content);
    FirstClosing(s, 4, 4 + |f|, 9 + |f|);
  }

  /** The round trip: splitting what the combiner produced gives back the front matter, and
      the body preceded by the line feed of the blank line the combiner inserted. */
  lemma RoundTrip(f: string, content: string)
    requires RoundTrips(f)
    ensures ExtractFrontMatter(CombineFrontMatter(Some(f), content)) == FrontMatterResult(Some(f), "\n" + content, true)
  {
    CombinedLayout(f, content);
    CombinedClosing(f, content);
    ExtractAt(CombineFrontMatter(Some(f), content), 4, 4 + |f|, 9 + |f|);
  }

  /** The empty-but-present block: `---`, an empty line, `---`. */
  lemma EmptyFrontMatter(content: string)
    ensures ExtractFrontMatter("---\n\n---\n\n" + content) == FrontMatterResult(Some(""), "\n" + content, true)
  {
    assert CombineFrontMatter(Some(""), content) == "---\n\n---\n\n" + content;
    RoundTrip("", content);
  }

  /** Without a line feed after the closing `---` there is no closing delimiter, and the
      whole input is ordinary content. */
  lemma ClosingAtEndOfInput(f: string)
    requires RoundTrips(f)
    ensures ExtractFrontMatter("---\n" + f + "\n---") == NoFrontMatter("---\n" + f + "\n---")
  {
    var s := "---\n" + f + "\n---";
    assert s == "---\n" + f + "\n---" + "";
    forall k | 4 <= k
      ensures ClosingEnd(s, k).None?
    {
      if k < 4 + |f| {
        NoClosingInside(f, "", k);
      }
    }
  }

  /** White space before the opening `---` passes the prefix test of the source but not the
      anchored regular expression: the result is still "no front matter". */
  lemma LeadingWhitespace(markdown: string)
    requires markdown != [] && IsWhitespace(markdown[0])
    ensures ExtractFrontMatter(markdown) == NoFrontMatter(markdown)
  {
  }

  /** The text of the next lemma opens with a delimiter line. */
  lemma InteriorOpening(s: string)
    requires s == "---\na\n---\n---\n\nb"
    ensures StartsWith(TrimStart(s), "---") && DelimiterLineEnd(s, 0) == Some(4)
  {
    assert s[..3] == "---";
    assert TrimStart(s) == s;
  }

  /** ... and its first closing delimiter is the `---` line right after `a`. */
  lemma InteriorClosing(s: string)
    requires s == "---\na\n---\n---\n\nb"
    ensures FindClosing(s, 4) == Some((5, 10)) && s[4..5] == "a" && s[10..] == "---\n\nb"
  {
    assert ClosingEnd(s, 4).None?;
    assert ClosingEnd(s, 5) == Some(10);
    FirstClosing(s, 4, 5, 10);
  }

  /** Why `RoundTrips` is needed: a `---` line inside the front matter closes the block early. */
  lemma InteriorDelimiterClosesEarly(s: string)
    requires s == CombineFrontMatter(Some("a\n---"), "b")
    ensures ExtractFrontMatter(s) == FrontMatterResult(Some("a"), "---\n\nb", true)
  {
    assert s == "---\na\n---\n---\n\nb";
    InteriorOpening(s);
    InteriorClosing(s);
    ExtractAt(s, 4, 5, 10);
  }
}
