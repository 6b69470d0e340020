/**
 * Heading text, heading lookup and slugs (src/markdown/heading-extractor.ts).
 */
module HeadingExtractor {
  import opened Nullable
  import opened Text
  import opened MarkdownTypes

  /** The text runs of `children`, in order, glued together without a separator; children of
      any other type contribute nothing. */
  function InlineText(children: seq<Inline>): string
  {
    if children == [] then ""
    else (if children[0].kind == "text" then children[0].value else "") + InlineText(children[1..])
  }

  /** The values of the text children, in order: `filter` then `map`. */
  function TextValues(children: seq<Inline>): seq<string>
  {
    if children == [] then []
    else (if children[0].kind == "text" then [children[0].value] else []) + TextValues(children[1..])
  }

  /** Gluing the runs one by one is joining the text values with the empty separator. */
  lemma {:induction false} InlineTextIsJoin(children: seq<Inline>)
    ensures InlineText(children) == Join(TextValues(children), "")
  {
    if children != [] {
      InlineTextIsJoin(children[1..]);
      var rest := TextValues(children[1..]);
      if children[0].kind == "text" {
        var v := children[0].value;
        assert TextValues(children) == [v] + rest;
        assert v + "" == v;
        if rest == [] {
          assert [v] + rest == [v];
        } else {
          JoinAppend([v], rest, "");
        }
      } else {
        assert TextValues(children) == [] + rest == rest;
      }
    }
  }

  /** getHeadingText: the values of the heading's text children joined together. */
  function GetHeadingText(heading: HeadingNode): (r: string)
    ensures r == Join(TextValues(heading.children), "")
  {
    InlineTextIsJoin(heading.children);
    InlineText(heading.children)
  }

  /** The text of a run of children is the text of its parts, one after the other. */
  lemma {:induction false} InlineTextAppend(a: seq<Inline>, b: seq<Inline>)
    ensures InlineText(a + b) == InlineText(a) + InlineText(b)
  {
    if a != [] {
      assert (a + b)[1..] == a[1..] + b;
      InlineTextAppend(a[1..], b);
    } else {
      assert a + b == b;
    }
  }

  /** A text child contributes its value, any other child nothing. */
  lemma InlineTextSingle(c: Inline)
    ensures InlineText([c]) == if c.kind == "text" then c.value else ""
  {
    assert [c][1..] == [];
  }

  /** A heading without text children has the empty text. */
  lemma {:induction false} NoTextChildren(children: seq<Inline>)
    requires forall i :: 0 <= i < |children| ==> children[i].kind != "text"
    ensures InlineText(children) == ""
  {
    if children != [] {
      NoTextChildren(children[1..]);
    }
  }

  /** Two runs "Heading" and " Text" give "Heading Text". */
  lemma TwoTextRuns()
    ensures GetHeadingText(HeadingNode(1, [Inline("text", "Heading"), Inline("text", " Text")], 0)) == "Heading Text"
  {
    var a, b := Inline("text", "Heading"), Inline("text", " Text");
    InlineTextSingle(a);
    InlineTextSingle(b);
    InlineTextAppend([a], [b]);
    assert [a] + [b] == [a, b];
  }

  /** The lookup rule: trimmed heading text equals the trimmed query, case-sensitively. */
  predicate Matches(heading: HeadingNode, query: string) {
    Trim(InlineText(heading.children)) == Trim(query)
  }

  /** The first index at or after `from` whose heading matches. */
  function FirstMatchFrom(headings: seq<HeadingNode>, query: string, from: nat): (r: Option<nat>)
    ensures r.Some? ==> from <= r.value < |headings| && Matches(headings[r.value], query)
    ensures r.Some? ==> forall j :: from <= j < r.value ==> !Matches(headings[j], query)
    ensures r.None? ==> forall j :: from <= j < |headings| ==> !Matches(headings[j], query)
    decreases |headings| - from
  {
    if from >= |headings| then None
    else if Matches(headings[from], query) then Some(from)
    else FirstMatchFrom(headings, query, from + 1)
  }

  /** The index of the first heading, in document order, that matches `query`. */
  function FirstMatch(headings: seq<HeadingNode>, query: string): (r: Option<nat>)
    ensures r.Some? ==> r.value < |headings| && Matches(headings[r.value], query)
    ensures r.Some? ==> forall j :: 0 <= j < r.value ==> !Matches(headings[j], query)
    ensures r.None? <==> forall j :: 0 <= j < |headings| ==> !Matches(headings[j], query)
  {
    FirstMatchFrom(headings, query, 0)
  }

  /** findHeadingNode: parse, then the first heading whose trimmed text is the trimmed query. */
  method FindHeadingNode(content: string, headingText: string, md: Markdown) returns (r: Option<HeadingNode>)
    ensures var headings := md.parse(content).headings;
      r == match FirstMatch(headings, headingText)
           case Some(i) => Some(headings[i])
           case None => None
  {
    var headings := md.parse(content).headings;
    var i := 0;
    while i < |headings|
      invariant i <= |headings|
      invariant forall j :: 0 <= j < i ==> !Matches(headings[j], headingText)
    {
      if Trim(GetHeadingText(headings[i])) == Trim(headingText) {
        return Some(headings[i]);
      }
      i := i + 1;
    }
    return None;
  }

  // ---------------------------------------------------------------------------------------
  // headingToSlug

  /** The Unicode classes `\p{L}` and `\p{N}` and the character mapping of `toLowerCase`,
      left abstract. */
  datatype CharClasses = CharClasses(isLetter: char -> bool, isNumber: char -> bool, toLower: char -> char)

  /** What the slug's idempotence needs of the lowercase mapping. */
  ghost predicate LowerIsIdempotent(cc: CharClasses) {
    (forall c :: cc.toLower(cc.toLower(c)) == cc.toLower(c)) && cc.toLower('-') == '-'
  }

  function Lowercase(s: string, cc: CharClasses): (r: string)
    ensures |r| == |s| && forall i :: 0 <= i < |s| ==> r[i] == cc.toLower(s[i])
  {
    seq(|s|, i requires 0 <= i < |s| => cc.toLower(s[i]))
  }

  /** The characters `[^\p{L}\p{N}\s-]` does not delete. */
  predicate Kept(c: char, cc: CharClasses) {
    cc.isLetter(c) || cc.isNumber(c) || IsWhitespace(c) || c == '-'
  }

  /** `.replace(/[^\p{L}\p{N}\s-]/gu, "")`. */
  function RemoveSpecial(s: string, cc: CharClasses): (r: string)
    ensures forall i :: 0 <= i < |r| ==> Kept(r[i], cc) && r[i] in s
    ensures (forall i :: 0 <= i < |s| ==> Kept(s[i], cc)) ==> r == s
  {
    if s == [] then []
    else
      var rest := RemoveSpecial(s[1..], cc);
      assert forall c :: c in s[1..] ==> c in s;
      if Kept(s[0], cc) then [s[0]] + rest else rest
  }

  /** The two classes whose runs become one hyphen: `\s` and `-`. */
  datatype RunClass = Spaces | Hyphens

  predicate InClass(c: char, k: RunClass) {
    match k
    case Spaces => IsWhitespace(c)
    case Hyphens => c == '-'
  }

  /** `s` without its leading run of characters of the class. */
  function DropRun(s: string, k: RunClass): (r: string)
    ensures |r| <= |s| && r == s[|s| - |r|..]
    ensures r == [] || !InClass(r[0], k)
    ensures s != [] && InClass(s[0], k) ==> |r| < |s|
  {
    if s != [] && InClass(s[0], k) then DropRun(s[1..], k) else s
  }

  /** `.replace(/\s+/g, "-")` and `.replace(/-+/g, "-")`: every maximal run of characters of
      the class becomes one hyphen. */
  function ReplaceRuns(s: string, k: RunClass): (r: string)
    ensures r == [] <==> s == []
    ensures s != [] ==> r[0] == if InClass(s[0], k) then '-' else s[0]
    decreases |s|
  {
    if s == [] then []
    else if InClass(s[0], k) then ['-'] + ReplaceRuns(DropRun(s, k), k)
    else [s[0]] + ReplaceRuns(s[1..], k)
  }

  /** The result of replacing runs in a nonempty text: its first character, then the result
      for the text after the first run or character. */
  lemma ReplaceRunsStep(s: string, k: RunClass)
    requires s != []
    ensures var t := if InClass(s[0], k) then DropRun(s, k) else s[1..];
      |t| < |s| && t == s[|s| - |t|..] && (InClass(s[0], k) ==> t == [] || !InClass(t[0], k))
      && ReplaceRuns(s, k) == [if InClass(s[0], k) then '-' else s[0]] + ReplaceRuns(t, k)
  {
  }

  /** A character of a suffix is a character of the text. */
  lemma SuffixContains(s: string, n: nat)
    requires n <= |s|
    ensures forall c :: c in s[n..] ==> c in s
  {
    forall c | c in s[n..]
      ensures c in s
    {
      var j :| 0 <= j < |s| - n && s[n..][j] == c;
      assert s[n + j] == c;
    }
  }

  lemma ReplaceRunsAtRun(s: string, k: RunClass)
    requires s != [] && InClass(s[0], k)
    ensures ReplaceRuns(s, k) == ['-'] + ReplaceRuns(DropRun(s, k), k)
  {
  }

  lemma ReplaceRunsAtPlain(s: string, k: RunClass)
    requires s != [] && !InClass(s[0], k)
    ensures ReplaceRuns(s, k) == [s[0]] + ReplaceRuns(s[1..], k)
  {
  }

  /** Every character of the result is a hyphen or a character of the input outside the
      class. */
  lemma {:induction false} ReplaceRunsChars(s: string, k: RunClass)
    ensures forall c :: c in ReplaceRuns(s, k) ==> c == '-' || (c in s && !InClass(c, k))
    decreases |s|
  {
    if s != [] {
      var t := if InClass(s[0], k) then DropRun(s, k) else s[1..];
      ReplaceRunsStep(s, k);
      ReplaceRunsChars(t, k);
      SuffixContains(s, |s| - |t|);
    }
  }

  /** No two hyphens in a row. */
  predicate NoDoubleHyphen(r: string) {
    forall i :: 0 <= i < |r| - 1 ==> !(r[i] == '-' && r[i + 1] == '-')
  }

  lemma ConsNoDoubleHyphen(x: char, rest: string)
    requires NoDoubleHyphen(rest)
    requires x == '-' ==> rest == [] || rest[0] != '-'
    ensures NoDoubleHyphen([x] + rest)
  {
    var r := [x] + rest;
    forall i | 0 < i < |r| - 1
      ensures !(r[i] == '-' && r[i + 1] == '-')
    {
      assert r[i] == rest[i - 1] && r[i + 1] == rest[i];
    }
  }

  /** After collapsing hyphens no two hyphens are adjacent. */
  lemma {:induction false} HyphensSeparated(s: string)
    ensures NoDoubleHyphen(ReplaceRuns(s, Hyphens))
    decreases |s|
  {
    if s != [] {
      var t := if s[0] == '-' then DropRun(s, Hyphens) else s[1..];
      ReplaceRunsStep(s, Hyphens);
      HyphensSeparated(t);
      ConsNoDoubleHyphen(if s[0] == '-' then '-' else s[0], ReplaceRuns(t, Hyphens));
    }
  }

  /** Every character of the class already is a hyphen standing alone. */
  predicate Settled(s: string, k: RunClass) {
    forall i :: 0 <= i < |s| && InClass(s[i], k) ==> s[i] == '-' && (i + 1 < |s| ==> !InClass(s[i + 1], k))
  }

  lemma SettledTail(s: string, k: RunClass)
    requires s != [] && Settled(s, k)
    ensures Settled(s[1..], k)
  {
    var t := s[1..];
    assert forall m :: 0 <= m < |t| ==> t[m] == s[m + 1];
  }

  /** Replacing runs changes nothing when every character of the class already is a hyphen
      standing alone. */
  lemma {:induction false} ReplaceRunsUnchanged(s: string, k: RunClass)
    requires Settled(s, k)
    ensures ReplaceRuns(s, k) == s
  {
    if s != [] {
      var t := s[1..];
      if InClass(s[0], k) {
        DropRunAt(s, 1, k);
        ReplaceRunsAtRun(s, k);
      } else {
        ReplaceRunsAtPlain(s, k);
      }
      SettledTail(s, k);
      ReplaceRunsUnchanged(t, k);
      assert [s[0]] + t == s;
    }
  }

  /** Text with no two hyphens in a row comes through the collapsing of hyphen runs
      unchanged, so with `HyphensSeparated` collapsing hyphen runs twice is collapsing once. */
  lemma HyphensCollapsed(s: string)
    requires NoDoubleHyphen(s)
    ensures ReplaceRuns(s, Hyphens) == s
  {
    assert Settled(s, Hyphens) by {
      forall i | 0 <= i < |s| && InClass(s[i], Hyphens) && i + 1 < |s|
        ensures !InClass(s[i + 1], Hyphens)
      {
        assert !(s[i] == '-' && s[i + 1] == '-');
      }
    }
    ReplaceRunsUnchanged(s, Hyphens);
  }

  /** headingToSlug: trim, lowercase, delete what is neither letter, number, white space nor
      hyphen, turn white-space runs into one hyphen, then hyphen runs into one hyphen. */
  function HeadingToSlug(headingText: string, cc: CharClasses): string
  {
    var lower := Lowercase(Trim(headingText), cc);
    var cleaned := RemoveSpecial(lower, cc);
    var hyphenated := ReplaceRuns(cleaned, Spaces);
    ReplaceRuns(hyphenated, Hyphens)
  }

  /** A slug holds only letters, numbers and hyphens, no white space and no two hyphens in a
      row; each of its letters and numbers is the lowercase image of a character. */
  lemma SlugCharacters(headingText: string, cc: CharClasses)
    ensures var slug := HeadingToSlug(headingText, cc);
      forall i :: 0 <= i < |slug| ==>
        !IsWhitespace(slug[i])
        && (slug[i] == '-' || ((cc.isLetter(slug[i]) || cc.isNumber(slug[i])) && exists c :: slug[i] == cc.toLower(c)))
    ensures var slug := HeadingToSlug(headingText, cc);
      forall i :: 0 <= i < |slug| - 1 ==> !(slug[i] == '-' && slug[i + 1] == '-')
  {
    var lower := Lowercase(Trim(headingText), cc);
    var cleaned := RemoveSpecial(lower, cc);
    var hyphenated := ReplaceRuns(cleaned, Spaces);
    var slug := ReplaceRuns(hyphenated, Hyphens);
    ReplaceRunsChars(cleaned, Spaces);
    ReplaceRunsChars(hyphenated, Hyphens);
    HyphensSeparated(hyphenated);
    forall i | 0 <= i < |slug|
      ensures !IsWhitespace(slug[i])
      ensures slug[i] == '-' || ((cc.isLetter(slug[i]) || cc.isNumber(slug[i])) && exists c :: slug[i] == cc.toLower(c))
    {
      if slug[i] != '-' {
        var x := slug[i];
        assert x in hyphenated && x != '-';
        assert x in cleaned && !IsWhitespace(x);
        assert Kept(x, cc) && x in lower;
        var k :| 0 <= k < |lower| && lower[k] == x;
      }
    }
  }

  /** The slug of a slug is itself, for a lowercase mapping that is idempotent and leaves the
      hyphen alone. */
  lemma SlugIdempotent(headingText: string, cc: CharClasses)
    requires LowerIsIdempotent(cc)
    ensures HeadingToSlug(HeadingToSlug(headingText, cc), cc) == HeadingToSlug(headingText, cc)
  {
    var slug := HeadingToSlug(headingText, cc);
    SlugCharacters(headingText, cc);
    assert Trim(slug) == slug;
    assert Lowercase(slug, cc) == slug by {
      forall i | 0 <= i < |slug|
        ensures cc.toLower(slug[i]) == slug[i]
      {
        if slug[i] != '-' {
          var c :| slug[i] == cc.toLower(c);
        }
      }
    }
    assert RemoveSpecial(slug, cc) == slug;
    ReplaceRunsUnchanged(slug, Spaces);
    ReplaceRunsUnchanged(slug, Hyphens);
  }

  /** A sample of the Unicode classes, exact on the characters it covers: ASCII letters and
      digits and the CJK unified ideographs are letters and numbers, and only `A`..`Z` change
      case. */
  function SampleClasses(): CharClasses {
    CharClasses(
      c => ('a' <= c <= 'z') || ('A' <= c <= 'Z') || ('\U{4E00}' <= c <= '\U{9FFF}'),
      c => '0' <= c <= '9',
      c => if 'A' <= c <= 'Z' then (c as int + 32) as char else c)
  }

  /** Deleting special characters works piecewise. */
  lemma {:induction false} RemoveSpecialAppend(a: string, b: string, cc: CharClasses)
    ensures RemoveSpecial(a + b, cc) == RemoveSpecial(a, cc) + RemoveSpecial(b, cc)
  {
    if a == [] {
      assert a + b == b;
    } else {
      assert (a + b)[1..] == a[1..] + b;
      RemoveSpecialAppend(a[1..], b, cc);
    }
  }

  /** A stretch with no character of the class passes through unchanged. */
  lemma {:induction false} ReplaceRunsPlain(a: string, b: string, k: RunClass)
    requires forall i :: 0 <= i < |a| ==> !InClass(a[i], k)
    ensures ReplaceRuns(a + b, k) == a + ReplaceRuns(b, k)
  {
    if a == [] {
      assert a + b == b;
    } else {
      assert (a + b)[1..] == a[1..] + b;
      ReplaceRunsPlain(a[1..], b, k);
    }
  }

  lemma {:induction false} DropWholeRun(w: string, b: string, k: RunClass)
    requires forall i :: 0 <= i < |w| ==> InClass(w[i], k)
    requires b == [] || !InClass(b[0], k)
    ensures DropRun(w + b, k) == b
  {
    if w == [] {
      assert w + b == b;
    } else {
      assert (w + b)[1..] == w[1..] + b;
      DropWholeRun(w[1..], b, k);
    }
  }

  /** A maximal run of the class, however long, becomes one hyphen. */
  lemma ReplaceRunsCollapse(w: string, b: string, k: RunClass)
    requires w != [] && forall i :: 0 <= i < |w| ==> InClass(w[i], k)
    requires b == [] || !InClass(b[0], k)
    ensures ReplaceRuns(w + b, k) == ['-'] + ReplaceRuns(b, k)
  {
    DropWholeRun(w, b, k);
  }

  /** Replacing runs in text with no character of the class changes nothing. */
  lemma ReplaceRunsNone(a: string, k: RunClass)
    requires forall i :: 0 <= i < |a| ==> !InClass(a[i], k)
    ensures ReplaceRuns(a, k) == a
  {
    ReplaceRunsPlain(a, [], k);
    assert a + [] == a;
  }

  /** The leading run ends at the first character outside the class. */
  lemma {:induction false} DropRunAt(s: string, j: nat, k: RunClass)
    requires j <= |s| && forall m :: 0 <= m < j ==> InClass(s[m], k)
    requires j == |s| || !InClass(s[j], k)
    ensures DropRun(s, k) == s[j..]
  {
    if j > 0 {
      DropRunAt(s[1..], j - 1, k);
      assert s[1..][j - 1..] == s[j..];
    }
  }

  /** A text that opens with a run of the class and has no other character of it: one
      hyphen, then the rest. */
  lemma RunAtStart(s: string, j: nat, k: RunClass)
    requires 0 < j <= |s|
    requires forall m :: 0 <= m < j ==> InClass(s[m], k)
    requires forall m :: j <= m < |s| ==> !InClass(s[m], k)
    ensures ReplaceRuns(s, k) == ['-'] + s[j..]
  {
    assert InClass(s[0], k);
    ReplaceRunsAtRun(s, k);
    DropRunAt(s, j, k);
    var rest := s[j..];
    assert forall m :: 0 <= m < |rest| ==> !InClass(rest[m], k) by {
      forall m | 0 <= m < |rest| ensures !InClass(rest[m], k) {
        assert rest[m] == s[j + m];
      }
    }
    ReplaceRunsNone(rest, k);
  }

  /** Two stretches without the class around one run of it, at `i`..`j`: the run becomes
      a single hyphen. */
  lemma ReplaceOneRun(s: string, i: nat, j: nat, k: RunClass)
    requires i < j <= |s|
    requires forall m :: 0 <= m < i ==> !InClass(s[m], k)
    requires forall m :: i <= m < j ==> InClass(s[m], k)
    requires forall m :: j <= m < |s| ==> !InClass(s[m], k)
    ensures ReplaceRuns(s, k) == s[..i] + ['-'] + s[j..]
  {
    PrefixPlain(s, i, k);
    SuffixRun(s, i, j, k);
    assert s[..i] + (['-'] + s[j..]) == s[..i] + ['-'] + s[j..];
  }

  lemma PrefixPlain(s: string, i: nat, k: RunClass)
    requires i <= |s|
    requires forall m :: 0 <= m < i ==> !InClass(s[m], k)
    ensures ReplaceRuns(s, k) == s[..i] + ReplaceRuns(s[i..], k)
  {
    assert s[..i] + s[i..] == s;
    assert forall m :: 0 <= m < i ==> s[..i][m] == s[m];
    ReplaceRunsPlain(s[..i], s[i..], k);
  }

  lemma SuffixRun(s: string, i: nat, j: nat, k: RunClass)
    requires i < j <= |s|
    requires forall m :: i <= m < j ==> InClass(s[m], k)
    requires forall m :: j <= m < |s| ==> !InClass(s[m], k)
    ensures ReplaceRuns(s[i..], k) == ['-'] + s[j..]
  {
    var u := s[i..];
    assert forall m :: 0 <= m < |u| ==> u[m] == s[i + m];
    RunAtStart(u, j - i, k);
    assert u[j - i..] == s[j..];
  }

  /** Two words around a hyphen, as one literal. */
  lemma Joined(a: string, b: string, r: string)
    requires r == a + "-" + b
    ensures a + ['-'] + b == r
  {
  }

  lemma SpacesLower(s: string)
    requires s == "Hello  World!"
    ensures Trim(s) == s && Lowercase(s, SampleClasses()) == "hello  world!"
  {
    TrimTrimmed(s);
  }

  lemma SpacesCleaned(s: string)
    requires s == "hello  world!"
    ensures RemoveSpecial(s, SampleClasses()) == "hello  world"
  {
    var cc := SampleClasses();
    var a := s[..|s| - 1];
    assert a == "hello  world";
    assert s == a + [s[|s| - 1]];
    RemoveSpecialAppend(a, [s[|s| - 1]], cc);
    assert !Kept('!', cc);
  }

  lemma SpacesHyphenated(s: string)
    requires s == "hello  world"
    ensures ReplaceRuns(s, Spaces) == "hello-world"
  {
    ReplaceOneRun(s, 5, 7, Spaces);
    assert s[..5] == "hello" && s[7..] == "world";
    Joined("hello", "world", "hello-world");
  }

  lemma HyphensAlone(s: string)
    requires s == "hello-world"
    ensures ReplaceRuns(s, Hyphens) == s
  {
    ReplaceRunsUnchanged(s, Hyphens);
  }

  /** Two words, several spaces and a punctuation mark. */
  lemma SlugExampleSpaces(text: string)
    requires text == "Hello  World!"
    ensures HeadingToSlug(text, SampleClasses()) == "hello-world"
  {
    var cc := SampleClasses();
    SpacesLower(text);
    var lower := Lowercase(Trim(text), cc);
    SpacesCleaned(lower);
    var cleaned := RemoveSpecial(lower, cc);
    SpacesHyphenated(cleaned);
    HyphensAlone(ReplaceRuns(cleaned, Spaces));
  }

  lemma IdeographsLower(s: string)
    requires s == "\U{7279}\U{6B8A}\U{6587}\U{5B57} Test"
    ensures Trim(s) == s && Lowercase(s, SampleClasses()) == "\U{7279}\U{6B8A}\U{6587}\U{5B57} test"
  {
    TrimTrimmed(s);
  }

  lemma IdeographsCleaned(s: string)
    requires s == "\U{7279}\U{6B8A}\U{6587}\U{5B57} test"
    ensures RemoveSpecial(s, SampleClasses()) == s
  {
    assert forall i :: 0 <= i < |s| ==> Kept(s[i], SampleClasses());
  }

  lemma IdeographsHyphenated(s: string)
    requires s == "\U{7279}\U{6B8A}\U{6587}\U{5B57} test"
    ensures ReplaceRuns(s, Spaces) == "\U{7279}\U{6B8A}\U{6587}\U{5B57}-test"
  {
    ReplaceOneRun(s, 4, 5, Spaces);
    assert s[..4] == "\U{7279}\U{6B8A}\U{6587}\U{5B57}" && s[5..] == "test";
    Joined("\U{7279}\U{6B8A}\U{6587}\U{5B57}", "test", "\U{7279}\U{6B8A}\U{6587}\U{5B57}-test");
  }

  lemma IdeographHyphensAlone(s: string)
    requires s == "\U{7279}\U{6B8A}\U{6587}\U{5B57}-test"
    ensures ReplaceRuns(s, Hyphens) == s
  {
    ReplaceRunsUnchanged(s, Hyphens);
  }

  /** Letters outside ASCII are kept. */
  lemma SlugExampleIdeographs(text: string)
    requires text == "\U{7279}\U{6B8A}\U{6587}\U{5B57} Test"
    ensures HeadingToSlug(text, SampleClasses()) == "\U{7279}\U{6B8A}\U{6587}\U{5B57}-test"
  {
    var cc := SampleClasses();
    IdeographsLower(text);
    var lower := Lowercase(Trim(text), cc);
    IdeographsCleaned(lower);
    var cleaned := RemoveSpecial(lower, cc);
    IdeographsHyphenated(cleaned);
    IdeographHyphensAlone(ReplaceRuns(cleaned, Spaces));
  }

  lemma TrimSpaceLower(s: string)
    requires s == " Trim Space "
    ensures Lowercase(Trim(s), SampleClasses()) == "trim space"
  {
    var inner := s[1..|s| - 1];
    assert inner == "Trim Space";
    assert s[1..][..|s[1..]| - 1] == inner;
    TrimTrimmed(inner);
  }

  lemma TrimSpaceCleaned(s: string)
    requires s == "trim space"
    ensures RemoveSpecial(s, SampleClasses()) == s
  {
    assert forall i :: 0 <= i < |s| ==> Kept(s[i], SampleClasses());
  }

  lemma TrimSpaceHyphenated(s: string)
    requires s == "trim space"
    ensures ReplaceRuns(s, Spaces) == "trim-space"
  {
    ReplaceOneRun(s, 4, 5, Spaces);
    assert s[..4] == "trim" && s[5..] == "space";
    Joined("trim", "space", "trim-space");
  }

  lemma TrimSpaceHyphensAlone(s: string)
    requires s == "trim-space"
    ensures ReplaceRuns(s, Hyphens) == s
  {
    ReplaceRunsUnchanged(s, Hyphens);
  }

  /** Surrounding white space is trimmed before anything becomes a hyphen. */
  lemma SlugExampleTrim(text: string)
    requires text == " Trim Space "
    ensures HeadingToSlug(text, SampleClasses()) == "trim-space"
  {
    var cc := SampleClasses();
    TrimSpaceLower(text);
    var lower := Lowercase(Trim(text), cc);
    TrimSpaceCleaned(lower);
    var cleaned := RemoveSpecial(lower, cc);
    TrimSpaceHyphenated(cleaned);
    TrimSpaceHyphensAlone(ReplaceRuns(cleaned, Spaces));
  }
}
