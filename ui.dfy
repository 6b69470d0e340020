/**
 * Selection state and the heading-list formatter of the generate command
 * (src/commands/generate/ui.ts). The prompt itself is outside the model: its answer, the
 * list of selected option values, is a parameter.
 */
module Ui {
  import opened Text
  import opened GenerateTypes

  // ---------------------------------------------------------------------------------------
  // formatHeadingsList

  function Quote(text: string): string {
    "\"" + text + "\""
  }

  /** The heading texts, each wrapped in double quotes. */
  function QuotedTexts(headings: seq<HeadingItem>): (r: seq<string>)
    ensures |r| == |headings| && forall i :: 0 <= i < |r| ==> r[i] == Quote(headings[i].text)
  {
    seq(|headings|, i requires 0 <= i < |headings| => Quote(headings[i].text))
  }

  function DigitChar(d: nat): char
    requires d < 10
  {
    "0123456789"[d]
  }

  predicate IsDigit(c: char) {
    '0' <= c <= '9'
  }

  /** A number written in decimal, as template interpolation writes it. */
  function NatToString(n: nat): (r: string)
    ensures r != [] && forall i :: 0 <= i < |r| ==> IsDigit(r[i])
    ensures |r| > 1 ==> r[0] != '0'
  {
    if n < 10 then [DigitChar(n)] else NatToString(n / 10) + [DigitChar(n % 10)]
  }

  /** The value of a string of decimal digits. */
  function DecimalValue(s: string): nat
    requires forall i :: 0 <= i < |s| ==> IsDigit(s[i])
  {
    if s == [] then 0
    else
      assert IsDigit(s[|s| - 1]);
      DecimalValue(s[..|s| - 1]) * 10 + (s[|s| - 1] as int - '0' as int)
  }

  /** The decimal text of `n` reads back as `n`. */
  lemma {:induction false} NatToStringValue(n: nat)
    ensures DecimalValue(NatToString(n)) == n
  {
    if n >= 10 {
      NatToStringValue(n / 10);
      var s := NatToString(n);
      assert s[..|s| - 1] == NatToString(n / 10);
    }
  }

  /** formatHeadingsList: up to three headings are all listed, quoted and separated by
      `", "`; with more, the first two and the number of the others. */
  function FormatHeadingsList(headings: seq<HeadingItem>): string
  {
    if |headings| <= 3 then Join(QuotedTexts(headings), ", ")
    else Join(QuotedTexts(headings[..2]), ", ") + ", and " + NatToString(|headings| - 2) + " more"
  }

  /** The short forms: nothing, one, two or three quoted texts. */
  lemma FormatShort(headings: seq<HeadingItem>)
    ensures |headings| == 0 ==> FormatHeadingsList(headings) == ""
    ensures |headings| == 1 ==> FormatHeadingsList(headings) == Quote(headings[0].text)
    ensures |headings| == 2 ==> FormatHeadingsList(headings) == Quote(headings[0].text) + ", " + Quote(headings[1].text)
    ensures |headings| == 3 ==>
      FormatHeadingsList(headings) == Quote(headings[0].text) + ", " + Quote(headings[1].text) + ", " + Quote(headings[2].text)
  {
    var q := QuotedTexts(headings);
    if |headings| == 3 {
      assert Join(q[1..][1..], ", ") == q[2];
      assert Join(q[1..], ", ") == q[1] + ", " + q[2];
    } else if |headings| == 2 {
      assert Join(q[1..], ", ") == q[1];
    }
  }

  /** The truncated form names the first two headings and counts the rest, in decimal: a
      count that reads back as the number of headings left out. */
  lemma FormatLong(headings: seq<HeadingItem>)
    requires |headings| > 3
    ensures FormatHeadingsList(headings)
      == Quote(headings[0].text) + ", " + Quote(headings[1].text) + ", and " + NatToString(|headings| - 2) + " more"
    ensures DecimalValue(NatToString(|headings| - 2)) == |headings| - 2
  {
    NatToStringValue(|headings| - 2);
    var q := QuotedTexts(headings[..2]);
    assert Join(q[1..], ", ") == q[1];
    assert Join(q, ", ") == Quote(headings[0].text) + ", " + Quote(headings[1].text);
  }

  /** Two headings are both listed. */
  lemma FormatTwoExample(a: HeadingItem, b: HeadingItem)
    requires a.text == "Heading 1" && b.text == "Heading 2"
    ensures FormatHeadingsList([a, b]) == "\"Heading 1\", \"Heading 2\""
  {
    FormatShort([a, b]);
  }

  /** Four headings give the first two and the count of the other two. */
  lemma FormatFourExample(a: HeadingItem, b: HeadingItem, c: HeadingItem, d: HeadingItem)
    requires a.text == "Heading 1" && b.text == "Heading 2"
    ensures FormatHeadingsList([a, b, c, d]) == "\"Heading 1\", \"Heading 2\", and 2 more"
  {
    assert [a, b, c, d][..2] == [a, b];
    FormatTwoExample(a, b);
  }

  // ---------------------------------------------------------------------------------------
  // The selection update of selectFiles

  /** The option value of a heading: the file's path, a colon and the heading text. */
  function HeadingValue(file: RuleFile, heading: HeadingItem): string {
    file.sourcePath + ":" + heading.text
  }

  /** A file after the prompt answered `values`: the file is selected when its path is among
      them, a heading when its file is or its own value is among them. */
  function ApplySelection(file: RuleFile, values: seq<string>): (r: RuleFile)
    ensures r.selected <==> file.sourcePath in values
    ensures r.sourcePath == file.sourcePath && r.displayName == file.displayName
      && r.fileName == file.fileName && r.expanded == file.expanded
    ensures |r.headings| == |file.headings|
    ensures forall j :: 0 <= j < |r.headings| ==>
      r.headings[j].text == file.headings[j].text
      && (r.headings[j].selected <==> r.selected || HeadingValue(file, file.headings[j]) in values)
  {
    var selected := file.sourcePath in values;
    var hs := file.headings;
    file.(selected := selected,
          headings := seq(|hs|, j requires 0 <= j < |hs| => hs[j].(selected := selected || HeadingValue(file, hs[j]) in values)))
  }

  /** A selected file has every heading selected. */
  lemma SelectedFileSelectsAll(file: RuleFile, values: seq<string>)
    requires file.sourcePath in values
    ensures forall j :: 0 <= j < |file.headings| ==> ApplySelection(file, values).headings[j].selected
  {
  }

  /** Headings with the same text share one option value, so they end up equally selected. */
  lemma SameTextSameFlag(file: RuleFile, values: seq<string>, j: nat, k: nat)
    requires j < |file.headings| && k < |file.headings|
    requires file.headings[j].text == file.headings[k].text
    ensures ApplySelection(file, values).headings[j].selected == ApplySelection(file, values).headings[k].selected
  {
  }

  /** The selection of one answer does not depend on an earlier one. */
  lemma ApplySelectionTwice(file: RuleFile, first: seq<string>, values: seq<string>)
    ensures ApplySelection(ApplySelection(file, first), values) == ApplySelection(file, values)
  {
  }

  /** The loops after the prompt: every file and each of its headings get their flag, in
      place; nothing else changes. */
  method UpdateSelections(ruleFiles: array<RuleFile>, selectedValues: seq<string>)
    modifies ruleFiles
    ensures forall i :: 0 <= i < ruleFiles.Length ==> ruleFiles[i] == ApplySelection(old(ruleFiles[i]), selectedValues)
  {
    for i := 0 to ruleFiles.Length
      invariant forall k :: 0 <= k < i ==> ruleFiles[k] == ApplySelection(old(ruleFiles[k]), selectedValues)
      invariant forall k :: i <= k < ruleFiles.Length ==> ruleFiles[k] == old(ruleFiles[k])
    {
      var file := ruleFiles[i];
      file := file.(selected := file.sourcePath in selectedValues);
      var headings := file.headings;
      for j := 0 to |headings|
        invariant |headings| == |file.headings|
        invariant forall m :: 0 <= m < j ==>
          headings[m] == file.headings[m].(selected := file.selected || HeadingValue(file, file.headings[m]) in selectedValues)
        invariant forall m :: j <= m < |headings| ==> headings[m] == file.headings[m]
      {
        var headingValue := HeadingValue(file, headings[j]);
        headings := headings[j := headings[j].(selected := file.selected || headingValue in selectedValues)];
      }
      file := file.(headings := headings);
      ruleFiles[i] := file;
    }
  }
}
