/**
 * The records of the generate command (src/commands/generate/types.ts).
 */
module GenerateTypes {

  /** GenerateOptions; an absent flag is `false`. */
  datatype GenerateOptions = GenerateOptions(dryRun: bool, force: bool)

  /** A heading offered for selection. */
  datatype HeadingItem = HeadingItem(text: string, selected: bool)

  /** A rule file offered for selection, with its headings. */
  datatype RuleFile = RuleFile(
    sourcePath: string,
    displayName: string,
    fileName: string,
    selected: bool,
    expanded: bool,
    headings: seq<HeadingItem>)

  /** The file extensions the rules directory is searched for, in search order. */
  const TargetExtensions: seq<string> := [".md", ".mdc", ".prompt.md"]

  /** The path helpers of the standard library, left abstract. */
  datatype PathOps = PathOps(basename: string -> string, dirname: string -> string, join: (string, string) -> string)
}
