/**
 * The action of the generate command (src/commands/generate/command.ts): the guards before
 * any work, the counting of what was selected, and the choice, file by file, between copying
 * a whole file and extracting some of its sections.
 *
 * Loading the configuration, probing the file system, choosing the destination, listing the
 * files and the prompt are inputs here. The copy and the extraction themselves are the
 * members of `FileOperations`; the action is modelled up to the list of tasks it hands them,
 * in order.
 */
module Command {
  import opened Nullable
  import opened GenerateTypes
  import opened RulesDir

  /** What the action does with one file. */
  datatype Task =
    | CopyWhole(sourcePath: string)
    | ExtractSections(sourcePath: string, headings: seq<HeadingItem>)

  /** The action's result: the value it returns and the tasks it carried out, in order. */
  datatype Run = Run(ok: bool, tasks: seq<Task>)

  // ---------------------------------------------------------------------------------------
  // Counting

  /** The headings with `selected` set, in order. */
  function SelectedHeadings(headings: seq<HeadingItem>): (r: seq<HeadingItem>)
    ensures |r| <= |headings|
    ensures forall h :: h in r <==> h in headings && h.selected
  {
    if headings == [] then []
    else
      var last := headings[|headings| - 1];
      SelectedHeadings(headings[..|headings| - 1]) + (if last.selected then [last] else [])
  }

  /** The filter keeps the order of the headings it keeps. */
  lemma {:induction false} SelectedHeadingsAppend(a: seq<HeadingItem>, b: seq<HeadingItem>)
    ensures SelectedHeadings(a + b) == SelectedHeadings(a) + SelectedHeadings(b)
    decreases |b|
  {
    if b == [] {
      assert a + b == a;
    } else {
      var b' := b[..|b| - 1];
      assert (a + b)[..|a + b| - 1] == a + b';
      assert b[..|b| - 1] == b';
      SelectedHeadingsAppend(a, b');
    }
  }

  /** The number of selected files. */
  function SelectedFileCount(files: seq<RuleFile>): nat
  {
    if files == [] then 0
    else SelectedFileCount(files[..|files| - 1]) + (if files[|files| - 1].selected then 1 else 0)
  }

  /** The number of selected headings in files that are not selected themselves. */
  function SelectedHeadingCount(files: seq<RuleFile>): nat
  {
    if files == [] then 0
    else
      var last := files[|files| - 1];
      SelectedHeadingCount(files[..|files| - 1]) + (if last.selected then 0 else |SelectedHeadings(last.headings)|)
  }

  /** The counting loops: each selected file counts once, and the selected headings of the
      other files count one by one. */
  method CountSelections(files: seq<RuleFile>) returns (selectedFileCount: nat, selectedHeadingCount: nat)
    ensures selectedFileCount == SelectedFileCount(files)
    ensures selectedHeadingCount == SelectedHeadingCount(files)
  {
    selectedFileCount := 0;
    selectedHeadingCount := 0;
    for i := 0 to |files|
      invariant selectedFileCount == SelectedFileCount(files[..i])
      invariant selectedHeadingCount == SelectedHeadingCount(files[..i])
    {
      var file := files[i];
      assert files[..i + 1][..i] == files[..i];
      if file.selected {
        selectedFileCount := selectedFileCount + 1;
      } else {
        var headings := file.headings;
        var counted := 0;
        for j := 0 to |headings|
          invariant counted == |SelectedHeadings(headings[..j])|
        {
          assert headings[..j + 1][..j] == headings[..j];
          if headings[j].selected {
            counted := counted + 1;
          }
        }
        assert headings[..|headings|] == headings;
        selectedHeadingCount := selectedHeadingCount + counted;
      }
    }
    assert files[..|files|] == files;
  }

  // ---------------------------------------------------------------------------------------
  // The plan

  /** The tasks for the files, in order: a selected file is copied whole, another file with
      selected headings has exactly those extracted, and any other file is skipped. */
  function Plan(files: seq<RuleFile>): (r: seq<Task>)
    ensures |r| <= |files|
  {
    if files == [] then []
    else
      var last := files[|files| - 1];
      var selectedHeadings := SelectedHeadings(last.headings);
      Plan(files[..|files| - 1])
        + (if last.selected then [CopyWhole(last.sourcePath)]
           else if |selectedHeadings| > 0 then [ExtractSections(last.sourcePath, selectedHeadings)]
           else [])
  }

  /** The task a file gives rise to, if it gives rise to one. */
  predicate PlannedFor(file: RuleFile, t: Task) {
    if file.selected then t == CopyWhole(file.sourcePath)
    else t == ExtractSections(file.sourcePath, SelectedHeadings(file.headings)) && t.headings != []
  }

  /** There is nothing to do exactly when both counts are zero. */
  lemma {:induction false} PlanEmptyIff(files: seq<RuleFile>)
    ensures Plan(files) == [] <==> SelectedFileCount(files) + SelectedHeadingCount(files) == 0
  {
    if files != [] {
      PlanEmptyIff(files[..|files| - 1]);
    }
  }

  /** Every selected file is copied whole, every other file with selected headings has them
      extracted, and every task comes from one of the files in the way `PlannedFor` says. */
  lemma {:induction false} PlanCoversFiles(files: seq<RuleFile>)
    ensures forall i :: 0 <= i < |files| && files[i].selected ==> CopyWhole(files[i].sourcePath) in Plan(files)
    ensures forall i :: 0 <= i < |files| && !files[i].selected && SelectedHeadings(files[i].headings) != [] ==>
      ExtractSections(files[i].sourcePath, SelectedHeadings(files[i].headings)) in Plan(files)
    ensures forall t :: t in Plan(files) ==> exists i :: 0 <= i < |files| && PlannedFor(files[i], t)
  {
    if files != [] {
      var init := files[..|files| - 1];
      PlanCoversFiles(init);
      assert forall i :: 0 <= i < |init| ==> files[i] == init[i];
      forall t | t in Plan(files)
        ensures exists i :: 0 <= i < |files| && PlannedFor(files[i], t)
      {
        if t in Plan(init) {
          var i :| 0 <= i < |init| && PlannedFor(init[i], t);
          assert PlannedFor(files[i], t);
        } else {
          assert PlannedFor(files[|files| - 1], t);
        }
      }
    }
  }

  /** The tasks are one per selected file plus one per other file with selected headings, so
      never more than the selections counted. */
  lemma {:induction false} PlanSize(files: seq<RuleFile>)
    ensures SelectedFileCount(files) <= |Plan(files)| <= SelectedFileCount(files) + SelectedHeadingCount(files)
  {
    if files != [] {
      PlanSize(files[..|files| - 1]);
    }
  }

  /** A plan for files one after the other is the plans one after the other. */
  lemma {:induction false} PlanAppend(a: seq<RuleFile>, b: seq<RuleFile>)
    ensures Plan(a + b) == Plan(a) + Plan(b)
    decreases |b|
  {
    if b == [] {
      assert a + b == a;
    } else {
      var b' := b[..|b| - 1];
      assert (a + b)[..|a + b| - 1] == a + b';
      PlanAppend(a, b');
    }
  }

  /** The dispatch loop: a task per file, in the order of the files. */
  method Dispatch(files: seq<RuleFile>) returns (tasks: seq<Task>)
    ensures tasks == Plan(files)
  {
    tasks := [];
    for i := 0 to |files|
      invariant tasks == Plan(files[..i])
    {
      var file := files[i];
      assert files[..i + 1][..i] == files[..i];
      if file.selected {
        tasks := tasks + [CopyWhole(file.sourcePath)];
      } else {
        var selectedHeadings := SelectedHeadings(file.headings);
        if |selectedHeadings| > 0 {
          tasks := tasks + [ExtractSections(file.sourcePath, selectedHeadings)];
        }
      }
    }
    assert files[..|files|] == files;
  }

  // ---------------------------------------------------------------------------------------
  // The action

  /** A present, non-empty string: what `!value` in the source rejects. */
  predicate Given(value: Option<string>) {
    value.Some? && value.value != ""
  }

  /** What the action returns and does, as a function of its inputs. `selectedRuleFiles` is
      the list after the prompt; the prompt keeps the list and its length. */
  function Generate(env: map<string, string>, config: Option<AirulesConfig>, dirExists: string -> bool,
                    targetDir: Option<string>, selectedRuleFiles: seq<RuleFile>): (r: Run)
    ensures r.tasks != [] ==> r.ok
    ensures !Given(GetEffectiveRulesDir(env, config)) ==> r == Run(false, [])
    ensures !Given(targetDir) ==> !r.ok
    ensures r.ok <==> (Given(GetEffectiveRulesDir(env, config)) && dirExists(GetEffectiveRulesDir(env, config).value)
                       && Given(targetDir) && selectedRuleFiles != [])
  {
    var rulesDir := GetEffectiveRulesDir(env, config);
    if !Given(rulesDir) || !dirExists(rulesDir.value) || !Given(targetDir) || selectedRuleFiles == [] then
      Run(false, [])
    else if SelectedFileCount(selectedRuleFiles) + SelectedHeadingCount(selectedRuleFiles) == 0 then
      Run(true, [])
    else
      Run(true, Plan(selectedRuleFiles))
  }

  /** Once the guards pass, the tasks are the plan: the early exit on zero selections only
      skips an empty plan. */
  lemma GenerateRunsPlan(env: map<string, string>, config: Option<AirulesConfig>, dirExists: string -> bool,
                         targetDir: Option<string>, selectedRuleFiles: seq<RuleFile>)
    requires Generate(env, config, dirExists, targetDir, selectedRuleFiles).ok
    ensures Generate(env, config, dirExists, targetDir, selectedRuleFiles).tasks == Plan(selectedRuleFiles)
  {
    PlanEmptyIff(selectedRuleFiles);
  }

  /** The action body: the guards in the source's order, then the counting loops, then the
      dispatch loop. */
  method GenerateAction(env: map<string, string>, config: Option<AirulesConfig>, dirExists: string -> bool,
                        targetDir: Option<string>, selectedRuleFiles: seq<RuleFile>) returns (r: Run)
    ensures r == Generate(env, config, dirExists, targetDir, selectedRuleFiles)
  {
    var rulesDir := GetEffectiveRulesDir(env, config);
    if !Given(rulesDir) {
      return Run(false, []);
    }
    if !dirExists(rulesDir.value) {
      return Run(false, []);
    }
    if !Given(targetDir) {
      return Run(false, []);
    }
    if |selectedRuleFiles| == 0 {
      return Run(false, []);
    }
    var selectedFileCount, selectedHeadingCount := CountSelections(selectedRuleFiles);
    var totalSelections := selectedFileCount + selectedHeadingCount;
    if totalSelections == 0 {
      return Run(true, []);
    }
    var tasks := Dispatch(selectedRuleFiles);
    return Run(true, tasks);
  }
}
