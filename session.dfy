/**
  One run of the command: pick the template folder, stop with status 1 if
  it does not exist, search with the lower-cased term, and either report
  that nothing matched or list the results and enter the selection loop.
  The file system is given as the set of existing paths and the walk of
  the chosen folder; the configured folder is whatever the configuration
  lookup returns.
 */
module Session {
  import opened Text
  import opened Scanner
  import opened Display
  import opened Selection

  datatype Option<T> = None | Some(value: T)

  /** How a run ends. */
  datatype SessionEnd =
    | FolderMissing(folder: string)
    | NoTemplates
    | Listed(lines: seq<Line>, selection: Outcome)

  /**
    `args.template_folder or get_template_folder()`: a non-empty folder given
    on the command line wins; an absent or empty one falls back to the
    configured folder.
   */
  function ResolveFolder(cliFolder: Option<string>, configured: string): (folder: string)
    ensures cliFolder.Some? && cliFolder.value != [] ==> folder == cliFolder.value
    ensures cliFolder.None? || cliFolder.value == [] ==> folder == configured
  {
    match cliFolder
    case Some(f) => if f != [] then f else configured
    case None => configured
  }

  /** A non-empty override does not depend on the configuration at all. */
  lemma OverrideIgnoresConfig(folder: string, configured1: string, configured2: string)
    requires folder != []
    ensures ResolveFolder(Some(folder), configured1) == ResolveFolder(Some(folder), configured2) == folder
  {
  }

  /**
    The process exit status of a run: 1 when the folder is missing, and 1
    when the answers run out before a `0`, since `input()` then raises an
    error that the loop does not catch; 0 after a `0` or when nothing matched.
   */
  function ExitStatus(e: SessionEnd): (status: nat)
    ensures status <= 1
    ensures e.FolderMissing? ==> status == 1
    ensures e.NoTemplates? ==> status == 0
    ensures e.Listed? ==> (status == 0 <==> e.selection.state == Exited)
  {
    if e.FolderMissing? then 1
    else if e.NoTemplates? then 0
    else if e.selection.state == Exited then 0
    else 1
  }

  /** A listed run ends with status 0 exactly when some answer is `0`. */
  lemma ListedStatusZeroIffZeroAnswer(lines: seq<Line>, results: seq<string>, inputs: seq<Input>)
    ensures ExitStatus(Listed(lines, Run(results, inputs))) == 0 <==> Number(0) in inputs
  {
    RunReplies(results, inputs);
  }

  method RunSession(term: string, cliFolder: Option<string>, configured: string,
                    existing: set<string>, walk: seq<WalkDir>, inputs: seq<Input>)
    returns (e: SessionEnd)
    ensures e.FolderMissing? <==> ResolveFolder(cliFolder, configured) !in existing
    ensures e.FolderMissing? ==> e.folder == ResolveFolder(cliFolder, configured)
    ensures e.NoTemplates? <==>
              ResolveFolder(cliFolder, configured) in existing && Search(term, walk) == []
    ensures e.Listed? ==>
              var results := Search(term, walk);
              |e.lines| == |results| &&
              (forall i :: 0 <= i < |results| ==> e.lines[i] == FormatLine(i + 1, results[i])) &&
              e.selection == Run(results, inputs)
  {
    var folder := ResolveFolder(cliFolder, configured);
    if folder !in existing {
      return FolderMissing(folder);
    }
    var results := SearchTemplates(Lower(term), walk);
    SearchLoweredTerm(term, walk);
    if results != [] {
      var lines := DisplayResults(results);
      var state, trace := SelectionLoop(results, inputs);
      e := Listed(lines, Outcome(state, trace));
    } else {
      e := NoTemplates;
    }
  }
}
