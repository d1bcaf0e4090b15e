/**
 * `main`: asks for a folder and an output directory, checks that both exist,
 * lists the folder's archives, lets the user pick some and extracts each.
 * The two paths, their existence, the walk of the folder, the modification
 * times, the lines typed at the selection prompt and the answers of the
 * tools are all parameters.
 */
module Unarchiver {
  import opened Scanner
  import opened Multipart
  import opened Lister
  import opened Selector
  import opened Extractor

  /** How a run of `main` ends. */
  datatype Run =
    | InvalidPath  // one of the two paths does not exist: reported, nothing else happens
    | Ran(listed: seq<Line>, session: Session, steps: seq<Step>, log: seq<LogEntry>)

  /**
   * No archive is ever listed: the scan keeps only names ending in `.rar`,
   * and the multipart filter drops every such name, because `.rar` contains
   * `.r` and does not end in `.r01` or `.r001`.
   */
  lemma NothingListed(walk: seq<WalkEntry>)
    ensures var paths := RarPaths(walk, |walk|); Kept(paths, |paths|) == []
  {
    var paths := RarPaths(walk, |walk|);
    CollectedNamesEndInRar(walk);
    assert forall i :: 0 <= i < |paths| ==> paths[i] in paths;
    AllRarFilteredOut(paths);
  }

  /**
   * `main()`. With both paths present it scans, filters, sorts and numbers
   * the archives, reads selections until one is not rejected, and extracts
   * each selected archive with its own replies. Since the listing is always
   * empty, no selection can succeed: the session ends with the IndexError
   * that escapes `get_user_selection` or with the input running out, and no
   * archive is ever extracted. The session stops at the first line that is
   * not rejected, which then crashes, and runs out of input only when every
   * line was rejected.
   */
  method Unarchive(folderExists: bool, outputExists: bool, walk: seq<WalkEntry>, mtime: string -> real,
                   output: string, selectionLines: seq<string>, replies: nat -> Replies)
    returns (r: Run)
    ensures !folderExists || !outputExists ==> r == InvalidPath
    ensures folderExists && outputExists ==>
      r.Ran? && r.listed == [] && r.steps == [] && r.log == [] &&
      (r.session.Answered? ==> r.session.result == Crash)
    ensures folderExists && outputExists && r.Ran? && r.session.Answered? ==>
      1 <= r.session.attempts <= |selectionLines| &&
      SelectionAttempt(selectionLines[r.session.attempts - 1], []) == Crash &&
      AllRejected(selectionLines[..r.session.attempts - 1], [])
    ensures folderExists && outputExists && r.Ran? && r.session.InputExhausted? ==>
      AllRejected(selectionLines, [])
  {
    if !folderExists || !outputExists {
      return InvalidPath;
    }
    var archives := GetArchives(walk);
    archives := FilterMultiparts(archives);
    NothingListed(walk);
    var a := new string[|archives|](k requires 0 <= k < |archives| => archives[k]);
    var listed := DisplayArchives(a, mtime);
    assert a[..] == [];
    var session := GetUserSelection(a[..], selectionLines);
    var steps: seq<Step>, log: seq<LogEntry> := [], [];
    if session.Answered? && session.result.Selected? {
      steps, log := ExtractAll(session.result.archives, output, replies);
    }
    if session.Answered? {
      EmptyListNothingSelected(selectionLines[session.attempts - 1]);
    }
    assert LogOf([], []) == [];
    return Ran(listed, session, steps, log);
  }
}
