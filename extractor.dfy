/**
 * `is_archive_password_protected` and `extract_archive`, plus the loop at the
 * end of `main` that extracts every selected archive. The external tools
 * (`unrar lt`, `unrar x`, `unzip`) and the password prompt are not run: what
 * they answer is given, per archive, as a `Replies` value.
 */
module Extractor {
  import opened PyStr

  /** How `subprocess.run` of an extraction tool ended. */
  datatype RunResult =
    | Exited(status: int)  // the tool ran and returned this exit status
    | LaunchFailed         // the tool could not be started (an OSError escapes)

  /**
   * What the environment answers while one archive is handled: the text
   * `unrar lt` prints (`None` when it cannot be started or its output is not
   * valid UTF-8, so an exception escapes), the line typed at the password
   * prompt (`None` at end of input), and how the extraction tool ends.
   */
  datatype Replies = Replies(listing: Option<string>, password: Option<string>, run: RunResult)

  /** What `extract_archive` did with one archive. */
  datatype Outcome =
    | Unsupported                                 // neither .rar nor .zip: reported, no tool run
    | Extracted(command: seq<string>)             // the tool exited with status 0
    | ToolFailed(command: seq<string>, status: int) // CalledProcessError, caught and logged
    | Raised                                      // an exception escapes `extract_archive`

  /** The outcome, and whether the user was asked for a password on the way. */
  datatype Step = Step(askedPassword: bool, outcome: Outcome)

  /** One record written by `logging`, reduced to its level and the archive it names. */
  datatype LogEntry = Info(archive: string) | Error(archive: string)

  const PasswordMarker := "Password protected"

  /**
   * `is_archive_password_protected(archive)` given what `unrar lt` prints:
   * `None` stands for the exception raised when the listing cannot be had.
   */
  function IsPasswordProtected(archive: string, listing: Option<string>): (r: Option<bool>)
    ensures !EndsWith(archive, ".rar") ==> r == Some(false)
    ensures r.None? <==> EndsWith(archive, ".rar") && listing.None?
    ensures r == Some(true) <==>
      EndsWith(archive, ".rar") && listing.Some? && exists i :: OccursAt(listing.value, PasswordMarker, i)
  {
    ContainsIff(if listing.Some? then listing.value else "", PasswordMarker);
    if EndsWith(archive, ".rar") then
      match listing
      case None => None
      case Some(output) => Some(Contains(output, PasswordMarker))
    else Some(false)
  }

  /**
   * The command `extract_archive` runs, chosen by the name's extension
   * alone, `None` for an unsupported format.
   */
  function ExtractionCommand(archive: string, output: string): (r: Option<seq<string>>)
    ensures r.Some? <==> EndsWith(archive, ".rar") || EndsWith(archive, ".zip")
    ensures EndsWith(archive, ".rar") ==> r == Some(["unrar", "x", archive, output])
    ensures EndsWith(archive, ".zip") ==> r == Some(["unzip", archive, "-d", output])
  {
    ExtensionsExclusive(archive);
    if EndsWith(archive, ".rar") then Some(["unrar", "x", archive, output])
    else if EndsWith(archive, ".zip") then Some(["unzip", archive, "-d", output])
    else None
  }

  /** No name ends in both `.rar` and `.zip`, so the order of the two tests does not matter. */
  lemma ExtensionsExclusive(archive: string)
    ensures !(EndsWith(archive, ".rar") && EndsWith(archive, ".zip"))
  {
    if EndsWith(archive, ".rar") {
      assert archive[|archive| - 1] == ".rar"[3] != ".zip"[3];
    }
  }

  /**
   * `extract_archive(archive, output)`. The user is asked for a password
   * exactly when the archive is a `.rar` whose listing says it is protected;
   * the password typed is then discarded. A `.rar` or `.zip` archive is
   * handed to its tool: exit status 0 means extracted, any other status is
   * the CalledProcessError the function catches itself. Anything else is
   * unsupported. A failed listing, an exhausted password prompt and a tool
   * that cannot be started raise out of the function.
   */
  function ExtractArchive(archive: string, output: string, replies: Replies): (s: Step)
    ensures s.askedPassword <==> IsPasswordProtected(archive, replies.listing) == Some(true)
    ensures s.outcome.Unsupported? <==> !EndsWith(archive, ".rar") && !EndsWith(archive, ".zip")
    ensures s.outcome.Raised? <==>
      (EndsWith(archive, ".rar") && replies.listing.None?) ||
      (s.askedPassword && replies.password.None?) ||
      ((EndsWith(archive, ".rar") || EndsWith(archive, ".zip")) && replies.run.LaunchFailed?)
    ensures s.outcome.Extracted? <==>
      ExtractionCommand(archive, output).Some? && !s.outcome.Raised? && replies.run == Exited(0)
    ensures s.outcome.ToolFailed? <==>
      ExtractionCommand(archive, output).Some? && !s.outcome.Raised? &&
      replies.run.Exited? && replies.run.status != 0
    ensures s.outcome.Extracted? || s.outcome.ToolFailed? ==>
      Some(s.outcome.command) == ExtractionCommand(archive, output)
    ensures s.outcome.ToolFailed? ==> Exited(s.outcome.status) == replies.run
  {
    var isRar := EndsWith(archive, ".rar");
    var protected := if isRar then IsPasswordProtected(archive, replies.listing) else Some(false);
    if protected.None? then Step(false, Raised)
    else
      var asked := protected.value;
      if asked && replies.password.None? then Step(true, Raised)
      else
        match ExtractionCommand(archive, output)
        case None => Step(asked, Unsupported)
        case Some(command) =>
          match replies.run
          case LaunchFailed => Step(asked, Raised)
          case Exited(status) =>
            if status == 0 then Step(asked, Extracted(command)) else Step(asked, ToolFailed(command, status))
  }

  /**
   * The password never reaches the command: the same archive gives the same
   * outcome, command included, whatever password is typed.
   */
  lemma PasswordIgnored(archive: string, output: string, listing: Option<string>, p1: string, p2: string, run: RunResult)
    ensures ExtractArchive(archive, output, Replies(listing, Some(p1), run)).outcome ==
            ExtractArchive(archive, output, Replies(listing, Some(p2), run)).outcome
  {
  }

  /** A `.rar` whose listing mentions protection, answered with a password, runs plain `unrar x`. */
  lemma ProtectedRarIgnoresPassword(archive: string, output: string, listing: string, password: string)
    requires EndsWith(archive, ".rar") && Contains(listing, PasswordMarker)
    ensures ExtractArchive(archive, output, Replies(Some(listing), Some(password), Exited(0))) ==
      Step(true, Extracted(["unrar", "x", archive, output]))
  {
    ContainsIff(listing, PasswordMarker);
  }

  /** A name that is neither `.rar` nor `.zip` runs no tool and asks nothing, whatever the environment says. */
  lemma UnsupportedTouchesNothing(archive: string, output: string, replies: Replies)
    requires !EndsWith(archive, ".rar") && !EndsWith(archive, ".zip")
    ensures ExtractArchive(archive, output, replies) == Step(false, Unsupported)
  {
  }

  /**
   * The log records `main`'s loop writes for one archive: an info record
   * after a successful extraction, an error record for a tool that failed
   * (logged inside `extract_archive`) or for an exception that escaped it
   * (logged by the loop), and nothing for an unsupported format, which is
   * only printed.
   */
  function EntriesFor(archive: string, outcome: Outcome): (r: seq<LogEntry>)
    ensures |r| <= 1
    ensures r == [] <==> outcome.Unsupported?
    ensures r == [Info(archive)] <==> outcome.Extracted?
    ensures r == [Error(archive)] <==> outcome.ToolFailed? || outcome.Raised?
  {
    match outcome
    case Unsupported => []
    case Extracted(_) => [Info(archive)]
    case ToolFailed(_, _) => [Error(archive)]
    case Raised => [Error(archive)]
  }

  /** The log written while `archives` are handled in turn, `steps[k]` being what happened to `archives[k]`. */
  ghost function LogOf(archives: seq<string>, steps: seq<Step>): seq<LogEntry>
    requires |archives| == |steps|
  {
    if steps == [] then []
    else
      var n := |steps| - 1;
      LogOf(archives[..n], steps[..n]) + EntriesFor(archives[n], steps[n].outcome)
  }

  /**
   * The loop at the end of `main` that hands each selected archive, in
   * order, to `extract_archive` and logs any exception escaping it instead
   * of stopping. `replies(k)` is what the environment answers for the
   * `k`-th archive. Every archive is handled with its own answers, whatever
   * happened to the ones before it.
   */
  method ExtractAll(selected: seq<string>, output: string, replies: nat -> Replies)
    returns (steps: seq<Step>, log: seq<LogEntry>)
    ensures |steps| == |selected|
    ensures forall k :: 0 <= k < |selected| ==> steps[k] == ExtractArchive(selected[k], output, replies(k))
    ensures log == LogOf(selected, steps)
  {
    steps, log := [], [];
    for k := 0 to |selected|
      invariant |steps| == k
      invariant forall m :: 0 <= m < k ==> steps[m] == ExtractArchive(selected[m], output, replies(m))
      invariant log == LogOf(selected[..k], steps)
    {
      var step := ExtractArchive(selected[k], output, replies(k));
      assert selected[..k + 1][..k] == selected[..k];
      assert (steps + [step])[..k] == steps;
      steps := steps + [step];
      log := log + EntriesFor(selected[k], step.outcome);
    }
    assert selected[..|selected|] == selected;
  }

  /** At most one record per archive handled, and every record names one of them. */
  lemma {:induction false} LogOfShape(archives: seq<string>, steps: seq<Step>)
    requires |archives| == |steps|
    ensures |LogOf(archives, steps)| <= |steps|
    ensures forall e :: e in LogOf(archives, steps) ==> e.archive in archives
  {
    if steps != [] {
      var n := |steps| - 1;
      LogOfShape(archives[..n], steps[..n]);
      assert forall x :: x in archives[..n] ==> x in archives;
    }
  }

  /**
   * An info record names an archive exactly when some selected copy of it
   * was extracted; an error record exactly when some copy failed in its tool
   * or raised.
   */
  lemma {:induction false} LogMembership(archives: seq<string>, steps: seq<Step>, a: string)
    requires |archives| == |steps|
    ensures Info(a) in LogOf(archives, steps) <==>
      exists k :: 0 <= k < |steps| && archives[k] == a && steps[k].outcome.Extracted?
    ensures Error(a) in LogOf(archives, steps) <==>
      exists k :: 0 <= k < |steps| && archives[k] == a && (steps[k].outcome.ToolFailed? || steps[k].outcome.Raised?)
  {
    if steps != [] {
      var n := |steps| - 1;
      var xs, ss := archives[..n], steps[..n];
      LogMembership(xs, ss, a);
      assert LogOf(archives, steps) == LogOf(xs, ss) + EntriesFor(archives[n], steps[n].outcome);
      assert forall k :: 0 <= k < n ==> xs[k] == archives[k] && ss[k] == steps[k];
    }
  }
}
