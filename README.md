# unarchiver — a verified Dafny model

`unarchiver.py` is a small console tool. It asks for a folder and an output
directory, collects the RAR archives below the folder, and collapses the
volumes of split archives to their first volume. It lists the result sorted
by modification time, numbered from 1, and reads a comma-separated list of
numbers. It then extracts each chosen archive with `unrar` or `unzip`, asking
for a password when `unrar lt` reports that the archive is protected.

The model follows the program's own structure:

| module | file | models |
|---|---|---|
| `PyStr` | `pystr.dfy` | the Python string operations used: `in`, `endswith`, `split`, `join`, `int` with the whitespace it skips, `str`, POSIX `os.path.basename` and `os.path.join` |
| `Scanner` | `scanner.dfy` | `get_archives` |
| `Multipart` | `multipart.dfy` | `filter_multiparts` |
| `Lister` | `lister.dfy` | `display_archives`: the in-place sort and the numbering |
| `Selector` | `selector.dfy` | `get_user_selection` |
| `Extractor` | `extractor.dfy` | `is_archive_password_protected`, `extract_archive` and the extraction loop of `main` |
| `Unarchiver` | `unarchiver.dfy` | `main` |

The model is imperative where the program mutates things step by step:
- the appending loops of `get_archives` and `filter_multiparts`;
- the in-place `list.sort`, an array sorted by a stable insertion sort;
- the `while True` prompt loop;
- the extraction loop.

Each of these methods is proved against a specification function. The
per-attempt parse, the command choice and the password test are functions.

The folder walk, the modification times, the existence tests, the lines the
user types and what the external tools answer are parameters.

What the proofs show about the program as written:

- **Nothing is ever listed.**
  - `get_archives` keeps only names ending in `.rar`.
  - `filter_multiparts` drops every basename that contains `.r` unless it ends in `.r01` or `.r001`, and every `.rar` name contains `.r`.
  - So the list shown is always empty, every selection is rejected or raises `IndexError`, and no archive is ever extracted (`Unarchiver.NothingListed`, `Unarchiver.Unarchive`).
- **The selection prompt has no exit entry.**
  - `0` means index `-1`, the last archive.
  - An index outside the list raises an `IndexError` that nothing catches. It is not re-prompted.
  - Only a token that is not an integer makes the prompt repeat.
- **The password typed is never used.**
  - The command built with `-p<password>` (unarchiver.py:73) is overwritten before it is run (unarchiver.py:75).
  - So a protected `.rar` is extracted with plain `unrar x`.
- **The multipart key is recorded even when the file is not kept.**
  - In `[X.r02, X.r01]` both are dropped.

## Model

| member | source | states |
|---|---|---|
| PyStr.FindFrom | unarchiver.py:28 | the first occurrence of the pattern at or after a position, and no earlier one; `None` exactly when there is none |
| PyStr.ContainsIff | unarchiver.py:28 | `Contains`, the `pat in s` test of the multipart filter and of the password check (unarchiver.py:63), holds exactly when `pat` occurs at some position of `s` |
| PyStr.EndsWithIff | unarchiver.py:15 | `EndsWith`, the `str.endswith` test used for every extension check, holds exactly when `s` is some text followed by the suffix |
| PyStr.Before | unarchiver.py:29 | `name.split('.r')[0]` is a prefix free of `.r`, at none of whose positions `.r` starts in the name, and is followed by `.r` unless it is the whole name: it ends at the first occurrence |
| PyStr.Split | unarchiver.py:49 | `s.split(c)` always has at least one piece; its pieces are pinned down by `JoinSplit` and `SplitPiecesFree` |
| PyStr.JoinSplit | unarchiver.py:49 | joining the pieces of `s.split(c)` with `c` gives back `s` |
| PyStr.SplitPiecesFree | unarchiver.py:49 | no piece of a split contains the separator |
| PyStr.SplitJoin | unarchiver.py:49 | splitting a join of separator-free pieces gives back exactly those pieces |
| PyStr.StripPadded | unarchiver.py:52 | the whitespace `int` skips is removed exactly around a word: ASCII space, `\t`, `\n`, `\v`, `\f`, `\r` and non-ASCII `isspace` characters, not U+001C to U+001F |
| PyStr.ParseIntToStr | unarchiver.py:52 | `int` reads back any integer `str` prints, whatever whitespace `int` skips surrounds it |
| PyStr.ParseInt | unarchiver.py:52 | `int(s)` succeeds exactly when the text, without the whitespace `int` skips, is an optional sign followed by at least one digit; a negative value comes only after a `-` |
| PyStr.ParseIntWhitespace | unarchiver.py:52 | `int` skips a space and a newline around `5`, but rejects `5` after U+001C, which `isspace` accepts |
| PyStr.ParseIntRejects | unarchiver.py:52 | `int` raises ValueError on a word starting with anything but a sign or a digit |
| PyStr.Basename | unarchiver.py:27 | `os.path.basename` never contains `/` |
| PyStr.BasenameIsLastSegment | unarchiver.py:27 | the basename is a suffix of the path that is the whole path or follows a `/` |
| PyStr.Join | unarchiver.py:16 | `os.path.join(root, file)` ends with `file` |
| PyStr.BasenameJoin | unarchiver.py:16 | joining a directory never changes the basename of the name joined |
| PyStr.BasenameKeepsSuffix | unarchiver.py:15-16 | a path ending in a slash-free suffix has a basename ending in it |
| Scanner.AppendRarPaths | unarchiver.py:14-17 | the inner loop appends to the list exactly the `.rar` files of one directory, joined to it, in order |
| Scanner.GetArchives | unarchiver.py:11-18 | the result is the `.rar` files of every directory, in walk order, each joined to its directory |
| Scanner.RarPathsInMembership | unarchiver.py:14-17 | a path is collected from a directory exactly when it joins one of its `.rar` names |
| Scanner.RarPathsMembership | unarchiver.py:13-17 | a path is collected exactly when it is a directory of the walk joined with one of its `.rar` names |
| Scanner.JoinedRarName | unarchiver.py:15-16 | a `.rar` name joined to a directory gives a path, and a basename, ending in `.rar` |
| Scanner.CollectedNamesEndInRar | unarchiver.py:11-18 | every collected path and its basename end in `.rar` |
| Multipart.GroupKeyMeaning | unarchiver.py:29 | `GroupKey`, the `base` of a volume name, is the text before its first `.r`; a name without `.r` is its own key |
| Multipart.FilterStep | unarchiver.py:26-36 | one iteration adds the key of a volume name to `seen`, and appends the path when it has no `.r`, or ends in `.r01`/`.r001` with an unseen key |
| Multipart.FilterMultiparts | unarchiver.py:23-37 | the loop returns exactly the paths the filter keeps, in input order |
| Multipart.KeptPositions | unarchiver.py:24-37 | the output is the subsequence of the input at increasing positions, position `i` being kept exactly when `KeptAt` holds: its basename has no `.r`, or it ends in `.r01`/`.r001` and no earlier volume name has its key |
| Multipart.PlainNameKept | unarchiver.py:35-36 | a path whose basename has no `.r` is always kept |
| Multipart.KeptVolumesAreFirst | unarchiver.py:33-34 | every kept volume name ends in `.r01` or `.r001` |
| Multipart.RarNameIsVolume | unarchiver.py:28-33 | a name ending in `.rar` contains `.r` and is not a first volume |
| Multipart.RarNeverKept | unarchiver.py:28-34 | no path whose basename ends in `.rar` survives the filter |
| Multipart.AllRarFilteredOut | unarchiver.py:28-34 | a list of `.rar` paths filters to the empty list |
| Multipart.LaterVolumeDropped | unarchiver.py:29-31 | once a volume name with some key was met, no later path with that key is kept |
| Multipart.OneVolumePerKey | unarchiver.py:29-34 | the output holds at most one volume name per key |
| Multipart.KeyOfVolume | unarchiver.py:29 | the key of `X.rNN` is `X` |
| Multipart.FirstVolumeAfterLaterVolume | unarchiver.py:29-34 | `[X.r02, X.r01]` keeps nothing: the key is recorded though `X.r02` is dropped |
| Lister.InsertNext | unarchiver.py:40 | one insertion round extends the stably sorted prefix by one element and keeps the contents |
| Lister.SortByMtime | unarchiver.py:40 | the array ends sorted by mtime, a permutation of its old contents, with ties kept in their old order |
| Lister.Number | unarchiver.py:42-44 | line `k` carries number `k + 1`, the `k`-th archive and its mtime |
| Lister.DisplayArchives | unarchiver.py:39-44 | the caller's array is sorted stably in place and number `k + 1` is shown for what is now `a[k]` |
| Selector.Wrap | unarchiver.py:53 | an in-range Python index reads position `i`, or `i + len` when negative |
| Selector.Indexes | unarchiver.py:52 | `[int(x) - 1 for x in tokens]`, with ValueError exactly when some token is not an integer |
| Selector.Pick | unarchiver.py:53 | `[archives[i] for i in indexes]`, with IndexError exactly when some index is outside `[-len, len)` |
| Selector.SelectionAttemptMeaning | unarchiver.py:49-56 | `SelectionAttempt`, one pass of the prompt loop: an attempt is rejected iff some token is not an integer, crashes iff all are integers and one is out of range, and otherwise selects one archive per token in order |
| Selector.EmptyListNothingSelected | unarchiver.py:52-53 | nothing can be selected from an empty list |
| Selector.SingleNumber | unarchiver.py:49-54 | a single number `n` selects `archives[n - 1]` with negative wrap-around, or crashes outside the range |
| Selector.ZeroPicksLast | unarchiver.py:52-53 | `0` selects the last archive |
| Selector.ReadBack | unarchiver.py:52 | `int` reads back what `str` prints |
| Selector.NumbersLineTokens | unarchiver.py:49-52 | a comma-separated line of numbers splits back into the numbers' texts, which `int` reads back |
| Selector.SelectByNumbers | unarchiver.py:49-54 | typing the displayed numbers selects the archives shown with them, order and repeats kept |
| Selector.SelectTwoTwoOne | unarchiver.py:49-54 | against three archives, `2,2,1` selects the second, the second and the first |
| Selector.NonNumberRejected | unarchiver.py:52-56 | a line with a non-integer token is rejected even when another token is out of range |
| Selector.GetUserSelection | unarchiver.py:46-56 | the loop returns the first attempt that is not rejected, after rejecting every earlier line, or runs out of input with every line rejected |
| Extractor.IsPasswordProtected | unarchiver.py:58-64 | a non-`.rar` is never protected; a `.rar` is protected exactly when the listing contains `Password protected`, and the check raises when the listing fails |
| Extractor.ExtractionCommand | unarchiver.py:74-80 | `.rar` gives `unrar x archive output`, `.zip` gives `unzip archive -d output`, anything else no command |
| Extractor.ExtensionsExclusive | unarchiver.py:74-77 | no name ends in both `.rar` and `.zip` |
| Extractor.ExtractArchive | unarchiver.py:66-86 | the password is asked exactly for a protected `.rar`; the outcome is unsupported, extracted, a caught tool failure or an escaping exception, each in exactly its cases |
| Extractor.PasswordIgnored | unarchiver.py:71-75 | the outcome, command included, is the same whatever password is typed |
| Extractor.ProtectedRarIgnoresPassword | unarchiver.py:71-75 | a protected `.rar` asks for a password and then runs plain `unrar x` |
| Extractor.UnsupportedTouchesNothing | unarchiver.py:78-80 | an archive that is neither `.rar` nor `.zip` asks nothing and runs nothing |
| Extractor.EntriesFor | unarchiver.py:84-86 | an extraction logs one info record, a failure or an exception one error record, an unsupported format none |
| Extractor.ExtractAll | unarchiver.py:104-108 | every selected archive is handled with its own replies, whatever happened to the earlier ones, and the log is their records in order |
| Extractor.LogOfShape | unarchiver.py:104-108 | `LogOf`, the log the loop writes, holds at most one record per archive handled, each naming one of them |
| Extractor.LogMembership | unarchiver.py:104-108 | in `LogOf`, an info record names an archive exactly when a copy of it was extracted, an error record exactly when one failed or raised |
| Unarchiver.NothingListed | unarchiver.py:97-98 | the filtered scan of any folder is empty |
| Unarchiver.Unarchive | unarchiver.py:89-108 | a missing path ends the run at once; otherwise nothing is listed, the prompt stops at the first line that is not rejected, which raises IndexError, after rejecting every earlier line, and runs out of input only when every line is rejected; nothing is extracted or logged |

## Left out

- `os.walk`, `os.path.getmtime` and `os.path.exists` are parameters:
  - the walk is a sequence of (directory, file names) pairs in visiting order;
  - modification times are a total function to `real`;
  - existence is two booleans.
- Errors raised inside the walk, and mtimes of files that disappear, are not modelled.
- `input` and `print` are left out. The folder and output paths are parameters. The selection prompt is a sequence of lines, where running out of lines stands for `EOFError`. The text printed is left out.
- `subprocess.run` is left out. The text `unrar lt` prints is a parameter; `None` stands for a tool that cannot be started or output that is not UTF-8, both of which raise. The exit status of the extraction tool is a parameter, and so is a tool that cannot be started.
- The exit status of `unrar lt` is ignored, as the program ignores it.
- The `unrar x -p<password>` command that `extract_archive` builds for a protected `.rar` (unarchiver.py:73) is not modelled as a value: it is overwritten before use (unarchiver.py:75) and never run. Extractor.PasswordIgnored and Extractor.ProtectedRarIgnoresPassword state the consequence.
- `datetime.fromtimestamp` and `strftime` are left out: a listed line carries the raw modification time instead of the formatted date.
- Log messages are reduced to their level and the archive they name. Their text and the logging configuration are left out.
- Lister.SortByMtime: `list.sort` is modelled by a stable insertion sort. What is proved is what `list.sort` promises: sorted, a permutation, stable. The comparison count of Timsort is not.
- PyStr.ParseInt: accepts optional whitespace, an optional sign and ASCII decimal digits. Underscore separators and non-ASCII digits, which Python's `int` also accepts, are left out. So is the limit on the number of digits (`sys.int_max_str_digits`, 4300 by default since Python 3.11), beyond which `int` raises ValueError: the model reads integers of any length.
- PyStr.Basename and PyStr.Join follow POSIX `os.path`. Windows separators and drive letters are left out.
- Exceptions raised outside `extract_archive` end the run, and the model stops there. This covers `EOFError` at the first two prompts.
- `KeyboardInterrupt` is left out. It is not an `Exception`, so an interrupt anywhere ends the run, even one inside `extract_archive` at the password prompt or while a tool runs. The model's `Raised` outcome covers only exceptions that the extraction loop catches and logs.
