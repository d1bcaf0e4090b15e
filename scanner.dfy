/**
 * `get_archives`: walks a folder and collects the paths of the files whose
 * name ends in `.rar`, each joined to the directory it was found in. The
 * walk itself (`os.walk`) is given as the sequence of directories it visits,
 * in the order it visits them, with the file names of each.
 */
module Scanner {
  import opened PyStr

  /** One directory visited by the walk: its path and the names of its files. */
  datatype WalkEntry = WalkEntry(root: string, files: seq<string>)

  /** The archive paths collected from `files[..n]` in directory `root`. */
  ghost function RarPathsIn(root: string, files: seq<string>, n: nat): seq<string>
    requires n <= |files|
  {
    if n == 0 then []
    else RarPathsIn(root, files, n - 1) + if EndsWith(files[n - 1], ".rar") then [Join(root, files[n - 1])] else []
  }

  /** The archive paths collected from the first `n` directories of the walk. */
  ghost function RarPaths(walk: seq<WalkEntry>, n: nat): seq<string>
    requires n <= |walk|
  {
    if n == 0 then []
    else RarPaths(walk, n - 1) + RarPathsIn(walk[n - 1].root, walk[n - 1].files, |walk[n - 1].files|)
  }

  /** The inner loop of `get_archives`: appends the `.rar` files of one directory to `archives`. */
  method AppendRarPaths(archives: seq<string>, root: string, files: seq<string>) returns (result: seq<string>)
    ensures result == archives + RarPathsIn(root, files, |files|)
  {
    result := archives;
    for j := 0 to |files|
      invariant result == archives + RarPathsIn(root, files, j)
    {
      if EndsWith(files[j], ".rar") {
        result := result + [Join(root, files[j])];
      }
    }
  }

  /** `get_archives(folder)`, where `walk` is what `os.walk(folder)` yields. */
  method GetArchives(walk: seq<WalkEntry>) returns (archives: seq<string>)
    ensures archives == RarPaths(walk, |walk|)
  {
    archives := [];
    for i := 0 to |walk|
      invariant archives == RarPaths(walk, i)
    {
      archives := AppendRarPaths(archives, walk[i].root, walk[i].files);
    }
  }

  /** `p` is what the scan makes of `files[j]` in directory `root`: a `.rar` name joined to `root`. */
  predicate CollectedName(root: string, files: seq<string>, j: int, p: string)
  {
    0 <= j < |files| && EndsWith(files[j], ".rar") && p == Join(root, files[j])
  }

  /** Every path collected from a directory joins one of its `.rar` names. */
  lemma {:induction false} NameOfCollectedPath(root: string, files: seq<string>, n: nat, p: string)
    requires n <= |files| && p in RarPathsIn(root, files, n)
    ensures exists j :: j < n && CollectedName(root, files, j, p)
  {
    if p in RarPathsIn(root, files, n - 1) {
      NameOfCollectedPath(root, files, n - 1, p);
    } else {
      assert CollectedName(root, files, n - 1, p);
    }
  }

  /** Every `.rar` name of a directory is collected, joined to the directory. */
  lemma {:induction false} RarNameCollected(root: string, files: seq<string>, n: nat, j: nat, p: string)
    requires n <= |files| && j < n && CollectedName(root, files, j, p)
    ensures p in RarPathsIn(root, files, n)
  {
    if j < n - 1 {
      RarNameCollected(root, files, n - 1, j, p);
    }
  }

  /** A path is collected from a directory exactly when it joins one of its `.rar` names. */
  lemma RarPathsInMembership(root: string, files: seq<string>, p: string)
    ensures p in RarPathsIn(root, files, |files|) <==> exists j :: CollectedName(root, files, j, p)
  {
    if p in RarPathsIn(root, files, |files|) {
      NameOfCollectedPath(root, files, |files|, p);
    }
    if exists j :: CollectedName(root, files, j, p) {
      var j :| CollectedName(root, files, j, p);
      RarNameCollected(root, files, |files|, j, p);
    }
  }

  /** `p` is what the scan makes of file `j` of directory `i` of the walk. */
  predicate CollectedFrom(walk: seq<WalkEntry>, i: int, j: int, p: string)
  {
    0 <= i < |walk| && CollectedName(walk[i].root, walk[i].files, j, p)
  }

  /** Every path the scan collects comes from some `.rar` name of some directory. */
  lemma {:induction false} CollectedPathsHaveSource(walk: seq<WalkEntry>, n: nat, p: string)
    requires n <= |walk| && p in RarPaths(walk, n)
    ensures exists i, j :: i < n && CollectedFrom(walk, i, j, p)
  {
    var e := walk[n - 1];
    if p in RarPaths(walk, n - 1) {
      CollectedPathsHaveSource(walk, n - 1, p);
    } else {
      NameOfCollectedPath(e.root, e.files, |e.files|, p);
      var j :| j < |e.files| && CollectedName(e.root, e.files, j, p);
      assert CollectedFrom(walk, n - 1, j, p);
    }
  }

  /** Every `.rar` name of every directory the walk visits is collected, joined to its directory. */
  lemma {:induction false} SourcesAreCollected(walk: seq<WalkEntry>, n: nat, i: nat, j: nat, p: string)
    requires n <= |walk| && i < n && CollectedFrom(walk, i, j, p)
    ensures p in RarPaths(walk, n)
  {
    if i < n - 1 {
      SourcesAreCollected(walk, n - 1, i, j, p);
    } else {
      RarNameCollected(walk[i].root, walk[i].files, |walk[i].files|, j, p);
    }
  }

  /**
   * A path is collected exactly when it is some directory of the walk joined
   * with one of that directory's file names ending in `.rar`.
   */
  lemma RarPathsMembership(walk: seq<WalkEntry>, p: string)
    ensures p in RarPaths(walk, |walk|) <==> exists i, j :: CollectedFrom(walk, i, j, p)
  {
    if p in RarPaths(walk, |walk|) {
      CollectedPathsHaveSource(walk, |walk|, p);
    }
    if exists i, j :: CollectedFrom(walk, i, j, p) {
      var i, j :| CollectedFrom(walk, i, j, p);
      SourcesAreCollected(walk, |walk|, i, j, p);
    }
  }

  /** `s` ends with `u` when it ends with some `t` that ends with `u`. */
  lemma EndsWithTrans(s: string, t: string, u: string)
    requires EndsWith(s, t) && EndsWith(t, u)
    ensures EndsWith(s, u)
  {
    assert s[|s| - |u|..] == t[|t| - |u|..];
  }

  /** Joining a `.rar` name to a directory gives a path whose basename ends in `.rar`. */
  lemma JoinedRarName(root: string, name: string)
    requires EndsWith(name, ".rar")
    ensures EndsWith(Join(root, name), ".rar") && EndsWith(Basename(Join(root, name)), ".rar")
  {
    var p := Join(root, name);
    EndsWithTrans(p, name, ".rar");
    assert '/' !in ".rar";
    BasenameKeepsSuffix(p, ".rar");
  }

  /** Every collected path, and its basename, ends in `.rar`. */
  lemma CollectedNamesEndInRar(walk: seq<WalkEntry>)
    ensures forall p :: p in RarPaths(walk, |walk|) ==> EndsWith(p, ".rar") && EndsWith(Basename(p), ".rar")
  {
    forall p | p in RarPaths(walk, |walk|)
      ensures EndsWith(p, ".rar") && EndsWith(Basename(p), ".rar")
    {
      RarPathsMembership(walk, p);
      var i, j :| CollectedFrom(walk, i, j, p);
      JoinedRarName(walk[i].root, walk[i].files[j]);
    }
  }
}
