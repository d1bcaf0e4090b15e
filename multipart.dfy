/**
 * `filter_multiparts`: collapses the volumes of split RAR archives.
 *
 * A basename containing `.r` is a volume name; its group key is the text
 * before the first `.r`. The first time a key is met it is recorded as seen,
 * and the path is kept only if its name ends in `.r01` or `.r001`; later
 * names with the same key are dropped. Names without `.r` always pass.
 */
module Multipart {
  import opened PyStr

  predicate IsVolumeName(name: string)
  {
    Contains(name, ".r")
  }

  predicate IsFirstVolume(name: string)
  {
    EndsWith(name, ".r01") || EndsWith(name, ".r001")
  }

  /** `name.split('.r')[0]`. */
  function GroupKey(name: string): string
  {
    Before(name, ".r")
  }

  /**
   * The key of a volume name is the text before its first `.r`: a prefix of
   * the name at none of whose positions `.r` starts, followed by `.r`. A
   * name without `.r` is its own key.
   */
  lemma GroupKeyMeaning(name: string)
    ensures var key := GroupKey(name);
      key <= name &&
      (forall j :: 0 <= j < |key| ==> !OccursAt(name, ".r", j)) &&
      (IsVolumeName(name) ==> OccursAt(name, ".r", |key|)) &&
      (!IsVolumeName(name) ==> key == name)
  {
  }

  /** The group keys of the volume names among `paths[..n]`: the `seen` set after `n` steps. */
  ghost function SeenKeys(paths: seq<string>, n: nat): set<string>
    requires n <= |paths|
  {
    if n == 0 then {}
    else
      var name := Basename(paths[n - 1]);
      SeenKeys(paths, n - 1) + if IsVolumeName(name) then {GroupKey(name)} else {}
  }

  /** The key of every volume name before position `n` is in `SeenKeys(paths, n)`. */
  lemma {:induction false} SeenKeysHas(paths: seq<string>, i: nat, n: nat)
    requires i < n <= |paths| && IsVolumeName(Basename(paths[i]))
    ensures GroupKey(Basename(paths[i])) in SeenKeys(paths, n)
  {
    if i < n - 1 {
      SeenKeysHas(paths, i, n - 1);
    }
  }

  /**
   * Whether the filter keeps `paths[i]`: its basename is not a volume name,
   * or it is a first volume whose key no earlier volume name carried.
   */
  ghost predicate KeptAt(paths: seq<string>, i: nat)
    requires i < |paths|
  {
    var name := Basename(paths[i]);
    !IsVolumeName(name) || (IsFirstVolume(name) && GroupKey(name) !in SeenKeys(paths, i))
  }

  /** The verdict of `KeptAt` for every position of `paths`. */
  ghost function KeepFlags(paths: seq<string>): seq<bool>
  {
    seq(|paths|, i requires 0 <= i < |paths| => KeptAt(paths, i))
  }

  /** The elements of `xs[..n]` whose flag is set, in order. */
  ghost function Select<T>(xs: seq<T>, flags: seq<bool>, n: nat): seq<T>
    requires |flags| == |xs| && n <= |xs|
  {
    if n == 0 then []
    else Select(xs, flags, n - 1) + if flags[n - 1] then [xs[n - 1]] else []
  }

  /** The paths among `paths[..n]` that the filter keeps, in input order. */
  ghost function Kept(paths: seq<string>, n: nat): seq<string>
    requires n <= |paths|
  {
    Select(paths, KeepFlags(paths), n)
  }

  /** One step of the filter at position `i`, given the keys seen so far. */
  lemma FilterStep(paths: seq<string>, i: nat, seen: set<string>)
    requires i < |paths| && seen == SeenKeys(paths, i)
    ensures var name := Basename(paths[i]);
      SeenKeys(paths, i + 1) == (if IsVolumeName(name) then seen + {GroupKey(name)} else seen) &&
      Kept(paths, i + 1) == Kept(paths, i) +
        if !IsVolumeName(name) || (IsFirstVolume(name) && GroupKey(name) !in seen) then [paths[i]] else []
  {
    assert KeepFlags(paths)[i] == KeptAt(paths, i);
  }

  /** `filter_multiparts(archives)`. */
  method FilterMultiparts(archives: seq<string>) returns (filtered: seq<string>)
    ensures filtered == Kept(archives, |archives|)
  {
    filtered := [];
    var seen: set<string> := {};
    for i := 0 to |archives|
      invariant filtered == Kept(archives, i)
      invariant seen == SeenKeys(archives, i)
    {
      FilterStep(archives, i, seen);
      var name := Basename(archives[i]);
      if IsVolumeName(name) {
        var base := GroupKey(name);
        if base !in seen {
          seen := seen + {base};
          if IsFirstVolume(name) {
            filtered := filtered + [archives[i]];
          }
        } else {
          assert seen + {base} == seen;
        }
      } else {
        filtered := filtered + [archives[i]];
      }
    }
  }

  /**
   * `Select` gives a subsequence: `idx` lists, in increasing order, the
   * positions of the elements chosen, and a position is listed exactly when
   * its flag is set.
   */
  lemma {:induction false} SelectPositions<T>(xs: seq<T>, flags: seq<bool>, n: nat) returns (idx: seq<nat>)
    requires |flags| == |xs| && n <= |xs|
    ensures |idx| == |Select(xs, flags, n)|
    ensures forall k :: 0 <= k < |idx| ==> idx[k] < n && Select(xs, flags, n)[k] == xs[idx[k]]
    ensures forall k, m :: 0 <= k < m < |idx| ==> idx[k] < idx[m]
    ensures forall i :: 0 <= i < n ==> (flags[i] <==> i in idx)
  {
    if n == 0 {
      idx := [];
    } else {
      var prev := SelectPositions(xs, flags, n - 1);
      var before := Select(xs, flags, n - 1);
      assert Select(xs, flags, n) == before + if flags[n - 1] then [xs[n - 1]] else [];
      if flags[n - 1] {
        idx := prev + [n - 1];
        forall k | 0 <= k < |idx|
          ensures idx[k] < n && Select(xs, flags, n)[k] == xs[idx[k]]
        {
          if k < |prev| {
            assert idx[k] == prev[k] && Select(xs, flags, n)[k] == before[k];
          }
        }
        forall i | 0 <= i < n
          ensures flags[i] <==> i in idx
        {
          assert i in idx <==> i in prev || i == n - 1;
        }
      } else {
        idx := prev;
      }
    }
  }

  /** The filter's output is the subsequence of its input at the positions it keeps. */
  lemma KeptPositions(paths: seq<string>) returns (idx: seq<nat>)
    ensures |idx| == |Kept(paths, |paths|)|
    ensures forall k :: 0 <= k < |idx| ==> idx[k] < |paths| && Kept(paths, |paths|)[k] == paths[idx[k]]
    ensures forall k, m :: 0 <= k < m < |idx| ==> idx[k] < idx[m]
    ensures forall i :: 0 <= i < |paths| ==> (KeptAt(paths, i) <==> i in idx)
  {
    idx := SelectPositions(paths, KeepFlags(paths), |paths|);
  }

  /** A path whose basename has no `.r` is always kept. */
  lemma PlainNameKept(paths: seq<string>, i: nat)
    requires i < |paths| && !IsVolumeName(Basename(paths[i]))
    ensures paths[i] in Kept(paths, |paths|)
  {
    var idx := KeptPositions(paths);
    assert KeptAt(paths, i);
    var k :| 0 <= k < |idx| && idx[k] == i;
    assert Kept(paths, |paths|)[k] == paths[i];
  }

  /** Every kept volume name is a first volume (`.r01` or `.r001`). */
  lemma KeptVolumesAreFirst(paths: seq<string>)
    ensures forall p :: p in Kept(paths, |paths|) && IsVolumeName(Basename(p)) ==> IsFirstVolume(Basename(p))
  {
    var out := Kept(paths, |paths|);
    var idx := KeptPositions(paths);
    forall p | p in out && IsVolumeName(Basename(p))
      ensures IsFirstVolume(Basename(p))
    {
      var k :| 0 <= k < |out| && out[k] == p;
      assert KeptAt(paths, idx[k]) by { assert idx[k] in idx; }
    }
  }

  /** A basename ending in `.rar` is a volume name but not a first volume. */
  lemma RarNameIsVolume(name: string)
    requires EndsWith(name, ".rar")
    ensures IsVolumeName(name) && !IsFirstVolume(name)
  {
    assert OccursAt(name, ".r", |name| - 4) by {
      assert name[|name| - 4..|name| - 2] == name[|name| - 4..][..2];
    }
    assert name[|name| - 1] == 'r';
  }

  /** So a path whose basename ends in `.rar` never survives the filter. */
  lemma RarNeverKept(paths: seq<string>)
    ensures forall p :: p in Kept(paths, |paths|) ==> !EndsWith(Basename(p), ".rar")
  {
    KeptVolumesAreFirst(paths);
    forall p | p in Kept(paths, |paths|) && EndsWith(Basename(p), ".rar")
      ensures false
    {
      RarNameIsVolume(Basename(p));
    }
  }

  /** `Select` with no flag set chooses nothing. */
  lemma {:induction false} SelectNone<T>(xs: seq<T>, flags: seq<bool>, n: nat)
    requires |flags| == |xs| && n <= |xs|
    requires forall i :: 0 <= i < n ==> !flags[i]
    ensures Select(xs, flags, n) == []
  {
    if n > 0 {
      SelectNone(xs, flags, n - 1);
    }
  }

  /** A list of paths whose basenames all end in `.rar` filters to nothing. */
  lemma AllRarFilteredOut(paths: seq<string>)
    requires forall i :: 0 <= i < |paths| ==> EndsWith(Basename(paths[i]), ".rar")
    ensures Kept(paths, |paths|) == []
  {
    forall i | 0 <= i < |paths|
      ensures !KeepFlags(paths)[i]
    {
      RarNameIsVolume(Basename(paths[i]));
    }
    SelectNone(paths, KeepFlags(paths), |paths|);
  }

  /** Once a volume name with some key has been met, no later path with that key is kept. */
  lemma LaterVolumeDropped(paths: seq<string>, i: nat, j: nat)
    requires i < j < |paths|
    requires IsVolumeName(Basename(paths[i])) && IsVolumeName(Basename(paths[j]))
    requires GroupKey(Basename(paths[i])) == GroupKey(Basename(paths[j]))
    ensures !KeptAt(paths, j)
  {
    SeenKeysHas(paths, i, j);
  }

  /** The output holds at most one volume name per group key. */
  lemma OneVolumePerKey(paths: seq<string>)
    ensures var out := Kept(paths, |paths|);
      forall k, m :: 0 <= k < m < |out| && IsVolumeName(Basename(out[k])) && IsVolumeName(Basename(out[m])) ==>
        GroupKey(Basename(out[k])) != GroupKey(Basename(out[m]))
  {
    var out := Kept(paths, |paths|);
    var idx := KeptPositions(paths);
    forall k, m | 0 <= k < m < |out| && IsVolumeName(Basename(out[k])) && IsVolumeName(Basename(out[m]))
      ensures GroupKey(Basename(out[k])) != GroupKey(Basename(out[m]))
    {
      var i, j := idx[k], idx[m];
      assert KeptAt(paths, j) by { assert idx[m] in idx; }
      SeenKeysHas(paths, i, j);
    }
  }

  /** The basename of a slash-free name is the name itself. */
  lemma PlainBasename(name: string)
    requires '/' !in name
    ensures Basename(name) == name
  {
    BasenameConcat([], name);
    assert [] + name == name;
  }

  /** The group key of `X.rNN` is `X`. */
  lemma KeyOfVolume(vol: string)
    requires |vol| >= 3 && vol[0] == 'X' && vol[1..3] == ".r"
    ensures IsVolumeName(vol) && GroupKey(vol) == "X"
  {
    assert vol[0..2] != ".r" by { assert vol[0..2][0] == 'X'; }
    assert FindFrom(vol, ".r", 0) == FindFrom(vol, ".r", 1) == Some(1);
  }

  /** A later volume hides the first volume: `[X.r02, X.r01]` keeps nothing. */
  lemma FirstVolumeAfterLaterVolume()
    ensures Kept(["X.r02", "X.r01"], 2) == []
  {
    var paths := ["X.r02", "X.r01"];
    PlainBasename(paths[0]);
    PlainBasename(paths[1]);
    KeyOfVolume(paths[0]);
    KeyOfVolume(paths[1]);
    LaterVolumeDropped(paths, 0, 1);
    assert !KeptAt(paths, 0) by {
      assert paths[0][|paths[0]| - 1] == '2';
      assert paths[0][|paths[0]| - 4..] != ".r001";
    }
    assert KeepFlags(paths)[0] == KeptAt(paths, 0);
    assert KeepFlags(paths)[1] == KeptAt(paths, 1);
  }
}
