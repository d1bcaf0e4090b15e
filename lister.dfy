/**
 * `display_archives`: sorts the caller's list in place by modification time
 * (`list.sort`, which is stable) and prints it numbered from 1. Each printed
 * line is modelled by its label, path and modification time; turning the
 * time into a date string is left out.
 */
module Lister {

  /** One printed entry: `{number}. {path} ({date of mtime})`. */
  datatype Line = Line(number: nat, path: string, mtime: real)

  /** `s` is in non-decreasing order of modification time. */
  ghost predicate SortedBy(s: seq<string>, mtime: string -> real)
  {
    forall k, m :: 0 <= k < m < |s| ==> mtime(s[k]) <= mtime(s[m])
  }

  /**
   * `origin` maps each position of the sorted sequence to the position the
   * element came from in `before`: it is injective on `[0, |before|)`, and
   * elements with equal times keep their relative order (stability).
   */
  ghost predicate StableRearrangement(before: seq<string>, after: seq<string>, origin: seq<nat>, mtime: string -> real)
  {
    |after| == |before| && |origin| == |before| &&
    (forall k :: 0 <= k < |origin| ==> origin[k] < |before| && after[k] == before[origin[k]]) &&
    (forall k, m :: 0 <= k < m < |origin| ==> origin[k] != origin[m]) &&
    (forall k, m :: 0 <= k < m < |after| && mtime(after[k]) == mtime(after[m]) ==> origin[k] < origin[m])
  }

  /**
   * `origin` relates `s` to `before`: position `k` of `s` holds the element
   * that stood at `origin[k]`, and no two positions come from the same place.
   */
  ghost predicate Tracks(before: seq<string>, s: seq<string>, origin: seq<nat>)
  {
    |s| == |before| && |origin| == |before| &&
    (forall k :: 0 <= k < |origin| ==> origin[k] < |before| && s[k] == before[origin[k]]) &&
    (forall k, m :: 0 <= k < m < |origin| ==> origin[k] != origin[m])
  }

  /** Elements of `s[..n]` with equal times appear in the order they came from. */
  ghost predicate StableUpTo(s: seq<string>, origin: seq<nat>, n: nat, mtime: string -> real)
    requires n <= |s| == |origin|
  {
    forall k, m :: 0 <= k < m < n && mtime(s[k]) == mtime(s[m]) ==> origin[k] < origin[m]
  }

  /** Outer invariant of the sort: `s[..i]` is a stable sort of `before[..i]`, the rest is untouched. */
  ghost predicate Settled(s: seq<string>, origin: seq<nat>, i: nat, mtime: string -> real)
    requires |s| == |origin|
  {
    i <= |s| && SortedBy(s[..i], mtime) && StableUpTo(s, origin, i, mtime) &&
    (forall k :: 0 <= k < i ==> origin[k] < i) &&
    (forall k :: i <= k < |s| ==> origin[k] == k)
  }

  /**
   * Inner invariant: the element taken from position `i` now stands at `j`;
   * the other elements of `s[..i + 1]` are in stable order, and the element
   * at `j` is strictly earlier than everything it has moved past.
   */
  ghost predicate Inserting(s: seq<string>, origin: seq<nat>, i: nat, j: nat, mtime: string -> real)
    requires |s| == |origin|
  {
    j <= i < |s| && origin[j] == i &&
    (forall k :: 0 <= k <= i && k != j ==> origin[k] < i) &&
    (forall k :: i < k < |s| ==> origin[k] == k) &&
    (forall k, m :: 0 <= k < m <= i && k != j && m != j ==> mtime(s[k]) <= mtime(s[m])) &&
    (forall k, m :: 0 <= k < m <= i && k != j && m != j && mtime(s[k]) == mtime(s[m]) ==> origin[k] < origin[m]) &&
    (forall m :: j < m <= i ==> mtime(s[j]) < mtime(s[m]))
  }

  /** Swapping positions `j - 1` and `j`. */
  function Swapped<T>(s: seq<T>, j: nat): (r: seq<T>)
    requires 0 < j < |s|
    ensures |r| == |s| && r[j - 1] == s[j] && r[j] == s[j - 1]
    ensures forall k :: 0 <= k < |s| && k != j - 1 && k != j ==> r[k] == s[k]
  {
    s[j - 1 := s[j]][j := s[j - 1]]
  }

  lemma StartInserting(before: seq<string>, s: seq<string>, origin: seq<nat>, i: nat, mtime: string -> real)
    requires Tracks(before, s, origin) && Settled(s, origin, i, mtime) && i < |s|
    ensures Inserting(s, origin, i, i, mtime)
  {
    forall k, m | 0 <= k < m <= i && k != i && m != i
      ensures mtime(s[k]) <= mtime(s[m])
    {
      assert s[..i][k] == s[k] && s[..i][m] == s[m];
    }
  }

  lemma SwapKeepsTracks(before: seq<string>, s: seq<string>, origin: seq<nat>, j: nat)
    requires Tracks(before, s, origin) && 0 < j < |s|
    ensures Tracks(before, Swapped(s, j), Swapped(origin, j))
  {
    var o' := Swapped(origin, j);
    forall k, m | 0 <= k < m < |o'| ensures o'[k] != o'[m] {
      var k0 := if k == j - 1 then j else if k == j then j - 1 else k;
      var m0 := if m == j - 1 then j else if m == j then j - 1 else m;
      assert o'[k] == origin[k0] && o'[m] == origin[m0] && k0 != m0;
    }
  }

  lemma SwapKeepsInserting(s: seq<string>, origin: seq<nat>, i: nat, j: nat, mtime: string -> real)
    requires |s| == |origin| && Inserting(s, origin, i, j, mtime)
    requires 0 < j && mtime(s[j - 1]) > mtime(s[j])
    ensures Inserting(Swapped(s, j), Swapped(origin, j), i, j - 1, mtime)
  {
  }

  lemma SwapStep(before: seq<string>, s: seq<string>, origin: seq<nat>, i: nat, j: nat, mtime: string -> real)
    requires Tracks(before, s, origin) && Inserting(s, origin, i, j, mtime)
    requires 0 < j && mtime(s[j - 1]) > mtime(s[j])
    ensures Tracks(before, Swapped(s, j), Swapped(origin, j))
    ensures Inserting(Swapped(s, j), Swapped(origin, j), i, j - 1, mtime)
  {
    SwapKeepsTracks(before, s, origin, j);
    SwapKeepsInserting(s, origin, i, j, mtime);
  }

  lemma FinishInserting(before: seq<string>, s: seq<string>, origin: seq<nat>, i: nat, j: nat, mtime: string -> real)
    requires Tracks(before, s, origin) && Inserting(s, origin, i, j, mtime)
    requires j == 0 || mtime(s[j - 1]) <= mtime(s[j])
    ensures Settled(s, origin, i + 1, mtime)
  {
    var t := s[..i + 1];
    forall k, m | 0 <= k < m < |t|
      ensures mtime(t[k]) <= mtime(t[m])
    {
      if m == j && k < j - 1 {
        assert mtime(s[k]) <= mtime(s[j - 1]);
      }
    }
  }

  lemma SortDone(before: seq<string>, s: seq<string>, origin: seq<nat>, mtime: string -> real)
    requires Tracks(before, s, origin) && Settled(s, origin, |s|, mtime)
    ensures SortedBy(s, mtime) && StableRearrangement(before, s, origin, mtime)
  {
    assert s[..|s|] == s;
  }

  /** Swaps two neighbouring elements of `a`. */
  method SwapDown(a: array<string>, j: nat)
    requires 0 < j < a.Length
    modifies a
    ensures a[..] == Swapped(old(a[..]), j)
    ensures multiset(a[..]) == old(multiset(a[..]))
  {
    a[j - 1], a[j] := a[j], a[j - 1];
  }

  /**
   * One round of insertion: moves `a[i]` down past every earlier element
   * with a later time, so `a[..i + 1]` becomes a stable sort of what the
   * first `i + 1` positions held.
   */
  method InsertNext(a: array<string>, i: nat, mtime: string -> real, ghost before: seq<string>, ghost origin: seq<nat>)
    returns (ghost origin': seq<nat>)
    requires i < a.Length && |origin| == a.Length
    requires Tracks(before, a[..], origin) && Settled(a[..], origin, i, mtime)
    modifies a
    ensures |origin'| == a.Length
    ensures Tracks(before, a[..], origin') && Settled(a[..], origin', i + 1, mtime)
    ensures multiset(a[..]) == old(multiset(a[..]))
  {
    StartInserting(before, a[..], origin, i, mtime);
    origin' := origin;
    var j: nat := i;
    while j > 0 && mtime(a[j - 1]) > mtime(a[j])
      invariant |origin'| == a.Length
      invariant Tracks(before, a[..], origin') && Inserting(a[..], origin', i, j, mtime)
      invariant multiset(a[..]) == old(multiset(a[..]))
    {
      SwapStep(before, a[..], origin', i, j, mtime);
      SwapDown(a, j);
      origin' := Swapped(origin', j);
      j := j - 1;
    }
    FinishInserting(before, a[..], origin', i, j, mtime);
  }

  /**
   * `archives.sort(key=get_modified_time)`: a stable sort in place by
   * modification time. The ghost `origin` says where each element came from.
   */
  method SortByMtime(a: array<string>, mtime: string -> real) returns (ghost origin: seq<nat>)
    modifies a
    ensures SortedBy(a[..], mtime)
    ensures multiset(a[..]) == old(multiset(a[..]))
    ensures StableRearrangement(old(a[..]), a[..], origin, mtime)
  {
    ghost var before := a[..];
    origin := seq(a.Length, k => k);
    for i := 0 to a.Length
      invariant |origin| == a.Length
      invariant Tracks(before, a[..], origin) && Settled(a[..], origin, i, mtime)
      invariant multiset(a[..]) == multiset(before)
    {
      origin := InsertNext(a, i, mtime, before, origin);
    }
    SortDone(before, a[..], origin, mtime);
  }

  /** The lines `display_archives` prints for `s`, numbered from 1. */
  method Number(s: seq<string>, mtime: string -> real) returns (lines: seq<Line>)
    ensures |lines| == |s|
    ensures forall k :: 0 <= k < |s| ==> lines[k] == Line(k + 1, s[k], mtime(s[k]))
  {
    lines := [];
    for k := 0 to |s|
      invariant |lines| == k
      invariant forall m :: 0 <= m < k ==> lines[m] == Line(m + 1, s[m], mtime(s[m]))
    {
      lines := lines + [Line(k + 1, s[k], mtime(s[k]))];
    }
  }

  /**
   * `display_archives(archives)`: sorts the caller's array in place and
   * returns the numbered lines, so number `k + 1` names `a[k]` afterwards.
   */
  method DisplayArchives(a: array<string>, mtime: string -> real) returns (lines: seq<Line>)
    modifies a
    ensures SortedBy(a[..], mtime)
    ensures multiset(a[..]) == old(multiset(a[..]))
    ensures exists origin :: StableRearrangement(old(a[..]), a[..], origin, mtime)
    ensures |lines| == a.Length
    ensures forall k :: 0 <= k < a.Length ==> lines[k] == Line(k + 1, a[k], mtime(a[k]))
  {
    ghost var origin := SortByMtime(a, mtime);
    lines := Number(a[..], mtime);
  }
}
