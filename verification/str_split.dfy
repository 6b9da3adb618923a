/**
 This module models the eager meaning of Rust's `str::split` with a non-empty
 string pattern: the pieces of a string are the maximal runs between the
 non-overlapping occurrences of the separator, found left to right.
 */
module StrSplit {
  import opened Wrappers

  /** `sep` occurs in `s` starting at index `i`. */
  predicate OccursAt(s: string, sep: string, i: int)
  {
    0 <= i && i + |sep| <= |s| && s[i..i + |sep|] == sep
  }

  /** `sep` occurs somewhere in `s`. */
  ghost predicate Contains(s: string, sep: string)
  {
    exists i :: OccursAt(s, sep, i)
  }

  /** `r` names the leftmost occurrence of `sep` in `s` at or after `from`,
      or is `None` when there is no such occurrence. */
  ghost predicate IsFirstFrom(s: string, sep: string, from: nat, r: Option<nat>)
  {
    match r
    case Some(i) =>
      && from <= i
      && OccursAt(s, sep, i)
      && forall k :: from <= k < i ==> !OccursAt(s, sep, k)
    case None =>
      forall k :: from <= k ==> !OccursAt(s, sep, k)
  }

  /** The searcher behind `str::split`: the first match of `sep` at or after `from`. */
  function FindFrom(s: string, sep: string, from: nat): (r: Option<nat>)
    requires from <= |s|
    ensures IsFirstFrom(s, sep, from, r)
    decreases |s| - from
  {
    if |s| - from < |sep| then None
    else if s[from..from + |sep|] == sep then Some(from)
    else FindFrom(s, sep, from + 1)
  }

  /** There is only one leftmost occurrence. */
  lemma FirstFromUnique(s: string, sep: string, from: nat, r1: Option<nat>, r2: Option<nat>)
    requires IsFirstFrom(s, sep, from, r1) && IsFirstFrom(s, sep, from, r2)
    ensures r1 == r2
  {
  }

  /** An occurrence inside the slice `s[lo..hi]` is an occurrence in `s`, shifted by `lo`. */
  lemma OccursInSlice(s: string, sep: string, lo: nat, hi: nat, k: int)
    requires lo <= hi <= |s|
    ensures OccursAt(s[lo..hi], sep, k) <==> 0 <= k && k + |sep| <= hi - lo && OccursAt(s, sep, lo + k)
  {
    if 0 <= k && k + |sep| <= hi - lo {
      var a, b := s[lo..hi][k..k + |sep|], s[lo + k..lo + k + |sep|];
      assert |a| == |b|;
      forall m | 0 <= m < |a|
        ensures a[m] == b[m]
      {
      }
      assert a == b;
    }
  }

  /** A slice with no occurrence of `sep` inside its bounds does not contain `sep`. */
  lemma SliceFree(s: string, sep: string, lo: nat, hi: nat)
    requires lo <= hi <= |s|
    requires forall k :: lo <= k && k + |sep| <= hi ==> !OccursAt(s, sep, k)
    ensures !Contains(s[lo..hi], sep)
  {
    forall k
      ensures !OccursAt(s[lo..hi], sep, k)
    {
      OccursInSlice(s, sep, lo, hi, k);
    }
  }

  /** The pieces of `s[start..]`: the text up to each leftmost separator found
      from the cursor, the cursor then moving past that separator, and finally
      the rest of the string. */
  function SplitFrom(s: string, sep: string, start: nat): (parts: seq<string>)
    requires |sep| > 0 && start <= |s|
    ensures |parts| >= 1
    decreases |s| - start
  {
    match FindFrom(s, sep, start)
    case None => [s[start..]]
    case Some(a) => [s[start..a]] + SplitFrom(s, sep, a + |sep|)
  }

  /** The pieces of `s` between the non-overlapping, left-to-right occurrences of `sep`. */
  function Split(s: string, sep: string): (parts: seq<string>)
    requires |sep| > 0
    ensures |parts| >= 1
  {
    SplitFrom(s, sep, 0)
  }

  /** Puts the separator back between consecutive pieces. */
  function Join(parts: seq<string>, sep: string): string
  {
    if |parts| == 0 then []
    else if |parts| == 1 then parts[0]
    else parts[0] + sep + Join(parts[1..], sep)
  }

  /** The first piece from the cursor runs to the next separator, or to the end. */
  lemma SplitFromFirstPiece(s: string, sep: string, start: nat)
    requires |sep| > 0 && start <= |s|
    ensures SplitFrom(s, sep, start)[0] ==
              match FindFrom(s, sep, start)
              case None => s[start..]
              case Some(a) => s[start..a]
  {
  }

  /** After the first piece, the pieces are those from just past the separator. */
  lemma SplitFromRest(s: string, sep: string, start: nat)
    requires |sep| > 0 && start <= |s|
    ensures match FindFrom(s, sep, start)
            case None => |SplitFrom(s, sep, start)| == 1
            case Some(a) => SplitFrom(s, sep, start)[1..] == SplitFrom(s, sep, a + |sep|)
  {
  }

  /** Three adjacent slices put back together give the suffix they cover. */
  lemma Reassemble(s: string, lo: nat, mid: nat, hi: nat)
    requires lo <= mid <= hi <= |s|
    ensures s[lo..mid] + s[mid..hi] + s[hi..] == s[lo..]
  {
  }

  /** Splitting loses nothing: joining the pieces from the cursor gives back the rest of the string. */
  lemma {:induction false} SplitFromJoin(s: string, sep: string, start: nat)
    requires |sep| > 0 && start <= |s|
    ensures Join(SplitFrom(s, sep, start), sep) == s[start..]
    decreases |s| - start
  {
    match FindFrom(s, sep, start)
    case None =>
    case Some(a) =>
      var parts := SplitFrom(s, sep, start);
      SplitFromRest(s, sep, start);
      var tail := SplitFrom(s, sep, a + |sep|);
      assert |parts| >= 2;
      calc {
        Join(parts, sep);
        parts[0] + sep + Join(tail, sep);
        { SplitFromJoin(s, sep, a + |sep|); }
        s[start..a] + sep + s[a + |sep|..];
        { Reassemble(s, start, a, a + |sep|); }
        s[start..];
      }
  }

  /** Splitting loses nothing: joining the pieces with the separator gives the string back. */
  lemma SplitJoin(s: string, sep: string)
    requires |sep| > 0
    ensures Join(Split(s, sep), sep) == s
  {
    SplitFromJoin(s, sep, 0);
  }

  /** Putting a separator-free piece in front of separator-free pieces keeps them all free. */
  lemma PiecesFreeCons(head: string, tail: seq<string>, sep: string)
    requires !Contains(head, sep)
    requires forall k :: 0 <= k < |tail| ==> !Contains(tail[k], sep)
    ensures forall k :: 0 <= k < |[head] + tail| ==> !Contains(([head] + tail)[k], sep)
  {
    forall k | 0 <= k < |[head] + tail|
      ensures !Contains(([head] + tail)[k], sep)
    {
      if k > 0 {
        assert ([head] + tail)[k] == tail[k - 1];
      }
    }
  }

  /** No piece from the cursor on contains the separator. */
  lemma {:induction false} SplitFromPiecesFree(s: string, sep: string, start: nat)
    requires |sep| > 0 && start <= |s|
    ensures forall k :: 0 <= k < |SplitFrom(s, sep, start)| ==> !Contains(SplitFrom(s, sep, start)[k], sep)
    decreases |s| - start
  {
    var parts := SplitFrom(s, sep, start);
    match FindFrom(s, sep, start)
    case None =>
      SliceFree(s, sep, start, |s|);
      assert s[start..] == s[start..|s|];
    case Some(a) =>
      SliceFree(s, sep, start, a);
      SplitFromRest(s, sep, start);
      SplitFromPiecesFree(s, sep, a + |sep|);
      PiecesFreeCons(s[start..a], SplitFrom(s, sep, a + |sep|), sep);
  }

  /** No piece contains the separator. */
  lemma SplitPiecesFree(s: string, sep: string)
    requires |sep| > 0
    ensures forall k :: 0 <= k < |Split(s, sep)| ==> !Contains(Split(s, sep)[k], sep)
  {
    SplitFromPiecesFree(s, sep, 0);
  }

  /** A string splits into a single piece exactly when it does not contain the separator. */
  lemma SplitSingleIff(s: string, sep: string)
    requires |sep| > 0
    ensures |Split(s, sep)| == 1 <==> !Contains(s, sep)
  {
    match FindFrom(s, sep, 0)
    case None =>
    case Some(i) =>
      assert OccursAt(s, sep, i);
      assert |Split(s, sep)| == 1 + |SplitFrom(s, sep, i + |sep|)|;
  }
}
