/**
 This module models the lazy iterator `str::split` returns: it keeps the
 haystack, the index just after the last match, and whether the trailing piece
 has been handed out. `str::split` allows a trailing empty piece, so the piece
 after the last match is always yielded, even when it is empty.
 */
module StrSplitIter {
  import opened Wrappers
  import opened StrSplit

  datatype SplitIter = SplitIter(haystack: string, sep: string, start: nat, finished: bool)
  {
    ghost predicate Valid()
    {
      |sep| > 0 && start <= |haystack|
    }
  }

  /** The pieces the iterator has yet to yield. */
  ghost function Remaining(it: SplitIter): seq<string>
    requires it.Valid()
  {
    if it.finished then [] else SplitFrom(it.haystack, it.sep, it.start)
  }

  /** `s.split(sep)`: an iterator that will yield exactly the pieces of `Split(s, sep)`. */
  function Start(s: string, sep: string): (it: SplitIter)
    requires |sep| > 0
    ensures it.Valid() && it.haystack == s && it.sep == sep
    ensures Remaining(it) == Split(s, sep)
  {
    SplitIter(s, sep, 0, false)
  }

  /** `parts.next()`: the next piece of the split, and the advanced iterator. */
  function Next(it: SplitIter): (r: (Option<string>, SplitIter))
    requires it.Valid()
    ensures r.1.Valid() && r.1.haystack == it.haystack && r.1.sep == it.sep
    ensures it.finished ==> r.0 == None && Remaining(r.1) == []
    ensures !it.finished ==> r.0 == Some(Remaining(it)[0]) && Remaining(r.1) == Remaining(it)[1..]
  {
    if it.finished then (None, it)
    else
      match FindFrom(it.haystack, it.sep, it.start)
      case Some(a) =>
        (Some(it.haystack[it.start..a]), it.(start := a + |it.sep|))
      case None =>
        (Some(it.haystack[it.start..]), it.(finished := true))
  }
}
