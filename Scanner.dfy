/** The match scanner of search_in_file: every line is tested against the
    pattern once, and the indices of the matching lines are collected in order. */
module Scanner {
  import opened Highlight

  predicate StrictlyIncreasing(s: seq<nat>) {
    forall i, j :: 0 <= i < j < |s| ==> s[i] < s[j]
  }

  /** The indices of the lines `p` matches, in file order. */
  function MatchIndices(lines: seq<string>, p: Pattern): seq<nat>
  {
    if lines == [] then []
    else
      var n := |lines| - 1;
      MatchIndices(lines[..n], p) + (if p.isMatch(lines[n]) then [n] else [])
  }

  /** The scanner's result is strictly increasing and holds exactly the matching indices. */
  lemma {:induction false} MatchIndicesCorrect(lines: seq<string>, p: Pattern)
    ensures StrictlyIncreasing(MatchIndices(lines, p))
    ensures forall k :: 0 <= k < |MatchIndices(lines, p)| ==> MatchIndices(lines, p)[k] < |lines|
    ensures forall i: nat :: i in MatchIndices(lines, p) <==> i < |lines| && p.isMatch(lines[i])
  {
    if lines != [] {
      var n := |lines| - 1;
      MatchIndicesCorrect(lines[..n], p);
      forall i: nat | i < n ensures lines[..n][i] == lines[i] { }
    }
  }

  /** No index is found exactly when no line matches (the file is then skipped). */
  lemma NoMatches(lines: seq<string>, p: Pattern)
    ensures MatchIndices(lines, p) == [] <==> forall i :: 0 <= i < |lines| ==> !p.isMatch(lines[i])
  {
    MatchIndicesCorrect(lines, p);
    if MatchIndices(lines, p) != [] {
      assert MatchIndices(lines, p)[0] in MatchIndices(lines, p);
    }
  }

  /** Lines 42-47: one pass over the lines, pushing each matching index. */
  method ScanMatches(lines: seq<string>, p: Pattern) returns (indices: seq<nat>)
    ensures indices == MatchIndices(lines, p)
    ensures StrictlyIncreasing(indices)
    ensures forall k :: 0 <= k < |indices| ==> indices[k] < |lines|
    ensures forall i: nat :: i in indices <==> i < |lines| && p.isMatch(lines[i])
  {
    indices := [];
    var i := 0;
    while i < |lines|
      invariant 0 <= i <= |lines|
      invariant indices == MatchIndices(lines[..i], p)
    {
      assert lines[..i + 1][..i] == lines[..i];
      if p.isMatch(lines[i]) {
        indices := indices + [i];
      }
      i := i + 1;
    }
    assert lines[..i] == lines;
    MatchIndicesCorrect(lines, p);
  }
}
