/** search_in_file on the lines of one file: scan, merge, render. Opening and
    reading the file is left to the caller, which passes the lines. */
module Search {
  import opened Highlight
  import opened Scanner
  import opened Merge
  import opened Render
  import opened Decimal

  /** The HashSet built at line 53. */
  function MatchSetOf(matches: seq<nat>): (ms: set<nat>)
    ensures forall i: nat :: i in ms <==> i in matches
  {
    set i | i in matches
  }

  /** What search_in_file prints for a file with these lines (lines 38-105). */
  function SearchOutput(d: Display, p: Pattern, lines: seq<string>, before: nat, after: nat): seq<string> {
    if lines == [] then []
    else
      var matches := MatchIndices(lines, p);
      if matches == [] then []
      else
        MatchIndicesCorrect(lines, p);
        ContextRangesCorrect(matches, before, after, |lines|);
        RenderOut(d, p, lines, MatchSetOf(matches), ContextRanges(matches, before, after, |lines|))
  }

  /** A file prints nothing at all, not even its name, exactly when no line matches. */
  lemma SilentIffNoMatch(d: Display, p: Pattern, lines: seq<string>, before: nat, after: nat)
    ensures SearchOutput(d, p, lines, before, after) == []
            <==> forall i :: 0 <= i < |lines| ==> !p.isMatch(lines[i])
  {
    NoMatches(lines, p);
    var matches := MatchIndices(lines, p);
    if lines != [] && matches != [] {
      MatchIndicesCorrect(lines, p);
      ContextRangesCorrect(matches, before, after, |lines|);
      RenderNonEmpty(d, p, lines, MatchSetOf(matches), ContextRanges(matches, before, after, |lines|));
    }
  }

  /** For a file with a match: the file name comes first in heading mode; `--` appears
      once between consecutive ranges, exactly between two printed records whose line
      indices are not consecutive, and never in no-heading mode; the printed records
      are those of every line within `before`/`after` of a match, each once, in
      increasing order; every match is printed with ':' and every other line with '-'. */
  lemma SearchCorrect(d: Display, p: Pattern, lines: seq<string>, before: nat, after: nat)
    requires exists i :: 0 <= i < |lines| && p.isMatch(lines[i])
    ensures var matches := MatchIndices(lines, p);
            var rs := ContextRanges(matches, before, after, |lines|);
            var out := SearchOutput(d, p, lines, before, after);
            lines != [] && matches != []
            && Canonical(rs, |lines|)
            && AllBelow(Indices(rs), |lines|)
            && StrictlyIncreasing(Indices(rs))
            && (forall i: nat :: i in Indices(rs) <==> i in Covered(Windows(matches, before, after, |lines|)))
            && (forall i: nat :: i in MatchSetOf(matches) <==> i < |lines| && p.isMatch(lines[i]))
            && out == Header(d) + Layout(d, p, lines, MatchSetOf(matches), Indices(rs))
            && (d.withHeading ==>
                  out[0] == d.filename
                  && multiset(out[1..])[Separator] == |rs| - 1
                  && DropSeparators(out[1..]) == Records(d, p, lines, MatchSetOf(matches), Indices(rs)))
            && (!d.withHeading ==>
                  multiset(out)[Separator] == 0
                  && out == Records(d, p, lines, MatchSetOf(matches), Indices(rs)))
  {
    NoMatches(lines, p);
    MatchIndicesCorrect(lines, p);
    var matches := MatchIndices(lines, p);
    ContextRangesCorrect(matches, before, after, |lines|);
    var rs := ContextRanges(matches, before, after, |lines|);
    RenderCorrect(d, p, lines, MatchSetOf(matches), rs);
  }

  /** Lines 22-105 after the file has been read into `lines`. */
  method SearchInFile(d: Display, p: Pattern, lines: seq<string>, before: nat, after: nat)
    returns (out: seq<string>)
    ensures out == SearchOutput(d, p, lines, before, after)
  {
    if |lines| == 0 {
      return [];
    }
    var matchIndices := ScanMatches(lines, p);
    if |matchIndices| == 0 {
      return [];
    }
    var matchSet := set i | i in matchIndices;
    var ranges := MergeRanges(matchIndices, before, after, |lines|);
    out := RenderRanges(d, p, lines, matchSet, ranges);
  }

  // ---------------------------------------------------------------------------
  // Worked examples on a four-line file.

  const Sample: seq<string> := ["alpha", "beta", "gamma", "delta"]

  /** A pattern that matches exactly the lines in `hits`; its split is the whole line
      as one match. */
  function LinesIn(hits: set<string>): Pattern {
    Pattern(l => l in hits, l => [Hit(l)])
  }

  lemma SampleMatches(hits: set<string>)
    ensures MatchIndices(Sample, LinesIn(hits))
         == (if "alpha" in hits then [0] else []) + (if "beta" in hits then [1] else [])
            + (if "gamma" in hits then [2] else []) + (if "delta" in hits then [3] else [])
  {
    var p := LinesIn(hits);
    assert Sample[..3][..2][..1][..0] == [];
    assert Sample[..3][..2][..1] == ["alpha"];
    assert Sample[..3][..2] == ["alpha", "beta"];
    assert Sample[..3] == ["alpha", "beta", "gamma"];
    assert MatchIndices(["alpha"], p) == if "alpha" in hits then [0] else [];
  }

  lemma PrintedLines()
    ensures NatToString(1) == "1" && NatToString(2) == "2" && NatToString(3) == "3" && NatToString(4) == "4"
  {
  }

  lemma LinesOutRun(d: Display, p: Pattern, lines: seq<string>, ms: set<nat>)
    requires |lines| == 4
    ensures LinesOut(d, p, lines, ms, 0, 4)
         == [LineOut(d, p, lines, ms, 0), LineOut(d, p, lines, ms, 1), LineOut(d, p, lines, ms, 2), LineOut(d, p, lines, ms, 3)]
  {
  }

  /** Matches at 1 and 3 with one line before: the windows (0,1) and (2,3) touch and
      merge into the single range (0,3). */
  lemma TouchingRanges()
    ensures MatchIndices(Sample, LinesIn({"beta", "delta"})) == [1, 3]
    ensures ContextRanges([1, 3], 1, 0, 4) == [Range(0, 3)]
  {
    SampleMatches({"beta", "delta"});
    var ws := Windows([1, 3], 1, 0, 4);
    assert ws == [Range(0, 1), Range(2, 3)];
    assert ws[..1] == [Range(0, 1)] && ws[..1][..0] == [];
    assert MergeAll(ws[..1]) == [Range(0, 1)];
    assert MergeStep([Range(0, 1)], Range(2, 3)) == [Range(0, 3)];
  }

  lemma TouchingLines(withHeading: bool)
    ensures var d := Display("file", withHeading, false);
            var p := LinesIn({"beta", "delta"});
            LinesOut(d, p, Sample, {1, 3}, 0, 4)
            == if withHeading then ["1-alpha", "2:beta", "3-gamma", "4:delta"]
               else ["file-1-alpha", "file:2:beta", "file-3-gamma", "file:4:delta"]
  {
    var d := Display("file", withHeading, false);
    var p := LinesIn({"beta", "delta"});
    PrintedLines();
    LinesOutRun(d, p, Sample, {1, 3});
    if withHeading {
      assert LineOut(d, p, Sample, {1, 3}, 0) == "1-alpha";
      assert LineOut(d, p, Sample, {1, 3}, 1) == "2:beta";
      assert LineOut(d, p, Sample, {1, 3}, 2) == "3-gamma";
      assert LineOut(d, p, Sample, {1, 3}, 3) == "4:delta";
    } else {
      assert LineOut(d, p, Sample, {1, 3}, 0) == "file-1-alpha";
      assert LineOut(d, p, Sample, {1, 3}, 1) == "file:2:beta";
      assert LineOut(d, p, Sample, {1, 3}, 2) == "file-3-gamma";
      assert LineOut(d, p, Sample, {1, 3}, 3) == "file:4:delta";
    }
  }

  /** So the file prints as one block with no `--`, in both layouts. */
  lemma TouchingWindowsShareBlock()
    ensures SearchOutput(Display("file", true, false), LinesIn({"beta", "delta"}), Sample, 1, 0)
         == ["file", "1-alpha", "2:beta", "3-gamma", "4:delta"]
    ensures SearchOutput(Display("file", false, false), LinesIn({"beta", "delta"}), Sample, 1, 0)
         == ["file-1-alpha", "file:2:beta", "file-3-gamma", "file:4:delta"]
  {
    TouchingRanges();
    assert MatchSetOf([1, 3]) == {1, 3};
    assert [Range(0, 3)][..0] == [];
    TouchingLines(true);
    TouchingLines(false);
  }

  /** Matches at 1 and 2 with one line after: the windows (1,2) and (2,3) overlap and
      merge into the single range (1,3). */
  lemma OverlappingRanges()
    ensures MatchIndices(Sample, LinesIn({"beta", "gamma"})) == [1, 2]
    ensures ContextRanges([1, 2], 0, 1, 4) == [Range(1, 3)]
  {
    SampleMatches({"beta", "gamma"});
    var ws := Windows([1, 2], 0, 1, 4);
    assert ws == [Range(1, 2), Range(2, 3)];
    assert ws[..1] == [Range(1, 2)] && ws[..1][..0] == [];
    assert MergeAll(ws[..1]) == [Range(1, 2)];
    assert MergeStep([Range(1, 2)], Range(2, 3)) == [Range(1, 3)];
  }

  /** Matches at 0 and 3 with no context: lines 1 and 2 lie between the windows, so
      they stay two ranges. */
  lemma GapRanges()
    ensures MatchIndices(Sample, LinesIn({"alpha", "delta"})) == [0, 3]
    ensures ContextRanges([0, 3], 0, 0, 4) == [Range(0, 0), Range(3, 3)]
  {
    SampleMatches({"alpha", "delta"});
    var ws := Windows([0, 3], 0, 0, 4);
    assert ws == [Range(0, 0), Range(3, 3)];
    assert ws[..1] == [Range(0, 0)] && ws[..1][..0] == [];
    assert MergeAll(ws[..1]) == [Range(0, 0)];
    assert MergeStep([Range(0, 0)], Range(3, 3)) == [Range(0, 0), Range(3, 3)];
  }

  lemma GapLines(withHeading: bool)
    ensures var d := Display("file", withHeading, false);
            var p := LinesIn({"alpha", "delta"});
            && LinesOut(d, p, Sample, {0, 3}, 0, 1) == [if withHeading then "1:alpha" else "file:1:alpha"]
            && LinesOut(d, p, Sample, {0, 3}, 3, 4) == [if withHeading then "4:delta" else "file:4:delta"]
  {
    var d := Display("file", withHeading, false);
    var p := LinesIn({"alpha", "delta"});
    PrintedLines();
    assert LinesOut(d, p, Sample, {0, 3}, 0, 1) == [LineOut(d, p, Sample, {0, 3}, 0)];
    assert LinesOut(d, p, Sample, {0, 3}, 3, 4) == [LineOut(d, p, Sample, {0, 3}, 3)];
    if withHeading {
      assert LineOut(d, p, Sample, {0, 3}, 0) == "1:alpha";
      assert LineOut(d, p, Sample, {0, 3}, 3) == "4:delta";
    } else {
      assert LineOut(d, p, Sample, {0, 3}, 0) == "file:1:alpha";
      assert LineOut(d, p, Sample, {0, 3}, 3) == "file:4:delta";
    }
  }

  lemma GapRender(withHeading: bool)
    ensures var d := Display("file", withHeading, false);
            RenderOut(d, LinesIn({"alpha", "delta"}), Sample, {0, 3}, [Range(0, 0), Range(3, 3)])
            == if withHeading then ["file", "1:alpha", "--", "4:delta"] else ["file:1:alpha", "file:4:delta"]
  {
    var d := Display("file", withHeading, false);
    var p := LinesIn({"alpha", "delta"});
    var rs := [Range(0, 0), Range(3, 3)];
    assert rs[..1] == [Range(0, 0)] && rs[..1][..0] == [];
    GapLines(withHeading);
    var first := LinesOut(d, p, Sample, {0, 3}, 0, 1);
    var second := LinesOut(d, p, Sample, {0, 3}, 3, 4);
    assert RangesOut(d, p, Sample, {0, 3}, rs[..1]) == [] + Gap(d, 0) + first;
    assert RangesOut(d, p, Sample, {0, 3}, rs) == RangesOut(d, p, Sample, {0, 3}, rs[..1]) + Gap(d, 1) + second;
  }

  /** So heading mode prints `--` between the two blocks, and no-heading mode does not. */
  lemma GapSeparatesBlocks()
    ensures SearchOutput(Display("file", true, false), LinesIn({"alpha", "delta"}), Sample, 0, 0)
         == ["file", "1:alpha", "--", "4:delta"]
    ensures SearchOutput(Display("file", false, false), LinesIn({"alpha", "delta"}), Sample, 0, 0)
         == ["file:1:alpha", "file:4:delta"]
  {
    GapRanges();
    assert MatchSetOf([0, 3]) == {0, 3};
    GapRender(true);
    GapRender(false);
  }
}
