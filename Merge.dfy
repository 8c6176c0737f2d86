/** The context-range merger of search_in_file: every match gets a window of
    `before` lines above and `after` lines below, clamped to the file, and the
    windows are united into ranges. A window is merged into the last range when
    it overlaps it or starts on the line right after it (start <= last.end + 1);
    otherwise it opens a new range, which is then printed after a `--`. */
module Merge {
  import opened Scanner
  import Decimal

  /** An inclusive range of 0-based line indices. */
  datatype Range = Range(start: nat, end: nat)

  function Max(a: nat, b: nat): nat { if a >= b then a else b }

  /** Lines 58-59: `idx.saturating_sub(before)` and `(idx + after).min(len - 1)`. */
  function Window(idx: nat, before: nat, after: nat, len: nat): (w: Range)
    requires len > 0
    ensures w.start <= idx && idx - w.start <= before
    ensures w.start == 0 || idx - w.start == before
    ensures w.end <= idx + after && w.end <= len - 1
    ensures w.end == len - 1 || w.end == idx + after
    ensures idx < len ==> w.start <= idx <= w.end
  {
    Range(if idx >= before then idx - before else 0,
          if idx + after <= len - 1 then idx + after else len - 1)
  }

  /** Line 59 as a build without overflow checks computes it: `idx + after` wraps
      around modulo 2^64 before the `min`. */
  function WrappingWindowEnd(idx: nat, after: nat, len: nat): (e: nat)
    requires len > 0 && idx <= Decimal.USIZE_MAX && after <= Decimal.USIZE_MAX
    ensures e <= len - 1
  {
    var sum := (idx + after) % (Decimal.USIZE_MAX + 1);
    if sum <= len - 1 then sum else len - 1
  }

  /** With `-A 18446744073709551615` and a match on the second of three lines, the
      wrapped end falls before the match, so the match's own line is never printed;
      the saturating window keeps it. */
  lemma WrappedWindowMissesMatch()
    ensures WrappingWindowEnd(1, Decimal.USIZE_MAX, 3) == 0
    ensures Window(1, 0, Decimal.USIZE_MAX, 3) == Range(1, 2)
  {
  }

  /** The window of every match, in match order. */
  function Windows(matches: seq<nat>, before: nat, after: nat, len: nat): (ws: seq<Range>)
    requires len > 0
    ensures |ws| == |matches|
  {
    seq(|matches|, k requires 0 <= k < |matches| => Window(matches[k], before, after, len))
  }

  /** Adds one window to the ranges built so far (lines 61-71). */
  function MergeStep(rs: seq<Range>, w: Range): seq<Range> {
    if rs == [] then [w]
    else
      var last := rs[|rs| - 1];
      if w.start <= last.end + 1 then rs[..|rs| - 1] + [Range(last.start, Max(last.end, w.end))]
      else rs + [w]
  }

  /** The ranges the loop of lines 57-72 builds from a sequence of windows. */
  function MergeAll(ws: seq<Range>): seq<Range> {
    if ws == [] then [] else MergeStep(MergeAll(ws[..|ws| - 1]), ws[|ws| - 1])
  }

  /** The lines a range covers. */
  function Span(r: Range): set<nat> {
    set i: nat | i <= r.end && InRange(r, i)
  }

  /** The lines a sequence of ranges covers. */
  function Covered(rs: seq<Range>): set<nat> {
    if rs == [] then {} else Covered(rs[..|rs| - 1]) + Span(rs[|rs| - 1])
  }

  predicate InRange(r: Range, i: nat) {
    r.start <= i <= r.end
  }

  /** Every range is non-empty and lies inside a file of `len` lines. */
  predicate Bounded(rs: seq<Range>, len: nat) {
    forall k :: 0 <= k < |rs| ==> rs[k].start <= rs[k].end && rs[k].end < len
  }

  /** Ranges come in increasing order with a gap of at least one line between them. */
  predicate Separated(rs: seq<Range>) {
    forall k, l :: 0 <= k < l < |rs| ==> rs[k].end + 2 <= rs[l].start
  }

  predicate Canonical(rs: seq<Range>, len: nat) {
    Bounded(rs, len) && Separated(rs)
  }

  predicate StartsSorted(ws: seq<Range>) {
    forall k, l :: 0 <= k < l < |ws| ==> ws[k].start <= ws[l].start
  }

  /** What the scanner hands to the merger: increasing indices of lines of the file. */
  predicate IsMatchSet(matches: seq<nat>, len: nat) {
    StrictlyIncreasing(matches) && forall k :: 0 <= k < |matches| ==> matches[k] < len
  }

  lemma CoveredAppend(rs: seq<Range>, r: Range)
    ensures Covered(rs + [r]) == Covered(rs) + Span(r)
  {
    assert (rs + [r])[..|rs|] == rs;
  }

  lemma {:induction false} InCovered(rs: seq<Range>, i: nat)
    ensures i in Covered(rs) <==> exists k :: 0 <= k < |rs| && InRange(rs[k], i)
  {
    if rs != [] {
      var n := |rs| - 1;
      InCovered(rs[..n], i);
      if i in Covered(rs[..n]) {
        var k :| 0 <= k < n && InRange(rs[..n][k], i);
        assert InRange(rs[k], i);
      }
      if exists k :: 0 <= k < |rs| && InRange(rs[k], i) {
        var k :| 0 <= k < |rs| && InRange(rs[k], i);
        if k < n {
          assert InRange(rs[..n][k], i);
        }
      }
    }
  }

  /** The windows of a match set are non-empty, inside the file and sorted by start. */
  lemma WindowsOfMatchSet(matches: seq<nat>, before: nat, after: nat, len: nat)
    requires len > 0 && IsMatchSet(matches, len)
    ensures Bounded(Windows(matches, before, after, len), len)
    ensures StartsSorted(Windows(matches, before, after, len))
  {
  }

  /** Widening the last range to take in a window that starts inside it or right after it. */
  function Widen(rs: seq<Range>, w: Range): seq<Range>
    requires rs != []
  {
    rs[..|rs| - 1] + [Range(rs[|rs| - 1].start, Max(rs[|rs| - 1].end, w.end))]
  }

  lemma WidenCanonical(rs: seq<Range>, w: Range, len: nat)
    requires Canonical(rs, len) && rs != [] && w.end < len
    requires rs[|rs| - 1].start <= w.start <= rs[|rs| - 1].end + 1
    ensures Canonical(Widen(rs, w), len)
  {
    var n := |rs| - 1;
    var ms := Widen(rs, w);
    assert |ms| == |rs|;
    forall k | 0 <= k < n ensures ms[k] == rs[k] {
      assert ms[k] == rs[..n][k];
    }
    assert ms[n] == Range(rs[n].start, Max(rs[n].end, w.end));
    forall k, l | 0 <= k < l < |ms| ensures ms[k].end + 2 <= ms[l].start {
      assert rs[k].end + 2 <= rs[l].start;
    }
  }

  lemma WidenCovered(rs: seq<Range>, w: Range)
    requires rs != [] && rs[|rs| - 1].start <= w.start <= rs[|rs| - 1].end + 1
    ensures Covered(Widen(rs, w)) == Covered(rs) + Span(w)
  {
    var n := |rs| - 1;
    var last := rs[n];
    var merged := Range(last.start, Max(last.end, w.end));
    var front := rs[..n];
    SplitLast(rs);
    assert Widen(rs, w) == front + [merged];
    CoveredAppend(front, last);
    CoveredAppend(front, merged);
    SpanUnion(last, w);
    UnionAssoc(Covered(front), Span(last), Span(w));
  }

  lemma SplitLast(rs: seq<Range>)
    requires rs != []
    ensures rs == rs[..|rs| - 1] + [rs[|rs| - 1]]
  {
  }

  lemma UnionAssoc(a: set<nat>, b: set<nat>, c: set<nat>)
    ensures a + (b + c) == a + b + c
  {
  }

  /** Two ranges that overlap or touch cover the lines of their hull. */
  lemma SpanUnion(a: Range, b: Range)
    requires a.start <= b.start <= a.end + 1
    ensures Span(Range(a.start, Max(a.end, b.end))) == Span(a) + Span(b)
  {
    var h := Range(a.start, Max(a.end, b.end));
    forall i: nat ensures i in Span(h) <==> i in Span(a) || i in Span(b) {
      assert i in Span(h) <==> InRange(h, i);
      assert i in Span(a) <==> InRange(a, i);
      assert i in Span(b) <==> InRange(b, i);
    }
  }

  lemma PushCanonical(rs: seq<Range>, w: Range, len: nat)
    requires Canonical(rs, len) && w.start <= w.end < len
    requires rs != [] ==> rs[|rs| - 1].end + 1 < w.start
    ensures Canonical(rs + [w], len)
  {
    var ms := rs + [w];
    forall k | 0 <= k < |rs| ensures ms[k] == rs[k] { }
    forall k, l | 0 <= k < l < |ms| ensures ms[k].end + 2 <= ms[l].start {
      if l < |rs| {
        assert rs[k].end + 2 <= rs[l].start;
      } else if k < |rs| - 1 {
        assert rs[k].end + 2 <= rs[|rs| - 1].start;
      }
    }
  }

  /** One merge step keeps the ranges canonical, adds exactly the window's lines,
      and keeps the first start and a last start no later than the window's. */
  lemma MergeStepInvariant(rs: seq<Range>, w: Range, len: nat)
    requires Canonical(rs, len)
    requires w.start <= w.end < len
    requires rs != [] ==> rs[|rs| - 1].start <= w.start
    ensures Canonical(MergeStep(rs, w), len)
    ensures Covered(MergeStep(rs, w)) == Covered(rs) + Span(w)
    ensures MergeStep(rs, w) != [] && MergeStep(rs, w)[|MergeStep(rs, w)| - 1].start <= w.start
    ensures MergeStep(rs, w)[0].start == if rs == [] then w.start else rs[0].start
  {
    if rs == [] {
      PushCanonical(rs, w, len);
      CoveredAppend([], w);
      assert [] + [w] == [w];
    } else if w.start <= rs[|rs| - 1].end + 1 {
      assert MergeStep(rs, w) == Widen(rs, w);
      WidenCanonical(rs, w, len);
      WidenCovered(rs, w);
      if |rs| > 1 {
        assert Widen(rs, w)[0] == rs[..|rs| - 1][0];
      }
    } else {
      assert MergeStep(rs, w) == rs + [w];
      PushCanonical(rs, w, len);
      CoveredAppend(rs, w);
    }
  }

  /** For sorted windows inside the file, the merged ranges are canonical and cover
      exactly the union of the windows. */
  lemma {:induction false} MergeAllInvariant(ws: seq<Range>, len: nat)
    requires Bounded(ws, len) && StartsSorted(ws)
    ensures Canonical(MergeAll(ws), len)
    ensures Covered(MergeAll(ws)) == Covered(ws)
    ensures ws != [] ==> MergeAll(ws) != [] && MergeAll(ws)[0].start == ws[0].start
    ensures ws != [] ==> MergeAll(ws)[|MergeAll(ws)| - 1].start <= ws[|ws| - 1].start
  {
    if ws != [] {
      var n := |ws| - 1;
      var prefix := ws[..n];
      MergeAllInvariant(prefix, len);
      MergeStepInvariant(MergeAll(prefix), ws[n], len);
    }
  }

  /** Merging ranges that are already separated changes nothing. */
  lemma {:induction false} MergeFixesSeparated(rs: seq<Range>)
    requires Separated(rs)
    ensures MergeAll(rs) == rs
  {
    if rs != [] {
      var n := |rs| - 1;
      assert Separated(rs[..n]);
      MergeFixesSeparated(rs[..n]);
      SplitLast(rs);
    }
  }

  /** Re-running the merge on its own output (each range as a window) gives the same ranges. */
  lemma MergeIdempotent(ws: seq<Range>, len: nat)
    requires Bounded(ws, len) && StartsSorted(ws)
    ensures MergeAll(MergeAll(ws)) == MergeAll(ws)
  {
    MergeAllInvariant(ws, len);
    MergeFixesSeparated(MergeAll(ws));
  }

  /** The lines of the ranges after the first. */
  lemma CoveredTail(rs: seq<Range>, len: nat)
    requires Canonical(rs, len) && rs != []
    ensures Covered(rs[1..]) == Covered(rs) - Span(rs[0])
  {
    forall i: nat ensures i in Covered(rs[1..]) <==> i in Covered(rs) && i !in Span(rs[0]) {
      InCovered(rs, i);
      InCovered(rs[1..], i);
      if i in Covered(rs[1..]) {
        var k :| 0 <= k < |rs[1..]| && InRange(rs[1..][k], i);
        assert InRange(rs[k + 1], i);
      }
      if i in Covered(rs) && i !in Span(rs[0]) {
        var k :| 0 <= k < |rs| && InRange(rs[k], i);
        assert k != 0;
        assert InRange(rs[1..][k - 1], i);
      }
    }
  }

  /** Two canonical range sequences that cover the same lines are equal: the merge
      result is the unique canonical cover of the windows. */
  lemma {:induction false} CanonicalUnique(a: seq<Range>, b: seq<Range>, len: nat)
    requires Canonical(a, len) && Canonical(b, len)
    requires Covered(a) == Covered(b)
    ensures a == b
    decreases |a|
  {
    if a == [] || b == [] {
      if a != [] {
        InCovered(a, a[0].start);
      }
      if b != [] {
        InCovered(b, b[0].start);
      }
    } else {
      FirstRangeOfCover(a, b, len);
      FirstRangeOfCover(b, a, len);
      CoveredTail(a, len);
      CoveredTail(b, len);
      CanonicalTail(a, len);
      CanonicalTail(b, len);
      CanonicalUnique(a[1..], b[1..], len);
      SplitFirst(a);
      SplitFirst(b);
    }
  }

  lemma CanonicalTail(rs: seq<Range>, len: nat)
    requires Canonical(rs, len) && rs != []
    ensures Canonical(rs[1..], len)
  {
    forall k, l | 0 <= k < l < |rs| - 1 ensures rs[1..][k].end + 2 <= rs[1..][l].start {
      assert rs[k + 1].end + 2 <= rs[l + 1].start;
    }
  }

  lemma SplitFirst(rs: seq<Range>)
    requires rs != []
    ensures rs == [rs[0]] + rs[1..]
  {
  }

  /** In two canonical covers of the same lines, the first range of one starts no
      earlier and ends no later than the first range of the other. */
  lemma FirstRangeOfCover(a: seq<Range>, b: seq<Range>, len: nat)
    requires Canonical(a, len) && Canonical(b, len)
    requires Covered(a) == Covered(b) && a != [] && b != []
    ensures b[0].start <= a[0].start
    ensures a[0].start == b[0].start ==> b[0].end <= a[0].end
  {
    InCovered(a, a[0].start);
    InCovered(b, a[0].start);
    var k :| 0 <= k < |b| && InRange(b[k], a[0].start);
    assert k == 0 || b[0].start < b[k].start;
    if a[0].start == b[0].start && a[0].end < b[0].end {
      var x := a[0].end + 1;
      InCovered(b, x);
      InCovered(a, x);
      assert false;
    }
  }

  /** The ranges of lines 55-72 for a match set. */
  function ContextRanges(matches: seq<nat>, before: nat, after: nat, len: nat): seq<Range>
    requires len > 0
  {
    MergeAll(Windows(matches, before, after, len))
  }

  /** The merged ranges of a match set: canonical, covering exactly the union of the
      windows, and the only canonical sequence that does. */
  lemma ContextRangesCorrect(matches: seq<nat>, before: nat, after: nat, len: nat)
    requires len > 0 && IsMatchSet(matches, len)
    ensures Canonical(ContextRanges(matches, before, after, len), len)
    ensures Covered(ContextRanges(matches, before, after, len)) == Covered(Windows(matches, before, after, len))
    ensures forall rs :: Canonical(rs, len) && Covered(rs) == Covered(Windows(matches, before, after, len))
              ==> rs == ContextRanges(matches, before, after, len)
  {
    var ws := Windows(matches, before, after, len);
    WindowsOfMatchSet(matches, before, after, len);
    MergeAllInvariant(ws, len);
    forall rs | Canonical(rs, len) && Covered(rs) == Covered(ws) ensures rs == MergeAll(ws) {
      CanonicalUnique(rs, MergeAll(ws), len);
    }
  }

  /** Every match lies in exactly one range. */
  lemma EachMatchInOneRange(matches: seq<nat>, before: nat, after: nat, len: nat, m: nat)
    requires len > 0 && IsMatchSet(matches, len) && m in matches
    ensures exists k :: 0 <= k < |ContextRanges(matches, before, after, len)|
              && InRange(ContextRanges(matches, before, after, len)[k], m)
    ensures forall k, l ::
              (0 <= k < |ContextRanges(matches, before, after, len)|
               && 0 <= l < |ContextRanges(matches, before, after, len)|
               && InRange(ContextRanges(matches, before, after, len)[k], m)
               && InRange(ContextRanges(matches, before, after, len)[l], m)) ==> k == l
  {
    var ws := Windows(matches, before, after, len);
    var rs := ContextRanges(matches, before, after, len);
    ContextRangesCorrect(matches, before, after, len);
    var j :| 0 <= j < |matches| && matches[j] == m;
    InCovered(ws, m);
    assert InRange(ws[j], m);
    InCovered(rs, m);
  }

  lemma MergeAllSnoc(ws: seq<Range>, i: nat)
    requires i < |ws|
    ensures MergeAll(ws[..i + 1]) == MergeStep(MergeAll(ws[..i]), ws[i])
  {
    assert ws[..i + 1][..i] == ws[..i];
  }

  /** MergeStep in the shape of the loop body: widen the last range, keep it, or push. */
  lemma MergeStepShape(rs: seq<Range>, w: Range)
    ensures MergeStep(rs, w)
         == if rs == [] then [w]
            else if w.start <= rs[|rs| - 1].end + 1 then
              if w.end > rs[|rs| - 1].end then rs[..|rs| - 1] + [Range(rs[|rs| - 1].start, w.end)] else rs
            else rs + [w]
  {
    if rs != [] {
      var n := |rs| - 1;
      assert rs == rs[..n] + [Range(rs[n].start, rs[n].end)];
    }
  }

  /** Lines 61-71: widen the last range in place when the window touches it, else push the window. */
  method AddWindow(ranges: seq<Range>, start: nat, end: nat) returns (ranges': seq<Range>)
    ensures ranges' == MergeStep(ranges, Range(start, end))
  {
    ranges' := ranges;
    if |ranges'| > 0 {
      var last := ranges'[|ranges'| - 1];
      if start <= last.end + 1 {
        if end > last.end {
          ranges' := ranges'[..|ranges'| - 1] + [Range(last.start, end)];
        }
      } else {
        ranges' := ranges' + [Range(start, end)];
      }
    } else {
      ranges' := ranges' + [Range(start, end)];
    }
    MergeStepShape(ranges, Range(start, end));
  }

  /** Lines 55-72: the ranges are built by pushing a window or widening the last range in place. */
  method MergeRanges(matches: seq<nat>, before: nat, after: nat, len: nat) returns (ranges: seq<Range>)
    requires len > 0
    ensures ranges == ContextRanges(matches, before, after, len)
    ensures IsMatchSet(matches, len) ==>
              Canonical(ranges, len) && Covered(ranges) == Covered(Windows(matches, before, after, len))
  {
    ghost var ws := Windows(matches, before, after, len);
    ranges := [];
    var i := 0;
    assert ws[..0] == [];
    while i < |matches|
      invariant 0 <= i <= |matches|
      invariant ranges == MergeAll(ws[..i])
    {
      var idx := matches[i];
      var start := if idx >= before then idx - before else 0;
      var end := if idx + after <= len - 1 then idx + after else len - 1;
      ranges := AddWindow(ranges, start, end);
      assert Range(start, end) == ws[i];
      MergeAllSnoc(ws, i);
      i := i + 1;
    }
    assert ws[..i] == ws;
    if IsMatchSet(matches, len) {
      ContextRangesCorrect(matches, before, after, len);
    }
  }
}
