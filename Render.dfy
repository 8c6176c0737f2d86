/** The result renderer of search_in_file: the merged ranges become output lines.
    Heading mode prints the file name once, `--` between blocks and `N<sep>content`
    per line; no-heading mode prints `file<sep>N<sep>content` per line and nothing
    else. `sep` is ':' on a match line and '-' on a context line. */
module Render {
  import opened Decimal
  import opened Highlight
  import opened Scanner
  import opened Merge

  /** The display settings search_in_file receives. */
  datatype Display = Display(filename: string, withHeading: bool, useColor: bool)

  const Separator: string := "--"

  /** Line 91: ':' marks a match line, '-' a context line. */
  function Sep(isMatch: bool): string {
    if isMatch then ":" else "-"
  }

  /** Lines 93-97: only a match line, and only with colour on, is highlighted. */
  function Content(d: Display, p: Pattern, line: string, isMatch: bool): string {
    if isMatch && d.useColor then HighlightRegex(p, line, true) else line
  }

  /** Lines 88-103: the output line for line index `idx`. */
  function LineOut(d: Display, p: Pattern, lines: seq<string>, matchSet: set<nat>, idx: nat): string
    requires idx < |lines|
  {
    var isMatch := idx in matchSet;
    var sep := Sep(isMatch);
    var content := Content(d, p, lines[idx], isMatch);
    if d.withHeading then NatToString(idx + 1) + sep + content
    else d.filename + sep + NatToString(idx + 1) + sep + content
  }

  /** The output lines for indices lo..hi-1 (the inner loop, lines 87-104). */
  function LinesOut(d: Display, p: Pattern, lines: seq<string>, matchSet: set<nat>, lo: nat, hi: nat): seq<string>
    requires hi <= |lines|
    decreases hi
  {
    if hi <= lo then []
    else LinesOut(d, p, lines, matchSet, lo, hi - 1) + [LineOut(d, p, lines, matchSet, hi - 1)]
  }

  /** `--` before every block but the first, and only in heading mode (lines 83-85). */
  function Gap(d: Display, rangeIdx: nat): seq<string> {
    if d.withHeading && rangeIdx > 0 then [Separator] else []
  }

  /** The blocks of all ranges (the outer loop, lines 81-105). */
  function RangesOut(d: Display, p: Pattern, lines: seq<string>, matchSet: set<nat>, rs: seq<Range>): seq<string>
    requires Bounded(rs, |lines|)
  {
    if rs == [] then []
    else
      var n := |rs| - 1;
      RangesOut(d, p, lines, matchSet, rs[..n]) + Gap(d, n)
        + LinesOut(d, p, lines, matchSet, rs[n].start, rs[n].end + 1)
  }

  /** Lines 74-76: the file name once, in heading mode. */
  function Header(d: Display): seq<string> {
    if d.withHeading then [d.filename] else []
  }

  /** All the output of one file with at least one match. */
  function RenderOut(d: Display, p: Pattern, lines: seq<string>, matchSet: set<nat>, rs: seq<Range>): seq<string>
    requires Bounded(rs, |lines|)
  {
    Header(d) + RangesOut(d, p, lines, matchSet, rs)
  }

  // ---------------------------------------------------------------------------
  // Reference view: the line indices printed, and the line printed for each.

  /** lo, lo+1, ..., hi-1. */
  function IndexRun(lo: nat, hi: nat): seq<nat>
    decreases hi
  {
    if hi <= lo then [] else IndexRun(lo, hi - 1) + [hi - 1]
  }

  /** The line indices of all ranges, range by range. */
  function Indices(rs: seq<Range>): seq<nat> {
    if rs == [] then [] else Indices(rs[..|rs| - 1]) + IndexRun(rs[|rs| - 1].start, rs[|rs| - 1].end + 1)
  }

  predicate AllBelow(ids: seq<nat>, len: nat) {
    forall k :: 0 <= k < |ids| ==> ids[k] < len
  }

  /** The output line of every index in `ids`, in order. */
  function Records(d: Display, p: Pattern, lines: seq<string>, matchSet: set<nat>, ids: seq<nat>): seq<string>
    requires AllBelow(ids, |lines|)
  {
    if ids == [] then []
    else Records(d, p, lines, matchSet, ids[..|ids| - 1]) + [LineOut(d, p, lines, matchSet, ids[|ids| - 1])]
  }

  /** The output without its `--` lines. */
  function DropSeparators(out: seq<string>): seq<string> {
    if out == [] then []
    else DropSeparators(out[..|out| - 1]) + (if out[|out| - 1] == Separator then [] else [out[|out| - 1]])
  }

  /** The reference layout of the printed records of `ids`: in heading mode `--` comes
      right before a record exactly when its index does not follow the previous
      printed index directly, and never otherwise. An index outside the file prints
      nothing (none occurs in the ranges of a file, see IndicesFacts). */
  function Layout(d: Display, p: Pattern, lines: seq<string>, matchSet: set<nat>, ids: seq<nat>): seq<string>
  {
    if ids == [] then []
    else
      var n := |ids| - 1;
      Layout(d, p, lines, matchSet, ids[..n])
        + (if d.withHeading && n > 0 && ids[n - 1] + 1 < ids[n] then [Separator] else [])
        + (if ids[n] < |lines| then [LineOut(d, p, lines, matchSet, ids[n])] else [])
  }

  // ---------------------------------------------------------------------------
  // Lemmas

  lemma {:induction false} IndexRunFacts(lo: nat, hi: nat)
    ensures |IndexRun(lo, hi)| == if hi <= lo then 0 else hi - lo
    ensures forall k :: 0 <= k < |IndexRun(lo, hi)| ==> IndexRun(lo, hi)[k] == lo + k
    decreases hi
  {
    if hi > lo {
      IndexRunFacts(lo, hi - 1);
    }
  }

  lemma IndicesSnoc(rs: seq<Range>)
    requires rs != []
    ensures Indices(rs) == Indices(rs[..|rs| - 1]) + IndexRun(rs[|rs| - 1].start, rs[|rs| - 1].end + 1)
  {
  }

  lemma CanonicalPrefix(rs: seq<Range>, len: nat)
    requires Canonical(rs, len) && rs != []
    ensures Canonical(rs[..|rs| - 1], len)
  {
  }

  lemma {:induction false} IndicesBelow(rs: seq<Range>, len: nat)
    requires Canonical(rs, len)
    ensures AllBelow(Indices(rs), len)
    ensures rs != [] ==> forall k :: 0 <= k < |Indices(rs)| ==> Indices(rs)[k] <= rs[|rs| - 1].end
  {
    if rs != [] {
      var n := |rs| - 1;
      var r := rs[n];
      CanonicalPrefix(rs, len);
      IndicesBelow(rs[..n], len);
      IndexRunFacts(r.start, r.end + 1);
      IndicesSnoc(rs);
      if n > 0 {
        assert rs[..n][n - 1] == rs[n - 1];
      }
    }
  }

  lemma {:induction false} IndicesIncreasing(rs: seq<Range>, len: nat)
    requires Canonical(rs, len)
    ensures StrictlyIncreasing(Indices(rs))
  {
    if rs != [] {
      var n := |rs| - 1;
      var r := rs[n];
      CanonicalPrefix(rs, len);
      IndicesIncreasing(rs[..n], len);
      IndicesBelow(rs[..n], len);
      IndexRunFacts(r.start, r.end + 1);
      IndicesSnoc(rs);
      var a := Indices(rs[..n]);
      if n > 0 {
        assert rs[..n][n - 1] == rs[n - 1];
        assert forall k :: 0 <= k < |a| ==> a[k] < r.start;
      }
    }
  }

  lemma {:induction false} IndicesCovered(rs: seq<Range>)
    ensures forall i: nat :: i in Indices(rs) <==> i in Covered(rs)
  {
    if rs != [] {
      var n := |rs| - 1;
      var r := rs[n];
      IndicesCovered(rs[..n]);
      IndexRunFacts(r.start, r.end + 1);
      IndicesSnoc(rs);
      var b := IndexRun(r.start, r.end + 1);
      forall i: nat ensures i in b <==> i in Span(r) {
        if i in Span(r) { assert b[i - r.start] == i; }
      }
    }
  }

  lemma IndicesFacts(rs: seq<Range>, len: nat)
    requires Canonical(rs, len)
    ensures AllBelow(Indices(rs), len)
    ensures StrictlyIncreasing(Indices(rs))
    ensures forall i: nat :: i in Indices(rs) <==> i in Covered(rs)
  {
    IndicesBelow(rs, len);
    IndicesIncreasing(rs, len);
    IndicesCovered(rs);
  }

  lemma RecordsAppend(d: Display, p: Pattern, lines: seq<string>, matchSet: set<nat>, a: seq<nat>, b: seq<nat>)
    requires AllBelow(a, |lines|) && AllBelow(b, |lines|)
    ensures AllBelow(a + b, |lines|)
    ensures Records(d, p, lines, matchSet, a + b) == Records(d, p, lines, matchSet, a) + Records(d, p, lines, matchSet, b)
    decreases |b|
  {
    if b != [] {
      var n := |b| - 1;
      assert (a + b)[..|a + b| - 1] == a + b[..n];
      RecordsAppend(d, p, lines, matchSet, a, b[..n]);
    } else {
      assert a + b == a;
    }
  }

  lemma {:induction false} LinesOutAsRecords(d: Display, p: Pattern, lines: seq<string>, matchSet: set<nat>, lo: nat, hi: nat)
    requires hi <= |lines|
    ensures AllBelow(IndexRun(lo, hi), |lines|)
    ensures LinesOut(d, p, lines, matchSet, lo, hi) == Records(d, p, lines, matchSet, IndexRun(lo, hi))
    decreases hi
  {
    IndexRunFacts(lo, hi);
    if hi > lo {
      LinesOutAsRecords(d, p, lines, matchSet, lo, hi - 1);
      var run := IndexRun(lo, hi);
      assert run[..|run| - 1] == IndexRun(lo, hi - 1);
      RecordsSnoc(d, p, lines, matchSet, run);
    }
  }

  lemma RecordsSnoc(d: Display, p: Pattern, lines: seq<string>, matchSet: set<nat>, ids: seq<nat>)
    requires AllBelow(ids, |lines|) && ids != []
    ensures AllBelow(ids[..|ids| - 1], |lines|)
    ensures Records(d, p, lines, matchSet, ids)
         == Records(d, p, lines, matchSet, ids[..|ids| - 1]) + [LineOut(d, p, lines, matchSet, ids[|ids| - 1])]
  {
  }

  /** No printed line is a `--` separator: it starts with a digit in heading mode and
      holds at least three characters in no-heading mode. */
  lemma LineIsNotSeparator(d: Display, p: Pattern, lines: seq<string>, matchSet: set<nat>, idx: nat)
    requires idx < |lines|
    ensures LineOut(d, p, lines, matchSet, idx) != Separator
  {
    var num := NatToString(idx + 1);
    if d.withHeading {
      assert LineOut(d, p, lines, matchSet, idx)[0] == num[0];
      assert IsDigit(num[0]);
    }
  }

  lemma {:induction false} RecordsHaveNoSeparator(d: Display, p: Pattern, lines: seq<string>, matchSet: set<nat>, ids: seq<nat>)
    requires AllBelow(ids, |lines|)
    ensures DropSeparators(Records(d, p, lines, matchSet, ids)) == Records(d, p, lines, matchSet, ids)
    ensures multiset(Records(d, p, lines, matchSet, ids))[Separator] == 0
  {
    if ids != [] {
      var n := |ids| - 1;
      var out := Records(d, p, lines, matchSet, ids);
      RecordsHaveNoSeparator(d, p, lines, matchSet, ids[..n]);
      LineIsNotSeparator(d, p, lines, matchSet, ids[n]);
      assert out[..|out| - 1] == Records(d, p, lines, matchSet, ids[..n]);
    }
  }

  lemma DropSeparatorsAppend(a: seq<string>, b: seq<string>)
    ensures DropSeparators(a + b) == DropSeparators(a) + DropSeparators(b)
    decreases |b|
  {
    if b != [] {
      var n := |b| - 1;
      assert (a + b)[..|a + b| - 1] == a + b[..n];
      DropSeparatorsAppend(a, b[..n]);
    } else {
      assert a + b == a;
    }
  }

  /** The blocks, with their separators removed, are the records of every covered
      index in order; in no-heading mode there are no separators to remove. */
  lemma {:induction false} RangesOutRecords(d: Display, p: Pattern, lines: seq<string>, matchSet: set<nat>, rs: seq<Range>)
    requires Bounded(rs, |lines|)
    ensures AllBelow(Indices(rs), |lines|)
    ensures DropSeparators(RangesOut(d, p, lines, matchSet, rs)) == Records(d, p, lines, matchSet, Indices(rs))
    ensures !d.withHeading ==> RangesOut(d, p, lines, matchSet, rs) == Records(d, p, lines, matchSet, Indices(rs))
  {
    if rs != [] {
      var n := |rs| - 1;
      var r := rs[n];
      RangesOutUnfold(d, p, lines, matchSet, rs);
      RangesOutRecords(d, p, lines, matchSet, rs[..n]);
      var prev := Indices(rs[..n]);
      var run := IndexRun(r.start, r.end + 1);
      IndicesSnoc(rs);
      RecordsAppend(d, p, lines, matchSet, prev, run);
      RecordsHaveNoSeparator(d, p, lines, matchSet, run);
      var before := RangesOut(d, p, lines, matchSet, rs[..n]);
      var block := Records(d, p, lines, matchSet, run);
      DropAroundGap(before, Gap(d, n), block);
    }
  }

  /** A gap holds no printed record, so dropping separators removes it whole. */
  lemma DropAroundGap(before: seq<string>, gap: seq<string>, block: seq<string>)
    requires gap == [] || gap == [Separator]
    ensures DropSeparators(before + gap + block) == DropSeparators(before) + DropSeparators(block)
    ensures gap == [] ==> before + gap + block == before + block
  {
    DropSeparatorsAppend(before + gap, block);
    DropSeparatorsAppend(before, gap);
    if gap == [] {
      assert before + gap == before;
    } else {
      assert gap[..0] == [];
    }
  }

  /** `--` occurs once before every range but the first, in heading mode only. */
  lemma {:induction false} RangesOutSeparators(d: Display, p: Pattern, lines: seq<string>, matchSet: set<nat>, rs: seq<Range>)
    requires Bounded(rs, |lines|)
    ensures multiset(RangesOut(d, p, lines, matchSet, rs))[Separator]
              == if d.withHeading && rs != [] then |rs| - 1 else 0
  {
    if rs != [] {
      var n := |rs| - 1;
      var r := rs[n];
      RangesOutUnfold(d, p, lines, matchSet, rs);
      RangesOutSeparators(d, p, lines, matchSet, rs[..n]);
      RecordsHaveNoSeparator(d, p, lines, matchSet, IndexRun(r.start, r.end + 1));
      assert n == 0 ==> rs[..n] == [];
    }
  }

  /** `--` before a block that follows printed indices `a`, in heading mode. */
  function Lead(d: Display, a: seq<nat>): seq<string> {
    if d.withHeading && a != [] then [Separator] else []
  }

  /** Laying out a run of consecutive indices after indices that end at least two
      below it: `--` in front (in heading mode, and only after something), then the
      run's block with nothing inside it. */
  lemma {:induction false} LayoutRun(d: Display, p: Pattern, lines: seq<string>, matchSet: set<nat>,
                                     a: seq<nat>, lo: nat, hi: nat)
    requires lo < hi <= |lines|
    requires a != [] ==> a[|a| - 1] + 1 < lo
    ensures Layout(d, p, lines, matchSet, a + IndexRun(lo, hi))
         == Layout(d, p, lines, matchSet, a) + Lead(d, a)
            + LinesOut(d, p, lines, matchSet, lo, hi)
    decreases hi, 1
  {
    if hi == lo + 1 {
      LayoutRunFirst(d, p, lines, matchSet, a, lo, hi);
    } else {
      LayoutRunNext(d, p, lines, matchSet, a, lo, hi);
    }
  }

  /** The base case of LayoutRun: a run of one index. */
  lemma LayoutRunFirst(d: Display, p: Pattern, lines: seq<string>, matchSet: set<nat>, a: seq<nat>, lo: nat, hi: nat)
    requires hi == lo + 1 && hi <= |lines|
    requires a != [] ==> a[|a| - 1] + 1 < lo
    ensures Layout(d, p, lines, matchSet, a + IndexRun(lo, hi))
         == Layout(d, p, lines, matchSet, a) + Lead(d, a)
            + LinesOut(d, p, lines, matchSet, lo, hi)
  {
    IndexRunOne(lo);
    LayoutFirstOfRun(d, p, lines, matchSet, a, lo);
    assert LinesOut(d, p, lines, matchSet, lo, hi) == [LineOut(d, p, lines, matchSet, lo)];
  }

  /** The step of LayoutRun: the run grows by the index after it. */
  lemma {:induction false} LayoutRunNext(d: Display, p: Pattern, lines: seq<string>, matchSet: set<nat>,
                                         a: seq<nat>, lo: nat, hi: nat)
    requires lo + 1 < hi <= |lines|
    requires a != [] ==> a[|a| - 1] + 1 < lo
    ensures Layout(d, p, lines, matchSet, a + IndexRun(lo, hi))
         == Layout(d, p, lines, matchSet, a) + Lead(d, a)
            + LinesOut(d, p, lines, matchSet, lo, hi)
    decreases hi, 0
  {
    LayoutRun(d, p, lines, matchSet, a, lo, hi - 1);
    LayoutRunExtend(d, p, lines, matchSet, a, lo, hi);
    var last := LineOut(d, p, lines, matchSet, hi - 1);
    assert LinesOut(d, p, lines, matchSet, lo, hi) == LinesOut(d, p, lines, matchSet, lo, hi - 1) + [last];
    Assoc3(Layout(d, p, lines, matchSet, a) + Lead(d, a), LinesOut(d, p, lines, matchSet, lo, hi - 1), [last]);
  }

  /** The last index of a run of two or more follows the one before it directly. */
  lemma LayoutRunExtend(d: Display, p: Pattern, lines: seq<string>, matchSet: set<nat>, a: seq<nat>, lo: nat, hi: nat)
    requires lo + 1 < hi <= |lines|
    ensures Layout(d, p, lines, matchSet, a + IndexRun(lo, hi))
         == Layout(d, p, lines, matchSet, a + IndexRun(lo, hi - 1)) + [LineOut(d, p, lines, matchSet, hi - 1)]
  {
    IndexRunSnoc(lo, hi);
    IndexRunSnoc(lo, hi - 1);
    LayoutExtend(d, p, lines, matchSet, a, IndexRun(lo, hi - 1), hi - 1);
  }

  lemma IndexRunOne(lo: nat)
    ensures IndexRun(lo, lo + 1) == [lo]
  {
    assert IndexRun(lo, lo) == [];
  }

  lemma IndexRunSnoc(lo: nat, hi: nat)
    requires lo < hi
    ensures IndexRun(lo, hi) == IndexRun(lo, hi - 1) + [hi - 1]
    ensures IndexRun(lo, hi) != [] && IndexRun(lo, hi)[|IndexRun(lo, hi)| - 1] == hi - 1
  {
  }

  /** An index right after the last one gets no `--`. */
  lemma LayoutExtend(d: Display, p: Pattern, lines: seq<string>, matchSet: set<nat>, a: seq<nat>, front: seq<nat>, i: nat)
    requires i < |lines| && front != [] && front[|front| - 1] + 1 == i
    ensures Layout(d, p, lines, matchSet, a + (front + [i]))
         == Layout(d, p, lines, matchSet, a + front) + [LineOut(d, p, lines, matchSet, i)]
  {
    var ids := a + (front + [i]);
    assert ids[..|ids| - 1] == a + front;
    assert ids[|ids| - 2] == front[|front| - 1];
  }

  /** The first index of a run, two or more past the indices before it. */
  lemma LayoutFirstOfRun(d: Display, p: Pattern, lines: seq<string>, matchSet: set<nat>, a: seq<nat>, lo: nat)
    requires lo < |lines|
    requires a != [] ==> a[|a| - 1] + 1 < lo
    ensures Layout(d, p, lines, matchSet, a + [lo])
         == Layout(d, p, lines, matchSet, a) + Lead(d, a)
            + [LineOut(d, p, lines, matchSet, lo)]
  {
    var ids := a + [lo];
    assert ids[..|ids| - 1] == a;
    if a != [] {
      assert ids[|ids| - 2] == a[|a| - 1];
    }
  }

  lemma Assoc3(x: seq<string>, y: seq<string>, z: seq<string>)
    ensures x + y + z == x + (y + z)
  {
  }

  /** In place: the blocks of canonical ranges, with their `--` lines, are exactly the
      reference layout of the printed indices, so `--` stands between two printed
      records exactly when their indices are not consecutive. */
  lemma {:induction false} RangesOutLayout(d: Display, p: Pattern, lines: seq<string>, matchSet: set<nat>, rs: seq<Range>)
    requires Canonical(rs, |lines|)
    ensures RangesOut(d, p, lines, matchSet, rs) == Layout(d, p, lines, matchSet, Indices(rs))
  {
    if rs != [] {
      CanonicalPrefix(rs, |lines|);
      RangesOutLayout(d, p, lines, matchSet, rs[..|rs| - 1]);
      RangesOutLayoutStep(d, p, lines, matchSet, rs);
    }
  }

  /** One range more: its block, after `--` when it is not the first. */
  lemma RangesOutLayoutStep(d: Display, p: Pattern, lines: seq<string>, matchSet: set<nat>, rs: seq<Range>)
    requires Canonical(rs, |lines|) && rs != [] && Canonical(rs[..|rs| - 1], |lines|)
    requires RangesOut(d, p, lines, matchSet, rs[..|rs| - 1]) == Layout(d, p, lines, matchSet, Indices(rs[..|rs| - 1]))
    ensures RangesOut(d, p, lines, matchSet, rs) == Layout(d, p, lines, matchSet, Indices(rs))
  {
    var n := |rs| - 1;
    var r := rs[n];
    IndicesSnoc(rs);
    var prev := Indices(rs[..n]);
    IndicesBeforeLast(rs, |lines|);
    LayoutRun(d, p, lines, matchSet, prev, r.start, r.end + 1);
    assert Gap(d, n) == Lead(d, prev);
    RangesOutUnfold(d, p, lines, matchSet, rs);
  }

  /** The blocks of a non-empty range list are those of all ranges but the last, then
      the last one's gap and block; this is the one unfolding every proof here uses. */
  lemma RangesOutUnfold(d: Display, p: Pattern, lines: seq<string>, matchSet: set<nat>, rs: seq<Range>)
    requires Bounded(rs, |lines|) && rs != []
    ensures Bounded(rs[..|rs| - 1], |lines|)
    ensures RangesOut(d, p, lines, matchSet, rs)
         == RangesOut(d, p, lines, matchSet, rs[..|rs| - 1]) + Gap(d, |rs| - 1)
            + LinesOut(d, p, lines, matchSet, rs[|rs| - 1].start, rs[|rs| - 1].end + 1)
    ensures AllBelow(IndexRun(rs[|rs| - 1].start, rs[|rs| - 1].end + 1), |lines|)
    ensures LinesOut(d, p, lines, matchSet, rs[|rs| - 1].start, rs[|rs| - 1].end + 1)
         == Records(d, p, lines, matchSet, IndexRun(rs[|rs| - 1].start, rs[|rs| - 1].end + 1))
  {
    var r := rs[|rs| - 1];
    LinesOutAsRecords(d, p, lines, matchSet, r.start, r.end + 1);
  }

  /** The indices printed before the last range end at least two lines before it, and
      there are some exactly when it is not the first range. */
  lemma IndicesBeforeLast(rs: seq<Range>, len: nat)
    requires Canonical(rs, len) && rs != []
    ensures var prev := Indices(rs[..|rs| - 1]);
            (prev != [] <==> |rs| > 1) && (prev != [] ==> prev[|prev| - 1] + 1 < rs[|rs| - 1].start)
  {
    var n := |rs| - 1;
    if n > 0 {
      IndicesLast(rs[..n], len);
      assert rs[..n][n - 1] == rs[n - 1];
    } else {
      assert rs[..n] == [];
    }
  }

  /** The last printed index of non-empty ranges is the end of the last range. */
  lemma IndicesLast(rs: seq<Range>, len: nat)
    requires Bounded(rs, len) && rs != []
    ensures Indices(rs) != [] && Indices(rs)[|Indices(rs)| - 1] == rs[|rs| - 1].end
  {
    var r := rs[|rs| - 1];
    IndicesSnoc(rs);
    IndexRunSnoc(r.start, r.end + 1);
  }

  /** A file with at least one range prints something. */
  lemma RenderNonEmpty(d: Display, p: Pattern, lines: seq<string>, matchSet: set<nat>, rs: seq<Range>)
    requires Bounded(rs, |lines|) && rs != []
    ensures RenderOut(d, p, lines, matchSet, rs) != []
  {
    var r := rs[|rs| - 1];
    assert LinesOut(d, p, lines, matchSet, r.start, r.end + 1) != [];
  }

  /** A printed record read back: the leading number, the separator after it, the rest. */
  datatype Record = Record(number: nat, sep: char, content: string)

  function LeadingDigits(s: string): (n: nat)
    ensures n <= |s| && AllDigits(s[..n]) && (n < |s| ==> !IsDigit(s[n]))
  {
    if s == [] || !IsDigit(s[0]) then 0
    else
      var n := 1 + LeadingDigits(s[1..]);
      assert s[..n] == [s[0]] + s[1..][..n - 1];
      n
  }

  /** Reads `N<sep>content` back: the partner of the heading-mode line format. */
  function ParseRecord(s: string): Option<Record> {
    var n := LeadingDigits(s);
    if n == 0 || n == |s| then None else Some(Record(DigitsValue(s[..n]), s[n], s[n + 1..]))
  }

  lemma {:induction false} LeadingDigitsOfNumber(digits: string, rest: string)
    requires AllDigits(digits)
    requires rest == [] || !IsDigit(rest[0])
    ensures LeadingDigits(digits + rest) == |digits|
  {
    if digits != [] {
      assert (digits + rest)[1..] == digits[1..] + rest;
      LeadingDigitsOfNumber(digits[1..], rest);
    } else {
      assert digits + rest == rest;
    }
  }

  lemma ParseFormatted(m: nat, sep: char, content: string)
    requires !IsDigit(sep)
    ensures ParseRecord(NatToString(m) + [sep] + content) == Some(Record(m, sep, content))
  {
    var num := NatToString(m);
    var s := num + [sep] + content;
    assert s == num + ([sep] + content);
    LeadingDigitsOfNumber(num, [sep] + content);
    assert s[..|num|] == num;
    assert s[|num| + 1..] == content;
    DigitsValueOfNatToString(m);
  }

  /** Every printed line reads back as the 1-based line number, ':' exactly on a match
      line and '-' otherwise, then the content. */
  lemma HeadingLineFormat(d: Display, p: Pattern, lines: seq<string>, matchSet: set<nat>, idx: nat)
    requires idx < |lines| && d.withHeading
    ensures ParseRecord(LineOut(d, p, lines, matchSet, idx))
         == Some(Record(idx + 1, if idx in matchSet then ':' else '-', Content(d, p, lines[idx], idx in matchSet)))
  {
    var isMatch := idx in matchSet;
    var sep := if isMatch then ':' else '-';
    var content := Content(d, p, lines[idx], isMatch);
    assert LineOut(d, p, lines, matchSet, idx) == NatToString(idx + 1) + [sep] + content;
    ParseFormatted(idx + 1, sep, content);
  }

  /** In no-heading mode a line is the file name, the separator, and then the same
      record as in heading mode, with the same separator. */
  lemma FlatLineFormat(d: Display, p: Pattern, lines: seq<string>, matchSet: set<nat>, idx: nat)
    requires idx < |lines| && !d.withHeading
    ensures var out := LineOut(d, p, lines, matchSet, idx);
            var n := |d.filename|;
            |out| > n + 1 && out[..n] == d.filename
            && out[n] == (if idx in matchSet then ':' else '-')
            && ParseRecord(out[n + 1..])
               == Some(Record(idx + 1, if idx in matchSet then ':' else '-', Content(d, p, lines[idx], idx in matchSet)))
  {
    var isMatch := idx in matchSet;
    var sep := if isMatch then ':' else '-';
    var content := Content(d, p, lines[idx], isMatch);
    var num := NatToString(idx + 1);
    var rest := num + [sep] + content;
    var out := LineOut(d, p, lines, matchSet, idx);
    assert out == d.filename + ([sep] + rest);
    assert out[|d.filename|] == sep;
    assert out[..|d.filename|] == d.filename;
    assert out[|d.filename| + 1..] == rest;
    ParseFormatted(idx + 1, sep, content);
  }

  /** A printed content differs from the line only on a match line with colour on,
      and even then only by inserted escapes. */
  lemma ContentFaithful(d: Display, p: Pattern, line: string, isMatch: bool)
    ensures Content(d, p, line, isMatch) != line ==> isMatch && d.useColor
    ensures (SplitsLine(p, line) && NoEscape(line))
              ==> Strip(Content(d, p, line, isMatch)) == line
  {
    if SplitsLine(p, line) && NoEscape(line) {
      HighlightPreservesText(p, line, isMatch && d.useColor);
    }
  }

  /** The whole output for canonical ranges: the header once and first, `--` exactly
      |rs| - 1 times in heading mode and never otherwise, every covered line index
      printed exactly once, in increasing order, and `--` exactly between two printed
      records whose indices are not consecutive (the reference Layout). */
  lemma RenderCorrect(d: Display, p: Pattern, lines: seq<string>, matchSet: set<nat>, rs: seq<Range>)
    requires Canonical(rs, |lines|) && rs != []
    ensures var out := RenderOut(d, p, lines, matchSet, rs);
            AllBelow(Indices(rs), |lines|)
            && StrictlyIncreasing(Indices(rs))
            && (forall i: nat :: i in Indices(rs) <==> i in Covered(rs))
            && out == Header(d) + Layout(d, p, lines, matchSet, Indices(rs))
            && (d.withHeading ==>
                  out[0] == d.filename
                  && multiset(out[1..])[Separator] == |rs| - 1
                  && DropSeparators(out[1..]) == Records(d, p, lines, matchSet, Indices(rs)))
            && (!d.withHeading ==>
                  multiset(out)[Separator] == 0
                  && out == Records(d, p, lines, matchSet, Indices(rs)))
  {
    IndicesFacts(rs, |lines|);
    RangesOutRecords(d, p, lines, matchSet, rs);
    RangesOutSeparators(d, p, lines, matchSet, rs);
    RangesOutLayout(d, p, lines, matchSet, rs);
    var out := RenderOut(d, p, lines, matchSet, rs);
    if d.withHeading {
      assert out[1..] == RangesOut(d, p, lines, matchSet, rs);
    } else {
      assert out == RangesOut(d, p, lines, matchSet, rs);
    }
  }

  /** One turn of the outer loop extends the output by the gap and block of range `i`. */
  lemma RenderStep(d: Display, p: Pattern, lines: seq<string>, matchSet: set<nat>, rs: seq<Range>, i: nat,
                   header: seq<string>)
    requires Bounded(rs, |lines|) && i < |rs|
    ensures Bounded(rs[..i], |lines|) && Bounded(rs[..i + 1], |lines|)
    ensures header + RangesOut(d, p, lines, matchSet, rs[..i]) + Gap(d, i)
            + LinesOut(d, p, lines, matchSet, rs[i].start, rs[i].end + 1)
         == header + RangesOut(d, p, lines, matchSet, rs[..i + 1])
  {
    assert rs[..i + 1][..i] == rs[..i];
    RangesOutUnfold(d, p, lines, matchSet, rs[..i + 1]);
    var done := RangesOut(d, p, lines, matchSet, rs[..i]);
    var g := Gap(d, i);
    var b := LinesOut(d, p, lines, matchSet, rs[i].start, rs[i].end + 1);
    Assoc(header, done, g, b);
  }

  lemma Assoc(h: seq<string>, r: seq<string>, g: seq<string>, b: seq<string>)
    ensures h + r + g + b == h + (r + g + b)
  {
  }

  /** Lines 87-104: one output line per index of the range, in order. */
  method RenderBlock(d: Display, p: Pattern, lines: seq<string>, matchSet: set<nat>, r: Range)
    returns (block: seq<string>)
    requires r.start <= r.end < |lines|
    ensures block == LinesOut(d, p, lines, matchSet, r.start, r.end + 1)
  {
    block := [];
    var lineIdx := r.start;
    while lineIdx <= r.end
      invariant r.start <= lineIdx <= r.end + 1
      invariant block == LinesOut(d, p, lines, matchSet, r.start, lineIdx)
    {
      var isMatch := lineIdx in matchSet;
      var sep := Sep(isMatch);
      var outLine := if isMatch && d.useColor then HighlightRegex(p, lines[lineIdx], true) else lines[lineIdx];
      var printed := if d.withHeading then NatToString(lineIdx + 1) + sep + outLine
                     else d.filename + sep + NatToString(lineIdx + 1) + sep + outLine;
      block := block + [printed];
      lineIdx := lineIdx + 1;
    }
  }

  /** Lines 83-85: `--` goes out before every block but the first, in heading mode. */
  method PrintSeparator(d: Display, rangeIdx: nat, out: seq<string>) returns (out': seq<string>)
    ensures out' == out + Gap(d, rangeIdx)
  {
    out' := out;
    if d.withHeading && rangeIdx > 0 {
      out' := out' + [Separator];
    } else {
      assert out' == out' + [];
    }
  }

  /** Lines 74-105: the header, then per range an optional `--` and its block. */
  method RenderRanges(d: Display, p: Pattern, lines: seq<string>, matchSet: set<nat>, ranges: seq<Range>)
    returns (out: seq<string>)
    requires Bounded(ranges, |lines|)
    ensures out == RenderOut(d, p, lines, matchSet, ranges)
  {
    out := [];
    if d.withHeading {
      out := out + [d.filename];
    }
    var rangeIdx := 0;
    assert ranges[..0] == [];
    while rangeIdx < |ranges|
      invariant 0 <= rangeIdx <= |ranges|
      invariant out == Header(d) + RangesOut(d, p, lines, matchSet, ranges[..rangeIdx])
    {
      var r := ranges[rangeIdx];
      out := PrintSeparator(d, rangeIdx, out);
      var block := RenderBlock(d, p, lines, matchSet, r);
      out := out + block;
      RenderStep(d, p, lines, matchSet, ranges, rangeIdx, Header(d));
      rangeIdx := rangeIdx + 1;
    }
    assert ranges[..rangeIdx] == ranges;
  }
}
