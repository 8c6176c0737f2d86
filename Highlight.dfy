/** The compiled pattern as the search engine sees it, and `highlight_regex`:
    every matched substring of a line is wrapped in a red ANSI escape and a reset. */
module Highlight {

  /** One piece of a line as the regex engine splits it: text between matches, or a match. */
  datatype Piece = Plain(text: string) | Hit(text: string)

  /** The regex engine is not modelled. A pattern is its two observable capabilities:
      `isMatch` (`Regex::is_match`) and `split`, the partition of a line into the
      non-overlapping matches `replace_all` visits and the text between them. */
  datatype Pattern = Pattern(isMatch: string -> bool, split: string -> seq<Piece>)

  const Red: string := "\U{1b}[31m"
  const Reset: string := "\U{1b}[0m"

  /** The text of the pieces put back together. */
  function Joined(pieces: seq<Piece>): string {
    if pieces == [] then "" else pieces[0].text + Joined(pieces[1..])
  }

  /** A pattern's split of `line` is faithful when its pieces put together give the line. */
  predicate SplitsLine(p: Pattern, line: string) {
    Joined(p.split(line)) == line
  }

  function HitCount(pieces: seq<Piece>): nat {
    if pieces == [] then 0 else (if pieces[0].Hit? then 1 else 0) + HitCount(pieces[1..])
  }

  /** The `replace_all` closure: every match becomes Red + match + Reset. */
  function Colorize(pieces: seq<Piece>): string {
    if pieces == [] then ""
    else
      (match pieces[0]
       case Plain(t) => t
       case Hit(t) => Red + t + Reset)
      + Colorize(pieces[1..])
  }

  /** highlight_regex(line, re, use_color). */
  function HighlightRegex(p: Pattern, line: string, useColor: bool): (r: string)
    ensures !useColor ==> r == line
  {
    if useColor then Colorize(p.split(line)) else line
  }

  /** Colouring adds exactly one escape pair per match. */
  lemma HighlightLength(p: Pattern, line: string, useColor: bool)
    requires SplitsLine(p, line)
    ensures |HighlightRegex(p, line, useColor)|
         == |line| + (if useColor then (|Red| + |Reset|) * HitCount(p.split(line)) else 0)
  {
    LengthOfColorize(p.split(line));
  }

  lemma {:induction false} LengthOfColorize(pieces: seq<Piece>)
    ensures |Colorize(pieces)| == |Joined(pieces)| + (|Red| + |Reset|) * HitCount(pieces)
  {
    if pieces != [] {
      LengthOfColorize(pieces[1..]);
    }
  }

  predicate NoEscape(s: string) {
    forall i :: 0 <= i < |s| ==> s[i] != '\U{1b}'
  }

  predicate StartsWith(s: string, prefix: string) {
    |prefix| <= |s| && s[..|prefix|] == prefix
  }

  /** Removes every Red and Reset escape: the partner of Colorize. */
  function Strip(s: string): string
    decreases |s|
  {
    if s == [] then ""
    else if StartsWith(s, Red) then Strip(s[|Red|..])
    else if StartsWith(s, Reset) then Strip(s[|Reset|..])
    else [s[0]] + Strip(s[1..])
  }

  /** A first character that is not ESC is kept. */
  lemma StripPlainHead(s: string)
    requires s != [] && s[0] != '\U{1b}'
    ensures Strip(s) == [s[0]] + Strip(s[1..])
  {
    assert !StartsWith(s, Red) by {
      if |Red| <= |s| { assert s[..|Red|][0] == s[0] != Red[0]; }
    }
    assert !StartsWith(s, Reset) by {
      if |Reset| <= |s| { assert s[..|Reset|][0] == s[0] != Reset[0]; }
    }
  }

  lemma {:induction false} StripPlainPrefix(t: string, rest: string)
    requires NoEscape(t)
    ensures Strip(t + rest) == t + Strip(rest)
  {
    if t != [] {
      var s := t + rest;
      assert s[0] == t[0];
      assert s[1..] == t[1..] + rest;
      StripPlainHead(s);
      assert NoEscape(t[1..]);
      StripPlainPrefix(t[1..], rest);
      assert [t[0]] + (t[1..] + Strip(rest)) == t + Strip(rest);
    } else {
      assert t + rest == rest;
    }
  }

  lemma StripRed(rest: string)
    ensures Strip(Red + rest) == Strip(rest)
  {
    assert StartsWith(Red + rest, Red);
    assert (Red + rest)[|Red|..] == rest;
  }

  lemma StripReset(rest: string)
    ensures Strip(Reset + rest) == Strip(rest)
  {
    var s := Reset + rest;
    assert !StartsWith(s, Red) by {
      if |Red| <= |s| { assert s[..|Red|][2] != Red[2]; }
    }
    assert StartsWith(s, Reset);
    assert s[|Reset|..] == rest;
  }

  predicate PiecesNoEscape(pieces: seq<Piece>) {
    forall i :: 0 <= i < |pieces| ==> NoEscape(pieces[i].text)
  }

  /** Taking the escapes out of a highlighted line gives back the original text. */
  lemma {:induction false} StripColorize(pieces: seq<Piece>)
    requires PiecesNoEscape(pieces)
    ensures Strip(Colorize(pieces)) == Joined(pieces)
  {
    if pieces != [] {
      var rest := Colorize(pieces[1..]);
      assert PiecesNoEscape(pieces[1..]) by {
        forall i | 0 <= i < |pieces[1..]| ensures NoEscape(pieces[1..][i].text) {
          assert pieces[1..][i] == pieces[i + 1];
        }
      }
      StripColorize(pieces[1..]);
      assert NoEscape(pieces[0].text);
      match pieces[0]
      case Plain(t) =>
        StripPlainPrefix(t, rest);
      case Hit(t) =>
        calc {
          Strip(Red + t + Reset + rest);
          { assert Red + t + Reset + rest == Red + (t + (Reset + rest)); StripRed(t + (Reset + rest)); }
          Strip(t + (Reset + rest));
          { StripPlainPrefix(t, Reset + rest); }
          t + Strip(Reset + rest);
          { StripReset(rest); }
          t + Strip(rest);
        }
    }
  }

  /** The pieces of an escape-free text are escape-free. */
  lemma {:induction false} JoinedNoEscape(pieces: seq<Piece>)
    requires NoEscape(Joined(pieces))
    ensures PiecesNoEscape(pieces)
  {
    if pieces != [] {
      var t, j := pieces[0].text, Joined(pieces[1..]);
      assert NoEscape(t) by {
        forall i | 0 <= i < |t| ensures t[i] != '\U{1b}' {
          assert (t + j)[i] == t[i];
        }
      }
      assert NoEscape(j) by {
        forall i | 0 <= i < |j| ensures j[i] != '\U{1b}' {
          assert (t + j)[|t| + i] == j[i];
        }
      }
      JoinedNoEscape(pieces[1..]);
      forall i | 0 <= i < |pieces| ensures NoEscape(pieces[i].text) {
        if i > 0 {
          assert pieces[i] == pieces[1..][i - 1];
        }
      }
    }
  }

  /** Colouring changes a line only by inserting escapes: stripping them restores it. */
  lemma HighlightPreservesText(p: Pattern, line: string, useColor: bool)
    requires SplitsLine(p, line) && NoEscape(line)
    ensures Strip(HighlightRegex(p, line, useColor)) == line
  {
    if useColor {
      JoinedNoEscape(p.split(line));
      StripColorize(p.split(line));
    } else {
      StripNoEscape(line);
    }
  }

  lemma StripNoEscape(s: string)
    requires NoEscape(s)
    ensures Strip(s) == s
  {
    StripPlainPrefix(s, "");
    assert s + "" == s;
  }

  /** Pieces without a match colour to their plain text. */
  lemma {:induction false} ColorizeWithoutHits(pieces: seq<Piece>)
    requires HitCount(pieces) == 0
    ensures Colorize(pieces) == Joined(pieces)
  {
    if pieces != [] {
      ColorizeWithoutHits(pieces[1..]);
    }
  }

  /** So a line in which nothing matches is unchanged by highlighting, colour on or off. */
  lemma HighlightWithoutHits(p: Pattern, line: string, useColor: bool)
    requires SplitsLine(p, line) && HitCount(p.split(line)) == 0
    ensures HighlightRegex(p, line, useColor) == line
  {
    ColorizeWithoutHits(p.split(line));
  }
}
