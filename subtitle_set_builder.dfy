/**
 * One subtitle block, cut into its raw lines: the index line, the timing
 * line and the text lines, each trimmed of surrounding whitespace and not
 * yet parsed. Also the parsed record shapes a subtitle file is meant to
 * become.
 */
module SubtitleSetBuilder {
  import opened Wrappers
  import opened Text
  import SrtIndices
  import Timings

  /** One parsed subtitle block. */
  datatype SubtitleUnit = SubtitleUnit(index: SrtIndices.U32, timing: Timings.Timing, lines: seq<string>)

  /** A whole subtitle file, block by block. */
  datatype SubtitleSet = SubtitleSet(units: seq<SubtitleUnit>)

  /** One block's lines before any of them is parsed. */
  datatype RawSubtitleUnit = RawSubtitleUnit(rawIndex: string, rawTiming: string, rawLines: seq<string>)

  const EmptyUnitMessage: string := "RawSubtitleUnit cannot be empty"
  const BlankLineMessage: string := "RawSubtitleUnit cannot contain empty newline"

  const LineBreak: string := "\n"
  const BlankLine: string := "\n\n"

  /**
   * A rejected block carries the message the conversion returns;
   * `TooFewLines` stands for the out-of-bounds indexing that aborts the
   * conversion when fewer than two lines remain.
   */
  datatype UnitError = Rejected(message: string) | TooFewLines

  /** Every piece trimmed, in order. */
  function TrimEach(ps: seq<string>): (r: seq<string>)
    ensures |r| == |ps|
    ensures forall k :: 0 <= k < |r| ==> r[k] == Trim(ps[k])
  {
    seq(|ps|, k requires 0 <= k < |ps| => Trim(ps[k]))
  }

  /** Drops one leading empty line, if there is one. */
  function DropLeadingEmpty(ps: seq<string>): (r: seq<string>)
    ensures |ps| > 0 && ps[0] == [] ==> r == ps[1..]
    ensures !(|ps| > 0 && ps[0] == []) ==> r == ps
  {
    if |ps| > 0 && ps[0] == [] then ps[1..] else ps
  }

  /** 1 when the first line is blank (so it is dropped), else 0. */
  function LeadingBlank(ps: seq<string>): nat
    requires |ps| >= 1
  {
    if AllWhitespace(ps[0]) then 1 else 0
  }

  /** Dropping the leading empty trimmed line drops exactly the leading blank line. */
  lemma DropLeadingBlank(ps: seq<string>)
    requires |ps| >= 1
    ensures DropLeadingEmpty(TrimEach(ps)) == TrimEach(ps)[LeadingBlank(ps)..]
  {
    TrimSpec(ps[0]);
  }

  /** The block's lines: split at line breaks, each trimmed, one leading empty line dropped. */
  function Lines(s: string): (r: seq<string>)
    ensures var ps := Split(s, LineBreak); r == TrimEach(ps)[LeadingBlank(ps)..]
  {
    var ps := Split(s, LineBreak);
    DropLeadingBlank(ps);
    DropLeadingEmpty(TrimEach(ps))
  }

  /**
   * `RawSubtitleUnit::try_from`: rejects a blank block, then a block with
   * an empty line in it; otherwise assigns the first two of its lines to
   * index and timing and the rest, in order, to the text lines.
   */
  function TryFrom(s: string): (r: Result<RawSubtitleUnit, UnitError>)
    ensures r.Ok? ==> [r.value.rawIndex, r.value.rawTiming] + r.value.rawLines == Lines(s)
  {
    if Trim(s) == [] then Err(Rejected(EmptyUnitMessage))
    else if Contains(s, BlankLine) then Err(Rejected(BlankLineMessage))
    else
      var lines := Lines(s);
      if |lines| < 2 then Err(TooFewLines)
      else
        assert lines == [lines[0], lines[1]] + lines[2..];
        Ok(RawSubtitleUnit(lines[0], lines[1], lines[2..]))
  }

  /**
   * A block is rejected as empty exactly when it is all whitespace, as
   * holding an empty line exactly when it is not blank but holds "\n\n",
   * and it has too few lines exactly when it passes both checks but fewer
   * than two lines remain once a leading blank line is dropped.
   */
  lemma TryFromOutcome(s: string)
    ensures TryFrom(s) == Err(Rejected(EmptyUnitMessage)) <==> AllWhitespace(s)
    ensures TryFrom(s) == Err(Rejected(BlankLineMessage)) <==> !AllWhitespace(s) && Contains(s, BlankLine)
    ensures TryFrom(s) == Err(TooFewLines) <==>
      !AllWhitespace(s) && !Contains(s, BlankLine) && |Split(s, LineBreak)| < LeadingBlank(Split(s, LineBreak)) + 2
  {
    TrimSpec(s);
    MessagesDiffer();
  }

  lemma MessagesDiffer()
    ensures EmptyUnitMessage != BlankLineMessage
  {
    assert |EmptyUnitMessage| != |BlankLineMessage|;
  }

  /** A clean line: no line break, no surrounding whitespace. */
  predicate CleanLine(x: string) {
    '\n' !in x && Trimmed(x)
  }

  /** Every line of an accepted block is clean. */
  lemma TryFromClean(s: string, u: RawSubtitleUnit)
    requires TryFrom(s) == Ok(u)
    ensures CleanLine(u.rawIndex) && CleanLine(u.rawTiming)
    ensures forall k :: 0 <= k < |u.rawLines| ==> CleanLine(u.rawLines[k])
  {
    var ls := [u.rawIndex, u.rawTiming] + u.rawLines;
    assert ls == Lines(s);
    LinesClean(s);
    assert CleanLine(ls[0]) && CleanLine(ls[1]);
    forall k | 0 <= k < |u.rawLines| ensures CleanLine(u.rawLines[k]) {
      assert u.rawLines[k] == ls[k + 2];
    }
  }

  /** Each of a block's lines is clean. */
  lemma LinesClean(s: string)
    ensures forall k :: 0 <= k < |Lines(s)| ==> CleanLine(Lines(s)[k])
  {
    var ps := Split(s, LineBreak);
    var d := LeadingBlank(ps);
    forall k | 0 <= k < |Lines(s)| ensures CleanLine(Lines(s)[k]) {
      assert Lines(s)[k] == TrimEach(ps)[d + k];
      CleanPiece(s, d + k);
    }
  }

  /** Each trimmed line of a block is clean. */
  lemma CleanPiece(s: string, k: nat)
    requires k < |Split(s, LineBreak)|
    ensures CleanLine(TrimEach(Split(s, LineBreak))[k])
  {
    var ps := Split(s, LineBreak);
    SplitPiecesFree(s, LineBreak);
    ContainsChar(ps[k], '\n');
    CleanTrim(ps[k]);
  }

  lemma CleanTrim(x: string)
    requires '\n' !in x
    ensures CleanLine(Trim(x))
  {
    TrimSpec(x);
  }

  /** The block as a subtitle file writes it: its lines joined by line breaks. */
  function Render(u: RawSubtitleUnit): string {
    Join([u.rawIndex, u.rawTiming] + u.rawLines, LineBreak)
  }

  /** Every line of the block is present and clean. */
  predicate WellFormed(u: RawSubtitleUnit) {
    var ls := [u.rawIndex, u.rawTiming] + u.rawLines;
    forall k :: 0 <= k < |ls| ==> ls[k] != [] && CleanLine(ls[k])
  }

  /**
   * Rendering a well-formed block and converting it back gives the block,
   * with or without a leading line break.
   */
  lemma TryFromRender(u: RawSubtitleUnit)
    requires WellFormed(u)
    ensures TryFrom(Render(u)) == Ok(u)
    ensures TryFrom(LineBreak + Render(u)) == Ok(u)
  {
    var ls := [u.rawIndex, u.rawTiming] + u.rawLines;
    assert ls[2..] == u.rawLines;
    RenderLines(u);
    TryFromAccepts(Render(u), ls);
    LeadingBreakLines(u);
    TryFromAccepts(LineBreak + Render(u), ls);
  }

  /** A non-blank block without an empty line and with two lines or more is accepted. */
  lemma TryFromAccepts(s: string, ls: seq<string>)
    requires !AllWhitespace(s) && !Contains(s, BlankLine)
    requires Lines(s) == ls && |ls| >= 2
    ensures TryFrom(s) == Ok(RawSubtitleUnit(ls[0], ls[1], ls[2..]))
  {
    TrimSpec(s);
  }

  /** A rendered block is not blank, holds no empty line, and its lines are the block's. */
  lemma RenderLines(u: RawSubtitleUnit)
    requires WellFormed(u)
    ensures var s := Render(u); !AllWhitespace(s) && !Contains(s, BlankLine)
    ensures Lines(Render(u)) == [u.rawIndex, u.rawTiming] + u.rawLines
  {
    var ls := [u.rawIndex, u.rawTiming] + u.rawLines;
    var s := Render(u);
    NoBlankLine(ls);
    SplitJoinChar(ls, '\n');
    assert !IsWhitespace(s[0]);
    LinesOfCleanPieces(s, ls);
    assert !AllWhitespace(ls[0]);
  }

  /** When a block's pieces are already clean, its lines are those pieces after a leading blank. */
  lemma LinesOfCleanPieces(s: string, ps: seq<string>)
    requires Split(s, LineBreak) == ps
    requires forall k :: 0 <= k < |ps| ==> CleanLine(ps[k])
    ensures Lines(s) == ps[LeadingBlank(ps)..]
  {
    forall k | 0 <= k < |ps| ensures Trim(ps[k]) == ps[k] {
      TrimClean(ps[k]);
    }
    assert TrimEach(ps) == ps;
  }

  /** The same holds for a rendered block after a leading line break. */
  lemma LeadingBreakLines(u: RawSubtitleUnit)
    requires WellFormed(u)
    ensures var t := LineBreak + Render(u); !AllWhitespace(t) && !Contains(t, BlankLine)
    ensures Lines(LineBreak + Render(u)) == [u.rawIndex, u.rawTiming] + u.rawLines
  {
    var ls := [u.rawIndex, u.rawTiming] + u.rawLines;
    RenderLines(u);
    NoBlankLine(ls);
    LeadingBreakText(Render(u));
    var ls' := LeadingBreakPieces(u);
    LinesOfCleanPieces(LineBreak + Render(u), ls');
    assert AllWhitespace(ls'[0]);
    assert ls'[1..] == ls;
  }

  /** After a leading line break, a rendered block splits into an empty line and the block's lines. */
  lemma LeadingBreakPieces(u: RawSubtitleUnit) returns (ls': seq<string>)
    requires WellFormed(u)
    ensures ls' == [[]] + ([u.rawIndex, u.rawTiming] + u.rawLines)
    ensures Split(LineBreak + Render(u), LineBreak) == ls'
    ensures forall k :: 0 <= k < |ls'| ==> CleanLine(ls'[k])
  {
    var ls := [u.rawIndex, u.rawTiming] + u.rawLines;
    ls' := [[]] + ls;
    JoinCons([], ls, LineBreak);
    assert LineBreak + Render(u) == Join(ls', LineBreak);
    forall k | 0 <= k < |ls'| ensures CleanLine(ls'[k]) {
      if k > 0 {
        assert ls'[k] == ls[k - 1];
      }
    }
    SplitJoinChar(ls', '\n');
  }

  /** A line break before a text that starts with neither whitespace nor an empty line. */
  lemma LeadingBreakText(s: string)
    requires s != [] && !IsWhitespace(s[0]) && !Contains(s, BlankLine)
    ensures var t := LineBreak + s; !AllWhitespace(t) && !Contains(t, BlankLine)
  {
    var t := LineBreak + s;
    assert !IsWhitespace(t[1]);
    forall j: nat | j + 2 <= |t| ensures !OccursAt(t, j, BlankLine) {
      if j == 0 {
        NotBlankAt(t, 0);
      } else {
        assert t[1..] == s;
        OccursShift(t, BlankLine, 1, j - 1);
      }
    }
  }

  lemma TrimClean(x: string)
    requires Trimmed(x)
    ensures Trim(x) == x
  {
    assert AllWhitespace([]);
    if x == [] {
      return;
    }
    TrimSurrounded([], x, []);
    assert [] + x + [] == x;
  }

  /**
   * Non-empty lines without line breaks, joined by line breaks, hold no
   * empty line and do not start with a line break.
   */
  lemma {:induction false} NoBlankLine(ls: seq<string>)
    requires |ls| >= 1
    requires forall k :: 0 <= k < |ls| ==> ls[k] != [] && '\n' !in ls[k]
    ensures !Contains(Join(ls, LineBreak), BlankLine)
    ensures Join(ls, LineBreak)[0] == ls[0][0]
    decreases |ls|
  {
    var s := Join(ls, LineBreak);
    if |ls| == 1 {
      forall j: nat | j + 2 <= |s| ensures !OccursAt(s, j, BlankLine) {
        assert s[j] in ls[0];
        NotBlankAt(s, j);
      }
    } else {
      var a, tail := ls[0], Join(ls[1..], LineBreak);
      NoBlankLine(ls[1..]);
      assert s == a + LineBreak + tail;
      forall j: nat | j + 2 <= |s| ensures !OccursAt(s, j, BlankLine) {
        if j < |a| {
          assert s[j] == a[j] && a[j] in a;
          NotBlankAt(s, j);
        } else if j == |a| {
          assert s[j + 1] == ls[1][0] && ls[1][0] in ls[1];
          NotBlankAt(s, j);
        } else {
          assert s[|a| + 1..] == tail;
          OccursShift(s, BlankLine, |a| + 1, j - |a| - 1);
        }
      }
    }
  }

  lemma NotBlankAt(s: string, j: nat)
    requires j + 2 <= |s| && (s[j] != '\n' || s[j + 1] != '\n')
    ensures !OccursAt(s, j, BlankLine)
  {
    var w := s[j..j + 2];
    assert w[0] == s[j] && w[1] == s[j + 1];
  }

  /** The block of the source's own comment: a leading empty line, then the block. */
  lemma TryFromExample()
    ensures TryFrom("\n" + "266" + "\n" + "00:18:25,437 --> 00:18:27,439" + "\n" + "そのための" + "\n" + "パラライザーだろうが！―")
      == Ok(RawSubtitleUnit("266", "00:18:25,437 --> 00:18:27,439", ["そのための", "パラライザーだろうが！―"]))
  {
    var u := RawSubtitleUnit("266", "00:18:25,437 --> 00:18:27,439", ["そのための", "パラライザーだろうが！―"]);
    RenderExample(u);
    TryFromRender(u);
  }

  lemma RenderExample(u: RawSubtitleUnit)
    requires u == RawSubtitleUnit("266", "00:18:25,437 --> 00:18:27,439", ["そのための", "パラライザーだろうが！―"])
    ensures LineBreak + Render(u) ==
      "\n" + "266" + "\n" + "00:18:25,437 --> 00:18:27,439" + "\n" + "そのための" + "\n" + "パラライザーだろうが！―"
    ensures WellFormed(u)
  {
    var ls := [u.rawIndex, u.rawTiming] + u.rawLines;
    JoinCons(ls[0], ls[1..], LineBreak);
    JoinCons(ls[1], ls[2..], LineBreak);
    JoinCons(ls[2], ls[3..], LineBreak);
    assert ls[3..] == ["パラライザーだろうが！―"];
    forall k | 0 <= k < |ls| ensures ls[k] != [] && CleanLine(ls[k]) {
      assert ls[k] in ls;
      CleanExample(ls[k]);
    }
  }

  lemma CleanExample(x: string)
    requires x in ["266", "00:18:25,437 --> 00:18:27,439", "そのための", "パラライザーだろうが！―"]
    ensures x != [] && CleanLine(x)
  {
  }

  /** The block of the record's own documentation, without a leading line break. */
  lemma TryFromDocExample()
    ensures TryFrom("12" + "\n" + "00:01:02,510 --> 00:01:04,120" + "\n" + "Hello world!" + "\n" + "Potential second line")
      == Ok(RawSubtitleUnit("12", "00:01:02,510 --> 00:01:04,120", ["Hello world!", "Potential second line"]))
  {
    var u := RawSubtitleUnit("12", "00:01:02,510 --> 00:01:04,120", ["Hello world!", "Potential second line"]);
    DocRender(u);
    TryFromRender(u);
  }

  lemma DocRender(u: RawSubtitleUnit)
    requires u == RawSubtitleUnit("12", "00:01:02,510 --> 00:01:04,120", ["Hello world!", "Potential second line"])
    ensures Render(u) == "12" + "\n" + "00:01:02,510 --> 00:01:04,120" + "\n" + "Hello world!" + "\n" + "Potential second line"
    ensures WellFormed(u)
  {
    var ls := [u.rawIndex, u.rawTiming] + u.rawLines;
    JoinCons(ls[0], ls[1..], LineBreak);
    JoinCons(ls[1], ls[2..], LineBreak);
    JoinCons(ls[2], ls[3..], LineBreak);
    assert ls[3..] == ["Potential second line"];
    forall k | 0 <= k < |ls| ensures ls[k] != [] && CleanLine(ls[k]) {
      assert ls[k] in ls;
      CleanDocLine(ls[k]);
    }
  }

  lemma CleanDocLine(x: string)
    requires x in ["12", "00:01:02,510 --> 00:01:04,120", "Hello world!", "Potential second line"]
    ensures x != [] && CleanLine(x)
  {
  }

  /** A block of index and timing only converts with no text lines. */
  lemma TryFromTwoLines(i: string, t: string)
    requires i != [] && CleanLine(i) && t != [] && CleanLine(t)
    ensures TryFrom(i + LineBreak + t) == Ok(RawSubtitleUnit(i, t, []))
  {
    var u := RawSubtitleUnit(i, t, []);
    assert [i, t] + [] == [i] + [t];
    JoinCons(i, [t], LineBreak);
    TryFromRender(u);
  }

  /** A block of a single line cannot be converted. */
  lemma TryFromOneLine(i: string)
    requires i != [] && CleanLine(i)
    ensures TryFrom(i) == Err(TooFewLines)
  {
    assert '\n' !in [i][0];
    SplitJoinChar([i], '\n');
    assert i[0] in i;
    TrimSpec(i);
    forall j: nat | j + 2 <= |i| ensures !OccursAt(i, j, BlankLine) {
      assert i[j] in i;
      NotBlankAt(i, j);
    }
  }
}
