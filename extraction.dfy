/**
 * The whole-file helpers of the program's entry point: cutting a subtitle
 * file into blocks at blank lines, taking a block's text lines (everything
 * after the index and timing lines), gluing all text lines of a file into
 * one string, and replacing small kana by their regular-size forms through
 * a lookup table.
 */
module Extraction {
  import opened Text
  import SB = SubtitleSetBuilder

  const UnitSeparator: string := "\n\n"
  const LineSeparator: string := "\n"

  // ---------------------------------------------------------------------------
  // Blocks and their text lines

  /** `split_into_raw_subtitle_units`: the text cut at every blank line. */
  function SplitIntoRawSubtitleUnits(raw: string): (r: seq<string>)
    ensures |r| >= 1
  {
    Split(raw, UnitSeparator)
  }

  /**
   * The blocks are the text in order: joined with blank lines they give the
   * text back, and no block holds a blank line.
   */
  lemma SplitIntoRawSubtitleUnitsSpec(raw: string)
    ensures Join(SplitIntoRawSubtitleUnits(raw), UnitSeparator) == raw
    ensures var us := SplitIntoRawSubtitleUnits(raw);
      forall k :: 0 <= k < |us| ==> !Contains(us[k], UnitSeparator)
  {
    JoinSplit(raw, UnitSeparator);
    SplitPiecesFree(raw, UnitSeparator);
  }

  /** `get_subtitles_from_unit`: the block's lines after the first two, none when it has two or fewer. */
  function GetSubtitlesFromUnit(unit: string): (r: seq<string>)
    ensures |r| < |Split(unit, LineSeparator)|
    ensures forall k :: 0 <= k < |r| ==> '\n' !in r[k]
  {
    var ls := Split(unit, LineSeparator);
    LinesHaveNoBreak(unit);
    if |ls| <= 2 then [] else ls[2..]
  }

  /** No line of a block holds a line break. */
  lemma LinesHaveNoBreak(unit: string)
    ensures var ls := Split(unit, LineSeparator);
      forall k :: 0 <= k < |ls| ==> '\n' !in ls[k]
  {
    var ls := Split(unit, LineSeparator);
    SplitPiecesFree(unit, LineSeparator);
    forall k | 0 <= k < |ls| ensures '\n' !in ls[k] {
      ContainsChar(ls[k], '\n');
    }
  }

  /**
   * The text lines are the lines after the first two: a block with `n` line
   * breaks has `n - 1` of them when `n >= 2` and none otherwise, none holds
   * a line break, and when there are any, the block is two lines followed by
   * exactly these.
   */
  lemma GetSubtitlesFromUnitSpec(unit: string)
    ensures var r := GetSubtitlesFromUnit(unit);
      |r| == (if Count(unit, '\n') >= 2 then Count(unit, '\n') - 1 else 0)
    ensures var r := GetSubtitlesFromUnit(unit);
      forall k :: 0 <= k < |r| ==> '\n' !in r[k]
    ensures var r := GetSubtitlesFromUnit(unit);
      r != [] ==> exists i, t :: '\n' !in i && '\n' !in t && unit == Join([i, t] + r, LineSeparator)
  {
    SubtitlesCount(unit);
    SubtitlesShape(unit);
  }

  lemma SubtitlesCount(unit: string)
    ensures var r := GetSubtitlesFromUnit(unit);
      |r| == (if Count(unit, '\n') >= 2 then Count(unit, '\n') - 1 else 0)
  {
    assert LineSeparator == ['\n'];
    SplitCharCount(unit, '\n');
  }

  lemma SubtitlesShape(unit: string)
    ensures var r := GetSubtitlesFromUnit(unit);
      r != [] ==> exists i, t :: '\n' !in i && '\n' !in t && unit == Join([i, t] + r, LineSeparator)
  {
    var ls := Split(unit, LineSeparator);
    var r := GetSubtitlesFromUnit(unit);
    if r != [] {
      SplitPiecesFree(unit, LineSeparator);
      ContainsChar(ls[0], '\n');
      ContainsChar(ls[1], '\n');
      JoinSplit(unit, LineSeparator);
      assert ls == [ls[0], ls[1]] + r;
    }
  }

  /** Conversely, the text lines of two lines followed by `ls`, joined by line breaks, are `ls`. */
  lemma GetSubtitlesFromLines(i: string, t: string, ls: seq<string>)
    requires '\n' !in i && '\n' !in t
    requires forall k :: 0 <= k < |ls| ==> '\n' !in ls[k]
    ensures GetSubtitlesFromUnit(Join([i, t] + ls, LineSeparator)) == ls
  {
    var ps := [i, t] + ls;
    forall k | 0 <= k < |ps| ensures '\n' !in ps[k] {
      if k >= 2 {
        assert ps[k] == ls[k - 2];
      }
    }
    SplitJoinChar(ps, '\n');
    assert ps[2..] == ls;
  }

  /** The text lines of an accepted block's rendering are its text lines. */
  lemma GetSubtitlesFromRender(u: SB.RawSubtitleUnit)
    requires SB.WellFormed(u)
    ensures GetSubtitlesFromUnit(SB.Render(u)) == u.rawLines
  {
    var ls := [u.rawIndex, u.rawTiming] + u.rawLines;
    assert '\n' !in ls[0] && '\n' !in ls[1];
    forall k | 0 <= k < |u.rawLines| ensures '\n' !in u.rawLines[k] {
      assert u.rawLines[k] == ls[k + 2];
    }
    GetSubtitlesFromLines(u.rawIndex, u.rawTiming, u.rawLines);
  }

  // ---------------------------------------------------------------------------
  // The subtitle text of a file

  /** The text lines of every block, block after block (the `flat_map` step). */
  function FlatMapSubtitles(units: seq<string>): (r: seq<string>)
    ensures forall k :: 0 <= k < |r| ==> '\n' !in r[k]
  {
    if units == [] then [] else GetSubtitlesFromUnit(units[0]) + FlatMapSubtitles(units[1..])
  }

  /** Split into blocks, keep each block's text lines, and concatenate them with nothing between. */
  function SubtitleText(raw: string): string
  {
    Join(FlatMapSubtitles(SplitIntoRawSubtitleUnits(raw)), [])
  }

  /** The subtitle text holds no line break and only characters of the file. */
  lemma SubtitleTextChars(raw: string)
    ensures '\n' !in SubtitleText(raw)
    ensures forall x :: x in SubtitleText(raw) ==> x in raw
  {
    var units := SplitIntoRawSubtitleUnits(raw);
    var lines := FlatMapSubtitles(units);
    forall x | x in SubtitleText(raw) ensures x in raw && x != '\n' {
      JoinChars(lines, [], x);
      var k :| 0 <= k < |lines| && x in lines[k];
      var j := FlatMapChars(units, k, x);
      JoinSplit(raw, UnitSeparator);
      JoinHas(units, UnitSeparator, j);
    }
  }

  /** A character of some text line comes from one of the blocks and is not a line break. */
  lemma {:induction false} FlatMapChars(units: seq<string>, k: nat, x: char) returns (j: nat)
    requires k < |FlatMapSubtitles(units)| && x in FlatMapSubtitles(units)[k]
    ensures j < |units| && x in units[j] && x != '\n'
    decreases |units|
  {
    var head := GetSubtitlesFromUnit(units[0]);
    assert FlatMapSubtitles(units) == head + FlatMapSubtitles(units[1..]);
    if k < |head| {
      var ls := Split(units[0], LineSeparator);
      assert head[k] == ls[k + 2];
      SplitCharPieces(units[0], '\n');
      j := 0;
    } else {
      assert FlatMapSubtitles(units)[k] == FlatMapSubtitles(units[1..])[k - |head|];
      var j' := FlatMapChars(units[1..], k - |head|, x);
      j := j' + 1;
    }
  }

  /** Every block rendered as it is written. */
  function Renders(us: seq<SB.RawSubtitleUnit>): (r: seq<string>)
    ensures |r| == |us|
    ensures forall k :: 0 <= k < |us| ==> r[k] == SB.Render(us[k])
  {
    seq(|us|, k requires 0 <= k < |us| => SB.Render(us[k]))
  }

  /** The text lines of all blocks, in order. */
  function AllLines(us: seq<SB.RawSubtitleUnit>): seq<string>
  {
    if us == [] then [] else us[0].rawLines + AllLines(us[1..])
  }

  /**
   * For a file made of well-formed blocks separated by blank lines, the
   * subtitle text is the in-order concatenation of every block's text lines.
   */
  lemma SubtitleTextOfUnits(us: seq<SB.RawSubtitleUnit>)
    requires |us| >= 1
    requires forall k :: 0 <= k < |us| ==> SB.WellFormed(us[k])
    ensures SubtitleText(Join(Renders(us), UnitSeparator)) == Join(AllLines(us), [])
  {
    var rs := Renders(us);
    forall k | 0 <= k < |rs| ensures Separable(rs[k]) {
      RenderSeparable(us[k]);
    }
    SubtitleTextOfBlocks(rs);
    FlatMapRenders(us);
  }

  /**
   * A file that ends in a blank line after its last block has the same
   * subtitle text: the empty block after the last separator has no lines.
   */
  lemma SubtitleTextOfUnitsBlankEnd(us: seq<SB.RawSubtitleUnit>)
    requires |us| >= 1
    requires forall k :: 0 <= k < |us| ==> SB.WellFormed(us[k])
    ensures SubtitleText(Join(Renders(us), UnitSeparator) + UnitSeparator) == Join(AllLines(us), [])
  {
    var rs := Renders(us);
    var ps := rs + [""];
    var raw := Join(rs, UnitSeparator) + UnitSeparator;
    JoinSnoc(rs, "", UnitSeparator);
    assert raw == Join(ps, UnitSeparator);
    forall k | 0 <= k < |ps| - 1 ensures Separable(ps[k]) {
      assert ps[k] == rs[k];
      RenderSeparable(us[k]);
    }
    assert !Contains(ps[|ps| - 1], UnitSeparator);
    SubtitleTextOfBlocks(ps);
    assert SubtitleText(raw) == Join(FlatMapSubtitles(ps), []);
    FlatMapSnoc(rs, "");
    assert GetSubtitlesFromUnit("") == [];
    assert FlatMapSubtitles(ps) == FlatMapSubtitles(rs);
    FlatMapRenders(us);
  }

  /**
   * A file that ends in a line break after its last block has the same
   * subtitle text: the last block gains one empty text line, which adds
   * nothing to the concatenation.
   */
  lemma SubtitleTextOfUnitsNewlineEnd(us: seq<SB.RawSubtitleUnit>)
    requires |us| >= 1
    requires forall k :: 0 <= k < |us| ==> SB.WellFormed(us[k])
    ensures SubtitleText(Join(Renders(us), UnitSeparator) + LineSeparator) == Join(AllLines(us), [])
  {
    var rs := Renders(us);
    RendersSeparable(us);
    SubtitleTextNewlineEnd(rs);
    FlatMapNewlineEnd(us);
    JoinEmptyLast(AllLines(us));
  }

  /** Every rendered block is separable and ends in a character other than a line break. */
  lemma RendersSeparable(us: seq<SB.RawSubtitleUnit>)
    requires forall k :: 0 <= k < |us| ==> SB.WellFormed(us[k])
    ensures var rs := Renders(us);
      forall k :: 0 <= k < |rs| ==> Separable(rs[k]) && rs[k] != [] && rs[k][|rs[k]| - 1] != '\n'
  {
    forall k | 0 <= k < |us| ensures var s := SB.Render(us[k]); Separable(s) && s != [] && s[|s| - 1] != '\n' {
      RenderSeparable(us[k]);
    }
  }

  /** The blocks with a line break added to the last one. */
  function NewlineAfterLast(rs: seq<string>): seq<string>
    requires |rs| >= 1
  {
    rs[..|rs| - 1] + [rs[|rs| - 1] + LineSeparator]
  }

  /** Blocks that end in a line break after the last one are cut into the same blocks, the last with that line break. */
  lemma SubtitleTextNewlineEnd(rs: seq<string>)
    requires |rs| >= 1
    requires forall k :: 0 <= k < |rs| ==> Separable(rs[k]) && rs[k] != [] && rs[k][|rs[k]| - 1] != '\n'
    ensures SubtitleText(Join(rs, UnitSeparator) + LineSeparator) == Join(FlatMapSubtitles(NewlineAfterLast(rs)), [])
  {
    var n := |rs|;
    var ps := NewlineAfterLast(rs);
    JoinAppendLast(rs, LineSeparator, UnitSeparator);
    forall k | 0 <= k < n - 1 ensures Separable(ps[k]) {
      assert ps[k] == rs[k];
    }
    NewlineAfterBlock(rs[n - 1]);
    assert ps[|ps| - 1] == rs[n - 1] + LineSeparator;
    SubtitleTextOfBlocks(ps);
  }

  /** With a line break after the last rendered block, the text lines gain one empty line at the end. */
  lemma FlatMapNewlineEnd(us: seq<SB.RawSubtitleUnit>)
    requires |us| >= 1
    requires forall k :: 0 <= k < |us| ==> SB.WellFormed(us[k])
    ensures FlatMapSubtitles(NewlineAfterLast(Renders(us))) == AllLines(us) + [""]
  {
    var rs := Renders(us);
    var n := |rs|;
    FlatMapLast(rs);
    var u := us[n - 1];
    assert rs[n - 1] == SB.Render(u);
    GetSubtitlesFromRenderNewline(u);
    GetSubtitlesFromRender(u);
    FlatMapRenders(us);
    AppendAssoc(FlatMapSubtitles(rs[..n - 1]), u.rawLines, [""]);
  }

  /** The text lines of blocks are those of all blocks but the last, then the last block's, with or without a line break added to it. */
  lemma FlatMapLast(rs: seq<string>)
    requires |rs| >= 1
    ensures var n := |rs|;
      FlatMapSubtitles(NewlineAfterLast(rs)) == FlatMapSubtitles(rs[..n - 1]) + GetSubtitlesFromUnit(rs[n - 1] + LineSeparator)
    ensures var n := |rs|;
      FlatMapSubtitles(rs) == FlatMapSubtitles(rs[..n - 1]) + GetSubtitlesFromUnit(rs[n - 1])
  {
    var n := |rs|;
    FlatMapSnoc(rs[..n - 1], rs[n - 1] + LineSeparator);
    DropLast(rs);
    FlatMapSnoc(rs[..n - 1], rs[n - 1]);
  }

  /** Concatenation of lines is associative. */
  lemma AppendAssoc(a: seq<string>, b: seq<string>, c: seq<string>)
    ensures a + (b + c) == (a + b) + c
  {
  }

  /** A non-empty sequence is its elements but the last, then the last. */
  lemma DropLast(rs: seq<string>)
    requires |rs| >= 1
    ensures rs[..|rs| - 1] + [rs[|rs| - 1]] == rs
  {
  }

  /** A block that is found whole when a blank line follows it: it holds no blank line and the blank line after it is the first one. */
  predicate Separable(b: string) {
    !Contains(b, UnitSeparator) && EndsBeforePattern(b, UnitSeparator)
  }

  /** A rendered well-formed block is separable and ends in a character other than a line break. */
  lemma RenderSeparable(u: SB.RawSubtitleUnit)
    requires SB.WellFormed(u)
    ensures var s := SB.Render(u); Separable(s) && s != [] && s[|s| - 1] != '\n'
  {
    SB.RenderLines(u);
    RenderEnds(u);
    EndsBeforeBlank(SB.Render(u));
  }

  /** Blocks that are separable, except perhaps the last one which only holds no blank line, are cut apart again. */
  lemma SubtitleTextOfBlocks(ps: seq<string>)
    requires |ps| >= 1 && !Contains(ps[|ps| - 1], UnitSeparator)
    requires forall k :: 0 <= k < |ps| - 1 ==> Separable(ps[k])
    ensures SubtitleText(Join(ps, UnitSeparator)) == Join(FlatMapSubtitles(ps), [])
  {
    SplitJoin(ps, UnitSeparator);
  }

  /** The text lines of blocks followed by one more block are those of the blocks, then those of the last. */
  lemma {:induction false} FlatMapSnoc(units: seq<string>, b: string)
    ensures FlatMapSubtitles(units + [b]) == FlatMapSubtitles(units) + GetSubtitlesFromUnit(b)
    decreases |units|
  {
    if units == [] {
      assert [b][1..] == [];
    } else {
      FlatMapSnoc(units[1..], b);
      TailSnoc(units, b);
      AppendAssoc(GetSubtitlesFromUnit(units[0]), FlatMapSubtitles(units[1..]), GetSubtitlesFromUnit(b));
    }
  }

  /** Dropping the first of a non-empty sequence with one more element at its end. */
  lemma TailSnoc(units: seq<string>, b: string)
    requires units != []
    ensures (units + [b])[1..] == units[1..] + [b] && (units + [b])[0] == units[0]
  {
  }

  /** An empty line at the end adds nothing when lines are concatenated. */
  lemma JoinEmptyLast(ls: seq<string>)
    ensures Join(ls + [""], []) == Join(ls, [])
  {
    if ls != [] {
      JoinSnoc(ls, "", []);
    }
  }

  /** A line break after a rendered block adds one empty text line. */
  lemma GetSubtitlesFromRenderNewline(u: SB.RawSubtitleUnit)
    requires SB.WellFormed(u)
    ensures GetSubtitlesFromUnit(SB.Render(u) + LineSeparator) == u.rawLines + [""]
  {
    var ls := [u.rawIndex, u.rawTiming] + u.rawLines;
    var more := u.rawLines + [""];
    assert '\n' !in ls[0] && '\n' !in ls[1];
    forall k | 0 <= k < |more| ensures '\n' !in more[k] {
      if k < |u.rawLines| {
        assert more[k] == ls[k + 2];
      }
    }
    JoinSnoc(ls, "", LineSeparator);
    assert ls + [""] == [u.rawIndex, u.rawTiming] + more;
    assert SB.Render(u) + LineSeparator == Join([u.rawIndex, u.rawTiming] + more, LineSeparator);
    GetSubtitlesFromLines(u.rawIndex, u.rawTiming, more);
  }

  /** A block without a blank line that ends in another character has no blank line once a line break follows it. */
  lemma NewlineAfterBlock(s: string)
    requires s != [] && s[|s| - 1] != '\n' && !Contains(s, UnitSeparator)
    ensures !Contains(s + LineSeparator, UnitSeparator)
  {
    var t := s + LineSeparator;
    forall j: nat | j <= |t| ensures !OccursAt(t, j, UnitSeparator) {
      if j + 2 <= |s| {
        assert t[j..j + 2] == s[j..j + 2];
        assert !OccursAt(s, j, UnitSeparator);
      } else if j + 2 == |t| {
        assert j == |s| - 1 && t[j] == s[|s| - 1];
        assert t[j..j + 2][0] == t[j];
      }
    }
  }

  /** Rendered blocks give back their text lines, block after block. */
  lemma {:induction false} FlatMapRenders(us: seq<SB.RawSubtitleUnit>)
    requires forall k :: 0 <= k < |us| ==> SB.WellFormed(us[k])
    ensures FlatMapSubtitles(Renders(us)) == AllLines(us)
    decreases |us|
  {
    if us != [] {
      FlatMapRenders(us[1..]);
      GetSubtitlesFromRender(us[0]);
      assert Renders(us)[1..] == Renders(us[1..]);
    }
  }

  /** A rendered block ends with the last character of its last line, which is not a line break. */
  lemma RenderEnds(u: SB.RawSubtitleUnit)
    requires SB.WellFormed(u)
    ensures var s := SB.Render(u); s != [] && s[|s| - 1] != '\n'
  {
    var ls := [u.rawIndex, u.rawTiming] + u.rawLines;
    var p := ls[|ls| - 1];
    assert p != [] && '\n' !in p;
    JoinLast(ls, LineSeparator);
    assert p[|p| - 1] in p;
  }

  /** A text without a blank line that ends in another character is cut at a blank line put after it. */
  lemma EndsBeforeBlank(s: string)
    requires s != [] && s[|s| - 1] != '\n' && !Contains(s, UnitSeparator)
    ensures EndsBeforePattern(s, UnitSeparator)
  {
    var t := s + UnitSeparator;
    forall j: nat | j < |s| ensures !OccursAt(t, j, UnitSeparator) {
      if j + 2 <= |s| {
        assert t[j..j + 2] == s[j..j + 2];
        assert !OccursAt(s, j, UnitSeparator);
      } else {
        assert t[j..j + 2][0] == s[|s| - 1];
      }
    }
  }

  // ---------------------------------------------------------------------------
  // Small kana

  /** A key of the kana table: a small kana character. */
  datatype SmallKana = SmallKana(ch: char)

  /** A value of the kana table: the regular-size kana character. */
  datatype RegularKana = RegularKana(ch: char)

  /** The small-kana table, which the program loads from a file. */
  type KanaMapping = map<SmallKana, RegularKana>

  /**
   * `mini_kana_character_to_regular`: a character that is a key of the
   * table becomes the table's regular kana, any other stays as it is.
   */
  function MiniKanaCharacterToRegular(c: char, mapping: KanaMapping): (r: char)
    ensures SmallKana(c) in mapping ==> RegularKana(r) == mapping[SmallKana(c)]
    ensures SmallKana(c) !in mapping ==> r == c
    ensures r == c || RegularKana(r) in mapping.Values
  {
    var key := SmallKana(c);
    if key in mapping then mapping[key].ch else key.ch
  }

  /**
   * `convert_mini_kana_to_regular`: the character mapping applied to every
   * character; the result has as many characters as the input and its
   * `k`-th character is the mapping of the input's `k`-th.
   */
  function ConvertMiniKanaToRegular(input: string, mapping: KanaMapping): (r: string)
    ensures |r| == |input|
    ensures forall k :: 0 <= k < |input| ==> r[k] == MiniKanaCharacterToRegular(input[k], mapping)
  {
    if input == [] then []
    else [MiniKanaCharacterToRegular(input[0], mapping)] + ConvertMiniKanaToRegular(input[1..], mapping)
  }

  /**
   * The conversion leaves a text unchanged exactly when each of its
   * characters that is a key maps to itself; in particular a text without
   * small kana is left as it is.
   */
  lemma ConvertUnchanged(input: string, mapping: KanaMapping)
    ensures ConvertMiniKanaToRegular(input, mapping) == input <==>
      forall k :: 0 <= k < |input| && SmallKana(input[k]) in mapping ==> mapping[SmallKana(input[k])].ch == input[k]
    ensures (forall k :: 0 <= k < |input| ==> SmallKana(input[k]) !in mapping) ==>
      ConvertMiniKanaToRegular(input, mapping) == input
  {
    var r := ConvertMiniKanaToRegular(input, mapping);
    if r == input {
      forall k | 0 <= k < |input| && SmallKana(input[k]) in mapping
        ensures mapping[SmallKana(input[k])].ch == input[k]
      {
        assert r[k] == input[k];
      }
    }
  }

  /** No regular kana of the table is itself a key: the table never maps onto a small kana. */
  predicate ValuesAreNotKeys(mapping: KanaMapping) {
    forall key :: key in mapping ==> SmallKana(mapping[key].ch) !in mapping
  }

  /**
   * With such a table, the converted text holds no small kana, so a second
   * conversion changes nothing.
   */
  lemma ConvertIdempotent(input: string, mapping: KanaMapping)
    requires ValuesAreNotKeys(mapping)
    ensures var r := ConvertMiniKanaToRegular(input, mapping);
      forall k :: 0 <= k < |r| ==> SmallKana(r[k]) !in mapping
    ensures var r := ConvertMiniKanaToRegular(input, mapping);
      ConvertMiniKanaToRegular(r, mapping) == r
  {
    var r := ConvertMiniKanaToRegular(input, mapping);
    forall k | 0 <= k < |r| ensures SmallKana(r[k]) !in mapping {
      var key := SmallKana(input[k]);
      if key in mapping {
        assert SmallKana(mapping[key].ch) !in mapping;
      }
    }
    ConvertUnchanged(r, mapping);
  }

  /**
   * The table the doc comment at `src/main.rs:52-55` describes: the small
   * forms of a, i, u, e, o, tsu, ya, yu, yo and wa, in hiragana and in
   * katakana, each mapped to its regular form. The JSON file the program
   * loads is not part of this model.
   */
  const MiniKanaTable: KanaMapping := map[
    SmallKana('ぁ') := RegularKana('あ'),
    SmallKana('ぃ') := RegularKana('い'),
    SmallKana('ぅ') := RegularKana('う'),
    SmallKana('ぇ') := RegularKana('え'),
    SmallKana('ぉ') := RegularKana('お'),
    SmallKana('っ') := RegularKana('つ'),
    SmallKana('ゃ') := RegularKana('や'),
    SmallKana('ゅ') := RegularKana('ゆ'),
    SmallKana('ょ') := RegularKana('よ'),
    SmallKana('ゎ') := RegularKana('わ'),
    SmallKana('ァ') := RegularKana('ア'),
    SmallKana('ィ') := RegularKana('イ'),
    SmallKana('ゥ') := RegularKana('ウ'),
    SmallKana('ェ') := RegularKana('エ'),
    SmallKana('ォ') := RegularKana('オ'),
    SmallKana('ッ') := RegularKana('ツ'),
    SmallKana('ャ') := RegularKana('ヤ'),
    SmallKana('ュ') := RegularKana('ユ'),
    SmallKana('ョ') := RegularKana('ヨ'),
    SmallKana('ヮ') := RegularKana('ワ')
  ]

  lemma MiniKanaTableValuesAreNotKeys()
    ensures ValuesAreNotKeys(MiniKanaTable)
  {
  }

  /** The sample line of the program's own comment, with its two small `tsu` enlarged. */
  lemma ConvertExample()
    ensures ConvertMiniKanaToRegular("こうな" + "っち" + "まった" + "ら最後―", MiniKanaTable)
      == "こうな" + "つち" + "まつた" + "ら最後―"
  {
    assert SmallKana('っ') in MiniKanaTable && MiniKanaTable[SmallKana('っ')] == RegularKana('つ');
  }
}
