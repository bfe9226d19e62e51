/**
 * A subtitle timing line `start --> end`: exactly one separator, two
 * timestamps (each side trimmed), and a start no later than the end.
 */
module Timings {
  import opened Wrappers
  import opened Text
  import TS = Timestamps

  const Separator: string := "-->"

  const MissingSeparatorMessage: string := "Missing timestamp separator (-->)"
  const MultipleSeparatorsMessage: string := "Multiple timestamp separators"
  const StartAfterEndMessage: string := "Start timestamp is later than end timestamp"

  /** When a subtitle appears and when it disappears. */
  datatype Timing = Timing(start: TS.Timestamp, end: TS.Timestamp)

  datatype TimingError =
    | EmptyTiming
    | MalformedTiming(message: string)
      /** A timestamp error passed on unchanged (the `From<TimestampError>` conversion). */
    | Timestamp(cause: TS.TimestampError)

  /** `TimingError::malformed`: a message that carries the offending input. */
  function Malformed(msg: string, input: string): (e: TimingError)
    ensures e.MalformedTiming?
    ensures Contains(e.message, msg) && Contains(e.message, input)
  {
    var text := msg + " (input: " + input + ")";
    assert OccursAt(text, 0, msg) by {
      assert text[..|msg|] == msg;
    }
    assert OccursAt(text, |msg| + 9, input) by {
      assert text[|msg| + 9..|msg| + 9 + |input|] == input;
    }
    MalformedTiming(text)
  }

  /** Two occurrences of the separator never overlap. */
  lemma SeparatorNoOverlap(s: string, i: nat, j: nat)
    requires OccursAt(s, i, Separator) && OccursAt(s, j, Separator) && i < j
    ensures i + |Separator| <= j
  {
    assert s[i..i + 3][2] == '>';
    assert s[j..j + 3][0] == '-' && s[j..j + 3][1] == '-';
  }

  /** `Timing::from_str`. */
  function Parse(s: string): (r: Result<Timing, TimingError>)
    ensures r == Err(EmptyTiming) <==> s == []
    ensures s != [] && !Contains(s, Separator) ==> r == Err(Malformed(MissingSeparatorMessage, s))
    ensures s != [] && TwoApart(s, Separator) ==> r == Err(Malformed(MultipleSeparatorsMessage, s))
    ensures r.Ok? ==> TS.LessEq(r.value.start, r.value.end)
    ensures r.Ok? ==> TS.InRange(r.value.start) && TS.InRange(r.value.end)
  {
    if s == [] then Err(EmptyTiming)
    else
      var pieces := Split(s, Separator);
      SplitSingle(s, Separator);
      SplitThree(s, Separator);
      if |pieces| == 1 then Err(Malformed(MissingSeparatorMessage, s))
      else if |pieces| > 2 then Err(Malformed(MultipleSeparatorsMessage, s))
      else
        match TS.Parse(Trim(pieces[0]))
        case Err(e) => Err(Timestamp(e))
        case Ok(start) =>
          match TS.Parse(Trim(pieces[1]))
          case Err(e) => Err(Timestamp(e))
          case Ok(end) =>
            if TS.Less(end, start) then Err(Malformed(StartAfterEndMessage, s))
            else
              TS.Trichotomy(start, end);
              Ok(Timing(start, end))
  }

  /**
   * With exactly one separator, at index `i`, the outcome is decided by the
   * trimmed text on either side: the start's error first, then the end's,
   * then the order of the two timestamps.
   */
  lemma ParseAt(s: string, i: nat)
    requires OccursAt(s, i, Separator) && !TwoApart(s, Separator)
    ensures
      var before := TS.Parse(Trim(s[..i]));
      var after := TS.Parse(Trim(s[i + |Separator|..]));
      && (before.Err? ==> Parse(s) == Err(Timestamp(before.error)))
      && (before.Ok? && after.Err? ==> Parse(s) == Err(Timestamp(after.error)))
      && (before.Ok? && after.Ok? && TS.Less(after.value, before.value)
          ==> Parse(s) == Err(Malformed(StartAfterEndMessage, s)))
      && (before.Ok? && after.Ok? && !TS.Less(after.value, before.value)
          ==> Parse(s) == Ok(Timing(before.value, after.value)))
  {
    assert Split(s, Separator) == [s[..i], s[i + 3..]] by {
      SeparatorAt(s, i);
    }
  }

  /** The only separator splits the text into what lies before and after it. */
  lemma SeparatorAt(s: string, i: nat)
    requires OccursAt(s, i, Separator) && !TwoApart(s, Separator)
    ensures Split(s, Separator) == [s[..i], s[i + 3..]]
  {
    var f := Find(s, Separator);
    assert f.Some?;
    var j := f.value;
    if j < i {
      SeparatorNoOverlap(s, j, i);
    }
    assert j == i;
    var rest := s[i + 3..];
    if Contains(rest, Separator) {
      var k: nat :| k <= |rest| && OccursAt(rest, k, Separator);
      OccursShift(s, Separator, i + 3, k);
      assert TwoApart(s, Separator);
    }
    SplitSingle(rest, Separator);
  }

  /** A successful parse reads each trimmed side of the only separator. */
  lemma ParseOk(s: string, i: nat)
    requires OccursAt(s, i, Separator) && Parse(s).Ok?
    ensures !TwoApart(s, Separator)
    ensures TS.Parse(Trim(s[..i])) == Ok(Parse(s).value.start)
    ensures TS.Parse(Trim(s[i + |Separator|..])) == Ok(Parse(s).value.end)
  {
    SplitThree(s, Separator);
    SeparatorAt(s, i);
  }

  // ---------------------------------------------------------------------------
  // Round trip through the text form

  /** The timing line as subtitle files write it. */
  function Format(t: Timing): string {
    TS.Format(t.start) + " " + Separator + " " + TS.Format(t.end)
  }

  /** A text without `-` holds no separator, even followed by one. */
  lemma NoDash(a: string)
    requires '-' !in a
    ensures !Contains(a, Separator) && EndsBeforePattern(a, Separator)
  {
    forall j: nat | j < |a|
      ensures !OccursAt(a, j, Separator) && !OccursAt(a + Separator, j, Separator)
    {
      assert a[j] in a;
      assert (a + Separator)[j] == a[j];
    }
  }

  /** Two texts without `-` around the separator split back into the two texts. */
  lemma SplitAround(left: string, right: string)
    requires '-' !in left && '-' !in right
    ensures Split(left + Separator + right, Separator) == [left, right]
  {
    NoDash(left);
    NoDash(right);
    JoinCons(left, [right], Separator);
    SplitJoin([left, right], Separator);
  }

  /** A timestamp's text holds no `-` and is unchanged by trimming a space off either side. */
  lemma FormatSide(t: TS.Timestamp)
    ensures var x := TS.Format(t);
      '-' !in x && Trim(x + " ") == x && Trim(" " + x) == x
  {
    TS.FormatShape(t);
    DigitEnds(TS.Format(t));
  }

  lemma DigitEnds(x: string)
    requires |x| > 0 && TS.Permitted(x) && IsDigit(x[0]) && IsDigit(x[|x| - 1])
    ensures '-' !in x && Trim(x + " ") == x && Trim(" " + x) == x
  {
    NoDashPermitted(x);
    TrimSpaces(x);
  }

  lemma NoDashPermitted(x: string)
    requires TS.Permitted(x)
    ensures '-' !in x
  {
    assert '-' !in TS.PermittedChars;
  }

  lemma TrimSpaces(x: string)
    requires |x| > 0 && IsDigit(x[0]) && IsDigit(x[|x| - 1])
    ensures Trim(x + " ") == x && Trim(" " + x) == x
  {
    assert Trimmed(x);
    assert AllWhitespace(" ") && AllWhitespace([]);
    TrimSurrounded([], x, " ");
    assert [] + x + " " == x + " ";
    TrimSurrounded(" ", x, []);
    assert " " + x + [] == " " + x;
  }

  /** Two texts without `-`, spaced around the separator, split into the two spaced texts. */
  lemma SplitSpaced(x: string, y: string)
    requires '-' !in x && '-' !in y
    ensures Split(x + " " + Separator + " " + y, Separator) == [x + " ", " " + y]
  {
    assert x + " " + Separator + " " + y == (x + " ") + Separator + (" " + y);
    SplitAround(x + " ", " " + y);
  }

  /** The timing line of two timestamps splits at its separator into the two padded sides. */
  lemma FormatSplit(a: TS.Timestamp, b: TS.Timestamp)
    ensures var x, y := TS.Format(a), TS.Format(b);
      && Split(Format(Timing(a, b)), Separator) == [x + " ", " " + y]
      && Trim(x + " ") == x && Trim(" " + y) == y
  {
    FormatSide(a);
    FormatSide(b);
    SplitSpaced(TS.Format(a), TS.Format(b));
  }

  /**
   * Formatting two in-range timestamps as a timing line and parsing it back
   * gives them back, unless the start is later than the end.
   */
  lemma ParseFormat(a: TS.Timestamp, b: TS.Timestamp)
    requires TS.InRange(a) && TS.InRange(b)
    ensures Parse(Format(Timing(a, b))) ==
      if TS.Less(b, a) then Err(Malformed(StartAfterEndMessage, Format(Timing(a, b))))
      else Ok(Timing(a, b))
  {
    FormatSplit(a, b);
    TS.FormatParse(a);
    TS.FormatParse(b);
  }

  /** The timing line of the source's own test parses. */
  lemma ParseExample()
    ensures Parse("00:18:25,437 --> 00:18:27,439")
            == Ok(Timing(TS.Timestamp(0, 18, 25, 437), TS.Timestamp(0, 18, 27, 439)))
  {
    var a, b := TS.Timestamp(0, 18, 25, 437), TS.Timestamp(0, 18, 27, 439);
    ExampleLines();
    ParseFormat(a, b);
  }

  /** A start later than the end is rejected. */
  lemma ParseReversedExample()
    ensures Parse("00:00:02,000 --> 00:00:01,000")
            == Err(Malformed(StartAfterEndMessage, "00:00:02,000 --> 00:00:01,000"))
  {
    var a, b := TS.Timestamp(0, 0, 2, 0), TS.Timestamp(0, 0, 1, 0);
    ExampleLines();
    ParseFormat(a, b);
  }

  /** The two example lines are the timing lines of their timestamps. */
  lemma ExampleLines()
    ensures Format(Timing(TS.Timestamp(0, 18, 25, 437), TS.Timestamp(0, 18, 27, 439)))
            == "00:18:25,437 --> 00:18:27,439"
    ensures Format(Timing(TS.Timestamp(0, 0, 2, 0), TS.Timestamp(0, 0, 1, 0)))
            == "00:00:02,000 --> 00:00:01,000"
  {
    ExampleTimestamps();
    FormatExample(Timing(TS.Timestamp(0, 18, 25, 437), TS.Timestamp(0, 18, 27, 439)), "00:18:25,437", "00:18:27,439");
    FormatExample(Timing(TS.Timestamp(0, 0, 2, 0), TS.Timestamp(0, 0, 1, 0)), "00:00:02,000", "00:00:01,000");
    ExampleTexts();
  }

  lemma ExampleTimestamps()
    ensures TS.Format(TS.Timestamp(0, 18, 25, 437)) == "00:18:25,437"
    ensures TS.Format(TS.Timestamp(0, 18, 27, 439)) == "00:18:27,439"
    ensures TS.Format(TS.Timestamp(0, 0, 2, 0)) == "00:00:02,000"
    ensures TS.Format(TS.Timestamp(0, 0, 1, 0)) == "00:00:01,000"
  {
    FormatIs(TS.Timestamp(0, 18, 25, 437), "00:18:25,437");
    FormatIs(TS.Timestamp(0, 18, 27, 439), "00:18:27,439");
    FormatIs(TS.Timestamp(0, 0, 2, 0), "00:00:02,000");
    FormatIs(TS.Timestamp(0, 0, 1, 0), "00:00:01,000");
  }

  lemma FormatIs(t: TS.Timestamp, x: string)
    requires TS.InRange(t) && t.hours < 100
    requires x == [DigitChar(t.hours / 10), DigitChar(t.hours % 10), ':',
                   DigitChar(t.minutes / 10), DigitChar(t.minutes % 10), ':',
                   DigitChar(t.seconds / 10), DigitChar(t.seconds % 10), ',',
                   DigitChar(t.milliseconds / 100), DigitChar(t.milliseconds / 10 % 10),
                   DigitChar(t.milliseconds % 10)]
    ensures TS.Format(t) == x
  {
    TS.FormatDigits(t);
  }

  lemma FormatExample(t: Timing, x: string, y: string)
    requires TS.Format(t.start) == x && TS.Format(t.end) == y
    ensures Format(t) == x + " --> " + y
  {
  }

  /** The two example lines, cut at their separators. */
  lemma ExampleTexts()
    ensures "00:18:25,437" + " --> " + "00:18:27,439" == "00:18:25,437 --> 00:18:27,439"
    ensures "00:00:02,000" + " --> " + "00:00:01,000" == "00:00:02,000 --> 00:00:01,000"
  {
    var lit := "00:18:25,437 --> 00:18:27,439";
    assert lit[..12] == "00:18:25,437" && lit[12..17] == " --> " && lit[17..] == "00:18:27,439";
    assert lit == lit[..12] + lit[12..17] + lit[17..];
    lit := "00:00:02,000 --> 00:00:01,000";
    assert lit[..12] == "00:00:02,000" && lit[12..17] == " --> " && lit[17..] == "00:00:01,000";
    assert lit == lit[..12] + lit[12..17] + lit[17..];
  }
}
