/**
 * A subtitle timestamp `HH:MM:SS,mmm`: four fields stored in 8, 8, 8 and 16
 * bits, parsed by a fixed chain of guards, each with its own error.
 */
module Timestamps {
  import opened Wrappers
  import opened Text

  /** The only characters a timestamp may contain. */
  const PermittedChars: string := "0123456789:,"

  type U8 = x: nat | x <= 255
  type U16 = x: nat | x <= 65535

  datatype Timestamp = Timestamp(hours: U8, minutes: U8, seconds: U8, milliseconds: U16)

  datatype TimestampError =
    | EmptyMillisecondsValue
    | EmptySecondsValue
    | EmptyMinutesValue
    | EmptyHoursValue
    | MillisecondsValueExceeds999
    | SecondsValueExceeds59
    | MinutesValueExceeds59
    | MillisecondsValueExceeds16BitAllocation
    | SecondsValueExceeds8BitAllocation
    | MinutesValueExceeds8BitAllocation
    | HoursValueExceeds8BitAllocation
    | EmptyString
    | DisallowedCharacters
    | NewlineCharDetected
    | MalformedTimestamp

  // ---------------------------------------------------------------------------
  // Ordering

  /** The derived ordering: lexicographic on (hours, minutes, seconds, milliseconds). */
  predicate Less(a: Timestamp, b: Timestamp) {
    || a.hours < b.hours
    || (a.hours == b.hours && a.minutes < b.minutes)
    || (a.hours == b.hours && a.minutes == b.minutes && a.seconds < b.seconds)
    || (a.hours == b.hours && a.minutes == b.minutes && a.seconds == b.seconds
        && a.milliseconds < b.milliseconds)
  }

  predicate LessEq(a: Timestamp, b: Timestamp) {
    Less(a, b) || a == b
  }

  /** The ordering is a total order: exactly one of a < b, a == b, b < a holds. */
  lemma Trichotomy(a: Timestamp, b: Timestamp)
    ensures Less(a, b) || a == b || Less(b, a)
    ensures !(Less(a, b) && Less(b, a)) && !Less(a, a)
  {
  }

  lemma LessTransitive(a: Timestamp, b: Timestamp, c: Timestamp)
    requires Less(a, b) && Less(b, c)
    ensures Less(a, c)
  {
  }

  /** The semantic bounds a parsed timestamp satisfies. */
  predicate InRange(t: Timestamp) {
    t.minutes <= 59 && t.seconds <= 59 && t.milliseconds <= 999
  }

  /** The instant a timestamp names, in milliseconds. */
  function TotalMilliseconds(t: Timestamp): nat {
    t.hours * 3600000 + t.minutes * 60000 + t.seconds * 1000 + t.milliseconds
  }

  /**
   * On timestamps within their semantic bounds, the field-by-field ordering
   * is the ordering of the instants they name.
   */
  lemma OrderIsChronological(a: Timestamp, b: Timestamp)
    requires InRange(a) && InRange(b)
    ensures Less(a, b) <==> TotalMilliseconds(a) < TotalMilliseconds(b)
    ensures a == b <==> TotalMilliseconds(a) == TotalMilliseconds(b)
  {
    if a.hours != b.hours {
      assert a.hours < b.hours ==> TotalMilliseconds(a) < TotalMilliseconds(b);
      assert b.hours < a.hours ==> TotalMilliseconds(b) < TotalMilliseconds(a);
    } else if a.minutes != b.minutes {
      assert a.minutes < b.minutes ==> TotalMilliseconds(a) < TotalMilliseconds(b);
      assert b.minutes < a.minutes ==> TotalMilliseconds(b) < TotalMilliseconds(a);
    }
  }

  // ---------------------------------------------------------------------------
  // Text form

  /** The shape `HH:MM:SS,mmm` around four field texts. */
  function Compose(h: string, m: string, sc: string, ms: string): string {
    h + ":" + m + ":" + sc + "," + ms
  }

  /** The zero-padded text of a timestamp, as subtitle files write it. */
  function Format(t: Timestamp): string {
    Compose(Padded(t.hours, 2), Padded(t.minutes, 2), Padded(t.seconds, 2), Padded(t.milliseconds, 3))
  }

  /** `s` is four non-empty digit fields in the shape `HH:MM:SS,mmm` whose values are `t`'s. */
  ghost predicate Spells(s: string, t: Timestamp) {
    exists h, m, sc, ms ::
      && AllDigits(h) && AllDigits(m) && AllDigits(sc) && AllDigits(ms)
      && h != [] && m != [] && sc != [] && ms != []
      && s == Compose(h, m, sc, ms)
      && DecimalValue(h) == t.hours && DecimalValue(m) == t.minutes
      && DecimalValue(sc) == t.seconds && DecimalValue(ms) == t.milliseconds
  }

  predicate Permitted(s: string) {
    forall x :: x in s ==> x in PermittedChars
  }

  // ---------------------------------------------------------------------------
  // Parsing

  /**
   * The bound checks on the four field values: for each field in turn the
   * storage width first, then the semantic bound.
   */
  function CheckBounds(hh: nat, mm: nat, ss: nat, ms: nat): (r: Result<Timestamp, TimestampError>)
    ensures r.Ok? <==> hh <= 255 && mm <= 59 && ss <= 59 && ms <= 999
    ensures r.Ok? ==> r.value.hours == hh && r.value.minutes == mm
                      && r.value.seconds == ss && r.value.milliseconds == ms
    ensures hh > 255 ==> r == Err(HoursValueExceeds8BitAllocation)
    ensures hh <= 255 && mm > 255 ==> r == Err(MinutesValueExceeds8BitAllocation)
    ensures hh <= 255 && 59 < mm <= 255 ==> r == Err(MinutesValueExceeds59)
    ensures hh <= 255 && mm <= 59 && ss > 255 ==> r == Err(SecondsValueExceeds8BitAllocation)
    ensures hh <= 255 && mm <= 59 && 59 < ss <= 255 ==> r == Err(SecondsValueExceeds59)
    ensures hh <= 255 && mm <= 59 && ss <= 59 && ms > 65535
            ==> r == Err(MillisecondsValueExceeds16BitAllocation)
    ensures hh <= 255 && mm <= 59 && ss <= 59 && 999 < ms <= 65535
            ==> r == Err(MillisecondsValueExceeds999)
  {
    if hh > 255 then Err(HoursValueExceeds8BitAllocation)
    else if mm > 255 then Err(MinutesValueExceeds8BitAllocation)
    else if mm > 59 then Err(MinutesValueExceeds59)
    else if ss > 255 then Err(SecondsValueExceeds8BitAllocation)
    else if ss > 59 then Err(SecondsValueExceeds59)
    else if ms > 65535 then Err(MillisecondsValueExceeds16BitAllocation)
    else if ms > 999 then Err(MillisecondsValueExceeds999)
    else Ok(Timestamp(hh, mm, ss, ms))
  }

  /**
   * In a permitted text with one comma, the `:`-separated pieces before the
   * comma are digit strings, and so is the part after it when it has no `:`.
   */
  lemma FieldsAreDigits(s: string)
    requires Permitted(s) && Count(s, ',') == 1
    ensures |Split(s, ",")| == 2
    ensures forall k :: 0 <= k < |Split(Split(s, ",")[0], ":")| ==> AllDigits(Split(Split(s, ",")[0], ":")[k])
    ensures ':' !in Split(s, ",")[1] ==> AllDigits(Split(s, ",")[1])
  {
    SplitCharCount(s, ',');
    SplitCharPieces(s, ',');
    var halves := Split(s, ",");
    var hms := Split(halves[0], ":");
    SplitCharPieces(halves[0], ':');
    forall k | 0 <= k < |hms| ensures AllDigits(hms[k]) {
      forall i | 0 <= i < |hms[k]| ensures IsDigit(hms[k][i]) {
        var x := hms[k][i];
        assert x in hms[k];
        assert x in halves[0] && x != ':';
        assert x in s && x != ',';
      }
    }
    if ':' !in halves[1] {
      forall i | 0 <= i < |halves[1]| ensures IsDigit(halves[1][i]) {
        var x := halves[1][i];
        assert x in halves[1];
        assert x in s && x != ',';
      }
    }
  }

  /** `Timestamp::from_str`. */
  function Parse(s: string): (r: Result<Timestamp, TimestampError>)
    ensures r == Err(EmptyString) <==> s == []
    ensures s != [] && Count(s, ',') != 1 ==> r == Err(MalformedTimestamp)
    ensures r == Err(NewlineCharDetected) <==> s != [] && Count(s, ',') == 1 && '\n' in s
    ensures r == Err(DisallowedCharacters)
            <==> s != [] && Count(s, ',') == 1 && '\n' !in s && !Permitted(s)
    ensures r.Ok? ==> InRange(r.value)
  {
    if s == [] then Err(EmptyString)
    else if Count(s, ',') != 1 then Err(MalformedTimestamp)
    else if '\n' in s then Err(NewlineCharDetected)
    else if !Permitted(s) then Err(DisallowedCharacters)
    else
      FieldsAreDigits(s);
      var onComma := Split(s, ",");
      var hms := Split(onComma[0], ":");
      if |hms| != 3 then Err(MalformedTimestamp)
      else if hms[0] == [] then Err(EmptyHoursValue)
      else if hms[1] == [] then Err(EmptyMinutesValue)
      else if hms[2] == [] then Err(EmptySecondsValue)
      else
        var rawMs := onComma[1];
        if rawMs == [] then Err(EmptyMillisecondsValue)
        else if Count(rawMs, ':') > 0 then Err(MalformedTimestamp)
        else
          CountZero(rawMs, ':');
          CheckBounds(DecimalValue(hms[0]), DecimalValue(hms[1]), DecimalValue(hms[2]),
                      DecimalValue(rawMs))
  }

  // ---------------------------------------------------------------------------
  // What the parser accepts

  /** Digits and colons only: what may stand on either side of the comma of a shaped text. */
  predicate DigitsOrColons(x: string) {
    forall k :: 0 <= k < |x| ==> IsDigit(x[k]) || x[k] == ':'
  }

  lemma DigitsOrColonsChars(x: string)
    requires DigitsOrColons(x)
    ensures ',' !in x && '\n' !in x && Permitted(x)
    ensures ':' !in x ==> AllDigits(x)
  {
    forall c | c in x ensures c in PermittedChars && c != ',' && c != '\n' {
      var k :| 0 <= k < |x| && x[k] == c;
    }
    if ':' !in x {
      forall k | 0 <= k < |x| ensures IsDigit(x[k]) {
        assert x[k] in x;
      }
    }
  }

  /**
   * A text with one comma and only digits and colons around it fails with
   * `MalformedTimestamp` unless the part before the comma has exactly two colons.
   */
  lemma {:induction false} ParseColonCount(p: string, ms: string)
    requires DigitsOrColons(p) && DigitsOrColons(ms)
    requires Count(p, ':') != 2
    ensures Parse(p + "," + ms) == Err(MalformedTimestamp)
  {
    var s := p + "," + ms;
    DigitsOrColonsChars(p);
    DigitsOrColonsChars(ms);
    CommaJoin(p, ms);
    SplitCharCount(s, ',');
    SplitCharCount(p, ':');
  }

  /** `p + "," + ms` has exactly one comma and splits on it into `p` and `ms`. */
  lemma CommaJoin(p: string, ms: string)
    requires ',' !in p && ',' !in ms
    ensures Split(p + "," + ms, ",") == [p, ms]
    ensures Count(p + "," + ms, ',') == 1
  {
    assert Join([p, ms], ",") == p + "," + ms by {
      JoinCons(p, [ms], ",");
    }
    SplitJoinChar([p, ms], ',');
    SplitCharCount(p + "," + ms, ',');
  }

  /** `h + ":" + m + ":" + sc` splits on `:` into the three fields. */
  lemma ColonJoin(h: string, m: string, sc: string)
    requires ':' !in h && ':' !in m && ':' !in sc
    ensures Split(h + ":" + m + ":" + sc, ":") == [h, m, sc]
  {
    JoinCons(m, [sc], ":");
    JoinCons(h, [m, sc], ":");
    assert [h] + [m, sc] == [h, m, sc];
    assert h + ":" + (m + ":" + sc) == h + ":" + m + ":" + sc;
    SplitJoinChar([h, m, sc], ':');
  }

  /**
   * On a text of the shape `HH:MM:SS,mmm` built from digit fields (the last
   * possibly holding colons), the parser reports the first empty field in
   * the order hours, minutes, seconds, milliseconds, then a colon after the
   * comma, and otherwise the outcome of the bound checks on the four values.
   */
  lemma {:induction false} ParseShaped(h: string, m: string, sc: string, ms: string)
    requires AllDigits(h) && AllDigits(m) && AllDigits(sc) && DigitsOrColons(ms)
    ensures Parse(Compose(h, m, sc, ms)) ==
      if h == [] then Err(EmptyHoursValue)
      else if m == [] then Err(EmptyMinutesValue)
      else if sc == [] then Err(EmptySecondsValue)
      else if ms == [] then Err(EmptyMillisecondsValue)
      else if ':' in ms then Err(MalformedTimestamp)
      else (DigitsOrColonsChars(ms);
            CheckBounds(DecimalValue(h), DecimalValue(m), DecimalValue(sc), DecimalValue(ms)))
  {
    var p := h + ":" + m + ":" + sc;
    FieldsShape(h, m, sc);
    DigitsOrColonsChars(p);
    DigitsOrColonsChars(ms);
    var s := Compose(h, m, sc, ms);
    assert s == p + "," + ms;
    CommaJoin(p, ms);
    assert ':' !in h && ':' !in m && ':' !in sc by {
      DigitsAreNotColons(h);
      DigitsAreNotColons(m);
      DigitsAreNotColons(sc);
    }
    ColonJoin(h, m, sc);
    assert s != [] && '\n' !in s && Permitted(s);
    CountZero(ms, ':');
  }

  /** Three digit fields joined by colons hold only digits and colons. */
  lemma FieldsShape(h: string, m: string, sc: string)
    requires AllDigits(h) && AllDigits(m) && AllDigits(sc)
    ensures DigitsOrColons(h + ":" + m + ":" + sc)
  {
    var p := h + ":" + m + ":" + sc;
    forall k | 0 <= k < |p| ensures IsDigit(p[k]) || p[k] == ':' {
      if k < |h| { assert p[k] == h[k]; }
      else if k == |h| { }
      else if k < |h| + 1 + |m| { assert p[k] == m[k - |h| - 1]; }
      else if k == |h| + 1 + |m| { }
      else { assert p[k] == sc[k - |h| - 2 - |m|]; }
    }
  }

  /** Digits and colons on both sides of a comma are all permitted characters. */
  lemma CommaPermitted(p: string, ms: string)
    requires DigitsOrColons(p) && DigitsOrColons(ms)
    ensures Permitted(p + "," + ms)
  {
    DigitsOrColonsChars(p);
    DigitsOrColonsChars(ms);
    forall c | c in p + "," + ms ensures c in PermittedChars {
      assert c in p || c == ',' || c in ms;
    }
  }

  lemma DigitsAreNotColons(x: string)
    requires AllDigits(x)
    ensures ':' !in x
  {
  }

  /** What a successful parse has checked about the pieces of its input. */
  lemma ParseOkPieces(s: string)
    requires Parse(s).Ok?
    ensures Permitted(s) && Count(s, ',') == 1
    ensures |Split(s, ",")| == 2 && |Split(Split(s, ",")[0], ":")| == 3
    ensures forall k :: 0 <= k < 3 ==> Split(Split(s, ",")[0], ":")[k] != []
    ensures Split(s, ",")[1] != [] && ':' !in Split(s, ",")[1]
  {
    FieldsAreDigits(s);
    CountZero(Split(s, ",")[1], ':');
  }

  /** Whatever the parser accepts has the shape `HH:MM:SS,mmm` and spells the result. */
  lemma {:induction false} ParseSound(s: string, t: Timestamp)
    requires Parse(s) == Ok(t)
    ensures Spells(s, t) && InRange(t)
  {
    ParseOkPieces(s);
    FieldsAreDigits(s);
    var onComma := Split(s, ",");
    var hms := Split(onComma[0], ":");
    var ms := onComma[1];
    assert Parse(s) == CheckBounds(DecimalValue(hms[0]), DecimalValue(hms[1]), DecimalValue(hms[2]),
                                   DecimalValue(ms));
    JoinSplit(s, ",");
    JoinSplit(onComma[0], ":");
    JoinTwo(onComma, ",");
    JoinThree(hms, ":");
    assert s == Compose(hms[0], hms[1], hms[2], ms);
  }

  lemma JoinTwo(ps: seq<string>, sep: string)
    requires |ps| == 2
    ensures Join(ps, sep) == ps[0] + sep + ps[1]
  {
  }

  lemma JoinThree(ps: seq<string>, sep: string)
    requires |ps| == 3
    ensures Join(ps, sep) == ps[0] + sep + ps[1] + sep + ps[2]
  {
    assert Join(ps[1..], sep) == ps[1] + sep + ps[2];
  }

  /**
   * The parser accepts exactly the texts that spell a timestamp within its
   * semantic bounds, and returns that timestamp.
   */
  lemma ParseExactly(s: string, t: Timestamp)
    ensures Parse(s) == Ok(t) <==> Spells(s, t) && InRange(t)
  {
    if Parse(s) == Ok(t) {
      ParseSound(s, t);
    }
    if Spells(s, t) && InRange(t) {
      var h, m, sc, ms :|
        && AllDigits(h) && AllDigits(m) && AllDigits(sc) && AllDigits(ms)
        && h != [] && m != [] && sc != [] && ms != []
        && s == Compose(h, m, sc, ms)
        && DecimalValue(h) == t.hours && DecimalValue(m) == t.minutes
        && DecimalValue(sc) == t.seconds && DecimalValue(ms) == t.milliseconds;
      AllDigitsAreDigitsOrColons(ms);
      DigitsAreNotColons(ms);
      ParseShaped(h, m, sc, ms);
    }
  }

  lemma AllDigitsAreDigitsOrColons(x: string)
    requires AllDigits(x)
    ensures DigitsOrColons(x)
  {
  }

  /** Round trip: the zero-padded text of an in-range timestamp parses back to it. */
  lemma FormatParse(t: Timestamp)
    requires InRange(t)
    ensures Parse(Format(t)) == Ok(t)
  {
    var ms := Padded(t.milliseconds, 3);
    AllDigitsAreDigitsOrColons(ms);
    DigitsAreNotColons(ms);
    ParseShaped(Padded(t.hours, 2), Padded(t.minutes, 2), Padded(t.seconds, 2), ms);
  }

  /** The text of a timestamp is non-empty, permitted, and starts and ends with a digit. */
  lemma FormatShape(t: Timestamp)
    ensures var x := Format(t);
      |x| > 0 && Permitted(x) && IsDigit(x[0]) && IsDigit(x[|x| - 1])
  {
    var h, m, sc, ms := Padded(t.hours, 2), Padded(t.minutes, 2), Padded(t.seconds, 2), Padded(t.milliseconds, 3);
    var p := h + ":" + m + ":" + sc;
    FieldsShape(h, m, sc);
    AllDigitsAreDigitsOrColons(ms);
    CommaPermitted(p, ms);
    var x := Format(t);
    assert x == p + "," + ms;
    assert x[0] == p[0] == h[0];
    assert x[|x| - 1] == ms[|ms| - 1];
  }

  /** A digit character is the character of its value. */
  lemma DigitRoundTrip(c: char)
    requires IsDigit(c)
    ensures DigitChar(DigitValue(c)) == c
  {
  }

  /** Two zero-padded digits of a value below 100. */
  lemma PaddedTwo(n: nat)
    requires n < 100
    ensures Padded(n, 2) == [DigitChar(n / 10), DigitChar(n % 10)]
  {
    var x := Padded(n, 2);
    TwoDigitValue(x);
    DigitRoundTrip(x[0]);
    DigitRoundTrip(x[1]);
  }

  lemma TwoDigitValue(x: string)
    requires |x| == 2 && AllDigits(x)
    ensures DecimalValue(x) / 10 == DigitValue(x[0]) && DecimalValue(x) % 10 == DigitValue(x[1])
  {
    assert x[..1][..0] == [];
    assert DecimalValue(x[..1]) == DigitValue(x[0]);
  }

  /** Three zero-padded digits of a value below 1000. */
  lemma PaddedThree(n: nat)
    requires n < 1000
    ensures Padded(n, 3) == [DigitChar(n / 100), DigitChar(n / 10 % 10), DigitChar(n % 10)]
  {
    var x := Padded(n, 3);
    TwoDigitValue(x[..2]);
    var v := DecimalValue(x[..2]);
    assert n == 10 * v + DigitValue(x[2]);
    assert n / 10 == v && n % 10 == DigitValue(x[2]);
    assert v / 10 == n / 100;
    DigitRoundTrip(x[0]);
    DigitRoundTrip(x[1]);
    DigitRoundTrip(x[2]);
  }

  /** The text of an in-range timestamp whose hours are below 100, digit by digit. */
  lemma FormatDigits(t: Timestamp)
    requires InRange(t) && t.hours < 100
    ensures Format(t) == [DigitChar(t.hours / 10), DigitChar(t.hours % 10), ':',
                          DigitChar(t.minutes / 10), DigitChar(t.minutes % 10), ':',
                          DigitChar(t.seconds / 10), DigitChar(t.seconds % 10), ',',
                          DigitChar(t.milliseconds / 100), DigitChar(t.milliseconds / 10 % 10),
                          DigitChar(t.milliseconds % 10)]
  {
    PaddedTwo(t.hours);
    PaddedTwo(t.minutes);
    PaddedTwo(t.seconds);
    PaddedThree(t.milliseconds);
  }
}
