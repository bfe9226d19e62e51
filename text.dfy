/**
 * The string operations the subtitle code relies on, in the form Rust's
 * standard library gives them: `str::split` with a string pattern (leftmost,
 * non-overlapping matches), `join`, counting a character, `str::trim`, and
 * reading a run of decimal digits as a number.
 */
module Text {
  import opened Wrappers

  // ---------------------------------------------------------------------------
  // Occurrences of a pattern

  /** `pat` occurs in `s` starting at index `i`. */
  predicate OccursAt(s: string, i: nat, pat: string) {
    i + |pat| <= |s| && s[i..i + |pat|] == pat
  }

  /** Rust's `str::contains` with a string pattern. */
  predicate Contains(s: string, pat: string) {
    exists i: nat | i <= |s| :: OccursAt(s, i, pat)
  }

  /** Two occurrences of `pat` in `s` that do not overlap. */
  predicate TwoApart(s: string, pat: string) {
    exists i: nat, j: nat | i <= j <= |s| :: OccursAt(s, i, pat) && OccursAt(s, j, pat) && i + |pat| <= j
  }

  /** The leftmost occurrence of `pat` in `s` at or after index `k`. */
  function FindFrom(s: string, pat: string, k: nat): (r: Option<nat>)
    requires |pat| > 0 && k <= |s|
    decreases |s| - k
    ensures r.Some? ==> k <= r.value && OccursAt(s, r.value, pat)
    ensures r.Some? ==> forall j: nat :: k <= j < r.value ==> !OccursAt(s, j, pat)
    ensures r.None? ==> forall j: nat :: k <= j ==> !OccursAt(s, j, pat)
  {
    if k + |pat| > |s| then None
    else if s[k..k + |pat|] == pat then Some(k)
    else FindFrom(s, pat, k + 1)
  }

  /** The leftmost occurrence of `pat` in `s`. */
  function Find(s: string, pat: string): (r: Option<nat>)
    requires |pat| > 0
    ensures r.None? ==> forall j: nat :: !OccursAt(s, j, pat)
    ensures r.Some? ==> OccursAt(s, r.value, pat)
    ensures r.Some? ==> forall j: nat :: j < r.value ==> !OccursAt(s, j, pat)
  {
    FindFrom(s, pat, 0)
  }

  /** The leftmost occurrence is the one at `i` when nothing occurs before it. */
  lemma FindIs(s: string, pat: string, i: nat)
    requires |pat| > 0 && OccursAt(s, i, pat)
    requires forall j: nat :: j < i ==> !OccursAt(s, j, pat)
    ensures Find(s, pat) == Some(i)
  {
  }

  // ---------------------------------------------------------------------------
  // Split and join

  /**
   * Rust's `str::split` with a non-empty pattern: the pieces between the
   * leftmost non-overlapping matches, scanning from the left.
   */
  function Split(s: string, pat: string): (r: seq<string>)
    requires |pat| > 0
    decreases |s|
    ensures |r| >= 1
  {
    match Find(s, pat)
    case None => [s]
    case Some(i) => [s[..i]] + Split(s[i + |pat|..], pat)
  }

  /** Rust's `join`: the pieces in order with `sep` between neighbours. */
  function Join(ps: seq<string>, sep: string): string
  {
    if |ps| == 0 then []
    else if |ps| == 1 then ps[0]
    else ps[0] + sep + Join(ps[1..], sep)
  }

  lemma JoinCons(p: string, ps: seq<string>, sep: string)
    requires |ps| >= 1
    ensures Join([p] + ps, sep) == p + sep + Join(ps, sep)
  {
    assert ([p] + ps)[1..] == ps;
  }

  /** Joining the pieces of a split with the same pattern gives back the input. */
  lemma {:induction false} JoinSplit(s: string, pat: string)
    requires |pat| > 0
    ensures Join(Split(s, pat), pat) == s
    decreases |s|
  {
    match Find(s, pat)
    case None =>
    case Some(i) =>
      var rest := s[i + |pat|..];
      JoinSplit(rest, pat);
      JoinCons(s[..i], Split(rest, pat), pat);
      Reassemble(s, i, pat);
      calc {
        Join(Split(s, pat), pat);
        Join([s[..i]] + Split(rest, pat), pat);
        s[..i] + pat + Join(Split(rest, pat), pat);
        s[..i] + pat + rest;
      }
  }

  /** Cutting out an occurrence and putting it back gives the same text. */
  lemma Reassemble(s: string, i: nat, pat: string)
    requires OccursAt(s, i, pat)
    ensures s == s[..i] + pat + s[i + |pat|..]
  {
    assert s == s[..i] + s[i..i + |pat|] + s[i + |pat|..];
  }

  /** No piece of a split contains the pattern it was split on. */
  lemma {:induction false} SplitPiecesFree(s: string, pat: string)
    requires |pat| > 0
    ensures forall k :: 0 <= k < |Split(s, pat)| ==> !Contains(Split(s, pat)[k], pat)
    decreases |s|
  {
    match Find(s, pat)
    case None =>
    case Some(i) =>
      var rest := s[i + |pat|..];
      SplitPiecesFree(rest, pat);
      var head := s[..i];
      forall j: nat | OccursAt(head, j, pat)
        ensures false
      {
        assert s[j..j + |pat|] == head[j..j + |pat|];
        assert OccursAt(s, j, pat);
      }
      var r := Split(s, pat);
      assert r == [head] + Split(rest, pat);
      forall k | 0 <= k < |r|
        ensures !Contains(r[k], pat)
      {
        if k > 0 {
          assert r[k] == Split(rest, pat)[k - 1];
        }
      }
  }

  /** A split yields a single piece exactly when the pattern does not occur. */
  lemma SplitSingle(s: string, pat: string)
    requires |pat| > 0
    ensures |Split(s, pat)| == 1 <==> !Contains(s, pat)
  {
    match Find(s, pat)
    case None =>
    case Some(i) =>
  }

  /** An occurrence at index `j` of the tail after position `d` is one of `s`. */
  lemma OccursShift(s: string, pat: string, d: nat, j: nat)
    requires d <= |s|
    ensures OccursAt(s[d..], j, pat) <==> OccursAt(s, d + j, pat)
  {
    if OccursAt(s, d + j, pat) {
      assert s[d..][j..j + |pat|] == s[d + j..d + j + |pat|];
    }
    if OccursAt(s[d..], j, pat) {
      assert s[d..][j..j + |pat|] == s[d + j..d + j + |pat|];
    }
  }

  /**
   * A split yields three or more pieces exactly when the pattern occurs
   * twice without overlapping.
   */
  lemma SplitThree(s: string, pat: string)
    requires |pat| > 0
    ensures |Split(s, pat)| >= 3 <==> TwoApart(s, pat)
  {
    if |Split(s, pat)| >= 3 {
      SplitThreeTwoApart(s, pat);
    }
    if TwoApart(s, pat) {
      TwoApartSplitThree(s, pat);
    }
  }

  /** A split that finds its first match at `i` yields the text before it, then the pieces of the text after it. */
  lemma SplitFirst(s: string, pat: string, i: nat)
    requires |pat| > 0 && Find(s, pat) == Some(i)
    ensures i + |pat| <= |s|
    ensures Split(s, pat) == [s[..i]] + Split(s[i + |pat|..], pat)
  {
  }

  /** The leftmost match lies at or before any match. */
  lemma FindAtMost(s: string, pat: string, a: nat)
    requires |pat| > 0 && OccursAt(s, a, pat)
    ensures Find(s, pat).Some? && Find(s, pat).value <= a
  {
    assert Contains(s, pat);
  }

  /** Three pieces need a first match and a later one in the text after it. */
  lemma SplitThreeTwoApart(s: string, pat: string)
    requires |pat| > 0 && |Split(s, pat)| >= 3
    ensures TwoApart(s, pat)
  {
    SplitSingle(s, pat);
    var i := Find(s, pat).value;
    SplitFirst(s, pat, i);
    var d := i + |pat|;
    SplitSingle(s[d..], pat);
    var j: nat :| j <= |s[d..]| && OccursAt(s[d..], j, pat);
    OccursShift(s, pat, d, j);
    assert i <= d + j <= |s| && OccursAt(s, i, pat) && OccursAt(s, d + j, pat) && i + |pat| <= d + j;
  }

  /** Two separate matches leave a match in the text after the first one, so the split goes on. */
  lemma TwoApartSplitThree(s: string, pat: string)
    requires |pat| > 0 && TwoApart(s, pat)
    ensures |Split(s, pat)| >= 3
  {
    var a: nat, b: nat :| a <= b <= |s| && OccursAt(s, a, pat) && OccursAt(s, b, pat) && a + |pat| <= b;
    FindAtMost(s, pat, a);
    var i := Find(s, pat).value;
    SplitFirst(s, pat, i);
    var d := i + |pat|;
    OccursShift(s, pat, d, b - d);
    assert b - d <= |s[d..]| && OccursAt(s[d..], b - d, pat);
    SplitSingle(s[d..], pat);
  }

  /**
   * In `a + pat`, the first occurrence of `pat` is the appended one: neither
   * `a` alone nor `a` together with a prefix of `pat` contains a match.
   */
  predicate EndsBeforePattern(a: string, pat: string) {
    forall j: nat :: j < |a| ==> !OccursAt(a + pat, j, pat)
  }

  /**
   * Splitting the join of pieces gives the pieces back, provided that in
   * the joined text each separator is found where it was placed.
   */
  lemma {:induction false} SplitJoin(ps: seq<string>, pat: string)
    requires |pat| > 0 && |ps| >= 1
    requires !Contains(ps[|ps| - 1], pat)
    requires forall k :: 0 <= k < |ps| - 1 ==> EndsBeforePattern(ps[k], pat)
    ensures Split(Join(ps, pat), pat) == ps
    decreases |ps|
  {
    if |ps| == 1 {
      SplitSingle(ps[0], pat);
    } else {
      var a := ps[0];
      var tail := Join(ps[1..], pat);
      var s := a + pat + tail;
      assert Join(ps, pat) == s;
      FirstOccurrenceAfter(a, pat, tail);
      SplitFirst(s, pat, |a|);
      assert s[..|a|] == a && s[|a| + |pat|..] == tail;
      SplitJoin(ps[1..], pat);
      assert ps == [a] + ps[1..];
    }
  }

  /** In `a + pat + tail` the leftmost match is the middle `pat`. */
  lemma FirstOccurrenceAfter(a: string, pat: string, tail: string)
    requires |pat| > 0 && EndsBeforePattern(a, pat)
    ensures Find(a + pat + tail, pat) == Some(|a|)
  {
    var s := a + pat + tail;
    forall j: nat | j < |a|
      ensures !OccursAt(s, j, pat)
    {
      assert !OccursAt(a + pat, j, pat);
      if j + |pat| <= |s| {
        assert s[j..j + |pat|] == (a + pat)[j..j + |pat|];
      }
    }
    assert s[|a|..|a| + |pat|] == pat;
    FindIs(s, pat, |a|);
  }

  // ---------------------------------------------------------------------------
  // Counting a character

  /** The number of occurrences of `c` in `s` (Rust's `chars().filter(..).count()`). */
  function Count(s: string, c: char): (r: nat)
    ensures r <= |s|
  {
    if s == [] then 0 else (if s[0] == c then 1 else 0) + Count(s[1..], c)
  }

  lemma {:induction false} CountAppend(a: string, b: string, c: char)
    ensures Count(a + b, c) == Count(a, c) + Count(b, c)
  {
    if a == [] {
      assert a + b == b;
    } else {
      assert (a + b)[1..] == a[1..] + b;
      CountAppend(a[1..], b, c);
    }
  }

  /** A character's count is zero exactly when it does not occur. */
  lemma {:induction false} CountZero(s: string, c: char)
    ensures Count(s, c) == 0 <==> c !in s
  {
    if s != [] {
      CountZero(s[1..], c);
      assert s == [s[0]] + s[1..];
    }
  }

  /** For a one-character pattern an occurrence is that character. */
  lemma OccursChar(s: string, c: char, i: nat)
    ensures OccursAt(s, i, [c]) <==> i < |s| && s[i] == c
  {
    if i < |s| && s[i] == c {
      assert s[i..i + 1] == [c];
    }
  }

  lemma ContainsChar(s: string, c: char)
    ensures Contains(s, [c]) <==> c in s
  {
    if c in s {
      var i :| 0 <= i < |s| && s[i] == c;
      OccursChar(s, c, i);
    }
    if Contains(s, [c]) {
      var i: nat :| OccursAt(s, i, [c]);
      OccursChar(s, c, i);
    }
  }

  /** Splitting on a character yields one more piece than it has occurrences. */
  lemma {:induction false} SplitCharCount(s: string, c: char)
    ensures |Split(s, [c])| == Count(s, c) + 1
    decreases |s|
  {
    ContainsChar(s, c);
    match Find(s, [c])
    case None =>
      CountZero(s, c);
    case Some(i) =>
      var rest := s[i + 1..];
      SplitCharCount(rest, c);
      OccursChar(s, c, i);
      forall x | x in s[..i] ensures x != c {
        var j :| 0 <= j < i && s[j] == x;
        OccursChar(s, c, j);
      }
      CountZero(s[..i], c);
      assert s == s[..i] + ([c] + rest);
      CountAppend(s[..i], [c] + rest, c);
      assert ([c] + rest)[1..] == rest;
  }

  /** Every character of a piece occurs in the input and is not the separator. */
  lemma SplitCharPieces(s: string, c: char)
    ensures forall k, x :: 0 <= k < |Split(s, [c])| && x in Split(s, [c])[k] ==> x in s && x != c
  {
    var r := Split(s, [c]);
    SplitPiecesFree(s, [c]);
    forall k, x | 0 <= k < |r| && x in r[k]
      ensures x in s && x != c
    {
      ContainsChar(r[k], c);
      JoinSplit(s, [c]);
      JoinHas(r, [c], k);
    }
  }

  /** Each piece is a substring of the join. */
  lemma {:induction false} JoinHas(ps: seq<string>, sep: string, k: nat)
    requires k < |ps|
    ensures forall x :: x in ps[k] ==> x in Join(ps, sep)
    decreases |ps|
  {
    if |ps| > 1 {
      assert Join(ps, sep) == ps[0] + sep + Join(ps[1..], sep);
      if k > 0 {
        JoinHas(ps[1..], sep, k - 1);
      }
    }
  }

  /** Every character of a join comes from a piece or from the separator. */
  lemma {:induction false} JoinChars(ps: seq<string>, sep: string, x: char)
    requires x in Join(ps, sep)
    ensures x in sep || exists k :: 0 <= k < |ps| && x in ps[k]
    decreases |ps|
  {
    if |ps| == 1 {
      assert x in ps[0];
    } else if |ps| > 1 {
      assert Join(ps, sep) == ps[0] + sep + Join(ps[1..], sep);
      if x !in ps[0] && x !in sep {
        JoinChars(ps[1..], sep, x);
        var k :| 0 <= k < |ps| - 1 && x in ps[1..][k];
        assert x in ps[k + 1];
      }
    }
  }

  /** A join whose last piece is non-empty ends with that piece's last character. */
  lemma {:induction false} JoinLast(ps: seq<string>, sep: string)
    requires |ps| >= 1 && ps[|ps| - 1] != []
    ensures var s := Join(ps, sep); var p := ps[|ps| - 1]; s != [] && s[|s| - 1] == p[|p| - 1]
    decreases |ps|
  {
    if |ps| > 1 {
      JoinLast(ps[1..], sep);
      assert ps[1..][|ps| - 2] == ps[|ps| - 1];
      assert Join(ps, sep) == ps[0] + sep + Join(ps[1..], sep);
    }
  }

  /** Joining one more piece adds the separator and that piece at the end. */
  lemma {:induction false} JoinSnoc(ps: seq<string>, q: string, sep: string)
    requires |ps| >= 1
    ensures Join(ps + [q], sep) == Join(ps, sep) + sep + q
    decreases |ps|
  {
    if |ps| > 1 {
      JoinSnoc(ps[1..], q, sep);
      assert (ps + [q])[1..] == ps[1..] + [q];
    } else {
      assert ps + [q] == [ps[0], q];
    }
  }

  /** Text appended after a join belongs to its last piece. */
  lemma {:induction false} JoinAppendLast(ps: seq<string>, x: string, sep: string)
    requires |ps| >= 1
    ensures Join(ps, sep) + x == Join(ps[..|ps| - 1] + [ps[|ps| - 1] + x], sep)
    decreases |ps|
  {
    var qs := ps[..|ps| - 1] + [ps[|ps| - 1] + x];
    if |ps| > 1 {
      JoinAppendLast(ps[1..], x, sep);
      assert qs[1..] == ps[1..][..|ps| - 2] + [ps[1..][|ps| - 2] + x];
      assert qs[0] == ps[0];
    } else {
      assert qs == [ps[0] + x];
    }
  }

  /** Splitting on a character undoes joining with it. */
  lemma SplitJoinChar(ps: seq<string>, c: char)
    requires |ps| >= 1
    requires forall k :: 0 <= k < |ps| ==> c !in ps[k]
    ensures Split(Join(ps, [c]), [c]) == ps
  {
    ContainsChar(ps[|ps| - 1], c);
    forall k | 0 <= k < |ps| - 1
      ensures EndsBeforePattern(ps[k], [c])
    {
      forall j: nat | j < |ps[k]|
        ensures !OccursAt(ps[k] + [c], j, [c])
      {
        OccursChar(ps[k] + [c], c, j);
      }
    }
    SplitJoin(ps, [c]);
  }

  // ---------------------------------------------------------------------------
  // Trimming

  /** Rust's `char::is_whitespace`: the Unicode White_Space property. */
  predicate IsWhitespace(c: char) {
    || ('\U{9}' <= c <= '\U{D}') || c == ' ' || c == '\U{85}' || c == '\U{A0}'
    || c == '\U{1680}' || ('\U{2000}' <= c <= '\U{200A}') || c == '\U{2028}'
    || c == '\U{2029}' || c == '\U{202F}' || c == '\U{205F}' || c == '\U{3000}'
  }

  predicate AllWhitespace(s: string) {
    forall k :: 0 <= k < |s| ==> IsWhitespace(s[k])
  }

  /** `s` neither starts nor ends with whitespace. */
  predicate Trimmed(s: string) {
    s == [] || (!IsWhitespace(s[0]) && !IsWhitespace(s[|s| - 1]))
  }

  /** Rust's `str::trim_start`. */
  function TrimStart(s: string): string
  {
    if s != [] && IsWhitespace(s[0]) then TrimStart(s[1..]) else s
  }

  /** `trim_start` removes a run of whitespace from the front and stops at the first other character. */
  lemma {:induction false} TrimStartSpec(s: string)
    ensures var r := TrimStart(s);
      && |r| <= |s| && r == s[|s| - |r|..]
      && AllWhitespace(s[..|s| - |r|])
      && (r == [] || !IsWhitespace(r[0]))
    decreases |s|
  {
    if s != [] && IsWhitespace(s[0]) {
      var t := s[1..];
      TrimStartSpec(t);
      var r := TrimStart(t);
      assert TrimStart(s) == r;
      var n := |s| - |r|;
      assert t[n - 1..] == s[n..];
      forall k | 0 <= k < n ensures IsWhitespace(s[..n][k]) {
        if k > 0 {
          assert s[..n][k] == t[..n - 1][k - 1];
        }
      }
    }
  }

  /** Rust's `str::trim_end`. */
  function TrimEnd(s: string): string
  {
    if s != [] && IsWhitespace(s[|s| - 1]) then TrimEnd(s[..|s| - 1]) else s
  }

  /** `trim_end` removes a run of whitespace from the back and stops at the last other character. */
  lemma {:induction false} TrimEndSpec(s: string)
    ensures var r := TrimEnd(s);
      && |r| <= |s| && r == s[..|r|]
      && AllWhitespace(s[|r|..])
      && (r == [] || !IsWhitespace(r[|r| - 1]))
    decreases |s|
  {
    if s != [] && IsWhitespace(s[|s| - 1]) {
      var t := s[..|s| - 1];
      TrimEndSpec(t);
      var r := TrimEnd(t);
      assert TrimEnd(s) == r;
      assert t[..|r|] == s[..|r|];
      forall k | 0 <= k < |s| - |r| ensures IsWhitespace(s[|r|..][k]) {
        if k < |t| - |r| {
          assert s[|r|..][k] == t[|r|..][k];
        }
      }
    }
  }

  /** Rust's `str::trim`: `trim_start` followed by `trim_end`. */
  function Trim(s: string): string
  {
    TrimEnd(TrimStart(s))
  }

  /**
   * Trimming leaves no whitespace at either end, gives the empty text
   * exactly when the input is all whitespace, and keeps only characters of
   * the input.
   */
  lemma TrimSpec(s: string)
    ensures Trimmed(Trim(s))
    ensures Trim(s) == [] <==> AllWhitespace(s)
    ensures forall x :: x in Trim(s) ==> x in s
  {
    var t := TrimStart(s);
    var r := TrimEnd(t);
    TrimStartSpec(s);
    TrimEndSpec(t);
    if r != [] {
      assert r[0] == t[0];
    }
    if r == [] {
      assert t == [];
      forall k | 0 <= k < |s| ensures IsWhitespace(s[k]) {
        assert s[k] == s[..|s| - |t|][k];
      }
    }
    forall x | x in r ensures x in s {
      var k :| 0 <= k < |r| && r[k] == x;
      assert x == t[k] == s[|s| - |t| + k];
    }
  }

  /** Trimming removes exactly the surrounding whitespace and nothing else. */
  lemma {:induction false} TrimSurrounded(pre: string, x: string, post: string)
    requires AllWhitespace(pre) && AllWhitespace(post)
    requires x != [] && Trimmed(x)
    ensures Trim(pre + x + post) == x
  {
    TrimStartPrefix(pre, x + post);
    assert pre + x + post == pre + (x + post);
    TrimEndSuffix(x, post);
  }

  lemma {:induction false} TrimStartPrefix(pre: string, y: string)
    requires AllWhitespace(pre)
    requires y != [] && !IsWhitespace(y[0])
    ensures TrimStart(pre + y) == y
    decreases |pre|
  {
    if pre != [] {
      assert (pre + y)[1..] == pre[1..] + y;
      TrimStartPrefix(pre[1..], y);
    } else {
      assert pre + y == y;
    }
  }

  lemma {:induction false} TrimEndSuffix(y: string, post: string)
    requires AllWhitespace(post)
    requires y != [] && !IsWhitespace(y[|y| - 1])
    ensures TrimEnd(y + post) == y
    decreases |post|
  {
    if post != [] {
      assert (y + post)[..|y + post| - 1] == y + post[..|post| - 1];
      TrimEndSuffix(y, post[..|post| - 1]);
    } else {
      assert y + post == y;
    }
  }

  // ---------------------------------------------------------------------------
  // Decimal digits

  predicate IsDigit(c: char) {
    '0' <= c <= '9'
  }

  predicate AllDigits(s: string) {
    forall k :: 0 <= k < |s| ==> IsDigit(s[k])
  }

  function DigitValue(c: char): (d: nat)
    requires IsDigit(c)
    ensures d <= 9
  {
    (c as int) - ('0' as int)
  }

  function DigitChar(d: nat): (c: char)
    requires d <= 9
    ensures IsDigit(c) && DigitValue(c) == d
  {
    (('0' as int) + d) as char
  }

  /** The value of a run of decimal digits, as `str::parse::<usize>` reads it. */
  function DecimalValue(s: string): nat
    requires AllDigits(s)
    decreases |s|
  {
    if s == [] then 0 else 10 * DecimalValue(s[..|s| - 1]) + DigitValue(s[|s| - 1])
  }

  /** The decimal rendering of `n`, without leading zeros. */
  function Digits(n: nat): (r: string)
    ensures |r| >= 1 && AllDigits(r) && DecimalValue(r) == n
    ensures n < 10 ==> |r| == 1
    ensures n < 100 ==> |r| <= 2
    ensures n < 1000 ==> |r| <= 3
    decreases n
  {
    var r := if n < 10 then [DigitChar(n)] else Digits(n / 10) + [DigitChar(n % 10)];
    assert r[..|r| - 1] == (if n < 10 then [] else Digits(n / 10));
    r
  }

  function Zeros(k: nat): (r: string)
    ensures |r| == k && AllDigits(r)
    ensures forall i :: 0 <= i < k ==> r[i] == '0'
  {
    if k == 0 then [] else Zeros(k - 1) + ['0']
  }

  /** Leading zeros do not change a decimal value. */
  lemma {:induction false} LeadingZeros(k: nat, s: string)
    requires AllDigits(s)
    ensures AllDigits(Zeros(k) + s) && DecimalValue(Zeros(k) + s) == DecimalValue(s)
    decreases |s|, k
  {
    var z := Zeros(k) + s;
    assert AllDigits(z) by {
      forall i | 0 <= i < |z| ensures IsDigit(z[i]) {
        if i < k { assert z[i] == Zeros(k)[i]; } else { assert z[i] == s[i - k]; }
      }
    }
    if s == [] {
      if k > 0 {
        assert z == Zeros(k - 1) + ['0'];
        assert z[..|z| - 1] == Zeros(k - 1) + [];
        LeadingZeros(k - 1, []);
      }
    } else {
      assert z[..|z| - 1] == Zeros(k) + s[..|s| - 1];
      LeadingZeros(k, s[..|s| - 1]);
    }
  }

  /** `n` rendered in at least `width` digits, padded with leading zeros. */
  function Padded(n: nat, width: nat): (r: string)
    ensures AllDigits(r) && DecimalValue(r) == n
    ensures |r| >= 1 && |r| >= width
    ensures |Digits(n)| <= width ==> |r| == width
  {
    var d := Digits(n);
    var k := if |d| < width then width - |d| else 0;
    LeadingZeros(k, d);
    Zeros(k) + d
  }

  /** A digit string with a non-zero first digit has a positive value. */
  lemma {:induction false} LeadingDigitPositive(s: string)
    requires AllDigits(s) && |s| >= 1 && s[0] != '0'
    ensures DecimalValue(s) > 0
    decreases |s|
  {
    if |s| > 1 {
      LeadingDigitPositive(s[..|s| - 1]);
    }
  }

  /** A digit string without leading zeros is the rendering of its own value. */
  lemma {:induction false} DigitsCanonical(s: string)
    requires AllDigits(s) && |s| >= 1 && s[0] != '0'
    ensures Digits(DecimalValue(s)) == s
    decreases |s|
  {
    if |s| > 1 {
      var init := s[..|s| - 1];
      LeadingDigitPositive(init);
      DigitsCanonical(init);
      var n := DecimalValue(s);
      assert n / 10 == DecimalValue(init) && n % 10 == DigitValue(s[|s| - 1]);
      assert s == init + [s[|s| - 1]];
    }
  }

  /** The number of `'0'` characters `s` starts with. */
  function LeadingZeroCount(s: string): (k: nat)
    ensures k <= |s| && (k < |s| ==> s[k] != '0')
    ensures forall i :: 0 <= i < k ==> s[i] == '0'
  {
    if s != [] && s[0] == '0' then 1 + LeadingZeroCount(s[1..]) else 0
  }

  /**
   * Every digit string is its value's rendering behind some leading zeros,
   * or, when its value is zero, nothing but zeros.
   */
  lemma DigitsWithLeadingZeros(s: string)
    requires AllDigits(s) && |s| >= 1
    ensures DecimalValue(s) == 0 ==> s == Zeros(|s|)
    ensures DecimalValue(s) > 0 ==> |Digits(DecimalValue(s))| <= |s| && s == Zeros(|s| - |Digits(DecimalValue(s))|) + Digits(DecimalValue(s))
  {
    var k := LeadingZeroCount(s);
    var rest := s[k..];
    assert s[..k] == Zeros(k);
    assert s == Zeros(k) + rest;
    LeadingZeros(k, rest);
    assert DecimalValue(s) == DecimalValue(rest);
    if k < |s| {
      LeadingDigitPositive(rest);
      DigitsCanonical(rest);
      assert DecimalValue(s) > 0;
      assert Digits(DecimalValue(s)) == rest;
      assert |s| - |rest| == k;
    } else {
      assert rest == [];
      assert s == Zeros(|s|);
      assert DecimalValue(s) == 0;
    }
  }
}
