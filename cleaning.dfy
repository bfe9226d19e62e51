/**
 * Reducing a text to its distinct characters in ascending order, as
 * collecting its characters into an ordered set and reading the set back
 * out does.
 */
module Cleaning {

  /** Each character is smaller than every character after it: sorted and without repeats. */
  predicate StrictlyAscending(s: string) {
    forall i, j :: 0 <= i < j < |s| ==> s[i] < s[j]
  }

  /** Adding one character to an ordered set kept as its ascending sequence. */
  function Insert(x: char, s: string): (r: string)
    requires StrictlyAscending(s)
    ensures StrictlyAscending(r)
    ensures forall c :: c in r <==> c == x || c in s
  {
    if s == [] then [x]
    else if x < s[0] then [x] + s
    else if x == s[0] then s
    else
      var t := Insert(x, s[1..]);
      assert forall k :: 0 <= k < |t| ==> s[0] < t[k] by {
        forall k | 0 <= k < |t| ensures s[0] < t[k] {
          assert t[k] in t;
          if t[k] != x {
            var i :| 0 <= i < |s| - 1 && s[1..][i] == t[k];
            assert s[i + 1] == t[k];
          }
        }
      }
      [s[0]] + t
  }

  /** Inserting the characters of `xs` one after the other, from the first. */
  function CollectInto(acc: string, xs: string): (r: string)
    requires StrictlyAscending(acc)
    ensures StrictlyAscending(r)
    ensures forall c :: c in r <==> c in acc || c in xs
    decreases |xs|
  {
    if xs == [] then acc else CollectInto(Insert(xs[0], acc), xs[1..])
  }

  /**
   * The deduplicated, sorted characters of `xs`: every character of `xs`
   * once, no other character, in ascending order, and none twice.
   */
  function DedupeAndSort(xs: string): (r: string)
    ensures StrictlyAscending(r)
    ensures forall c :: c in r <==> c in xs
    ensures forall i, j :: 0 <= i < j < |r| ==> r[i] != r[j]
  {
    CollectInto([], xs)
  }

  /** Two ascending sequences with the same characters are the same sequence. */
  lemma {:induction false} AscendingUnique(a: string, b: string)
    requires StrictlyAscending(a) && StrictlyAscending(b)
    requires forall c :: c in a <==> c in b
    ensures a == b
    decreases |a|
  {
    assert a != [] ==> a[0] in b;
    assert b != [] ==> b[0] in a;
    if a != [] && b != [] {
      assert a[0] in b && b[0] in a;
      assert a[0] == b[0] by {
        var i :| 0 <= i < |a| && a[i] == b[0];
        var j :| 0 <= j < |b| && b[j] == a[0];
        assert a[0] <= a[i] && b[0] <= b[j];
      }
      forall c ensures c in a[1..] <==> c in b[1..] {
        AscendingTail(a, c);
        AscendingTail(b, c);
      }
      AscendingUnique(a[1..], b[1..]);
      assert a == [a[0]] + a[1..] && b == [b[0]] + b[1..];
    }
  }

  /** In an ascending sequence, a character is in the tail exactly when it is in the sequence and above the head. */
  lemma AscendingTail(s: string, c: char)
    requires StrictlyAscending(s) && s != []
    ensures c in s[1..] <==> c in s && c != s[0]
  {
    if c in s && c != s[0] {
      var i :| 0 <= i < |s| && s[i] == c;
      assert s[1..][i - 1] == c;
    }
    if c in s[1..] {
      var i :| 0 <= i < |s| - 1 && s[1..][i] == c;
      assert s[0] < s[i + 1];
    }
  }

  /** The result depends only on which characters occur, not on their order or repeats. */
  lemma DedupeAndSortSameChars(xs: string, ys: string)
    requires forall c :: c in xs <==> c in ys
    ensures DedupeAndSort(xs) == DedupeAndSort(ys)
  {
    AscendingUnique(DedupeAndSort(xs), DedupeAndSort(ys));
  }

  /** A text is its own deduplicated, sorted form exactly when it is strictly ascending. */
  lemma DedupeAndSortFixed(s: string)
    ensures DedupeAndSort(s) == s <==> StrictlyAscending(s)
  {
    if StrictlyAscending(s) {
      AscendingUnique(DedupeAndSort(s), s);
    }
  }

  /** Deduplicating and sorting twice is the same as doing it once. */
  lemma DedupeAndSortIdempotent(xs: string)
    ensures DedupeAndSort(DedupeAndSort(xs)) == DedupeAndSort(xs)
  {
    DedupeAndSortFixed(DedupeAndSort(xs));
  }

  /** A small example: the characters of "banana" are "abn". */
  lemma DedupeAndSortExample()
    ensures DedupeAndSort("banana") == "abn"
  {
    AscendingUnique(DedupeAndSort("banana"), "abn");
  }
}
