/**
 * The JavaScript string operations the proposal codec is built from:
 * `String.prototype.split` and `Array.prototype.join` with a one-character
 * separator, and `String.prototype.includes`.
 */
module Text {

  /** Index of the first occurrence of `c` in `s`. */
  function FirstIndex(s: string, c: char): (i: nat)
    requires c in s
    ensures i < |s| && s[i] == c
    ensures c !in s[..i]
  {
    if s[0] == c then 0
    else
      assert s == [s[0]] + s[1..];
      var j := FirstIndex(s[1..], c);
      assert s[..j + 1] == [s[0]] + s[1..][..j];
      j + 1
  }

  /**
   * `s.split(sep)`: the pieces of `s` between occurrences of `sep`. Splitting
   * never yields an empty list (the empty string splits to `[""]`), and no
   * piece holds the separator.
   */
  function Split(s: string, sep: char): (parts: seq<string>)
    ensures |parts| >= 1
    ensures forall k :: 0 <= k < |parts| ==> sep !in parts[k]
    decreases |s|
  {
    if sep !in s then [s]
    else
      var i := FirstIndex(s, sep);
      [s[..i]] + Split(s[i + 1..], sep)
  }

  /** The number of characters in all the pieces together. */
  function TotalLength(parts: seq<string>): nat
  {
    if parts == [] then 0 else |parts[0]| + TotalLength(parts[1..])
  }

  /**
   * `parts.join(sep)`: the empty list joins to the empty string; otherwise
   * the pieces in order with one separator between each two, so the text is
   * as long as the pieces together plus `|parts| - 1`.
   */
  function Join(parts: seq<string>, sep: char): (s: string)
    ensures parts == [] ==> s == ""
    ensures parts != [] ==> |s| == TotalLength(parts) + |parts| - 1
  {
    if |parts| == 0 then ""
    else if |parts| == 1 then parts[0]
    else parts[0] + [sep] + Join(parts[1..], sep)
  }

  /** `sub` occurs in `s` starting at index `i`. */
  predicate OccursAt(s: string, sub: string, i: int)
  {
    0 <= i <= |s| - |sub| && s[i..i + |sub|] == sub
  }

  /**
   * `s.includes(sub)`: found exactly when `sub` occurs in `s` at some
   * position, the start and the end included.
   */
  function Includes(s: string, sub: string): (found: bool)
    ensures found ==> |sub| <= |s| && exists i :: 0 <= i <= |s| - |sub| && OccursAt(s, sub, i)
    ensures forall i :: 0 <= i <= |s| - |sub| && OccursAt(s, sub, i) ==> found
    ensures sub <= s ==> found
    ensures |sub| <= |s| && s[|s| - |sub|..] == sub ==> found
  {
    assert sub <= s ==> OccursAt(s, sub, 0);
    assert |sub| <= |s| && s[|s| - |sub|..] == sub ==> OccursAt(s, sub, |s| - |sub|);
    exists i | 0 <= i <= |s| - |sub| :: OccursAt(s, sub, i)
  }

  /** No piece holds the separator: the side condition under which joining loses nothing. */
  predicate SeparatorFree(parts: seq<string>, sep: char)
  {
    forall k :: 0 <= k < |parts| ==> sep !in parts[k]
  }

  /** Joining the pieces of a split gives back the string that was split. */
  lemma {:induction false} JoinSplit(s: string, sep: char)
    ensures Join(Split(s, sep), sep) == s
    decreases |s|
  {
    if sep in s {
      var i := FirstIndex(s, sep);
      var rest := Split(s[i + 1..], sep);
      JoinSplit(s[i + 1..], sep);
      assert Split(s, sep) == [s[..i]] + rest;
      JoinCons(s[..i], rest, sep);
      assert s == s[..i] + [sep] + s[i + 1..];
    }
  }

  /** Joining a first piece in front of one or more others puts one separator between them. */
  lemma JoinCons(head: string, rest: seq<string>, sep: char)
    requires |rest| >= 1
    ensures Join([head] + rest, sep) == head + [sep] + Join(rest, sep)
  {
    assert ([head] + rest)[1..] == rest;
  }

  /** A separator-free piece followed by the separator is split off as the first piece. */
  lemma SplitFirstPiece(x: string, y: string, sep: char)
    requires sep !in x
    ensures Split(x + [sep] + y, sep) == [x] + Split(y, sep)
  {
    var s := x + [sep] + y;
    assert s[|x|] == sep;
    assert s[..|x|] == x;
    var i := FirstIndex(s, sep);
    assert s[..i] == x;
    assert s[i + 1..] == y;
  }

  /**
   * Splitting a join gives back the pieces, provided there was at least one
   * piece and none of them held the separator.
   */
  lemma {:induction false} SplitJoin(parts: seq<string>, sep: char)
    requires |parts| >= 1
    requires SeparatorFree(parts, sep)
    ensures Split(Join(parts, sep), sep) == parts
    decreases |parts|
  {
    if |parts| == 1 {
      assert sep !in parts[0];
    } else {
      assert sep !in parts[0];
      SplitFirstPiece(parts[0], Join(parts[1..], sep), sep);
      SplitJoin(parts[1..], sep);
      assert parts == [parts[0]] + parts[1..];
    }
  }

  /** Joining n separator-free pieces puts exactly n - 1 separators into the result. */
  lemma {:induction false} JoinSeparatorCount(parts: seq<string>, sep: char)
    requires |parts| >= 1
    requires SeparatorFree(parts, sep)
    ensures multiset(Join(parts, sep))[sep] == |parts| - 1
    decreases |parts|
  {
    assert sep !in parts[0];
    assert multiset(parts[0])[sep] == 0;
    if |parts| > 1 {
      JoinSeparatorCount(parts[1..], sep);
      var tail := Join(parts[1..], sep);
      assert multiset(parts[0] + [sep] + tail) == multiset(parts[0]) + multiset([sep]) + multiset(tail);
    }
  }
}
