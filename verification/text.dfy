/**
  The few Python string operations the library relies on: substring search
  (`in`), `str.split` with a literal separator, and negative slicing
  (`s[-n:]`).
 */
module Text {
  import opened Common

  /** `pat` occurs in `s` starting at index `i`. */
  predicate OccursAt(s: string, pat: string, i: nat) {
    i + |pat| <= |s| && s[i..i + |pat|] == pat
  }

  /** The first index at or after `from` where `pat` occurs in `s`. */
  function IndexOfFrom(s: string, pat: string, from: nat): (r: Option<nat>)
    requires |pat| > 0
    decreases |s| - from
    ensures r.Some? ==> from <= r.value && OccursAt(s, pat, r.value)
    ensures r.Some? ==> forall j :: from <= j < r.value ==> !OccursAt(s, pat, j)
    ensures r.None? ==> forall j :: from <= j ==> !OccursAt(s, pat, j)
  {
    if |s| < from + |pat| then None
    else if s[from..from + |pat|] == pat then Some(from)
    else IndexOfFrom(s, pat, from + 1)
  }

  /** The first index where `pat` occurs in `s`. */
  function IndexOf(s: string, pat: string): Option<nat>
    requires |pat| > 0
  {
    IndexOfFrom(s, pat, 0)
  }

  /** Python's `pat in s` for a non-empty `pat`. */
  predicate Contains(s: string, pat: string)
    requires |pat| > 0
  {
    IndexOf(s, pat).Some?
  }

  lemma ContainsMeansOccurs(s: string, pat: string)
    requires |pat| > 0
    ensures Contains(s, pat) <==> exists i: nat :: OccursAt(s, pat, i)
  {
    if Contains(s, pat) {
      var i := IndexOf(s, pat).value;
      assert OccursAt(s, pat, i);
    }
  }

  /**
    Python's `s.split(sep)`: the pieces between successive non-overlapping
    occurrences of `sep`, scanning left to right. There is always at least
    one piece.
   */
  function Split(s: string, sep: string): (parts: seq<string>)
    requires |sep| > 0
    ensures |parts| >= 1
    decreases |s|
  {
    match IndexOf(s, sep)
    case None => [s]
    case Some(i) => [s[..i]] + Split(s[i + |sep|..], sep)
  }

  /** Python's `sep.join(parts)`. */
  function Join(parts: seq<string>, sep: string): string
    requires |parts| >= 1
  {
    if |parts| == 1 then parts[0] else parts[0] + sep + Join(parts[1..], sep)
  }

  /** An occurrence inside a prefix of `s` is an occurrence in `s`. */
  lemma OccursInPrefix(s: string, pat: string, i: nat, j: nat)
    requires i <= |s|
    requires OccursAt(s[..i], pat, j)
    ensures OccursAt(s, pat, j) && j + |pat| <= i
  {
    assert s[..i][j..j + |pat|] == s[j..j + |pat|];
  }

  /** Joining a list with a head piece puts the separator after that piece. */
  lemma JoinCons(head: string, rest: seq<string>, sep: string)
    requires |rest| >= 1
    ensures Join([head] + rest, sep) == head + sep + Join(rest, sep)
  {
    assert ([head] + rest)[1..] == rest;
  }

  /** Text around an occurrence is the prefix, the occurrence and the remainder. */
  lemma AroundOccurrence(s: string, sep: string, i: nat)
    requires OccursAt(s, sep, i)
    ensures s == s[..i] + sep + s[i + |sep|..]
  {
  }

  /** Splitting and joining again gives back the original text. */
  lemma {:induction false} JoinSplit(s: string, sep: string)
    requires |sep| > 0
    ensures Join(Split(s, sep), sep) == s
    decreases |s|
  {
    match IndexOf(s, sep)
    case None =>
    case Some(i) =>
      var tail := s[i + |sep|..];
      JoinSplit(tail, sep);
      JoinCons(s[..i], Split(tail, sep), sep);
      AroundOccurrence(s, sep, i);
  }

  /** The text before the first occurrence of the separator does not contain it. */
  lemma PrefixBeforeFirstOccurrence(s: string, sep: string)
    requires |sep| > 0 && IndexOf(s, sep).Some?
    ensures !Contains(s[..IndexOf(s, sep).value], sep)
  {
    var i := IndexOf(s, sep).value;
    ContainsMeansOccurs(s[..i], sep);
    if Contains(s[..i], sep) {
      var j: nat :| OccursAt(s[..i], sep, j);
      OccursInPrefix(s, sep, i, j);
    }
  }

  /** No piece of a split contains the separator. */
  lemma {:induction false} SplitPiecesAreFree(s: string, sep: string)
    requires |sep| > 0
    ensures forall k :: 0 <= k < |Split(s, sep)| ==> !Contains(Split(s, sep)[k], sep)
    decreases |s|
  {
    match IndexOf(s, sep)
    case None =>
    case Some(i) =>
      var tail := s[i + |sep|..];
      SplitPiecesAreFree(tail, sep);
      PrefixBeforeFirstOccurrence(s, sep);
      var parts := Split(s, sep);
      forall k | 0 <= k < |parts|
        ensures !Contains(parts[k], sep)
      {
        if k > 0 {
          assert parts[k] == Split(tail, sep)[k - 1];
        }
      }
  }

  /** The first piece of a split, and where the second piece comes from. */
  lemma SplitPieces(s: string, sep: string)
    requires |sep| > 0
    ensures IndexOf(s, sep).None? ==> Split(s, sep) == [s]
    ensures IndexOf(s, sep).Some? ==>
      var i := IndexOf(s, sep).value;
      && |Split(s, sep)| >= 2
      && Split(s, sep)[0] == s[..i]
      && Split(s, sep)[1] == Split(s[i + |sep|..], sep)[0]
  {
  }

  /**
    The first piece of a split is non-empty exactly when the text does not
    start with the separator, and then it starts with the text's first
    character.
   */
  lemma FirstPieceHead(s: string, sep: string)
    requires |sep| > 0
    ensures |Split(s, sep)[0]| > 0 <==> |s| > 0 && !OccursAt(s, sep, 0)
    ensures |Split(s, sep)[0]| > 0 ==> Split(s, sep)[0][0] == s[0]
  {
    SplitPieces(s, sep);
  }

  /**
    The last `n` characters of `s`, or all of `s` when it is shorter: Python's
    `s[-n:]` for a positive `n` (`s[-0:]` would be the whole string).
   */
  function LastChars(s: string, n: nat): (r: string)
    requires n > 0
    ensures |r| == if |s| <= n then |s| else n
    ensures s == s[..|s| - |r|] + r
  {
    if |s| <= n then s else s[|s| - n..]
  }
}
