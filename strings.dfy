/** The String and Array methods deepenv uses on environment keys: startsWith,
    indexOf, split and join. */
module JsStrings {
  import opened JsValues

  /** String.prototype.startsWith: a case-sensitive comparison of the leading characters. */
  predicate StartsWith(s: string, p: string)
  {
    |p| <= |s| && s[..|p|] == p
  }

  /** `d` occurs in `s` at index `i`. */
  predicate OccursAt(s: string, d: string, i: nat)
  {
    i + |d| <= |s| && s[i..i + |d|] == d
  }

  predicate Contains(s: string, d: string)
  {
    exists i :: 0 <= i <= |s| && OccursAt(s, d, i)
  }

  /** String.prototype.indexOf: the first occurrence of `d` in `s` at or after `from`. */
  function IndexOf(s: string, d: string, from: nat): (r: Option<nat>)
    requires from <= |s|
    ensures r.Some? ==> from <= r.value <= |s| && OccursAt(s, d, r.value)
    ensures r.Some? ==> forall j :: from <= j < r.value ==> !OccursAt(s, d, j)
    ensures r.None? ==> forall j :: from <= j <= |s| ==> !OccursAt(s, d, j)
    decreases |s| - from
  {
    if OccursAt(s, d, from) then Some(from)
    else if from == |s| then None
    else IndexOf(s, d, from + 1)
  }

  /** String.prototype.split with a non-empty separator: the pieces between the
      leftmost non-overlapping occurrences of `d`, scanning from the left. */
  function Split(s: string, d: string): (parts: seq<string>)
    requires |d| > 0
    ensures |parts| > 0
    decreases |s|
  {
    match IndexOf(s, d, 0)
    case None => [s]
    case Some(i) => [s[..i]] + Split(s[i + |d|..], d)
  }

  /** Array.prototype.join: the parts with `d` between consecutive ones. */
  function Join(parts: seq<string>, d: string): string
    decreases |parts|
  {
    if parts == [] then ""
    else if |parts| == 1 then parts[0]
    else parts[0] + d + Join(parts[1..], d)
  }

  /** Joining the pieces of a split with the same separator gives back the string. */
  lemma {:induction false} JoinSplit(s: string, d: string)
    requires |d| > 0
    ensures Join(Split(s, d), d) == s
    decreases |s|
  {
    match IndexOf(s, d, 0)
    case None =>
    case Some(i) =>
      var rest := s[i + |d|..];
      JoinSplit(rest, d);
      assert Split(s, d) == [s[..i]] + Split(rest, d);
      assert s == s[..i] + d + rest;
  }

  /** No piece of a split contains the separator. */
  lemma {:induction false} SplitPiecesFree(s: string, d: string)
    requires |d| > 0
    ensures forall k :: 0 <= k < |Split(s, d)| ==> !Contains(Split(s, d)[k], d)
    decreases |s|
  {
    match IndexOf(s, d, 0)
    case None =>
      forall j | 0 <= j <= |s| && OccursAt(s, d, j)
        ensures false
      {
      }
    case Some(i) =>
      var rest := s[i + |d|..];
      SplitPiecesFree(rest, d);
      var head := s[..i];
      forall j | 0 <= j <= |head|
        ensures !OccursAt(head, d, j)
      {
        assert j < i ==> !OccursAt(s, d, j);
        if j + |d| <= |head| {
          assert forall m :: j <= m < j + |d| ==> s[m] == head[m];
          assert s[j..j + |d|] == head[j..j + |d|];
        }
      }
      assert Split(s, d) == [head] + Split(rest, d);
  }

  /** Every character of a piece of a split is a character of the string split. */
  lemma {:induction false} SplitPiecesWithin(s: string, d: string)
    requires |d| > 0
    ensures forall k, c :: 0 <= k < |Split(s, d)| && c in Split(s, d)[k] ==> c in s
    decreases |s|
  {
    match IndexOf(s, d, 0)
    case None =>
    case Some(i) =>
      var rest := s[i + |d|..];
      SplitPiecesWithin(rest, d);
      assert Split(s, d) == [s[..i]] + Split(rest, d);
      forall c | c in rest
        ensures c in s
      {
        var m :| 0 <= m < |rest| && rest[m] == c;
        assert s[i + |d| + m] == c;
      }
      forall c | c in s[..i]
        ensures c in s
      {
        var m :| 0 <= m < i && s[..i][m] == c;
        assert s[m] == c;
      }
  }

  /** A string in which the separator does not occur is not split. */
  lemma SplitWithoutSeparator(s: string, d: string)
    requires |d| > 0
    requires !Contains(s, d)
    ensures Split(s, d) == [s]
  {
    assert forall j :: 0 <= j <= |s| ==> !OccursAt(s, d, j);
    assert IndexOf(s, d, 0).None?;
  }

  /** Splitting undoes joining pieces in which the first character of the separator
      does not occur. */
  lemma {:induction false} SplitJoin(parts: seq<string>, d: string)
    requires |d| > 0 && |parts| > 0
    requires forall k :: 0 <= k < |parts| ==> d[0] !in parts[k]
    ensures Split(Join(parts, d), d) == parts
    decreases |parts|
  {
    var s := Join(parts, d);
    var p0 := parts[0];
    if |parts| == 1 {
      forall j | 0 <= j <= |s|
        ensures !OccursAt(s, d, j)
      {
        assert j < |s| ==> s[j] != d[0];
      }
    } else {
      var rest := Join(parts[1..], d);
      assert s == p0 + d + rest;
      assert OccursAt(s, d, |p0|);
      forall j | 0 <= j < |p0|
        ensures !OccursAt(s, d, j)
      {
        assert s[j] == p0[j];
      }
      assert IndexOf(s, d, 0) == Some(|p0|);
      assert s[..|p0|] == p0;
      assert s[|p0| + |d|..] == rest;
      SplitJoin(parts[1..], d);
    }
  }
}
