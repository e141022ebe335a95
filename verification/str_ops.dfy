/** The operations on Python strings that POSIX path handling is built from:
    `s.split('/')`, `'/'.join(parts)`, `s.rfind('/')` and `s.rstrip('/')`. */
module StrOps {

  /** The POSIX path separator. */
  const Sep: char := '/'

  /** `s.split('/')`: the pieces between separators, in order. There is always
      at least one piece, and no piece contains a separator. */
  function Split(s: string): (parts: seq<string>)
    ensures |parts| >= 1
    ensures forall i :: 0 <= i < |parts| ==> Sep !in parts[i]
    decreases |s|
  {
    if |s| == 0 then [""]
    else
      var rest := Split(s[1..]);
      if s[0] == Sep then [""] + rest
      else [[s[0]] + rest[0]] + rest[1..]
  }

  /** `'/'.join(parts)`. */
  function JoinParts(parts: seq<string>): string
  {
    if |parts| == 0 then ""
    else if |parts| == 1 then parts[0]
    else parts[0] + "/" + JoinParts(parts[1..])
  }

  /** `s.rfind('/')`: the index of the last separator, or -1 when there is none. */
  function LastSep(s: string): (i: int)
    ensures -1 <= i < |s|
    ensures 0 <= i ==> s[i] == Sep
    ensures forall k :: i < k < |s| ==> s[k] != Sep
  {
    if |s| == 0 then -1
    else if s[|s| - 1] == Sep then |s| - 1
    else LastSep(s[..|s| - 1])
  }

  /** `s.rstrip('/')`: `s` without its trailing separators. */
  function RStrip(s: string): (r: string)
    ensures r <= s
    ensures |r| == 0 || r[|r| - 1] != Sep
    ensures forall k :: |r| <= k < |s| ==> s[k] == Sep
  {
    if |s| > 0 && s[|s| - 1] == Sep then RStrip(s[..|s| - 1]) else s
  }

  /** Every character of `s` is a separator (true of the empty string). */
  predicate AllSep(s: string)
  {
    forall k :: 0 <= k < |s| ==> s[k] == Sep
  }

  /** A string without separators splits into itself. */
  lemma {:induction false} SplitNoSep(s: string)
    requires Sep !in s
    ensures Split(s) == [s]
    decreases |s|
  {
    if |s| > 0 {
      assert Sep !in s[1..];
      SplitNoSep(s[1..]);
      assert [s[0]] + s[1..] == s;
    }
  }

  /** Splitting at a separator: the pieces of `x` followed by the pieces of `y`. */
  lemma {:induction false} SplitAppend(x: string, y: string)
    ensures Split(x + "/" + y) == Split(x) + Split(y)
    decreases |x|
  {
    if |x| > 0 {
      var s := x + "/" + y;
      assert s[1..] == x[1..] + "/" + y;
      SplitAppend(x[1..], y);
    }
  }

  /** Appending one more piece to a join adds a separator and the piece. */
  lemma {:induction false} JoinPartsSnoc(parts: seq<string>, c: string)
    requires |parts| >= 1
    ensures JoinParts(parts + [c]) == JoinParts(parts) + "/" + c
    decreases |parts|
  {
    if |parts| > 1 {
      assert (parts + [c])[1..] == parts[1..] + [c];
      JoinPartsSnoc(parts[1..], c);
    }
  }

  /** Joining the pieces of a split gives back the string. */
  lemma {:induction false} JoinSplit(s: string)
    ensures JoinParts(Split(s)) == s
    decreases |s|
  {
    if |s| > 0 {
      JoinSplit(s[1..]);
      var rest := Split(s[1..]);
      if s[0] == Sep {
        assert ([""] + rest)[1..] == rest;
      } else if |rest| == 1 {
        assert [s[0]] + s[1..] == s;
      } else {
        assert ([[s[0]] + rest[0]] + rest[1..])[1..] == rest[1..];
        assert JoinParts(rest) == rest[0] + "/" + JoinParts(rest[1..]);
        assert [s[0]] + s[1..] == s;
      }
    }
  }

  /** Splitting a join of separator-free pieces gives back the pieces. */
  lemma {:induction false} SplitJoin(parts: seq<string>)
    requires |parts| >= 1
    requires forall i :: 0 <= i < |parts| ==> Sep !in parts[i]
    ensures Split(JoinParts(parts)) == parts
    decreases |parts|
  {
    SplitNoSep(parts[0]);
    if |parts| > 1 {
      SplitJoin(parts[1..]);
      SplitAppend(parts[0], JoinParts(parts[1..]));
      assert [parts[0]] + parts[1..] == parts;
    }
  }

  /** The last separator of `s + "/" + c`, when `c` has none, is the one added. */
  lemma {:induction false} LastSepAppend(s: string, c: string)
    requires Sep !in c
    ensures LastSep(s + "/" + c) == |s|
  {
    var t := s + "/" + c;
    var i := LastSep(t);
    assert t[|s|] == Sep;
    assert forall k :: |s| < k < |t| ==> t[k] == c[k - |s| - 1];
  }
}
