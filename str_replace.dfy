/** Python's `str.replace(key, value)` and `str.count(key)` on text, for a
    non-empty key: every non-overlapping occurrence of `key`, found scanning
    left to right, is replaced; the scan resumes after the occurrence, so text
    just inserted is never looked at again by the same call. */
module StrReplace {

  /** `p` is a prefix of `s`. */
  predicate StartsWith(s: string, p: string) {
    |p| <= |s| && s[..|p|] == p
  }

  /** `key` occurs somewhere in `s` (Python's `key in s`). */
  predicate OccursIn(key: string, s: string) {
    exists i :: 0 <= i <= |s| && StartsWith(s[i..], key)
  }

  /** `s.replace(key, value)`. */
  function ReplaceAll(s: string, key: string, value: string): string
    requires |key| > 0
    decreases |s|
  {
    if StartsWith(s, key) then value + ReplaceAll(s[|key|..], key, value)
    else if s == [] then []
    else [s[0]] + ReplaceAll(s[1..], key, value)
  }

  /** `s.count(key)`: the number of occurrences `ReplaceAll` rewrites. */
  function Count(s: string, key: string): nat
    requires |key| > 0
    decreases |s|
  {
    if StartsWith(s, key) then 1 + Count(s[|key|..], key)
    else if s == [] then 0
    else Count(s[1..], key)
  }

  /** `s.split(key)`: the pieces between the occurrences, left to right. */
  function Split(s: string, key: string): (pieces: seq<string>)
    requires |key| > 0
    ensures |pieces| == Count(s, key) + 1
    decreases |s|
  {
    if StartsWith(s, key) then [[]] + Split(s[|key|..], key)
    else if s == [] then [[]]
    else
      var t := Split(s[1..], key);
      [[s[0]] + t[0]] + t[1..]
  }

  /** `sep.join(pieces)`. */
  function Join(pieces: seq<string>, sep: string): string
    decreases |pieces|
  {
    if |pieces| == 0 then []
    else if |pieces| == 1 then pieces[0]
    else pieces[0] + sep + Join(pieces[1..], sep)
  }

  lemma {:induction false} JoinPrependToFirst(c: char, t: seq<string>, sep: string)
    requires |t| >= 1
    ensures Join([[c] + t[0]] + t[1..], sep) == [c] + Join(t, sep)
  {
    var u := [[c] + t[0]] + t[1..];
    assert u[1..] == t[1..];
  }

  /** `s.replace(key, value) == value.join(s.split(key))`: replacing is
      splitting at the occurrences and gluing the pieces back with `value`. */
  lemma {:induction false} ReplaceAllIsJoinOfSplit(s: string, key: string, value: string)
    requires |key| > 0
    ensures ReplaceAll(s, key, value) == Join(Split(s, key), value)
    decreases |s|
  {
    if StartsWith(s, key) {
      ReplaceAllIsJoinOfSplit(s[|key|..], key, value);
      var p := [[]] + Split(s[|key|..], key);
      assert p[1..] == Split(s[|key|..], key);
    } else if s == [] {
    } else {
      ReplaceAllIsJoinOfSplit(s[1..], key, value);
      JoinPrependToFirst(s[0], Split(s[1..], key), value);
    }
  }

  /** Replacing a key by itself changes nothing. */
  lemma {:induction false} ReplaceByItselfIsIdentity(s: string, key: string)
    requires |key| > 0
    ensures ReplaceAll(s, key, key) == s
    decreases |s|
  {
    if StartsWith(s, key) {
      ReplaceByItselfIsIdentity(s[|key|..], key);
      assert s == s[..|key|] + s[|key|..];
    } else if s == [] {
    } else {
      ReplaceByItselfIsIdentity(s[1..], key);
      assert s == [s[0]] + s[1..];
    }
  }

  /** Gluing the pieces back with the key itself gives the original text. */
  lemma JoinOfSplitRestores(s: string, key: string)
    requires |key| > 0
    ensures Join(Split(s, key), key) == s
  {
    ReplaceAllIsJoinOfSplit(s, key, key);
    ReplaceByItselfIsIdentity(s, key);
  }

  /** The first piece of the split is a prefix of `s`, and when there is
      more than one piece it is followed in `s` by an occurrence of `key`. */
  lemma {:induction false} SplitFirstIsPrefix(s: string, key: string)
    requires |key| > 0
    ensures StartsWith(s, Split(s, key)[0])
    ensures |Split(s, key)| > 1 ==> StartsWith(s, Split(s, key)[0] + key)
    decreases |s|
  {
    if StartsWith(s, key) {
    } else if s == [] {
    } else {
      SplitFirstIsPrefix(s[1..], key);
      var t := Split(s[1..], key);
      assert s == [s[0]] + s[1..];
      assert ([s[0]] + t[0] + key) == [s[0]] + (t[0] + key);
    }
  }

  lemma StartsWithPrefix(s: string, q: string, key: string)
    requires StartsWith(s, q) && StartsWith(q, key)
    ensures StartsWith(s, key)
  {
    assert s[..|key|] == s[..|q|][..|key|];
  }

  /** An occurrence in a prefix is an occurrence in the whole text. */
  lemma OccursInPrefixOf(key: string, q: string, s: string)
    requires StartsWith(s, q) && OccursIn(key, q)
    ensures OccursIn(key, s)
  {
    var i :| 0 <= i <= |q| && StartsWith(q[i..], key);
    assert q[i..] == s[i..|q|];
    assert s[i..][..|key|] == q[i..][..|key|];
  }

  /** Piece `p` of a split is cut at a leftmost occurrence: a last piece
      holds no occurrence; any other piece, followed by the occurrence that
      ends it, holds none before that occurrence's last character (so none
      starts inside `p`). */
  predicate PieceLeftmost(p: string, key: string, last: bool)
    requires |key| > 0
  {
    if last then !OccursIn(key, p) else !OccursIn(key, (p + key)[..|p| + |key| - 1])
  }

  /** The empty piece before an occurrence at the front is leftmost. */
  lemma EmptyPieceLeftmost(key: string)
    requires |key| > 0
    ensures PieceLeftmost([], key, false)
  {
    LongerKeyIsAbsent(key, ([] + key)[..|key| - 1]);
  }

  /** A first character that does not start an occurrence extends a
      leftmost last piece to a leftmost last piece. */
  lemma LastPieceStep(s: string, key: string, p: string)
    requires |key| > 0 && |s| > 0 && !StartsWith(s, key)
    requires StartsWith(s, p) && |p| > 0 && PieceLeftmost(p[1..], key, true)
    ensures PieceLeftmost(p, key, true)
  {
    if StartsWith(p, key) { StartsWithPrefix(s, p, key); }
    OccursInTail(p, key);
  }

  /** The same for a piece that is followed by an occurrence. */
  lemma InnerPieceStep(s: string, key: string, p: string)
    requires |key| > 0 && |s| > 0 && !StartsWith(s, key)
    requires StartsWith(s, p + key) && |p| > 0 && PieceLeftmost(p[1..], key, false)
    ensures PieceLeftmost(p, key, false)
  {
    var q := (p + key)[..|p| + |key| - 1];
    assert StartsWith(s, q) by {
      assert s[..|q|] == s[..|p + key|][..|q|];
    }
    if StartsWith(q, key) { StartsWithPrefix(s, q, key); }
    assert q[1..] == (p[1..] + key)[..|p[1..]| + |key| - 1];
    OccursInTail(q, key);
  }

  /** The split cuts at the leftmost occurrences: every piece is leftmost. */
  lemma {:induction false} SplitIsLeftmost(s: string, key: string)
    requires |key| > 0
    ensures forall i :: 0 <= i < |Split(s, key)| ==>
              PieceLeftmost(Split(s, key)[i], key, i == |Split(s, key)| - 1)
    decreases |s|
  {
    var pieces := Split(s, key);
    if StartsWith(s, key) {
      SplitIsLeftmost(s[|key|..], key);
      assert pieces[1..] == Split(s[|key|..], key);
      EmptyPieceLeftmost(key);
    } else if s == [] {
      assert pieces == [[]];
    } else {
      SplitIsLeftmost(s[1..], key);
      SplitFirstIsPrefix(s, key);
      var t := Split(s[1..], key);
      var p := pieces[0];
      assert p[1..] == t[0];
      assert pieces[1..] == t[1..];
      if |t| == 1 {
        LastPieceStep(s, key, p);
      } else {
        InnerPieceStep(s, key, p);
      }
    }
  }

  /** Hence no piece of the split holds the key at all. */
  lemma SplitPiecesHoldNoKey(s: string, key: string)
    requires |key| > 0
    ensures forall p :: p in Split(s, key) ==> !OccursIn(key, p)
  {
    var pieces := Split(s, key);
    SplitIsLeftmost(s, key);
    forall i | 0 <= i < |pieces| - 1 ensures !OccursIn(key, pieces[i]) {
      var p := pieces[i];
      assert PieceLeftmost(p, key, false);
      var q := (p + key)[..|p| + |key| - 1];
      assert StartsWith(q, p) by { assert q[..|p|] == p; }
      if OccursIn(key, p) { OccursInPrefixOf(key, p, q); }
    }
  }

  /** Each occurrence changes the length by `|value| - |key|`. */
  lemma {:induction false} ReplaceAllLength(s: string, key: string, value: string)
    requires |key| > 0
    ensures |ReplaceAll(s, key, value)| == |s| + Count(s, key) * (|value| - |key|)
    decreases |s|
  {
    if StartsWith(s, key) {
      var rest := s[|key|..];
      ReplaceAllLength(rest, key, value);
      assert ReplaceAll(s, key, value) == value + ReplaceAll(rest, key, value);
      assert Count(s, key) == 1 + Count(rest, key);
      CountStep(Count(rest, key), |value| - |key|);
    } else if s == [] {
    } else {
      ReplaceAllLength(s[1..], key, value);
      assert ReplaceAll(s, key, value) == [s[0]] + ReplaceAll(s[1..], key, value);
      assert Count(s, key) == Count(s[1..], key);
    }
  }

  lemma CountStep(n: int, d: int)
    ensures (1 + n) * d == d + n * d
  {
  }

  lemma OccursInPrefix(s: string, key: string)
    requires StartsWith(s, key)
    ensures OccursIn(key, s)
  {
    assert s[0..] == s;
  }

  lemma {:induction false} OccursInTail(s: string, key: string)
    requires |s| > 0
    ensures OccursIn(key, s) <==> StartsWith(s, key) || OccursIn(key, s[1..])
  {
    if OccursIn(key, s[1..]) {
      var i :| 0 <= i <= |s[1..]| && StartsWith(s[1..][i..], key);
      assert s[1..][i..] == s[i + 1..];
    }
    if OccursIn(key, s) && !StartsWith(s, key) {
      var i :| 0 <= i <= |s| && StartsWith(s[i..], key);
      assert i != 0;
      assert s[1..][i - 1..] == s[i..];
    }
    if StartsWith(s, key) {
      OccursInPrefix(s, key);
    }
  }

  /** `key in s` exactly when `s.count(key)` is positive. */
  lemma {:induction false} OccursIffCountPositive(s: string, key: string)
    requires |key| > 0
    ensures OccursIn(key, s) <==> Count(s, key) > 0
    decreases |s|
  {
    if StartsWith(s, key) {
      OccursInPrefix(s, key);
    } else if s == [] {
    } else {
      OccursIffCountPositive(s[1..], key);
      OccursInTail(s, key);
    }
  }

  /** A key that does not occur leaves the text unchanged. */
  lemma {:induction false} ReplaceAbsentKey(s: string, key: string, value: string)
    requires |key| > 0 && !OccursIn(key, s)
    ensures ReplaceAll(s, key, value) == s
    decreases |s|
  {
    if s != [] {
      OccursInTail(s, key);
      ReplaceAbsentKey(s[1..], key, value);
      assert s == [s[0]] + s[1..];
    }
  }

  /** A key with a character that `s` lacks does not occur in `s`. */
  lemma MissingCharMeansAbsent(key: string, s: string, j: nat)
    requires j < |key| && key[j] !in s
    ensures !OccursIn(key, s)
  {
  }

  /** A key longer than `s` does not occur in `s`. */
  lemma LongerKeyIsAbsent(key: string, s: string)
    requires |key| > |s|
    ensures !OccursIn(key, s)
  {
  }

  /** The inserted text is not rescanned: "a" with rule "a" -> "aa" gives "aa". */
  lemma InsertedTextNotRescanned()
    ensures ReplaceAll("a", "a", "aa") == "aa"
  {
    assert StartsWith("a", "a");
    assert ReplaceAll("a"[1..], "a", "aa") == [];
  }

  /** `(key + rest).replace(key, value)` starts with `value`, and the scan
      carries on in `rest`: the occurrence's own text is consumed once. */
  lemma ReplaceAtOccurrence(key: string, rest: string, value: string)
    requires |key| > 0
    ensures ReplaceAll(key + rest, key, value) == value + ReplaceAll(rest, key, value)
  {
    var s := key + rest;
    assert s[..|key|] == key;
    assert s[|key|..] == rest;
  }
}
