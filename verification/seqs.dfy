/** Sequence and string operations of the Java runtime that the browser code
    relies on: identity search in arrays, System.arraycopy, prefix and
    substring tests, ASCII lower-casing and String.split. */
module Seqs {
  import opened Wrappers

  /** Index of the first element equal to `x` (Java `==` on references), if any. */
  function FirstIndex<T(==)>(s: seq<T>, x: T): (r: Option<nat>)
    ensures r.None? <==> x !in s
    ensures r.Some? ==> r.value < |s| && s[r.value] == x && x !in s[..r.value]
    ensures r.Some? ==> forall k :: 0 <= k < r.value ==> s[k] != x
  {
    if |s| == 0 then None
    else if s[0] == x then Some(0)
    else match FirstIndex(s[1..], x)
      case None => None
      case Some(i) => Some(i + 1)
  }

  /** An occurrence with no earlier one is the first. */
  lemma FirstIndexIs<T>(s: seq<T>, x: T, i: nat)
    requires i < |s| && s[i] == x
    requires forall k :: 0 <= k < i ==> s[k] != x
    ensures FirstIndex(s, x) == Some(i)
  {
    assert x in s;
  }

  /** The sequence with its first element equal to `x` removed; `s` itself when
      there is none. This is `Vector.remove(Object)` and the open-window
      listener removal. */
  function RemoveFirst<T(==)>(s: seq<T>, x: T): (r: seq<T>)
    ensures x !in s ==> r == s
    ensures x in s ==> |r| == |s| - 1 && multiset(r) == multiset(s) - multiset{x}
    ensures x in s ==> r == s[..FirstIndex(s, x).value] + s[FirstIndex(s, x).value + 1..]
  {
    match FirstIndex(s, x)
    case None => s
    case Some(i) =>
      assert s == s[..i] + [s[i]] + s[i+1..];
      s[..i] + s[i+1..]
  }

  /** Removing an element just appended, that was not there before, gives back
      the original sequence. */
  lemma RemoveFirstAfterAppend<T>(s: seq<T>, x: T)
    requires x !in s
    ensures RemoveFirst(s + [x], x) == s
  {
    var t := s + [x];
    assert forall k :: 0 <= k < |s| ==> t[k] == s[k] && t[k] != x;
    assert t[|s|] == x;
    var i := FirstIndex(t, x).value;
    assert i == |s|;
    assert t[..|s|] == s;
  }

  /** System.arraycopy(src, srcPos, dest, destPos, length) on sequences: the
      returned sequence is `dest` with `length` elements of `src` from `srcPos`
      written at `destPos`. The bounds are what Java checks before copying. */
  method ArrayCopy<T>(src: seq<T>, srcPos: nat, dest: seq<T>, destPos: nat, length: nat)
    returns (r: seq<T>)
    requires srcPos + length <= |src| && destPos + length <= |dest|
    ensures |r| == |dest|
    ensures r[..destPos] == dest[..destPos]
    ensures r[destPos..destPos + length] == src[srcPos..srcPos + length]
    ensures r[destPos + length..] == dest[destPos + length..]
  {
    r := dest;
    var i := 0;
    while i < length
      invariant 0 <= i <= length
      invariant |r| == |dest|
      invariant forall k :: 0 <= k < |dest| && !(destPos <= k < destPos + i) ==> r[k] == dest[k]
      invariant forall k :: destPos <= k < destPos + i ==> r[k] == src[srcPos + (k - destPos)]
    {
      r := r[destPos + i := src[srcPos + i]];
      i := i + 1;
    }
    assert forall k :: destPos <= k < destPos + length ==> r[destPos..destPos + length][k - destPos] == r[k];
  }

  /** Java `String.startsWith`. */
  predicate StartsWith(s: string, prefix: string) {
    |prefix| <= |s| && s[..|prefix|] == prefix
  }

  /** Java `String.contains`: `part` occurs somewhere in `s`. */
  predicate Contains(s: string, part: string)
    decreases |s|
  {
    StartsWith(s, part) || (|s| > 0 && Contains(s[1..], part))
  }

  /** `Contains` holds exactly when some position of `s` starts an occurrence. */
  lemma {:induction false} ContainsIff(s: string, part: string)
    ensures Contains(s, part) <==> exists i :: 0 <= i <= |s| && StartsWith(s[i..], part)
    decreases |s|
  {
    if Contains(s, part) && !StartsWith(s, part) {
      ContainsIff(s[1..], part);
      var i :| 0 <= i <= |s[1..]| && StartsWith(s[1..][i..], part);
      assert s[1..][i..] == s[i + 1..];
    }
    if Contains(s, part) && StartsWith(s, part) {
      assert s[0..] == s;
    }
    if exists i :: 0 <= i <= |s| && StartsWith(s[i..], part) {
      var i :| 0 <= i <= |s| && StartsWith(s[i..], part);
      if i == 0 {
        assert s[0..] == s;
      } else {
        ContainsIff(s[1..], part);
        assert s[1..][i - 1..] == s[i..];
      }
    }
  }

  /** A string built around `part` contains it. */
  lemma {:induction false} ContainsInfix(before: string, part: string, after: string)
    ensures Contains(before + part + after, part)
    decreases |before|
  {
    var s := before + part + after;
    if |before| == 0 {
      assert s[..|part|] == part;
    } else {
      ContainsInfix(before[1..], part, after);
      assert s[1..] == before[1..] + part + after;
    }
  }

  /** ASCII lower-casing of one character. */
  function LowerChar(c: char): char {
    if 'A' <= c <= 'Z' then (c as int + 32) as char else c
  }

  /** `String.toLowerCase`, restricted to the ASCII letters. */
  function Lower(s: string): (r: string)
    ensures |r| == |s|
    ensures forall i :: 0 <= i < |s| ==> r[i] == LowerChar(s[i])
  {
    seq(|s|, i requires 0 <= i < |s| => LowerChar(s[i]))
  }

  /** The pieces between the occurrences of `c`, all of them: `k`
      occurrences give `k + 1` pieces. */
  function Pieces(s: string, c: char): (r: seq<string>)
    ensures |r| >= 1
    decreases |s|
  {
    match FirstIndex(s, c)
    case None => [s]
    case Some(i) => [s[..i]] + Pieces(s[i + 1..], c)
  }

  /** The pieces glued back together with `c` between them. */
  function Join(parts: seq<string>, c: char): string
    requires |parts| >= 1
  {
    if |parts| == 1 then parts[0] else parts[0] + [c] + Join(parts[1..], c)
  }

  /** Joining a head and a non-empty rest puts `c` between them. */
  lemma JoinCons(head: string, rest: seq<string>, c: char)
    requires |rest| >= 1
    ensures Join([head] + rest, c) == head + [c] + Join(rest, c)
  {
    assert ([head] + rest)[1..] == rest;
  }

  /** The pieces of a string whose first `c` is at `i`. */
  lemma PiecesAt(s: string, c: char, i: nat)
    requires FirstIndex(s, c) == Some(i)
    ensures Pieces(s, c) == [s[..i]] + Pieces(s[i + 1..], c)
  {
  }

  /** Splitting at every `c` and joining with `c` gives the string back. */
  lemma {:induction false} JoinPieces(s: string, c: char)
    ensures Join(Pieces(s, c), c) == s
    decreases |s|
  {
    match FirstIndex(s, c)
    case None =>
    case Some(i) =>
      var head := s[..i];
      var tail := s[i + 1..];
      var rest := Pieces(tail, c);
      PiecesAt(s, c, i);
      JoinPieces(tail, c);
      JoinCons(head, rest, c);
      assert s == head + [c] + tail;
  }

  /** A leading piece without the separator splits off first. */
  lemma PiecesCons(a: string, c: char, b: string)
    requires c !in a
    ensures Pieces(a + [c] + b, c) == [a] + Pieces(b, c)
  {
    var s := a + [c] + b;
    assert forall k :: 0 <= k < |a| ==> s[k] == a[k];
    assert s[|a|] == c;
    assert FirstIndex(s, c) == Some(|a|);
    assert s[..|a|] == a && s[|a| + 1..] == b;
  }

  lemma SeqAssoc<T>(a: seq<T>, b: seq<T>, c: seq<T>)
    ensures a + (b + c) == (a + b) + c
  {
  }

  /** Joining parts, all but the last free of the separator, and splitting
      again gives those parts back, followed by the pieces of the last one. */
  lemma {:induction false} PiecesOfJoin(parts: seq<string>, c: char)
    requires |parts| >= 1
    requires forall i :: 0 <= i < |parts| - 1 ==> c !in parts[i]
    ensures Pieces(Join(parts, c), c) == parts[..|parts| - 1] + Pieces(parts[|parts| - 1], c)
    decreases |parts|
  {
    if |parts| == 1 {
      PiecesOfJoinOne(parts, c);
    } else {
      var rest := parts[1..];
      InnerPartsOfTail(parts, c);
      PiecesOfJoin(rest, c);
      PiecesOfJoinAssemble(parts, c, Pieces(rest[|rest| - 1], c));
    }
  }

  /** A single part is its own join. */
  lemma PiecesOfJoinOne(parts: seq<string>, c: char)
    requires |parts| == 1
    ensures Pieces(Join(parts, c), c) == parts[..0] + Pieces(parts[0], c)
  {
    assert parts[..0] == [];
  }

  /** The inner parts of a tail are inner parts of the whole. */
  lemma InnerPartsOfTail(parts: seq<string>, c: char)
    requires |parts| >= 2
    requires forall i :: 0 <= i < |parts| - 1 ==> c !in parts[i]
    ensures c !in parts[0]
    ensures forall i :: 0 <= i < |parts[1..]| - 1 ==> c !in parts[1..][i]
  {
    forall i | 0 <= i < |parts[1..]| - 1
      ensures c !in parts[1..][i]
    {
      assert parts[1..][i] == parts[i + 1];
    }
  }

  /** The pieces of the whole join from those of the tail's join. */
  lemma PiecesOfJoinAssemble(parts: seq<string>, c: char, tailPieces: seq<string>)
    requires |parts| >= 2 && c !in parts[0]
    requires Pieces(Join(parts[1..], c), c) == parts[1..][..|parts| - 2] + tailPieces
    ensures Pieces(Join(parts, c), c) == parts[..|parts| - 1] + tailPieces
  {
    var head := parts[0];
    var rest := parts[1..];
    assert parts == [head] + rest;
    PiecesOfJoinStep(head, rest, c, rest[..|rest| - 1] + tailPieces);
    assert parts[..|parts| - 1] == [head] + rest[..|rest| - 1];
    SeqAssoc([head], rest[..|rest| - 1], tailPieces);
  }

  /** One more separator-free part in front of a join. */
  lemma PiecesOfJoinStep(head: string, rest: seq<string>, c: char, restPieces: seq<string>)
    requires c !in head && |rest| >= 1
    requires Pieces(Join(rest, c), c) == restPieces
    ensures Pieces(Join([head] + rest, c), c) == [head] + restPieces
  {
    JoinCons(head, rest, c);
    PiecesCons(head, c, Join(rest, c));
  }

  /** Two or more parts joined with `c` contain `c`. */
  lemma JoinHasSeparator(parts: seq<string>, c: char)
    requires |parts| >= 2
    ensures c in Join(parts, c)
  {
    var s := Join(parts, c);
    assert s == parts[0] + [c] + Join(parts[1..], c);
    assert s[|parts[0]|] == c;
  }

  /** The prefix left after dropping every trailing empty string. */
  function DropTrailingEmpty(parts: seq<string>): (r: seq<string>)
    ensures |r| <= |parts| && r == parts[..|r|]
    ensures |r| > 0 ==> r[|r| - 1] != ""
    ensures forall i :: |r| <= i < |parts| ==> parts[i] == ""
  {
    if |parts| == 0 then []
    else if parts[|parts| - 1] == "" then DropTrailingEmpty(parts[..|parts| - 1])
    else parts
  }

  /** Java `String.split` with a one-character separator and no limit: the
      whole string when the separator does not occur, otherwise the pieces
      with trailing empty strings removed (possibly leaving none). */
  function JavaSplit(s: string, c: char): seq<string> {
    if c !in s then [s] else DropTrailingEmpty(Pieces(s, c))
  }

  /** Java's split undoes a join of separator-free parts whose last part is
      not empty. */
  lemma JavaSplitOfJoin(parts: seq<string>, c: char)
    requires |parts| >= 1
    requires forall i :: 0 <= i < |parts| ==> c !in parts[i]
    requires parts[|parts| - 1] != ""
    ensures JavaSplit(Join(parts, c), c) == parts
  {
    if |parts| > 1 {
      JoinHasSeparator(parts, c);
      PiecesOfSeparatorFreeJoin(parts, c);
      assert DropTrailingEmpty(parts) == parts;
    } else {
      assert Join(parts, c) == parts[0];
    }
  }

  /** Splitting a join of separator-free parts at every `c` gives the parts. */
  lemma PiecesOfSeparatorFreeJoin(parts: seq<string>, c: char)
    requires |parts| >= 1
    requires forall i :: 0 <= i < |parts| ==> c !in parts[i]
    ensures Pieces(Join(parts, c), c) == parts
  {
    var last := parts[|parts| - 1];
    PiecesOfJoin(parts, c);
    PiecesWithout(last, c);
    InitLast(parts);
  }

  lemma InitLast<T>(s: seq<T>)
    requires |s| >= 1
    ensures s[..|s| - 1] + [s[|s| - 1]] == s
  {
  }

  /** A string without the separator is a single piece. */
  lemma PiecesWithout(s: string, c: char)
    requires c !in s
    ensures Pieces(s, c) == [s]
  {
    assert FirstIndex(s, c).None?;
  }

  /** Every part is the empty string. */
  predicate AllEmpty(parts: seq<string>) {
    forall i :: 0 <= i < |parts| ==> parts[i] == ""
  }

  /** Every character of `s` is `c`. */
  predicate AllChar(s: string, c: char) {
    forall i :: 0 <= i < |s| ==> s[i] == c
  }

  /** All pieces are empty exactly when the string is made of separators only. */
  lemma {:induction false} PiecesAllEmpty(s: string, c: char)
    ensures AllEmpty(Pieces(s, c)) <==> AllChar(s, c)
    decreases |s|
  {
    match FirstIndex(s, c)
    case None =>
      assert Pieces(s, c) == [s];
      assert AllEmpty([s]) <==> s == "" by {
        assert [s][0] == s;
      }
      if |s| > 0 {
        assert s[0] in s;
      }
    case Some(i) =>
      var rest := s[i + 1..];
      var p := Pieces(rest, c);
      PiecesAllEmpty(rest, c);
      assert Pieces(s, c) == [s[..i]] + p;
      AllEmptyCons(s[..i], p);
      if i == 0 {
        assert s == [c] + rest;
        assert AllChar(s, c) <==> AllChar(rest, c) by {
          assert forall k :: 1 <= k < |s| ==> s[k] == rest[k - 1];
        }
      } else {
        assert s[0] != c by {
          assert s[..i][0] == s[0];
        }
      }
  }

  /** A list of parts is all empty exactly when its head and its tail are. */
  lemma AllEmptyCons(head: string, tail: seq<string>)
    ensures AllEmpty([head] + tail) <==> head == "" && AllEmpty(tail)
  {
    var l := [head] + tail;
    assert l[0] == head;
    assert forall k :: 0 <= k < |tail| ==> l[k + 1] == tail[k];
    if head == "" && AllEmpty(tail) {
      forall k | 0 <= k < |l|
        ensures l[k] == ""
      {
        if k > 0 {
          assert l[k] == tail[k - 1];
        }
      }
    }
  }

  /** `String.split` returns no piece at all exactly when the string is
      non-empty and made of separators only. */
  lemma JavaSplitEmpty(s: string, c: char)
    ensures |JavaSplit(s, c)| == 0 <==> |s| > 0 && forall i :: 0 <= i < |s| ==> s[i] == c
  {
    PiecesAllEmpty(s, c);
    if |s| > 0 && AllChar(s, c) {
      assert s[0] == c;
    }
  }

  /** Java `String.split(sep, 2)` with a one-character separator: the part
      before the first `c` and the rest, or the whole string when `c` does
      not occur. */
  function SplitFirst(s: string, c: char): (r: seq<string>)
    ensures c !in s ==> r == [s]
    ensures c in s ==> |r| == 2 && c !in r[0] && s == r[0] + [c] + r[1]
  {
    match FirstIndex(s, c)
    case None => [s]
    case Some(i) =>
      assert s == s[..i] + [c] + s[i + 1..];
      [s[..i], s[i + 1..]]
  }
}
