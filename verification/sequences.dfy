/** Sequences without repetition, and what they contain. */
module Sequences {

  ghost predicate Unique<T>(s: seq<T>) {
    forall i, j :: 0 <= i < j < |s| ==> s[i] != s[j]
  }

  function Elements(s: seq<nat>): set<nat> {
    set x | x in s
  }

  /** A sequence without repetition has as many elements as places. */
  lemma {:induction false} UniqueCount(s: seq<nat>)
    requires Unique(s)
    ensures |Elements(s)| == |s|
  {
    if s != [] {
      var n := |s| - 1;
      UniqueCount(s[..n]);
      assert s == s[..n] + [s[n]];
      assert s[n] !in Elements(s[..n]);
      assert Elements(s) == Elements(s[..n]) + {s[n]};
    }
  }

  function FirstIndex<T(==)>(s: seq<T>, x: T): (k: nat)
    requires x in s
    ensures k < |s| && s[k] == x && forall j :: 0 <= j < k ==> s[j] != x
  {
    if s[0] == x then 0 else 1 + FirstIndex(s[1..], x)
  }

  /** The last part of a sequence. */
  predicate IsEnd<T(==)>(part: seq<T>, whole: seq<T>) {
    |part| <= |whole| && part == whole[|whole| - |part|..]
  }

  lemma LongerEnd<T>(part: seq<T>, whole: seq<T>, more: seq<T>)
    requires IsEnd(part, whole)
    ensures IsEnd(part + more, whole + more)
  {
  }

  lemma ShorterEnd<T>(part: seq<T>, whole: seq<T>, k: nat)
    requires IsEnd(part, whole) && k <= |part|
    ensures IsEnd(part[k..], whole)
  {
  }

  lemma IsEndMeans<T>(part: seq<T>, whole: seq<T>)
    ensures IsEnd(part, whole) <==> exists before :: whole == before + part
  {
    if IsEnd(part, whole) {
      assert whole == whole[..|whole| - |part|] + part;
    }
  }

  /** All pieces, one behind the other. */
  function Concat<T>(pieces: seq<seq<T>>): seq<T> {
    if pieces == [] then [] else Concat(pieces[..|pieces| - 1]) + pieces[|pieces| - 1]
  }

  lemma ConcatOneMore<T>(pieces: seq<seq<T>>, piece: seq<T>)
    ensures Concat(pieces + [piece]) == Concat(pieces) + piece
  {
    assert (pieces + [piece])[..|pieces|] == pieces;
  }

  lemma {:induction false} ConcatPlus<T>(a: seq<seq<T>>, b: seq<seq<T>>)
    ensures Concat(a + b) == Concat(a) + Concat(b)
  {
    if b == [] {
      assert a + b == a;
    } else {
      var n := |b| - 1;
      ConcatPlus(a, b[..n]);
      assert (a + b)[..|a + b| - 1] == a + b[..n];
    }
  }

  lemma {:induction false} ConcatLength<T>(pieces: seq<seq<T>>, size: nat)
    requires forall i :: 0 <= i < |pieces| ==> |pieces[i]| == size
    ensures |Concat(pieces)| == size * |pieces|
  {
    if pieces != [] {
      var n := |pieces| - 1;
      ConcatLength(pieces[..n], size);
      assert |pieces[n]| == size && |Concat(pieces)| == |Concat(pieces[..n])| + |pieces[n]|;
      hide Concat;
      OneMoreFactor(size, n);
    }
  }

  lemma OneMoreFactor(size: nat, n: nat)
    ensures size * (n + 1) == size * n + size
  {
  }
}
