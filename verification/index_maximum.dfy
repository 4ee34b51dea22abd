/** How many vertices a set of indices reaches: one more than the largest index, scalar and by lanes. */
module IndexMaximum {

  function Max(a: nat, b: nat): nat {
    if a < b then b else a
  }

  /** The largest of the indices; zero if there are none. */
  function MaxOf(s: seq<nat>): (m: nat)
    ensures forall i :: 0 <= i < |s| ==> s[i] <= m
    ensures if s == [] then m == 0 else m in s
  {
    if s == [] then 0 else
      var n := |s| - 1;
      assert s == s[..n] + [s[n]];
      Max(MaxOf(s[..n]), s[n])
  }

  /** Those two properties determine it. */
  lemma OnlyMaximum(s: seq<nat>, m: nat)
    requires forall i :: 0 <= i < |s| ==> s[i] <= m
    requires m == 0 || m in s
    ensures m == MaxOf(s)
  {
  }

  lemma MaxOfParts(a: seq<nat>, b: seq<nat>)
    ensures MaxOf(a + b) == Max(MaxOf(a), MaxOf(b))
  {
    var m := Max(MaxOf(a), MaxOf(b));
    assert m == 0 || m in a + b;
    OnlyMaximum(a + b, m);
  }

  /** The lane-wise maximum of two vectors, and the maximum over its lanes. */
  function LaneMax(a: seq<nat>, b: seq<nat>): (v: seq<nat>)
    requires |a| == |b|
    ensures |v| == |a| && forall j {:trigger v[j]} :: 0 <= j < |a| ==> v[j] == Max(a[j], b[j])
  {
    seq(|a|, j requires 0 <= j < |a| => Max(a[j], b[j]))
  }

  lemma MaxOfLanes(a: seq<nat>, b: seq<nat>)
    requires |a| == |b|
    ensures MaxOf(LaneMax(a, b)) == Max(MaxOf(a), MaxOf(b))
  {
    var v, m := LaneMax(a, b), Max(MaxOf(a), MaxOf(b));
    if a != [] {
      var j :| 0 <= j < |a| && (a[j] == m || b[j] == m);
      assert v[j] == m && m in v;
    }
    OnlyMaximum(v, m);
  }

  lemma AllZero(s: seq<nat>)
    requires forall j :: 0 <= j < |s| ==> s[j] == 0
    ensures MaxOf(s) == 0
  {
  }

  /** Elements are looked at one by one. */
  method Raise(before: nat, a: array<nat>, from: nat, to: nat) returns (elements: nat)
    requires from <= to <= a.Length
    ensures elements == Max(before, MaxOf(a[from..to]))
  {
    elements := before;
    var i := from;
    while i < to
      invariant from <= i <= to && elements == Max(before, MaxOf(a[from..i]))
    {
      assert a[from..i + 1] == a[from..i] + [a[i]];
      MaxOfParts(a[from..i], [a[i]]);
      if a[i] > elements {
        elements := a[i];
      }
      i := i + 1;
    }
  }

  /** The portable form. */
  method ElementsCount(indices: array<nat>, count: nat) returns (elements: nat)
    requires count <= indices.Length
    ensures elements == MaxOf(indices[..count]) + 1
  {
    elements := Raise(0, indices, 0, count);
    assert indices[0..count] == indices[..count];
    elements := elements + 1;
  }

  /** The vector maximum instruction: all lanes at once. */
  method MaxIntoLanes(indices: array<nat>, at: nat, result: array<nat>)
    requires at + result.Length <= indices.Length && indices != result
    modifies result
    ensures result[..] == LaneMax(indices[at..at + result.Length], old(result[..]))
  {
    forall j | 0 <= j < result.Length {
      result[j] := Max(indices[at + j], result[j]);
    }
  }

  lemma NextVector(lanes: nat, i: nat, num: nat)
    requires i < num
    ensures lanes * (i + 1) == lanes * i + lanes <= lanes * num
  {
    assert lanes * num == lanes * (i + 1) + lanes * (num - (i + 1));
    assert lanes * (num - (i + 1)) >= 0;
  }

  lemma SplitMax(indices: seq<nat>, at: nat, lanes: nat, result: seq<nat>)
    requires at + lanes <= |indices| && |result| == lanes && MaxOf(result) == MaxOf(indices[..at])
    ensures MaxOf(LaneMax(indices[at..at + lanes], result)) == MaxOf(indices[..at + lanes])
  {
    hide MaxOf, LaneMax;
    MaxOfLanes(indices[at..at + lanes], result);
    MaxOfParts(indices[..at], indices[at..at + lanes]);
    assert indices[..at + lanes] == indices[..at] + indices[at..at + lanes];
  }

  /** Whole vectors: the maximum over the lanes is the maximum of what they have run over. */
  method MaxByLanes(indices: array<nat>, lanes: nat, num: nat) returns (result: array<nat>)
    requires lanes == 16 || lanes == 8
    requires lanes * num <= indices.Length
    ensures fresh(result) && result.Length == lanes && MaxOf(result[..]) == MaxOf(indices[..lanes * num])
  {
    hide MaxOf, LaneMax;
    result := new nat[lanes](_ => 0);
    AllZero(result[..]);
    AllZero(indices[..0]);
    var i, at := 0, 0;
    assert indices[..][..0] == indices[..0];
    while i < num
      invariant i <= num && at == lanes * i <= lanes * num && result.Length == lanes && fresh(result)
      invariant MaxOf(result[..]) == MaxOf(indices[..][..at])
    {
      NextVector(lanes, i, num);
      SplitMax(indices[..], at, lanes, result[..]);
      assert indices[..][at..at + lanes] == indices[at..at + lanes];
      MaxIntoLanes(indices, at, result);
      i, at := i + 1, at + lanes;
    }
    assert indices[..][..at] == indices[..at];
  }

  /**
   The NEON form: sixteen lanes of bytes or eight of shorts run over whole vectors, then the lanes are
   reduced, then what is left over is looked at one by one. The result is the same.
   */
  method ElementsCountByLanes(indices: array<nat>, count: nat, bytes: bool) returns (elements: nat)
    requires count <= indices.Length
    ensures elements == MaxOf(indices[..count]) + 1
  {
    hide MaxOf, LaneMax;
    var lanes, num := 8, count / 8;
    if bytes {
      lanes, num := 16, count / 16;
    }
    var result := MaxByLanes(indices, lanes, num);
    elements := Raise(0, result, 0, lanes);
    assert result[0..lanes] == result[..];
    elements := Raise(elements, indices, lanes * num, count);
    MaxOfParts(indices[..lanes * num], indices[lanes * num..count]);
    assert indices[..count] == indices[..lanes * num] + indices[lanes * num..count];
    elements := elements + 1;
  }
}
