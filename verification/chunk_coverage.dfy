/**
 Whether the copy of a chunk contains all that the driver will read, and no more: the size of a chunk
 is computed from its first and its last attribute alone. The chunks are the runs of the list of
 enabled attributes.
 */
module ChunkCoverage {
  import opened DrawPacking
  import opened GLTypes
  import EnabledAttribs

  // ----- From the list to the chunks -----

  /** What the list of enabled attributes looks at. */
  function RecOf(a: Attrib): EnabledAttribs.Rec {
    EnabledAttribs.Rec(a.pointer, a.stride, a.chunk)
  }

  function RecsOf(list: seq<Attrib>): (recs: seq<EnabledAttribs.Rec>)
    ensures |recs| == |list| && forall i {:trigger recs[i]} :: 0 <= i < |list| ==> recs[i] == RecOf(list[i])
  {
    seq(|list|, i requires 0 <= i < |list| => RecOf(list[i]))
  }

  /** Pointers do not fall along the run. */
  ghost predicate PointerSorted(run: seq<Attrib>) {
    forall i, j :: 0 <= i <= j < |run| ==> run[i].pointer <= run[j].pointer
  }

  ghost predicate OneNumber(run: seq<Attrib>) {
    run != [] && forall i :: 0 <= i < |run| ==> run[i].chunk == run[0].chunk
  }

  /**
   In a list kept in order every chunk is pointer-sorted, has one number, and no other has that number:
   the attributes of one chunk number are one run.
   */
  lemma {:induction false} SortedRuns(list: seq<Attrib>, count: nat)
    requires EnabledAttribs.Sorted(RecsOf(list))
    ensures var chunks := Chunks(list, count);
      && (forall m {:trigger chunks[m]} :: 0 <= m < |chunks| ==>
            PointerSorted(chunks[m].run) && OneNumber(chunks[m].run) && chunks[m].run[0] in list)
      && (forall m, n :: 0 <= m < n < |chunks| ==> chunks[m].run[0].chunk > chunks[n].run[0].chunk)
    decreases |list|
  {
    hide ChunkSize;
    if list != [] {
      var k := RunLength(list);
      var recs, rest := RecsOf(list), RecsOf(list[k..]);
      forall i, j | 0 <= i < j < |list| ensures EnabledAttribs.InOrder(RecOf(list[i]), RecOf(list[j])) {
        assert EnabledAttribs.InOrder(recs[i], recs[j]);
      }
      forall i, j | 0 <= i < j < |rest| ensures EnabledAttribs.InOrder(rest[i], rest[j]) {
        assert EnabledAttribs.InOrder(RecOf(list[k + i]), RecOf(list[k + j]));
      }
      ChunksNext(list, count);
      SortedRuns(list[k..], count);
      FirstRun(list, count, k);
    }
  }

  lemma FirstRun(list: seq<Attrib>, count: nat, k: nat)
    requires list != [] && k == RunLength(list)
    requires forall i, j :: 0 <= i < j < |list| ==> EnabledAttribs.InOrder(RecOf(list[i]), RecOf(list[j]))
    ensures PointerSorted(list[..k]) && OneNumber(list[..k])
    ensures forall a :: a in list[k..] ==> a.chunk < list[0].chunk
  {
    hide RunLength;
    forall i, j | 0 <= i <= j < k ensures list[i].pointer <= list[j].pointer {
      assert i < j ==> EnabledAttribs.InOrder(RecOf(list[i]), RecOf(list[j]));
    }
    forall j | k <= j < |list| ensures list[j].chunk < list[0].chunk {
      assert EnabledAttribs.InOrder(RecOf(list[0]), RecOf(list[k]));
      assert k < j ==> EnabledAttribs.InOrder(RecOf(list[k]), RecOf(list[j]));
    }
  }

  // ----- What is read and what is copied -----

  /** Bytes of a component, by the value of its type: bytes one, shorts two, float and fixed four. */
  function ComponentSize(dataType: nat): nat {
    match dataType
    case 0x1400 => 1
    case 0x1401 => 1
    case 0x1402 => 2
    case 0x1403 => 2
    case 0x1406 => 4
    case 0x140C => 4
    case _ => 0
  }

  /** The bytes of one vertex of an attribute. */
  function ElementSize(a: Attrib): nat {
    Product(a.size, ComponentSize(a.dataType))
  }

  /** How far apart the driver reads vertices; with stride zero they are tightly packed. */
  function FetchStride(a: Attrib): nat {
    if a.stride == 0 then ElementSize(a) else a.stride
  }

  /** The client counts as the driver reads. */
  lemma CountsAsFetched(a: Attrib)
    ensures DataSize(a.dataType) == ComponentSize(a.dataType) && EffectiveStride(a) == FetchStride(a)
  {
  }

  function Product(a: nat, b: nat): nat {
    a * b
  }

  /** Where vertex `v` of an attribute begins. */
  function VertexAt(a: Attrib, v: nat): nat {
    a.pointer + Product(v, FetchStride(a))
  }

  /** The end of what the driver reads of an attribute. */
  function ReadEnd(a: Attrib, count: nat): nat
    requires count > 0
  {
    VertexAt(a, count - 1) + ElementSize(a)
  }

  /** The end of what is copied for a run. */
  function CopyEnd(run: seq<Attrib>, count: nat): nat
    requires run != []
  {
    VertexAt(run[|run| - 1], count)
  }

  /** Byte `p` of the application's memory is in the copy of the run. */
  predicate Copied(run: seq<Attrib>, count: nat, p: nat)
    requires run != []
  {
    run[0].pointer <= p < run[0].pointer + ChunkSize(run[0], run[|run| - 1], count)
  }

  /** Byte `p` belongs to vertex `v` of an attribute. */
  predicate InVertex(a: Attrib, v: nat, p: nat) {
    VertexAt(a, v) <= p < VertexAt(a, v) + ElementSize(a)
  }

  /** Byte `p` of the application's memory is one that the driver reads. */
  ghost predicate IsRead(run: seq<Attrib>, count: nat, p: nat) {
    exists k, v {:trigger InVertex(run[k], v, p)} :: 0 <= k < |run| && 0 <= v < count && InVertex(run[k], v, p)
  }

  /** All that the driver reads is copied. */
  ghost predicate Covered(run: seq<Attrib>, count: nat)
    requires run != []
  {
    forall p: nat {:trigger IsRead(run, count, p)} :: IsRead(run, count, p) ==> Copied(run, count, p)
  }

  lemma {:induction false} ProductGrows(a: nat, a': nat, b: nat)
    requires a <= a'
    ensures Product(a, b) <= Product(a', b) && (a < a' ==> Product(a, b) + b <= Product(a', b))
    decreases a'
  {
    if a < a' {
      ProductGrows(a, a' - 1, b);
      assert Product(a', b) == Product(a' - 1, b) + b;
    }
  }

  /** The chunk that is copied ends where the vertices of its last attribute would go on. */
  lemma CopiedEnds(run: seq<Attrib>, count: nat, p: nat)
    requires run != [] && ElementSize(run[|run| - 1]) > 0
    ensures Copied(run, count, p) <==> run[0].pointer <= p < CopyEnd(run, count)
  {
    var last := run[|run| - 1];
    CountsAsFetched(last);
    assert DataSize(last.dataType) != 0 && Product(count, FetchStride(last)) == EffectiveStride(last) * count;
  }

  /**
   Exactly when the copy is long enough: no attribute of the chunk may be read further than the last
   one's stride times the number of vertices reaches. A caller can see that before the draw.
   */
  lemma CoveredExactly(run: seq<Attrib>, count: nat)
    requires run != [] && PointerSorted(run) && count > 0
    requires forall k :: 0 <= k < |run| ==> ElementSize(run[k]) > 0
    ensures Covered(run, count) <==> forall k :: 0 <= k < |run| ==> ReadEnd(run[k], count) <= CopyEnd(run, count)
  {
    hide ElementSize, FetchStride, Copied, Product, ReadEnd, CopyEnd, IsRead;
    if Covered(run, count) {
      forall k | 0 <= k < |run| ensures ReadEnd(run[k], count) <= CopyEnd(run, count) {
        EndIsRead(run, count, k);
        CopiedEnds(run, count, ReadEnd(run[k], count) - 1);
      }
    }
    if forall k :: 0 <= k < |run| ==> ReadEnd(run[k], count) <= CopyEnd(run, count) {
      forall p: nat | IsRead(run, count, p) ensures Copied(run, count, p) {
        ReadBeforeEnd(run, count, p);
        CopiedEnds(run, count, p);
      }
    }
  }

  lemma EndIsRead(run: seq<Attrib>, count: nat, k: nat)
    requires count > 0 && k < |run| && ElementSize(run[k]) > 0
    ensures ReadEnd(run[k], count) > 0 && IsRead(run, count, ReadEnd(run[k], count) - 1)
  {
    assert InVertex(run[k], count - 1, ReadEnd(run[k], count) - 1);
  }

  lemma ReadBeforeEnd(run: seq<Attrib>, count: nat, p: nat)
    requires PointerSorted(run) && count > 0 && IsRead(run, count, p)
    ensures run[0].pointer <= p && exists k :: 0 <= k < |run| && p < ReadEnd(run[k], count)
  {
    hide ElementSize, FetchStride, Product;
    var k, v :| 0 <= k < |run| && 0 <= v < count && InVertex(run[k], v, p);
    ProductGrows(v, count - 1, FetchStride(run[k]));
    assert p < ReadEnd(run[k], count);
  }

  /** One stride for the whole chunk, no smaller than any element: the usual interleaved layout is covered. */
  lemma OneStrideCovered(run: seq<Attrib>, count: nat)
    requires run != [] && PointerSorted(run) && count > 0
    requires forall k :: 0 <= k < |run| ==>
               0 < ElementSize(run[k]) <= FetchStride(run[k]) == FetchStride(run[|run| - 1])
    ensures Covered(run, count)
  {
    hide ElementSize, FetchStride, Covered, Product;
    forall k | 0 <= k < |run| ensures ReadEnd(run[k], count) <= CopyEnd(run, count) {
      ProductGrows(count - 1, count, FetchStride(run[k]));
    }
    CoveredExactly(run, count);
  }

  /**
   The failing case, through the list. Two attributes with three vertices each, 32 and 16 bytes apart,
   the second begins inside the first one's stride: insertion puts them into one chunk, in this order,
   and the copy of it ends before the first one's last vertex does.
   */
  lemma MixedStridesNotCovered()
    ensures var wide, tight := Attrib(0, 4, GL_FLOAT, false, 32, 1000, 1), Attrib(1, 4, GL_FLOAT, false, 16, 1016, 1);
      && EnabledAttribs.Added(EnabledAttribs.Added([], RecOf(wide)), RecOf(tight)) == RecsOf([wide, tight])
      && RunLength([wide, tight]) == 2
      && !Covered([wide, tight], 3)
  {
    var wide, tight := Attrib(0, 4, GL_FLOAT, false, 32, 1000, 1), Attrib(1, 4, GL_FLOAT, false, 16, 1016, 1);
    var first, second := RecOf(wide), RecOf(tight);
    assert EnabledAttribs.Clear([], first) == 0 && EnabledAttribs.Clear([first], second) == 0;
    assert EnabledAttribs.Added([], first) == [first];
    assert [first][0..] == [first] && [first][1..] == [];
    assert EnabledAttribs.Below([first], 1, 1016) == 1;
    assert EnabledAttribs.Added([first], second) == [first, second];
    assert RecsOf([wide, tight]) == [first, second];
    assert [wide, tight][1..] == [tight];
    assert RunLength([tight]) == 1;
    CoveredExactly([wide, tight], 3);
    assert ReadEnd(wide, 3) == 1080 && CopyEnd([wide, tight], 3) == 1064;
    assert [wide, tight][0] == wide;
  }

  /**
   The copy may also read on behind the data: its last byte is one that some attribute needs exactly
   when some attribute is read to the very end of the copy. With a stride larger than the last element
   it is not, and the application's memory is read behind its last vertex.
   */
  lemma LastByteNeeded(run: seq<Attrib>, count: nat, p: nat)
    requires run != [] && PointerSorted(run) && count > 0 && Covered(run, count) && p + 1 == CopyEnd(run, count)
    requires forall k :: 0 <= k < |run| ==> ElementSize(run[k]) > 0
    ensures IsRead(run, count, p) <==> exists k :: 0 <= k < |run| && ReadEnd(run[k], count) == CopyEnd(run, count)
  {
    hide ElementSize, FetchStride, Covered, Product;
    CoveredExactly(run, count);
    if IsRead(run, count, p) {
      ReadBeforeEnd(run, count, p);
    }
    if k :| 0 <= k < |run| && ReadEnd(run[k], count) == CopyEnd(run, count) {
      assert InVertex(run[k], count - 1, p);
    }
  }
}
