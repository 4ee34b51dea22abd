/** glDrawArrays and glDrawElements with client-side arrays: what is refused, and how many vertices are copied. */
module DrawCalls {
  import opened Bytes
  import opened ChunkCoverage
  import opened ClientProgram
  import opened CommandQueue
  import opened DrawLifetime
  import opened DrawPacking
  import opened DrawProgram
  import opened GLTypes
  import opened IndexMaximum
  import opened RingBuffer
  import opened Sequences
  import EnabledAttribs

  datatype Outcome = Drawn | Nothing | InvalidEnum | InvalidValue

  /** GL_POINTS to GL_TRIANGLE_FAN. */
  predicate ValidMode(mode: nat) {
    mode <= 6
  }

  // ----- Vertices -----

  /** The indices in client memory; only bytes and shorts are ever copied. */
  function IndexValues(indexType: nat, indices: seq<Byte>): (values: seq<nat>)
    ensures indexType == 0x1401 ==> |values| == |indices| && forall i :: 0 <= i < |values| ==> values[i] == indices[i]
    ensures indexType != 0x1401 ==> |values| == |indices| / 2
    ensures indexType != 0x1401 ==> forall i {:trigger values[i]} :: 0 <= i < |values| ==>
      values[i] == (indices[2 * i] as int) + 256 * (indices[2 * i + 1] as int)
  {
    if indexType == GL_UNSIGNED_BYTE then seq(|indices|, i requires 0 <= i < |indices| => indices[i] as nat)
    else seq(|indices| / 2, i requires 0 <= i < |indices| / 2 =>
           (indices[2 * i] as int) + 256 * (indices[2 * i + 1] as int))
  }

  /** The driver fetches vertex `v` for the draw. */
  predicate Fetches(draw: DrawCall, v: nat) {
    match draw
    case Arrays(_, first, count) => first <= v < first + count
    case Elements(_, _, indexType, indices) => v in IndexValues(indexType, indices)
  }

  /** For how many vertices the client copies the arrays. */
  function VertexCount(draw: DrawCall): nat {
    match draw
    case Arrays(_, first, count) => first + count
    case Elements(_, _, indexType, indices) => MaxOf(IndexValues(indexType, indices)) + 1
  }

  /** It is the least number that reaches every vertex the driver fetches. */
  lemma LeastCount(draw: DrawCall, v: nat)
    ensures Fetches(draw, v) ==> v < VertexCount(draw)
    ensures (match draw
             case Arrays(_, _, count) => count > 0
             case Elements(_, _, indexType, indices) => IndexValues(indexType, indices) != [])
            ==> VertexCount(draw) > 0 && Fetches(draw, VertexCount(draw) - 1)
  {
    match draw
    case Arrays(_, _, _) =>
    case Elements(_, _, indexType, indices) =>
      var values := IndexValues(indexType, indices);
      assert v in values ==> exists i :: 0 <= i < |values| && values[i] == v;
  }

  // ----- The calls -----

  /** Nothing is queued and no byte of the ring is touched. */
  twostate predicate Untouched(ring: Ring)
    reads ring, ring.data
  {
    ring.data[..] == old(ring.data[..]) && ring.head == old(ring.head)
    && ring.tail == old(ring.tail) && ring.fillCount == old(ring.fillCount) && ring.commits == old(ring.commits)
  }

  /** The arrays reach far enough, and all of the draw fits into a ring of this length. */
  predicate CanDraw(app: seq<Byte>, list: seq<Attrib>, draw: DrawCall, length: nat) {
    Readable(app, Chunks(list, VertexCount(draw))) && Fits(app, list, VertexCount(draw), draw, length)
  }

  /** Exactly the commands of the draw have joined the queue, for as many vertices as it needs. */
  ghost predicate JustDrawn(types: CommandTypes, app: seq<Byte>, list: seq<Attrib>, draw: DrawCall, start: nat,
                            before: seq<seq<Byte>>, after: seq<seq<Byte>>)
  {
    var chunks := Chunks(list, VertexCount(draw));
    Readable(app, chunks) && after == before + DrawCommands(types, app, chunks, draw, start)
  }

  lemma {:induction false} AttribsPlus(a: seq<Chunk>, b: seq<Chunk>)
    ensures Attribs(a + b) == Attribs(a) + Attribs(b)
  {
    if b == [] {
      assert a + b == a;
    } else {
      var n := |b| - 1;
      AttribsPlus(a, b[..n]);
      assert (a + b)[..|a + b| - 1] == a + b[..n];
    }
  }

  /** Every attribute of the list is in one of its chunks. */
  lemma {:induction false} AllAttribs(list: seq<Attrib>, count: nat)
    ensures Attribs(Chunks(list, count)) == |list|
    decreases |list|
  {
    hide ChunkSize, RunLength;
    if list != [] {
      var chunks, k := Chunks(list, count), RunLength(list);
      ChunksNext(list, count);
      AllAttribs(list[k..], count);
      AttribsPlus([chunks[0]], chunks[1..]);
      assert chunks == [chunks[0]] + chunks[1..];
      assert [chunks[0]][..0] == [] && Attribs([]) == 0;
    }
  }

  /** Packing for that many vertices is just that. */
  method Pack(ring: Ring, types: CommandTypes, app: seq<Byte>, list: seq<Attrib>, count: nat, draw: DrawCall)
    requires ring.Valid() && count == VertexCount(draw) && CanDraw(app, list, draw, ring.data.Length)
    modifies ring.data, ring`head, ring`tail, ring`fillCount, ring`commits
    ensures ring.Valid()
    ensures JustDrawn(types, app, list, draw, old(ring.head), old(ring.commits), ring.commits)
  {
    hide Chunks, Pointers, WholeDraw, Fits, Image, Window, Concat, IsEnd, Laid, Attribs, VertexCount;
    AllAttribs(list, count);
    PackDraw(ring, types, app, list, count, draw);
  }

  /** glDrawArrays; `anyArray` says that some attribute is enabled or in a buffer. */
  method DrawArrays(ring: Ring, types: CommandTypes, app: seq<Byte>, list: seq<Attrib>, anyArray: bool,
                    mode: nat, first: int, count: int)
    returns (outcome: Outcome)
    requires ring.Valid()
    requires mode <= 6 && first >= 0 && count > 0 && anyArray ==>
      CanDraw(app, list, Arrays(mode, first, count), ring.data.Length)
    modifies ring.data, ring`head, ring`tail, ring`fillCount, ring`commits
    ensures ring.Valid() && outcome ==
      if mode > 6 then InvalidEnum else if count < 0 || first < 0 then InvalidValue
      else if count == 0 || !anyArray then Nothing else Drawn
    ensures outcome != Drawn ==> Untouched(ring)
    ensures outcome == Drawn ==>
      JustDrawn(types, app, list, Arrays(mode, first, count), old(ring.head), old(ring.commits), ring.commits)
  {
    hide CanDraw, JustDrawn;
    if !ValidMode(mode) {
      return InvalidEnum;
    }
    if count < 0 || first < 0 {
      return InvalidValue;
    }
    if count == 0 || !anyArray {
      return Nothing;
    }
    var trueCount := if first > 0 then first + count else count;
    Pack(ring, types, app, list, trueCount, Arrays(mode, first, count));
    outcome := Drawn;
  }

  /** The bytes of the indices; the client knows none of four bytes. */
  function IndexArraySize(indexType: nat, count: nat): nat {
    if indexType == GL_UNSIGNED_BYTE then count else if indexType == GL_UNSIGNED_SHORT then 2 * count else 0
  }

  /** glDrawElements with indices in client memory. */
  method DrawElements(ring: Ring, types: CommandTypes, app: seq<Byte>, list: seq<Attrib>, anyArray: bool,
                      supportsUint: bool, mode: nat, count: int, indexType: nat, indices: seq<Byte>)
    returns (outcome: Outcome)
    requires ring.Valid()
    requires mode <= 6 && count > 0 && anyArray && (indexType == 0x1401 || indexType == 0x1403) ==>
      var size := if indexType == 0x1401 then count else 2 * count;
      size <= |indices| && CanDraw(app, list, Elements(mode, count, indexType, indices[..size]), ring.data.Length)
    modifies ring.data, ring`head, ring`tail, ring`fillCount, ring`commits
    ensures ring.Valid() && outcome ==
      if mode > 6 || !(indexType == 0x1401 || indexType == 0x1403 || (supportsUint && indexType == 0x1405))
      then InvalidEnum else if count < 0 then InvalidValue
      else if count == 0 || !anyArray || indexType == 0x1405 then Nothing else Drawn
    ensures outcome != Drawn ==> Untouched(ring)
    ensures outcome == Drawn ==>
      var size := if indexType == 0x1401 then count else 2 * count;
      JustDrawn(types, app, list, Elements(mode, count, indexType, indices[..size]), old(ring.head),
                old(ring.commits), ring.commits)
  {
    hide CanDraw, JustDrawn, MaxOf;
    if !ValidMode(mode) {
      return InvalidEnum;
    }
    if !(indexType == GL_UNSIGNED_BYTE || indexType == GL_UNSIGNED_SHORT
         || (supportsUint && indexType == GL_UNSIGNED_INT)) {
      return InvalidEnum;
    }
    if count < 0 {
      return InvalidValue;
    }
    if count == 0 || !anyArray {
      return Nothing;
    }
    var size := IndexArraySize(indexType, count);
    if size == 0 {
      return Nothing;
    }
    var elements := CountElements(indexType, indices[..size], count);
    Pack(ring, types, app, list, elements, Elements(mode, count, indexType, indices[..size]));
    outcome := Drawn;
  }

  /** The largest index is looked for in the indices as numbers of their type. */
  method CountElements(indexType: nat, indices: seq<Byte>, count: nat) returns (elements: nat)
    requires count == |IndexValues(indexType, indices)|
    ensures elements == MaxOf(IndexValues(indexType, indices)) + 1
  {
    var values := IndexValues(indexType, indices);
    var numbers := new nat[count](i requires 0 <= i < count => values[i]);
    assert numbers[..count] == values;
    elements := ElementsCount(numbers, count);
  }

  // ----- What the driver gets -----

  /**
   Every vertex that a draw fetches: in every run in which the draw is packed for as many vertices as the
   calls above say, until its slot is released, every byte of it reads through the queued pointer of
   every attribute as the application had it, if the attribute's chunk is copied long enough.
   */
  lemma FetchedVertexReads(states: seq<State>, steps: seq<Step>, t0: nat, t1: nat, u: nat, types: CommandTypes,
                           app: seq<Byte>, list: seq<Attrib>, draw: DrawCall, m: nat, k: nat, v: nat, p: nat)
    requires Fetches(draw, v)
    requires Drawing(states, steps, t0, t1, u, types, app, Chunks(list, VertexCount(draw)), draw)
    requires EnabledAttribs.Sorted(RecsOf(list))
    requires m < |Chunks(list, VertexCount(draw))| && k < |Chunks(list, VertexCount(draw))[m].run|
    requires ReadsEnd(Chunks(list, VertexCount(draw))[m].run, VertexCount(draw))
    requires InVertex(Chunks(list, VertexCount(draw))[m].run[k], v, p)
    requires AddressEnd(states[t0], app, Chunks(list, VertexCount(draw)), draw) < Pow256(8)
    requires |states[t0].hist.log.committed| + Attribs(Chunks(list, VertexCount(draw))[..m]) + k
             < |states[u].hist.log.committed|
    ensures var chunks := Chunks(list, VertexCount(draw));
      var j := |states[t0].hist.log.committed| + Attribs(chunks[..m]) + k;
      PointerShows(states[u], states[u].hist.log.committed[j], types, app, chunks[m].run[k], p,
                   PayloadAddress(states[t0], chunks, draw), |Payload(app, chunks)|)
  {
    LeastCount(draw, v);
    hide Drawing, Chunks, Attribs, Pow256, Payload, InVertex, ReadsEnd, PointerShows, DrawSize, VertexCount, Fetches;
    EveryVertexReads(states, steps, t0, t1, u, types, app, list, VertexCount(draw), draw, m, k, v, p);
  }
}
