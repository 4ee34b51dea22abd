/**
 Laying out a draw call in the ring: one pointer command an attribute, the draw command, a copy of
 every chunk of vertex memory, and the indices. Only the last two are payload of the draw command,
 so the pointer commands, committed first, point ahead into a command that is committed after them.
 */
module DrawPacking {
  import opened Bytes
  import opened CommandQueue
  import opened GLTypes
  import opened RingBuffer
  import opened Sequences

  // sizeof command_glvertexattribpointer_t, and where its last field, the data pointer, is.
  const POINTER_SIZE: nat := 56
  const POINTER_AT: nat := 48

  /** An enabled attribute, in list order; `pointer` is an address in the application's memory. */
  datatype Attrib =
    Attrib(index: nat, size: nat, dataType: nat, normalized: bool, stride: nat, pointer: nat, chunk: nat)

  /** command_type_t values; the enumeration is generated. */
  datatype CommandTypes = CommandTypes(vertexAttribPointer: nat, drawArrays: nat, drawElements: nat)

  datatype DrawCall =
    | Arrays(mode: nat, first: nat, count: nat)
    | Elements(mode: nat, count: nat, indexType: nat, indices: seq<Byte>)
  {
    /** sizeof the draw command, without payload. */
    function Size(): nat {
      match this
      case Arrays(_, _, _) => 40
      case Elements(_, _, _, _) => 48
    }

    function Indices(): seq<Byte> {
      match this
      case Arrays(_, _, _) => []
      case Elements(_, _, _, indices) => indices
    }
  }

  function DataSize(dataType: nat): nat {
    if dataType == GL_BYTE || dataType == GL_UNSIGNED_BYTE then 1
    else if dataType == GL_SHORT || dataType == GL_UNSIGNED_SHORT then 2
    else if dataType == GL_FLOAT || dataType == GL_FIXED then 4
    else 0
  }

  /** The distance between two vertices of an attribute. */
  function EffectiveStride(a: Attrib): nat {
    if a.stride != 0 then a.stride else a.size * DataSize(a.dataType)
  }

  function ChunkSize(first: Attrib, last: Attrib, count: nat): int {
    if DataSize(last.dataType) == 0 then 0
    else EffectiveStride(last) * count + last.pointer - first.pointer
  }

  // ----- The commands as bytes -----

  function Header(commandType: nat, size: nat): (bs: seq<Byte>)
    ensures |bs| == HEADER
  {
    ToLE(commandType, 4) + ToLE(0, 4) + ToLE(size, 8) + ToLE(0, 8)
  }

  function PointerCommand(types: CommandTypes, a: Attrib, data: nat): (bs: seq<Byte>)
    ensures |bs| == POINTER_SIZE
  {
    Header(types.vertexAttribPointer, POINTER_SIZE) + ToLE(a.index, 4) + ToLE(a.size, 4) + ToLE(a.dataType, 4)
    + ToLE(if a.normalized then 1 else 0, 4) + ToLE(a.stride, 8) + ToLE(data, 8)
  }

  /** The pointer a queued attribute command hands to the driver. */
  function PointerOf(command: seq<Byte>): nat
    requires |command| == POINTER_SIZE
  {
    FromLE(command[POINTER_AT..])
  }

  /** The draw command; `indices` is the address it passes on. */
  function DrawCommand(types: CommandTypes, draw: DrawCall, size: nat, indices: nat): (bs: seq<Byte>)
    ensures |bs| == draw.Size()
  {
    match draw
    case Arrays(mode, first, count) =>
      Header(types.drawArrays, size) + ToLE(mode, 4) + ToLE(first, 4) + ToLE(count, 4) + ToLE(0, 4)
    case Elements(mode, count, indexType, _) =>
      Header(types.drawElements, size) + ToLE(mode, 4) + ToLE(count, 4) + ToLE(indexType, 8) + ToLE(indices, 8)
  }

  // ----- The layout -----

  /** The length of the run of attributes that share the first one's chunk. */
  function RunLength(list: seq<Attrib>): (k: nat)
    requires list != []
    ensures 1 <= k <= |list|
    ensures forall i :: 0 <= i < k ==> list[i].chunk == list[0].chunk
    ensures k < |list| ==> list[k].chunk != list[0].chunk
  {
    if |list| == 1 || list[1].chunk != list[0].chunk then 1
    else
      assert list[1..][0] == list[1];
      1 + RunLength(list[1..])
  }

  /** A run of the list and how many bytes of application memory it stands for. */
  datatype Chunk = Chunk(run: seq<Attrib>, size: int)

  /** The runs of the list. */
  function Chunks(list: seq<Attrib>, count: nat): seq<Chunk>
    decreases |list|
  {
    if list == [] then [] else
      var k := RunLength(list);
      [Chunk(list[..k], ChunkSize(list[0], list[k - 1], count))] + Chunks(list[k..], count)
  }

  predicate InMemory(app: seq<Byte>, chunk: Chunk) {
    chunk.run != [] && 0 <= chunk.size && chunk.run[0].pointer + chunk.size <= |app|
  }

  /** Every chunk lies in the application's memory. */
  predicate Readable(app: seq<Byte>, chunks: seq<Chunk>) {
    forall m :: 0 <= m < |chunks| ==> InMemory(app, chunks[m])
  }

  /** No chunk is empty. */
  predicate Positive(chunks: seq<Chunk>) {
    forall m :: 0 <= m < |chunks| ==> chunks[m].size > 0
  }

  function Copy(app: seq<Byte>, chunk: Chunk): seq<Byte>
    requires InMemory(app, chunk)
  {
    app[chunk.run[0].pointer..chunk.run[0].pointer + chunk.size]
  }

  /** The copies of all chunks, one behind the other. */
  function Payload(app: seq<Byte>, chunks: seq<Chunk>): seq<Byte>
    requires Readable(app, chunks)
  {
    if chunks == [] then [] else
      var n := |chunks| - 1;
      Payload(app, chunks[..n]) + Copy(app, chunks[n])
  }

  /** The pointer commands of one run whose chunk is copied to address `at`. */
  function RunPointers(types: CommandTypes, run: seq<Attrib>, first: nat, at: nat): (commands: seq<seq<Byte>>)
    ensures |commands| == |run|
    ensures forall k {:trigger commands[k]} :: 0 <= k < |run| ==>
              commands[k] == PointerCommand(types, run[k], Translated(run[k], first, at))
  {
    seq(|run|, k requires 0 <= k < |run| => PointerCommand(types, run[k], Translated(run[k], first, at)))
  }

  /** The same as bytes, one command behind the other. */
  function RunCommands(types: CommandTypes, run: seq<Attrib>, first: nat, at: nat): (bs: seq<Byte>)
    ensures |bs| == POINTER_SIZE * |run|
  {
    ConcatLength(RunPointers(types, run, first, at), POINTER_SIZE);
    Concat(RunPointers(types, run, first, at))
  }

  /** Where an attribute's data is once its chunk, which starts at `first`, is copied to `at`. */
  function Translated(a: Attrib, first: nat, at: nat): nat {
    if at + a.pointer >= first then at + a.pointer - first else 0
  }

  /** All pointer commands, in the order of the list, for chunks copied to addresses from `at` on. */
  function Pointers(types: CommandTypes, app: seq<Byte>, chunks: seq<Chunk>, at: nat): seq<seq<Byte>>
    requires Readable(app, chunks)
  {
    if chunks == [] then [] else
      var n := |chunks| - 1;
      Pointers(types, app, chunks[..n], at)
      + RunPointers(types, chunks[n].run, chunks[n].run[0].pointer, at + |Payload(app, chunks[..n])|)
  }

  function Commands(types: CommandTypes, app: seq<Byte>, chunks: seq<Chunk>, at: nat): seq<Byte>
    requires Readable(app, chunks)
  {
    Concat(Pointers(types, app, chunks, at))
  }

  /** The size of the draw command with its payload. */
  function DrawSize(app: seq<Byte>, chunks: seq<Chunk>, draw: DrawCall): nat
    requires Readable(app, chunks)
  {
    draw.Size() + |Payload(app, chunks)| + |draw.Indices()|
  }

  /** All the bytes of a draw, from the first pointer command to the last index. */
  function Span(app: seq<Byte>, chunks: seq<Chunk>, draw: DrawCall): nat
    requires Readable(app, chunks)
  {
    POINTER_SIZE * Attribs(chunks) + DrawSize(app, chunks, draw)
  }

  /** The draw command as it is committed: header, chunk copies, indices. */
  function WholeDraw(types: CommandTypes, app: seq<Byte>, chunks: seq<Chunk>, draw: DrawCall, at: nat): (bs: seq<Byte>)
    requires Readable(app, chunks)
    ensures |bs| == DrawSize(app, chunks, draw)
  {
    DrawCommand(types, draw, DrawSize(app, chunks, draw), at + draw.Size() + |Payload(app, chunks)|)
    + Payload(app, chunks) + draw.Indices()
  }

  /** The whole span a draw of `n` attributes occupies from address `start` on. */
  function Image(types: CommandTypes, app: seq<Byte>, chunks: seq<Chunk>, n: nat, draw: DrawCall, start: nat): seq<Byte>
    requires Readable(app, chunks)
  {
    Commands(types, app, chunks, start + POINTER_SIZE * n + draw.Size())
    + WholeDraw(types, app, chunks, draw, start + POINTER_SIZE * n)
  }

  // ----- The bytes of the span while it is being filled -----

  /** `before`, with commands laid over its start and payload laid over it from `reserve` on. */
  ghost function Filled(before: seq<Byte>, commands: seq<Byte>, payload: seq<Byte>, reserve: nat): (view: seq<Byte>)
    requires |commands| <= reserve && reserve + |payload| <= |before|
    ensures |view| == |before|
  {
    commands + before[|commands|..reserve] + payload + before[reserve + |payload|..]
  }

  /** One more chunk and the commands of its run. */
  lemma FillMore(before: seq<Byte>, commands: seq<Byte>, payload: seq<Byte>, reserve: nat, chunk: seq<Byte>,
                 more: seq<Byte>)
    requires |commands| + |more| <= reserve && reserve + |payload| + |chunk| <= |before|
    ensures Laid(Laid(Filled(before, commands, payload, reserve), reserve + |payload|, chunk), |commands|, more)
            == Filled(before, commands + more, payload + chunk, reserve)
  {
  }

  lemma CellOfSmall(length: nat, p: nat)
    requires p < length
    ensures Cell(length, p) == p
  {
  }

  /** The ring seen from a later position is the same ring, rotated. */
  lemma Rotated(mem: seq<Byte>, start: nat, done: nat)
    requires |mem| > 0 && done <= |mem|
    ensures var v := Window(mem, Cell(|mem|, start + done), |mem|);
      Window(mem, start, |mem|) == v[|mem| - done..] + v[..|mem| - done]
  {
    var n := |mem|;
    WindowOfCell(mem, start + done, n);
    var v := Window(mem, start + done, n);
    forall i | 0 <= i < n
      ensures Window(mem, start, n)[i] == (v[n - done..] + v[..n - done])[i]
    {
      if i < done {
        CellOfNextRound(n, start + i);
        assert start + done + (n - done + i) == start + i + n;
      } else {
        assert start + done + (i - done) == start + i;
      }
    }
  }

  lemma LaidRotated(view: seq<Byte>, done: nat, offset: nat, bytes: seq<Byte>)
    requires done <= offset && offset + |bytes| <= |view|
    ensures var n := |view|; var v := Laid(view, offset - done, bytes);
      v[n - done..] + v[..n - done] == Laid(view[n - done..] + view[..n - done], offset, bytes)
  {
  }

  /** memcpy to `start + offset`, when `head` has already moved on by `done`. */
  method StoreFrom(ring: Ring, start: nat, done: nat, offset: nat, bytes: seq<Byte>)
    requires ring.Valid() && ring.head == Cell(ring.data.Length, start + done)
    requires done <= offset && offset + |bytes| <= ring.data.Length
    requires offset - done + |bytes| <= ring.data.Length - ring.fillCount
    modifies ring.data
    ensures ring.Valid()
    ensures Window(ring.data[..], start, ring.data.Length)
            == Laid(old(Window(ring.data[..], start, ring.data.Length)), offset, bytes)
  {
    hide Cell, Laid, Concat, IsEnd, Window;
    Rotated(ring.data[..], start, done);
    LaidRotated(ring.View(), done, offset, bytes);
    ring.Store(offset - done, bytes);
    Rotated(ring.data[..], start, done);
  }

  /**
   client_get_space_for_size. Nothing is available for more than the ring holds; otherwise the client
   polls. However many polls find nothing new, the server then releases as many bytes as it likes.
   */
  method GetSpace(ring: Ring, size: nat) returns (available: bool)
    requires ring.Valid()
    modifies ring`tail, ring`fillCount
    ensures ring.Valid() && available == (size <= ring.data.Length)
    ensures available ==> size <= ring.data.Length - ring.fillCount
    ensures ring.fillCount <= old(ring.fillCount)
    ensures size > 0 && old(ring.fillCount) + size <= ring.data.Length ==> ring.fillCount == old(ring.fillCount)
  {
    hide Concat, IsEnd, Window, Cell;
    if size > ring.data.Length {
      return false;
    }
    var address, writable := ring.WriteAddress();
    var idle: nat := *;
    while address.None? || writable < size
      invariant ring.Valid() && ring.fillCount <= old(ring.fillCount)
      invariant writable == ring.data.Length - ring.fillCount
      invariant address.None? <==> writable == 0
      invariant size > 0 && old(ring.fillCount) + size <= ring.data.Length ==> ring.fillCount == old(ring.fillCount)
      decreases ring.fillCount, idle
    {
      if idle > 0 {
        idle := idle - 1;
      } else {
        var released: nat :| 0 < released <= ring.fillCount;
        ring.ReadAdvance(released);
        idle := *;
      }
      address, writable := ring.WriteAddress();
    }
    available := true;
  }

  // ----- Packing -----

  /** One pointer command is laid out at the front of the free space and committed. */
  method CommitPointer(ring: Ring, start: nat, done: nat, command: seq<Byte>)
    requires ring.Valid() && ring.head == Cell(ring.data.Length, start + done)
    requires |command| == POINTER_SIZE && done + POINTER_SIZE <= ring.data.Length
    requires POINTER_SIZE <= ring.data.Length - ring.fillCount
    modifies ring.data, ring`head, ring`fillCount, ring`commits
    ensures ring.Valid() && ring.head == Cell(ring.data.Length, start + (done + POINTER_SIZE))
    ensures ring.fillCount == old(ring.fillCount) + POINTER_SIZE
    ensures Window(ring.data[..], start, ring.data.Length)
            == Laid(old(Window(ring.data[..], start, ring.data.Length)), done, command)
    ensures ring.commits == old(ring.commits) + [command]
  {
    hide Cell, Laid, Concat, Window;
    StoreFrom(ring, start, done, done, command);
    CellOfCell(ring.data.Length, start + done, POINTER_SIZE);
    ReadsLaid(ring.data[..], start, old(Window(ring.data[..], start, ring.data.Length)), done, command);
    ring.WriteAdvance(POINTER_SIZE);
  }

  /** What was laid at an offset is what a reader sees from there. */
  lemma ReadsLaid(mem: seq<Byte>, start: nat, before: seq<Byte>, offset: nat, bytes: seq<Byte>)
    requires |before| == |mem| > 0 && offset + |bytes| <= |mem|
    requires Window(mem, start, |mem|) == Laid(before, offset, bytes)
    ensures Window(mem, Cell(|mem|, start + offset), |bytes|) == bytes
  {
    hide Cell;
    WindowOfCell(mem, start + offset, |bytes|);
    var w, v := Window(mem, start, |mem|), Window(mem, start + offset, |bytes|);
    forall i | 0 <= i < |bytes| ensures v[i] == bytes[i] {
      assert v[i] == mem[Cell(|mem|, start + offset + i)] == w[offset + i];
    }
  }

  /** What the span looks like when `j` commands of a run have been laid out. */
  ghost function RunLaid(types: CommandTypes, run: seq<Attrib>, j: nat, at: nat, view: seq<Byte>, done: nat): seq<Byte>
    requires j <= |run| && done + POINTER_SIZE * j <= |view|
  {
    Laid(view, done, RunCommands(types, run[..j], if run == [] then 0 else run[0].pointer, at))
  }

  lemma OneMoreCommand(types: CommandTypes, run: seq<Attrib>, j: nat, at: nat, view: seq<Byte>, done: nat)
    requires j < |run| && done + POINTER_SIZE * (j + 1) <= |view|
    ensures Laid(RunLaid(types, run, j, at, view, done), done + POINTER_SIZE * j,
                 PointerCommand(types, run[j], Translated(run[j], run[0].pointer, at)))
            == RunLaid(types, run, j + 1, at, view, done)
  {
    hide Laid, Concat, PointerCommand;
    RunPointersNext(types, run, j, run[0].pointer, at);
    ConcatOneMore(RunPointers(types, run[..j], run[0].pointer, at),
                  PointerCommand(types, run[j], Translated(run[j], run[0].pointer, at)));
    LaidTwice(view, done, RunCommands(types, run[..j], run[0].pointer, at),
              PointerCommand(types, run[j], Translated(run[j], run[0].pointer, at)));
  }

  lemma RunPointersNext(types: CommandTypes, run: seq<Attrib>, j: nat, first: nat, at: nat)
    requires j < |run|
    ensures RunPointers(types, run[..j + 1], first, at)
            == RunPointers(types, run[..j], first, at) + [PointerCommand(types, run[j], Translated(run[j], first, at))]
  {
  }

  lemma NothingLaid(types: CommandTypes, run: seq<Attrib>, at: nat, view: seq<Byte>, done: nat)
    requires done <= |view|
    ensures RunLaid(types, run, 0, at, view, done) == view
  {
  }

  method CommitAttrib(ring: Ring, types: CommandTypes, run: seq<Attrib>, j: nat, at: nat, start: nat, done: nat,
                      ghost view: seq<Byte>)
    requires ring.Valid() && ring.head == Cell(ring.data.Length, start + (done + POINTER_SIZE * j))
    requires j < |run| && |view| == ring.data.Length && done + POINTER_SIZE * (j + 1) <= ring.data.Length
    requires POINTER_SIZE <= ring.data.Length - ring.fillCount
    requires Window(ring.data[..], start, ring.data.Length) == RunLaid(types, run, j, at, view, done)
    modifies ring.data, ring`head, ring`fillCount, ring`commits
    ensures ring.Valid() && ring.head == Cell(ring.data.Length, start + (done + POINTER_SIZE * (j + 1)))
    ensures ring.fillCount == old(ring.fillCount) + POINTER_SIZE
    ensures Window(ring.data[..], start, ring.data.Length) == RunLaid(types, run, j + 1, at, view, done)
    ensures ring.commits
            == old(ring.commits) + [PointerCommand(types, run[j], Translated(run[j], run[0].pointer, at))]
  {
    hide Cell, Laid, Concat, Window, RunLaid, PointerCommand;
    CommitPointer(ring, start, done + POINTER_SIZE * j,
                  PointerCommand(types, run[j], Translated(run[j], run[0].pointer, at)));
    OneMoreCommand(types, run, j, at, view, done);
  }

  /** The pointer commands of one run. */
  method CommitRun(ring: Ring, types: CommandTypes, run: seq<Attrib>, at: nat, start: nat, done: nat)
    requires ring.Valid() && ring.head == Cell(ring.data.Length, start + done) && run != []
    requires done + POINTER_SIZE * |run| <= ring.data.Length
    requires POINTER_SIZE * |run| <= ring.data.Length - ring.fillCount
    modifies ring.data, ring`head, ring`fillCount, ring`commits
    ensures ring.Valid() && ring.head == Cell(ring.data.Length, start + (done + POINTER_SIZE * |run|))
    ensures ring.fillCount == old(ring.fillCount) + POINTER_SIZE * |run|
    ensures Window(ring.data[..], start, ring.data.Length)
            == RunLaid(types, run, |run|, at, old(Window(ring.data[..], start, ring.data.Length)), done)
    ensures ring.commits == old(ring.commits) + RunPointers(types, run, run[0].pointer, at)
  {
    hide Cell, RunCommands, PointerCommand, Concat, IsEnd, Window;
    ghost var view := Window(ring.data[..], start, ring.data.Length);
    var j := 0;
    NothingLaid(types, run, at, view, done);
    while j < |run|
      invariant 0 <= j <= |run| && ring.Valid()
      invariant ring.head == Cell(ring.data.Length, start + (done + POINTER_SIZE * j))
      invariant ring.fillCount == old(ring.fillCount) + POINTER_SIZE * j
      invariant Window(ring.data[..], start, ring.data.Length) == RunLaid(types, run, j, at, view, done)
      invariant ring.commits == old(ring.commits) + RunPointers(types, run[..j], run[0].pointer, at)
    {
      RunPointersNext(types, run, j, run[0].pointer, at);
      CommitAttrib(ring, types, run, j, at, start, done, view);
      j := j + 1;
    }
    assert run[..|run|] == run;
  }

  /** One chunk: its bytes are copied behind the earlier ones, then its run is committed. */
  method PackChunk(ring: Ring, types: CommandTypes, app: seq<Byte>, run: seq<Attrib>, size: nat,
                   start: nat, done: nat, offset: nat)
    requires ring.Valid() && ring.head == Cell(ring.data.Length, start + done) && run != []
    requires done + POINTER_SIZE * |run| <= offset && offset + size <= ring.data.Length
    requires offset + size - done <= ring.data.Length - ring.fillCount
    requires run[0].pointer + size <= |app|
    modifies ring.data, ring`head, ring`fillCount, ring`commits
    ensures ring.Valid() && ring.head == Cell(ring.data.Length, start + (done + POINTER_SIZE * |run|))
    ensures ring.fillCount == old(ring.fillCount) + POINTER_SIZE * |run|
    ensures Window(ring.data[..], start, ring.data.Length)
            == RunLaid(types, run, |run|, start + offset,
                       Laid(old(Window(ring.data[..], start, ring.data.Length)), offset,
                            app[run[0].pointer..run[0].pointer + size]), done)
    ensures ring.commits == old(ring.commits) + RunPointers(types, run, run[0].pointer, start + offset)
  {
    hide Cell, Laid, RunCommands, RunPointers, Window, Concat, IsEnd;
    StoreFrom(ring, start, done, offset, app[run[0].pointer..run[0].pointer + size]);
    CommitRun(ring, types, run, start + offset, start, done);
  }

  /** What the draw callers get back: where to put the draw command, and how much payload precedes its end. */
  datatype Space = NoSpace | SpaceAt(offset: nat)

  /** The draw fits: no chunk is empty and the whole span is no longer than the ring. */
  predicate Fits(app: seq<Byte>, list: seq<Attrib>, count: nat, draw: DrawCall, length: nat)
    requires Readable(app, Chunks(list, count))
  {
    var chunks := Chunks(list, count);
    Positive(chunks) && POINTER_SIZE * |list| + DrawSize(app, chunks, draw) <= length
  }

  /** The number of attributes in some chunks. */
  function Attribs(chunks: seq<Chunk>): nat {
    if chunks == [] then 0 else Attribs(chunks[..|chunks| - 1]) + |chunks[|chunks| - 1].run|
  }

  /**
   The request for another chunk is counted from `head`, which is past the pointer commands already
   committed. A span longer than the ring may so be granted bit by bit, while the server releases its
   first commands; such draws are outside this model.
   */
  predicate NoOverrun(app: seq<Byte>, list: seq<Attrib>, count: nat, draw: DrawCall, length: nat)
    requires Readable(app, Chunks(list, count))
  {
    forall m :: 0 <= m < |Chunks(list, count)| ==> NoOverrunAt(app, list, Chunks(list, count), m, draw, length)
  }

  predicate NoOverrunAt(app: seq<Byte>, list: seq<Attrib>, chunks: seq<Chunk>, m: nat, draw: DrawCall, length: nat)
    requires Readable(app, chunks) && m < |chunks|
  {
    var span := POINTER_SIZE * |list| + DrawSize(app, chunks[..m + 1], draw);
    span > length ==> span - POINTER_SIZE * Attribs(chunks[..m]) > length
  }

  lemma FitsMeans(app: seq<Byte>, list: seq<Attrib>, count: nat, draw: DrawCall, length: nat)
    requires Readable(app, Chunks(list, count))
    ensures var chunks := Chunks(list, count); var payload := Payload(app, chunks);
      Fits(app, list, count, draw, length) <==>
        Positive(chunks) && POINTER_SIZE * |list| + draw.Size() + |payload| + |draw.Indices()| <= length
  {
  }

  // ----- How far the packing has come -----

  /** The first `i` attributes are the first `m` chunks. */
  ghost predicate Reached(list: seq<Attrib>, count: nat, i: nat, m: nat) {
    && i <= |list| && m <= |Chunks(list, count)| && i == Attribs(Chunks(list, count)[..m])
    && Chunks(list[i..], count) == Chunks(list, count)[m..]
  }

  lemma ReachedNext(list: seq<Attrib>, count: nat, i: nat, m: nat, j: nat)
    requires Reached(list, count, i, m) && i < |list| && j == i + RunLength(list[i..])
    ensures m < |Chunks(list, count)| && j <= |list| && Reached(list, count, j, m + 1)
    ensures Chunks(list, count)[m] == Chunk(list[i..j], ChunkSize(list[i], list[j - 1], count))
  {
    hide ChunkSize, RunLength, Chunks;
    var rest, chunks := list[i..], Chunks(list, count);
    ChunksNext(rest, count);
    assert rest[..j - i] == list[i..j] && rest[j - i..] == list[j..];
    assert chunks[m] == chunks[m..][0] && chunks[m..][1..] == chunks[m + 1..];
    TakeOneMore(chunks, m);
  }

  lemma ChunksNext(list: seq<Attrib>, count: nat)
    requires list != []
    ensures var k := RunLength(list);
      && Chunks(list, count) != [] && Chunks(list, count)[0] == Chunk(list[..k], ChunkSize(list[0], list[k - 1], count))
      && Chunks(list, count)[1..] == Chunks(list[k..], count)
  {
    hide ChunkSize, RunLength;
  }

  lemma ReachedAll(list: seq<Attrib>, count: nat, m: nat)
    requires Reached(list, count, |list|, m)
    ensures m == |Chunks(list, count)| && Chunks(list, count)[..m] == Chunks(list, count)
    ensures Attribs(Chunks(list, count)) == |list|
  {
    assert list[|list|..] == [];
  }

  lemma TakeOneMore<T>(s: seq<T>, m: nat)
    requires m < |s|
    ensures s[..m + 1][..m] == s[..m] && s[..m + 1][m] == s[m]
  {
  }

  lemma PackedNext(types: CommandTypes, app: seq<Byte>, chunks: seq<Chunk>, m: nat, at: nat)
    requires Readable(app, chunks) && m < |chunks|
    ensures Payload(app, chunks[..m + 1]) == Payload(app, chunks[..m]) + Copy(app, chunks[m])
    ensures Pointers(types, app, chunks[..m + 1], at) == Pointers(types, app, chunks[..m], at)
            + RunPointers(types, chunks[m].run, chunks[m].run[0].pointer, at + |Payload(app, chunks[..m])|)
    ensures Commands(types, app, chunks[..m + 1], at) == Commands(types, app, chunks[..m], at)
            + RunCommands(types, chunks[m].run, chunks[m].run[0].pointer, at + |Payload(app, chunks[..m])|)
  {
    hide Concat, Header, PointerCommand, RunPointers;
    TakeOneMore(chunks, m);
    ConcatPlus(Pointers(types, app, chunks[..m], at),
               RunPointers(types, chunks[m].run, chunks[m].run[0].pointer, at + |Payload(app, chunks[..m])|));
  }

  /** The copies of some of the chunks are no longer than those of all. */
  lemma {:induction false} PayloadGrows(app: seq<Byte>, chunks: seq<Chunk>, m: nat)
    requires Readable(app, chunks) && m <= |chunks|
    ensures |Payload(app, chunks[..m])| <= |Payload(app, chunks)|
  {
    if m == |chunks| {
      assert chunks[..m] == chunks;
    } else {
      var n := |chunks| - 1;
      assert chunks[..n][..m] == chunks[..m];
      PayloadGrows(app, chunks[..n], m);
    }
  }

  lemma PackedNothing(types: CommandTypes, app: seq<Byte>, chunks: seq<Chunk>, at: nat, before: seq<Byte>, reserve: nat)
    requires Readable(app, chunks) && reserve <= |before|
    ensures Payload(app, chunks[..0]) == [] && Commands(types, app, chunks[..0], at) == []
    ensures Pointers(types, app, chunks[..0], at) == []
    ensures Filled(before, [], [], reserve) == before
  {
  }

  /** A draw that fits is never one of those. */
  lemma FitsNoOverrun(app: seq<Byte>, list: seq<Attrib>, count: nat, draw: DrawCall, length: nat)
    requires Readable(app, Chunks(list, count)) && Fits(app, list, count, draw, length)
    ensures NoOverrun(app, list, count, draw, length)
  {
    hide Chunks, Payload, Attribs;
    var chunks := Chunks(list, count);
    forall m | 0 <= m < |chunks| ensures NoOverrunAt(app, list, chunks, m, draw, length) {
      PayloadGrows(app, chunks, m + 1);
    }
  }

  /** What the size of another chunk, and the answer to the request for it, say about the whole draw. */
  lemma NextSpan(app: seq<Byte>, list: seq<Attrib>, count: nat, draw: DrawCall, length: nat, m: nat)
    requires Readable(app, Chunks(list, count)) && NoOverrun(app, list, count, draw, length)
    requires m < |Chunks(list, count)|
    ensures var chunks := Chunks(list, count);
      var span := POINTER_SIZE * |list| + draw.Size() + |Payload(app, chunks[..m])| + chunks[m].size + |draw.Indices()|;
      var request := span - POINTER_SIZE * Attribs(chunks[..m]);
      && |Payload(app, chunks[..m + 1])| == |Payload(app, chunks[..m])| + chunks[m].size
      && (request <= length ==> span <= length)
      && (request > length || chunks[m].size == 0 ==> !Fits(app, list, count, draw, length))
  {
    hide Chunks, Commands;
    var chunks := Chunks(list, count);
    assert InMemory(app, chunks[m]) && NoOverrunAt(app, list, chunks, m, draw, length);
    TakeOneMore(chunks, m);
    PayloadGrows(app, chunks, m + 1);
  }

  /** The inner walk: where the run that starts at `i` ends, and its last attribute. */
  method FindRun(list: seq<Attrib>, i: nat) returns (last: Attrib, j: nat)
    requires i < |list|
    ensures j == i + RunLength(list[i..]) && last == list[j - 1]
  {
    last, j := list[i], i;
    while j < |list| && list[j].chunk == list[i].chunk
      invariant i <= j <= |list| && (j > i ==> last == list[j - 1])
      invariant forall k :: i <= k < j ==> list[k].chunk == list[i].chunk
    {
      last := list[j];
      j := j + 1;
    }
    RunIs(list[i..], j - i);
  }

  lemma RunIs(list: seq<Attrib>, n: nat)
    requires 1 <= n <= |list|
    requires forall k :: 0 <= k < n ==> list[k].chunk == list[0].chunk
    requires n < |list| ==> list[n].chunk != list[0].chunk
    ensures RunLength(list) == n
  {
    assert RunLength(list) < |list| ==> list[RunLength(list)].chunk != list[0].chunk;
  }

  // ----- The draw -----

  /** What is in the ring after `m` chunks, and how far `head` is. */
  ghost predicate PackedSoFar(ring: Ring, types: CommandTypes, app: seq<Byte>, chunks: seq<Chunk>, m: nat, i: nat,
                              start: nat, reserve: nat, before: seq<Byte>, committed: seq<seq<Byte>>)
    requires Readable(app, chunks)
    reads ring, ring.data
  {
    && ring.Valid() && m <= |chunks|
    && ring.commits == committed + Pointers(types, app, chunks[..m], start + reserve)
    && ring.head == Cell(ring.data.Length, start + POINTER_SIZE * i)
    && |before| == ring.data.Length
    && POINTER_SIZE * i <= reserve && |Commands(types, app, chunks[..m], start + reserve)| == POINTER_SIZE * i
    && reserve + |Payload(app, chunks[..m])| <= ring.data.Length
    && Window(ring.data[..], start, ring.data.Length)
       == Filled(before, Commands(types, app, chunks[..m], start + reserve), Payload(app, chunks[..m]), reserve)
  }

  /** One more chunk of the loop. */
  method PackNext(ring: Ring, types: CommandTypes, app: seq<Byte>, ghost chunks: seq<Chunk>, ghost m: nat,
                  run: seq<Attrib>, size: nat, i: nat, start: nat, reserve: nat, offset: nat, ghost before: seq<Byte>,
                  ghost committed: seq<seq<Byte>>)
    requires Readable(app, chunks) && PackedSoFar(ring, types, app, chunks, m, i, start, reserve, before, committed)
    requires m < |chunks| && chunks[m] == Chunk(run, size) && POINTER_SIZE * (i + |run|) <= reserve
    requires offset == reserve + |Payload(app, chunks[..m])| && offset + size <= ring.data.Length
    requires offset + size - POINTER_SIZE * i <= ring.data.Length - ring.fillCount
    modifies ring.data, ring`head, ring`fillCount, ring`commits
    ensures PackedSoFar(ring, types, app, chunks, m + 1, i + |run|, start, reserve, before, committed)
    ensures ring.fillCount == old(ring.fillCount) + POINTER_SIZE * |run|
    ensures |Payload(app, chunks[..m + 1])| == |Payload(app, chunks[..m])| + size
  {
    hide RunCommands, RunPointers, Pointers, Commands, Payload, Cell, Concat, IsEnd, Window, Laid, Filled, RunLaid;
    ghost var pointers := Pointers(types, app, chunks[..m], start + reserve);
    ghost var view := Window(ring.data[..], start, ring.data.Length);
    PackChunk(ring, types, app, run, size, start, POINTER_SIZE * i, offset);
    PackedNext(types, app, chunks, m, start + reserve);
    FilledNext(types, app, chunks, m, run, size, i, start, reserve, offset, before, view);
    assert committed + pointers + RunPointers(types, run, run[0].pointer, start + offset)
        == committed + (pointers + RunPointers(types, run, run[0].pointer, start + offset));
  }

  /** The span after one more chunk, seen as values. */
  lemma FilledNext(types: CommandTypes, app: seq<Byte>, chunks: seq<Chunk>, m: nat, run: seq<Attrib>, size: nat, i: nat,
                   start: nat, reserve: nat, offset: nat, before: seq<Byte>, view: seq<Byte>)
    requires Readable(app, chunks) && m < |chunks| && chunks[m] == Chunk(run, size)
    requires POINTER_SIZE * (i + |run|) <= reserve && offset == reserve + |Payload(app, chunks[..m])|
    requires |Commands(types, app, chunks[..m], start + reserve)| == POINTER_SIZE * i && offset + size <= |before|
    requires view == Filled(before, Commands(types, app, chunks[..m], start + reserve), Payload(app, chunks[..m]),
                            reserve)
    ensures InMemory(app, chunks[m])
    ensures |Commands(types, app, chunks[..m + 1], start + reserve)| == POINTER_SIZE * (i + |run|)
    ensures |Payload(app, chunks[..m + 1])| == |Payload(app, chunks[..m])| + size
    ensures RunLaid(types, run, |run|, start + offset, Laid(view, offset, Copy(app, chunks[m])), POINTER_SIZE * i)
            == Filled(before, Commands(types, app, chunks[..m + 1], start + reserve), Payload(app, chunks[..m + 1]),
                      reserve)
  {
    hide RunCommands, RunPointers, Pointers, Commands, Payload, Concat, Laid, Filled;
    PackedNext(types, app, chunks, m, start + reserve);
    assert run[..|run|] == run && InMemory(app, chunks[m]);
    FillMore(before, Commands(types, app, chunks[..m], start + reserve), Payload(app, chunks[..m]), reserve,
             Copy(app, chunks[m]), RunCommands(types, run, run[0].pointer, start + offset));
  }

  /** The invariant of the loop over the runs. */
  ghost predicate Packing(ring: Ring, types: CommandTypes, app: seq<Byte>, list: seq<Attrib>, count: nat,
                          draw: DrawCall, i: nat, m: nat, arraySize: nat, start: nat, before: seq<Byte>,
                          committed: seq<seq<Byte>>)
    requires Readable(app, Chunks(list, count))
    reads ring, ring.data
  {
    var chunks := Chunks(list, count);
    var reserve := POINTER_SIZE * |list| + draw.Size();
    && Reached(list, count, i, m)
    && PackedSoFar(ring, types, app, chunks, m, i, start, reserve, before, committed)
    && |Payload(app, chunks[..m])| == arraySize && Positive(chunks[..m])
    && reserve + arraySize + |draw.Indices()| <= ring.data.Length
    && reserve + arraySize + |draw.Indices()| - POINTER_SIZE * i <= ring.data.Length - ring.fillCount
  }

  lemma StartPacking(ring: Ring, types: CommandTypes, app: seq<Byte>, list: seq<Attrib>, count: nat, draw: DrawCall)
    requires ring.Valid() && Readable(app, Chunks(list, count))
    requires POINTER_SIZE * |list| + draw.Size() + |draw.Indices()| <= ring.data.Length - ring.fillCount
    ensures Packing(ring, types, app, list, count, draw, 0, 0, 0, ring.head,
                    Window(ring.data[..], ring.head, ring.data.Length), ring.commits)
  {
    hide Chunks, Window, Filled, Concat;
    var chunks := Chunks(list, count);
    var reserve := POINTER_SIZE * |list| + draw.Size();
    assert list[0..] == list && chunks[0..] == chunks && chunks[..0] == [];
    PackedNothing(types, app, chunks, ring.head + reserve, Window(ring.data[..], ring.head, ring.data.Length), reserve);
    CellOfSmall(ring.data.Length, ring.head);
  }

  /** One round of the loop: it fails only for a draw that does not fit. */
  method PackRun(ring: Ring, types: CommandTypes, app: seq<Byte>, list: seq<Attrib>, count: nat, draw: DrawCall,
                 i: nat, arraySize: nat, start: nat, ghost m: nat, ghost before: seq<Byte>,
                 ghost committed: seq<seq<Byte>>)
    returns (ok: bool, next: nat, newSize: nat)
    requires Readable(app, Chunks(list, count)) && NoOverrun(app, list, count, draw, ring.data.Length)
    requires Packing(ring, types, app, list, count, draw, i, m, arraySize, start, before, committed) && i < |list|
    modifies ring.data, ring`head, ring`tail, ring`fillCount, ring`commits
    ensures ring.Valid()
    ensures !ok ==> !Fits(app, list, count, draw, ring.data.Length)
    ensures ok ==>
      next > i && Packing(ring, types, app, list, count, draw, next, m + 1, newSize, start, before, committed)
  {
    hide Chunks, ChunkSize, Commands, Pointers, Payload, RunLength, Window, Cell, Filled, NoOverrun, Fits;
    hide Concat, IsEnd;
    ghost var chunks := Chunks(list, count);
    var reserve := POINTER_SIZE * |list| + draw.Size();
    var last, j := FindRun(list, i);
    ReachedNext(list, count, i, m, j);
    NextSpan(app, list, count, draw, ring.data.Length, m);
    next := j;
    var chunkSize := ChunkSize(list[i], last, count);
    assert InMemory(app, chunks[m]);
    newSize := arraySize + chunkSize;
    if chunkSize == 0 {
      return false, next, newSize;
    }
    ok := GetSpace(ring, reserve + newSize + |draw.Indices()| - POINTER_SIZE * i);
    if ok {
      PackNext(ring, types, app, chunks, m, list[i..j], chunkSize, i, start, reserve, reserve + arraySize, before,
               committed);
      assert chunks[..m + 1] == chunks[..m] + [chunks[m]];
    }
  }

  /**
   caching_client_setup_vertex_attrib_pointer_if_necessary. If the draw fits, all pointer commands
   are committed, the payload is in place and the draw command's own place is handed back. If a
   chunk is empty or the ring too short, the place handed back is the start of the span.
   */
  method SetupPointers(ring: Ring, types: CommandTypes, app: seq<Byte>, list: seq<Attrib>, count: nat, draw: DrawCall)
    returns (space: Space, arraySize: nat)
    requires ring.Valid() && Readable(app, Chunks(list, count))
    requires NoOverrun(app, list, count, draw, ring.data.Length)
    modifies ring.data, ring`head, ring`tail, ring`fillCount, ring`commits
    ensures ring.Valid()
    ensures space == NoSpace <==> POINTER_SIZE * |list| + draw.Size() + |draw.Indices()| > ring.data.Length
    ensures !Fits(app, list, count, draw, ring.data.Length) ==> space == NoSpace || space == SpaceAt(0)
    ensures Fits(app, list, count, draw, ring.data.Length) ==>
      && space == SpaceAt(POINTER_SIZE * |list|)
      && arraySize == |Payload(app, Chunks(list, count))|
      && PackedSoFar(ring, types, app, Chunks(list, count), |Chunks(list, count)|, |list|, old(ring.head),
                     POINTER_SIZE * |list| + draw.Size(), old(Window(ring.data[..], ring.head, ring.data.Length)),
                     old(ring.commits))
      && DrawSize(app, Chunks(list, count), draw) <= ring.data.Length - ring.fillCount
  {
    hide Chunks, Commands, Pointers, Payload, Window, Cell, Filled, NoOverrun, Fits, PackedSoFar, Concat, IsEnd;
    var start := ring.head;
    arraySize := 0;
    FitsMeans(app, list, count, draw, ring.data.Length);
    var available := GetSpace(ring, POINTER_SIZE * |list| + draw.Size() + |draw.Indices()|);
    if !available {
      return NoSpace, arraySize;
    }
    ghost var before := Window(ring.data[..], start, ring.data.Length);
    ghost var m: nat := 0;
    var i := 0;
    StartPacking(ring, types, app, list, count, draw);
    while i < |list|
      invariant ring.Valid()
      invariant Packing(ring, types, app, list, count, draw, i, m, arraySize, start, before, old(ring.commits))
      decreases |list| - i
    {
      var ok, next, newSize :=
        PackRun(ring, types, app, list, count, draw, i, arraySize, start, m, before, old(ring.commits));
      if !ok {
        return SpaceAt(0), newSize;
      }
      i, m, arraySize := next, m + 1, newSize;
    }
    ReachedAll(list, count, m);
    space := SpaceAt(POINTER_SIZE * |list|);
  }

  /** Commands, draw command, chunks and indices lie side by side and fill the span. */
  lemma SpanFilled(before: seq<Byte>, commands: seq<Byte>, payload: seq<Byte>, header: seq<Byte>, indices: seq<Byte>)
    requires |commands| + |header| + |payload| + |indices| <= |before|
    ensures var reserve := |commands| + |header|;
      Laid(Laid(Filled(before, commands, payload, reserve), |commands|, header), reserve + |payload|, indices)
      == Laid(before, 0, commands + (header + payload + indices))
  {
    var reserve, rest := |commands| + |header|, before[|commands| + |header| + |payload|..];
    var withHeader := commands + header + payload;
    assert Laid(Filled(before, commands, payload, reserve), |commands|, header) == withHeader + rest;
    assert Laid(withHeader + rest, |withHeader|, indices) == withHeader + indices + rest[|indices|..];
    assert rest[|indices|..] == before[|withHeader| + |indices|..];
    assert withHeader + indices == commands + (header + payload + indices);
  }

  /**
   caching_client_glDrawArrays and caching_client_glDrawElements with client-side attributes and
   indices, for a draw that fits: what the ring holds from the old `head` on is the image of the
   draw, every byte of it, and nothing else in the ring has changed. The pointer commands have joined
   the queue one by one, in order, then the draw command; and that, at least, is still queued.
   */
  method PackDraw(ring: Ring, types: CommandTypes, app: seq<Byte>, list: seq<Attrib>, count: nat, draw: DrawCall)
    requires ring.Valid() && Readable(app, Chunks(list, count))
    requires Fits(app, list, count, draw, ring.data.Length)
    modifies ring.data, ring`head, ring`tail, ring`fillCount, ring`commits
    ensures ring.Valid()
    ensures var chunks := Chunks(list, count);
      var image := Image(types, app, chunks, |list|, draw, old(ring.head));
      && |image| == POINTER_SIZE * |list| + DrawSize(app, chunks, draw) <= ring.data.Length
      && ring.head == Cell(ring.data.Length, old(ring.head) + |image|)
      && Window(ring.data[..], old(ring.head), ring.data.Length)
         == Laid(old(Window(ring.data[..], ring.head, ring.data.Length)), 0, image)
    ensures var chunks := Chunks(list, count); var at := old(ring.head) + POINTER_SIZE * |list|;
      && ring.commits == old(ring.commits) + Pointers(types, app, chunks, at + draw.Size())
                         + [WholeDraw(types, app, chunks, draw, at)]
      && IsEnd(WholeDraw(types, app, chunks, draw, at), ring.Contents())
  {
    hide Chunks, Commands, Pointers, Payload, Window, Cell, Filled, NoOverrun, Laid, DrawCommand, Concat, IsEnd;
    ghost var chunks := Chunks(list, count);
    ghost var before := Window(ring.data[..], ring.head, ring.data.Length);
    var start, n := ring.head, POINTER_SIZE * |list|;
    FitsMeans(app, list, count, draw, ring.data.Length);
    FitsNoOverrun(app, list, count, draw, ring.data.Length);
    ghost var commands, payload := Commands(types, app, chunks, start + n + draw.Size()), Payload(app, chunks);
    assert chunks[..|chunks|] == chunks;
    var space, arraySize := SetupPointers(ring, types, app, list, count, draw);
    assert ring.head == Cell(ring.data.Length, start + n) && |commands| == n;
    assert Window(ring.data[..], start, ring.data.Length) == Filled(before, commands, payload, n + draw.Size());
    var size := draw.Size() + arraySize + |draw.Indices()|;
    var header := DrawCommand(types, draw, size, start + n + draw.Size() + arraySize);
    StoreFrom(ring, start, n, n, header);
    StoreFrom(ring, start, n, n + draw.Size() + arraySize, draw.Indices());
    SpanFilled(before, commands, payload, header, draw.Indices());
    DrawCommitted(ring, types, app, chunks, draw, start, n, before, commands);
    CellOfCell(ring.data.Length, start + n, size);
    assert start + n + size == start + (n + size);
    ghost var queued := ring.Contents();
    ring.WriteAdvance(size);
    EndOfSum(queued, WholeDraw(types, app, chunks, draw, start + n));
  }

  lemma EndOfSum(a: seq<Byte>, b: seq<Byte>)
    ensures IsEnd(b, a + b)
  {
  }

  /** The draw command lies behind `head`, to be committed. */
  lemma DrawCommitted(ring: Ring, types: CommandTypes, app: seq<Byte>, chunks: seq<Chunk>, draw: DrawCall, start: nat,
                      n: nat, before: seq<Byte>, commands: seq<Byte>)
    requires Readable(app, chunks) && ring.data.Length > 0 && |before| == ring.data.Length && |commands| == n
    requires ring.head == Cell(ring.data.Length, start + n)
    requires var whole := WholeDraw(types, app, chunks, draw, start + n);
      && n + |whole| <= |before|
      && Window(ring.data[..], start, ring.data.Length) == Laid(before, 0, commands + whole)
    ensures var whole := WholeDraw(types, app, chunks, draw, start + n);
      Window(ring.data[..], ring.head, |whole|) == whole
  {
    hide WholeDraw, Window, Cell;
    var whole := WholeDraw(types, app, chunks, draw, start + n);
    LaidTwice(before, 0, commands, whole);
    ReadsLaid(ring.data[..], start, Laid(before, 0, commands), n, whole);
  }
}
