/**
 A draw on the machine: what joins the queue while the client packs it, and how long the driver can
 read the vertex data and the indices through the queued pointers.
 */
module DrawLifetime {
  import opened Bytes
  import opened ChunkCoverage
  import opened ClientProgram
  import opened CommandQueue
  import opened DrawPacking
  import opened DrawProgram
  import opened QueueBytes
  import opened QueueSafety
  import EnabledAttribs

  // ----- The commands of a draw -----

  /** Attribute `k` of chunk `m` has its pointer command at a known place, built for the place of the copy. */
  lemma {:induction false} PointerAt(types: CommandTypes, app: seq<Byte>, chunks: seq<Chunk>, at: nat, m: nat, k: nat)
    requires Readable(app, chunks) && m < |chunks| && k < |chunks[m].run|
    ensures InMemory(app, chunks[m])
    ensures Attribs(chunks[..m]) + k < |Pointers(types, app, chunks, at)| == Attribs(chunks)
    ensures Pointers(types, app, chunks, at)[Attribs(chunks[..m]) + k]
            == PointerCommand(types, chunks[m].run[k],
                 Translated(chunks[m].run[k], chunks[m].run[0].pointer, at + |Payload(app, chunks[..m])|))
  {
    hide PointerCommand, Translated, Payload;
    var n := |chunks| - 1;
    assert InMemory(app, chunks[m]) && InMemory(app, chunks[n]);
    PointersCount(types, app, chunks[..n], at);
    if m < n {
      assert chunks[..n][..m] == chunks[..m] && chunks[..n][m] == chunks[m];
      PointerAt(types, app, chunks[..n], at, m, k);
    }
  }

  lemma {:induction false} PointersCount(types: CommandTypes, app: seq<Byte>, chunks: seq<Chunk>, at: nat)
    requires Readable(app, chunks)
    ensures |Pointers(types, app, chunks, at)| == Attribs(chunks)
  {
    hide Payload, RunPointers;
    if chunks != [] {
      assert InMemory(app, chunks[|chunks| - 1]);
      PointersCount(types, app, chunks[..|chunks| - 1], at);
    }
  }

  /** The pointer a command carries is the one it was built with. */
  lemma PointerRoundTrip(types: CommandTypes, a: Attrib, data: nat)
    requires data < Pow256(8)
    ensures PointerOf(PointerCommand(types, a, data)) == data
  {
    hide ToLE, Pow256, FromLE;
    assert PointerCommand(types, a, data)[POINTER_AT..] == ToLE(data, 8);
    LoadAfterStore(data, 8);
  }

  /** Byte `x` of the copy of a chunk is the application's. */
  lemma CopyAt(app: seq<Byte>, chunk: Chunk, x: nat)
    requires InMemory(app, chunk) && x < chunk.size
    ensures |Copy(app, chunk)| == chunk.size && Copy(app, chunk)[x] == app[chunk.run[0].pointer + x]
  {
  }

  // ----- Runs in which the client packs a draw -----

  /** No handler stores into `size` bytes from absolute position `from` on. */
  ghost predicate SlotLeftAlone(states: seq<State>, steps: seq<Step>, t0: nat, t: nat, from: nat, size: nat)
    requires t <= |steps| && |states| == |steps| + 1
  {
    forall i {:trigger steps[i]} :: t0 <= i < t && steps[i].RewriteByte? ==>
      !(from <= states[i].hist.tailPos + steps[i].offset < from + size)
  }

  /**
   From time `t0` on the client packs a draw; up to `t1` it has performed a part of the program, or all
   of it, whatever the server did meanwhile. At time `u`, which is `t1` or, once all is committed, any
   later time, the slot of the draw command has not been released.
   */
  ghost predicate Drawing(states: seq<State>, steps: seq<Step>, t0: nat, t1: nat, u: nat, types: CommandTypes,
                          app: seq<Byte>, chunks: seq<Chunk>, draw: DrawCall)
  {
    && Run(states, steps) && t0 <= t1 <= u < |states| && !InCommit(states[t0]) && Readable(app, chunks)
    && DrawSize(app, chunks, draw) < Pow256(8)
    && Actions(states, steps, t0, t1) <= Program(types, app, chunks, draw, states[t0].head)
    && (t1 == u || (Actions(states, steps, t0, t1) == Program(types, app, chunks, draw, states[t0].head)
                    && !InCommit(states[t1])))
    && states[u].hist.released <= DrawAt(states[t0], chunks)
    && SlotLeftAlone(states, steps, t0, u, DrawAt(states[t0], chunks), DrawSize(app, chunks, draw))
  }

  /** The absolute position of the draw command, behind the pointer commands. */
  function DrawAt(s: State, chunks: seq<Chunk>): nat {
    s.hist.headPos + POINTER_SIZE * Attribs(chunks)
  }

  /** What has joined the queue since `t0` is what the draw's program builds, in order. */
  lemma QueuedInOrder(states: seq<State>, steps: seq<Step>, t0: nat, t1: nat, u: nat, types: CommandTypes,
                      app: seq<Byte>, chunks: seq<Chunk>, draw: DrawCall, i: nat)
    requires Drawing(states, steps, t0, t1, u, types, app, chunks, draw)
    requires |states[t0].hist.log.committed| + i < |states[u].hist.log.committed|
    requires i < |DrawCommands(types, app, chunks, draw, states[t0].head)|
    ensures states[u].hist.log.committed[|states[t0].hist.log.committed| + i]
            == DrawCommands(types, app, chunks, draw, states[t0].head)[i]
    ensures Commits(Actions(states, steps, t0, t1)) > i
  {
    hide DrawCommands, Program, Builds, Commits, Pow256;
    var program, commands := Program(types, app, chunks, draw, states[t0].head),
                             DrawCommands(types, app, chunks, draw, states[t0].head);
    var done := Actions(states, steps, t0, t1);
    ProgramBuilds(types, app, chunks, draw, states[t0].head);
    PartBuilds(program, commands, |done|);
    assert program[..|done|] == done;
    CommitsFollow(states, steps, t0, t1, commands[..Commits(done)]);
    CommittedGrows(states, steps, t1, u);
    if t1 < u {
      assert program[..|program|] == program && commands[..|commands|] == commands;
      WholeCommits(program, commands);
    }
  }

  lemma WholeCommits(actions: seq<Action>, commands: seq<seq<Byte>>)
    requires Builds(actions, commands)
    ensures Commits(actions) == |commands|
  {
    PartBuilds(actions, commands, |actions|);
  }

  lemma {:induction false} CommittedGrows(states: seq<State>, steps: seq<Step>, i: nat, j: nat)
    requires Run(states, steps) && i <= j < |states|
    ensures states[i].hist.log.committed <= states[j].hist.log.committed
    decreases j
  {
    if i < j {
      assert Taken(states, steps, j - 1);
      CommittedGrows(states, steps, i, j - 1);
    }
  }

  // ----- Bytes of the draw command -----

  /** After all is committed the client's own stores are behind the draw. */
  lemma StoresBehind(states: seq<State>, steps: seq<Step>, t0: nat, t1: nat, u: nat, types: CommandTypes,
                     app: seq<Byte>, chunks: seq<Chunk>, draw: DrawCall)
    requires Drawing(states, steps, t0, t1, u, types, app, chunks, draw) && t1 < u
    ensures states[t1].hist.headPos == DrawAt(states[t0], chunks) + DrawSize(app, chunks, draw)
  {
    hide Program, Builds, Pointers, Payload, WholeDraw, Pow256;
    hide TotalSize, Attribs, Actions, SlotLeftAlone, LaidOut, Holds, Run;
    var start := states[t0].head;
    var commands := DrawCommands(types, app, chunks, draw, start);
    ProgramBuilds(types, app, chunks, draw, start);
    CommitsFollow(states, steps, t0, t1, commands);
    var at := start + POINTER_SIZE * Attribs(chunks);
    var pointers := Pointers(types, app, chunks, at + draw.Size());
    ChunksBuild(types, app, chunks, start, POINTER_SIZE * Attribs(chunks) + draw.Size());
    assert at + draw.Size() == start + (POINTER_SIZE * Attribs(chunks) + draw.Size());
    TotalOneMore(pointers, WholeDraw(types, app, chunks, draw, at));
  }

  lemma TotalOneMore(commands: seq<seq<Byte>>, command: seq<Byte>)
    ensures TotalSize(commands + [command]) == TotalSize(commands) + |command|
  {
    assert (commands + [command])[..|commands|] == commands;
  }

  /** What the program has laid out of the draw command's payload stands in the ring until the release. */
  lemma DrawByteStays(states: seq<State>, steps: seq<Step>, t0: nat, t1: nat, u: nat, types: CommandTypes,
                      app: seq<Byte>, chunks: seq<Chunk>, draw: DrawCall, at: nat, content: seq<Byte>, i: nat)
    requires Drawing(states, steps, t0, t1, u, types, app, chunks, draw) && i < |content|
    requires Holds(LaidOut(Actions(states, steps, t0, t1)), at, content)
    requires POINTER_SIZE * Attribs(chunks) <= at + i < POINTER_SIZE * Attribs(chunks) + DrawSize(app, chunks, draw)
    ensures Shows(states[u], states[t0].hist.headPos + at + i, content[i])
  {
    hide Program, LaidOut, DrawSize, Attribs, Pow256, Inv, Enabled, After;
    var q := states[t0].hist.headPos + at + i;
    assert ByteAt(LaidOut(Actions(states, steps, t0, t1)), at + i) == content[i];
    ReleasedGrows(states, steps, t1, u);
    LaidOutStays(states, steps, t0, t1, at + i);
    if t1 < u {
      StoresBehind(states, steps, t0, t1, u, types, app, chunks, draw);
      forall k {:trigger steps[k]} | t1 <= k < u ensures !Touches(states[k], steps[k], q) {
        HeadPassed(states, steps, t1, k);
      }
      BytePersists(states, steps, t1, u, q);
    }
  }

  lemma {:induction false} ReleasedGrows(states: seq<State>, steps: seq<Step>, i: nat, j: nat)
    requires Run(states, steps) && i <= j < |states|
    ensures states[i].hist.released <= states[j].hist.released
    decreases j
  {
    if i < j {
      RunKeeps(states, steps, j - 1);
      assert Taken(states, steps, j - 1);
      StepMovesForward(states[j - 1], steps[j - 1]);
      ReleasedGrows(states, steps, i, j - 1);
    }
  }

  /** An address counted from where `head` was reaches the byte of its absolute position. */
  lemma AddressReads(s0: State, s: State, offset: nat, value: Byte)
    requires Inv(s0) && s.Length() == s0.Length() && Shows(s, s0.hist.headPos + offset, value)
    ensures s.mem[Cell(s.Length(), s0.head + offset)] == value
  {
    CellOfCell(s0.Length(), s0.hist.headPos, offset);
  }

  lemma {:induction false} SameLength(states: seq<State>, steps: seq<Step>, i: nat, j: nat)
    requires Run(states, steps) && i <= j < |states|
    ensures states[i].Length() == states[j].Length() > 0
    decreases j
  {
    RunKeeps(states, steps, i);
    if i < j {
      SameLength(states, steps, i, j - 1);
      assert Taken(states, steps, j - 1);
    }
  }

  /** So it is what is read at its address. */
  lemma DrawByteReads(states: seq<State>, steps: seq<Step>, t0: nat, t1: nat, u: nat, types: CommandTypes,
                      app: seq<Byte>, chunks: seq<Chunk>, draw: DrawCall, at: nat, content: seq<Byte>, i: nat)
    requires Drawing(states, steps, t0, t1, u, types, app, chunks, draw) && i < |content|
    requires Holds(LaidOut(Actions(states, steps, t0, t1)), at, content)
    requires POINTER_SIZE * Attribs(chunks) <= at + i < POINTER_SIZE * Attribs(chunks) + DrawSize(app, chunks, draw)
    ensures states[u].Length() > 0
    ensures states[u].mem[Cell(states[u].Length(), states[t0].head + at + i)] == content[i]
  {
    hide Program, LaidOut, DrawSize, Attribs, Pow256, Inv, Cell, Shows;
    DrawByteStays(states, steps, t0, t1, u, types, app, chunks, draw, at, content, i);
    RunKeeps(states, steps, t0);
    SameLength(states, steps, t0, u);
    AddressReads(states[t0], states[u], at + i, content[i]);
  }

  // ----- The claims -----

  /** The chunks of a list kept in order, as the pointers need them. */
  lemma {:induction false} ChunkSizes(list: seq<Attrib>, count: nat, m: nat)
    requires m < |Chunks(list, count)|
    ensures var chunk := Chunks(list, count)[m];
      chunk.run != [] && chunk.size == ChunkSize(chunk.run[0], chunk.run[|chunk.run| - 1], count)
    decreases |list|
  {
    hide ChunkSize, RunLength;
    ChunksNext(list, count);
    if m > 0 {
      ChunkSizes(list[RunLength(list)..], count, m - 1);
      assert Chunks(list, count)[m] == Chunks(list, count)[1..][m - 1];
    }
  }

  /** Where the pointer of attribute `k` of chunk `m` leads. */
  lemma PointerPlace(app: seq<Byte>, chunks: seq<Chunk>, m: nat, k: nat, at: nat)
    requires Readable(app, chunks) && m < |chunks| && k < |chunks[m].run|
    requires chunks[m].run[0].pointer <= chunks[m].run[k].pointer
    ensures var run := chunks[m].run; var before := |Payload(app, chunks[..m])|;
      && InMemory(app, chunks[m]) && before + chunks[m].size <= |Payload(app, chunks)|
      && Translated(run[k], run[0].pointer, at + before) == at + before + run[k].pointer - run[0].pointer
  {
    hide Payload;
    assert InMemory(app, chunks[m]);
    CopiesApart(app, chunks, m);
  }

  /**
   Vertex data. Take any run and any time after the pointer command of an attribute has joined the
   queue, be the draw command itself committed by then or not, up to the release of the draw command's
   slot. The queued command carries a pointer into the payload of the draw command that follows; and
   read through the ring, that pointer shows, for every byte from the attribute's own first one to the
   end of what was copied of its chunk, the very byte the application had there.
   */
  lemma VertexDataLifetime(states: seq<State>, steps: seq<Step>, t0: nat, t1: nat, u: nat, types: CommandTypes,
                           app: seq<Byte>, chunks: seq<Chunk>, draw: DrawCall, m: nat, k: nat, p: nat)
    requires Drawing(states, steps, t0, t1, u, types, app, chunks, draw)
    requires m < |chunks| && k < |chunks[m].run|
    requires chunks[m].run[0].pointer <= chunks[m].run[k].pointer <= p < chunks[m].run[0].pointer + chunks[m].size
    requires AddressEnd(states[t0], app, chunks, draw) < Pow256(8)
    requires |states[t0].hist.log.committed| + Attribs(chunks[..m]) + k < |states[u].hist.log.committed|
    ensures var j := |states[t0].hist.log.committed| + Attribs(chunks[..m]) + k;
      PointerShows(states[u], states[u].hist.log.committed[j], types, app, chunks[m].run[k], p,
                   PayloadAddress(states[t0], chunks, draw), |Payload(app, chunks)|)
  {
    hide Attribs, Payload, Program, PointerCommand, LaidOut, Pow256, Cell;
    hide Holds, Pointers, Shows, Copy, WholeDraw, DrawSize, Commits;
    var run, before, start := chunks[m].run, |Payload(app, chunks[..m])|, states[t0].head;
    var payload, i := PayloadAddress(states[t0], chunks, draw), Attribs(chunks[..m]) + k;
    PointerPlace(app, chunks, m, k, payload);
    PointerAt(types, app, chunks, payload, m, k);
    QueuedInOrder(states, steps, t0, t1, u, types, app, chunks, draw, i);
    var pointer := payload + before + run[k].pointer - run[0].pointer;
    EndOfDraw(states[t0], app, chunks, draw);
    PointerRoundTrip(types, run[k], pointer);
    var done, program := Actions(states, steps, t0, t1), Program(types, app, chunks, draw, start);
    assert program[..|done|] == done;
    CopiedFirstInDraw(types, app, chunks, draw, start, |done|, m);
    var at, x := POINTER_SIZE * Attribs(chunks) + draw.Size() + before, p - run[0].pointer;
    CopyAt(app, chunks[m], x);
    DrawByteReads(states, steps, t0, t1, u, types, app, chunks, draw, at, Copy(app, chunks[m]), x);
    assert start + at + x == pointer + (p - run[k].pointer);
  }

  /** In a list kept in order, with vertices of some size, the pointer of every attribute is into the copy. */
  lemma PointersIntoCopy(list: seq<Attrib>, count: nat, m: nat, k: nat)
    requires EnabledAttribs.Sorted(RecsOf(list)) && count > 0
    requires m < |Chunks(list, count)| && k < |Chunks(list, count)[m].run|
    requires var run := Chunks(list, count)[m].run; ElementSize(run[|run| - 1]) > 0
    ensures var chunk := Chunks(list, count)[m];
      chunk.run[0].pointer <= chunk.run[k].pointer < chunk.run[0].pointer + chunk.size
  {
    hide Chunks, ElementSize;
    SortedRuns(list, count);
    ChunkSizes(list, count, m);
    var run := Chunks(list, count)[m].run;
    var last := run[|run| - 1];
    LastGoesOn(last, count);
    CopiedEnds(run, count, run[k].pointer);
  }

  lemma LastGoesOn(a: Attrib, count: nat)
    requires count > 0 && ElementSize(a) > 0
    ensures VertexAt(a, count) > a.pointer
  {
    ProductGrows(1, count, FetchStride(a));
  }

  /** Every vertex of the run is read within the copy, as the list gives it. */
  ghost predicate ReadsEnd(run: seq<Attrib>, count: nat) {
    run != [] && count > 0 && forall a :: a in run ==> ElementSize(a) > 0 && ReadEnd(a, count) <= CopyEnd(run, count)
  }

  /** So is every byte of every vertex of every attribute of a chunk that is copied long enough. */
  lemma VerticesInCopy(list: seq<Attrib>, count: nat, m: nat, k: nat, v: nat, p: nat)
    requires EnabledAttribs.Sorted(RecsOf(list)) && m < |Chunks(list, count)| && k < |Chunks(list, count)[m].run|
    requires ReadsEnd(Chunks(list, count)[m].run, count)
    requires v < count && InVertex(Chunks(list, count)[m].run[k], v, p)
    ensures var chunk := Chunks(list, count)[m];
      chunk.run[0].pointer <= chunk.run[k].pointer <= p < chunk.run[0].pointer + chunk.size
  {
    hide Chunks, ElementSize;
    SortedRuns(list, count);
    ChunkSizes(list, count, m);
    VertexIsCopied(Chunks(list, count)[m].run, count, k, v, p);
  }

  /** And so, for a list kept in order, the driver reads all that it reads as the application had it. */
  lemma EveryVertexReads(states: seq<State>, steps: seq<Step>, t0: nat, t1: nat, u: nat, types: CommandTypes,
                         app: seq<Byte>, list: seq<Attrib>, count: nat, draw: DrawCall,
                         m: nat, k: nat, v: nat, p: nat)
    requires Drawing(states, steps, t0, t1, u, types, app, Chunks(list, count), draw)
    requires EnabledAttribs.Sorted(RecsOf(list)) && m < |Chunks(list, count)| && k < |Chunks(list, count)[m].run|
    requires ReadsEnd(Chunks(list, count)[m].run, count)
    requires v < count && InVertex(Chunks(list, count)[m].run[k], v, p)
    requires AddressEnd(states[t0], app, Chunks(list, count), draw) < Pow256(8)
    requires |states[t0].hist.log.committed| + Attribs(Chunks(list, count)[..m]) + k < |states[u].hist.log.committed|
    ensures var chunks := Chunks(list, count);
      var j := |states[t0].hist.log.committed| + Attribs(chunks[..m]) + k;
      PointerShows(states[u], states[u].hist.log.committed[j], types, app, chunks[m].run[k], p,
                   PayloadAddress(states[t0], chunks, draw), |Payload(app, chunks)|)
  {
    hide Drawing, Chunks, Attribs, Pow256, Payload, InVertex, ReadsEnd, PointerShows, DrawSize;
    VerticesInCopy(list, count, m, k, v, p);
    VertexDataLifetime(states, steps, t0, t1, u, types, app, Chunks(list, count), draw, m, k, p);
  }

  lemma VertexIsCopied(run: seq<Attrib>, count: nat, k: nat, v: nat, p: nat)
    requires k < |run| && PointerSorted(run) && v < count && InVertex(run[k], v, p)
    requires ReadsEnd(run, count)
    ensures run[0].pointer <= run[k].pointer <= p
    ensures p < run[0].pointer + ChunkSize(run[0], run[|run| - 1], count)
  {
    hide ElementSize, FetchStride, Product, ReadEnd, CopyEnd, ChunkSize;
    assert forall i :: 0 <= i < |run| ==> run[i] in run;
    CoveredExactly(run, count);
    assert IsRead(run, count, p);
    assert Copied(run, count, p);
  }

  /** The address behind `head` at which the payload of the draw begins. */
  function PayloadAddress(s: State, chunks: seq<Chunk>, draw: DrawCall): nat {
    s.head + POINTER_SIZE * Attribs(chunks) + draw.Size()
  }

  function AddressEnd(s: State, app: seq<Byte>, chunks: seq<Chunk>, draw: DrawCall): nat
    requires Readable(app, chunks)
  {
    s.head + POINTER_SIZE * Attribs(chunks) + DrawSize(app, chunks, draw)
  }

  lemma EndOfDraw(s: State, app: seq<Byte>, chunks: seq<Chunk>, draw: DrawCall)
    requires Readable(app, chunks)
    ensures AddressEnd(s, app, chunks, draw)
            == PayloadAddress(s, chunks, draw) + |Payload(app, chunks)| + |draw.Indices()|
    ensures DrawSize(app, chunks, draw) == draw.Size() + |Payload(app, chunks)| + |draw.Indices()|
  {
  }

  /** The command is the pointer command of `a`, and through its pointer byte `p` of the application is read. */
  ghost predicate PointerShows(s: State, command: seq<Byte>, types: CommandTypes, app: seq<Byte>, a: Attrib, p: nat,
                               payload: nat, size: nat)
  {
    && |command| == POINTER_SIZE && a.pointer <= p < |app| && s.Length() > 0
    && var pointer := PointerOf(command);
       && command == PointerCommand(types, a, pointer)
       && payload <= pointer && pointer + (p - a.pointer) < payload + size
       && s.mem[Cell(s.Length(), pointer + (p - a.pointer))] == app[p]
  }

  /**
   Indices. Once the draw command has joined the queue, and until its slot is released, it is the
   command the client laid out, and the address it carries lies in its payload, just behind the vertex
   data, and shows the application's indices.
   */
  lemma IndexDataLifetime(states: seq<State>, steps: seq<Step>, t0: nat, t1: nat, u: nat, types: CommandTypes,
                          app: seq<Byte>, chunks: seq<Chunk>, draw: DrawCall, x: nat)
    requires Drawing(states, steps, t0, t1, u, types, app, chunks, draw)
    requires |states[t0].hist.log.committed| + Attribs(chunks) < |states[u].hist.log.committed|
    requires draw.Elements? && x < |draw.indices| && AddressEnd(states[t0], app, chunks, draw) < Pow256(8)
    ensures var command := states[u].hist.log.committed[|states[t0].hist.log.committed| + Attribs(chunks)];
      && command == WholeDraw(types, app, chunks, draw, states[t0].head + POINTER_SIZE * Attribs(chunks))
      && var pointer := FromLE(command[40..48]);
         && PayloadAddress(states[t0], chunks, draw) + |Payload(app, chunks)| == pointer
         && pointer + |draw.indices| == AddressEnd(states[t0], app, chunks, draw)
         && states[u].Length() > 0
         && states[u].mem[Cell(states[u].Length(), pointer + x)] == draw.indices[x]
  {
    hide Attribs, Payload, Program, LaidOut, Pow256, Cell, Holds, Pointers, Shows, ToLE, FromLE, Header, Commits;
    var start, n := states[t0].head, POINTER_SIZE * Attribs(chunks);
    var whole, payload := WholeDraw(types, app, chunks, draw, start + n), |Payload(app, chunks)|;
    var pointer := start + n + draw.Size() + payload;
    PointersCount(types, app, chunks, start + n + draw.Size());
    QueuedInOrder(states, steps, t0, t1, u, types, app, chunks, draw, Attribs(chunks));
    assert whole[40..48] == DrawCommand(types, draw, DrawSize(app, chunks, draw), pointer)[40..48] == ToLE(pointer, 8);
    LoadAfterStore(pointer, 8);
    AllDone(states, steps, t0, t1, u, types, app, chunks, draw);
    DrawHolds(types, app, chunks, draw, start);
    DrawByteReads(states, steps, t0, t1, u, types, app, chunks, draw, n, whole, draw.Size() + payload + x);
    assert start + (n + draw.Size() + payload + x) == pointer + x;
  }

  /** With the last command queued the whole program has been performed. */
  lemma AllDone(states: seq<State>, steps: seq<Step>, t0: nat, t1: nat, u: nat, types: CommandTypes,
                app: seq<Byte>, chunks: seq<Chunk>, draw: DrawCall)
    requires Drawing(states, steps, t0, t1, u, types, app, chunks, draw)
    requires Commits(Actions(states, steps, t0, t1)) > Attribs(chunks)
    ensures Actions(states, steps, t0, t1) == Program(types, app, chunks, draw, states[t0].head)
  {
    hide Attribs, Payload, LaidOut, Pow256, Commits, ChunksProgram, PutAll, DrawCommand, DrawSize, Actions;
    var start, n, payload := states[t0].head, POINTER_SIZE * Attribs(chunks), |Payload(app, chunks)|;
    var a := ChunksProgram(types, app, chunks, start, n + draw.Size());
    var header := DrawCommand(types, draw, DrawSize(app, chunks, draw), start + n + draw.Size() + payload);
    var b := PutAll(n, header) + PutAll(n + draw.Size() + payload, draw.Indices());
    var done, program := Actions(states, steps, t0, t1), Program(types, app, chunks, draw, start);
    assert program == a + b + [Commit(false)];
    ChunksCommit(types, app, chunks, start, n + draw.Size());
    PutsCommitNothing(n, header, |header|);
    WholePuts(n, header);
    PutsCommitNothing(n + draw.Size() + payload, draw.Indices(), |draw.Indices()|);
    WholePuts(n + draw.Size() + payload, draw.Indices());
    CommitsPlus(PutAll(n, header), PutAll(n + draw.Size() + payload, draw.Indices()));
    CommitsPlus(a, b);
    assert program[..|done|] == done;
    PastFirst(a + b, [Commit(false)], |done|);
  }

  /** The server's handler is given each of these commands as it was committed. */
  lemma HandledAsQueued(states: seq<State>, steps: seq<Step>, u: nat, j: nat)
    requires Run(states, steps) && u < |states| && j < |states[u].hist.handled|
    ensures j < |states[u].hist.log.committed| && states[u].hist.handled[j] == states[u].hist.log.committed[j]
  {
    FifoRefinement(states, steps, u);
  }
}
