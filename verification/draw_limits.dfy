/** Draws longer than the ring: which of them the client is granted, and where their bytes then go. */
module DrawLimits {
  import opened Bytes
  import opened ChunkCoverage
  import opened ClientProgram
  import opened DrawPacking
  import opened DrawProgram
  import opened DrawRuns
  import opened GLTypes
  import opened ProgramRuns
  import EnabledAttribs
  import QueueLimits

  /** The space asked for at chunk `m`, counted from `head`, which is past the earlier pointer commands. */
  function Request(app: seq<Byte>, chunks: seq<Chunk>, draw: DrawCall, m: nat): int
    requires Readable(app, chunks) && m < |chunks|
  {
    POINTER_SIZE * Attribs(chunks) + DrawSize(app, chunks[..m + 1], draw) - POINTER_SIZE * Attribs(chunks[..m])
  }

  /** No request is for more than the ring holds: the client waits, and packs the draw. */
  predicate Granted(app: seq<Byte>, chunks: seq<Chunk>, draw: DrawCall, length: nat)
    requires Readable(app, chunks)
  {
    && Positive(chunks) && POINTER_SIZE * Attribs(chunks) + draw.Size() + |draw.Indices()| <= length
    && forall m :: 0 <= m < |chunks| ==> Request(app, chunks, draw, m) <= length
  }

  /** A granted draw is longer than the ring by less than its earlier pointer commands. */
  lemma GrantedBound(app: seq<Byte>, chunks: seq<Chunk>, draw: DrawCall, length: nat)
    requires Readable(app, chunks) && Granted(app, chunks, draw, length)
    ensures Span(app, chunks, draw)
            <= length + if chunks == [] then 0 else POINTER_SIZE * Attribs(chunks[..|chunks| - 1])
  {
    hide Payload, Attribs, DrawSize;
    if chunks == [] {
      assert DrawSize(app, [], draw) == draw.Size() + |draw.Indices()| by { NoPayload(app, draw); }
    } else {
      var n := |chunks| - 1;
      assert chunks[..n + 1] == chunks && Request(app, chunks, draw, n) <= length;
    }
  }

  lemma NoPayload(app: seq<Byte>, draw: DrawCall)
    ensures DrawSize(app, [], draw) == draw.Size() + |draw.Indices()|
  {
  }

  /** Whether a request for a shorter part can be refused while the whole fits: it cannot. */
  lemma FittingIsGranted(app: seq<Byte>, chunks: seq<Chunk>, draw: DrawCall, length: nat)
    requires Readable(app, chunks) && Positive(chunks) && Span(app, chunks, draw) <= length
    ensures Granted(app, chunks, draw, length)
  {
    hide Payload, Attribs;
    forall m | 0 <= m < |chunks| ensures Request(app, chunks, draw, m) <= length {
      PayloadGrows(app, chunks, m + 1);
    }
  }

  // ----- Where a granted draw is stored -----

  /** All stores of a program, made at addresses counted from `start`, are into the ring or its mirror. */
  ghost predicate InMapping(actions: seq<Action>, start: nat, length: nat) {
    forall i {:trigger actions[i]} :: 0 <= i < |actions| && actions[i].Put? ==>
      0 <= start + actions[i].at < 2 * length
  }

  ghost predicate StoresTo(actions: seq<Action>, at: int) {
    exists i {:trigger actions[i]} :: 0 <= i < |actions| && actions[i].Put? && actions[i].at == at
  }

  lemma {:induction false} StoresWithin(actions: seq<Action>, commands: seq<seq<Byte>>, room: nat)
    requires Feasible(actions, commands, room)
    ensures forall i {:trigger actions[i]} :: 0 <= i < |actions| && actions[i].Put? ==> 0 <= actions[i].at < room
  {
    if actions != [] {
      var n := |actions| - 1;
      match actions[n]
      case Put(_, _) => StoresWithin(actions[..n], commands, room);
      case Commit(_) => StoresWithin(actions[..n], commands[..|commands| - 1], room);
      forall i {:trigger actions[i]} | 0 <= i < |actions| && actions[i].Put? ensures 0 <= actions[i].at < room {
        assert i < n ==> actions[i] == actions[..n][i];
      }
    }
  }

  lemma StoresPart(a: seq<Action>, b: seq<Action>, c: seq<Action>, at: int)
    requires StoresTo(b, at)
    ensures StoresTo(a + b + c, at)
  {
    var i :| 0 <= i < |b| && b[i].Put? && b[i].at == at;
    assert (a + b + c)[|a| + i] == b[i];
  }

  lemma PutsLast(at: nat, bytes: seq<Byte>)
    requires bytes != []
    ensures StoresTo(PutAll(at, bytes), at + |bytes| - 1)
  {
    assert PutAll(at, bytes)[|bytes| - 1] == Put(at + |bytes| - 1, bytes[|bytes| - 1]);
  }

  /** The last byte of the last chunk is stored. */
  lemma ChunksLast(types: CommandTypes, app: seq<Byte>, chunks: seq<Chunk>, start: nat, reserve: nat)
    requires Readable(app, chunks) && Positive(chunks) && chunks != []
    ensures |Payload(app, chunks)| > 0
    ensures StoresTo(ChunksProgram(types, app, chunks, start, reserve), reserve + |Payload(app, chunks)| - 1)
  {
    hide ChunksProgram, Payload, PutAll, RunProgram, RunPointers, StoresTo, Pointers, Attribs;
    var n := |chunks| - 1;
    LastChunk(types, app, chunks, start, reserve);
    var at := reserve + |Payload(app, chunks[..n])|;
    var run := RunPointers(types, chunks[n].run, chunks[n].run[0].pointer, start + at);
    assert |Copy(app, chunks[n])| == chunks[n].size;
    PutsLast(at, Copy(app, chunks[n]));
    StoresPart(ChunksProgram(types, app, chunks[..n], start, reserve), PutAll(at, Copy(app, chunks[n])),
               RunProgram(run, POINTER_SIZE * Attribs(chunks[..n])), reserve + |Payload(app, chunks)| - 1);
  }

  /** The last byte of the span is stored, be it one of the indices, of a chunk, or of the draw command. */
  lemma LastOfSpan(types: CommandTypes, app: seq<Byte>, chunks: seq<Chunk>, draw: DrawCall, start: nat)
    requires Readable(app, chunks) && Positive(chunks)
    ensures StoresTo(Program(types, app, chunks, draw, start), Span(app, chunks, draw) - 1)
  {
    hide ChunksProgram, Payload, PutAll, StoresTo, Attribs, DrawCommand;
    var n, payload := POINTER_SIZE * Attribs(chunks), |Payload(app, chunks)|;
    var a := ChunksProgram(types, app, chunks, start, n + draw.Size());
    var header := DrawCommand(types, draw, DrawSize(app, chunks, draw), start + n + draw.Size() + payload);
    var b, c := PutAll(n, header), PutAll(n + draw.Size() + payload, draw.Indices());
    var program, last := Program(types, app, chunks, draw, start), Span(app, chunks, draw) - 1;
    if draw.Indices() != [] {
      PutsLast(n + draw.Size() + payload, draw.Indices());
      StoresPart(a + b, c, [Commit(false)], last);
    } else if chunks != [] {
      ChunksLast(types, app, chunks, start, n + draw.Size());
      StoresPart([], a, b + c + [Commit(false)], last);
      assert [] + a + (b + c + [Commit(false)]) == program;
    } else {
      NoPayload(app, draw);
      PutsLast(n, header);
      StoresPart(a, b, c + [Commit(false)], last);
      assert a + b + (c + [Commit(false)]) == program;
    }
  }

  /** A draw that begins at address `start` is stored within the double mapping exactly if its span ends there. */
  lemma StaysInMapping(types: CommandTypes, app: seq<Byte>, chunks: seq<Chunk>, draw: DrawCall, start: nat, length: nat)
    requires Readable(app, chunks) && Positive(chunks)
    ensures InMapping(Program(types, app, chunks, draw, start), start, length)
            <==> start + Span(app, chunks, draw) <= 2 * length
  {
    hide Program, Span, Feasible;
    var program := Program(types, app, chunks, draw, start);
    DrawFeasible(types, app, chunks, draw, start);
    StoresWithin(program, DrawCommands(types, app, chunks, draw, start), Span(app, chunks, draw));
    LastOfSpan(types, app, chunks, draw, start);
  }

  /**
   A granted draw is stored within the mapping wherever `head` stands exactly if it is longer than the
   ring by one byte at most.
   */
  lemma GrantedStaysInMapping(types: CommandTypes, app: seq<Byte>, chunks: seq<Chunk>, draw: DrawCall, length: nat)
    requires length > 0 && Readable(app, chunks) && Granted(app, chunks, draw, length)
    ensures (forall start: nat :: start < length ==>
               InMapping(Program(types, app, chunks, draw, start), start, length))
            <==> Span(app, chunks, draw) <= length + 1
  {
    hide Program, Span, InMapping, Request;
    forall start: nat | start < length
      ensures InMapping(Program(types, app, chunks, draw, start), start, length)
              <==> start + Span(app, chunks, draw) <= 2 * length
    {
      StaysInMapping(types, app, chunks, draw, start, length);
    }
    var last: nat := length - 1;
    assert InMapping(Program(types, app, chunks, draw, last), last, length)
        <==> last + Span(app, chunks, draw) <= 2 * length;
  }

  // ----- Granted, and stored beyond it -----

  const HALF: nat := 524240

  /** Two attributes of one byte a vertex, far from each other, as insertion into the list leaves them. */
  function Far(): seq<Attrib> {
    [Attrib(1, 1, GL_BYTE, false, 0, 1000000, 2), Attrib(0, 1, GL_BYTE, false, 0, 2000000, 1)]
  }

  /**
   Such a draw of the two, in the ring that client_init asks for: every request is granted, and from
   wherever in the last 55 bytes of the ring it begins, it is stored past the end of the mapping.
   */
  lemma GrantedBeyondMapping(types: CommandTypes, app: seq<Byte>)
    requires |app| >= 2000000 + HALF
    ensures EnabledAttribs.Added(EnabledAttribs.Added([], RecOf(Far()[0])), RecOf(Far()[1])) == RecsOf(Far())
    ensures var chunks, draw := Chunks(Far(), HALF), Arrays(4, 0, HALF);
      && Readable(app, chunks) && Granted(app, chunks, draw, QueueLimits.RING)
      && forall start: nat :: QueueLimits.RING - 56 < start < QueueLimits.RING ==>
           !InMapping(Program(types, app, chunks, draw, start), start, QueueLimits.RING)
  {
    FarInserted();
    var a, b, draw := Far()[0], Far()[1], Arrays(4, 0, HALF);
    var chunks := Chunks(Far(), HALF);
    FarChunks();
    FarGranted(app, Chunk([a], HALF), Chunk([b], HALF));
    hide Program, Span, InMapping, Granted, Chunks;
    GrantedPositive(app, chunks, draw);
    forall start: nat | QueueLimits.RING - 56 < start < QueueLimits.RING
      ensures !InMapping(Program(types, app, chunks, draw, start), start, QueueLimits.RING)
    {
      StaysInMapping(types, app, chunks, draw, start, QueueLimits.RING);
    }
  }

  lemma GrantedPositive(app: seq<Byte>, chunks: seq<Chunk>, draw: DrawCall)
    requires Readable(app, chunks) && Granted(app, chunks, draw, QueueLimits.RING)
    ensures Positive(chunks)
  {
  }

  lemma FarInserted()
    ensures EnabledAttribs.Added(EnabledAttribs.Added([], RecOf(Far()[0])), RecOf(Far()[1])) == RecsOf(Far())
  {
    var first, second := RecOf(Far()[0]), RecOf(Far()[1]);
    var one := first.(chunk := 1);
    assert EnabledAttribs.Clear([], first) == 0 && EnabledAttribs.Clear([one], second) == 1;
    assert EnabledAttribs.Added([], first) == [one];
    assert EnabledAttribs.Bumped([one], 1) == [first];
    assert EnabledAttribs.Added([one], second) == [first] + [second] + [];
    assert RecsOf(Far()) == [first, second];
  }

  lemma FarChunks()
    ensures Chunks(Far(), HALF) == [Chunk([Far()[0]], HALF), Chunk([Far()[1]], HALF)]
  {
    hide Chunks;
    var a, b := Far()[0], Far()[1];
    assert [a, b][..1] == [a] && [a, b][1..] == [b] && [b][..1] == [b] && [b][1..] == [];
    assert Far() == [a, b] && RunLength([b]) == 1 && RunLength([a, b]) == 1;
    ChunksNext([b], HALF);
    ChunksNext([a, b], HALF);
    NoList(HALF);
    var all := Chunks([a, b], HALF);
    assert all == [all[0]] + all[1..] && all[1..] == [all[1..][0]] + all[1..][1..];
  }

  lemma NoList(count: nat)
    ensures Chunks([], count) == []
  {
  }

  lemma FarGranted(app: seq<Byte>, x: Chunk, y: Chunk)
    requires |app| >= 2000000 + HALF && |x.run| == |y.run| == 1 && x.size == y.size == HALF
    requires x.run[0].pointer == 1000000 && y.run[0].pointer == 2000000
    ensures Granted(app, [x, y], Arrays(4, 0, HALF), QueueLimits.RING)
    ensures Span(app, [x, y], Arrays(4, 0, HALF)) == QueueLimits.RING + 56
  {
    var draw := Arrays(4, 0, HALF);
    assert [x, y][..0] == [] && [x, y][..1] == [x] && [x][..0] == [] && [x, y][..2] == [x, y];
    assert Attribs([]) == 0 && Attribs([x]) == 1 && Attribs([x, y]) == 2;
    assert Payload(app, []) == [] && |Payload(app, [x])| == HALF && |Payload(app, [x, y])| == 2 * HALF;
    assert Request(app, [x, y], draw, 0) == 112 + 40 + HALF;
    assert Request(app, [x, y], draw, 1) == QueueLimits.RING;
  }
}
