/** Draws are performed: from every state with enough of the ring free there is a run that packs the draw. */
module DrawRuns {
  import opened Bytes
  import opened ClientProgram
  import opened CommandQueue
  import opened DrawLifetime
  import opened DrawPacking
  import opened DrawProgram
  import opened ProgramRuns
  import opened QueueSafety

  // ----- The draw's program is feasible -----

  lemma {:induction false} PutsFeasible(a: seq<Action>, at: nat, bytes: seq<Byte>, commands: seq<seq<Byte>>, room: nat)
    requires Feasible(a, commands, room) && TotalSize(commands) <= at && at + |bytes| <= room
    ensures Feasible(a + PutAll(at, bytes), commands, room)
  {
    hide TotalSize, TokenOf;
    if bytes == [] {
      assert a + PutAll(at, bytes) == a;
    } else {
      var n := |bytes| - 1;
      PutsFeasible(a, at, bytes[..n], commands, room);
      var all := a + PutAll(at, bytes);
      assert all[..|all| - 1] == a + PutAll(at, bytes[..n]);
    }
  }

  lemma CommitFeasible(a: seq<Action>, commands: seq<seq<Byte>>, command: seq<Byte>, room: nat)
    requires Feasible(a, commands, room) && TotalSize(commands) + |command| <= room
    requires |command| >= HEADER && TokenOf(command) == 0
    ensures Feasible(a + [Commit(false)], commands + [command], room)
    ensures TotalSize(commands + [command]) == TotalSize(commands) + |command|
  {
    hide TokenOf;
    assert (a + [Commit(false)])[..|a|] == a;
    assert (commands + [command])[..|commands|] == commands;
  }

  /** A command of the kind that is queued for a draw: a header without a token, and more. */
  ghost predicate Untokened(command: seq<Byte>) {
    |command| >= HEADER && TokenOf(command) == 0
  }

  lemma {:induction false} RunFeasible(a: seq<Action>, before: seq<seq<Byte>>, commands: seq<seq<Byte>>, at: nat,
                                       room: nat)
    requires Feasible(a, before, room) && TotalSize(before) == at && at + POINTER_SIZE * |commands| <= room
    requires forall i :: 0 <= i < |commands| ==> |commands[i]| == POINTER_SIZE && Untokened(commands[i])
    ensures Feasible(a + RunProgram(commands, at), before + commands, room)
    ensures TotalSize(before + commands) == at + POINTER_SIZE * |commands|
  {
    hide Feasible, TotalSize, PutAll;
    if commands == [] {
      assert a + RunProgram(commands, at) == a && before + commands == before;
    } else {
      hide RunProgram;
      var n := |commands| - 1;
      RunFeasible(a, before, commands[..n], at, room);
      RunProgramNext(commands, at);
      var b, done := a + RunProgram(commands[..n], at), before + commands[..n];
      assert a + RunProgram(commands, at) == b + PutAll(at + POINTER_SIZE * n, commands[n]) + [Commit(false)];
      assert before + commands == done + [commands[n]];
      PutsFeasible(b, at + POINTER_SIZE * n, commands[n], done, room);
      CommitFeasible(b + PutAll(at + POINTER_SIZE * n, commands[n]), done, commands[n], room);
    }
  }

  lemma HeaderHasNoToken(command: seq<Byte>, commandType: nat, size: nat)
    requires |command| >= HEADER && command[..HEADER] == Header(commandType, size)
    ensures Untokened(command)
  {
    var header := Header(commandType, size);
    SameHeader(command, header);
    assert header[TOKEN_AT..TOKEN_AT + 4] == ToLE(0, 8)[..4];
    NoToken();
  }

  lemma NoToken()
    ensures FromLE(ToLE(0, 8)[..4]) == 0
  {
    assert ToLE(0, 8) == [0, 0, 0, 0, 0, 0, 0, 0];
    assert ToLE(0, 8)[..4] == ToLE(0, 4);
    LoadAfterStore(0, 4);
  }

  lemma PointerHasNoToken(types: CommandTypes, a: Attrib, data: nat)
    ensures Untokened(PointerCommand(types, a, data))
  {
    hide ToLE, Header;
    HeaderHasNoToken(PointerCommand(types, a, data), types.vertexAttribPointer, POINTER_SIZE);
  }

  lemma DrawHasNoToken(types: CommandTypes, app: seq<Byte>, chunks: seq<Chunk>, draw: DrawCall, at: nat)
    requires Readable(app, chunks)
    ensures Untokened(WholeDraw(types, app, chunks, draw, at))
  {
    hide ToLE, Header, Payload;
    HeaderHasNoToken(WholeDraw(types, app, chunks, draw, at),
                     if draw.Arrays? then types.drawArrays else types.drawElements, DrawSize(app, chunks, draw));
  }

  lemma {:induction false} ChunksFeasible(types: CommandTypes, app: seq<Byte>, chunks: seq<Chunk>,
                                          start: nat, reserve: nat, room: nat)
    requires Readable(app, chunks) && POINTER_SIZE * Attribs(chunks) <= reserve
    requires reserve + |Payload(app, chunks)| <= room
    ensures var pointers := Pointers(types, app, chunks, start + reserve);
      && Feasible(ChunksProgram(types, app, chunks, start, reserve), pointers, room)
      && TotalSize(pointers) == POINTER_SIZE * Attribs(chunks)
  {
    hide Feasible, TotalSize, PutAll, RunProgram, RunPointers, PointerCommand, Copy;
    hide ChunksProgram, Pointers, Payload, Attribs, Untokened, Holds, LaidOut, Builds;
    if chunks == [] {
      NoChunks(types, app, start, reserve);
      NothingFeasible(room);
    } else {
      var n := |chunks| - 1;
      LastChunk(types, app, chunks, start, reserve);
      ChunksFeasible(types, app, chunks[..n], start, reserve, room);
      var at := reserve + |Payload(app, chunks[..n])|;
      var run := RunPointers(types, chunks[n].run, chunks[n].run[0].pointer, start + at);
      forall i | 0 <= i < |run| ensures |run[i]| == POINTER_SIZE && Untokened(run[i]) {
        PointerHasNoToken(types, chunks[n].run[i], Translated(chunks[n].run[i], chunks[n].run[0].pointer, start + at));
      }
      var a, before := ChunksProgram(types, app, chunks[..n], start, reserve),
                       Pointers(types, app, chunks[..n], start + reserve);
      PutsFeasible(a, at, Copy(app, chunks[n]), before, room);
      RunFeasible(a + PutAll(at, Copy(app, chunks[n])), before, run, POINTER_SIZE * Attribs(chunks[..n]), room);
    }
  }

  lemma NothingFeasible(room: nat)
    ensures Feasible([], [], room)
  {
  }

  lemma DrawFeasible(types: CommandTypes, app: seq<Byte>, chunks: seq<Chunk>, draw: DrawCall, start: nat)
    requires Readable(app, chunks)
    ensures Feasible(Program(types, app, chunks, draw, start), DrawCommands(types, app, chunks, draw, start),
                     Span(app, chunks, draw))
  {
    hide Feasible, TotalSize, PutAll, ChunksProgram, Pointers, Payload, DrawCommand, Attribs;
    var n, payload, room := POINTER_SIZE * Attribs(chunks), |Payload(app, chunks)|, Span(app, chunks, draw);
    var reserve := n + draw.Size();
    var header := DrawCommand(types, draw, DrawSize(app, chunks, draw), start + reserve + payload);
    var pointers := Pointers(types, app, chunks, start + reserve);
    var a := ChunksProgram(types, app, chunks, start, reserve);
    ChunksFeasible(types, app, chunks, start, reserve, room);
    DrawHasNoToken(types, app, chunks, draw, start + n);
    PutsFeasible(a, n, header, pointers, room);
    PutsFeasible(a + PutAll(n, header), reserve + payload, draw.Indices(), pointers, room);
    CommitFeasible(a + PutAll(n, header) + PutAll(reserve + payload, draw.Indices()), pointers,
                   WholeDraw(types, app, chunks, draw, start + n), room);
  }

  // ----- The run -----

  /**
   Every draw whose span is free in the ring can be packed: whatever run leads to the state, it goes on
   to a state in which the whole program of the draw has been performed and every claim about it holds.
   */
  lemma DrawPerformed(states: seq<State>, steps: seq<Step>, types: CommandTypes, app: seq<Byte>, chunks: seq<Chunk>,
                      draw: DrawCall)
    returns (states': seq<State>, steps': seq<Step>)
    requires Run(states, steps) && states[|steps|].client.Building?
    requires Readable(app, chunks) && DrawSize(app, chunks, draw) < Pow256(8)
    requires states[|steps|].fill + Span(app, chunks, draw) <= states[|steps|].Length()
    ensures states <= states' && steps <= steps'
    ensures Drawing(states', steps', |steps|, |steps'|, |steps'|, types, app, chunks, draw)
    ensures Actions(states', steps', |steps|, |steps'|) == Program(types, app, chunks, draw, states[|steps|].head)
    ensures states'[|steps'|].client.Building?
  {
    hide Program, DrawCommands, Feasible, Builds, Pow256;
    var t0, start := |steps|, states[|steps|].head;
    states', steps' := RoomGiven(states, steps, Span(app, chunks, draw));
    ProgramBuilds(types, app, chunks, draw, start);
    DrawFeasible(types, app, chunks, draw, start);
    states', steps' := ProgramPerformed(states', steps', t0, Program(types, app, chunks, draw, start),
                                        DrawCommands(types, app, chunks, draw, start), Span(app, chunks, draw));
    RunKeeps(states, steps, t0);
    assert states'[t0] == states[t0];
  }
}
