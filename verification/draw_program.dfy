/**
 The draw as a program of the client: in which order the chunks, the pointer commands and the draw
 command are laid out, and when each is committed. The order of stores between two commits does not
 show; the order of the commits does.
 */
module DrawProgram {
  import opened Bytes
  import opened ClientProgram
  import opened CommandQueue
  import opened DrawPacking
  import opened QueueSafety

  function PutAll(at: nat, bytes: seq<Byte>): seq<Action> {
    seq(|bytes|, i requires 0 <= i < |bytes| => Put(at + i, bytes[i]))
  }

  /** Commands of one size, each laid out behind the last and committed. */
  function RunProgram(commands: seq<seq<Byte>>, at: nat): seq<Action> {
    if commands == [] then [] else
      var n := |commands| - 1;
      RunProgram(commands[..n], at) + PutAll(at + POINTER_SIZE * n, commands[n]) + [Commit(false)]
  }

  /** Chunk by chunk: the copy, far ahead, then the pointer commands of its run. */
  function ChunksProgram(types: CommandTypes, app: seq<Byte>, chunks: seq<Chunk>, start: nat, reserve: nat): seq<Action>
    requires Readable(app, chunks)
  {
    if chunks == [] then [] else
      var n := |chunks| - 1;
      ChunksProgram(types, app, chunks[..n], start, reserve)
      + PutAll(reserve + |Payload(app, chunks[..n])|, Copy(app, chunks[n]))
      + RunProgram(RunPointers(types, chunks[n].run, chunks[n].run[0].pointer,
                               start + reserve + |Payload(app, chunks[..n])|), POINTER_SIZE * Attribs(chunks[..n]))
  }

  /** The whole draw, when `head` is at address `start`. */
  function Program(types: CommandTypes, app: seq<Byte>, chunks: seq<Chunk>, draw: DrawCall, start: nat): seq<Action>
    requires Readable(app, chunks)
  {
    var n := POINTER_SIZE * Attribs(chunks);
    var payload := |Payload(app, chunks)|;
    ChunksProgram(types, app, chunks, start, n + draw.Size())
    + PutAll(n, DrawCommand(types, draw, DrawSize(app, chunks, draw), start + n + draw.Size() + payload))
    + PutAll(n + draw.Size() + payload, draw.Indices()) + [Commit(false)]
  }

  /** All that is committed for a draw. */
  function DrawCommands(types: CommandTypes, app: seq<Byte>, chunks: seq<Chunk>, draw: DrawCall, start: nat)
    : seq<seq<Byte>>
    requires Readable(app, chunks)
  {
    var at := start + POINTER_SIZE * Attribs(chunks);
    Pointers(types, app, chunks, at + draw.Size()) + [WholeDraw(types, app, chunks, draw, at)]
  }

  // ----- Stores -----

  /** No store of these actions is to `lo..hi`. */
  ghost predicate Outside(actions: seq<Action>, lo: int, hi: int) {
    forall i {:trigger actions[i]} :: 0 <= i < |actions| && actions[i].Put? ==> !(lo <= actions[i].at < hi)
  }

  lemma {:induction false} OutsideKeeps(a: seq<Action>, x: seq<Action>, at: int, content: seq<Byte>)
    requires Holds(LaidOut(a), at, content) && Outside(x, at, at + |content|)
    ensures Holds(LaidOut(a + x), at, content)
  {
    if x == [] {
      assert a + x == a;
    } else {
      hide LaidOut;
      var n := |x| - 1;
      var before := a + x[..n];
      assert a + x == before + [x[n]];
      OutsideKeeps(a, x[..n], at, content);
      LaidOutMore(before, x[n]);
      forall i {:trigger content[i]} | 0 <= i < |content|
        ensures ByteAt(LaidOut(a + x), at + i) == content[i]
      {
      }
    }
  }

  lemma PutAllNext(at: nat, bytes: seq<Byte>, n: nat)
    requires n < |bytes|
    ensures PutAll(at, bytes[..n + 1]) == PutAll(at, bytes[..n]) + [Put(at + n, bytes[n])]
  {
  }

  lemma {:induction false} PutsHold(a: seq<Action>, at: nat, bytes: seq<Byte>)
    ensures Holds(LaidOut(a + PutAll(at, bytes)), at, bytes)
  {
    hide LaidOut, PutAll, ByteAt;
    if bytes != [] {
      var n := |bytes| - 1;
      PutAllNext(at, bytes, n);
      assert bytes[..n + 1] == bytes;
      PutsHold(a, at, bytes[..n]);
      assert a + PutAll(at, bytes) == a + PutAll(at, bytes[..n]) + [Put(at + n, bytes[n])];
      OnePutHolds(a + PutAll(at, bytes[..n]), at, bytes, n);
    }
  }

  lemma OnePutHolds(a: seq<Action>, at: nat, bytes: seq<Byte>, n: nat)
    requires |bytes| == n + 1 && Holds(LaidOut(a), at, bytes[..n])
    ensures Holds(LaidOut(a + [Put(at + n, bytes[n])]), at, bytes)
  {
    hide LaidOut;
    LaidOutMore(a, Put(at + n, bytes[n]));
    forall i {:trigger bytes[i]} | 0 <= i < |bytes|
      ensures ByteAt(LaidOut(a + [Put(at + n, bytes[n])]), at + i) == bytes[i]
    {
      assert i < n ==> bytes[..n][i] == bytes[i];
    }
  }

  lemma {:induction false} PutsBuild(a: seq<Action>, at: nat, bytes: seq<Byte>, commands: seq<seq<Byte>>)
    requires Builds(a, commands)
    ensures Builds(a + PutAll(at, bytes), commands)
  {
    if bytes == [] {
      assert a + PutAll(at, bytes) == a;
    } else {
      var n := |bytes| - 1;
      PutsBuild(a, at, bytes[..n], commands);
      var all := a + PutAll(at, bytes);
      assert all[..|all| - 1] == a + PutAll(at, bytes[..n]);
    }
  }

  lemma CommitBuilds(a: seq<Action>, commands: seq<seq<Byte>>, command: seq<Byte>)
    requires Builds(a, commands) && IsCommand(command) && Holds(LaidOut(a), TotalSize(commands), command)
    ensures Builds(a + [Commit(false)], commands + [command])
    ensures TotalSize(commands + [command]) == TotalSize(commands) + |command|
  {
    assert (a + [Commit(false)])[..|a|] == a;
    assert (commands + [command])[..|commands|] == commands;
  }

  lemma LayOutAndCommit(a: seq<Action>, commands: seq<seq<Byte>>, command: seq<Byte>)
    requires Builds(a, commands) && IsCommand(command)
    ensures Builds(a + PutAll(TotalSize(commands), command) + [Commit(false)], commands + [command])
    ensures TotalSize(commands + [command]) == TotalSize(commands) + |command|
  {
    hide Builds, IsCommand, LaidOut, Holds, TotalSize, PutAll;
    PutsBuild(a, TotalSize(commands), command, commands);
    PutsHold(a, TotalSize(commands), command);
    CommitBuilds(a + PutAll(TotalSize(commands), command), commands, command);
  }

  // ----- Runs and chunks -----

  lemma {:induction false} RunOutside(commands: seq<seq<Byte>>, at: nat, lo: int, hi: int)
    requires forall i :: 0 <= i < |commands| ==> |commands[i]| == POINTER_SIZE
    requires at + POINTER_SIZE * |commands| <= lo
    ensures Outside(RunProgram(commands, at), lo, hi)
  {
    if commands != [] {
      RunOutside(commands[..|commands| - 1], at, lo, hi);
    }
  }

  lemma {:induction false} RunBuilds(a: seq<Action>, before: seq<seq<Byte>>, commands: seq<seq<Byte>>, at: nat)
    requires Builds(a, before) && TotalSize(before) == at
    requires forall i :: 0 <= i < |commands| ==> |commands[i]| == POINTER_SIZE && IsCommand(commands[i])
    ensures Builds(a + RunProgram(commands, at), before + commands)
    ensures TotalSize(before + commands) == at + POINTER_SIZE * |commands|
  {
    hide Builds, IsCommand, LaidOut, Holds, TotalSize, PutAll;
    if commands == [] {
      assert a + RunProgram(commands, at) == a && before + commands == before;
    } else {
      hide RunProgram;
      var n := |commands| - 1;
      RunBuilds(a, before, commands[..n], at);
      RunProgramNext(commands, at);
      assert a + RunProgram(commands, at)
          == a + RunProgram(commands[..n], at) + PutAll(at + POINTER_SIZE * n, commands[n]) + [Commit(false)];
      assert before + commands == before + commands[..n] + [commands[n]];
      LayOutAndCommit(a + RunProgram(commands[..n], at), before + commands[..n], commands[n]);
    }
  }

  lemma RunProgramNext(commands: seq<seq<Byte>>, at: nat)
    requires commands != []
    ensures var n := |commands| - 1;
      RunProgram(commands, at)
      == RunProgram(commands[..n], at) + PutAll(at + POINTER_SIZE * n, commands[n]) + [Commit(false)]
  {
    hide PutAll;
  }

  lemma HeaderSays(commandType: nat, size: nat)
    requires size < Pow256(8)
    ensures SizeOf(Header(commandType, size)) == size
  {
    hide ToLE, FromLE, Pow256;
    assert Header(commandType, size)[SIZE_AT..SIZE_AT + 8] == ToLE(size, 8);
    LoadAfterStore(size, 8);
  }

  lemma PointerIsCommand(types: CommandTypes, a: Attrib, data: nat)
    ensures IsCommand(PointerCommand(types, a, data))
  {
    hide ToLE, FromLE, Header;
    assert POINTER_SIZE < Pow256(8);
    HeaderSays(types.vertexAttribPointer, POINTER_SIZE);
    var command := PointerCommand(types, a, data);
    assert command[..HEADER] == Header(types.vertexAttribPointer, POINTER_SIZE);
    SameHeader(command, command[..HEADER]);
  }

  lemma DrawIsCommand(types: CommandTypes, app: seq<Byte>, chunks: seq<Chunk>, draw: DrawCall, at: nat)
    requires Readable(app, chunks) && DrawSize(app, chunks, draw) < Pow256(8)
    ensures IsCommand(WholeDraw(types, app, chunks, draw, at))
  {
    hide ToLE, FromLE, Pow256, Header, Payload;
    var whole, size := WholeDraw(types, app, chunks, draw, at), DrawSize(app, chunks, draw);
    var commandType := if draw.Arrays? then types.drawArrays else types.drawElements;
    HeaderSays(commandType, size);
    assert whole[..HEADER] == Header(commandType, size);
    SameHeader(whole, whole[..HEADER]);
  }

  /** The chunks are laid out where the payload will be, and their pointer commands are committed. */
  lemma {:induction false} ChunksBuild(types: CommandTypes, app: seq<Byte>, chunks: seq<Chunk>,
                                      start: nat, reserve: nat)
    requires Readable(app, chunks) && POINTER_SIZE * Attribs(chunks) <= reserve
    ensures var program := ChunksProgram(types, app, chunks, start, reserve);
      var pointers := Pointers(types, app, chunks, start + reserve);
      && Builds(program, pointers) && TotalSize(pointers) == POINTER_SIZE * Attribs(chunks)
      && Holds(LaidOut(program), reserve, Payload(app, chunks))
  {
    hide Builds, IsCommand, LaidOut, TotalSize, PutAll, RunProgram, RunPointers, PointerCommand, Holds, Copy, ByteAt,
         ChunksProgram, Pointers, Payload, Attribs;
    if chunks == [] {
      NoChunks(types, app, start, reserve);
    } else {
      var n := |chunks| - 1;
      LastChunk(types, app, chunks, start, reserve);
      ChunksBuild(types, app, chunks[..n], start, reserve);
      var at := reserve + |Payload(app, chunks[..n])|;
      var run := RunPointers(types, chunks[n].run, chunks[n].run[0].pointer, start + at);
      forall i | 0 <= i < |run| ensures |run[i]| == POINTER_SIZE && IsCommand(run[i]) {
        PointerIsCommand(types, chunks[n].run[i], Translated(chunks[n].run[i], chunks[n].run[0].pointer, start + at));
      }
      OneChunk(ChunksProgram(types, app, chunks[..n], start, reserve),
               Pointers(types, app, chunks[..n], start + reserve),
               reserve, Payload(app, chunks[..n]), Copy(app, chunks[n]), run);
    }
  }

  lemma NoChunks(types: CommandTypes, app: seq<Byte>, start: nat, reserve: nat)
    ensures ChunksProgram(types, app, [], start, reserve) == [] && Pointers(types, app, [], start + reserve) == []
    ensures Builds([], []) && TotalSize([]) == 0 && Attribs([]) == 0
    ensures Payload(app, []) == [] && Holds(LaidOut([]), reserve, [])
  {
  }

  /** The last chunk of a list: what it adds to everything. */
  lemma LastChunk(types: CommandTypes, app: seq<Byte>, chunks: seq<Chunk>, start: nat, reserve: nat)
    requires Readable(app, chunks) && chunks != []
    ensures InMemory(app, chunks[|chunks| - 1])
    ensures var n := |chunks| - 1; var before := chunks[..n]; var at := reserve + |Payload(app, before)|;
      var run := RunPointers(types, chunks[n].run, chunks[n].run[0].pointer, start + at);
      && ChunksProgram(types, app, chunks, start, reserve)
         == ChunksProgram(types, app, before, start, reserve) + PutAll(at, Copy(app, chunks[n]))
            + RunProgram(run, POINTER_SIZE * Attribs(before))
      && Pointers(types, app, chunks, start + reserve) == Pointers(types, app, before, start + reserve) + run
      && Payload(app, chunks) == Payload(app, before) + Copy(app, chunks[n])
      && Attribs(chunks) == Attribs(before) + |run|
  {
    hide PutAll, RunProgram, RunPointers, Copy;
    var n := |chunks| - 1;
    assert InMemory(app, chunks[n]);
    assert start + reserve + |Payload(app, chunks[..n])| == start + (reserve + |Payload(app, chunks[..n])|);
  }

  lemma OneChunk(a: seq<Action>, pointers: seq<seq<Byte>>, reserve: nat, payload: seq<Byte>, copy: seq<Byte>,
                 run: seq<seq<Byte>>)
    requires Builds(a, pointers) && Holds(LaidOut(a), reserve, payload)
    requires TotalSize(pointers) + POINTER_SIZE * |run| <= reserve
    requires forall i :: 0 <= i < |run| ==> |run[i]| == POINTER_SIZE && IsCommand(run[i])
    ensures var done := TotalSize(pointers);
      var a' := a + PutAll(reserve + |payload|, copy) + RunProgram(run, done);
      && Builds(a', pointers + run) && TotalSize(pointers + run) == done + POINTER_SIZE * |run|
      && Holds(LaidOut(a'), reserve, payload + copy)
  {
    hide Builds, IsCommand, LaidOut, TotalSize, PutAll, RunProgram, Holds;
    PutsBuild(a, reserve + |payload|, copy, pointers);
    RunBuilds(a + PutAll(reserve + |payload|, copy), pointers, run, TotalSize(pointers));
    ChunkLaidOut(a, reserve, payload, copy, run, TotalSize(pointers));
  }

  /** One more copy behind the earlier ones, then commands in front of them all. */
  lemma ChunkLaidOut(a: seq<Action>, reserve: nat, payload: seq<Byte>, copy: seq<Byte>, run: seq<seq<Byte>>, done: nat)
    requires Holds(LaidOut(a), reserve, payload) && done + POINTER_SIZE * |run| <= reserve
    requires forall i :: 0 <= i < |run| ==> |run[i]| == POINTER_SIZE
    ensures Holds(LaidOut(a + PutAll(reserve + |payload|, copy) + RunProgram(run, done)), reserve, payload + copy)
  {
    hide LaidOut, RunProgram;
    var at := reserve + |payload|;
    PutsHold(a, at, copy);
    OutsideKeeps(a, PutAll(at, copy), reserve, payload);
    var b := a + PutAll(at, copy);
    forall i {:trigger (payload + copy)[i]} | 0 <= i < |payload + copy|
      ensures ByteAt(LaidOut(b), reserve + i) == (payload + copy)[i]
    {
      if i < |payload| {
        assert payload[i] == (payload + copy)[i];
      } else {
        assert copy[i - |payload|] == (payload + copy)[i] && reserve + i == at + (i - |payload|);
      }
    }
    RunOutside(run, done, reserve, reserve + |payload + copy|);
    OutsideKeeps(b, RunProgram(run, done), reserve, payload + copy);
  }

  /** The program of a draw builds the pointer commands, in order, and then the whole draw command. */
  lemma ProgramBuilds(types: CommandTypes, app: seq<Byte>, chunks: seq<Chunk>, draw: DrawCall, start: nat)
    requires Readable(app, chunks) && DrawSize(app, chunks, draw) < Pow256(8)
    ensures Builds(Program(types, app, chunks, draw, start), DrawCommands(types, app, chunks, draw, start))
  {
    hide Builds, IsCommand, LaidOut, TotalSize, PutAll, ChunksProgram, Pointers, Payload, DrawCommand, Holds, Pow256;
    var n, payload := POINTER_SIZE * Attribs(chunks), Payload(app, chunks);
    var reserve := n + draw.Size();
    var header := DrawCommand(types, draw, DrawSize(app, chunks, draw), start + reserve + |payload|);
    var pointers := Pointers(types, app, chunks, start + reserve);
    var a := ChunksProgram(types, app, chunks, start, reserve);
    ChunksBuild(types, app, chunks, start, reserve);
    DrawIsCommand(types, app, chunks, draw, start + n);
    PutsBuild(a, n, header, pointers);
    PutsBuild(a + PutAll(n, header), reserve + |payload|, draw.Indices(), pointers);
    DrawLaidOut(a, n, header, payload, draw.Indices());
    CommitBuilds(a + PutAll(n, header) + PutAll(reserve + |payload|, draw.Indices()), pointers,
                 WholeDraw(types, app, chunks, draw, start + n));
  }

  lemma DrawLaidOut(a: seq<Action>, n: nat, header: seq<Byte>, payload: seq<Byte>, indices: seq<Byte>)
    requires Holds(LaidOut(a), n + |header|, payload)
    ensures Holds(LaidOut(a + PutAll(n, header) + PutAll(n + |header| + |payload|, indices)), n,
                  header + payload + indices)
  {
    hide LaidOut;
    var reserve := n + |header|;
    var b := a + PutAll(n, header);
    var c := b + PutAll(reserve + |payload|, indices);
    PutsHold(a, n, header);
    OutsideKeeps(a, PutAll(n, header), reserve, payload);
    PutsHold(b, reserve + |payload|, indices);
    OutsideKeeps(b, PutAll(reserve + |payload|, indices), n, header);
    OutsideKeeps(b, PutAll(reserve + |payload|, indices), reserve, payload);
    var all := header + payload + indices;
    forall i {:trigger all[i]} | 0 <= i < |all| ensures ByteAt(LaidOut(c), n + i) == all[i] {
      if i < |header| {
        assert header[i] == all[i];
      } else if i < |header| + |payload| {
        assert payload[i - |header|] == all[i] && n + i == reserve + (i - |header|);
      } else {
        var k := i - |header| - |payload|;
        assert indices[k] == all[i] && n + i == reserve + |payload| + k;
      }
    }
  }

  // ----- Programs under way -----

  function Commits(actions: seq<Action>): nat {
    if actions == [] then 0 else
      Commits(actions[..|actions| - 1]) + if actions[|actions| - 1].Commit? then 1 else 0
  }

  lemma CommitsMore(a: seq<Action>, x: Action)
    ensures Commits(a + [x]) == Commits(a) + if x.Commit? then 1 else 0
  {
    assert (a + [x])[..|a|] == a;
  }

  lemma {:induction false} CommitsPlus(a: seq<Action>, b: seq<Action>)
    ensures Commits(a + b) == Commits(a) + Commits(b)
  {
    if b == [] {
      assert a + b == a;
    } else {
      var n := |b| - 1;
      CommitsPlus(a, b[..n]);
      assert (a + b)[..|a + b| - 1] == a + b[..n];
    }
  }

  /** Part of a program builds the first so many of its commands. */
  lemma {:induction false} PartBuilds(actions: seq<Action>, commands: seq<seq<Byte>>, k: nat)
    requires Builds(actions, commands) && k <= |actions|
    ensures |commands| == Commits(actions) && Commits(actions[..k]) <= |commands|
    ensures Builds(actions[..k], commands[..Commits(actions[..k])])
  {
    hide LaidOut, Holds, IsCommand, TotalSize;
    if k == |actions| {
      assert actions[..k] == actions;
      if actions != [] {
        var n := |actions| - 1;
        if actions[n].Put? {
          PartBuilds(actions[..n], commands, n);
        } else {
          PartBuilds(actions[..n], commands[..|commands| - 1], n);
        }
        assert actions[..n][..n] == actions[..n];
      }
      assert commands[..|commands|] == commands;
    } else {
      var n := |actions| - 1;
      assert actions[..n][..k] == actions[..k];
      if actions[n].Put? {
        PartBuilds(actions[..n], commands, k);
      } else {
        var m := |commands| - 1;
        PartBuilds(actions[..n], commands[..m], k);
        assert commands[..m][..Commits(actions[..k])] == commands[..Commits(actions[..k])];
      }
    }
  }

  lemma {:induction false} PutsCommitNothing(at: nat, bytes: seq<Byte>, k: nat)
    requires k <= |bytes|
    ensures Commits(PutAll(at, bytes)[..k]) == 0
  {
    if k > 0 {
      PutsCommitNothing(at, bytes, k - 1);
      assert PutAll(at, bytes)[..k][..k - 1] == PutAll(at, bytes)[..k - 1];
    }
  }

  lemma {:induction false} RunCommits(commands: seq<seq<Byte>>, at: nat)
    ensures Commits(RunProgram(commands, at)) == |commands|
  {
    if commands != [] {
      hide PutAll;
      var n := |commands| - 1;
      RunCommits(commands[..n], at);
      var a, b := RunProgram(commands[..n], at), PutAll(at + POINTER_SIZE * n, commands[n]);
      PutsCommitNothing(at + POINTER_SIZE * n, commands[n], |commands[n]|);
      WholePuts(at + POINTER_SIZE * n, commands[n]);
      CommitsPlus(a, b);
      CommitsMore(a + b, Commit(false));
    }
  }

  lemma WholePuts(at: nat, bytes: seq<Byte>)
    ensures PutAll(at, bytes)[..|bytes|] == PutAll(at, bytes) && |PutAll(at, bytes)| == |bytes|
  {
  }

  lemma {:induction false} ChunksCommit(types: CommandTypes, app: seq<Byte>, chunks: seq<Chunk>,
                                       start: nat, reserve: nat)
    requires Readable(app, chunks)
    ensures Commits(ChunksProgram(types, app, chunks, start, reserve)) == Attribs(chunks)
  {
    hide PutAll, RunProgram, RunPointers, ChunksProgram, Payload, Copy;
    if chunks == [] {
      NoChunks(types, app, start, reserve);
    } else {
      var n := |chunks| - 1;
      LastChunk(types, app, chunks, start, reserve);
      ChunksCommit(types, app, chunks[..n], start, reserve);
      var at := reserve + |Payload(app, chunks[..n])|;
      var run := RunPointers(types, chunks[n].run, chunks[n].run[0].pointer, start + at);
      var a, b := ChunksProgram(types, app, chunks[..n], start, reserve), PutAll(at, Copy(app, chunks[n]));
      PutsCommitNothing(at, Copy(app, chunks[n]), |Copy(app, chunks[n])|);
      WholePuts(at, Copy(app, chunks[n]));
      RunCommits(run, POINTER_SIZE * Attribs(chunks[..n]));
      CommitsPlus(a, b);
      CommitsPlus(a + b, RunProgram(run, POINTER_SIZE * Attribs(chunks[..n])));
    }
  }

  /** Actions that are outside some region are so in part, too. */
  lemma OutsidePart(actions: seq<Action>, k: nat, lo: int, hi: int)
    requires Outside(actions, lo, hi) && k <= |actions|
    ensures Outside(actions[..k], lo, hi)
  {
  }

  /** A copy, then commands in front of it: as soon as one of them is committed, the copy is complete. */
  lemma CopyBeforeCommands(a: seq<Action>, at: nat, copy: seq<Byte>, run: seq<seq<Byte>>, done: nat, k: nat)
    requires done + POINTER_SIZE * |run| <= at && forall i :: 0 <= i < |run| ==> |run[i]| == POINTER_SIZE
    requires |a| < k <= |a| + |copy| + |RunProgram(run, done)|
    requires Commits((a + PutAll(at, copy) + RunProgram(run, done))[..k]) > Commits(a)
    ensures Holds(LaidOut((a + PutAll(at, copy) + RunProgram(run, done))[..k]), at, copy)
  {
    hide LaidOut, RunProgram, Commits;
    WholePuts(at, copy);
    var b, c := a + PutAll(at, copy), RunProgram(run, done);
    if k < |b| {
      assert (b + c)[..k] == a + PutAll(at, copy)[..k - |a|];
      PutsCommitNothing(at, copy, k - |a|);
      CommitsPlus(a, PutAll(at, copy)[..k - |a|]);
    }
    assert (b + c)[..k] == b + c[..k - |b|];
    PutsHold(a, at, copy);
    RunOutside(run, done, at, at + |copy|);
    OutsidePart(c, k - |b|, at, at + |copy|);
    OutsideKeeps(b, c[..k - |b|], at, copy);
  }

  lemma PastFirst(a: seq<Action>, x: seq<Action>, k: nat)
    requires k <= |a + x| && Commits((a + x)[..k]) > Commits(a)
    ensures k > |a|
  {
    if k <= |a| {
      assert (a + x)[..k] == a[..k] && a == a[..k] + a[k..];
      CommitsPlus(a[..k], a[k..]);
    }
  }

  /** The copies of earlier chunks end before those of later ones begin. */
  lemma {:induction false} CopiesApart(app: seq<Byte>, chunks: seq<Chunk>, m: nat)
    requires Readable(app, chunks) && m < |chunks|
    ensures InMemory(app, chunks[m])
    ensures |Payload(app, chunks[..m])| + |Copy(app, chunks[m])| <= |Payload(app, chunks)|
  {
    var n := |chunks| - 1;
    assert InMemory(app, chunks[m]) && InMemory(app, chunks[n]);
    if m < n {
      assert chunks[..n][..m] == chunks[..m] && chunks[..n][m] == chunks[m];
      CopiesApart(app, chunks[..n], m);
    }
  }

  lemma {:induction false} AttribsBefore(chunks: seq<Chunk>, m: nat, k: nat)
    requires m < |chunks| && k < |chunks[m].run|
    ensures Attribs(chunks[..m]) + k < Attribs(chunks)
  {
    var n := |chunks| - 1;
    if m < n {
      assert chunks[..n][..m] == chunks[..m] && chunks[..n][m] == chunks[m];
      AttribsBefore(chunks[..n], m, k);
    }
  }

  /** At every point of the program: once a pointer command of a chunk is committed, its copy is complete. */
  lemma {:induction false} CopiedFirst(types: CommandTypes, app: seq<Byte>, chunks: seq<Chunk>,
                                      start: nat, reserve: nat,
                                       k: nat, m: nat)
    requires Readable(app, chunks) && m < |chunks| && POINTER_SIZE * Attribs(chunks) <= reserve
    requires k <= |ChunksProgram(types, app, chunks, start, reserve)|
    requires Commits(ChunksProgram(types, app, chunks, start, reserve)[..k]) > Attribs(chunks[..m])
    ensures InMemory(app, chunks[m])
    ensures Holds(LaidOut(ChunksProgram(types, app, chunks, start, reserve)[..k]),
                  reserve + |Payload(app, chunks[..m])|, Copy(app, chunks[m]))
  {
    hide LaidOut, Holds, PutAll, RunProgram, RunPointers;
    hide ChunksProgram, Payload, Copy, Commits, PointerCommand, Attribs;
    assert InMemory(app, chunks[m]);
    var n := |chunks| - 1;
    LastChunk(types, app, chunks, start, reserve);
    ChunksCommit(types, app, chunks[..n], start, reserve);
    var at := reserve + |Payload(app, chunks[..n])|;
    var run := RunPointers(types, chunks[n].run, chunks[n].run[0].pointer, start + at);
    var done := POINTER_SIZE * Attribs(chunks[..n]);
    var a, copy := ChunksProgram(types, app, chunks[..n], start, reserve), Copy(app, chunks[n]);
    var c := RunProgram(run, done);
    WholePuts(at, copy);
    assert a + PutAll(at, copy) + c == a + (PutAll(at, copy) + c);
    if m == n {
      PastFirst(a, PutAll(at, copy) + c, k);
      CopyBeforeCommands(a, at, copy, run, done, k);
    } else {
      assert chunks[..n][..m] == chunks[..m] && chunks[..n][m] == chunks[m];
      if k <= |a| {
        assert (a + (PutAll(at, copy) + c))[..k] == a[..k];
        CopiedFirst(types, app, chunks[..n], start, reserve, k, m);
      } else {
        AttribsBefore(chunks[..n], m, 0);
        assert a[..|a|] == a;
        CopiedFirst(types, app, chunks[..n], start, reserve, |a|, m);
        CopiesApart(app, chunks[..n], m);
        LaterOutside(at, copy, run, done, reserve, reserve + |Payload(app, chunks[..m])|, |Copy(app, chunks[m])|);
        OutsidePart(PutAll(at, copy) + c, k - |a|, reserve + |Payload(app, chunks[..m])|,
                    reserve + |Payload(app, chunks[..m])| + |Copy(app, chunks[m])|);
        OutsideKeeps(a, (PutAll(at, copy) + c)[..k - |a|], reserve + |Payload(app, chunks[..m])|, Copy(app, chunks[m]));
        assert (a + (PutAll(at, copy) + c))[..k] == a + (PutAll(at, copy) + c)[..k - |a|];
      }
    }
  }

  lemma LaterOutside(at: nat, copy: seq<Byte>, run: seq<seq<Byte>>, done: nat, reserve: nat, lo: nat, size: nat)
    requires done + POINTER_SIZE * |run| <= reserve <= lo && lo + size <= at
    requires forall i :: 0 <= i < |run| ==> |run[i]| == POINTER_SIZE
    ensures Outside(PutAll(at, copy) + RunProgram(run, done), lo, lo + size)
  {
    hide RunProgram;
    RunOutside(run, done, lo, lo + size);
  }

  /** The same for the whole program, whose last part stores to the draw command and the indices only. */
  lemma CopiedFirstInDraw(types: CommandTypes, app: seq<Byte>, chunks: seq<Chunk>, draw: DrawCall,
                          start: nat, k: nat, m: nat)
    requires Readable(app, chunks) && m < |chunks| && k <= |Program(types, app, chunks, draw, start)|
    requires Commits(Program(types, app, chunks, draw, start)[..k]) > Attribs(chunks[..m])
    ensures InMemory(app, chunks[m])
    ensures Holds(LaidOut(Program(types, app, chunks, draw, start)[..k]),
                  POINTER_SIZE * Attribs(chunks) + draw.Size() + |Payload(app, chunks[..m])|, Copy(app, chunks[m]))
  {
    hide LaidOut, Holds, PutAll, ChunksProgram, Payload, Copy, Commits, DrawCommand, Attribs;
    assert InMemory(app, chunks[m]);
    var n, payload := POINTER_SIZE * Attribs(chunks), |Payload(app, chunks)|;
    var reserve := n + draw.Size();
    var a := ChunksProgram(types, app, chunks, start, reserve);
    var header := DrawCommand(types, draw, DrawSize(app, chunks, draw), start + n + draw.Size() + payload);
    var tail := PutAll(n, header) + PutAll(reserve + payload, draw.Indices()) + [Commit(false)];
    assert Program(types, app, chunks, draw, start) == a + tail;
    var at := reserve + |Payload(app, chunks[..m])|;
    if k <= |a| {
      assert (a + tail)[..k] == a[..k];
      CopiedFirst(types, app, chunks, start, reserve, k, m);
    } else {
      assert a[..|a|] == a && (a + tail)[..k] == a + tail[..k - |a|];
      ChunksCommit(types, app, chunks, start, reserve);
      AttribsBefore(chunks, m, 0);
      CopiedFirst(types, app, chunks, start, reserve, |a|, m);
      CopiesApart(app, chunks, m);
      TailOutside(n, header, reserve + payload, draw.Indices(), at, |Copy(app, chunks[m])|);
      OutsidePart(tail, k - |a|, at, at + |Copy(app, chunks[m])|);
      OutsideKeeps(a, tail[..k - |a|], at, Copy(app, chunks[m]));
    }
  }

  lemma TailOutside(n: nat, header: seq<Byte>, end: nat, indices: seq<Byte>, at: nat, size: nat)
    requires n + |header| <= at && at + size <= end
    ensures Outside(PutAll(n, header) + PutAll(end, indices) + [Commit(false)], at, at + size)
  {
  }

  /** At the end all of the draw command is laid out. */
  lemma DrawHolds(types: CommandTypes, app: seq<Byte>, chunks: seq<Chunk>, draw: DrawCall, start: nat)
    requires Readable(app, chunks)
    ensures Holds(LaidOut(Program(types, app, chunks, draw, start)), POINTER_SIZE * Attribs(chunks),
                  WholeDraw(types, app, chunks, draw, start + POINTER_SIZE * Attribs(chunks)))
  {
    hide LaidOut, Holds, PutAll, ChunksProgram, Payload, DrawCommand, Builds, TotalSize, Pointers, Attribs;
    var n, payload := POINTER_SIZE * Attribs(chunks), Payload(app, chunks);
    var a := ChunksProgram(types, app, chunks, start, n + draw.Size());
    var header := DrawCommand(types, draw, DrawSize(app, chunks, draw), start + n + draw.Size() + |payload|);
    ChunksBuild(types, app, chunks, start, n + draw.Size());
    DrawLaidOut(a, n, header, payload, draw.Indices());
    LaidOutMore(a + PutAll(n, header) + PutAll(n + |header| + |payload|, draw.Indices()), Commit(false));
  }
}
