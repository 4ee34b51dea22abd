/** What the handlers are given to read: the fields of the commands of a draw, at their offsets. */
module DrawFields {
  import opened Bytes
  import opened ClientProgram
  import opened CommandQueue
  import opened DrawLifetime
  import opened DrawPacking
  import opened DrawProgram
  import opened QueueSafety

  /** The number in `n` bytes of a command. */
  function Field(command: seq<Byte>, at: nat, n: nat): nat
    requires at + n <= |command|
  {
    FromLE(command[at..at + n])
  }

  predicate In32(x: nat) {
    x < 0x1_0000_0000
  }

  /** What GL's types hold: the numbers of a draw and of an attribute are 32 bits wide. */
  predicate DrawIn32(types: CommandTypes, draw: DrawCall) {
    In32(types.vertexAttribPointer) && In32(types.drawArrays) && In32(types.drawElements) && In32(draw.mode)
    && In32(draw.count) && match draw
                           case Arrays(_, first, _) => In32(first)
                           case Elements(_, _, indexType, _) => In32(indexType)
  }

  predicate AttribIn32(a: Attrib) {
    In32(a.index) && In32(a.size) && In32(a.dataType) && In32(a.stride)
  }

  lemma Stored32(n: nat)
    requires In32(n)
    ensures FromLE(ToLE(n, 4)) == n && FromLE(ToLE(n, 8)[..4]) == n
  {
    assert Pow256(4) == 0x1_0000_0000;
    LoadAfterStore(n, 4);
    LowHalf(n, 4, 4);
  }

  lemma {:induction false} LowHalf(n: nat, k: nat, more: nat)
    ensures ToLE(n, k + more)[..k] == ToLE(n, k)
    decreases k
  {
    if k > 0 {
      LowHalf(n / 256, k - 1, more);
      assert ToLE(n, k + more) == [n % 256] + ToLE(n / 256, k - 1 + more);
      assert ToLE(n, k + more)[..k] == [n % 256] + ToLE(n / 256, k - 1 + more)[..k - 1];
    }
  }

  lemma HeaderFields(command: seq<Byte>, commandType: nat, size: nat)
    requires |command| >= HEADER && command[..HEADER] == Header(commandType, size)
    requires In32(commandType) && size < Pow256(8)
    ensures Field(command, 0, 4) == commandType && Field(command, 8, 8) == size && Field(command, 16, 4) == 0
  {
    hide ToLE, FromLE, Pow256, Header;
    var header := Header(commandType, size);
    HeaderParts(commandType, size);
    SliceOfTake(command, HEADER, 0, 4);
    SliceOfTake(command, HEADER, 8, 16);
    SliceOfTake(command, HEADER, 16, 20);
    Stored32(commandType);
    Stored32(0);
    LoadAfterStore(size, 8);
  }

  lemma HeaderParts(commandType: nat, size: nat)
    ensures var header := Header(commandType, size);
      header[0..4] == ToLE(commandType, 4) && header[8..16] == ToLE(size, 8) && header[16..20] == ToLE(0, 8)[..4]
  {
    hide ToLE;
  }

  /** The draw command says what the call said. */
  predicate SaysDraw(command: seq<Byte>, types: CommandTypes, draw: DrawCall) {
    match draw
    case Arrays(mode, first, count) =>
      && |command| >= 40 && Field(command, 0, 4) == types.drawArrays
      && Field(command, 8, 8) == |command| && Field(command, 16, 4) == 0
      && Field(command, 24, 4) == mode && Field(command, 28, 4) == first && Field(command, 32, 4) == count
    case Elements(mode, count, indexType, _) =>
      && |command| >= 48 && Field(command, 0, 4) == types.drawElements
      && Field(command, 8, 8) == |command| && Field(command, 16, 4) == 0
      && Field(command, 24, 4) == mode && Field(command, 28, 4) == count && Field(command, 32, 4) == indexType
  }

  lemma DrawSays(types: CommandTypes, app: seq<Byte>, chunks: seq<Chunk>, draw: DrawCall, at: nat)
    requires Readable(app, chunks) && DrawIn32(types, draw) && DrawSize(app, chunks, draw) < Pow256(8)
    ensures SaysDraw(WholeDraw(types, app, chunks, draw, at), types, draw)
  {
    hide ToLE, FromLE, Pow256, Header, Payload;
    var command, size := WholeDraw(types, app, chunks, draw, at), DrawSize(app, chunks, draw);
    HeaderFields(command, if draw.Arrays? then types.drawArrays else types.drawElements, size);
    Stored32(draw.mode);
    Stored32(draw.count);
    match draw
    case Arrays(_, first, _) =>
      Stored32(first);
      assert command[24..28] == ToLE(draw.mode, 4) && command[28..32] == ToLE(first, 4);
      assert command[32..36] == ToLE(draw.count, 4);
    case Elements(_, _, indexType, _) =>
      Stored32(indexType);
      assert command[24..28] == ToLE(draw.mode, 4) && command[28..32] == ToLE(draw.count, 4);
      assert command[32..36] == ToLE(indexType, 8)[..4];
  }

  /** The pointer command says what the attribute is. */
  predicate SaysAttrib(command: seq<Byte>, types: CommandTypes, a: Attrib) {
    && |command| == 56 && Field(command, 0, 4) == types.vertexAttribPointer
    && Field(command, 8, 8) == 56 && Field(command, 16, 4) == 0
    && Field(command, 24, 4) == a.index && Field(command, 28, 4) == a.size && Field(command, 32, 4) == a.dataType
    && Field(command, 36, 1) == (if a.normalized then 1 else 0) && Field(command, 40, 4) == a.stride
  }

  lemma AttribParts(types: CommandTypes, a: Attrib, data: nat)
    ensures var command := PointerCommand(types, a, data);
      && command[..HEADER] == Header(types.vertexAttribPointer, POINTER_SIZE)
      && command[24..28] == ToLE(a.index, 4) && command[28..32] == ToLE(a.size, 4)
      && command[32..36] == ToLE(a.dataType, 4)
      && command[36..37] == ToLE(if a.normalized then 1 else 0, 4)[..1] && command[40..44] == ToLE(a.stride, 8)[..4]
  {
    hide ToLE, Header;
  }

  lemma OneByte(flag: bool)
    ensures FromLE(ToLE(if flag then 1 else 0, 4)[..1]) == if flag then 1 else 0
  {
    var n := if flag then 1 else 0;
    assert ToLE(n, 4)[..1] == [n];
    assert FromLE([n][1..]) == 0;
  }

  lemma AttribSays(types: CommandTypes, a: Attrib, data: nat)
    requires AttribIn32(a) && In32(types.vertexAttribPointer)
    ensures SaysAttrib(PointerCommand(types, a, data), types, a)
  {
    assert POINTER_SIZE < Pow256(8);
    hide ToLE, FromLE, Pow256, Header, PointerCommand;
    AttribParts(types, a, data);
    HeaderFields(PointerCommand(types, a, data), types.vertexAttribPointer, POINTER_SIZE);
    Stored32(a.index);
    Stored32(a.size);
    Stored32(a.dataType);
    OneByte(a.normalized);
    Stored32(a.stride);
  }

  /**
   In every run in which a draw is packed: when the server takes the draw command, the handler finds in
   its bytes the mode, the range or the count and index type of the call, and its own size and no token.
   */
  lemma HandledDraw(states: seq<State>, steps: seq<Step>, t0: nat, t1: nat, u: nat, types: CommandTypes,
                    app: seq<Byte>, chunks: seq<Chunk>, draw: DrawCall)
    requires Drawing(states, steps, t0, t1, u, types, app, chunks, draw) && DrawIn32(types, draw)
    requires |states[t0].hist.log.committed| + Attribs(chunks) < |states[u].hist.handled|
    ensures SaysDraw(states[u].hist.handled[|states[t0].hist.log.committed| + Attribs(chunks)], types, draw)
  {
    hide Attribs, Pointers, WholeDraw, SaysDraw, Program, SlotLeftAlone, Actions, Pow256, DrawIn32;
    var at := states[t0].head + POINTER_SIZE * Attribs(chunks);
    HandledAsQueued(states, steps, u, |states[t0].hist.log.committed| + Attribs(chunks));
    PointersCount(types, app, chunks, at + draw.Size());
    QueuedInOrder(states, steps, t0, t1, u, types, app, chunks, draw, Attribs(chunks));
    DrawSays(types, app, chunks, draw, at);
  }

  lemma CommandSaysAttrib(types: CommandTypes, app: seq<Byte>, chunks: seq<Chunk>, draw: DrawCall, start: nat,
                          m: nat, k: nat)
    requires Readable(app, chunks) && In32(types.vertexAttribPointer)
    requires m < |chunks| && k < |chunks[m].run| && AttribIn32(chunks[m].run[k])
    ensures Attribs(chunks[..m]) + k < |DrawCommands(types, app, chunks, draw, start)|
    ensures SaysAttrib(DrawCommands(types, app, chunks, draw, start)[Attribs(chunks[..m]) + k], types, chunks[m].run[k])
  {
    hide Attribs, Pointers, WholeDraw, SaysAttrib, Translated, PointerCommand, AttribIn32, Payload;
    var at := start + POINTER_SIZE * Attribs(chunks) + draw.Size();
    PointerAt(types, app, chunks, at, m, k);
    AttribSays(types, chunks[m].run[k],
               Translated(chunks[m].run[k], chunks[m].run[0].pointer, at + |Payload(app, chunks[..m])|));
  }

  /** And before it, for every attribute in the order of the list, that attribute's own fields. */
  lemma HandledAttrib(states: seq<State>, steps: seq<Step>, t0: nat, t1: nat, u: nat, types: CommandTypes,
                      app: seq<Byte>, chunks: seq<Chunk>, draw: DrawCall, m: nat, k: nat)
    requires Drawing(states, steps, t0, t1, u, types, app, chunks, draw) && In32(types.vertexAttribPointer)
    requires m < |chunks| && k < |chunks[m].run| && AttribIn32(chunks[m].run[k])
    requires |states[t0].hist.log.committed| + Attribs(chunks[..m]) + k < |states[u].hist.handled|
    ensures SaysAttrib(states[u].hist.handled[|states[t0].hist.log.committed| + Attribs(chunks[..m]) + k],
                       types, chunks[m].run[k])
  {
    hide Attribs, DrawCommands, SaysAttrib, Program, SlotLeftAlone, Actions, Pow256, AttribIn32;
    CommandSaysAttrib(types, app, chunks, draw, states[t0].head, m, k);
    HandledAsQueued(states, steps, u, |states[t0].hist.log.committed| + Attribs(chunks[..m]) + k);
    QueuedInOrder(states, steps, t0, t1, u, types, app, chunks, draw, Attribs(chunks[..m]) + k);
  }
}
