/** Ring safety and FIFO order of the command queue, under every interleaving of its two threads. */
module QueueSafety {
  import opened Bytes
  import opened CommandQueue

  /** The handler call is under way: its command's payload may be rewritten in place. */
  ghost predicate InBody(s: State) {
    s.server.InHandler? || s.server.MoveTail?
  }

  /** Bytes that `head` has passed but `fill` does not count yet. */
  ghost function Uncounted(s: State): nat {
    if s.client.AddFill? then s.client.size else 0
  }

  /** Bytes that `tail` has passed but `fill` still counts. */
  ghost function Undiscounted(s: State): nat {
    if s.server.SubFill? then s.server.size else 0
  }

  /** The committed stream is cut into the committed commands, each as long as its header says. */
  ghost predicate Framed(log: Log) {
    && |log.bounds| == |log.committed| + 1
    && log.bounds[0] == 0
    && log.bounds[|log.committed|] == |log.stream|
    && (forall j :: 0 <= j < |log.committed| ==> FramedAt(log, j))
  }

  ghost predicate FramedAt(log: Log, j: nat)
    requires |log.bounds| == |log.committed| + 1 && j < |log.committed|
  {
    && log.bounds[j] + HEADER <= log.bounds[j + 1] <= |log.stream|
    && log.committed[j] == log.stream[log.bounds[j]..log.bounds[j + 1]]
    && SizeOf(log.committed[j]) == |log.committed[j]|
  }

  /** The token command `j` was committed with. */
  ghost function TokenIn(log: Log, j: nat): nat
    requires Framed(log) && j < |log.committed|
  {
    assert FramedAt(log, j);
    TokenOf(log.committed[j])
  }

  /** Both cursors and the shared counter describe one window [released, released + Length). */
  ghost predicate Positions(s: State) {
    var h := s.hist;
    && s.Length() >= HEADER
    && s.head == Cell(s.Length(), h.headPos)
    && s.tail == Cell(s.Length(), h.tailPos)
    && h.headPos == |h.log.stream| + Uncounted(s)
    && h.tailPos == h.released + Undiscounted(s)
    && s.fill == |h.log.stream| - h.released
    && h.released <= h.tailPos <= |h.log.stream|
    && 0 <= s.reserved
    && h.headPos + s.reserved <= h.released + s.Length()
    && h.passed <= |h.log.committed| < |h.log.bounds|
    && h.tailPos == h.log.bounds[h.passed]
  }

  /** Positions whose byte in the ring must still be the committed one. */
  ghost predicate Kept(s: State, p: nat)
    requires Framed(s.hist.log)
  {
    && s.hist.tailPos <= p < |s.hist.log.stream|
    && !(InBody(s) && s.hist.passed < |s.hist.log.committed|
         && s.hist.tailPos + HEADER <= p < s.hist.log.bounds[s.hist.passed + 1])
  }

  ghost predicate Stored(s: State)
    requires s.Length() > 0 && Framed(s.hist.log)
  {
    forall p: nat {:trigger s.hist.log.stream[p]} :: Kept(s, p) ==>
      s.mem[Cell(s.Length(), p)] == s.hist.log.stream[p]
  }

  ghost predicate ServerPlace(s: State)
    requires s.Length() > 0 && Framed(s.hist.log)
  {
    var h := s.hist;
    && |h.handled| == h.passed + (if InBody(s) then 1 else 0)
    && |h.handled| <= |h.log.committed|
    && h.handled == h.log.committed[..|h.handled|]
    && |h.replies| == h.passed + (if s.server.MoveTail? then 1 else 0)
    && match s.server
       case StartHandler(at) => h.passed < |h.log.committed| && at == s.tail
       case InHandler(at) => h.passed < |h.log.committed| && at == s.tail
       case MoveTail(at, size) =>
         h.passed < |h.log.committed| && at == s.tail && size == |h.log.committed[h.passed]|
       case SubFill(at, size) =>
         0 < h.passed && size == |h.log.committed[h.passed - 1]|
         && at == Cell(s.Length(), h.log.bounds[h.passed - 1])
       case ReadToken(at) => 0 < h.passed && at == Cell(s.Length(), h.log.bounds[h.passed - 1])
       case SetToken(at) => 0 < h.passed && at == Cell(s.Length(), h.log.bounds[h.passed - 1])
       case _ => true
  }

  ghost predicate ClientPlace(s: State)
    requires s.Length() > 0 && Framed(s.hist.log)
  {
    var h := s.hist;
    match s.client
    case MoveHead(cmd, size, token) =>
      && cmd == s.head && HEADER <= size <= s.reserved
      && SizeAt(s.mem, cmd) == size && TokenAt(s.mem, cmd) == token
    case AddFill(cmd, size, token) =>
      && cmd == Cell(s.Length(), |h.log.stream|) && HEADER <= size
      && SizeAt(s.mem, cmd) == size && TokenAt(s.mem, cmd) == token
    case Compare(cmd, token) =>
      && h.log.committed != [] && cmd == Cell(s.Length(), h.log.bounds[|h.log.committed| - 1])
      && SizeAt(s.mem, cmd) == |h.log.committed[|h.log.committed| - 1]|
      && TokenIn(h.log, |h.log.committed| - 1) == token
    case PostServer(token) =>
      h.log.committed != [] && TokenIn(h.log, |h.log.committed| - 1) == token
    case CheckToken(token) =>
      h.log.committed != [] && TokenIn(h.log, |h.log.committed| - 1) == token
    case AwaitToken(token) =>
      h.log.committed != [] && TokenIn(h.log, |h.log.committed| - 1) == token
    case _ => true
  }

  /** The inductive invariant of the queue. */
  ghost predicate Inv(s: State) {
    Positions(s) && Framed(s.hist.log) && Stored(s) && ServerPlace(s) && ClientPlace(s)
  }

  // ----- The memory -----

  lemma SliceOfTake<T>(a: seq<T>, n: nat, i: nat, j: nat)
    requires i <= j <= n <= |a|
    ensures a[..n][i..j] == a[i..j]
  {
  }

  /** Size and token depend on the header only. */
  lemma SameHeader(a: seq<Byte>, b: seq<Byte>)
    requires |a| >= HEADER && |b| >= HEADER && a[..HEADER] == b[..HEADER]
    ensures SizeOf(a) == SizeOf(b) && TokenOf(a) == TokenOf(b)
  {
    SliceOfTake(a, HEADER, SIZE_AT, SIZE_AT + 8);
    SliceOfTake(b, HEADER, SIZE_AT, SIZE_AT + 8);
    SliceOfTake(a, HEADER, TOKEN_AT, TOKEN_AT + 4);
    SliceOfTake(b, HEADER, TOKEN_AT, TOKEN_AT + 4);
  }

  /** Kept bytes read through the mirror are the committed ones. */
  lemma ReadsStream(s: State, from: nat, n: nat)
    requires s.Length() > 0 && Framed(s.hist.log) && Stored(s)
    requires from + n <= |s.hist.log.stream|
    requires forall p | from <= p < from + n :: Kept(s, p)
    ensures Window(s.mem, Cell(s.Length(), from), n) == s.hist.log.stream[from..from + n]
  {
    WindowOfCell(s.mem, from, n);
    var w := Window(s.mem, from, n);
    forall i | 0 <= i < n ensures w[i] == s.hist.log.stream[from..from + n][i] {
      assert Kept(s, from + i);
      assert s.hist.log.stream[from + i] == s.hist.log.stream[from..from + n][i];
    }
  }

  /** The header of a waiting command, or of the one in hand, reads as committed. */
  lemma HeaderOf(s: State, j: nat)
    requires Positions(s) && Framed(s.hist.log) && Stored(s)
    requires s.hist.passed <= j < |s.hist.log.committed|
    ensures SizeAt(s.mem, Cell(s.Length(), s.hist.log.bounds[j])) == |s.hist.log.committed[j]|
    ensures TokenAt(s.mem, Cell(s.Length(), s.hist.log.bounds[j])) == TokenIn(s.hist.log, j)
  {
    var h := s.hist;
    var command := h.log.committed[j];
    assert FramedAt(h.log, j);
    BoundsOrdered(h.log, h.passed, j);
    if j > h.passed { BoundsOrdered(h.log, h.passed + 1, j); }
    ReadsStream(s, h.log.bounds[j], HEADER);
    assert command[..HEADER] == h.log.stream[h.log.bounds[j]..h.log.bounds[j] + HEADER];
    SameHeader(Window(s.mem, Cell(s.Length(), h.log.bounds[j]), HEADER), command);
  }

  /** Command boundaries grow. */
  lemma {:induction false} BoundsOrdered(log: Log, i: nat, j: nat)
    requires Framed(log) && i <= j <= |log.committed|
    ensures log.bounds[i] <= log.bounds[j] <= |log.stream|
    decreases j - i
  {
    if i < j {
      assert FramedAt(log, i);
      BoundsOrdered(log, i + 1, j);
    } else if i < |log.committed| {
      assert FramedAt(log, i);
    }
  }

  /** While no handler runs, a waiting command reads through the mirror exactly as committed. */
  lemma WholeCommand(s: State, j: nat)
    requires Positions(s) && Framed(s.hist.log) && Stored(s) && !InBody(s)
    requires s.hist.passed <= j < |s.hist.log.committed|
    ensures Window(s.mem, Cell(s.Length(), s.hist.log.bounds[j]), |s.hist.log.committed[j]|) == s.hist.log.committed[j]
  {
    var h := s.hist;
    var command := h.log.committed[j];
    assert FramedAt(h.log, j);
    BoundsOrdered(h.log, h.passed, j);
    ReadsStream(s, h.log.bounds[j], |command|);
  }

  /** A store to one position leaves the cells of nearby positions alone. */
  lemma StoreElsewhere(mem: seq<Byte>, at: nat, value: Byte, p: nat)
    requires |mem| > 0
    requires at != p && at < p + |mem| && p < at + |mem|
    ensures mem[Cell(|mem|, at) := value][Cell(|mem|, p)] == mem[Cell(|mem|, p)]
  {
    if at < p {
      CellsDiffer(|mem|, at, p);
    } else {
      CellsDiffer(|mem|, p, at);
    }
  }

  /** A store to a position outside [from, from + n) does not show in that window. */
  lemma StoreOutsideWindow(mem: seq<Byte>, at: nat, value: Byte, from: nat, n: nat)
    requires |mem| > 0
    requires from + n <= at < from + |mem| || (at < from && from + n <= at + |mem|)
    ensures Window(mem[Cell(|mem|, at) := value], Cell(|mem|, from), n) == Window(mem, Cell(|mem|, from), n)
  {
    var mem' := mem[Cell(|mem|, at) := value];
    WindowOfCell(mem, from, n);
    WindowOfCell(mem', from, n);
    forall i | 0 <= i < n ensures Window(mem', from, n)[i] == Window(mem, from, n)[i] {
      StoreElsewhere(mem, at, value, from + i);
    }
  }

  // ----- The client's steps -----

  lemma WriteByteKeeps(s: State, step: Step)
    requires Inv(s) && step.WriteByte? && Enabled(s, step)
    ensures Inv(After(s, step))
  {
    var s' := After(s, step);
    var at := s.hist.headPos + step.offset;
    CellOfCell(s.Length(), s.hist.headPos, step.offset);
    forall p: nat | Kept(s', p)
      ensures s'.mem[Cell(s'.Length(), p)] == s'.hist.log.stream[p]
    {
      assert Kept(s, p);
      StoreElsewhere(s.mem, at, step.value, p);
    }
  }

  lemma AppendKeepsFraming(log: Log, command: seq<Byte>)
    requires Framed(log) && |command| >= HEADER && SizeOf(command) == |command|
    ensures Framed(Append(log, command))
  {
    var log' := Append(log, command);
    forall j | 0 <= j < |log'.committed|
      ensures FramedAt(log', j)
    {
      if j < |log.committed| {
        assert FramedAt(log, j);
      }
    }
  }

  lemma PublishKeepsBytes(s: State, step: Step)
    requires Inv(s) && step.Publish? && Enabled(s, step)
    requires Framed(After(s, step).hist.log)
    ensures Stored(After(s, step))
  {
    var s' := After(s, step);
    var h, h' := s.hist, s'.hist;
    WindowOfCell(s.mem, |h.log.stream|, s.client.size);
    var command := Window(s.mem, s.client.cmd, s.client.size);
    assert h'.log.stream == h.log.stream + command;
    forall p: nat {:trigger h'.log.stream[p]} | Kept(s', p)
      ensures s'.mem[Cell(s'.Length(), p)] == h'.log.stream[p]
    {
      if p < |h.log.stream| {
        assert Kept(s, p);
        assert h'.log.stream[p] == h.log.stream[p];
      } else {
        assert h'.log.stream[p] == command[p - |h.log.stream|];
        assert command[p - |h.log.stream|] == s.mem[Cell(s.Length(), |h.log.stream| + (p - |h.log.stream|))];
      }
    }
  }

  lemma PublishKeeps(s: State, step: Step)
    requires Inv(s) && step.Publish? && Enabled(s, step)
    ensures Inv(After(s, step))
  {
    var s' := After(s, step);
    SameHeader(Window(s.mem, s.client.cmd, s.client.size), Window(s.mem, s.client.cmd, HEADER));
    AppendKeepsFraming(s.hist.log, Window(s.mem, s.client.cmd, s.client.size));
    PublishKeepsBytes(s, step);
    assert ServerPlace(s') by {
      assert s'.hist.log.committed[..|s.hist.handled|] == s.hist.log.committed[..|s.hist.handled|];
    }
    assert ClientPlace(s');
  }

  /** A step of the client that touches neither memory nor commands. */
  lemma ClientMoves(s: State, s': State)
    requires Inv(s)
    requires s'.mem == s.mem && s'.server == s.server && s'.tail == s.tail
    requires s'.hist == s.hist.(headPos := s'.hist.headPos)
    requires Positions(s') && ClientPlace(s')
    ensures Inv(s')
  {
    forall p: nat {:trigger s'.hist.log.stream[p]} | Kept(s', p)
      ensures s'.mem[Cell(s'.Length(), p)] == s'.hist.log.stream[p]
    {
      assert Kept(s, p);
      assert s.hist.log.stream[p] == s'.hist.log.stream[p];
    }
  }

  lemma OtherClientStepKeeps(s: State, step: Step)
    requires Inv(s) && Enabled(s, step)
    requires step.AskSpace? || step.PollSpace? || step.BeginAsync? || step.BeginSync? || step.UpdateHead?
             || step.CompareFill? || step.WakeServer? || step.TestToken? || step.TakeClientSignal?
    ensures Inv(After(s, step))
  {
    var s' := After(s, step);
    if step.UpdateHead? {
      CellOfCell(s.Length(), s.hist.headPos, s.client.size);
    }
    ClientMoves(s, s');
  }

  // ----- The server's steps -----

  /** A step of the server that leaves memory and commands alone. */
  lemma ServerMoves(s: State, s': State)
    requires Inv(s)
    requires s'.mem == s.mem && s'.client == s.client && s'.head == s.head
    requires s'.hist == s.hist.(tailPos := s'.hist.tailPos, released := s'.hist.released,
                                passed := s'.hist.passed, handled := s'.hist.handled,
                                replies := s'.hist.replies)
    requires s'.reserved == s.reserved
    requires s.hist.tailPos <= s'.hist.tailPos
    requires s.hist.passed == s'.hist.passed ==> InBody(s) ==> InBody(s')
    requires s'.hist.passed == s.hist.passed
             || (s'.hist.passed == s.hist.passed + 1 && s.hist.passed < |s.hist.log.committed|
                 && s'.hist.tailPos == s.hist.log.bounds[s.hist.passed + 1])
    requires Positions(s') && s'.hist.passed <= |s'.hist.log.committed|
    requires s'.hist.tailPos == s'.hist.log.bounds[s'.hist.passed]
    ensures Framed(s'.hist.log) && Stored(s') && ClientPlace(s')
  {
    forall p: nat {:trigger s'.hist.log.stream[p]} | Kept(s', p)
      ensures s'.mem[Cell(s'.Length(), p)] == s'.hist.log.stream[p]
    {
      assert Kept(s, p);
      assert s.hist.log.stream[p] == s'.hist.log.stream[p];
    }
  }

  lemma PollFillKeeps(s: State, step: Step)
    requires Inv(s) && step.PollFill? && Enabled(s, step)
    ensures Inv(After(s, step))
  {
    ServerMoves(s, After(s, step));
  }

  lemma BeginHandlerKeeps(s: State, step: Step)
    requires Inv(s) && step.BeginHandler? && Enabled(s, step)
    ensures Inv(After(s, step))
    ensures After(s, step).hist.handled == s.hist.handled + [s.hist.log.committed[|s.hist.handled|]]
  {
    var s' := After(s, step);
    var h := s.hist;
    HeaderOf(s, h.passed);
    WholeCommand(s, h.passed);
    ServerMoves(s, s');
    assert s'.hist.handled == h.log.committed[..h.passed] + [h.log.committed[h.passed]];
  }

  /** A handler's store does not reach the header the client is about to look at. */
  lemma RewriteSparesClient(s: State, step: Step, at: nat)
    requires Inv(s) && step.RewriteByte? && Enabled(s, step)
    requires at == s.hist.tailPos + step.offset < s.hist.log.bounds[s.hist.passed + 1]
    requires s.hist.log.bounds[s.hist.passed + 1] <= |s.hist.log.stream|
    requires After(s, step).mem == s.mem[Cell(s.Length(), at) := step.value]
    requires var s' := After(s, step); Positions(s') && Stored(s')
    ensures ClientPlace(After(s, step))
  {
    var h := s.hist;
    match s.client
    case MoveHead(_, _, _) =>
      StoreOutsideWindow(s.mem, at, step.value, h.headPos, HEADER);
    case AddFill(_, _, _) =>
      StoreOutsideWindow(s.mem, at, step.value, |h.log.stream|, HEADER);
    case Compare(_, _) =>
      HeaderOf(After(s, step), |h.log.committed| - 1);
    case _ =>
  }

  lemma RewriteByteKeeps(s: State, step: Step)
    requires Inv(s) && step.RewriteByte? && Enabled(s, step)
    ensures Inv(After(s, step))
  {
    hide Window, SizeOf, TokenOf, TokenIn, Cell, ClientPlace;
    var s' := After(s, step);
    var h := s.hist;
    var at := h.tailPos + step.offset;
    CellOfCell(s.Length(), h.tailPos, step.offset);
    HeaderOf(s, h.passed);
    assert FramedAt(h.log, h.passed);
    assert at < h.log.bounds[h.passed + 1];
    forall p: nat | Kept(s', p)
      ensures s'.mem[Cell(s'.Length(), p)] == s'.hist.log.stream[p]
    {
      assert Kept(s, p);
      StoreElsewhere(s.mem, at, step.value, p);
    }
    assert Positions(s') && ServerPlace(s');
    RewriteSparesClient(s, step, at);
  }

  lemma EndHandlerKeeps(s: State, step: Step)
    requires Inv(s) && step.EndHandler? && Enabled(s, step)
    ensures Inv(After(s, step))
  {
    HeaderOf(s, s.hist.passed);
    ServerMoves(s, After(s, step));
  }

  lemma UpdateTailKeeps(s: State, step: Step)
    requires Inv(s) && step.UpdateTail? && Enabled(s, step)
    ensures Inv(After(s, step))
  {
    var h := s.hist;
    assert FramedAt(h.log, h.passed);
    CellOfCell(s.Length(), h.tailPos, s.server.size);
    ServerMoves(s, After(s, step));
  }

  lemma OtherServerStepKeeps(s: State, step: Step)
    requires Inv(s) && Enabled(s, step)
    requires step.TakeServerSignal? || step.Release? || step.TestReadToken? || step.StoreToken?
             || step.WakeClient?
    ensures Inv(After(s, step))
  {
    ServerMoves(s, After(s, step));
  }

  // ----- Whole runs -----

  lemma InitHolds(s: State)
    requires Init(s)
    ensures Inv(s)
  {
    assert Cell(s.Length(), 0) == 0;
  }

  lemma StepKeeps(s: State, step: Step)
    requires Inv(s) && Enabled(s, step)
    ensures Inv(After(s, step))
  {
    match step
    case WriteByte(_, _) => WriteByteKeeps(s, step);
    case Publish => PublishKeeps(s, step);
    case PollFill => PollFillKeeps(s, step);
    case BeginHandler => BeginHandlerKeeps(s, step);
    case RewriteByte(_, _) => RewriteByteKeeps(s, step);
    case EndHandler => EndHandlerKeeps(s, step);
    case UpdateTail => UpdateTailKeeps(s, step);
    case TakeServerSignal => OtherServerStepKeeps(s, step);
    case Release => OtherServerStepKeeps(s, step);
    case TestReadToken => OtherServerStepKeeps(s, step);
    case StoreToken => OtherServerStepKeeps(s, step);
    case WakeClient => OtherServerStepKeeps(s, step);
    case _ => OtherClientStepKeeps(s, step);
  }

  lemma {:induction false} RunKeeps(states: seq<State>, steps: seq<Step>, i: nat)
    requires Run(states, steps) && i < |states|
    ensures Inv(states[i])
  {
    if i == 0 {
      InitHolds(states[0]);
    } else {
      RunKeeps(states, steps, i - 1);
      StepKeeps(states[i - 1], steps[i - 1]);
    }
  }

  // ----- What every reachable state has -----

  /** The cursor equation and the bounds of the counter, without the history. */
  lemma RingSafety(states: seq<State>, steps: seq<Step>, i: nat)
    requires Run(states, steps) && i < |states|
    ensures var s := states[i];
      && s.Length() > 0
      && 0 <= s.fill <= s.Length()
      && Cell(s.Length(), s.head + Undiscounted(s)) == Cell(s.Length(), s.tail + s.fill + Uncounted(s))
  {
    RunKeeps(states, steps, i);
    var s := states[i];
    CellOfCell(s.Length(), s.hist.headPos, Undiscounted(s));
    CellOfCell(s.Length(), s.hist.tailPos, s.fill + Uncounted(s));
  }

  /** No cell the client may write holds a byte the server has not released. */
  lemma RegionsDisjoint(states: seq<State>, steps: seq<Step>, i: nat, offset: nat, p: nat)
    requires Run(states, steps) && i < |states|
    requires offset < states[i].reserved
    requires states[i].hist.released <= p < states[i].hist.headPos
    ensures states[i].Length() > 0
    ensures Cell(states[i].Length(), states[i].head + offset) != Cell(states[i].Length(), p)
  {
    RunKeeps(states, steps, i);
    var s := states[i];
    CellOfCell(s.Length(), s.hist.headPos, offset);
    CellsDiffer(s.Length(), p, s.hist.headPos + offset);
  }

  /** The server handles the committed commands in order, each once, with the bytes committed. */
  lemma FifoRefinement(states: seq<State>, steps: seq<Step>, i: nat)
    requires Run(states, steps) && i < |states|
    ensures states[i].hist.handled <= states[i].hist.log.committed
    ensures i < |steps| && steps[i].BeginHandler? ==>
      var n := |states[i].hist.handled|;
      n < |states[i].hist.log.committed|
      && states[i + 1].hist.handled == states[i].hist.handled + [states[i].hist.log.committed[n]]
    ensures i < |steps| && !steps[i].BeginHandler? ==> states[i + 1].hist.handled == states[i].hist.handled
  {
    RunKeeps(states, steps, i);
    if i < |steps| {
      assert states[i + 1] == After(states[i], steps[i]);
      if steps[i].BeginHandler? {
        BeginHandlerKeeps(states[i], steps[i]);
      }
    }
  }

  /** Whenever the server has a command in hand, its cell is the header of the next unhandled one. */
  lemma TailOnHeader(states: seq<State>, steps: seq<Step>, i: nat)
    requires Run(states, steps) && i < |states| && states[i].server.StartHandler?
    ensures var s := states[i]; var n := |s.hist.handled|;
      && s.Length() > 0 && n < |s.hist.log.committed| && |s.hist.log.committed[n]| >= HEADER
      && s.server.at == s.tail
      && SizeAt(s.mem, s.tail) == |s.hist.log.committed[n]|
      && TokenAt(s.mem, s.tail) == TokenOf(s.hist.log.committed[n])
  {
    RunKeeps(states, steps, i);
    assert FramedAt(states[i].hist.log, states[i].hist.passed);
    HeaderOf(states[i], states[i].hist.passed);
  }

  /**
   Between two advances, and outside a handler, the state is that of a valid ring whose contents are
   exactly the committed bytes that the server has not released: what the Ring class calls Contents.
   */
  lemma QuietRing(states: seq<State>, steps: seq<Step>, i: nat)
    requires Run(states, steps) && i < |states|
    requires !states[i].client.AddFill? && !states[i].server.SubFill? && !InBody(states[i])
    ensures var s := states[i];
      && 0 <= s.fill <= s.Length() && s.tail < s.Length() && s.head == Cell(s.Length(), s.tail + s.fill)
      && s.hist.released <= |s.hist.log.stream|
      && Window(s.mem, s.tail, s.fill) == s.hist.log.stream[s.hist.released..]
  {
    RunKeeps(states, steps, i);
    var s := states[i];
    CellOfCell(s.Length(), s.hist.tailPos, s.fill);
    ReadsStream(s, s.hist.released, s.fill);
  }
}
