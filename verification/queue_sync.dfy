/** Synchronous calls: the token protocol on top of the queue. */
module QueueSync {
  import opened Bytes
  import opened CommandQueue
  import opened QueueSafety

  /**
   First hypothesis. The server reads the token of a command after releasing its slot; between the
   two, the client does not write over the four token bytes of that slot.
   */
  ghost predicate SparesToken(s: State, step: Step)
    requires s.Length() > 0
  {
    step.WriteByte? && (s.server.ReadToken? || s.server.SetToken?) ==>
      Cell(s.Length(), s.head + step.offset) !in TokenCells(s.Length(), s.server.at)
  }

  /** The cells of the token field of the command whose header is at cell `at`. */
  ghost function TokenCells(length: nat, at: nat): set<nat>
    requires length > 0
  {
    {Cell(length, at + TOKEN_AT), Cell(length, at + TOKEN_AT + 1),
     Cell(length, at + TOKEN_AT + 2), Cell(length, at + TOKEN_AT + 3)}
  }

  /** Second hypothesis. The 32-bit token counter does not wrap. */
  ghost predicate NoWrap(s: State, step: Step) {
    step.BeginSync? ==> s.clientToken + 1 < TOKEN_LIMIT
  }

  /** The token of a committed call the client has not yet returned from; 0 if there is none. */
  ghost function Waiting(s: State): nat {
    match s.client
    case Compare(_, token) => token
    case PostServer(token) => token
    case CheckToken(token) => token
    case AwaitToken(token) => token
    case _ => 0
  }

  /** The same, counting also the call that is still being committed. */
  ghost function Pending(s: State): nat {
    match s.client
    case MoveHead(_, _, token) => token
    case AddFill(_, _, token) => token
    case _ => Waiting(s)
  }

  ghost predicate TokenUnread(s: State) {
    s.server.SubFill? || s.server.ReadToken? || s.server.SetToken?
  }

  /** How many commands the server has entirely finished with, token included. */
  ghost function Acked(s: State): int {
    s.hist.passed - if TokenUnread(s) then 1 else 0
  }

  /** Of the commands not finished with, only the one the client waits for carries a token. */
  ghost predicate OneOutstanding(s: State)
    requires Inv(s)
  {
    forall j: nat :: Acked(s) <= j < |s.hist.log.committed| && TokenIn(s.hist.log, j) != 0 ==>
      j == |s.hist.log.committed| - 1 && Waiting(s) == TokenIn(s.hist.log, j)
  }

  /** The token the server is about to read is the committed one. */
  ghost predicate TokenIntact(s: State)
    requires Inv(s)
  {
    match s.server
    case SubFill(at, _) => TokenAt(s.mem, at) == TokenIn(s.hist.log, s.hist.passed - 1)
    case ReadToken(at) => TokenAt(s.mem, at) == TokenIn(s.hist.log, s.hist.passed - 1)
    case SetToken(at) =>
      TokenAt(s.mem, at) == TokenIn(s.hist.log, s.hist.passed - 1) && TokenAt(s.mem, at) != 0
    case _ => true
  }

  /** `lastToken` trails the newest token by the one outstanding call, if any. */
  ghost predicate Counted(s: State) {
    && s.clientToken < TOKEN_LIMIT
    && (Pending(s) == 0 ==> s.lastToken == s.clientToken)
    && (Pending(s) != 0 ==>
         && Pending(s) == s.clientToken
         && (s.lastToken == s.clientToken || s.lastToken + 1 == s.clientToken)
         && (s.lastToken == s.clientToken ==> Waiting(s) != 0)
         && (Waiting(s) != 0 ==>
              (s.lastToken == s.clientToken <==> Acked(s) == |s.hist.log.committed|)))
  }

  /** An acknowledgement the client has not noticed yet has been, or is about to be, posted. */
  ghost predicate Posted(s: State) {
    && (s.client.CheckToken? || s.client.AwaitToken? ==> s.client.token != 0)
    && (s.client.AwaitToken? && s.lastToken >= s.client.token ==> s.clientSignal > 0 || s.server.PostClient?)
  }

  /** Once its command is handled, the waiting client sees the bytes as the handler left them. */
  ghost predicate ReplyReadable(s: State)
    requires Inv(s)
  {
    var h := s.hist;
    var n := |h.log.committed|;
    (s.client.Compare? || s.client.PostServer? || s.client.CheckToken? || s.client.AwaitToken?)
    && |h.replies| == n ==>
      Window(s.mem, Cell(s.Length(), h.log.bounds[n - 1]), |h.log.committed[n - 1]|) == h.replies[n - 1]
  }

  ghost predicate SyncInv(s: State) {
    Inv(s) && OneOutstanding(s) && TokenIntact(s) && Counted(s) && Posted(s) && ReplyReadable(s)
  }

  // ----- Steps -----

  lemma SyncInit(s: State)
    requires Init(s)
    ensures SyncInv(s)
  {
    InitHolds(s);
  }

  lemma StoreSparesToken(mem: seq<Byte>, cell: nat, value: Byte, at: nat)
    requires 0 <= cell < |mem| && cell !in TokenCells(|mem|, at)
    ensures TokenAt(mem[cell := value], at) == TokenAt(mem, at)
  {
    hide TokenOf, Cell;
    var w, w' := Window(mem, at, HEADER), Window(mem[cell := value], at, HEADER);
    forall i | TOKEN_AT <= i < TOKEN_AT + 4 ensures w'[i] == w[i] {
      assert Cell(|mem|, at + i) in TokenCells(|mem|, at);
    }
    SameToken4(w, w');
  }

  lemma SameToken4(a: seq<Byte>, b: seq<Byte>)
    requires |a| >= HEADER && |b| >= HEADER
    requires forall i :: TOKEN_AT <= i < TOKEN_AT + 4 ==> a[i] == b[i]
    ensures TokenOf(a) == TokenOf(b)
  {
    assert a[TOKEN_AT..TOKEN_AT + 4] == b[TOKEN_AT..TOKEN_AT + 4];
  }

  /** The client's store reaches neither an unreleased slot nor a spared token field. */
  lemma WriteByteKeepsToken(s: State, step: Step)
    requires Inv(s) && step.WriteByte? && Enabled(s, step) && SparesToken(s, step)
    requires TokenUnread(s)
    ensures TokenAt(After(s, step).mem, s.server.at) == TokenAt(s.mem, s.server.at)
  {
    if s.server.SubFill? {
      assert FramedAt(s.hist.log, s.hist.passed - 1);
      CellOfCell(s.Length(), s.hist.headPos, step.offset);
      StoreOutsideWindow(s.mem, s.hist.headPos + step.offset, step.value, s.hist.released, HEADER);
    } else {
      StoreSparesToken(s.mem, Cell(s.Length(), s.head + step.offset), step.value, s.server.at);
    }
  }

  lemma WriteByteSyncs(s: State, step: Step)
    requires SyncInv(s) && step.WriteByte? && Enabled(s, step) && SparesToken(s, step)
    ensures SyncInv(After(s, step))
  {
    StepKeeps(s, step);
    if TokenUnread(s) {
      WriteByteKeepsToken(s, step);
    }
  }

  lemma SameToken(log: Log, log': Log, j: nat)
    requires Framed(log) && Framed(log') && log.committed <= log'.committed && j < |log.committed|
    ensures TokenIn(log, j) == TokenIn(log', j)
  {
    assert log.committed[j] == log'.committed[j];
  }

  lemma PublishSyncs(s: State, step: Step)
    requires SyncInv(s) && step.Publish? && Enabled(s, step)
    ensures SyncInv(After(s, step))
  {
    var s' := After(s, step);
    StepKeeps(s, step);
    forall j: nat | Acked(s') <= j < |s'.hist.log.committed| && TokenIn(s'.hist.log, j) != 0
      ensures j == |s'.hist.log.committed| - 1 && Waiting(s') == TokenIn(s'.hist.log, j)
    {
      if j < |s.hist.log.committed| {
        SameToken(s.hist.log, s'.hist.log, j);
      }
    }
    if TokenUnread(s) {
      SameToken(s.hist.log, s'.hist.log, s.hist.passed - 1);
    }
  }

  lemma QuietClientStepSyncs(s: State, step: Step)
    requires SyncInv(s) && Enabled(s, step)
    requires step.AskSpace? || step.PollSpace? || step.BeginAsync? || step.UpdateHead?
             || step.TakeClientSignal?
    ensures SyncInv(After(s, step))
  {
    StepKeeps(s, step);
  }

  lemma BeginSyncSyncs(s: State, step: Step)
    requires SyncInv(s) && step.BeginSync? && Enabled(s, step) && NoWrap(s, step)
    ensures SyncInv(After(s, step))
  {
    StepKeeps(s, step);
  }

  lemma ReturningStepSyncs(s: State, step: Step)
    requires SyncInv(s) && Enabled(s, step)
    requires step.CompareFill? || step.WakeServer? || step.TestToken?
    ensures SyncInv(After(s, step))
  {
    hide Inv, TokenIn, TokenAt, Window, Cell;
    StepKeeps(s, step);
  }

  lemma RewriteByteSyncs(s: State, step: Step)
    requires SyncInv(s) && step.RewriteByte? && Enabled(s, step)
    ensures SyncInv(After(s, step))
  {
    StepKeeps(s, step);
    forall j: nat | Acked(s) <= j < |s.hist.log.committed| && TokenIn(s.hist.log, j) != 0
      ensures j == |s.hist.log.committed| - 1 && Waiting(s) == TokenIn(s.hist.log, j)
    {
    }
  }

  lemma UpdateTailSyncs(s: State, step: Step)
    requires SyncInv(s) && step.UpdateTail? && Enabled(s, step)
    ensures SyncInv(After(s, step))
  {
    StepKeeps(s, step);
    HeaderOf(s, s.hist.passed);
  }

  lemma EndHandlerSyncs(s: State, step: Step)
    requires SyncInv(s) && step.EndHandler? && Enabled(s, step)
    ensures SyncInv(After(s, step))
  {
    StepKeeps(s, step);
    HeaderOf(s, s.hist.passed);
  }

  lemma StoreTokenSyncs(s: State, step: Step)
    requires SyncInv(s) && step.StoreToken? && Enabled(s, step)
    ensures SyncInv(After(s, step))
    ensures After(s, step).lastToken == s.clientToken && s.lastToken < s.clientToken
  {
    StepKeeps(s, step);
    assert TokenIn(s.hist.log, s.hist.passed - 1) != 0;
  }

  lemma TestReadTokenSyncs(s: State, step: Step)
    requires SyncInv(s) && step.TestReadToken? && Enabled(s, step)
    ensures SyncInv(After(s, step))
  {
    StepKeeps(s, step);
  }

  lemma ReleaseSyncs(s: State, step: Step)
    requires SyncInv(s) && step.Release? && Enabled(s, step)
    ensures SyncInv(After(s, step))
  {
    StepKeeps(s, step);
  }

  lemma OtherServerStepSyncs(s: State, step: Step)
    requires SyncInv(s) && Enabled(s, step)
    requires step.PollFill? || step.TakeServerSignal? || step.BeginHandler? || step.WakeClient?
    ensures SyncInv(After(s, step))
  {
    hide TokenIn, TokenAt, Window, Cell;
    StepKeeps(s, step);
  }

  lemma StepSyncs(s: State, step: Step)
    requires SyncInv(s) && Enabled(s, step) && SparesToken(s, step) && NoWrap(s, step)
    ensures SyncInv(After(s, step))
    ensures s.lastToken <= After(s, step).lastToken
  {
    match step
    case WriteByte(_, _) => WriteByteSyncs(s, step);
    case Publish => PublishSyncs(s, step);
    case RewriteByte(_, _) => RewriteByteSyncs(s, step);
    case UpdateTail => UpdateTailSyncs(s, step);
    case EndHandler => EndHandlerSyncs(s, step);
    case StoreToken => StoreTokenSyncs(s, step);
    case PollFill => OtherServerStepSyncs(s, step);
    case TakeServerSignal => OtherServerStepSyncs(s, step);
    case BeginHandler => OtherServerStepSyncs(s, step);
    case Release => ReleaseSyncs(s, step);
    case TestReadToken => TestReadTokenSyncs(s, step);
    case WakeClient => OtherServerStepSyncs(s, step);
    case BeginSync => BeginSyncSyncs(s, step);
    case CompareFill => ReturningStepSyncs(s, step);
    case WakeServer => ReturningStepSyncs(s, step);
    case TestToken => ReturningStepSyncs(s, step);
    case _ => QuietClientStepSyncs(s, step);
  }

  // ----- Whole runs -----

  /** A run on which both hypotheses hold at every step. */
  ghost predicate OrderlyRun(states: seq<State>, steps: seq<Step>) {
    && Run(states, steps)
    && forall i {:trigger steps[i]} :: 0 <= i < |steps| ==>
         SparesToken(states[i], steps[i]) && NoWrap(states[i], steps[i])
  }

  lemma {:induction false} RunSyncs(states: seq<State>, steps: seq<Step>, i: nat)
    requires OrderlyRun(states, steps) && i < |states|
    ensures SyncInv(states[i])
  {
    if i == 0 {
      SyncInit(states[0]);
    } else {
      RunSyncs(states, steps, i - 1);
      StepSyncs(states[i - 1], steps[i - 1]);
    }
  }

  lemma ReturnsAfterHandling(s: State, step: Step)
    requires SyncInv(s) && step.TestToken? && Enabled(s, step)
    requires s.lastToken >= s.client.token
    ensures var h := s.hist; var n := |h.log.committed|;
      && n > 0 && |h.log.committed[n - 1]| >= HEADER
      && TokenOf(h.log.committed[n - 1]) == s.client.token
      && h.handled == h.log.committed
      && h.released == |h.log.stream| && |h.replies| == n
  {
    var h := s.hist;
    assert FramedAt(h.log, |h.log.committed| - 1);
    assert h.passed == |h.log.committed|;
  }

  /**
   A synchronous call returns only when the server has handled every committed command, the call's
   own last of all, and released its slot; the caller then reads the reply the handler left there.
   Leftover posts of the semaphore do not matter: they only lead back to this test.
   */
  lemma SyncCallReturnsAfterHandling(states: seq<State>, steps: seq<Step>, i: nat)
    requires OrderlyRun(states, steps) && i < |steps|
    requires steps[i].TestToken? && states[i + 1].client.Building?
    ensures var s := states[i + 1]; var n := |s.hist.log.committed|;
      && n > 0 && |s.hist.log.committed[n - 1]| >= HEADER && s.Length() > 0
      && TokenOf(s.hist.log.committed[n - 1]) == states[i].client.token
      && s.hist.handled == s.hist.log.committed
      && s.hist.released == |s.hist.log.stream| && |s.hist.replies| == n && |s.hist.log.bounds| == n + 1
      && Window(s.mem, Cell(s.Length(), s.hist.log.bounds[n - 1]), |s.hist.log.committed[n - 1]|)
         == s.hist.replies[n - 1]
  {
    RunSyncs(states, steps, i);
    assert states[i + 1] == After(states[i], steps[i]);
    ReturnsAfterHandling(states[i], steps[i]);
  }

  /** `lastToken` never decreases and never exceeds the newest token issued. */
  lemma {:induction false} TokensMonotone(states: seq<State>, steps: seq<Step>, i: nat, j: nat)
    requires OrderlyRun(states, steps) && i <= j < |states|
    ensures states[i].lastToken <= states[j].lastToken <= states[j].clientToken
    decreases j
  {
    RunSyncs(states, steps, j);
    if i < j {
      TokensMonotone(states, steps, i, j - 1);
      RunSyncs(states, steps, j - 1);
      StepSyncs(states[j - 1], steps[j - 1]);
    }
  }
}
