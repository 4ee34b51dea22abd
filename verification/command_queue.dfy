/**
 The client/server command queue as a state machine, one atomic memory access a step.

 The client thread owns `head` and writes commands; the server thread owns `tail` and handles
 them; `fill` is the shared counter both update atomically, and two counting semaphores carry the
 wake-ups. Every step is labelled, so a run is a sequence of labels and every interleaving of the
 two threads is one such sequence.
 */
module CommandQueue {
  import opened Bytes
  import opened Wrappers

  // Layout of command_t: type at 0, size at 8 (eight bytes), token at 16 (four bytes).
  const HEADER: nat := 24
  const SIZE_AT: nat := 8
  const TOKEN_AT: nat := 16
  const TOKEN_LIMIT: nat := 0x1_0000_0000

  /** The size field of a command. */
  function SizeOf(command: seq<Byte>): nat
    requires |command| >= HEADER
  {
    FromLE(command[SIZE_AT..SIZE_AT + 8])
  }

  /** The token field of a command. */
  function TokenOf(command: seq<Byte>): nat
    requires |command| >= HEADER
  {
    FromLE(command[TOKEN_AT..TOKEN_AT + 4])
  }

  /** The size field of the command whose header starts at cell `cmd`. */
  function SizeAt(mem: seq<Byte>, cmd: nat): nat
    requires |mem| > 0
  {
    SizeOf(Window(mem, cmd, HEADER))
  }

  function TokenAt(mem: seq<Byte>, cmd: nat): nat
    requires |mem| > 0
  {
    TokenOf(Window(mem, cmd, HEADER))
  }

  /** Where the client thread is. `cmd` is a header's cell, `token` is 0 for an asynchronous call. */
  datatype ClientPc =
    | Building
    | AwaitSpace(want: nat)
    | MoveHead(cmd: nat, size: nat, token: nat)
    | AddFill(cmd: nat, size: nat, token: nat)
    | Compare(cmd: nat, token: nat)
    | PostServer(token: nat)
    | CheckToken(token: nat)
    | AwaitToken(token: nat)

  /** Where the server thread is. `at` is the cell of the command it is working on. */
  datatype ServerPc =
    | ReadFill
    | AwaitWork
    | StartHandler(at: nat)
    | InHandler(at: nat)
    | MoveTail(at: nat, size: nat)
    | SubFill(at: nat, size: nat)
    | ReadToken(at: nat)
    | SetToken(at: nat)
    | PostClient

  /** All committed commands: their bytes in one stream, cut at `bounds`. */
  datatype Log = Log(stream: seq<Byte>, bounds: seq<nat>, committed: seq<seq<Byte>>)

  /**
   What happened so far; no step reads it. The positions count bytes since the start, `passed`
   counts the commands `tail` has moved over, `handled` are the commands as their handlers found
   them and `replies` as their handlers left them.
   */
  datatype History = History(
    headPos: nat, tailPos: nat, released: nat, passed: nat,
    log: Log, handled: seq<seq<Byte>>, replies: seq<seq<Byte>>)

  datatype State = State(
    mem: seq<Byte>, head: nat, tail: nat, fill: int, lastToken: nat,
    serverSignal: nat, clientSignal: nat, clientToken: nat, reserved: int,
    client: ClientPc, server: ServerPc, hist: History)
  {
    function Length(): nat { |mem| }
  }

  datatype Step =
    // client_get_space_for_size, client_run_command, client_run_command_async
    | AskSpace(want: nat)
    | PollSpace
    | WriteByte(offset: nat, value: Byte)
    | BeginAsync
    | BeginSync
    | UpdateHead
    | Publish
    | CompareFill
    | WakeServer
    | TestToken
    | TakeClientSignal
    // server_start_work_loop
    | PollFill
    | TakeServerSignal
    | BeginHandler
    | RewriteByte(offset: nat, value: Byte)
    | EndHandler
    | UpdateTail
    | Release
    | TestReadToken
    | StoreToken
    | WakeClient

  /** The counter after ++client->token on a 32-bit unsigned. */
  function BumpedCounter(counter: nat): nat {
    (counter + 1) % TOKEN_LIMIT
  }

  /** The token a synchronous call stamps on its command: never zero. */
  function NextToken(counter: nat): nat {
    if BumpedCounter(counter) == 0 then 1 else BumpedCounter(counter)
  }

  /** The client may commit what it has laid out at `head` under this token. */
  predicate Committable(s: State, token: nat)
    requires s.Length() > 0
  {
    && s.client.Building?
    && HEADER <= SizeAt(s.mem, s.head) <= s.reserved
    && TokenAt(s.mem, s.head) == token
  }

  predicate Enabled(s: State, step: Step)
    requires s.Length() > 0
  {
    match step
    case AskSpace(want) => s.client.Building? && want <= s.Length()
    case PollSpace => s.client.AwaitSpace?
    case WriteByte(offset, _) => s.client.Building? && offset < s.reserved
    case BeginAsync => Committable(s, 0)
    case BeginSync => Committable(s, NextToken(s.clientToken))
    case UpdateHead => s.client.MoveHead?
    case Publish => s.client.AddFill?
    case CompareFill => s.client.Compare?
    case WakeServer => s.client.PostServer?
    case TestToken => s.client.CheckToken?
    case TakeClientSignal => s.client.AwaitToken? && s.clientSignal > 0
    case PollFill => s.server.ReadFill?
    case TakeServerSignal => s.server.AwaitWork? && s.serverSignal > 0
    case BeginHandler => s.server.StartHandler?
    case RewriteByte(offset, _) =>
      s.server.InHandler? && HEADER <= offset < SizeAt(s.mem, s.server.at)
    case EndHandler => s.server.InHandler?
    case UpdateTail => s.server.MoveTail?
    case Release => s.server.SubFill?
    case TestReadToken => s.server.ReadToken?
    case StoreToken => s.server.SetToken?
    case WakeClient => s.server.PostClient?
  }

  function Append(log: Log, command: seq<Byte>): Log {
    Log(log.stream + command, log.bounds + [|log.stream| + |command|], log.committed + [command])
  }

  /** Where the client goes once its command is out: back to its caller, or to wait for the token. */
  function AfterCommit(token: nat): ClientPc {
    if token == 0 then Building else CheckToken(token)
  }

  function After(s: State, step: Step): State
    requires s.Length() > 0 && Enabled(s, step)
  {
    var h := s.hist;
    match step
    case AskSpace(want) => s.(client := AwaitSpace(want))
    case PollSpace =>
      var available := s.Length() - s.fill;
      if available == 0 || available < s.client.want then s
      else s.(client := Building,
              reserved := if s.reserved < s.client.want then s.client.want else s.reserved)
    case WriteByte(offset, value) => s.(mem := s.mem[Cell(s.Length(), s.head + offset) := value])
    case BeginAsync => s.(client := MoveHead(s.head, SizeAt(s.mem, s.head), 0))
    case BeginSync =>
      s.(client := MoveHead(s.head, SizeAt(s.mem, s.head), NextToken(s.clientToken)),
         clientToken := BumpedCounter(s.clientToken))
    case UpdateHead =>
      s.(head := Cell(s.Length(), s.head + s.client.size),
         reserved := s.reserved - s.client.size,
         client := AddFill(s.client.cmd, s.client.size, s.client.token),
         hist := h.(headPos := h.headPos + s.client.size))
    case Publish =>
      var command := Window(s.mem, s.client.cmd, s.client.size);
      s.(fill := s.fill + s.client.size,
         client := Compare(s.client.cmd, s.client.token),
         hist := h.(log := Append(h.log, command)))
    case CompareFill =>
      s.(client := if s.fill == SizeAt(s.mem, s.client.cmd) then PostServer(s.client.token)
                   else AfterCommit(s.client.token))
    case WakeServer => s.(serverSignal := s.serverSignal + 1, client := AfterCommit(s.client.token))
    case TestToken =>
      s.(client := if s.lastToken < s.client.token then AwaitToken(s.client.token) else Building)
    case TakeClientSignal =>
      s.(clientSignal := s.clientSignal - 1, client := CheckToken(s.client.token))
    case PollFill => s.(server := if s.fill == 0 then AwaitWork else StartHandler(s.tail))
    case TakeServerSignal => s.(serverSignal := s.serverSignal - 1, server := ReadFill)
    case BeginHandler =>
      var command := Window(s.mem, s.server.at, SizeAt(s.mem, s.server.at));
      s.(server := InHandler(s.server.at), hist := h.(handled := h.handled + [command]))
    case RewriteByte(offset, value) =>
      s.(mem := s.mem[Cell(s.Length(), s.server.at + offset) := value])
    case EndHandler =>
      var size := SizeAt(s.mem, s.server.at);
      s.(server := MoveTail(s.server.at, size),
         hist := h.(replies := h.replies + [Window(s.mem, s.server.at, size)]))
    case UpdateTail =>
      s.(tail := Cell(s.Length(), s.tail + s.server.size),
         server := SubFill(s.server.at, s.server.size),
         hist := h.(tailPos := h.tailPos + s.server.size, passed := h.passed + 1))
    case Release =>
      s.(fill := s.fill - s.server.size, server := ReadToken(s.server.at),
         hist := h.(released := h.released + s.server.size))
    case TestReadToken =>
      s.(server := if TokenAt(s.mem, s.server.at) != 0 then SetToken(s.server.at) else ReadFill)
    case StoreToken => s.(lastToken := TokenAt(s.mem, s.server.at), server := PostClient)
    case WakeClient => s.(clientSignal := s.clientSignal + 1, server := ReadFill)
  }

  /** The queue as client_init and buffer_create leave it, with both threads started. */
  predicate Init(s: State) {
    && s.Length() >= HEADER
    && s.head == s.tail == s.fill == s.lastToken == 0
    && s.serverSignal == s.clientSignal == s.clientToken == s.reserved == 0
    && s.client.Building? && s.server.ReadFill?
    && s.hist == History(0, 0, 0, 0, Log([], [0], []), [], [])
  }

  /** A run: every labelled step is enabled where it is taken and leads to the next state. */
  predicate Run(states: seq<State>, steps: seq<Step>) {
    && |states| == |steps| + 1
    && Init(states[0])
    && forall i {:trigger steps[i]} {:trigger Taken(states, steps, i)} :: 0 <= i < |steps| ==> Taken(states, steps, i)
  }

  /** Step `i` is enabled where it is taken and leads to the next state. */
  predicate Taken(states: seq<State>, steps: seq<Step>, i: nat)
    requires |states| == |steps| + 1 && i < |steps|
  {
    states[i].Length() > 0 && Enabled(states[i], steps[i]) && states[i + 1] == After(states[i], steps[i])
  }

  /** The state a sequence of steps leads to, if every one of them is enabled in turn. */
  function Outcome(s: State, steps: seq<Step>): Option<State> {
    if steps == [] then Some(s) else
      match Outcome(s, steps[..|steps| - 1])
      case None => None
      case Some(m) =>
        if m.Length() > 0 && Enabled(m, steps[|steps| - 1]) then Some(After(m, steps[|steps| - 1])) else None
  }

  lemma {:induction false} OutcomeAppend(s: State, first: seq<Step>, second: seq<Step>)
    requires Outcome(s, first).Some?
    ensures Outcome(s, first + second) == Outcome(Outcome(s, first).value, second)
  {
    hide After, Enabled;
    if second == [] {
      assert first + second == first;
    } else {
      var n := |second| - 1;
      OutcomeAppend(s, first, second[..n]);
      assert (first + second)[..|first + second| - 1] == first + second[..n];
    }
  }

  /** A run goes on with any step enabled in its last state. */
  lemma RunExtends(states: seq<State>, steps: seq<Step>, step: Step, states': seq<State>, steps': seq<Step>)
    requires Run(states, steps) && states[|steps|].Length() > 0 && Enabled(states[|steps|], step)
    requires states' == states + [After(states[|steps|], step)] && steps' == steps + [step]
    ensures Run(states', steps')
  {
    hide After, Enabled, Init;
    assert states'[0] == states[0];
    forall i | 0 <= i < |steps'| ensures Taken(states', steps', i) {
      if i < |steps| {
        assert Taken(states, steps, i);
        assert steps'[i] == steps[i] && states'[i] == states[i] && states'[i + 1] == states[i + 1];
      }
    }
  }

  lemma OutcomeLast(s: State, steps: seq<Step>)
    requires steps != [] && Outcome(s, steps).Some?
    ensures var n := |steps| - 1;
      && Outcome(s, steps[..n]).Some?
      && var m := Outcome(s, steps[..n]).value;
         m.Length() > 0 && Enabled(m, steps[n]) && Outcome(s, steps) == Some(After(m, steps[n]))
  {
    hide After, Enabled;
  }

  lemma RunOfNothing(s: State)
    requires Init(s)
    ensures Run([s], []) && Outcome(s, []) == Some(s)
  {
    hide After, Enabled, Init;
  }

  lemma {:induction false} OutcomeRun(s: State, steps: seq<Step>) returns (states: seq<State>)
    requires Init(s) && Outcome(s, steps).Some?
    ensures |states| == |steps| + 1 && Run(states, steps)
    ensures states[0] == s && states[|steps|] == Outcome(s, steps).value
  {
    hide After, Enabled, Init, Run, Outcome;
    if steps == [] {
      RunOfNothing(s);
      states := [s];
    } else {
      var n := |steps| - 1;
      OutcomeLast(s, steps);
      var before := OutcomeRun(s, steps[..n]);
      states := before + [After(before[n], steps[n])];
      RunExtends(before, steps[..n], steps[n], states, steps);
    }
  }
}
