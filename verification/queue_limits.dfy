/** Why the first hypothesis of the token protocol is needed: a run of the code that breaks it. */
module QueueLimits {
  import opened Bytes
  import opened CommandQueue
  import opened QueueSafety
  import opened QueueSync
  import opened Wrappers

  // The ring client_init asks for: 1024 * 1024 bytes.
  const RING: nat := 1048576
  const REST: nat := RING - HEADER

  /** The queue just after start-up, with its shared memory still zero. */
  function Start(): State {
    State(seq(RING, i => 0), 0, 0, 0, 0, 0, 0, 0, 0, Building, ReadFill,
          History(0, 0, 0, 0, Log([], [0], []), [], []))
  }

  /** A header that is zero but for the low bytes of its size and token. */
  lemma HeaderValue(mem: seq<Byte>, cmd: nat)
    requires |mem| == RING && cmd + HEADER <= RING
    requires forall k :: cmd + SIZE_AT + 3 <= k < cmd + SIZE_AT + 8 ==> mem[k] == 0
    requires forall k :: cmd + TOKEN_AT + 1 <= k < cmd + TOKEN_AT + 4 ==> mem[k] == 0
    ensures SizeAt(mem, cmd) == (mem[cmd + 8] as int) + 256 * (mem[cmd + 9] as int) + 65536 * (mem[cmd + 10] as int)
    ensures TokenAt(mem, cmd) == mem[cmd + 16]
  {
    var w := Window(mem, cmd, HEADER);
    assert forall k :: 0 <= k < HEADER ==> w[k] == mem[cmd + k];
    var z := w[SIZE_AT..SIZE_AT + 8];
    var t := w[TOKEN_AT..TOKEN_AT + 4];
    Zeros(z[3..]);
    Zeros(t[1..]);
    assert FromLE(z) == z[0] + 256 * FromLE(z[1..]);
    assert z[1..][1..] == z[2..] && z[2..][1..] == z[3..];
    assert FromLE(z[1..]) == z[1] + 256 * FromLE(z[2..]);
    assert FromLE(z[2..]) == z[2] + 256 * FromLE(z[3..]);
  }

  lemma {:induction false} Zeros(bs: seq<Byte>)
    requires forall k :: 0 <= k < |bs| ==> bs[k] == 0
    ensures FromLE(bs) == 0
  {
    if bs != [] {
      Zeros(bs[1..]);
    }
  }

  /** One step more. */
  lemma Extend(s: State, steps: seq<Step>, m: State, step: Step) returns (more: seq<Step>, next: State)
    requires Outcome(s, steps) == Some(m) && m.Length() > 0 && Enabled(m, step)
    ensures next == After(m, step) && more == steps + [step]
    ensures Outcome(s, more) == Some(next)
  {
    more, next := steps + [step], After(m, step);
    assert more[..|steps|] == steps;
  }

  /** The client queues a command of one header. */
  lemma QueueFirst() returns (steps: seq<Step>, s: State)
    ensures Outcome(Start(), steps) == Some(s) && s.mem == Start().mem[SIZE_AT := 24]
    ensures s.tail == s.lastToken == s.clientToken == s.reserved == 0 && s.head == s.fill == 24
    ensures s.client == Building && s.server == ReadFill
    ensures SizeAt(s.mem, 0) == 24 && |s.hist.log.committed| == 1 && s.hist.handled == []
  {
    steps, s := [], Start();
    HeaderValue(s.mem[SIZE_AT := 24], 0);
    assert Outcome(s, steps) == Some(s);
    hide Outcome, Window, TokenOf, SizeOf;
    steps, s := Extend(Start(), steps, s, AskSpace(HEADER));
    steps, s := Extend(Start(), steps, s, PollSpace);
    steps, s := Extend(Start(), steps, s, WriteByte(SIZE_AT, 24));
    assert s == Start().(mem := Start().mem[SIZE_AT := 24], reserved := 24);
    steps, s := Extend(Start(), steps, s, BeginAsync);
    assert s.client == MoveHead(0, 24, 0);
    steps, s := Extend(Start(), steps, s, UpdateHead);
    assert s.client == AddFill(0, 24, 0) && s.head == 24;
    steps, s := Extend(Start(), steps, s, Publish);
    assert s.client == Compare(0, 0) && s.fill == 24 && |s.hist.log.committed| == 1;
    steps, s := Extend(Start(), steps, s, CompareFill);
    assert s.client == PostServer(0);
    steps, s := Extend(Start(), steps, s, WakeServer);
  }

  /** The server handles it and releases its slot; it has yet to read the token there. */
  lemma ReleaseFirst(init: State, before: seq<Step>, s: State) returns (steps: seq<Step>, s': State)
    requires Outcome(init, before) == Some(s) && |s.mem| == RING && SizeAt(s.mem, 0) == 24
    requires s.server == ReadFill && s.tail == 0 && s.fill == 24
    ensures Outcome(init, steps) == Some(s') && s'.server == ReadToken(0) && s'.fill == 0
    ensures s' == s.(tail := 24, fill := 0, server := s'.server, hist := s'.hist)
    ensures s'.hist.log == s.hist.log && |s'.hist.handled| == |s.hist.handled| + 1
  {
    hide Outcome, Window, TokenOf, SizeOf;
    steps, s' := Extend(init, before, s, PollFill);
    assert s'.server == StartHandler(0);
    steps, s' := Extend(init, steps, s', BeginHandler);
    assert s'.server == InHandler(0);
    steps, s' := Extend(init, steps, s', EndHandler);
    assert s'.server == MoveTail(0, 24);
    steps, s' := Extend(init, steps, s', UpdateTail);
    steps, s' := Extend(init, steps, s', Release);
  }

  /** Shared memory that is zero but for the size 24 in the header at cell 0. */
  predicate FreshExceptFirst(mem: seq<Byte>) {
    |mem| == RING && mem[SIZE_AT] == 24 && forall k :: 0 <= k < 2 * HEADER && k != SIZE_AT ==> mem[k] == 0
  }

  /** The client lays out the header of a command that fills the rest of the ring: 0x0FFFE8 bytes. */
  lemma LayOutSecond(init: State, before: seq<Step>, s: State) returns (steps: seq<Step>, s': State)
    requires Outcome(init, before) == Some(s) && FreshExceptFirst(s.mem)
    requires s.head == HEADER && s.fill == 0 && s.client == Building && s.reserved == 0
    ensures Outcome(init, steps) == Some(s')
    ensures s' == s.(mem := s'.mem, reserved := REST) && |s'.mem| == RING
    ensures SizeAt(s'.mem, HEADER) == REST && TokenAt(s'.mem, HEADER) == 0
    ensures s'.mem[..HEADER] == s.mem[..HEADER]
  {
    hide Outcome, Window, TokenOf, SizeOf;
    steps, s' := Extend(init, before, s, AskSpace(REST));
    steps, s' := Extend(init, steps, s', PollSpace);
    steps, s' := Extend(init, steps, s', WriteByte(SIZE_AT, 0xE8));
    steps, s' := Extend(init, steps, s', WriteByte(SIZE_AT + 1, 0xFF));
    steps, s' := Extend(init, steps, s', WriteByte(SIZE_AT + 2, 0x0F));
    assert s'.mem == s.mem[HEADER + SIZE_AT := 0xE8][HEADER + SIZE_AT + 1 := 0xFF][HEADER + SIZE_AT + 2 := 0x0F];
    assert s'.mem[HEADER + 8] == 0xE8 && s'.mem[HEADER + 9] == 0xFF && s'.mem[HEADER + 10] == 0x0F;
    assert s'.mem[HEADER + 16] == 0;
    HeaderValue(s'.mem, HEADER);
  }

  lemma CommitSecond(init: State, before: seq<Step>, s: State) returns (steps: seq<Step>, s': State)
    requires Outcome(init, before) == Some(s) && |s.mem| == RING
    requires SizeAt(s.mem, HEADER) == REST && TokenAt(s.mem, HEADER) == 0
    requires s.head == HEADER && s.fill == 0 && s.client == Building && s.reserved == REST
    ensures Outcome(init, steps) == Some(s')
    ensures s' == s.(head := 0, fill := REST, reserved := 0, serverSignal := s'.serverSignal, hist := s'.hist)
    ensures |s'.hist.log.committed| == |s.hist.log.committed| + 1 && s'.hist.handled == s.hist.handled
  {
    steps, s' := Extend(init, before, s, BeginAsync);
    assert s'.client == MoveHead(HEADER, REST, 0);
    steps, s' := Extend(init, steps, s', UpdateHead);
    assert s'.client == AddFill(HEADER, REST, 0) && s'.head == 0;
    steps, s' := Extend(init, steps, s', Publish);
    assert s'.client == Compare(HEADER, 0) && s'.fill == REST;
    steps, s' := Extend(init, steps, s', CompareFill);
    assert s'.client == PostServer(0);
    steps, s' := Extend(init, steps, s', WakeServer);
  }

  /** A synchronous call is laid out over the first command's slot, whose token is still unread. */
  lemma LayOutCall(init: State, before: seq<Step>, s: State) returns (steps: seq<Step>, s': State)
    requires Outcome(init, before) == Some(s) && |s.mem| == RING
    requires s.mem[SIZE_AT] == 24 && forall k :: 0 <= k < HEADER && k != SIZE_AT ==> s.mem[k] == 0
    requires s.head == 0 && s.fill == REST && s.client == Building && s.reserved == 0
    ensures Outcome(init, steps) == Some(s')
    ensures s' == s.(mem := s'.mem, reserved := HEADER) && |s'.mem| == RING
    ensures SizeAt(s'.mem, 0) == HEADER && TokenAt(s'.mem, 0) == 1
  {
    HeaderValue(s.mem[TOKEN_AT := 1], 0);
    steps, s' := Extend(init, before, s, AskSpace(HEADER));
    steps, s' := Extend(init, steps, s', PollSpace);
    steps, s' := Extend(init, steps, s', WriteByte(TOKEN_AT, 1));
    assert s'.mem == s.mem[TOKEN_AT := 1];
  }

  lemma CommitCall(init: State, before: seq<Step>, s: State) returns (steps: seq<Step>, s': State)
    requires Outcome(init, before) == Some(s) && |s.mem| == RING
    requires SizeAt(s.mem, 0) == HEADER && TokenAt(s.mem, 0) == 1
    requires s.head == 0 && s.fill == REST && s.client == Building && s.reserved == HEADER
    requires s.clientToken == 0
    ensures Outcome(init, steps) == Some(s')
    ensures s'.mem == s.mem && s'.client == CheckToken(1) && s'.server == s.server
    ensures |s'.hist.log.committed| == |s.hist.log.committed| + 1 && s'.hist.handled == s.hist.handled
  {
    steps, s' := Extend(init, before, s, BeginSync);
    assert s'.client == MoveHead(0, HEADER, 1);
    steps, s' := Extend(init, steps, s', UpdateHead);
    assert s'.client == AddFill(0, HEADER, 1);
    steps, s' := Extend(init, steps, s', Publish);
    assert s'.client == Compare(0, 1) && s'.fill == RING;
    steps, s' := Extend(init, steps, s', CompareFill);
  }

  lemma MisreadToken(init: State, before: seq<Step>, s: State) returns (steps: seq<Step>, s': State)
    requires Outcome(init, before) == Some(s) && |s.mem| == RING && TokenAt(s.mem, 0) == 1
    requires s.client == CheckToken(1) && s.server == ReadToken(0)
    ensures Outcome(init, steps) == Some(s') && |steps| > 0 && steps[|steps| - 1] == TestToken
    ensures s'.client == Building && s'.hist == s.hist
  {
    steps, s' := Extend(init, before, s, TestReadToken);
    steps, s' := Extend(init, steps, s', StoreToken);
    steps, s' := Extend(init, steps, s', TestToken);
  }

  /**
   Without the first hypothesis the promise fails: in this run a synchronous call returns although
   neither its command nor the one before it has been handled. The command is written over a slot
   that was just released, and the server takes the new token for the old command's.
   */
  lemma TokenRaceReturnsEarly() returns (states: seq<State>, steps: seq<Step>)
    ensures Run(states, steps) && |steps| > 0
    ensures steps[|steps| - 1].TestToken? && states[|steps|].client.Building?
    ensures |states[|steps|].hist.log.committed| == 3 && |states[|steps|].hist.handled| == 1
  {
    hide Outcome, Window, TokenOf, SizeOf, Enabled, After;
    var s;
    steps, s := QueueFirst();
    var init := Start();
    steps, s := ReleaseFirst(init, steps, s);
    steps, s := LayOutSecond(init, steps, s);
    assert forall k :: 0 <= k < HEADER ==> s.mem[k] == s.mem[..HEADER][k];
    steps, s := CommitSecond(init, steps, s);
    steps, s := LayOutCall(init, steps, s);
    steps, s := CommitCall(init, steps, s);
    steps, s := MisreadToken(init, steps, s);
    states := OutcomeRun(Start(), steps);
  }
}
