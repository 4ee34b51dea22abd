/** Why the second hypothesis of the token protocol is needed: the counter gets to its end, and then wraps. */
module TokenWrap {
  import opened Bytes
  import opened CommandQueue
  import opened QueueSafety
  import opened QueueSync
  import opened QueueLimits
  import opened Wrappers

  /** Between two calls: `n` synchronous calls made, nothing queued or reserved, the server looking for work. */
  ghost predicate AtRest(s: State, n: nat) {
    && SyncInv(s) && s.clientToken == n
    && s.fill == 0 && s.reserved == 0 && s.client.Building? && s.server.ReadFill?
  }

  lemma RestMeets(s: State, n: nat)
    requires AtRest(s, n)
    ensures s.Length() >= HEADER && s.head == s.tail < s.Length() && s.lastToken == n < TOKEN_LIMIT
  {
  }

  /** One step more, which keeps the token invariant. */
  lemma Go(init: State, before: seq<Step>, s: State, step: Step) returns (steps: seq<Step>, s': State)
    requires Outcome(init, before) == Some(s) && SyncInv(s) && Enabled(s, step)
    requires SparesToken(s, step) && NoWrap(s, step)
    ensures Outcome(init, steps) == Some(s') && s' == After(s, step) && SyncInv(s')
    ensures steps == before + [step]
  {
    hide Outcome, After, Enabled;
    StepSyncs(s, step);
    steps, s' := Extend(init, before, s, step);
  }

  // ----- One synchronous call -----

  lemma StoreExtendsWindow(mem: seq<Byte>, from: nat, n: nat, value: Byte)
    requires n < |mem|
    ensures Window(mem[Cell(|mem|, from + n) := value], from, n + 1) == Window(mem, from, n) + [value]
  {
    hide Cell, Window;
    var w := Window(mem[Cell(|mem|, from + n) := value], from, n + 1);
    forall k | 0 <= k < n ensures w[k] == Window(mem, from, n)[k] {
      CellsDiffer(|mem|, from + k, from + n);
    }
  }

  lemma {:induction false} PutBytes(init: State, before: seq<Step>, s: State, offset: nat, bytes: seq<Byte>)
    returns (steps: seq<Step>, s': State)
    requires Outcome(init, before) == Some(s) && SyncInv(s) && s.client.Building? && s.server.ReadFill?
    requires offset + |bytes| <= s.reserved <= s.Length() && s.Length() > 0
    ensures Outcome(init, steps) == Some(s') && SyncInv(s')
    ensures s' == s.(mem := s'.mem) && |s'.mem| == |s.mem|
    ensures Window(s'.mem, s.head, offset + |bytes|) == Window(s.mem, s.head, offset) + bytes
    decreases |bytes|
  {
    hide Outcome, SyncInv, Cell, Window;
    steps, s' := before, s;
    if bytes == [] {
      assert Window(s.mem, s.head, offset) + bytes == Window(s.mem, s.head, offset);
    } else {
      steps, s' := Go(init, before, s, WriteByte(offset, bytes[0]));
      StoreExtendsWindow(s.mem, s.head, offset, bytes[0]);
      var s1 := s';
      assert Window(s1.mem, s.head, offset + 1) == Window(s.mem, s.head, offset) + [bytes[0]];
      steps, s' := PutBytes(init, steps, s', offset + 1, bytes[1..]);
      assert [bytes[0]] + bytes[1..] == bytes;
    }
  }

  lemma HeaderIs(mem: seq<Byte>, at: nat, skipped: seq<Byte>, size: nat, token: nat)
    requires |mem| > 0 && size < TOKEN_LIMIT && token < TOKEN_LIMIT && |skipped| == SIZE_AT
    requires Window(mem, at, TOKEN_AT + 4) == skipped + ToLE(size, 8) + ToLE(token, 4)
    ensures SizeAt(mem, at) == size && TokenAt(mem, at) == token
  {
    LoadAfterStore(size, 8);
    LoadAfterStore(token, 4);
    assert Pow256(4) == TOKEN_LIMIT && Pow256(8) == TOKEN_LIMIT * TOKEN_LIMIT;
    hide ToLE, FromLE, Pow256, Cell, Window;
    var w, v := Window(mem, at, HEADER), Window(mem, at, TOKEN_AT + 4);
    assert forall k :: 0 <= k < TOKEN_AT + 4 ==> w[k] == v[k];
    assert w[SIZE_AT..SIZE_AT + 8] == v[SIZE_AT..SIZE_AT + 8] == ToLE(size, 8);
    assert w[TOKEN_AT..TOKEN_AT + 4] == v[TOKEN_AT..TOKEN_AT + 4] == ToLE(token, 4);
  }

  /** The client lays out a synchronous call of one header under the next token. */
  lemma LayOut(init: State, before: seq<Step>, s: State, n: nat) returns (steps: seq<Step>, s': State)
    requires Outcome(init, before) == Some(s) && AtRest(s, n)
    ensures Outcome(init, steps) == Some(s') && SyncInv(s')
    ensures s' == s.(mem := s'.mem, reserved := HEADER) && |s'.mem| == |s.mem| > 0
    ensures SizeAt(s'.mem, s.head) == HEADER && TokenAt(s'.mem, s.head) == NextToken(n)
  {
    RestMeets(s, n);
    hide Outcome, SyncInv, ToLE, Cell, SizeAt, TokenAt, Window;
    steps, s' := Go(init, before, s, AskSpace(HEADER));
    steps, s' := Go(init, steps, s', PollSpace);
    steps, s' := PutBytes(init, steps, s', SIZE_AT, ToLE(HEADER, 8));
    steps, s' := PutBytes(init, steps, s', TOKEN_AT, ToLE(NextToken(n), 4));
    HeaderIs(s'.mem, s.head, Window(s.mem, s.head, SIZE_AT), HEADER, NextToken(n));
  }

  /** It commits the call and waits. */
  lemma Commit(init: State, before: seq<Step>, s: State, token: nat) returns (steps: seq<Step>, s': State)
    requires Outcome(init, before) == Some(s) && SyncInv(s) && s.Length() > 0 && s.server.ReadFill?
    requires s.fill == 0 && s.reserved == HEADER && s.client.Building? && 0 < token < TOKEN_LIMIT
    requires token == s.clientToken + 1 && SizeAt(s.mem, s.head) == HEADER && TokenAt(s.mem, s.head) == token
    ensures Outcome(init, steps) == Some(s') && SyncInv(s')
    ensures s'.mem == s.mem && s'.tail == s.tail && s'.fill == HEADER && s'.reserved == 0
    ensures s'.client == CheckToken(token) && s'.server == s.server && s'.clientToken == token
  {
    hide Outcome, SyncInv, SizeAt, TokenAt, Cell, Window;
    steps, s' := Go(init, before, s, BeginSync);
    steps, s' := Go(init, steps, s', UpdateHead);
    steps, s' := Go(init, steps, s', Publish);
    assert s'.fill == HEADER && s'.client == Compare(s.head, token);
    steps, s' := Go(init, steps, s', CompareFill);
    steps, s' := Go(init, steps, s', WakeServer);
  }

  /** The server handles and acknowledges it. */
  lemma Serve(init: State, before: seq<Step>, s: State, token: nat) returns (steps: seq<Step>, s': State)
    requires Outcome(init, before) == Some(s) && SyncInv(s) && s.Length() > 0 && s.server.ReadFill?
    requires s.fill == HEADER && SizeAt(s.mem, s.tail) == HEADER && TokenAt(s.mem, s.tail) == token != 0
    ensures Outcome(init, steps) == Some(s') && SyncInv(s')
    ensures s'.fill == 0 && s'.reserved == s.reserved && s'.lastToken == token && s'.Length() > 0
    ensures s'.client == s.client && s'.server.ReadFill? && s'.clientToken == s.clientToken
  {
    hide Outcome, SyncInv, SizeAt, TokenAt, Cell, Window;
    steps, s' := Go(init, before, s, PollFill);
    steps, s' := Go(init, steps, s', BeginHandler);
    steps, s' := Go(init, steps, s', EndHandler);
    steps, s' := Go(init, steps, s', UpdateTail);
    steps, s' := Go(init, steps, s', Release);
    steps, s' := Go(init, steps, s', TestReadToken);
    assert s'.server == SetToken(s.tail) && s'.mem == s.mem;
    steps, s' := Go(init, steps, s', StoreToken);
    steps, s' := Go(init, steps, s', WakeClient);
  }

  lemma CommitAndServe(init: State, before: seq<Step>, s: State, token: nat)
    returns (steps: seq<Step>, s': State)
    requires Outcome(init, before) == Some(s) && SyncInv(s) && s.Length() > 0 && s.server.ReadFill?
    requires s.fill == 0 && s.reserved == HEADER && s.client.Building? && 0 < token < TOKEN_LIMIT
    requires token == s.clientToken + 1 && SizeAt(s.mem, s.head) == HEADER && TokenAt(s.mem, s.head) == token
    requires s.head == s.tail
    ensures Outcome(init, steps) == Some(s') && SyncInv(s') && s'.Length() > 0
    ensures s'.client == CheckToken(token) && s'.fill == 0 && s'.reserved == 0
    ensures s'.lastToken == token == s'.clientToken && s'.server.ReadFill?
  {
    hide Outcome, SyncInv, SizeAt, TokenAt, Window;
    steps, s' := Commit(init, before, s, token);
    steps, s' := Serve(init, steps, s', token);
  }

  /** The client finds its token acknowledged and returns. */
  lemma Return(init: State, before: seq<Step>, s: State, token: nat) returns (steps: seq<Step>, s': State)
    requires Outcome(init, before) == Some(s) && SyncInv(s) && s.client == CheckToken(token)
    requires s.fill == 0 && s.reserved == 0 && s.lastToken == token == s.clientToken && s.server.ReadFill?
    requires s.Length() > 0
    ensures Outcome(init, steps) == Some(s') && AtRest(s', token)
  {
    hide Outcome, SyncInv;
    steps, s' := Go(init, before, s, TestToken);
  }

  /** One synchronous call from start to end raises the counter by one and leaves the queue at rest. */
  lemma OneCall(init: State, before: seq<Step>, s: State, n: nat) returns (steps: seq<Step>, s': State)
    requires Outcome(init, before) == Some(s) && AtRest(s, n) && n + 1 < TOKEN_LIMIT
    ensures Outcome(init, steps) == Some(s') && AtRest(s', n + 1)
  {
    RestMeets(s, n);
    hide Outcome, SyncInv, SizeAt, TokenAt, Cell;
    assert s.client.Building? && s.server.ReadFill? && s.fill == 0 && s.clientToken == n;
    assert NextToken(n) == n + 1;
    hide AtRest, NextToken, BumpedCounter, Window;
    steps, s' := LayOut(init, before, s, n);
    steps, s' := CommitAndServe(init, steps, s', n + 1);
    steps, s' := Return(init, steps, s', n + 1);
  }

  /** Every value of the counter is reached, by that many calls one after the other. */
  lemma {:induction false} ManyCalls(n: nat) returns (steps: seq<Step>, s: State)
    requires n < TOKEN_LIMIT
    ensures Outcome(Start(), steps) == Some(s) && AtRest(s, n)
    decreases n
  {
    if n == 0 {
      steps, s := [], Start();
      SyncInit(s);
    } else {
      steps, s := ManyCalls(n - 1);
      steps, s := OneCall(Start(), steps, s, n - 1);
    }
  }

  // ----- The counter's end -----

  /** Tokens count up by one, are never zero, and begin at one again behind the largest. */
  lemma TokensIssued(counter: nat)
    requires counter <= 0xFFFF_FFFF
    ensures BumpedCounter(counter) == if counter == 0xFFFF_FFFF then 0 else counter + 1
    ensures NextToken(counter) == if counter == 0xFFFF_FFFF then 1 else counter + 1
  {
  }

  /**
   Whenever the last acknowledged token is not below the one a call is about to get, the client returns
   from that call in at most six steps of its own, before the server has done anything about it.
   */
  lemma OvertakenCallReturnsEarly(init: State, before: seq<Step>, s: State)
    returns (steps: seq<Step>, end: State)
    requires Outcome(init, before) == Some(s) && Inv(s)
    requires Committable(s, NextToken(s.clientToken)) && s.lastToken >= NextToken(s.clientToken)
    ensures Outcome(init, steps) == Some(end)
    ensures before < steps && |steps| <= |before| + 6
    ensures steps[|before|] == BeginSync && steps[|steps| - 1] == TestToken
    ensures end.client.Building? && end.server == s.server
    ensures |end.hist.log.committed| == |s.hist.log.committed| + 1 && end.hist.handled == s.hist.handled
    ensures end.clientToken == BumpedCounter(s.clientToken) && end.lastToken == s.lastToken
  {
    hide Outcome, Window, TokenOf, SizeOf, FromLE;
    steps, end := Extend(init, before, s, BeginSync);
    StepKeeps(s, BeginSync);
    var a := end;
    steps, end := Extend(init, steps, end, UpdateHead);
    StepKeeps(a, UpdateHead);
    var b := end;
    steps, end := Extend(init, steps, end, Publish);
    StepKeeps(b, Publish);
    steps, end := Extend(init, steps, end, CompareFill);
    if end.client.PostServer? {
      steps, end := Extend(init, steps, end, WakeServer);
    }
    steps, end := Extend(init, steps, end, TestToken);
  }

  /**
   Without the second hypothesis the promise fails too: after 2^32 - 1 synchronous calls, all of them
   handled, the next one gets token 1, and in this run it returns unhandled.
   */
  lemma WrapReturnsEarly() returns (states: seq<State>, steps: seq<Step>)
    ensures Run(states, steps) && |steps| > 0
    ensures steps[|steps| - 1].TestToken? && states[|steps|].client.Building?
    ensures states[|steps|].hist.handled < states[|steps|].hist.log.committed
    ensures states[|steps|].clientToken == 0 && states[|steps|].lastToken == TOKEN_LIMIT - 1
  {
    var n, s := TOKEN_LIMIT - 1, Start();
    hide Outcome, SyncInv, Inv, SizeAt, TokenAt, Run;
    steps, s := ManyCalls(n);
    RestMeets(s, n);
    steps, s := LayOut(Start(), steps, s, n);
    NothingUnqueuedHandled(s);
    var end;
    steps, end := OvertakenCallReturnsEarly(Start(), steps, s);
    states := OutcomeRun(Start(), steps);
    FifoRefinement(states, steps, |steps|);
  }

  lemma NothingUnqueuedHandled(s: State)
    requires SyncInv(s)
    ensures Inv(s) && |s.hist.handled| <= |s.hist.log.committed|
  {
  }
}
