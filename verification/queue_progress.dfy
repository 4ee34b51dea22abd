/** Wake-ups: nobody sleeps for ever on work that is there. */
module QueueProgress {
  import opened Bytes
  import opened CommandQueue
  import opened QueueSafety
  import opened QueueSync
  import opened Wrappers

  /** Asleep on a semaphore that nobody has posted. */
  predicate ServerBlocked(s: State) {
    s.server.AwaitWork? && s.serverSignal == 0
  }

  predicate ClientBlocked(s: State) {
    s.client.AwaitToken? && s.clientSignal == 0
  }

  /** The client is about to find `fill` equal to its command's size, or to post. */
  ghost predicate AboutToPost(s: State)
    requires s.Length() > 0
  {
    || (s.client.Compare? && s.fill == SizeAt(s.mem, s.client.cmd))
    || s.client.PostServer?
  }

  ghost predicate WakeInv(s: State) {
    && Inv(s)
    && (ServerBlocked(s) ==> s.fill == 0 || AboutToPost(s))
    && (s.client.AwaitSpace? ==> s.client.want <= s.Length())
  }

  lemma StepWakes(s: State, step: Step)
    requires WakeInv(s) && Enabled(s, step)
    ensures WakeInv(After(s, step))
  {
    StepKeeps(s, step);
  }

  lemma {:induction false} RunWakes(states: seq<State>, steps: seq<Step>, i: nat)
    requires Run(states, steps) && i < |states|
    ensures WakeInv(states[i])
  {
    if i == 0 {
      InitHolds(states[0]);
    } else {
      RunWakes(states, steps, i - 1);
      StepWakes(states[i - 1], steps[i - 1]);
    }
  }

  /** No lost wake-up: a server that sleeps next to queued work is about to be posted. */
  lemma NoLostWakeup(states: seq<State>, steps: seq<Step>, i: nat)
    requires Run(states, steps) && i < |states|
    requires ServerBlocked(states[i]) && states[i].fill != 0
    ensures states[i].Length() > 0 && AboutToPost(states[i])
  {
    RunWakes(states, steps, i);
  }

  /** The two threads never sleep at the same time, and a client short of space leaves the server awake. */
  lemma NeverBothStuck(states: seq<State>, steps: seq<Step>, i: nat)
    requires OrderlyRun(states, steps) && i < |states|
    requires ServerBlocked(states[i])
    ensures !ClientBlocked(states[i])
    ensures states[i].client.AwaitSpace? ==> states[i].Length() - states[i].fill >= states[i].client.want
  {
    RunWakes(states, steps, i);
    RunSyncs(states, steps, i);
    StuckServerFreesClient(states[i]);
  }

  lemma StuckServerFreesClient(s: State)
    requires WakeInv(s) && SyncInv(s) && ServerBlocked(s)
    ensures s.client.AwaitSpace? ==> s.fill == 0
    ensures s.client.AwaitToken? ==> s.clientSignal > 0 && s.lastToken >= s.client.token
  {
    if s.client.AwaitToken? {
      assert s.fill == 0;
      EmptyMeansPassed(s);
    }
  }

  /** An empty ring holds no unhandled command. */
  lemma EmptyMeansPassed(s: State)
    requires Inv(s)
    ensures s.fill == 0 ==> s.hist.passed == |s.hist.log.committed|
  {
    if s.hist.passed < |s.hist.log.committed| {
      assert FramedAt(s.hist.log, s.hist.passed);
    }
  }

  /** How often a step was taken. */
  function Count(steps: seq<Step>, step: Step): nat {
    if steps == [] then 0 else
      Count(steps[..|steps| - 1], step) + if steps[|steps| - 1] == step then 1 else 0
  }

  lemma StepPosts(s: State, step: Step)
    requires s.Length() > 0 && Enabled(s, step)
    ensures After(s, step).serverSignal
            == s.serverSignal + (if step.WakeServer? then 1 else 0) - (if step.TakeServerSignal? then 1 else 0)
    ensures After(s, step).clientSignal
            == s.clientSignal + (if step.WakeClient? then 1 else 0) - (if step.TakeClientSignal? then 1 else 0)
  {
    hide Window, SizeAt, TokenAt, Cell;
  }

  /** No post of either semaphore is lost or invented: each is taken once, or still there. */
  lemma {:induction false} PostsConserved(states: seq<State>, steps: seq<Step>, i: nat)
    requires Run(states, steps) && i < |states|
    ensures states[i].serverSignal + Count(steps[..i], TakeServerSignal) == Count(steps[..i], WakeServer)
    ensures states[i].clientSignal + Count(steps[..i], TakeClientSignal) == Count(steps[..i], WakeClient)
  {
    hide After, Enabled;
    if i > 0 {
      PostsConserved(states, steps, i - 1);
      assert Taken(states, steps, i - 1) && steps[..i][..i - 1] == steps[..i - 1];
      StepPosts(states[i - 1], steps[i - 1]);
    }
  }

  // ----- The server alone -----

  /** What the server does next when it is not asleep; handlers finish without further stores. */
  function ServerStep(s: State): Step {
    match s.server
    case ReadFill => PollFill
    case AwaitWork => TakeServerSignal
    case StartHandler(_) => BeginHandler
    case InHandler(_) => EndHandler
    case MoveTail(_, _) => UpdateTail
    case SubFill(_, _) => Release
    case ReadToken(_) => TestReadToken
    case SetToken(_) => StoreToken
    case PostClient => WakeClient
  }

  function Rank(pc: ServerPc): nat {
    match pc
    case SubFill(_, _) => 14
    case ReadToken(_) => 13
    case SetToken(_) => 12
    case PostClient => 11
    case ReadFill => 10
    case AwaitWork => 9
    case StartHandler(_) => 8
    case InHandler(_) => 7
    case MoveTail(_, _) => 6
  }

  /** How far the server is from falling asleep. */
  ghost function Work(s: State): nat
    requires Inv(s)
  {
    20 * (|s.hist.log.committed| - s.hist.passed) + 2 * s.serverSignal + Rank(s.server)
  }

  lemma ServerStepWorks(s: State)
    requires WakeInv(s) && SyncInv(s) && !ServerBlocked(s)
    ensures Enabled(s, ServerStep(s))
    ensures var s' := After(s, ServerStep(s));
      WakeInv(s') && SyncInv(s') && s'.client == s.client && s'.mem == s.mem && Work(s') < Work(s)
  {
    StepWakes(s, ServerStep(s));
    StepSyncs(s, ServerStep(s));
  }

  /**
   Left alone, the server works until it sleeps, and by then a client that was waiting can go on:
   the space it polls for is free, or its token has been acknowledged and its semaphore posted.
   */
  lemma {:induction false} ServerAloneFreesClient(s: State) returns (steps: seq<Step>, end: State)
    requires WakeInv(s) && SyncInv(s)
    ensures Outcome(s, steps) == Some(end)
    ensures ServerBlocked(end) && end.client == s.client && end.Length() == s.Length() > 0
    ensures s.client.AwaitSpace? ==> After(end, PollSpace).client.Building?
    ensures s.client.AwaitToken? ==>
      end.clientSignal > 0 && After(After(end, TakeClientSignal), TestToken).client.Building?
    decreases Work(s)
  {
    if ServerBlocked(s) {
      StuckServerFreesClient(s);
      steps, end := [], s;
    } else {
      ServerStepWorks(s);
      var step := ServerStep(s);
      var rest;
      rest, end := ServerAloneFreesClient(After(s, step));
      steps := [step] + rest;
      assert Outcome(s, [step]) == Some(After(s, step)) by {
        assert [step][..0] == [];
      }
      OutcomeAppend(s, [step], rest);
    }
  }

  // ----- Both threads -----

  /** Inside client_run_command or client_run_command_async. */
  predicate InCall(s: State) {
    !s.client.Building? && !s.client.AwaitSpace?
  }

  function ClientRank(pc: ClientPc): nat {
    match pc
    case MoveHead(_, _, _) => 71
    case AddFill(_, _, _) => 70
    case Compare(_, _) => 9
    case PostServer(_) => 8
    case CheckToken(_) => 1
    case _ => 0
  }

  /** How many steps there can be, stores of handlers aside, before the client returns from its call. */
  ghost function CallWork(s: State): nat
    requires Inv(s)
  {
    3 * Work(s) + 2 * s.clientSignal + ClientRank(s.client)
  }

  /** The steps of both threads from time `i` to time `j`, without the stores of handlers. */
  function Moves(steps: seq<Step>, i: nat, j: nat): nat
    requires i <= j <= |steps|
  {
    if i == j then 0 else Moves(steps, i, j - 1) + if steps[j - 1].RewriteByte? then 0 else 1
  }

  predicate IsClientStep(step: Step) {
    match step
    case AskSpace(_) => true
    case PollSpace => true
    case WriteByte(_, _) => true
    case BeginAsync => true
    case BeginSync => true
    case UpdateHead => true
    case Publish => true
    case CompareFill => true
    case WakeServer => true
    case TestToken => true
    case TakeClientSignal => true
    case _ => false
  }

  /** The server's alone. */
  function ServerMoves(steps: seq<Step>, i: nat, j: nat): nat
    requires i <= j <= |steps|
  {
    if i == j then 0
    else ServerMoves(steps, i, j - 1) + if steps[j - 1].RewriteByte? || IsClientStep(steps[j - 1]) then 0 else 1
  }

  /** A step of the server that is no store of a handler is the one step it can take, and uses up work. */
  lemma ServerMoveWorks(s: State, step: Step)
    requires Inv(s) && Enabled(s, step) && !IsClientStep(step)
    ensures Inv(After(s, step))
    ensures step.RewriteByte? ==> Work(After(s, step)) == Work(s)
    ensures !step.RewriteByte? ==> step == ServerStep(s) && Work(After(s, step)) < Work(s)
    ensures After(s, step).client == s.client
    ensures After(s, step).clientSignal == s.clientSignal + if step.WakeClient? then 1 else 0
  {
    StepKeeps(s, step);
    hide Framed, Stored, ClientPlace, Window, TokenAt, SizeAt, Cell;
  }

  lemma CallStepWorks(s: State, step: Step)
    requires Inv(s) && Enabled(s, step) && InCall(s) && InCall(After(s, step))
    ensures Inv(After(s, step))
    ensures CallWork(After(s, step)) + (if step.RewriteByte? then 0 else 1) <= CallWork(s)
  {
    StepKeeps(s, step);
    hide Framed, Stored, ClientPlace, ServerPlace, Positions, Window, TokenAt, SizeAt, Cell;
    if !IsClientStep(step) {
      ServerMoveWorks(s, step);
    }
  }

  lemma {:induction false} CallBounded(states: seq<State>, steps: seq<Step>, i: nat, j: nat)
    requires Run(states, steps) && i <= j < |states|
    requires forall k :: i <= k <= j ==> InCall(states[k])
    ensures Inv(states[i]) && Inv(states[j])
    ensures Moves(steps, i, j) + CallWork(states[j]) <= CallWork(states[i])
    decreases j
  {
    hide CallWork, Inv, InCall, After, Enabled;
    RunKeeps(states, steps, i);
    if i < j {
      CallBounded(states, steps, i, j - 1);
      assert Taken(states, steps, j - 1);
      assert InCall(states[j - 1]) && InCall(states[j]);
      CallStepWorks(states[j - 1], steps[j - 1]);
    }
  }

  /**
   Every call comes to its end, whatever the order in which the two threads take their steps: once more
   than so many steps have been taken that are no stores of handlers, the client has returned from it.
   */
  lemma CallReturns(states: seq<State>, steps: seq<Step>, i: nat, j: nat)
    requires Run(states, steps) && i <= j < |states| && InCall(states[i])
    ensures Inv(states[i])
    ensures Moves(steps, i, j) > CallWork(states[i]) ==>
      exists k {:trigger steps[k]} :: i <= k < j && InCall(states[k]) && states[k + 1].client.Building?
  {
    RunKeeps(states, steps, i);
    hide CallWork, Inv;
    if Moves(steps, i, j) > CallWork(states[i]) {
      if forall k :: i <= k <= j ==> InCall(states[k]) {
        CallBounded(states, steps, i, j);
      } else {
        var k := LeavesCall(states, steps, i, j);
        assert Taken(states, steps, k);
        CallEndsInBuilding(states[k], steps[k]);
      }
    }
  }

  lemma {:induction false} LeavesCall(states: seq<State>, steps: seq<Step>, i: nat, j: nat) returns (k: nat)
    requires |states| == |steps| + 1 && i <= j < |states| && InCall(states[i])
    requires !forall k :: i <= k <= j ==> InCall(states[k])
    ensures i <= k < j && InCall(states[k]) && !InCall(states[k + 1])
    decreases j
  {
    if InCall(states[j]) || !forall k :: i <= k <= j - 1 ==> InCall(states[k]) {
      k := LeavesCall(states, steps, i, j - 1);
    } else {
      k := j - 1;
    }
  }

  lemma CallEndsInBuilding(s: State, step: Step)
    requires s.Length() > 0 && Enabled(s, step) && InCall(s) && !InCall(After(s, step))
    ensures After(s, step).client.Building?
  {
  }

  /** And until then there is always such a step to take: the call cannot get stuck. */
  lemma CallGoesOn(states: seq<State>, steps: seq<Step>, i: nat) returns (step: Step)
    requires OrderlyRun(states, steps) && i < |states| && InCall(states[i])
    ensures states[i].Length() > 0 && Enabled(states[i], step) && !step.RewriteByte?
  {
    RunWakes(states, steps, i);
    RunSyncs(states, steps, i);
    var s := states[i];
    if ServerBlocked(s) {
      StuckServerFreesClient(s);
      step := match s.client
        case MoveHead(_, _, _) => UpdateHead
        case AddFill(_, _, _) => Publish
        case Compare(_, _) => CompareFill
        case PostServer(_) => WakeServer
        case CheckToken(_) => TestToken
        case _ => TakeClientSignal;
    } else {
      ServerStepWorks(s);
      step := ServerStep(s);
    }
  }

  lemma {:induction false} WaitBounded(states: seq<State>, steps: seq<Step>, i: nat, j: nat)
    requires Run(states, steps) && i <= j < |states|
    requires forall k :: i <= k <= j ==> states[k].client.AwaitSpace?
    ensures Inv(states[i]) && Inv(states[j])
    ensures ServerMoves(steps, i, j) + Work(states[j]) <= Work(states[i])
    decreases j
  {
    hide Inv, Work;
    RunKeeps(states, steps, i);
    if i < j {
      WaitBounded(states, steps, i, j - 1);
      assert Taken(states, steps, j - 1);
      var s, step := states[j - 1], steps[j - 1];
      if IsClientStep(step) {
        PollWorks(s, step);
      } else {
        ServerMoveWorks(s, step);
      }
    }
  }

  lemma PollWorks(s: State, step: Step)
    requires Inv(s) && Enabled(s, step) && IsClientStep(step) && s.client.AwaitSpace?
    ensures Inv(After(s, step)) && Work(After(s, step)) == Work(s)
  {
    StepKeeps(s, step);
  }

  /**
   Waiting for space comes to its end as well: the server cannot take more than so many steps that are
   no stores before it sleeps, and the poll succeeds at the latest when it does.
   */
  lemma WaitEnds(states: seq<State>, steps: seq<Step>, i: nat, j: nat)
    requires OrderlyRun(states, steps) && i <= j < |states|
    requires forall k :: i <= k <= j ==> states[k].client.AwaitSpace?
    ensures Inv(states[i]) && ServerMoves(steps, i, j) <= Work(states[i])
    ensures ServerBlocked(states[j]) ==>
      Enabled(states[j], PollSpace) && After(states[j], PollSpace).client.Building?
    ensures !ServerBlocked(states[j]) ==> Enabled(states[j], ServerStep(states[j]))
  {
    WaitBounded(states, steps, i, j);
    RunWakes(states, steps, j);
    RunSyncs(states, steps, j);
    if ServerBlocked(states[j]) {
      StuckServerFreesClient(states[j]);
    } else {
      ServerStepWorks(states[j]);
    }
  }
}
