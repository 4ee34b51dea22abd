/**
 What the client lays out and commits, taken by itself: a program of stores and commits. In every run
 that performs a program, whatever the server does in between, the commands that the program builds
 are the commands that join the queue, and laid-out bytes stay until their slot is released.
 */
module ClientProgram {
  import opened Bytes
  import opened CommandQueue
  import opened QueueBytes
  import opened QueueSafety

  /** Positions are counted from where `head` was when the program began. */
  datatype Action = Put(at: int, value: Byte) | Commit(sync: bool)

  /** What a step of the machine performs of a program that began at absolute position `base`. */
  function ActionOf(s: State, step: Step, base: nat): seq<Action> {
    match step
    case WriteByte(offset, value) => [Put(s.hist.headPos + offset - base, value)]
    case BeginAsync => [Commit(false)]
    case BeginSync => [Commit(true)]
    case _ => []
  }

  /** All that the client has performed between two times; the server's steps perform nothing. */
  function Actions(states: seq<State>, steps: seq<Step>, t0: nat, t: nat): seq<Action>
    requires t0 <= t < |states| && |states| == |steps| + 1
  {
    if t == t0 then []
    else Actions(states, steps, t0, t - 1) + ActionOf(states[t - 1], steps[t - 1], states[t0].hist.headPos)
  }

  // ----- Programs by themselves -----

  /** The bytes a program has laid out, the last store to a place winning. */
  function LaidOut(actions: seq<Action>): map<int, Byte> {
    if actions == [] then map[] else
      var n := |actions| - 1;
      match actions[n]
      case Put(at, value) => LaidOut(actions[..n])[at := value]
      case Commit(_) => LaidOut(actions[..n])
  }

  /** The bytes at `at` and behind it are exactly these. */
  ghost predicate Holds(bytes: map<int, Byte>, at: int, content: seq<Byte>) {
    forall i {:trigger content[i]} :: 0 <= i < |content| ==> ByteAt(bytes, at + i) == content[i]
  }

  /** The byte laid out at a place, -1 if there is none. */
  function ByteAt(bytes: map<int, Byte>, p: int): int {
    if p in bytes then bytes[p] else -1
  }

  /**
   The program builds these commands, one behind the other: at every commit a whole command has been
   laid out where the last one ended, and its size field says how long it is.
   */
  ghost predicate Builds(actions: seq<Action>, commands: seq<seq<Byte>>) {
    if actions == [] then commands == [] else
      var n := |actions| - 1;
      match actions[n]
      case Put(_, _) => Builds(actions[..n], commands)
      case Commit(_) =>
        && commands != []
        && var m := |commands| - 1;
           Builds(actions[..n], commands[..m]) && IsCommand(commands[m])
           && Holds(LaidOut(actions[..n]), TotalSize(commands[..m]), commands[m])
  }

  ghost predicate IsCommand(command: seq<Byte>) {
    |command| >= HEADER && SizeOf(command) == |command|
  }

  function TotalSize(commands: seq<seq<Byte>>): nat {
    if commands == [] then 0 else TotalSize(commands[..|commands| - 1]) + |commands[|commands| - 1]|
  }

  // ----- Laid-out bytes on the machine -----

  lemma LaidOutMore(actions: seq<Action>, a: Action)
    ensures LaidOut(actions + [a]) == if a.Put? then LaidOut(actions)[a.at := a.value] else LaidOut(actions)
  {
    assert (actions + [a])[..|actions|] == actions;
  }

  /** One step lays out at most one byte. */
  lemma BytesNext(states: seq<State>, steps: seq<Step>, t0: nat, t: nat)
    requires t0 <= t < |steps| && |states| == |steps| + 1
    ensures LaidOut(Actions(states, steps, t0, t + 1)) ==
      if steps[t].WriteByte? then
        LaidOut(Actions(states, steps, t0, t))
          [states[t].hist.headPos + steps[t].offset - states[t0].hist.headPos := steps[t].value]
      else LaidOut(Actions(states, steps, t0, t))
  {
    hide LaidOut;
    var before, more := Actions(states, steps, t0, t), ActionOf(states[t], steps[t], states[t0].hist.headPos);
    assert Actions(states, steps, t0, t + 1) == before + more;
    if more == [] {
      assert before + more == before;
    } else {
      LaidOutMore(before, more[0]);
    }
  }

  /** No handler stores to absolute position `q` between two times. */
  ghost predicate LeftAlone(states: seq<State>, steps: seq<Step>, t0: nat, t: nat, q: int)
    requires t <= |steps| && |states| == |steps| + 1
  {
    forall k {:trigger steps[k]} :: t0 <= k < t && steps[k].RewriteByte? ==>
      states[k].hist.tailPos + steps[k].offset != q
  }

  /** Absolute position `q` is in use and shows `value`. */
  ghost predicate Shows(s: State, q: int, value: Byte) {
    0 <= q < s.hist.headPos + s.reserved && s.Length() > 0 && s.mem[Cell(s.Length(), q)] == value
  }

  lemma StoreShows(s: State, offset: nat, value: Byte)
    requires Inv(s) && Enabled(s, WriteByte(offset, value))
    ensures Shows(After(s, WriteByte(offset, value)), s.hist.headPos + offset, value)
  {
    CellOfCell(s.Length(), s.hist.headPos, offset);
  }

  lemma StepShows(s: State, step: Step, q: int, value: Byte)
    requires Inv(s) && Enabled(s, step) && Shows(s, q, value) && After(s, step).hist.released <= q
    requires step.WriteByte? ==> s.hist.headPos + step.offset != q
    requires step.RewriteByte? ==> s.hist.tailPos + step.offset != q
    ensures Shows(After(s, step), q, value)
  {
    hide After, Enabled, Inv;
    StepMovesForward(s, step);
    ByteKept(s, step, q);
  }

  /**
   A byte laid out by the program stays in its place, through whatever the server does, until its
   position is released, unless a handler stores there. It has not been committed yet, or it has.
   */
  lemma {:induction false} LaidOutStays(states: seq<State>, steps: seq<Step>, t0: nat, t: nat, p: int)
    requires Run(states, steps) && t0 <= t < |states|
    requires p in LaidOut(Actions(states, steps, t0, t))
    requires states[t].hist.released <= states[t0].hist.headPos + p
    requires LeftAlone(states, steps, t0, t, states[t0].hist.headPos + p)
    ensures p >= 0
    ensures Shows(states[t], states[t0].hist.headPos + p, LaidOut(Actions(states, steps, t0, t))[p])
    decreases t
  {
    hide After, Enabled, Inv, Shows, LaidOut;
    if t == t0 {
      NothingLaidOut(states, steps, t0);
      assert false;
    } else {
      var s, step, q := states[t - 1], steps[t - 1], states[t0].hist.headPos + p;
      RunKeeps(states, steps, t - 1);
      assert Taken(states, steps, t - 1);
      StepMovesForward(s, step);
      HeadPassed(states, steps, t0, t - 1);
      BytesNext(states, steps, t0, t - 1);
      if step.WriteByte? && s.hist.headPos + step.offset == q {
        StoreShows(s, step.offset, step.value);
      } else {
        LaidOutStays(states, steps, t0, t - 1, p);
        StepShows(s, step, q, LaidOut(Actions(states, steps, t0, t))[p]);
      }
    }
  }

  lemma NothingLaidOut(states: seq<State>, steps: seq<Step>, t0: nat)
    requires t0 < |states| == |steps| + 1
    ensures LaidOut(Actions(states, steps, t0, t0)) == map[]
  {
  }

  // ----- Commits on the machine -----

  /** A command has been begun and is not published yet. */
  predicate InCommit(s: State) {
    s.client.MoveHead? || s.client.AddFill?
  }

  /**
   The machine has committed what the program has built so far; its last command may still be on the
   way, with `head` not moved or with `fill` not raised.
   */
  ghost predicate Follows(s: State, base: nat, before: seq<seq<Byte>>, commands: seq<seq<Byte>>) {
    if InCommit(s) then
      && commands != []
      && var m := |commands| - 1;
         && s.client.size == |commands[m]|
         && s.hist.log.committed == before + commands[..m]
         && s.hist.headPos == base + TotalSize(if s.client.MoveHead? then commands[..m] else commands)
    else
      s.hist.log.committed == before + commands && s.hist.headPos == base + TotalSize(commands)
  }

  /** Nobody but the client stores to bytes that have not joined the queue. */
  lemma {:induction false} UnpublishedLeftAlone(states: seq<State>, steps: seq<Step>, t0: nat, t: nat, q: int)
    requires Run(states, steps) && t0 <= t < |states| && |states[t].hist.log.stream| <= q
    ensures LeftAlone(states, steps, t0, t, q)
    ensures states[t].hist.released <= q
    decreases t
  {
    hide After, Enabled;
    RunKeeps(states, steps, t);
    if t > t0 {
      var s, step := states[t - 1], steps[t - 1];
      RunKeeps(states, steps, t - 1);
      assert Taken(states, steps, t - 1);
      StreamGrows(s, step);
      UnpublishedLeftAlone(states, steps, t0, t - 1, q);
      if step.RewriteByte? {
        RewritesQueued(s, step);
      }
    }
  }

  lemma RewritesQueued(s: State, step: Step)
    requires Inv(s) && Enabled(s, step) && step.RewriteByte?
    ensures s.hist.tailPos + step.offset < |s.hist.log.stream|
  {
    HeaderOf(s, s.hist.passed);
    assert FramedAt(s.hist.log, s.hist.passed);
  }

  lemma StreamGrows(s: State, step: Step)
    requires Inv(s) && Enabled(s, step)
    ensures |s.hist.log.stream| <= |After(s, step).hist.log.stream|
  {
  }

  /** Bytes laid out that have not joined the queue stand in the ring, read through the mirror. */
  lemma UnpublishedReads(states: seq<State>, steps: seq<Step>, t0: nat, t: nat, at: nat, content: seq<Byte>)
    requires Run(states, steps) && t0 <= t < |states| && states[t].Length() > 0
    requires Holds(LaidOut(Actions(states, steps, t0, t)), at, content)
    requires |states[t].hist.log.stream| <= states[t0].hist.headPos + at
    ensures Window(states[t].mem, Cell(states[t].Length(), states[t0].hist.headPos + at), |content|) == content
  {
    hide Enabled, After, Cell, LaidOut, LeftAlone;
    var mem, q := states[t].mem, states[t0].hist.headPos + at;
    WindowOfCell(mem, q, |content|);
    var w := Window(mem, q, |content|);
    forall i | 0 <= i < |content| ensures w[i] == content[i] {
      assert ByteAt(LaidOut(Actions(states, steps, t0, t)), at + i) == content[i];
      UnpublishedLeftAlone(states, steps, t0, t, q + i);
      LaidOutStays(states, steps, t0, t, at + i);
      assert w[i] == mem[Cell(|mem|, q + i)];
    }
  }

  /** `content` lies where the last command does while it is being committed. */
  ghost predicate InPlace(states: seq<State>, steps: seq<Step>, t0: nat, t: nat, commands: seq<seq<Byte>>)
    requires t0 <= t < |states| && |states| == |steps| + 1
  {
    InCommit(states[t]) && commands != [] ==>
      var m := |commands| - 1;
      IsCommand(commands[m]) && Holds(LaidOut(Actions(states, steps, t0, t)), TotalSize(commands[..m]), commands[m])
  }

  /** The client begins a commit: the size it reads is that of the command it has laid out. */
  lemma BeginFollows(states: seq<State>, steps: seq<Step>, t0: nat, t: nat, commands: seq<seq<Byte>>)
    requires Run(states, steps) && t0 <= t < |steps| && (steps[t].BeginAsync? || steps[t].BeginSync?)
    requires commands != []
    requires var m := |commands| - 1;
      && Follows(states[t], states[t0].hist.headPos, states[t0].hist.log.committed, commands[..m])
      && IsCommand(commands[m])
      && Holds(LaidOut(Actions(states, steps, t0, t)), TotalSize(commands[..m]), commands[m])
    ensures Follows(states[t + 1], states[t0].hist.headPos, states[t0].hist.log.committed, commands)
  {
    hide LaidOut, Holds, Framed, Stored, ServerPlace, Cell, SizeOf, TokenOf, Window;
    RunKeeps(states, steps, t);
    assert Taken(states, steps, t);
    var s, m := states[t], |commands| - 1;
    UnpublishedReads(states, steps, t0, t, TotalSize(commands[..m]), commands[m]);
    HeaderLaidOut(s.mem, s.head, commands[m]);
  }

  /** A command that lies in the ring is found there by its header. */
  lemma HeaderLaidOut(mem: seq<Byte>, at: nat, command: seq<Byte>)
    requires |mem| > 0 && IsCommand(command) && Window(mem, at, |command|) == command
    ensures SizeAt(mem, at) == |command| && TokenAt(mem, at) == TokenOf(command)
  {
    hide Window, SizeOf, TokenOf, Cell;
    assert Window(mem, at, HEADER) == command[..HEADER];
    SameHeader(Window(mem, at, HEADER), command);
  }

  /** What joins the queue is the command laid out. */
  lemma PublishFollows(states: seq<State>, steps: seq<Step>, t0: nat, t: nat, commands: seq<seq<Byte>>)
    requires Run(states, steps) && t0 <= t < |steps| && steps[t].Publish?
    requires Follows(states[t], states[t0].hist.headPos, states[t0].hist.log.committed, commands)
    requires InPlace(states, steps, t0, t, commands)
    ensures Follows(states[t + 1], states[t0].hist.headPos, states[t0].hist.log.committed, commands)
  {
    hide LaidOut, Holds, Framed, Stored, ServerPlace, Cell, SizeOf, TokenOf, Window;
    RunKeeps(states, steps, t);
    assert Taken(states, steps, t);
    var m := |commands| - 1;
    assert commands == commands[..m] + [commands[m]];
    hide After;
    UnpublishedReads(states, steps, t0, t, TotalSize(commands[..m]), commands[m]);
    PublishOne(states[t], states[t0].hist.headPos, states[t0].hist.log.committed, commands);
  }

  lemma PublishOne(s: State, base: nat, before: seq<seq<Byte>>, commands: seq<seq<Byte>>)
    requires s.Length() > 0 && Enabled(s, Publish) && Follows(s, base, before, commands)
    requires Window(s.mem, s.client.cmd, s.client.size) == commands[|commands| - 1]
    ensures Follows(After(s, Publish), base, before, commands)
  {
    hide Window, TotalSize;
    var m := |commands| - 1;
    assert before + commands == before + commands[..m] + [commands[m]];
  }

  lemma OtherStepFollows(s: State, step: Step, base: nat, before: seq<seq<Byte>>, commands: seq<seq<Byte>>)
    requires Inv(s) && Enabled(s, step) && Follows(s, base, before, commands)
    requires !step.BeginAsync? && !step.BeginSync? && !step.Publish?
    ensures Follows(After(s, step), base, before, commands)
    ensures InCommit(After(s, step)) ==> InCommit(s) && !step.WriteByte?
  {
    hide Inv;
    if step.UpdateHead? {
      var m := |commands| - 1;
      assert commands == commands[..m] + [commands[m]];
    }
  }

  /** The client begins a commit: the last of the commands built is the one laid out. */
  lemma BeginBuilds(states: seq<State>, steps: seq<Step>, t0: nat, t: nat, commands: seq<seq<Byte>>)
    requires t0 <= t < |steps| && |states| == |steps| + 1 && (steps[t].BeginAsync? || steps[t].BeginSync?)
    requires Builds(Actions(states, steps, t0, t + 1), commands)
    ensures commands != []
    ensures var m := |commands| - 1;
      && Builds(Actions(states, steps, t0, t), commands[..m]) && IsCommand(commands[m])
      && Holds(LaidOut(Actions(states, steps, t0, t)), TotalSize(commands[..m]), commands[m])
      && LaidOut(Actions(states, steps, t0, t + 1)) == LaidOut(Actions(states, steps, t0, t))
  {
    hide Builds, LaidOut, Holds, IsCommand, TotalSize;
    var a := ActionOf(states[t], steps[t], states[t0].hist.headPos)[0];
    BuildsLast(Actions(states, steps, t0, t), a, commands);
    LaidOutMore(Actions(states, steps, t0, t), a);
  }

  /** Any other step leaves built what was built; if it is no store, also laid out what was laid out. */
  lemma OtherBuilds(states: seq<State>, steps: seq<Step>, t0: nat, t: nat, commands: seq<seq<Byte>>)
    requires t0 <= t < |steps| && |states| == |steps| + 1 && !steps[t].BeginAsync? && !steps[t].BeginSync?
    requires Builds(Actions(states, steps, t0, t + 1), commands)
    ensures Builds(Actions(states, steps, t0, t), commands)
    ensures !steps[t].WriteByte? ==>
      LaidOut(Actions(states, steps, t0, t + 1)) == LaidOut(Actions(states, steps, t0, t))
  {
    hide Builds, LaidOut;
    var before := Actions(states, steps, t0, t);
    if steps[t].WriteByte? {
      BuildsLast(before, ActionOf(states[t], steps[t], states[t0].hist.headPos)[0], commands);
    } else {
      assert before + [] == before;
    }
  }

  /**
   Whatever commands a program builds, a run that performs it commits exactly these, in order, behind
   what was committed before, under every interleaving with the server.
   */
  lemma {:induction false} CommitsFollow(states: seq<State>, steps: seq<Step>, t0: nat, t: nat,
                                         commands: seq<seq<Byte>>)
    requires Run(states, steps) && t0 <= t < |states| && !InCommit(states[t0])
    requires Builds(Actions(states, steps, t0, t), commands)
    ensures Follows(states[t], states[t0].hist.headPos, states[t0].hist.log.committed, commands)
    ensures InPlace(states, steps, t0, t, commands)
    decreases t
  {
    hide Enabled, After, Follows, Inv, Builds, LaidOut, Holds, IsCommand, TotalSize, Actions;
    if t == t0 {
      assert Actions(states, steps, t0, t0) == [] by { NothingPerformed(states, steps, t0); }
      BuildsNothing(commands);
      StartFollows(states[t0]);
    } else {
      var s, step := states[t - 1], steps[t - 1];
      RunKeeps(states, steps, t - 1);
      assert Taken(states, steps, t - 1);
      if step.BeginAsync? || step.BeginSync? {
        BeginBuilds(states, steps, t0, t - 1, commands);
        CommitsFollow(states, steps, t0, t - 1, commands[..|commands| - 1]);
        BeginFollows(states, steps, t0, t - 1, commands);
      } else {
        OtherBuilds(states, steps, t0, t - 1, commands);
        CommitsFollow(states, steps, t0, t - 1, commands);
        if step.Publish? {
          PublishFollows(states, steps, t0, t - 1, commands);
          PublishEnds(s);
        } else {
          OtherStepFollows(s, step, states[t0].hist.headPos, states[t0].hist.log.committed, commands);
        }
      }
    }
  }

  lemma NothingPerformed(states: seq<State>, steps: seq<Step>, t0: nat)
    requires t0 < |states| && |states| == |steps| + 1
    ensures Actions(states, steps, t0, t0) == []
  {
  }

  lemma BuildsNothing(commands: seq<seq<Byte>>)
    requires Builds([], commands)
    ensures commands == []
  {
  }

  lemma BuildsLast(actions: seq<Action>, a: Action, commands: seq<seq<Byte>>)
    requires Builds(actions + [a], commands)
    ensures a.Put? ==> Builds(actions, commands)
    ensures a.Commit? ==>
      && commands != []
      && var m := |commands| - 1;
         Builds(actions, commands[..m]) && IsCommand(commands[m])
         && Holds(LaidOut(actions), TotalSize(commands[..m]), commands[m])
  {
    assert (actions + [a])[..|actions|] == actions;
  }

  lemma StartFollows(s: State)
    requires !InCommit(s)
    ensures Follows(s, s.hist.headPos, s.hist.log.committed, [])
  {
    assert s.hist.log.committed + [] == s.hist.log.committed;
  }

  lemma PublishEnds(s: State)
    requires s.Length() > 0 && Enabled(s, Publish)
    ensures !InCommit(After(s, Publish))
  {
  }
}
