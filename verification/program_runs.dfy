/** Programs of the client are performed: from every state with room enough there is a run that does it. */
module ProgramRuns {
  import opened Bytes
  import opened ClientProgram
  import opened CommandQueue
  import opened QueueSafety

  /**
   The client can carry the program out in `room` bytes: it stores nothing behind what it has committed
   and nothing beyond the room, and all its commands are asynchronous.
   */
  ghost predicate Feasible(actions: seq<Action>, commands: seq<seq<Byte>>, room: nat) {
    if actions == [] then commands == [] else
      var n := |actions| - 1;
      match actions[n]
      case Put(at, _) => Feasible(actions[..n], commands, room) && TotalSize(commands) <= at < room
      case Commit(sync) =>
        && !sync && commands != []
        && var m := |commands| - 1;
           && Feasible(actions[..n], commands[..m], room) && |commands[m]| >= HEADER && TokenOf(commands[m]) == 0
           && TotalSize(commands) <= room
  }

  /** Since time `t0` the client alone took steps, has performed these actions, and may go on. */
  ghost predicate Performed(states: seq<State>, steps: seq<Step>, t0: nat, actions: seq<Action>, room: nat) {
    && Run(states, steps) && t0 <= |steps| && !InCommit(states[t0])
    && Actions(states, steps, t0, |steps|) == actions
    && states[|steps|].client.Building? && states[|steps|].hist.released == states[t0].hist.released
    && states[t0].hist.headPos + room <= states[|steps|].hist.headPos + states[|steps|].reserved
    && forall i {:trigger steps[i]} :: t0 <= i < |steps| ==> !steps[i].RewriteByte?
  }

  /** What was performed up to some time does not depend on what comes later. */
  lemma {:induction false} ActionsOfPrefix(states: seq<State>, steps: seq<Step>, states': seq<State>, steps': seq<Step>,
                                           t0: nat, t: nat)
    requires |states| == |steps| + 1 && |states'| == |steps'| + 1 && states <= states' && steps <= steps'
    requires t0 <= t < |states|
    ensures Actions(states', steps', t0, t) == Actions(states, steps, t0, t)
    decreases t
  {
    if t0 < t {
      ActionsOfPrefix(states, steps, states', steps', t0, t - 1);
    }
  }

  /** One step more of the client. */
  lemma Further(states: seq<State>, steps: seq<Step>, t0: nat, step: Step)
    returns (states': seq<State>, steps': seq<Step>)
    requires Run(states, steps) && t0 <= |steps| && !step.RewriteByte?
    requires states[|steps|].Length() > 0 && Enabled(states[|steps|], step)
    requires forall i {:trigger steps[i]} :: t0 <= i < |steps| ==> !steps[i].RewriteByte?
    ensures Run(states', steps') && states <= states' && steps <= steps' && |steps'| == |steps| + 1
    ensures states'[|steps'|] == After(states[|steps|], step)
    ensures Actions(states', steps', t0, |steps'|)
            == Actions(states, steps, t0, |steps|) + ActionOf(states[|steps|], step, states[t0].hist.headPos)
    ensures forall i {:trigger steps'[i]} :: t0 <= i < |steps'| ==> !steps'[i].RewriteByte?
  {
    hide After, Enabled, Init, Run, ActionOf;
    OneMoreState(states, steps);
    states', steps' := states + [After(states[|steps|], step)], steps + [step];
    RunExtends(states, steps, step, states', steps');
    ActionsOfPrefix(states, steps, states', steps', t0, |steps|);
  }

  lemma OneMoreState(states: seq<State>, steps: seq<Step>)
    requires Run(states, steps)
    ensures |states| == |steps| + 1
  {
  }

  /** Where `head` is between two commands. */
  lemma HeadFollows(states: seq<State>, steps: seq<Step>, t0: nat, actions: seq<Action>, commands: seq<seq<Byte>>,
                    room: nat)
    requires Performed(states, steps, t0, actions, room) && Builds(actions, commands)
    ensures Inv(states[|steps|])
    ensures states[|steps|].hist.headPos == states[t0].hist.headPos + TotalSize(commands)
  {
    hide Builds, TotalSize, Actions;
    RunKeeps(states, steps, |steps|);
    CommitsFollow(states, steps, t0, |steps|, commands);
  }

  lemma PutPerformed(states: seq<State>, steps: seq<Step>, t0: nat, actions: seq<Action>, commands: seq<seq<Byte>>,
                     room: nat, at: int, value: Byte)
    returns (states': seq<State>, steps': seq<Step>)
    requires Performed(states, steps, t0, actions, room) && Builds(actions, commands)
    requires TotalSize(commands) <= at < room
    ensures Performed(states', steps', t0, actions + [Put(at, value)], room)
    ensures states <= states' && steps <= steps'
  {
    hide Builds, TotalSize, Actions;
    HeadFollows(states, steps, t0, actions, commands, room);
    var s := states[|steps|];
    hide Inv, Run;
    states', steps' := Further(states, steps, t0, WriteByte(states[t0].hist.headPos + at - s.hist.headPos, value));
  }

  lemma CommitPerformed(states: seq<State>, steps: seq<Step>, t0: nat, actions: seq<Action>, commands: seq<seq<Byte>>,
                        room: nat, command: seq<Byte>)
    returns (states': seq<State>, steps': seq<Step>)
    requires Performed(states, steps, t0, actions, room) && Builds(actions, commands)
    requires IsCommand(command) && TokenOf(command) == 0 && TotalSize(commands) + |command| <= room
    requires Holds(LaidOut(actions), TotalSize(commands), command)
    ensures Performed(states', steps', t0, actions + [Commit(false)], room)
    ensures states <= states' && steps <= steps'
  {
    hide Builds, TotalSize, Actions, Holds, LaidOut, TokenOf, SizeOf, Window, Cell, TokenAt, SizeAt;
    HeadFollows(states, steps, t0, actions, commands, room);
    LaidOutIsCommittable(states, steps, t0, actions, commands, room, command);
    hide Inv, Run;
    var s := states[|steps|];
    states', steps' := Further(states, steps, t0, BeginAsync);
    states', steps' := Further(states', steps', t0, UpdateHead);
    states', steps' := Further(states', steps', t0, Publish);
    states', steps' := Further(states', steps', t0, CompareFill);
    if states'[|steps'|].client.PostServer? {
      states', steps' := Further(states', steps', t0, WakeServer);
    }
  }

  lemma LaidOutIsCommittable(states: seq<State>, steps: seq<Step>, t0: nat, actions: seq<Action>,
                             commands: seq<seq<Byte>>, room: nat, command: seq<Byte>)
    requires Performed(states, steps, t0, actions, room) && Builds(actions, commands)
    requires IsCommand(command) && TokenOf(command) == 0 && TotalSize(commands) + |command| <= room
    requires Holds(LaidOut(actions), TotalSize(commands), command)
    ensures states[|steps|].Length() > 0 && Committable(states[|steps|], 0)
  {
    hide Builds, TotalSize, Actions, Holds, LaidOut, TokenOf, SizeOf, Window, Cell, TokenAt, SizeAt;
    HeadFollows(states, steps, t0, actions, commands, room);
    var s := states[|steps|];
    UnpublishedReads(states, steps, t0, |steps|, TotalSize(commands), command);
    HeaderLaidOut(s.mem, s.head, command);
    CommandIsHeader(command);
  }

  lemma CommandIsHeader(command: seq<Byte>)
    requires IsCommand(command)
    ensures |command| >= HEADER
  {
  }

  /** Whatever program is feasible in the room the client holds, there is a run in which it is performed. */
  lemma {:induction false} ProgramPerformed(states: seq<State>, steps: seq<Step>, t0: nat, actions: seq<Action>,
                                            commands: seq<seq<Byte>>, room: nat)
    returns (states': seq<State>, steps': seq<Step>)
    requires Performed(states, steps, t0, [], room) && Builds(actions, commands) && Feasible(actions, commands, room)
    ensures Performed(states', steps', t0, actions, room)
    ensures states <= states' && steps <= steps'
    decreases |actions|
  {
    if actions == [] {
      states', steps' := states, steps;
    } else {
      var n := |actions| - 1;
      assert actions == actions[..n] + [actions[n]];
      hide Performed, Holds, LaidOut, TokenOf, IsCommand;
      match actions[n]
      case Put(at, value) =>
        states', steps' := ProgramPerformed(states, steps, t0, actions[..n], commands, room);
        states', steps' := PutPerformed(states', steps', t0, actions[..n], commands, room, at, value);
      case Commit(sync) =>
        var m := |commands| - 1;
        states', steps' := ProgramPerformed(states, steps, t0, actions[..n], commands[..m], room);
        states', steps' := CommitPerformed(states', steps', t0, actions[..n], commands[..m], room, commands[m]);
    }
  }

  /** Room is given to the client whenever so much of the ring is free. */
  lemma RoomGiven(states: seq<State>, steps: seq<Step>, room: nat)
    returns (states': seq<State>, steps': seq<Step>)
    requires Run(states, steps) && states[|steps|].client.Building?
    requires 0 < room && states[|steps|].fill + room <= states[|steps|].Length()
    ensures Performed(states', steps', |steps|, [], room)
    ensures states <= states' && steps <= steps'
  {
    RunKeeps(states, steps, |steps|);
    hide Run;
    var t0 := |steps|;
    states', steps' := Further(states, steps, t0, AskSpace(room));
    states', steps' := Further(states', steps', t0, PollSpace);
  }
}
