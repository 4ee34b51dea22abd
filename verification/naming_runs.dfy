/** Runs that lead to a buffer bound to both targets, and what its deletion leaves behind. */
module NamingRuns {
  import NameHandler
  import opened NameTranslation
  import opened NamingEndToEnd
  import opened Sequences

  /** Nothing is queued, and cache and driver agree on what is bound. */
  ghost predicate Settled(states: seq<State>, steps: seq<Step>) {
    Run(states, steps) && var s := states[|steps|]; Inv(s) && BindingsAgree(s) && s.client.queue == []
  }

  lemma OneStepMore(states: seq<State>, steps: seq<Step>, step: Step)
    returns (states': seq<State>, steps': seq<Step>)
    requires Run(states, steps) && Enabled(states[|steps|], step)
    ensures Run(states', steps') && states <= states' && steps <= steps'
    ensures states'[|steps'|] == After(states[|steps|], step)
  {
    hide Start;
    states', steps' := states + [After(states[|steps|], step)], steps + [step];
    assert states'[0] == states[0];
    forall i | 0 <= i < |steps'|
      ensures Enabled(states'[i], steps'[i]) && states'[i + 1] == After(states'[i], steps'[i])
    {
      if i < |steps| {
        assert steps'[i] == steps[i];
      }
    }
  }

  /** A Bind, and the server follows if it was queued. */
  lemma BindAndServe(states: seq<State>, steps: seq<Step>, target: nat, name: nat)
    returns (states': seq<State>, steps': seq<Step>)
    requires Settled(states, steps) && name in states[|steps|].hist.live
    requires target == GL_ARRAY_BUFFER || target == GL_ELEMENT_ARRAY_BUFFER
    ensures Settled(states', steps') && states <= states' && steps <= steps'
    ensures var s, s' := states[|steps|], states'[|steps'|];
      && Believed(s'.client, target) == name && s'.hist.live == s.hist.live
      && (target == GL_ARRAY_BUFFER ==> s'.client.elementBound == s.client.elementBound)
      && (target != GL_ARRAY_BUFFER ==> s'.client.arrayBound == s.client.arrayBound)
  {
    hide Inv, BindingsAgree;
    var s := states[|steps|];
    states', steps' := states, steps;
    if Believed(s.client, target) != name {
      ClientStepKeeps(s, Bind(target, name));
      StepBindings(s, Bind(target, name));
      states', steps' := OneStepMore(states, steps, Bind(target, name));
      var m := states'[|steps'|];
      assert m.client.queue == [BindBuffer(target, name)] && Enabled(m, Serve([]));
      ServeKeeps(m, []);
      StepBindings(m, Serve([]));
      states', steps' := OneStepMore(states', steps', Serve([]));
    }
  }

  /** From every settled state a run goes on to bind a live buffer to both targets. */
  lemma BindToBoth(states: seq<State>, steps: seq<Step>, name: nat)
    returns (states': seq<State>, steps': seq<Step>)
    requires Settled(states, steps) && name in states[|steps|].hist.live
    ensures Settled(states', steps') && states <= states' && steps <= steps'
    ensures var s' := states'[|steps'|]; s'.client.arrayBound == s'.client.elementBound == name
    ensures states'[|steps'|].hist.live == states[|steps|].hist.live
  {
    hide Settled;
    states', steps' := BindAndServe(states, steps, GL_ARRAY_BUFFER, name);
    states', steps' := BindAndServe(states', steps', GL_ELEMENT_ARRAY_BUFFER, name);
  }

  /** There is a live name to begin with: the first Gen makes one. */
  lemma FirstName() returns (states: seq<State>, steps: seq<Step>)
    ensures Settled(states, steps) && 1 in states[|steps|].hist.live
  {
    var s := State(Client(NameHandler.Init(), 0, 0, []), map[], NamingEndToEnd.Driver({}, map[]),
                   NamingEndToEnd.History(map[], 0, [], map[], [], [], map[]));
    states, steps := [s], [];
    assert Run(states, steps);
    RunKeeps(states, steps, 0);
    RunBindings(states, steps, 0);
    StepBindings(s, Gen(1));
    states, steps := OneStepMore(states, steps, Gen(1));
    RunKeeps(states, steps, |steps|);
    StepBindings(states[|steps|], Serve([1]));
    states, steps := OneStepMore(states, steps, Serve([1]));
    RunKeeps(states, steps, |steps|);
  }

  /**
   In every run that has come to a settled state, and for every live name, things can go wrong: the run
   goes on to a state in which the client believes the name to be bound as element buffer, the driver has
   nothing bound there, and a Bind of the name, once it has been handed out again, reaches nobody.
   */
  lemma StaleReached(states: seq<State>, steps: seq<Step>, name: nat)
    returns (states': seq<State>, steps': seq<Step>)
    requires Settled(states, steps) && name in states[|steps|].hist.live
    ensures Run(states', steps') && states <= states' && steps <= steps'
    ensures var s := states'[|steps'|];
      && s.client.queue == [] && s.client.elementBound == name != 0 == At(s.driver.bound, 0x8893)
      && name in s.client.names.reusable && After(s, Bind(0x8893, name)) == s
  {
    LiveIsNotZero(states[|steps|], name);
    states', steps' := BindToBoth(states, steps, name);
    var s := states'[|steps'|];
    StaleElementBinding(s, name);
    hide Inv, BindingsAgree, After, Enabled;
    states', steps' := OneStepMore(states', steps', DeleteMany([name]));
    states', steps' := OneStepMore(states', steps', Serve([]));
  }

  lemma LiveIsNotZero(s: State, name: nat)
    requires Inv(s) && name in s.hist.live
    ensures name != 0
  {
  }
}
