/** What keeps the bytes of the ring as they are, over a run. */
module QueueBytes {
  import opened Bytes
  import opened CommandQueue
  import opened QueueSafety

  /** The step stores to absolute position `p`. */
  ghost predicate Touches(s: State, step: Step, p: nat) {
    match step
    case WriteByte(offset, _) => s.hist.headPos + offset == p
    case RewriteByte(offset, _) => s.hist.tailPos + offset == p
    case _ => false
  }

  /** Released bytes stay released, and the client's horizon never moves back. */
  lemma StepMovesForward(s: State, step: Step)
    requires Inv(s) && Enabled(s, step)
    ensures s.hist.released <= After(s, step).hist.released
    ensures s.hist.headPos <= After(s, step).hist.headPos
    ensures s.hist.headPos + s.reserved <= After(s, step).hist.headPos + After(s, step).reserved
  {
  }

  /** One step keeps every byte that is in use and that it does not store to. */
  lemma ByteKept(s: State, step: Step, p: nat)
    requires Inv(s) && Enabled(s, step) && !Touches(s, step, p)
    requires s.hist.released <= p < s.hist.headPos + s.reserved
    ensures After(s, step).mem[Cell(s.Length(), p)] == s.mem[Cell(s.Length(), p)]
    ensures After(s, step).Length() == s.Length()
  {
    match step
    case WriteByte(offset, value) =>
      CellOfCell(s.Length(), s.hist.headPos, offset);
      StoreElsewhere(s.mem, s.hist.headPos + offset, value, p);
    case RewriteByte(offset, value) =>
      CellOfCell(s.Length(), s.hist.tailPos, offset);
      HeaderOf(s, s.hist.passed);
      assert FramedAt(s.hist.log, s.hist.passed);
      StoreElsewhere(s.mem, s.hist.tailPos + offset, value, p);
    case _ =>
  }

  /** Over any stretch of a run, a byte in use that nobody stores to and nobody releases stays. */
  lemma {:induction false} BytePersists(states: seq<State>, steps: seq<Step>, i: nat, j: nat, p: nat)
    requires Run(states, steps) && i <= j < |states|
    requires p < states[i].hist.headPos + states[i].reserved && states[j].hist.released <= p
    requires forall k {:trigger steps[k]} :: i <= k < j ==> !Touches(states[k], steps[k], p)
    ensures states[i].Length() == states[j].Length() > 0
    ensures states[j].mem[Cell(states[j].Length(), p)] == states[i].mem[Cell(states[i].Length(), p)]
    ensures p < states[j].hist.headPos + states[j].reserved && states[i].hist.headPos <= states[j].hist.headPos
    decreases j - i
  {
    RunKeeps(states, steps, i);
    if i < j {
      RunKeeps(states, steps, j - 1);
      var s, step := states[j - 1], steps[j - 1];
      assert states[j] == After(s, step);
      StepMovesForward(s, step);
      BytePersists(states, steps, i, j - 1, p);
      ByteKept(s, step, p);
    }
  }

  /** Once `head` has passed a position, the client itself no longer stores to it. */
  lemma {:induction false} HeadPassed(states: seq<State>, steps: seq<Step>, i: nat, j: nat)
    requires Run(states, steps) && i <= j < |states|
    ensures states[i].hist.headPos <= states[j].hist.headPos
    decreases j - i
  {
    if i < j {
      HeadPassed(states, steps, i, j - 1);
      RunKeeps(states, steps, j - 1);
      assert states[j] == After(states[j - 1], steps[j - 1]);
      StepMovesForward(states[j - 1], steps[j - 1]);
    }
  }
}
