/** What sequences of state calls come to: every value is the one given last, elided calls or not. */
module StateMeaning {
  import opened StateCache
  import opened Wrappers

  function SideOf(d: Driver, front: bool): Side {
    if front then d.front else d.back
  }

  /** A call is an error to the driver by the tables, or by the capabilities it knows. */
  lemma ErrorMeans(d: Driver, call: Call)
    ensures Invalid(d, call) <==> !InTables(call) || (call.SetCap? && call.cap !in d.known)
  {
  }

  /** One call: what it names takes its arguments, and nothing else changes. */
  lemma CallMeans(d: Driver, call: Call, front: bool, field: Field, cap: nat)
    ensures ValueOf(SideOf(Apply(d, call), front), field) ==
      if !call.SetCap? && InTables(call) && NamesFace(call.face, front) && Argument(call, field).Some?
      then Argument(call, field).value else ValueOf(SideOf(d, front), field)
    ensures cap in Apply(d, call).enabled <==>
      if call.SetCap? && call.cap == cap && cap in d.known then call.enable else cap in d.enabled
    ensures Apply(d, call).known == d.known
  {
  }

  /** What the last valid call that sets a field of a face gives to it. */
  function LastGiven(calls: seq<Call>, front: bool, field: Field): Option<int> {
    if calls == [] then None else
      var call := calls[|calls| - 1];
      if !call.SetCap? && InTables(call) && NamesFace(call.face, front) && Argument(call, field).Some?
      then Argument(call, field) else LastGiven(calls[..|calls| - 1], front, field)
  }

  /** Whether the last call about a capability enables it. */
  function LastEnabled(calls: seq<Call>, cap: nat): Option<bool> {
    if calls == [] then None else
      var call := calls[|calls| - 1];
      if call.SetCap? && call.cap == cap then Some(call.enable) else LastEnabled(calls[..|calls| - 1], cap)
  }

  /** After any calls every field holds what was last given to it, else what it held at the start. */
  lemma {:induction false} FieldsAfter(d: Driver, calls: seq<Call>, front: bool, field: Field)
    ensures ValueOf(SideOf(ApplyAll(d, calls), front), field) ==
      match LastGiven(calls, front, field)
      case Some(value) => value
      case None => ValueOf(SideOf(d, front), field)
  {
    hide Apply;
    if calls != [] {
      var n := |calls| - 1;
      FieldsAfter(d, calls[..n], front, field);
      CallMeans(ApplyAll(d, calls[..n]), calls[n], front, field, 0);
    }
  }

  lemma {:induction false} CapsAfter(d: Driver, calls: seq<Call>, cap: nat)
    requires cap in d.known
    ensures cap in ApplyAll(d, calls).enabled <==>
      match LastEnabled(calls, cap)
      case Some(on) => on
      case None => cap in d.enabled
  {
    hide Apply;
    if calls != [] {
      var n := |calls| - 1;
      CapsAfter(d, calls[..n], cap);
      KnownStays(d, calls[..n]);
      CallMeans(ApplyAll(d, calls[..n]), calls[n], true, Func, cap);
    }
  }

  /**
   With the client in between, from agreement: although calls are dropped, both the driver and the cache
   hold in every field of either face what the application gave last.
   */
  lemma FieldsThrough(c: Cached, d: Driver, calls: seq<Call>, front: bool, field: Field)
    requires Agree(c, d)
    ensures var value := match LastGiven(calls, front, field)
        case Some(value) => value
        case None => ValueOf(SideOf(d, front), field);
      var (cache, sent) := Through(c, calls);
      && ValueOf(SideOf(ApplyAll(d, sent), front), field) == value
      && ValueOf(if front then cache.front else cache.back, field) == value
  {
    ElisionSound(c, d, calls);
    FieldsAfter(d, calls, front, field);
  }

  lemma CapsThrough(c: Cached, d: Driver, calls: seq<Call>, cap: nat)
    requires Agree(c, d) && cap in d.known
    ensures cap in ApplyAll(d, Through(c, calls).1).enabled <==>
      match LastEnabled(calls, cap)
      case Some(on) => on
      case None => cap in d.enabled
  {
    ElisionSound(c, d, calls);
    CapsAfter(d, calls, cap);
  }

  /** A call is held back exactly if it is none of the errors and gives everywhere what is there. */
  lemma HeldBackExactly(c: Cached, call: Call)
    ensures CacheStep(c, call).1 == Elide <==>
      if call.SetCap? then
        && call.cap in {0x0BE2, 0x0B44, 0x0B71, 0x0BD0, 0x8037, 0x809E, 0x80A0, 0x0C11, 0x0B90}
        && (call.cap in c.enabled) == call.enable
      else InTables(call) && Given(c.front, call, true) && Given(c.back, call, false)
  {
    if !call.SetCap? && InTables(call) {
      GivenMeans(c.front, call);
      GivenMeans(c.back, call);
    }
  }
}
