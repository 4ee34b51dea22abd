/**
 One client, one queue, one server, one kind of object: what the driver is asked to do is what the
 application meant, although the client made the names up and recycles them.
 */
module NamingEndToEnd {
  import opened NameHandler
  import opened NameTranslation
  import opened Sequences

  // ----- What is meant, and what the driver is asked -----

  /** Buffers are numbered in the order in which they are created; the name zero is no buffer. */
  datatype Object = NoObject | Buffer(number: nat)

  datatype Meaning =
    | Created(numbers: seq<nat>)
    | Deleted(objects: seq<Object>)
    | Bound(target: nat, buffer: Object)

  datatype DriverCall =
    | GlGenBuffers(handles: seq<nat>)
    | GlDeleteBuffers(handles: seq<nat>)
    | GlBindBuffer(target: nat, handle: nat)

  function Numbers(first: nat, n: nat): seq<nat> {
    seq(n, i => first + i)
  }

  function ObjectOf(live: map<nat, nat>, name: nat): Object {
    if name != 0 && name in live then Buffer(live[name]) else NoObject
  }

  /** What a command means to an application whose live names stand for these buffers. */
  function MeaningOf(c: Command, live: map<nat, nat>, issued: nat): Meaning {
    match c
    case GenBuffers(names) => Created(Numbers(issued, |names|))
    case DeleteBuffers(names) => Deleted(seq(|names|, i requires 0 <= i < |names| => ObjectOf(live, names[i])))
    case BindBuffer(target, name) => Bound(target, ObjectOf(live, name))
  }

  function LiveAfter(c: Command, live: map<nat, nat>, issued: nat): map<nat, nat> {
    match c
    case GenBuffers(names) => Assigned(live, names, Numbers(issued, |names|))
    case DeleteBuffers(names) => live - Elements(names)
    case BindBuffer(_, _) => live
  }

  function IssuedAfter(c: Command, issued: nat): nat {
    if c.GenBuffers? then issued + |c.names| else issued
  }

  /** The application creates new names only and uses live names only. */
  ghost predicate Proper(c: Command, live: map<nat, nat>) {
    match c
    case GenBuffers(names) => Unique(names) && forall x :: x in names ==> x != 0 && x !in live
    case DeleteBuffers(names) => EachLiveOnce(names, live.Keys)
    case BindBuffer(_, name) => name == 0 || name in live
  }

  function HandleOf(buffer: Object, handles: seq<nat>): nat {
    if buffer.Buffer? && buffer.number < |handles| then handles[buffer.number] else 0
  }

  /** The call that carries the meaning out, when `handles[k]` is the driver's name for buffer `k`. */
  function Carried(m: Meaning, handles: seq<nat>): DriverCall {
    match m
    case Created(numbers) =>
      GlGenBuffers(seq(|numbers|, i requires 0 <= i < |numbers| => HandleOf(Buffer(numbers[i]), handles)))
    case Deleted(objects) =>
      GlDeleteBuffers(seq(|objects|, i requires 0 <= i < |objects| => HandleOf(objects[i], handles)))
    case Bound(target, buffer) => GlBindBuffer(target, HandleOf(buffer, handles))
  }

  /** The meaning mentions buffers only that the driver has created. */
  ghost predicate Known(m: Meaning, created: nat) {
    match m
    case Created(numbers) => forall k :: k in numbers ==> k < created
    case Deleted(objects) => forall o :: o in objects && o.Buffer? ==> o.number < created
    case Bound(_, buffer) => buffer.Buffer? ==> buffer.number < created
  }

  // ----- States and steps -----

  /** The driver: its buffers, and what is bound to each target, by the target's value. */
  datatype Driver = Driver(buffers: set<nat>, bound: map<nat, nat>)

  /** Nothing is bound to a target to begin with. */
  function At(bound: map<nat, nat>, target: nat): nat {
    if target in bound then bound[target] else 0
  }

  /**
   History: `live` and `passed` map names to buffer numbers, as the client knows them and as they
   were when the last command handled so far was issued.
   */
  datatype History = History(live: map<nat, nat>, issued: nat, meant: seq<Meaning>,
                             passed: map<nat, nat>, handles: seq<nat>, calls: seq<DriverCall>,
                             served: map<nat, nat>)

  datatype State = State(client: Client, mapping: map<nat, nat>, driver: Driver, hist: History)

  datatype Step =
    | Gen(n: nat)
    | DeleteMany(names: seq<nat>)
    | Bind(target: nat, name: nat)
    | Serve(invented: seq<nat>)

  ghost predicate Start(s: State) {
    s == State(Client(Init(), 0, 0, []), map[], Driver(s.driver.buffers, map[]),
               History(map[], 0, [], map[], [], [], map[]))
  }

  /** The application keeps to live names; the driver invents names it does not use. */
  ghost predicate Enabled(s: State, step: Step) {
    match step
    case Gen(n) => Room(s.client.names, n)
    case DeleteMany(names) => EachLiveOnce(names, s.hist.live.Keys)
    case Bind(_, name) => name == 0 || name in s.hist.live
    case Serve(invented) =>
      && s.client.queue != []
      && |invented| == (if s.client.queue[0].GenBuffers? then |s.client.queue[0].names| else 0)
      && Unique(invented) && forall x :: x in invented ==> x != 0 && x !in s.driver.buffers
  }

  function Recorded(h: History, c: Command): History {
    h.(live := LiveAfter(c, h.live, h.issued), issued := IssuedAfter(c, h.issued),
       meant := h.meant + [MeaningOf(c, h.live, h.issued)])
  }

  /** The client as it is now; if that queued a command, the history knows what it meant. */
  function Queued(s: State, client: Client): State
    requires s.client.queue <= client.queue
  {
    if |client.queue| == |s.client.queue| then s.(client := client)
    else s.(client := client, hist := Recorded(s.hist, client.queue[|s.client.queue|]))
  }

  function Reset(bound: nat, deleted: seq<nat>): nat {
    if bound in deleted then 0 else bound
  }

  /** Whatever is bound to any target is unbound if it is among those deleted. */
  function ResetAll(bound: map<nat, nat>, deleted: seq<nat>): map<nat, nat> {
    map target | target in bound :: Reset(bound[target], deleted)
  }

  /** The bindings, in the client's names, once the command has been carried out. */
  function Rebound(c: Command, bound: map<nat, nat>): map<nat, nat> {
    match c
    case GenBuffers(_) => bound
    case DeleteBuffers(names) => ResetAll(bound, names)
    case BindBuffer(target, name) => bound[target := name]
  }

  function Served(s: State, invented: seq<nat>): State
    requires s.client.queue != []
    requires s.client.queue[0].GenBuffers? ==> |s.client.queue[0].names| == |invented|
  {
    var c, h, d := s.client.queue[0], s.hist, s.driver;
    var (mapping, driver, call, handles) :=
      match c
      case GenBuffers(names) =>
        (Assigned(s.mapping, names, invented), d.(buffers := d.buffers + Elements(invented)),
         GlGenBuffers(invented), h.handles + invented)
      case DeleteBuffers(names) =>
        var (m, out) := TakeAll(s.mapping, names);
        (m, Driver(d.buffers - Elements(out), ResetAll(d.bound, out)),
         GlDeleteBuffers(out), h.handles)
      case BindBuffer(target, name) =>
        var (m, handle) := LookupToBind(s.mapping, name);
        (m, Driver(d.buffers + Used(handle), d.bound[target := handle]), GlBindBuffer(target, handle), h.handles);
    State(s.client.(queue := s.client.queue[1..]), mapping, driver,
          h.(passed := LiveAfter(c, h.passed, |h.handles|), handles := handles, calls := h.calls + [call],
             served := Rebound(c, h.served)))
  }

  /** Binding a name creates the buffer if there is none. */
  function Used(handle: nat): set<nat> {
    if handle == 0 then {} else {handle}
  }

  function After(s: State, step: Step): State
    requires step.Serve? ==> s.client.queue != []
    requires step.Serve? && s.client.queue[0].GenBuffers? ==> |s.client.queue[0].names| == |step.invented|
  {
    match step
    case Gen(n) => Queued(s, ClientGen(s.client, n))
    case DeleteMany(names) => Queued(s, ClientDelete(s.client, names))
    case Bind(target, name) => Queued(s, ClientBind(s.client, target, name))
    case Serve(invented) => Served(s, invented)
  }

  ghost predicate Run(states: seq<State>, steps: seq<Step>) {
    && |states| == |steps| + 1 && Start(states[0])
    && forall i {:trigger steps[i]} :: 0 <= i < |steps| ==>
         Enabled(states[i], steps[i]) && states[i + 1] == After(states[i], steps[i])
  }

  // ----- The queue, command by command -----

  /** Carrying out the queue leads from what was passed to what is live, each command with its meaning. */
  ghost predicate InOrder(queue: seq<Command>, meant: seq<Meaning>, passed: map<nat, nat>, created: nat,
                          live: map<nat, nat>, issued: nat)
  {
    |queue| == |meant| &&
    if queue == [] then passed == live && created == issued
    else
      && Proper(queue[0], passed) && meant[0] == MeaningOf(queue[0], passed, created)
      && InOrder(queue[1..], meant[1..], LiveAfter(queue[0], passed, created), IssuedAfter(queue[0], created),
                 live, issued)
  }

  lemma {:induction false} OneMoreQueued(queue: seq<Command>, meant: seq<Meaning>, passed: map<nat, nat>, created: nat,
                                         live: map<nat, nat>, issued: nat, c: Command)
    requires InOrder(queue, meant, passed, created, live, issued) && Proper(c, live)
    ensures InOrder(queue + [c], meant + [MeaningOf(c, live, issued)], passed, created,
                    LiveAfter(c, live, issued), IssuedAfter(c, issued))
  {
    hide Proper, MeaningOf, LiveAfter, IssuedAfter;
    var queue', meant' := queue + [c], meant + [MeaningOf(c, live, issued)];
    if queue == [] {
      assert queue'[1..] == [] && meant'[1..] == [];
    } else {
      OneMoreQueued(queue[1..], meant[1..], LiveAfter(queue[0], passed, created), IssuedAfter(queue[0], created),
                    live, issued, c);
      assert queue'[1..] == queue[1..] + [c] && meant'[1..] == meant[1..] + [MeaningOf(c, live, issued)];
    }
  }

  // ----- The table -----

  lemma {:induction false} AssignedAt(m: map<nat, nat>, names: seq<nat>, values: seq<nat>)
    requires |names| == |values| && Unique(names)
    ensures Assigned(m, names, values).Keys == m.Keys + Elements(names)
    ensures forall i :: 0 <= i < |names| ==> Assigned(m, names, values)[names[i]] == values[i]
    ensures forall x :: x in m && x !in names ==> Assigned(m, names, values)[x] == m[x]
  {
    if names != [] {
      var n := |names| - 1;
      var before := Assigned(m, names[..n], values[..n]);
      AssignedAt(m, names[..n], values[..n]);
      assert names == names[..n] + [names[n]];
      assert Elements(names) == Elements(names[..n]) + {names[n]};
      assert Assigned(m, names, values) == before[names[n] := values[n]];
      forall i | 0 <= i < |names| ensures Assigned(m, names, values)[names[i]] == values[i] {
        if i < n {
          assert before[names[..n][i]] == values[..n][i];
        }
      }
    }
  }

  lemma EachLiveOncePrefix(names: seq<nat>, live: set<nat>)
    requires EachLiveOnce(names, live) && names != []
    ensures EachLiveOnce(names[..|names| - 1], live)
    ensures names[|names| - 1] != 0 ==> names[|names| - 1] !in names[..|names| - 1]
  {
    var n := |names| - 1;
    var before := NonZero(names[..n]);
    assert forall i :: 0 <= i < |before| ==> NonZero(names)[i] == before[i];
    if names[n] != 0 {
      assert NonZero(names)[|before|] == names[n];
      NonZeroMembers(names[..n], names[n]);
      assert names[n] !in before;
    }
  }

  /** Deleting live names, each once, takes exactly them out and passes on what they stood for. */
  lemma {:induction false} TakeAllLive(m: map<nat, nat>, names: seq<nat>)
    requires 0 !in m && EachLiveOnce(names, m.Keys)
    ensures TakeAll(m, names).0 == m - Elements(names)
    ensures forall i :: 0 <= i < |names| ==>
              TakeAll(m, names).1[i] == if names[i] == 0 then 0 else m[names[i]]
  {
    if names != [] {
      var n := |names| - 1;
      EachLiveOncePrefix(names, m.Keys);
      TakeAllLive(m, names[..n]);
      assert names == names[..n] + [names[n]];
      assert m - Elements(names) == (m - Elements(names[..n])) - {names[n]};
    }
  }

  /** Names lead to the handles of the buffers they stand for. */
  ghost predicate Through(mapping: map<nat, nat>, passed: map<nat, nat>, handles: seq<nat>) {
    && mapping.Keys == passed.Keys
    && forall x {:trigger mapping[x]} {:trigger passed[x]} :: x in passed ==>
         x != 0 && passed[x] < |handles| && mapping[x] == handles[passed[x]]
  }

  /** Different names lead to different buffers, all of which exist. */
  ghost predicate Separate(mapping: map<nat, nat>, buffers: set<nat>) {
    && (forall x :: x in mapping ==> mapping[x] != 0 && mapping[x] in buffers)
    && (forall x, y :: x in mapping && y in mapping && x != y ==> mapping[x] != mapping[y])
  }

  // ----- The invariant -----

  ghost predicate Inv(s: State) {
    var h := s.hist;
    && Partition(s.client.names, h.live.Keys)
    && |h.calls| + |s.client.queue| == |h.meant|
    && (forall i {:trigger h.calls[i]} {:trigger h.meant[i]} :: 0 <= i < |h.calls| ==>
          Known(h.meant[i], |h.handles|) && h.calls[i] == Carried(h.meant[i], h.handles))
    && Through(s.mapping, h.passed, h.handles) && Separate(s.mapping, s.driver.buffers)
    && InOrder(s.client.queue, h.meant[|h.calls|..], h.passed, |h.handles|, h.live, h.issued)
  }

  /** A command is queued: all that happens to the invariant. */
  lemma QueuedKeeps(s: State, client: Client, c: Command)
    requires Inv(s) && Proper(c, s.hist.live) && client.queue == s.client.queue + [c]
    requires Partition(client.names, LiveAfter(c, s.hist.live, s.hist.issued).Keys)
    ensures Inv(Queued(s, client))
  {
    hide Proper, MeaningOf, LiveAfter, IssuedAfter, Partition, Carried, Known, Through, Separate;
    var h := s.hist;
    OneMoreQueued(s.client.queue, h.meant[|h.calls|..], h.passed, |h.handles|, h.live, h.issued, c);
    var meant := h.meant + [MeaningOf(c, h.live, h.issued)];
    assert meant[|h.calls|..] == h.meant[|h.calls|..] + [MeaningOf(c, h.live, h.issued)];
  }

  lemma ClientStepKeeps(s: State, step: Step)
    requires Inv(s) && Enabled(s, step) && !step.Serve?
    ensures Inv(After(s, step))
  {
    hide Inv, InOrder, Queued, Alloc, Assigned, Delete;
    var live := s.hist.live;
    assert Partition(s.client.names, live.Keys) by { PartitionOf(s); }
    match step
    case Gen(n) =>
      var names := Alloc(s.client.names, n).1;
      AllocKeeps(s.client.names, live.Keys, n);
      AssignedAt(live, names, Numbers(s.hist.issued, n));
      QueuedKeeps(s, ClientGen(s.client, n), GenBuffers(names));
    case DeleteMany(names) =>
      DeleteKeeps(s.client.names, live.Keys, names);
      assert (live - Elements(names)).Keys == live.Keys - Elements(names);
      QueuedKeeps(s, ClientDelete(s.client, names), DeleteBuffers(names));
    case Bind(target, name) =>
      var client := ClientBind(s.client, target, name);
      if client != s.client {
        QueuedKeeps(s, client, BindBuffer(target, name));
      } else {
        QueuedNothing(s);
      }
  }

  lemma PartitionOf(s: State)
    requires Inv(s)
    ensures Partition(s.client.names, s.hist.live.Keys)
  {
  }

  lemma QueuedNothing(s: State)
    ensures Queued(s, s.client) == s
  {
  }

  /** Meanings that are known already are carried out the same way with more handles. */
  lemma CarriedLater(m: Meaning, handles: seq<nat>, more: seq<nat>)
    requires Known(m, |handles|)
    ensures Known(m, |handles + more|) && Carried(m, handles + more) == Carried(m, handles)
  {
    match m
    case Created(numbers) =>
      forall i | 0 <= i < |numbers|
        ensures HandleOf(Buffer(numbers[i]), handles + more) == HandleOf(Buffer(numbers[i]), handles)
      {
        assert numbers[i] in numbers;
      }
    case Deleted(objects) =>
      forall i | 0 <= i < |objects| ensures HandleOf(objects[i], handles + more) == HandleOf(objects[i], handles) {
        assert objects[i] in objects;
      }
    case Bound(_, _) =>
  }

  /** What the invariant says of the command at the front, and of those behind it. */
  lemma Front(s: State)
    requires Inv(s) && s.client.queue != []
    ensures var c, h := s.client.queue[0], s.hist;
      && Proper(c, h.passed) && |h.calls| < |h.meant| && h.meant[|h.calls|] == MeaningOf(c, h.passed, |h.handles|)
      && InOrder(s.client.queue[1..], h.meant[|h.calls| + 1..], LiveAfter(c, h.passed, |h.handles|),
                 IssuedAfter(c, |h.handles|), h.live, h.issued)
  {
    hide Proper, MeaningOf, LiveAfter, IssuedAfter, Partition, Carried, Known, Through, Separate;
    var h := s.hist;
    assert InOrder(s.client.queue, h.meant[|h.calls|..], h.passed, |h.handles|, h.live, h.issued);
    assert h.meant[|h.calls|..][1..] == h.meant[|h.calls| + 1..];
  }

  /** One command at the server: the call made, and the table afterwards, are the ones meant. */
  lemma ServedOne(s: State, invented: seq<nat>)
    requires Inv(s) && Enabled(s, Serve(invented))
    ensures var h, h' := s.hist, Served(s, invented).hist; var m := MeaningOf(s.client.queue[0], h.passed, |h.handles|);
      && Known(m, |h'.handles|) && h'.calls == h.calls + [Carried(m, h'.handles)]
    ensures Through(Served(s, invented).mapping, Served(s, invented).hist.passed, Served(s, invented).hist.handles)
    ensures Separate(Served(s, invented).mapping, Served(s, invented).driver.buffers)
    ensures IssuedAfter(s.client.queue[0], |s.hist.handles|) == |Served(s, invented).hist.handles|
  {
    hide InOrder, Partition, TakeAll, Assigned;
    Front(s);
    var c, h := s.client.queue[0], s.hist;
    match c
    case GenBuffers(names) => GenServed(s.mapping, s.driver.buffers, h.passed, h.handles, names, invented);
    case DeleteBuffers(names) => DeleteServed(s.mapping, s.driver.buffers, h.passed, h.handles, names);
    case BindBuffer(target, name) => BindServed(s.mapping, h.passed, h.handles, target, name);
  }

  lemma GenServed(mapping: map<nat, nat>, buffers: set<nat>, passed: map<nat, nat>, handles: seq<nat>,
                  names: seq<nat>, invented: seq<nat>)
    requires Through(mapping, passed, handles) && Separate(mapping, buffers) && Proper(GenBuffers(names), passed)
    requires |names| == |invented| && Unique(invented) && forall x :: x in invented ==> x != 0 && x !in buffers
    ensures var m := MeaningOf(GenBuffers(names), passed, |handles|);
      Known(m, |handles + invented|) && Carried(m, handles + invented) == GlGenBuffers(invented)
    ensures Through(Assigned(mapping, names, invented), LiveAfter(GenBuffers(names), passed, |handles|),
                    handles + invented)
    ensures Separate(Assigned(mapping, names, invented), buffers + Elements(invented))
  {
    hide Assigned, Separate, Carried, Through, Unique;
    GenCarried(handles, invented);
    GenThrough(mapping, passed, handles, names, invented);
    SeparateAfterGen(mapping, buffers, names, invented);
  }

  lemma GenCarried(handles: seq<nat>, invented: seq<nat>)
    ensures var m := Created(Numbers(|handles|, |invented|));
      Known(m, |handles + invented|) && Carried(m, handles + invented) == GlGenBuffers(invented)
  {
  }

  lemma GenThrough(mapping: map<nat, nat>, passed: map<nat, nat>, handles: seq<nat>, names: seq<nat>,
                   invented: seq<nat>)
    requires Through(mapping, passed, handles) && |names| == |invented|
    requires Unique(names) && forall x :: x in names ==> x != 0 && x !in passed
    ensures Through(Assigned(mapping, names, invented), Assigned(passed, names, Numbers(|handles|, |names|)),
                    handles + invented)
    ensures mapping.Keys == passed.Keys
  {
    hide Assigned, Unique;
    var numbers := Numbers(|handles|, |names|);
    AssignedAt(mapping, names, invented);
    AssignedAt(passed, names, numbers);
    var mapping', passed' := Assigned(mapping, names, invented), Assigned(passed, names, numbers);
    forall x | x in passed'
      ensures x != 0 && passed'[x] < |handles + invented| && mapping'[x] == (handles + invented)[passed'[x]]
    {
      if x in names {
        var i := FirstIndex(names, x);
        assert mapping'[names[i]] == invented[i] && passed'[names[i]] == numbers[i];
      }
    }
  }

  lemma SeparateAfterGen(mapping: map<nat, nat>, buffers: set<nat>, names: seq<nat>, invented: seq<nat>)
    requires Separate(mapping, buffers) && Unique(names) && forall x :: x in names ==> x !in mapping
    requires |names| == |invented| && Unique(invented) && forall x :: x in invented ==> x != 0 && x !in buffers
    ensures Separate(Assigned(mapping, names, invented), buffers + Elements(invented))
  {
    hide Assigned;
    AssignedAt(mapping, names, invented);
    var mapping' := Assigned(mapping, names, invented);
    forall x | x in mapping'
      ensures x in names ==> var i := FirstIndex(names, x); mapping'[x] == invented[i] && invented[i] in invented
      ensures x !in names ==> x in mapping && mapping'[x] == mapping[x]
    {
      if x in names {
        var i := FirstIndex(names, x);
        assert mapping'[names[i]] == invented[i];
      }
    }
    hide FirstIndex;
    forall x, y | x in mapping' && y in mapping' && x != y ensures mapping'[x] != mapping'[y] {
      if x in names && y in names {
        var i, j := FirstIndex(names, x), FirstIndex(names, y);
        assert invented[if i < j then i else j] != invented[if i < j then j else i];
      }
    }
  }

  lemma DeleteServed(mapping: map<nat, nat>, buffers: set<nat>, passed: map<nat, nat>, handles: seq<nat>,
                     names: seq<nat>)
    requires Through(mapping, passed, handles) && Separate(mapping, buffers) && Proper(DeleteBuffers(names), passed)
    ensures var m := MeaningOf(DeleteBuffers(names), passed, |handles|);
      Known(m, |handles|) && Carried(m, handles) == GlDeleteBuffers(TakeAll(mapping, names).1)
    ensures Through(TakeAll(mapping, names).0, LiveAfter(DeleteBuffers(names), passed, |handles|), handles)
    ensures Separate(TakeAll(mapping, names).0, buffers - Elements(TakeAll(mapping, names).1))
  {
    hide TakeAll, NonZero;
    TakeAllLive(mapping, names);
    var (mapping', out) := TakeAll(mapping, names);
    var m := MeaningOf(DeleteBuffers(names), passed, |handles|);
    forall i | 0 <= i < |names| ensures HandleOf(m.objects[i], handles) == out[i] {
      assert names[i] in names;
    }
    forall x | x in mapping' ensures mapping'[x] !in out {
      forall i | 0 <= i < |out| ensures out[i] != mapping[x] {
        assert names[i] in names;
      }
    }
  }

  lemma BindServed(mapping: map<nat, nat>, passed: map<nat, nat>, handles: seq<nat>, target: nat, name: nat)
    requires Through(mapping, passed, handles) && Proper(BindBuffer(target, name), passed)
    ensures var m := MeaningOf(BindBuffer(target, name), passed, |handles|); Known(m, |handles|)
    ensures LookupToBind(mapping, name) == (mapping, HandleOf(ObjectOf(passed, name), handles))
  {
  }

  lemma ServeKeeps(s: State, invented: seq<nat>)
    requires Inv(s) && Enabled(s, Serve(invented))
    ensures Inv(Served(s, invented))
  {
    hide InOrder, Partition, Through, Separate, Known, Carried, MeaningOf, Proper;
    ServedOne(s, invented);
    Front(s);
    var h, s' := s.hist, Served(s, invented);
    forall i {:trigger h.calls[i]} | 0 <= i < |h.calls|
      ensures Known(h.meant[i], |s'.hist.handles|) && h.calls[i] == Carried(h.meant[i], s'.hist.handles)
    {
      var more := if s.client.queue[0].GenBuffers? then invented else [];
      assert s'.hist.handles == h.handles + more;
      CarriedLater(h.meant[i], h.handles, more);
    }
  }

  lemma {:induction false} RunKeeps(states: seq<State>, steps: seq<Step>, i: nat)
    requires Run(states, steps) && i < |states|
    ensures Inv(states[i])
  {
    if i > 0 {
      RunKeeps(states, steps, i - 1);
      var s, step := states[i - 1], steps[i - 1];
      assert states[i] == After(s, step);
      match step
      case Serve(invented) => ServeKeeps(s, invented);
      case _ => ClientStepKeeps(s, step);
    }
  }

  // ----- The end-to-end claims -----

  /**
   In every run that uses live names only, every call the server has made is the one meant by the
   command it handled: each Gen, Delete and Bind reaches the driver with exactly the names that the
   driver gave to those buffers when it created them, in the order the application issued them.
   */
  lemma CallsAreMeant(states: seq<State>, steps: seq<Step>, i: nat, j: nat)
    requires Run(states, steps) && i < |states| && j < |states[i].hist.calls|
    ensures var h := states[i].hist;
      && |h.calls| + |states[i].client.queue| == |h.meant|
      && Known(h.meant[j], |h.handles|) && h.calls[j] == Carried(h.meant[j], h.handles)
  {
    RunKeeps(states, steps, i);
  }

  /** When the queue is empty, the table holds the live names, each with its buffer's handle, and no other. */
  lemma TableWhenDrained(states: seq<State>, steps: seq<Step>, i: nat)
    requires Run(states, steps) && i < |states| && states[i].client.queue == []
    ensures Through(states[i].mapping, states[i].hist.live, states[i].hist.handles)
    ensures Separate(states[i].mapping, states[i].driver.buffers)
  {
    RunKeeps(states, steps, i);
    var h := states[i].hist;
    assert InOrder([], h.meant[|h.calls|..], h.passed, |h.handles|, h.live, h.issued);
    assert Through(states[i].mapping, h.passed, h.handles);
  }

  // ----- Cached bindings -----

  /** What is bound to one target, in the client's names, once the command has been carried out. */
  function ReboundAt(c: Command, bound: nat, target: nat): nat {
    match c
    case GenBuffers(_) => bound
    case DeleteBuffers(names) => Reset(bound, names)
    case BindBuffer(t, name) => if t == target then name else bound
  }

  lemma ReboundIs(c: Command, bound: map<nat, nat>, target: nat)
    ensures At(Rebound(c, bound), target) == ReboundAt(c, At(bound, target), target)
  {
  }

  /** And once the whole queue has been. */
  ghost function Replay(queue: seq<Command>, bound: nat, target: nat): nat {
    if queue == [] then bound else Replay(queue[1..], ReboundAt(queue[0], bound, target), target)
  }

  lemma {:induction false} ReplayMore(queue: seq<Command>, bound: nat, target: nat, c: Command)
    ensures Replay(queue + [c], bound, target) == ReboundAt(c, Replay(queue, bound, target), target)
  {
    hide ReboundAt;
    if queue == [] {
      assert ([] + [c])[1..] == [];
    } else {
      assert (queue + [c])[1..] == queue[1..] + [c];
      ReplayMore(queue[1..], ReboundAt(queue[0], bound, target), target, c);
    }
  }

  /** A name and what the driver has bound for it. */
  ghost predicate BoundAs(mapping: map<nat, nat>, name: nat, bound: nat) {
    if name == 0 then bound == 0 else name in mapping && mapping[name] == bound
  }

  /** What the client believes to be bound to one of the two targets. */
  function Believed(c: Client, target: nat): nat {
    if target == GL_ARRAY_BUFFER then c.arrayBound else c.elementBound
  }

  /** At one target: the driver has what was served, and once the queue is carried out, what is believed. */
  ghost predicate AgreesAt(s: State, target: nat) {
    && BoundAs(s.mapping, At(s.hist.served, target), At(s.driver.bound, target))
    && Replay(s.client.queue, At(s.hist.served, target), target) == Believed(s.client, target)
  }

  /** Once the queue is carried out, the driver has bound what the client believes to be bound. */
  ghost predicate BindingsAgree(s: State) {
    AgreesAt(s, GL_ARRAY_BUFFER) && AgreesAt(s, GL_ELEMENT_ARRAY_BUFFER)
  }

  /** The client looks at the element binding only if the array binding is another: a buffer bound to both stays. */
  lemma {:induction false} UnboundMeans(arrayBound: nat, elementBound: nat, names: seq<nat>, live: set<nat>)
    requires EachLiveOnce(names, live)
    ensures Unbound(arrayBound, elementBound, names)
            == (Reset(arrayBound, names),
                if elementBound == arrayBound then elementBound else Reset(elementBound, names))
  {
    if names != [] {
      var n := |names| - 1;
      EachLiveOncePrefix(names, live);
      UnboundMeans(arrayBound, elementBound, names[..n], live);
      assert names == names[..n] + [names[n]];
    }
  }

  /** The deletion of a buffer that is bound to both targets. */
  ghost predicate DeletesDoublyBound(s: State, step: Step) {
    step.DeleteMany? && s.client.arrayBound == s.client.elementBound != 0 && s.client.arrayBound in step.names
  }

  lemma QueuedAt(s: State, client: Client, c: Command, target: nat)
    requires AgreesAt(s, target) && client.queue == s.client.queue + [c]
    ensures AgreesAt(Queued(s, client), target)
            <==> Believed(client, target) == ReboundAt(c, Believed(s.client, target), target)
  {
    hide Inv, ReboundAt, Replay, Recorded, Believed, BoundAs;
    assert Queued(s, client).mapping == s.mapping && Queued(s, client).driver == s.driver;
    RecordedServed(s.hist, client.queue[|s.client.queue|]);
    ReplayMore(s.client.queue, At(s.hist.served, target), target, c);
  }

  lemma QueuedBindings(s: State, client: Client, c: Command)
    requires BindingsAgree(s) && client.queue == s.client.queue + [c]
    ensures BindingsAgree(Queued(s, client)) <==>
      && client.arrayBound == ReboundAt(c, s.client.arrayBound, GL_ARRAY_BUFFER)
      && client.elementBound == ReboundAt(c, s.client.elementBound, GL_ELEMENT_ARRAY_BUFFER)
  {
    hide AgreesAt, ReboundAt, Queued;
    QueuedAt(s, client, c, GL_ARRAY_BUFFER);
    QueuedAt(s, client, c, GL_ELEMENT_ARRAY_BUFFER);
  }

  lemma RecordedServed(h: History, c: Command)
    ensures Recorded(h, c).served == h.served
  {
  }

  lemma ServeAt(s: State, invented: seq<nat>, target: nat)
    requires Inv(s) && AgreesAt(s, target) && Enabled(s, Serve(invented))
    ensures AgreesAt(Served(s, invented), target)
  {
    hide InOrder, Partition, TakeAll, Assigned, MeaningOf, NonZero;
    Front(s);
    var c, h, s' := s.client.queue[0], s.hist, Served(s, invented);
    ReboundIs(c, h.served, target);
    match c
    case GenBuffers(names) =>
      AssignedAt(s.mapping, names, invented);
    case DeleteBuffers(names) =>
      TakeAllLive(s.mapping, names);
      ResetAs(s.mapping, names, At(h.served, target), At(s.driver.bound, target));
    case BindBuffer(_, _) =>
  }

  lemma ServeBindings(s: State, invented: seq<nat>)
    requires Inv(s) && BindingsAgree(s) && Enabled(s, Serve(invented))
    ensures BindingsAgree(Served(s, invented))
  {
    hide Inv, AgreesAt, Served, Enabled;
    ServeAt(s, invented, GL_ARRAY_BUFFER);
    ServeAt(s, invented, GL_ELEMENT_ARRAY_BUFFER);
  }

  /** The driver unbinds what it deletes, exactly when the name of what is bound is among those deleted. */
  lemma ResetAs(mapping: map<nat, nat>, names: seq<nat>, name: nat, bound: nat)
    requires 0 !in mapping && EachLiveOnce(names, mapping.Keys) && BoundAs(mapping, name, bound)
    requires forall x, y :: x in mapping && y in mapping && x != y ==> mapping[x] != mapping[y]
    requires forall x :: x in mapping ==> mapping[x] != 0
    ensures BoundAs(TakeAll(mapping, names).0, Reset(name, names), Reset(bound, TakeAll(mapping, names).1))
  {
    hide TakeAll, NonZero;
    TakeAllLive(mapping, names);
    var out := TakeAll(mapping, names).1;
    if name in names {
      var i := FirstIndex(names, name);
      assert out[i] == bound && out[i] in out;
    } else if name != 0 {
      forall i | 0 <= i < |out| ensures out[i] != bound {
        assert names[i] in names;
      }
    }
  }

  /** Agreement is kept by every step but one, and that one always breaks it. */
  lemma StepBindings(s: State, step: Step)
    requires Inv(s) && BindingsAgree(s) && Enabled(s, step)
    ensures BindingsAgree(After(s, step)) <==> !DeletesDoublyBound(s, step)
  {
    hide Inv, InOrder, Partition, BindingsAgree, Queued, Alloc;
    match step
    case Gen(n) =>
      QueuedBindings(s, ClientGen(s.client, n), GenBuffers(Alloc(s.client.names, n).1));
    case DeleteMany(names) =>
      UnboundMeans(s.client.arrayBound, s.client.elementBound, names, s.hist.live.Keys);
      QueuedBindings(s, ClientDelete(s.client, names), DeleteBuffers(names));
    case Bind(target, name) =>
      var client := ClientBind(s.client, target, name);
      if client == s.client {
        QueuedNothing(s);
      } else {
        QueuedBindings(s, client, BindBuffer(target, name));
      }
    case Serve(invented) => ServeBindings(s, invented);
  }

  lemma {:induction false} RunBindings(states: seq<State>, steps: seq<Step>, i: nat)
    requires Run(states, steps) && i < |states|
    requires forall j {:trigger steps[j]} :: 0 <= j < i ==> !DeletesDoublyBound(states[j], steps[j])
    ensures BindingsAgree(states[i])
  {
    if i > 0 {
      RunBindings(states, steps, i - 1);
      RunKeeps(states, steps, i - 1);
      assert states[i] == After(states[i - 1], steps[i - 1]);
      StepBindings(states[i - 1], steps[i - 1]);
    }
  }

  /** What the application has bound to a target: the name it bound last, unless it has deleted that since. */
  function Asked(steps: seq<Step>, target: nat): nat {
    if steps == [] then 0 else
      var before := Asked(steps[..|steps| - 1], target);
      match steps[|steps| - 1]
      case Bind(t, name) => if t == target then name else before
      case DeleteMany(names) => Reset(before, names)
      case _ => before
  }

  /** The client believes what the application has asked for. */
  lemma {:induction false} BelievedIsAsked(states: seq<State>, steps: seq<Step>, i: nat, target: nat)
    requires Run(states, steps) && i < |states| && (target == GL_ARRAY_BUFFER || target == GL_ELEMENT_ARRAY_BUFFER)
    requires forall j {:trigger steps[j]} :: 0 <= j < i ==> !DeletesDoublyBound(states[j], steps[j])
    ensures Believed(states[i].client, target) == Asked(steps[..i], target)
  {
    if i > 0 {
      var s, step := states[i - 1], steps[i - 1];
      BelievedIsAsked(states, steps, i - 1, target);
      assert steps[..i][..i - 1] == steps[..i - 1] && states[i] == After(s, step);
      hide Inv, Unbound, Alloc, Recorded, Served, Asked;
      StepBelieves(s, step, target);
      AskedNext(steps[..i], target);
    }
  }

  lemma AskedNext(steps: seq<Step>, target: nat)
    requires steps != []
    ensures var before := Asked(steps[..|steps| - 1], target);
      Asked(steps, target) == match steps[|steps| - 1]
        case Bind(t, name) => if t == target then name else before
        case DeleteMany(names) => Reset(before, names)
        case _ => before
  {
  }

  lemma StepBelieves(s: State, step: Step, target: nat)
    requires Enabled(s, step) && !DeletesDoublyBound(s, step)
    requires target == GL_ARRAY_BUFFER || target == GL_ELEMENT_ARRAY_BUFFER
    ensures Believed(After(s, step).client, target) == match step
      case Bind(t, name) => if t == target then name else Believed(s.client, target)
      case DeleteMany(names) => Reset(Believed(s.client, target), names)
      case _ => Believed(s.client, target)
  {
    hide Unbound, Alloc, Recorded, Delete, Assigned, TakeAll;
    if step.DeleteMany? {
      UnboundMeans(s.client.arrayBound, s.client.elementBound, step.names, s.hist.live.Keys);
    }
  }

  /**
   Although the client does not queue a Bind of what it believes to be bound: in every run that
   deletes no buffer bound to both targets, whenever the queue is empty, the driver has bound to the
   array target 0x8892 and to the element target 0x8893 the very buffers for which the names stand that
   the application bound there last, and nothing where it has deleted them since.
   */
  lemma BindingsFollow(states: seq<State>, steps: seq<Step>, i: nat, target: nat)
    requires Run(states, steps) && i < |states| && states[i].client.queue == []
    requires target == 0x8892 || target == 0x8893
    requires forall j {:trigger steps[j]} :: 0 <= j < i ==> !DeletesDoublyBound(states[j], steps[j])
    ensures var s := states[i];
      && Believed(s.client, target) == Asked(steps[..i], target)
      && At(s.driver.bound, target) == HandleOf(ObjectOf(s.hist.live, Asked(steps[..i], target)), s.hist.handles)
  {
    RunBindings(states, steps, i);
    TableWhenDrained(states, steps, i);
    BelievedIsAsked(states, steps, i, target);
    var s := states[i];
    assert Replay([], At(s.hist.served, target), target) == Believed(s.client, target);
  }

  /** Binding an unknown name to itself keeps names apart exactly when no other name stands for it. */
  lemma BindingUnknownName(mapping: map<nat, nat>, name: nat)
    requires name != 0 && forall x, y :: x in mapping && y in mapping && x != y ==> mapping[x] != mapping[y]
    ensures var mapping' := LookupToBind(mapping, name).0;
      (forall x, y :: x in mapping' && y in mapping' && x != y ==> mapping'[x] != mapping'[y])
      <==> name in mapping || forall x :: x in mapping ==> mapping[x] != name
  {
    var mapping' := LookupToBind(mapping, name).0;
    if name !in mapping {
      forall x | x in mapping && mapping[x] == name
        ensures x != name && x in mapping' && name in mapping' && mapping'[x] == mapping'[name]
      {
      }
    }
  }

  /** The deletion itself: the client forgets one of the two bindings, and the name is recycled. */
  lemma DeletedButBound(s: State, name: nat)
    requires Inv(s) && BindingsAgree(s) && s.client.queue == []
    requires s.client.arrayBound == s.client.elementBound == name != 0
    ensures name in s.mapping && At(s.driver.bound, 0x8893) == s.mapping[name] && EachLiveOnce([name], s.hist.live.Keys)
    ensures EachLiveOnce([name], s.mapping.Keys)
    ensures var client := ClientDelete(s.client, [name]);
      && client.queue == [DeleteBuffers([name])] && client.elementBound == name
      && client.names.reusable == s.client.names.reusable + [name]
  {
    hide Partition, TakeAll, MeaningOf, Carried, Known, InOrder, Unbound, Replay, NonZero;
    var h := s.hist;
    assert At(h.served, GL_ELEMENT_ARRAY_BUFFER) == name by {
      ReplayNothing(At(h.served, GL_ELEMENT_ARRAY_BUFFER), GL_ELEMENT_ARRAY_BUFFER);
    }
    assert InOrder([], h.meant[|h.calls|..], h.passed, |h.handles|, h.live, h.issued);
    Drained(h.meant[|h.calls|..], h.passed, |h.handles|, h.live, h.issued);
    OnlyName(name, h.live.Keys);
    UnboundMeans(name, name, [name], h.live.Keys);
  }

  lemma ReplayNothing(bound: nat, target: nat)
    ensures Replay([], bound, target) == bound
  {
  }

  /**
   Why that deletion must be left out. Whatever the state in which a buffer is bound to both targets
   and nothing is queued: once it is deleted and the server has followed, the driver has nothing
   bound to the element target, the client still believes the name to be bound there, the name is
   due to be handed out again, and a Bind of it changes nothing and reaches nobody.
   */
  lemma StaleElementBinding(s: State, name: nat)
    requires Inv(s) && BindingsAgree(s) && s.client.queue == []
    requires s.client.arrayBound == s.client.elementBound == name != 0
    ensures var deleted := After(s, DeleteMany([name]));
      && Enabled(s, DeleteMany([name])) && deleted.client.queue == [DeleteBuffers([name])]
      && Enabled(deleted, Serve([]))
      && var drained := After(deleted, Serve([]));
         && drained.client.queue == [] && drained.client.elementBound == name && At(drained.driver.bound, 0x8893) == 0
         && drained.client.names.reusable == s.client.names.reusable + [name]
         && After(drained, Bind(0x8893, name)) == drained
  {
    DeletedButBound(s, name);
    assert 0 !in s.mapping;
    hide InOrder, Partition, TakeAll, MeaningOf, Carried, Known, Inv, BindingsAgree, ClientDelete, LiveAfter, NonZero;
    TakeAllLive(s.mapping, [name]);
    var out := TakeAll(s.mapping, [name]).1;
    assert out[0] == s.mapping[name] && out[0] in out;
  }

  lemma Drained(meant: seq<Meaning>, passed: map<nat, nat>, created: nat, live: map<nat, nat>, issued: nat)
    requires InOrder([], meant, passed, created, live, issued)
    ensures passed == live && created == issued
  {
  }

  lemma OnlyName(name: nat, live: set<nat>)
    requires name != 0 && name in live
    ensures NonZero([name]) == [name] && EachLiveOnce([name], live)
  {
    assert [name][..0] == [];
    assert NonZero([]) == [];
  }
}
