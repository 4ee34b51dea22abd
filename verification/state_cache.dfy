/**
 Calls that set GL state and that the client does not forward when its cache already holds the
 value: the capabilities, and the stencil function, masks and operations of both faces.
 */
module StateCache {
  import opened Wrappers

  // GLenum values.
  const GL_FRONT: nat := 0x0404
  const GL_BACK: nat := 0x0405
  const GL_FRONT_AND_BACK: nat := 0x0408
  const GL_BLEND: nat := 0x0BE2
  const GL_CULL_FACE: nat := 0x0B44
  const GL_DEPTH_TEST: nat := 0x0B71
  const GL_DITHER: nat := 0x0BD0
  const GL_POLYGON_OFFSET_FILL: nat := 0x8037
  const GL_SAMPLE_ALPHA_TO_COVERAGE: nat := 0x809E
  const GL_SAMPLE_COVERAGE: nat := 0x80A0
  const GL_SCISSOR_TEST: nat := 0x0C11
  const GL_STENCIL_TEST: nat := 0x0B90
  const GL_NEVER: nat := 0x0200
  const GL_ALWAYS: nat := 0x0207
  const GL_ZERO: nat := 0
  const GL_KEEP: nat := 0x1E00
  const GL_DECR: nat := 0x1E03
  const GL_INVERT: nat := 0x150A
  const GL_INCR_WRAP: nat := 0x8507
  const GL_DECR_WRAP: nat := 0x8508

  /** The capabilities the client caches. */
  const TRACKED: set<nat> := {GL_BLEND, GL_CULL_FACE, GL_DEPTH_TEST, GL_DITHER, GL_POLYGON_OFFSET_FILL,
    GL_SAMPLE_ALPHA_TO_COVERAGE, GL_SAMPLE_COVERAGE, GL_SCISSOR_TEST, GL_STENCIL_TEST}

  predicate ValidFace(face: nat) {
    face == GL_FRONT || face == GL_BACK || face == GL_FRONT_AND_BACK
  }

  /** GL_NEVER, GL_LESS, GL_EQUAL, GL_LEQUAL, GL_GREATER, GL_NOTEQUAL, GL_GEQUAL, GL_ALWAYS. */
  predicate ValidFunc(func: nat) {
    GL_NEVER <= func <= GL_ALWAYS
  }

  predicate ValidOp(op: nat) {
    op == GL_ZERO || GL_KEEP <= op <= GL_DECR || op == GL_INVERT || op == GL_INCR_WRAP || op == GL_DECR_WRAP
  }

  datatype Call =
    | SetCap(cap: nat, enable: bool)
    | StencilFunc(face: nat, func: nat, ref: int, mask: nat)
    | StencilMask(face: nat, mask: nat)
    | StencilOp(face: nat, fail: nat, depthFail: nat, depthPass: nat)

  // ----- The driver -----

  datatype Side = Side(func: nat, ref: int, valueMask: nat, writeMask: nat, fail: nat, depthFail: nat, depthPass: nat)

  /** `known` are the capabilities of the driver: all tracked ones, and whatever extensions add. */
  datatype Driver = Driver(known: set<nat>, enabled: set<nat>, front: Side, back: Side)

  /** The call is an INVALID_ENUM error to the driver. */
  predicate Invalid(d: Driver, call: Call) {
    match call
    case SetCap(cap, _) => cap !in d.known
    case StencilFunc(face, func, _, _) => !ValidFace(face) || !ValidFunc(func)
    case StencilMask(face, _) => !ValidFace(face)
    case StencilOp(face, fail, depthFail, depthPass) =>
      !ValidFace(face) || !ValidOp(fail) || !ValidOp(depthFail) || !ValidOp(depthPass)
  }

  function OneSide(side: Side, call: Call): Side {
    match call
    case SetCap(_, _) => side
    case StencilFunc(_, func, ref, mask) => side.(func := func, ref := ref, valueMask := mask)
    case StencilMask(_, mask) => side.(writeMask := mask)
    case StencilOp(_, fail, depthFail, depthPass) =>
      side.(fail := fail, depthFail := depthFail, depthPass := depthPass)
  }

  /** OpenGL ES 2.0, sections 4.1.4 and 4.2.2: an invalid call changes nothing, a valid one its faces. */
  function Apply(d: Driver, call: Call): Driver {
    if Invalid(d, call) then d
    else if call.SetCap? then
      d.(enabled := if call.enable then d.enabled + {call.cap} else d.enabled - {call.cap})
    else
      d.(front := if call.face != GL_BACK then OneSide(d.front, call) else d.front,
         back := if call.face != GL_FRONT then OneSide(d.back, call) else d.back)
  }

  function ApplyAll(d: Driver, calls: seq<Call>): Driver {
    if calls == [] then d else Apply(ApplyAll(d, calls[..|calls| - 1]), calls[|calls| - 1])
  }

  /** Which of the calls are errors. */
  function ErrorsOf(d: Driver, calls: seq<Call>): seq<bool> {
    if calls == [] then [] else
      var n := |calls| - 1;
      ErrorsOf(d, calls[..n]) + [Invalid(ApplyAll(d, calls[..n]), calls[n])]
  }

  // ----- The cache -----

  datatype Cached = Cached(enabled: set<nat>, front: Side, back: Side)

  datatype Reaction = Forward | Elide | Reject

  /** The call sets a value that the cache does not hold for one of its faces. */
  predicate Changes(c: Cached, call: Call)
    requires !call.SetCap?
  {
    || (call.face != GL_BACK && OneSide(c.front, call) != c.front)
    || (call.face != GL_FRONT && OneSide(c.back, call) != c.back)
  }

  function Updated(c: Cached, call: Call): Cached
    requires !call.SetCap?
  {
    Cached(c.enabled, if call.face != GL_BACK then OneSide(c.front, call) else c.front,
           if call.face != GL_FRONT then OneSide(c.back, call) else c.back)
  }

  predicate AcceptedByClient(call: Call) {
    match call
    case SetCap(_, _) => true
    case StencilFunc(face, func, _, _) => ValidFace(face) && ValidFunc(func)
    case StencilMask(face, _) => ValidFace(face)
    case StencilOp(face, fail, depthFail, depthPass) =>
      ValidFace(face) && ValidOp(fail) && ValidOp(depthFail) && ValidOp(depthPass)
  }

  function CacheStep(c: Cached, call: Call): (Cached, Reaction) {
    if !AcceptedByClient(call) then (c, Reject)
    else if call.SetCap? then
      if call.cap !in TRACKED then (c, Forward)
      else if (call.cap in c.enabled) == call.enable then (c, Elide)
      else (c.(enabled := if call.enable then c.enabled + {call.cap} else c.enabled - {call.cap}), Forward)
    else if Changes(c, call) then (Updated(c, call), Forward)
    else (c, Elide)
  }

  // ----- What a call says, by the tables of the specification -----

  datatype Field = Func | Ref | ValueMask | WriteMask | Fail | DepthFail | DepthPass

  function ValueOf(side: Side, field: Field): int {
    match field
    case Func => side.func
    case Ref => side.ref
    case ValueMask => side.valueMask
    case WriteMask => side.writeMask
    case Fail => side.fail
    case DepthFail => side.depthFail
    case DepthPass => side.depthPass
  }

  /** FRONT is 0x0404, BACK is 0x0405, FRONT_AND_BACK is 0x0408. */
  predicate NamesFace(face: nat, front: bool) {
    face == 0x0408 || face == if front then 0x0404 else 0x0405
  }

  /** What the call gives to a field of the faces it names. */
  function Argument(call: Call, field: Field): Option<int> {
    match (call, field)
    case (StencilFunc(_, func, _, _), Func) => Some(func)
    case (StencilFunc(_, _, ref, _), Ref) => Some(ref)
    case (StencilFunc(_, _, _, mask), ValueMask) => Some(mask)
    case (StencilMask(_, mask), WriteMask) => Some(mask)
    case (StencilOp(_, fail, _, _), Fail) => Some(fail)
    case (StencilOp(_, _, depthFail, _), DepthFail) => Some(depthFail)
    case (StencilOp(_, _, _, depthPass), DepthPass) => Some(depthPass)
    case _ => None
  }

  /** The enumerations of sections 4.1.4 and 4.2.2 of OpenGL ES 2.0, by value. */
  predicate InTables(call: Call) {
    var faces := {0x0404, 0x0405, 0x0408};
    var functions := {0x0200, 0x0201, 0x0202, 0x0203, 0x0204, 0x0205, 0x0206, 0x0207};
    var operations := {0, 0x1E00, 0x1E01, 0x1E02, 0x1E03, 0x150A, 0x8507, 0x8508};
    match call
    case SetCap(_, _) => true
    case StencilFunc(face, func, _, _) => face in faces && func in functions
    case StencilMask(face, _) => face in faces
    case StencilOp(face, fail, depthFail, depthPass) =>
      face in faces && fail in operations && depthFail in operations && depthPass in operations
  }

  /** Every field that the call names holds its argument on this side, if the call names the side. */
  predicate Given(side: Side, call: Call, front: bool)
    requires !call.SetCap?
  {
    NamesFace(call.face, front) ==>
      forall field: Field :: Argument(call, field).Some? ==> ValueOf(side, field) == Argument(call, field).value
  }

  /** Every other field, or every field of a side that it does not name, is what it was. */
  predicate OthersKept(before: Side, after: Side, call: Call, front: bool)
    requires !call.SetCap?
  {
    forall field: Field :: !NamesFace(call.face, front) || Argument(call, field).None? ==>
      ValueOf(after, field) == ValueOf(before, field)
  }

  /** A call of the client, said without the functions that carry it out. */
  predicate Does(front: Side, back: Side, call: Call, reaction: Reaction, front': Side, back': Side)
    requires !call.SetCap?
  {
    && (reaction == Reject <==> !InTables(call))
    && (reaction == Reject ==> front' == front && back' == back)
    && (reaction != Reject ==>
          && Given(front', call, true) && OthersKept(front, front', call, true)
          && Given(back', call, false) && OthersKept(back, back', call, false)
          && (reaction == Elide <==> Given(front, call, true) && Given(back, call, false)))
  }

  lemma GivenMeans(side: Side, call: Call)
    requires !call.SetCap?
    ensures OneSide(side, call) == side <==>
      forall field: Field :: Argument(call, field).Some? ==> ValueOf(side, field) == Argument(call, field).value
  {
    var fields := [Func, Ref, ValueMask, WriteMask, Fail, DepthFail, DepthPass];
    if forall field: Field :: Argument(call, field).Some? ==> ValueOf(side, field) == Argument(call, field).value {
      assert forall i :: 0 <= i < |fields| && Argument(call, fields[i]).Some? ==>
        ValueOf(side, fields[i]) == Argument(call, fields[i]).value;
      assert fields[0] == Func && fields[1] == Ref && fields[2] == ValueMask && fields[3] == WriteMask;
      assert fields[4] == Fail && fields[5] == DepthFail && fields[6] == DepthPass;
    }
  }

  /** The client's step does just that. */
  lemma StepDoes(c: Cached, call: Call)
    requires !call.SetCap?
    ensures var (c', reaction) := CacheStep(c, call);
      Does(c.front, c.back, call, reaction, c'.front, c'.back)
  {
    if InTables(call) {
      GivenMeans(c.front, call);
      GivenMeans(c.back, call);
    }
  }

  datatype Caps = Caps(blend: bool, cullFace: bool, depthTest: bool, dither: bool, polygonOffsetFill: bool,
                       sampleAlphaToCoverage: bool, sampleCoverage: bool, scissorTest: bool, stencilTest: bool)
  {
    predicate On(cap: nat) {
      if cap == GL_BLEND then blend
      else if cap == GL_CULL_FACE then cullFace
      else if cap == GL_DEPTH_TEST then depthTest
      else if cap == GL_DITHER then dither
      else if cap == GL_POLYGON_OFFSET_FILL then polygonOffsetFill
      else if cap == GL_SAMPLE_ALPHA_TO_COVERAGE then sampleAlphaToCoverage
      else if cap == GL_SAMPLE_COVERAGE then sampleCoverage
      else if cap == GL_SCISSOR_TEST then scissorTest
      else cap == GL_STENCIL_TEST && stencilTest
    }

    function Enabled(): set<nat> {
      set cap | cap in TRACKED && On(cap)
    }

    function With(cap: nat, on: bool): Caps {
      if cap == GL_BLEND then this.(blend := on)
      else if cap == GL_CULL_FACE then this.(cullFace := on)
      else if cap == GL_DEPTH_TEST then this.(depthTest := on)
      else if cap == GL_DITHER then this.(dither := on)
      else if cap == GL_POLYGON_OFFSET_FILL then this.(polygonOffsetFill := on)
      else if cap == GL_SAMPLE_ALPHA_TO_COVERAGE then this.(sampleAlphaToCoverage := on)
      else if cap == GL_SAMPLE_COVERAGE then this.(sampleCoverage := on)
      else if cap == GL_SCISSOR_TEST then this.(scissorTest := on)
      else if cap == GL_STENCIL_TEST then this.(stencilTest := on)
      else this
    }

    lemma WithOn(cap: nat, on: bool, c: nat)
      requires c in TRACKED
      ensures With(cap, on).On(c) <==> if c == cap then on else On(c)
    {
    }

    lemma WithSame(cap: nat)
      ensures With(cap, On(cap)) == this
    {
    }

    /** Setting one flag sets one capability, and an untracked one sets none. */
    lemma WithMeans(cap: nat, on: bool)
      ensures With(cap, on).Enabled() == if cap !in TRACKED then Enabled()
                                         else if on then Enabled() + {cap} else Enabled() - {cap}
      ensures cap in TRACKED ==> (cap in Enabled() <==> On(cap)) && (On(cap) == on ==> With(cap, on) == this)
    {
      hide With, On, TRACKED;
      WithSame(cap);
      forall c | c in TRACKED ensures With(cap, on).On(c) <==> if c == cap then on else On(c) {
        WithOn(cap, on, c);
      }
    }
  }

  /** The cached part of the state; its fields are grouped by what they describe. */
  class ClientState {
    var caps: Caps
    var front: Side
    var back: Side

    ghost function View(): Cached
      reads this
    {
      Cached(caps.Enabled(), front, back)
    }

    method SetCap(cap: nat, enable: bool) returns (needsCall: bool)
      modifies `caps
      ensures (View(), if needsCall then Forward else Elide) == CacheStep(old(View()), Call.SetCap(cap, enable))
      ensures front == old(front) && back == old(back)
      ensures cap == 0x0BE2 ==> caps == old(caps).(blend := enable)
      ensures cap == 0x0B44 ==> caps == old(caps).(cullFace := enable)
      ensures cap == 0x0B71 ==> caps == old(caps).(depthTest := enable)
      ensures cap == 0x0BD0 ==> caps == old(caps).(dither := enable)
      ensures cap == 0x8037 ==> caps == old(caps).(polygonOffsetFill := enable)
      ensures cap == 0x809E ==> caps == old(caps).(sampleAlphaToCoverage := enable)
      ensures cap == 0x80A0 ==> caps == old(caps).(sampleCoverage := enable)
      ensures cap == 0x0C11 ==> caps == old(caps).(scissorTest := enable)
      ensures cap == 0x0B90 ==> caps == old(caps).(stencilTest := enable)
      ensures if cap in {0x0BE2, 0x0B44, 0x0B71, 0x0BD0, 0x8037, 0x809E, 0x80A0, 0x0C11, 0x0B90}
              then needsCall <==> caps != old(caps) else needsCall && caps == old(caps)
    {
      hide Caps.Enabled;
      needsCall := false;
      if cap == GL_BLEND {
        if caps.blend != enable {
          caps, needsCall := caps.(blend := enable), true;
        }
      } else if cap == GL_CULL_FACE {
        if caps.cullFace != enable {
          caps, needsCall := caps.(cullFace := enable), true;
        }
      } else if cap == GL_DEPTH_TEST {
        if caps.depthTest != enable {
          caps, needsCall := caps.(depthTest := enable), true;
        }
      } else if cap == GL_DITHER {
        if caps.dither != enable {
          caps, needsCall := caps.(dither := enable), true;
        }
      } else if cap == GL_POLYGON_OFFSET_FILL {
        if caps.polygonOffsetFill != enable {
          caps, needsCall := caps.(polygonOffsetFill := enable), true;
        }
      } else if cap == GL_SAMPLE_ALPHA_TO_COVERAGE {
        if caps.sampleAlphaToCoverage != enable {
          caps, needsCall := caps.(sampleAlphaToCoverage := enable), true;
        }
      } else if cap == GL_SAMPLE_COVERAGE {
        if caps.sampleCoverage != enable {
          caps, needsCall := caps.(sampleCoverage := enable), true;
        }
      } else if cap == GL_SCISSOR_TEST {
        if caps.scissorTest != enable {
          caps, needsCall := caps.(scissorTest := enable), true;
        }
      } else if cap == GL_STENCIL_TEST {
        if caps.stencilTest != enable {
          caps, needsCall := caps.(stencilTest := enable), true;
        }
      } else {
        needsCall := true;
      }
      old(caps).WithMeans(cap, enable);
      assert caps == old(caps).With(cap, enable);
    }

    method StencilFuncSeparate(face: nat, func: nat, ref: int, mask: nat) returns (reaction: Reaction)
      modifies `front, `back
      ensures (View(), reaction) == CacheStep(old(View()), StencilFunc(face, func, ref, mask))
      ensures caps == old(caps)
      ensures Does(old(front), old(back), StencilFunc(face, func, ref, mask), reaction, front, back)
    {
      StepDoes(View(), StencilFunc(face, func, ref, mask));
      hide Does;
      if !ValidFace(face) || !ValidFunc(func) {
        return Reject;
      }
      reaction := Elide;
      if face == GL_FRONT {
        if func != front.func || ref != front.ref || mask != front.valueMask {
          front := front.(func := func, ref := ref, valueMask := mask);
          reaction := Forward;
        }
      } else if face == GL_BACK {
        if func != back.func || ref != back.ref || mask != back.valueMask {
          back := back.(func := func, ref := ref, valueMask := mask);
          reaction := Forward;
        }
      } else if func != back.func || func != front.func || ref != back.ref || ref != front.ref
             || mask != back.valueMask || mask != front.valueMask {
        back := back.(func := func, ref := ref, valueMask := mask);
        front := front.(func := func, ref := ref, valueMask := mask);
        reaction := Forward;
      }
    }

    method StencilMaskSeparate(face: nat, mask: nat) returns (reaction: Reaction)
      modifies `front, `back
      ensures (View(), reaction) == CacheStep(old(View()), StencilMask(face, mask))
      ensures caps == old(caps) && Does(old(front), old(back), StencilMask(face, mask), reaction, front, back)
    {
      StepDoes(View(), StencilMask(face, mask));
      hide Does;
      if !ValidFace(face) {
        return Reject;
      }
      reaction := Elide;
      if face == GL_FRONT {
        if mask != front.writeMask {
          front, reaction := front.(writeMask := mask), Forward;
        }
      } else if face == GL_BACK {
        if mask != back.writeMask {
          back, reaction := back.(writeMask := mask), Forward;
        }
      } else if mask != back.writeMask || mask != front.writeMask {
        back, front := back.(writeMask := mask), front.(writeMask := mask);
        reaction := Forward;
      }
    }

    method StencilOpSeparate(face: nat, fail: nat, depthFail: nat, depthPass: nat) returns (reaction: Reaction)
      modifies `front, `back
      ensures (View(), reaction) == CacheStep(old(View()), StencilOp(face, fail, depthFail, depthPass))
      ensures caps == old(caps)
      ensures Does(old(front), old(back), StencilOp(face, fail, depthFail, depthPass), reaction, front, back)
    {
      StepDoes(View(), StencilOp(face, fail, depthFail, depthPass));
      hide Does;
      if !ValidFace(face) || !ValidOp(fail) || !ValidOp(depthFail) || !ValidOp(depthPass) {
        return Reject;
      }
      reaction := Elide;
      if face == GL_FRONT {
        if fail != front.fail || depthFail != front.depthFail || depthPass != front.depthPass {
          front := front.(fail := fail, depthFail := depthFail, depthPass := depthPass);
          reaction := Forward;
        }
      } else if face == GL_BACK {
        if fail != back.fail || depthFail != back.depthFail || depthPass != back.depthPass {
          back := back.(fail := fail, depthFail := depthFail, depthPass := depthPass);
          reaction := Forward;
        }
      } else if fail != front.fail || depthFail != front.depthFail || depthPass != front.depthPass
             || fail != back.fail || depthFail != back.depthFail || depthPass != back.depthPass {
        front := front.(fail := fail, depthFail := depthFail, depthPass := depthPass);
        back := back.(fail := fail, depthFail := depthFail, depthPass := depthPass);
        reaction := Forward;
      }
    }
  }

  // ----- Elision keeps the meaning -----

  /** The cache holds what the driver holds. */
  ghost predicate Agree(c: Cached, d: Driver) {
    && TRACKED <= d.known
    && (forall cap :: cap in TRACKED ==> (cap in c.enabled <==> cap in d.enabled))
    && c.front == d.front && c.back == d.back
  }

  /** The cache and the calls that went through, after a sequence of calls. */
  function Through(c: Cached, calls: seq<Call>): (Cached, seq<Call>) {
    if calls == [] then (c, []) else
      var n := |calls| - 1;
      var (before, sent) := Through(c, calls[..n]);
      var (after, reaction) := CacheStep(before, calls[n]);
      (after, if reaction == Forward then sent + [calls[n]] else sent)
  }

  /** The errors the application sees: the client's own, and the driver's for what goes through. */
  function ErrorsSeen(c: Cached, d: Driver, calls: seq<Call>): seq<bool> {
    if calls == [] then [] else
      var n := |calls| - 1;
      var (before, sent) := Through(c, calls[..n]);
      var reaction := CacheStep(before, calls[n]).1;
      ErrorsSeen(c, d, calls[..n])
      + [reaction == Reject || (reaction == Forward && Invalid(ApplyAll(d, sent), calls[n]))]
  }

  /**
   One call: agreement is kept; a call that is not forwarded would have changed nothing; and a
   tracked one is forwarded exactly when it changes the driver's state.
   */
  lemma StepAgrees(c: Cached, d: Driver, call: Call)
    requires Agree(c, d)
    ensures var (c', reaction) := CacheStep(c, call);
      && Agree(c', Apply(d, call))
      && (reaction != Forward ==> Apply(d, call) == d)
      && (reaction == Reject ==> Invalid(d, call)) && (reaction == Elide ==> !Invalid(d, call))
      && (!call.SetCap? || call.cap in TRACKED ==> (reaction == Forward <==> Apply(d, call) != d))
  {
    if call.SetCap? && call.cap in TRACKED {
      assert call.cap in d.known;
    }
  }

  /**
   For every sequence of calls, starting in agreement: forwarding only what the cache lets through
   leaves the driver in the very state that forwarding everything would, the application sees the
   same errors, and cache and driver agree again. Taken at every prefix: they agree at every step.
   */
  lemma {:induction false} ElisionSound(c: Cached, d: Driver, calls: seq<Call>)
    requires Agree(c, d)
    ensures ApplyAll(d, Through(c, calls).1) == ApplyAll(d, calls)
    ensures ErrorsSeen(c, d, calls) == ErrorsOf(d, calls)
    ensures Agree(Through(c, calls).0, ApplyAll(d, calls))
  {
    if calls != [] {
      var n := |calls| - 1;
      ElisionSound(c, d, calls[..n]);
      var (before, sent) := Through(c, calls[..n]);
      StepAgrees(before, ApplyAll(d, calls[..n]), calls[n]);
      assert (sent + [calls[n]])[..|sent|] == sent;
    }
  }

  // ----- Where a context starts -----

  /** What the client's masks start as, set byte by byte, and the driver's. */
  const CLIENT_INITIAL_MASK: nat := 0x0101_0101
  const DRIVER_INITIAL_MASK: nat := 0xFFFF_FFFF

  /** Cache and driver agree on everything but, perhaps, some of the four masks. */
  ghost predicate AgreeButMasks(c: Cached, d: Driver) {
    && TRACKED <= d.known
    && (forall cap :: cap in TRACKED ==> (cap in c.enabled <==> cap in d.enabled))
    && c.front.(valueMask := d.front.valueMask, writeMask := d.front.writeMask) == d.front
    && c.back.(valueMask := d.back.valueMask, writeMask := d.back.writeMask) == d.back
  }

  /** The call is dropped although a mask it sets is another in the driver than in the cache. */
  predicate Lost(c: Cached, d: Driver, call: Call) {
    && !call.SetCap? && AcceptedByClient(call) && !Changes(c, call)
    && match call
       case StencilFunc(face, _, _, _) =>
         || (face != GL_BACK && c.front.valueMask != d.front.valueMask)
         || (face != GL_FRONT && c.back.valueMask != d.back.valueMask)
       case StencilMask(face, _) =>
         || (face != GL_BACK && c.front.writeMask != d.front.writeMask)
         || (face != GL_FRONT && c.back.writeMask != d.back.writeMask)
       case _ => false
  }

  predicate NoneLost(c: Cached, d: Driver, calls: seq<Call>) {
    calls == [] ||
    var n := |calls| - 1;
    NoneLost(c, d, calls[..n]) && !Lost(Through(c, calls[..n]).0, ApplyAll(d, calls[..n]), calls[n])
  }

  /** After every one of the calls the driver is where forwarding all of them would have it. */
  predicate SameThroughout(c: Cached, d: Driver, calls: seq<Call>) {
    calls == [] ||
    var n := |calls| - 1;
    SameThroughout(c, d, calls[..n]) && ApplyAll(d, Through(c, calls).1) == ApplyAll(d, calls)
  }

  lemma StepButMasks(c: Cached, d: Driver, call: Call)
    requires AgreeButMasks(c, d)
    ensures var (c', reaction) := CacheStep(c, call);
      var d' := if reaction == Forward then Apply(d, call) else d;
      && AgreeButMasks(c', d')
      && (d' == Apply(d, call) <==> !Lost(c, d, call))
      && (reaction == Reject ==> Invalid(d, call)) && (reaction == Elide ==> !Invalid(d, call))
  {
    if call.SetCap? && call.cap in TRACKED {
      assert call.cap in d.known;
    }
  }

  /** Whatever is dropped, the driver's capabilities and the errors of later calls are not concerned. */
  lemma {:induction false} KnownStays(d: Driver, calls: seq<Call>)
    ensures ApplyAll(d, calls).known == d.known
  {
    if calls != [] {
      KnownStays(d, calls[..|calls| - 1]);
    }
  }

  lemma {:induction false} ThroughButMasks(c: Cached, d: Driver, calls: seq<Call>)
    requires AgreeButMasks(c, d)
    ensures AgreeButMasks(Through(c, calls).0, ApplyAll(d, Through(c, calls).1))
    ensures ErrorsSeen(c, d, calls) == ErrorsOf(d, calls)
  {
    hide AgreeButMasks, CacheStep, Apply, Invalid;
    if calls != [] {
      var n := |calls| - 1;
      ThroughButMasks(c, d, calls[..n]);
      var (before, sent) := Through(c, calls[..n]);
      StepButMasks(before, ApplyAll(d, sent), calls[n]);
      SameErrors(d, sent, calls[..n], calls[n]);
      assert (sent + [calls[n]])[..|sent|] == sent;
    }
  }

  lemma SameErrors(d: Driver, a: seq<Call>, b: seq<Call>, call: Call)
    ensures Invalid(ApplyAll(d, a), call) == Invalid(ApplyAll(d, b), call)
  {
    KnownStays(d, a);
    KnownStays(d, b);
  }

  /**
   A context does not start in agreement: its masks differ. From there, for every sequence of calls, the
   application sees the right errors, and the driver is always where forwarding everything would have
   it if and only if no call is dropped that sets a mask which differs at that moment.
   */
  lemma {:induction false} ElisionExactly(c: Cached, d: Driver, calls: seq<Call>)
    requires AgreeButMasks(c, d)
    ensures SameThroughout(c, d, calls) <==> NoneLost(c, d, calls)
    ensures ErrorsSeen(c, d, calls) == ErrorsOf(d, calls)
  {
    ThroughButMasks(c, d, calls);
    hide AgreeButMasks, CacheStep, Apply, Invalid, Lost, ErrorsSeen, ErrorsOf;
    if calls != [] {
      var n := |calls| - 1;
      ElisionExactly(c, d, calls[..n]);
      ThroughButMasks(c, d, calls[..n]);
      if SameThroughout(c, d, calls[..n]) {
        SentIsAll(c, d, calls[..n]);
      }
      var (before, sent) := Through(c, calls[..n]);
      StepButMasks(before, ApplyAll(d, sent), calls[n]);
      assert (sent + [calls[n]])[..|sent|] == sent;
    }
  }

  lemma SentIsAll(c: Cached, d: Driver, calls: seq<Call>)
    requires SameThroughout(c, d, calls)
    ensures ApplyAll(d, Through(c, calls).1) == ApplyAll(d, calls)
  {
  }

  /** The first call of a context: what is lost is asking for the client's own initial mask. */
  lemma FirstMaskLost(c: Cached, d: Driver, call: Call)
    requires AgreeButMasks(c, d)
    requires c.front.writeMask == c.back.writeMask == c.front.valueMask == c.back.valueMask == CLIENT_INITIAL_MASK
    requires d.front.writeMask == d.back.writeMask == d.front.valueMask == d.back.valueMask == DRIVER_INITIAL_MASK
    requires c.front.func == c.back.func && c.front.ref == c.back.ref
    ensures ApplyAll(d, Through(c, [call]).1) != ApplyAll(d, [call]) <==>
      || (call.StencilMask? && ValidFace(call.face) && call.mask == CLIENT_INITIAL_MASK)
      || (call.StencilFunc? && ValidFace(call.face) && ValidFunc(call.func)
          && call == StencilFunc(call.face, c.front.func, c.front.ref, CLIENT_INITIAL_MASK))
  {
    ElisionExactly(c, d, [call]);
    assert [call][..0] == [];
    assert Through(c, []) == (c, []) && ApplyAll(d, []) == d;
    assert SameThroughout(c, d, []) && NoneLost(c, d, []);
    assert NoneLost(c, d, [call]) == !Lost(c, d, call);
  }
}
