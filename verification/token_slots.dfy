/**
 The first hypothesis of the token protocol, where a client can check it: when it is given space. The
 client knows the slots of its own commands, and `fill` tells it which of them was released last.
 */
module TokenSlots {
  import opened Bytes
  import opened CommandQueue
  import opened QueueSafety
  import opened QueueSync
  import opened Wrappers

  /** How far ahead of `head` byte `i` of the token field is, in the command whose header is at `at`. */
  function Ahead(s: State, at: nat, i: nat): nat
    requires s.Length() > 0
  {
    Cell(s.Length(), at + TOKEN_AT + i + (s.Length() - Cell(s.Length(), s.head)))
  }

  /** The space the client holds contains a byte of that token field. */
  predicate Reaches(s: State, at: nat)
    requires s.Length() > 0
  {
    exists i {:trigger Ahead(s, at, i)} :: 0 <= i < 4 && Ahead(s, at, i) < s.reserved
  }

  lemma AheadIsThere(s: State, at: nat, i: nat)
    requires Positions(s)
    ensures Cell(s.Length(), s.head + Ahead(s, at, i)) == Cell(s.Length(), at + TOKEN_AT + i)
  {
    var n := s.Length();
    CellOfCell(n, s.hist.headPos, 0);
    CellOfCell(n, at + TOKEN_AT + i + (n - s.head), s.head);
    CellOfNextRound(n, at + TOKEN_AT + i);
  }

  lemma OnlyAhead(s: State, at: nat, i: nat, offset: nat)
    requires Positions(s) && offset < s.Length()
    requires Cell(s.Length(), s.head + offset) == Cell(s.Length(), at + TOKEN_AT + i)
    ensures offset == Ahead(s, at, i)
  {
    AheadIsThere(s, at, i);
    var a := Ahead(s, at, i);
    if a < offset {
      CellsDiffer(s.Length(), s.head + a, s.head + offset);
    } else if offset < a {
      CellsDiffer(s.Length(), s.head + offset, s.head + a);
    }
  }

  /** A store of the client into a token field is a store into one the space it holds reaches. */
  lemma StoreReaches(s: State, at: nat, offset: nat)
    requires Positions(s) && offset < s.reserved
    requires Cell(s.Length(), s.head + offset) in TokenCells(s.Length(), at)
    ensures Reaches(s, at)
  {
    var i :| 0 <= i < 4 && Cell(s.Length(), s.head + offset) == Cell(s.Length(), at + TOKEN_AT + i);
    OnlyAhead(s, at, i, offset);
  }

  // ----- One state: when the race can happen -----

  /** Storing `value` at `offset` just before the server reads the token acknowledges a wrong one. */
  ghost predicate Misreads(s: State, offset: nat, value: Byte) {
    var end := Outcome(s, [WriteByte(offset, value), TestReadToken, StoreToken]);
    end.Some? && end.value.lastToken != end.value.clientToken
  }

  lemma ThreeSteps(s: State, a: Step, b: Step, c: Step)
    ensures Outcome(s, [a, b, c]) == match Outcome(s, [a])
      case None => None
      case Some(m) =>
        if m.Length() > 0 && Enabled(m, b) && After(m, b).Length() > 0 && Enabled(After(m, b), c)
        then Some(After(After(m, b), c)) else None
    ensures Outcome(s, [a]) == if s.Length() > 0 && Enabled(s, a) then Some(After(s, a)) else None
  {
    hide After, Enabled;
    assert [a, b, c][..2] == [a, b] && [a, b][..1] == [a] && [a][..0] == [];
    assert Outcome(s, []) == Some(s);
  }

  /** Of the values a token field takes with one byte stored, at most one is a given token or zero. */
  lemma SomeOtherToken(t: seq<Byte>, i: nat, token: nat) returns (value: Byte)
    requires |t| == 4 && i < 4
    ensures FromLE(t[i := value]) != 0 && FromLE(t[i := value]) != token
  {
    var t1, t2 := t[i := 1], t[i := 2];
    FourBytes(t1);
    FourBytes(t2);
    value := if FromLE(t1) != token then 1 else 2;
  }

  lemma FourBytes(t: seq<Byte>)
    requires |t| == 4
    ensures FromLE(t) ==
      (t[0] as int) + 256 * (t[1] as int) + 65536 * (t[2] as int) + 16777216 * (t[3] as int)
  {
    FirstByte(t, t[1..]);
    FirstByte(t[1..], t[2..]);
    FirstByte(t[2..], t[3..]);
    FirstByte(t[3..], []);
  }

  lemma FirstByte(t: seq<Byte>, rest: seq<Byte>)
    requires t != [] && rest == t[1..]
    ensures FromLE(t) == t[0] + 256 * FromLE(rest)
    ensures rest == [] ==> FromLE(rest) == 0
  {
  }

  lemma OtherTokenCells(length: nat, at: nat, i: nat, k: nat)
    requires length >= HEADER && i < 4 && k < 4 && k != i
    ensures Cell(length, at + TOKEN_AT + k) != Cell(length, at + TOKEN_AT + i)
  {
    hide Cell;
    if k < i {
      CellsDiffer(length, at + TOKEN_AT + k, at + TOKEN_AT + i);
    } else {
      CellsDiffer(length, at + TOKEN_AT + i, at + TOKEN_AT + k);
    }
  }

  /** Storing one byte of a token field changes that byte of it and no other. */
  lemma FieldAfterStore(mem: seq<Byte>, at: nat, i: nat, cell: nat, value: Byte)
    requires |mem| >= HEADER && i < 4 && cell == Cell(|mem|, at + TOKEN_AT + i)
    ensures Window(mem[cell := value], at, HEADER)[TOKEN_AT..TOKEN_AT + 4]
         == Window(mem, at, HEADER)[TOKEN_AT..TOKEN_AT + 4][i := value]
  {
    hide Cell, Window;
    var w, w' := Window(mem, at, HEADER), Window(mem[cell := value], at, HEADER);
    forall k | TOKEN_AT <= k < TOKEN_AT + 4
      ensures w'[k] == if k == TOKEN_AT + i then value else w[k]
    {
      if k != TOKEN_AT + i {
        OtherTokenCells(|mem|, at, i, k - TOKEN_AT);
      }
      assert w'[k] == mem[cell := value][Cell(|mem|, at + k)];
    }
    assert w'[TOKEN_AT..TOKEN_AT + 4] == w[TOKEN_AT..TOKEN_AT + 4][i := value];
  }

  lemma MisreadByToken(s: State, at: nat, offset: nat, value: Byte)
    requires s.Length() > 0 && s.server == ReadToken(at) && s.client.Building? && offset < s.reserved
    requires var t := TokenAt(s.mem[Cell(s.Length(), s.head + offset) := value], at);
      t != 0 && t != s.clientToken
    ensures Misreads(s, offset, value)
  {
    hide TokenAt, Outcome, Cell;
    ThreeSteps(s, WriteByte(offset, value), TestReadToken, StoreToken);
  }

  lemma ReachedIsMisread(s: State, at: nat) returns (offset: nat, value: Byte)
    requires Inv(s) && s.server == ReadToken(at) && s.client.Building? && Reaches(s, at)
    ensures Misreads(s, offset, value)
  {
    var i :| 0 <= i < 4 && Ahead(s, at, i) < s.reserved;
    offset := Ahead(s, at, i);
    hide Ahead, FromLE, Stored, Framed, ServerPlace, ClientPlace, Misreads;
    AheadIsThere(s, at, i);
    value := SomeOtherToken(Window(s.mem, at, HEADER)[TOKEN_AT..TOKEN_AT + 4], i, s.clientToken);
    FieldAfterStore(s.mem, at, i, Cell(s.Length(), s.head + offset), value);
    hide Cell;
    MisreadByToken(s, at, offset, value);
  }

  lemma MisreadIsReached(s: State, at: nat, offset: nat, value: Byte)
    requires SyncInv(s) && s.server == ReadToken(at) && s.client.Building? && Misreads(s, offset, value)
    ensures Reaches(s, at)
  {
    hide OneOutstanding, TokenIntact, Counted, Posted, ReplyReadable, Stored, Framed, ServerPlace, ClientPlace;
    hide Window, TokenAt, Reaches;
    ThreeSteps(s, WriteByte(offset, value), TestReadToken, StoreToken);
    var m := After(s, WriteByte(offset, value));
    if Cell(s.Length(), s.head + offset) in TokenCells(s.Length(), at) {
      StoreReaches(s, at, offset);
    } else {
      hide Outcome, Inv, TokenCells, Cell, TokenIn;
      WriteByteSyncs(s, WriteByte(offset, value));
      TestReadTokenSyncs(m, TestReadToken);
      hide SyncInv, TokenCells, Cell;
      StoreTokenSyncs(After(m, TestReadToken), StoreToken);
    }
  }

  /**
   The race, exactly: when the server is about to read a token, one store of the client can make it
   acknowledge a wrong one if and only if the space the client holds reaches the token's four bytes.
   */
  lemma TokenRaceExactly(s: State, at: nat)
    requires SyncInv(s) && s.server == ReadToken(at) && s.client.Building?
    ensures (exists offset: nat, value: Byte :: Misreads(s, offset, value)) <==> Reaches(s, at)
  {
    if Reaches(s, at) {
      var offset, value := ReachedIsMisread(s, at);
    }
    forall offset: nat, value: Byte | Misreads(s, offset, value) ensures Reaches(s, at) {
      MisreadIsReached(s, at, offset, value);
    }
  }

  // ----- Whole runs: checking at each grant is enough -----

  /** The client's command whose slot, by the counter, is the last one released. */
  predicate ReleasedLast(s: State, k: nat) {
    k < |s.hist.log.committed| && k + 1 < |s.hist.log.bounds|
    && s.hist.log.bounds[k + 1] + s.fill == |s.hist.log.stream|
  }

  /** Space that is newly given does not reach the token of the slot released last. */
  ghost predicate SparingGrant(s: State, step: Step)
    requires s.Length() > 0 && Enabled(s, step)
  {
    step.PollSpace? && After(s, step).reserved > s.reserved ==>
      forall k: nat :: ReleasedLast(s, k) ==>
        !Reaches(After(s, step), Cell(s.Length(), s.hist.log.bounds[k]))
  }

  /** The space the client holds keeps clear of a token that is still to be read. */
  ghost predicate TokenClear(s: State)
    requires s.Length() > 0
  {
    s.server.ReadToken? || s.server.SetToken? ==> !Reaches(s, s.server.at)
  }

  lemma SameSpace(s: State, s': State, at: nat)
    requires s.Length() == s'.Length() > 0 && s.head == s'.head && s.reserved == s'.reserved
    ensures Reaches(s, at) <==> Reaches(s', at)
  {
    hide Cell;
    assert forall i {:trigger Ahead(s, at, i)} {:trigger Ahead(s', at, i)} :: 0 <= i < 4 ==>
      Ahead(s, at, i) == Ahead(s', at, i);
  }

  /** A slot that is being released is no space of the client's yet. */
  lemma ReleaseClears(s: State)
    requires Inv(s) && s.server.SubFill?
    ensures !Reaches(s, s.server.at)
  {
    var h, n := s.hist, s.Length();
    var start := h.log.bounds[h.passed - 1];
    assert FramedAt(h.log, h.passed - 1);
    forall i | 0 <= i < 4 ensures !(Ahead(s, s.server.at, i) < s.reserved) {
      AheadIsThere(s, s.server.at, i);
      CellOfCell(n, start, TOKEN_AT + i);
      CellOfCell(n, h.headPos, Ahead(s, s.server.at, i));
      if Ahead(s, s.server.at, i) < s.reserved {
        CellsDiffer(n, start + TOKEN_AT + i, h.headPos + Ahead(s, s.server.at, i));
        assert false;
      }
    }
  }

  /** Moving `head` gives space away; nothing new is reached. */
  lemma MoveHeadClears(s: State, step: Step, at: nat)
    requires Inv(s) && step.UpdateHead? && Enabled(s, step) && Reaches(After(s, step), at)
    ensures Reaches(s, at)
  {
    var s' := After(s, step);
    StepKeeps(s, step);
    var i :| 0 <= i < 4 && Ahead(s', at, i) < s'.reserved;
    AheadIsThere(s', at, i);
    var offset := s.client.size + Ahead(s', at, i);
    CellOfCell(s.Length(), s.hist.headPos, offset);
    CellOfCell(s.Length(), s'.hist.headPos, Ahead(s', at, i));
    OnlyAhead(s, at, i, offset);
  }

  lemma GrantStaysClear(s: State, step: Step)
    requires Inv(s) && step.PollSpace? && Enabled(s, step) && SparingGrant(s, step) && TokenClear(s)
    ensures TokenClear(After(s, step))
  {
    hide Stored, Kept, ClientPlace, Reaches, Cell;
    if s.server.ReadToken? || s.server.SetToken? {
      assert FramedAt(s.hist.log, s.hist.passed - 1);
      assert ReleasedLast(s, s.hist.passed - 1);
      if After(s, step).reserved <= s.reserved {
        SameSpace(s, After(s, step), s.server.at);
      }
    }
  }

  lemma StoreStaysClear(s: State, step: Step)
    requires Inv(s) && step.WriteByte? && Enabled(s, step) && TokenClear(s)
    ensures TokenClear(After(s, step)) && SparesToken(s, step)
  {
    hide Stored, Kept, ClientPlace, Framed, ServerPlace, Reaches, Cell, TokenCells;
    if s.server.ReadToken? || s.server.SetToken? {
      SameSpace(s, After(s, step), s.server.at);
      if Cell(s.Length(), s.head + step.offset) in TokenCells(s.Length(), s.server.at) {
        StoreReaches(s, s.server.at, step.offset);
      }
    }
  }

  lemma OtherStepStaysClear(s: State, step: Step)
    requires s.Length() > 0 && Enabled(s, step) && TokenClear(s)
    requires !step.PollSpace? && !step.UpdateHead? && !step.Release? && !step.WriteByte?
    ensures After(s, step).Length() > 0 && TokenClear(After(s, step))
  {
    hide TokenAt, SizeAt, Window, Cell, Reaches;
    if s.server.ReadToken? || s.server.SetToken? {
      SameSpace(s, After(s, step), s.server.at);
    }
  }

  lemma ReleaseStaysClear(s: State, step: Step)
    requires Inv(s) && step.Release? && Enabled(s, step)
    ensures TokenClear(After(s, step))
  {
    hide Stored, Kept, ClientPlace, Framed, ServerPlace, Reaches;
    ReleaseClears(s);
    SameSpace(s, After(s, step), s.server.at);
  }

  lemma StepStaysClear(s: State, step: Step)
    requires Inv(s) && Enabled(s, step) && SparingGrant(s, step) && TokenClear(s)
    ensures TokenClear(After(s, step)) && SparesToken(s, step)
  {
    hide Stored, Kept, ClientPlace, Ahead, Framed, ServerPlace, SparingGrant;
    match step
    case PollSpace => GrantStaysClear(s, step);
    case UpdateHead =>
      if (s.server.ReadToken? || s.server.SetToken?) && Reaches(After(s, step), s.server.at) {
        MoveHeadClears(s, step, s.server.at);
      }
    case Release => ReleaseStaysClear(s, step);
    case WriteByte(_, _) => StoreStaysClear(s, step);
    case _ => OtherStepStaysClear(s, step);
  }

  lemma {:induction false} RunStaysClear(states: seq<State>, steps: seq<Step>, i: nat)
    requires Run(states, steps) && i < |states|
    requires forall j {:trigger steps[j]} :: 0 <= j < |steps| ==> SparingGrant(states[j], steps[j])
    ensures Inv(states[i]) && TokenClear(states[i])
  {
    RunKeeps(states, steps, i);
    if i > 0 {
      RunStaysClear(states, steps, i - 1);
      StepStaysClear(states[i - 1], steps[i - 1]);
    }
  }

  /**
   What a client can do about it: if it takes no space that reaches the token of the slot released
   last, as its own log and `fill` show it at that moment, then no later store of any command it
   lays out there can disturb a token, however the server goes on meanwhile.
   */
  lemma SparingGrantsAreEnough(states: seq<State>, steps: seq<Step>)
    requires Run(states, steps)
    requires forall i {:trigger steps[i]} :: 0 <= i < |steps| ==>
      SparingGrant(states[i], steps[i]) && NoWrap(states[i], steps[i])
    ensures OrderlyRun(states, steps)
  {
    forall i | 0 <= i < |steps| ensures SparesToken(states[i], steps[i]) && NoWrap(states[i], steps[i]) {
      RunStaysClear(states, steps, i);
      StepStaysClear(states[i], steps[i]);
    }
  }

  /** In numbers: the space held is sparing if it stays `size - TOKEN_AT` bytes short of all that is free. */
  lemma SparingInNumbers(s: State, k: nat)
    requires Inv(s) && ReleasedLast(s, k) && s.hist.headPos <= s.hist.log.bounds[k] + s.Length() + TOKEN_AT
    ensures Reaches(s, Cell(s.Length(), s.hist.log.bounds[k])) <==>
      Uncounted(s) + s.reserved + |s.hist.log.committed[k]| > s.Length() - s.fill + TOKEN_AT
  {
    hide Stored, Kept, ClientPlace, ServerPlace, Ahead;
    var n, start := s.Length(), s.hist.log.bounds[k];
    assert FramedAt(s.hist.log, k);
    forall i | 0 <= i < 4 ensures Ahead(s, Cell(n, start), i) == start + n + TOKEN_AT + i - s.hist.headPos {
      var offset := start + n + TOKEN_AT + i - s.hist.headPos;
      CellOfCell(n, s.hist.headPos, offset);
      CellOfNextRound(n, start + TOKEN_AT + i);
      CellOfCell(n, start, TOKEN_AT + i);
      OnlyAhead(s, Cell(n, start), i, offset);
    }
    if Uncounted(s) + s.reserved + |s.hist.log.committed[k]| > n - s.fill + TOKEN_AT {
      assert Ahead(s, Cell(n, start), 0) < s.reserved;
    }
  }
}
