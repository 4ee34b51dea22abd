/** The intrusive list of enabled vertex attributes, grouped into chunks of overlapping memory. */
module EnabledAttribs {
  import opened Wrappers

  /** What the list looks at in an attribute: where its data is, how far apart, and its chunk. */
  datatype Rec = Rec(pointer: nat, stride: nat, chunk: nat)

  class VertexAttrib {
    var pointer: nat
    var stride: nat
    var chunk: nat
    var nextEnabled: VertexAttrib?

    constructor (pointer: nat, stride: nat)
      ensures this.pointer == pointer && this.stride == stride
    {
      this.pointer, this.stride, this.chunk, this.nextEnabled := pointer, stride, 0, null;
    }

    function AsRec(): Rec
      reads this
    {
      Rec(pointer, stride, chunk)
    }
  }

  // ----- The list on values -----

  predicate Overlap(attrib1: Rec, attrib2: Rec) {
    if attrib1.pointer < attrib2.pointer then attrib2.pointer <= attrib1.pointer + attrib1.stride
    else attrib1.pointer <= attrib2.pointer + attrib2.stride
  }

  /** How many leading attributes do not overlap `r`. */
  function Clear(list: seq<Rec>, r: Rec): (k: nat)
    ensures k <= |list|
  {
    if list == [] || Overlap(r, list[0]) then 0 else 1 + Clear(list[1..], r)
  }

  /** How many leading attributes belong to `chunk` and lie below `pointer`. */
  function Below(list: seq<Rec>, chunk: nat, pointer: nat): (k: nat)
    ensures k <= |list|
  {
    if list == [] || list[0].chunk != chunk || list[0].pointer >= pointer then 0
    else 1 + Below(list[1..], chunk, pointer)
  }

  /** Walking past an attribute raises its chunk number by one. */
  function Bumped(list: seq<Rec>, k: nat): (b: seq<Rec>)
    requires k <= |list|
    ensures |b| == |list|
    ensures forall i :: 0 <= i < |list| ==>
      b[i] == if i < k then list[i].(chunk := list[i].chunk + 1) else list[i]
  {
    seq(|list|, i requires 0 <= i < |list| =>
      if i < k then list[i].(chunk := list[i].chunk + 1) else list[i])
  }

  /** The chunk a new attribute joins: the first one it overlaps, else one below all others. */
  function ChunkFor(list: seq<Rec>, r: Rec): nat {
    var k := Clear(list, r);
    if k < |list| then list[k].chunk else if k > 0 then list[k - 1].chunk else 1
  }

  /** Where it is put. */
  function Place(list: seq<Rec>, r: Rec): (m: nat)
    ensures Clear(list, r) <= m <= |list|
  {
    var k := Clear(list, r);
    if k < |list| then k + Below(list[k..], list[k].chunk, r.pointer) else k
  }

  /** An element put at `m`; one put in front of the head drops everything that was there. */
  function Inserted<T>(list: seq<T>, m: nat, x: T): seq<T>
    requires m <= |list|
  {
    if m == 0 then [x] else list[..m] + [x] + list[m..]
  }

  /** The list after an insertion. */
  function Added(list: seq<Rec>, r: Rec): seq<Rec> {
    Inserted(Bumped(list, Clear(list, r)), Place(list, r), r.(chunk := ChunkFor(list, r)))
  }

  predicate DropsList(list: seq<Rec>, r: Rec) {
    list != [] && Overlap(r, list[0]) && r.pointer <= list[0].pointer
  }

  ghost predicate InOrder(a: Rec, b: Rec) {
    a.chunk >= b.chunk && (a.chunk == b.chunk ==> a.pointer <= b.pointer)
  }

  /** Chunk numbers never rise along the list, and pointers never fall inside a chunk. */
  ghost predicate Sorted(list: seq<Rec>) {
    forall i, j :: 0 <= i < j < |list| ==> InOrder(list[i], list[j])
  }

  // ----- Lemmas about the walk -----

  lemma {:induction false} BelowIsBelow(list: seq<Rec>, chunk: nat, pointer: nat)
    ensures var n := Below(list, chunk, pointer);
      && (forall i :: 0 <= i < n ==> list[i].chunk == chunk && list[i].pointer < pointer)
      && (n < |list| ==> list[n].chunk != chunk || list[n].pointer >= pointer)
  {
    if list != [] && list[0].chunk == chunk && list[0].pointer < pointer {
      BelowIsBelow(list[1..], chunk, pointer);
      var n := Below(list[1..], chunk, pointer);
      forall i | 0 <= i < n + 1 ensures list[i].chunk == chunk && list[i].pointer < pointer {
        if i > 0 { assert list[i] == list[1..][i - 1]; }
      }
    }
  }

  lemma {:induction false} ClearSplits(list: seq<Rec>, r: Rec, i: nat)
    requires i <= |list|
    requires forall j :: 0 <= j < i ==> !Overlap(r, list[j])
    ensures Clear(list, r) == i + Clear(list[i..], r)
  {
    if i > 0 {
      ClearSplits(list[1..], r, i - 1);
      assert list[1..][i - 1..] == list[i..];
    } else {
      assert list[0..] == list;
    }
  }

  lemma {:induction false} BelowSplits(list: seq<Rec>, chunk: nat, pointer: nat, i: nat)
    requires i <= |list|
    requires forall j :: 0 <= j < i ==> list[j].chunk == chunk && list[j].pointer < pointer
    ensures Below(list, chunk, pointer) == i + Below(list[i..], chunk, pointer)
  {
    if i > 0 {
      BelowSplits(list[1..], chunk, pointer, i - 1);
      assert list[1..][i - 1..] == list[i..];
    } else {
      assert list[0..] == list;
    }
  }

  ghost predicate Fits(list: seq<Rec>, m: nat, r: Rec)
    requires m <= |list|
  {
    && (forall i :: 0 <= i < m ==> InOrder(list[i], r))
    && (forall i :: m <= i < |list| ==> InOrder(r, list[i]))
  }

  lemma InsertSorted(list: seq<Rec>, m: nat, r: Rec)
    requires Sorted(list) && m <= |list| && Fits(list, m, r)
    ensures Sorted(list[..m] + [r] + list[m..])
  {
    var l := list[..m] + [r] + list[m..];
    forall i, j | 0 <= i < j < |l| ensures InOrder(l[i], l[j]) {
      assert l[i] == if i < m then list[i] else if i == m then r else list[i - 1];
      assert l[j] == if j < m then list[j] else if j == m then r else list[j - 1];
    }
  }

  /** Every attribute the walk passed is above the new one's chunk. */
  lemma PassedAbove(list: seq<Rec>, r: Rec, i: nat)
    requires Sorted(list) && list != [] && i < Clear(list, r)
    ensures list[i].chunk >= ChunkFor(list, r)
  {
    var k := Clear(list, r);
    var last := if k < |list| then k else k - 1;
    assert i < last ==> InOrder(list[i], list[last]);
  }

  /** Inside the chunk it joins, the new attribute goes after the lower pointers and before the rest. */
  lemma PlaceInChunk(list: seq<Rec>, r: Rec)
    requires Clear(list, r) < |list|
    ensures var k, m, c := Clear(list, r), Place(list, r), ChunkFor(list, r);
      && (forall i :: k <= i < m ==> list[i].chunk == c && list[i].pointer < r.pointer)
      && (m < |list| ==> list[m].chunk != c || list[m].pointer >= r.pointer)
  {
    var k, m, c := Clear(list, r), Place(list, r), ChunkFor(list, r);
    BelowIsBelow(list[k..], c, r.pointer);
    forall i | k <= i < m ensures list[i].chunk == c && list[i].pointer < r.pointer {
      assert list[i] == list[k..][i - k];
    }
    assert m < |list| ==> list[m] == list[k..][m - k];
  }

  /** Where the walk stops, everything before belongs above the new attribute and the rest below. */
  lemma PlaceFits(list: seq<Rec>, r: Rec)
    requires Sorted(list) && list != []
    ensures Fits(Bumped(list, Clear(list, r)), Place(list, r), r.(chunk := ChunkFor(list, r)))
  {
    hide Clear, Below, Overlap;
    var k, m, c := Clear(list, r), Place(list, r), ChunkFor(list, r);
    var b, r' := Bumped(list, k), r.(chunk := c);
    if k < |list| {
      PlaceInChunk(list, r);
    }
    forall i | 0 <= i < m ensures InOrder(b[i], r') {
      if i < k {
        PassedAbove(list, r, i);
      }
    }
    forall i | m <= i < |b| ensures InOrder(r', b[i]) {
      assert k < m ==> InOrder(list[k], list[m]);
      assert m < i ==> InOrder(list[m], list[i]);
    }
  }

  lemma BumpKeepsSorted(list: seq<Rec>, k: nat)
    requires Sorted(list) && k <= |list|
    ensures Sorted(Bumped(list, k))
  {
    var b := Bumped(list, k);
    forall i, j | 0 <= i < j < |b| ensures InOrder(b[i], b[j]) {
      assert InOrder(list[i], list[j]);
    }
  }

  /** Insertion keeps the order of the list, wherever the new attribute goes. */
  lemma AddKeepsSorted(list: seq<Rec>, r: Rec)
    requires Sorted(list)
    ensures Sorted(Added(list, r))
  {
    if list != [] {
      BumpKeepsSorted(list, Clear(list, r));
      PlaceFits(list, r);
      InsertSorted(Bumped(list, Clear(list, r)), Place(list, r), r.(chunk := ChunkFor(list, r)));
    }
  }

  /** An attribute may be moved: taken out and put back under any other pointer and stride. */
  lemma MoveKeepsSorted(list: seq<Rec>, i: nat, r: Rec)
    requires Sorted(list) && i < |list|
    ensures Sorted(list[..i] + list[i + 1..])
    ensures Sorted(Added(list[..i] + list[i + 1..], r))
  {
    var rest := list[..i] + list[i + 1..];
    assert forall j :: 0 <= j < |rest| ==> rest[j] == list[if j < i then j else j + 1];
    AddKeepsSorted(rest, r);
  }

  /** Nothing is lost exactly when the new attribute does not go in front of the head. */
  lemma AddKeepsAll(list: seq<Rec>, r: Rec)
    ensures |Added(list, r)| == |list| + 1 <==> !DropsList(list, r)
    ensures DropsList(list, r) ==> |Added(list, r)| == 1
  {
    if list != [] && Overlap(r, list[0]) {
      assert list[0..] == list;
    }
  }

  // ----- What the chunks are -----

  /** The address is within one stride of the attribute's pointer, both ends included. */
  predicate Spans(r: Rec, address: nat) {
    r.pointer <= address <= r.pointer + r.stride
  }

  ghost predicate ShareAddress(a: Rec, b: Rec) {
    exists address: nat :: Spans(a, address) && Spans(b, address)
  }

  /** Two attributes overlap exactly when some address is in both of them. */
  lemma OverlapMeans(a: Rec, b: Rec)
    ensures Overlap(a, b) <==> ShareAddress(a, b)
  {
    if Overlap(a, b) {
      var address := if a.pointer < b.pointer then b.pointer else a.pointer;
      assert Spans(a, address) && Spans(b, address);
    }
  }

  /** The first attribute of the list that has an address in common with `r` is at `k`. */
  ghost predicate FirstShared(list: seq<Rec>, r: Rec, k: nat) {
    k < |list| && ShareAddress(r, list[k]) && forall j :: 0 <= j < k ==> !ShareAddress(r, list[j])
  }

  ghost predicate NoneShared(list: seq<Rec>, r: Rec) {
    forall j :: 0 <= j < |list| ==> !ShareAddress(r, list[j])
  }

  lemma {:induction false} ClearMeans(list: seq<Rec>, r: Rec)
    ensures Clear(list, r) < |list| ==> FirstShared(list, r, Clear(list, r))
    ensures Clear(list, r) == |list| ==> NoneShared(list, r)
  {
    if list != [] {
      OverlapMeans(r, list[0]);
      if !Overlap(r, list[0]) {
        ClearMeans(list[1..], r);
        assert forall j :: 1 <= j < |list| ==> list[j] == list[1..][j - 1];
      }
    }
  }

  /** The place of the `i`-th attribute of a list once another has been put at `m`. */
  function Shifted(i: nat, m: nat): nat {
    if i < m then i else i + 1
  }

  /**
   What an insertion does to the chunks. The new attribute joins the chunk of the first attribute with
   which it shares an address, and of that chunk those at it or behind it; if it shares none with any,
   it has a chunk of its own. Pointers and strides stay, and so does the order of the others.
   */
  lemma ChunkJoined(list: seq<Rec>, r: Rec, i: nat)
    requires Sorted(list) && i < |list| && !DropsList(list, r)
    ensures var after, m := Added(list, r), Place(list, r); var j := Shifted(i, m);
      && m < |after| && j < |after|
      && after[m] == r.(chunk := after[m].chunk) && after[j] == list[i].(chunk := after[j].chunk)
      && (forall k: nat :: FirstShared(list, r, k) ==>
            after[m].chunk == list[k].chunk
            && (after[j].chunk == after[m].chunk <==> i >= k && list[i].chunk == list[k].chunk))
      && (NoneShared(list, r) ==> after[j].chunk != after[m].chunk)
  {
    var k := Clear(list, r);
    ClearMeans(list, r);
    AddKeepsAll(list, r);
    PlaceAt(list, r, i);
    var last := if k < |list| then k else |list| - 1;
    assert i < last ==> InOrder(list[i], list[last]);
    forall x: nat | FirstShared(list, r, x) ensures x == k {
      assert k < |list| ==> ShareAddress(r, list[k]);
    }
  }

  lemma PlaceAt(list: seq<Rec>, r: Rec, i: nat)
    requires i < |list| && !DropsList(list, r)
    ensures var after, m, k := Added(list, r), Place(list, r), Clear(list, r); var j := Shifted(i, m);
      && m < |after| && j < |after| && after[m] == r.(chunk := ChunkFor(list, r))
      && after[j] == if i < k then list[i].(chunk := list[i].chunk + 1) else list[i]
  {
    AddKeepsAll(list, r);
    if list != [] && Overlap(r, list[0]) {
      assert list[0..] == list;
    }
  }

  /**
   The chunks of the others: two attributes are in one chunk afterwards if and only if they were before,
   and not on either side of where the new one first shares an address.
   */
  lemma ChunksOfOthers(list: seq<Rec>, r: Rec, i: nat, j: nat)
    requires Sorted(list) && i < j < |list| && !DropsList(list, r)
    ensures var after, m := Added(list, r), Place(list, r);
      && Shifted(j, m) < |after|
      && (after[Shifted(i, m)].chunk == after[Shifted(j, m)].chunk <==>
            list[i].chunk == list[j].chunk && !exists k: nat :: FirstShared(list, r, k) && i < k <= j)
  {
    var k := Clear(list, r);
    ClearMeans(list, r);
    PlaceAt(list, r, i);
    PlaceAt(list, r, j);
    assert InOrder(list[i], list[j]);
    forall x: nat | FirstShared(list, r, x) ensures x == k {
      assert k < |list| ==> ShareAddress(r, list[k]);
    }
  }

  /** An attribute that is inserted a second time is put no further than where it already is. */
  lemma {:induction false} MemberPlace(list: seq<Rec>, i: nat)
    requires i < |list|
    ensures Clear(list, list[i]) <= Place(list, list[i]) <= i
    decreases i
  {
    var r := list[i];
    assert Overlap(r, r);
    if i > 0 && !Overlap(r, list[0]) {
      MemberPlace(list[1..], i - 1);
      assert list[1..][Clear(list[1..], r)..] == list[Clear(list, r)..];
    } else {
      assert list[0..] == list;
      MemberBelow(list, list[0].chunk, i);
    }
  }

  lemma {:induction false} MemberBelow(list: seq<Rec>, chunk: nat, i: nat)
    requires i < |list|
    ensures Below(list, chunk, list[i].pointer) <= i
  {
    if i > 0 {
      MemberBelow(list[1..], chunk, i - 1);
    }
  }

  // ----- Histories of the list -----

  /**
   What is done to the list. An attribute may be taken out that is not in it, and one may be inserted
   that is: disabling it under an array buffer leaves it in the list. `Move` then changes it in place.
   */
  datatype Call =
    | Insert(r: Rec)
    | InsertAgain(i: nat)
    | TakeOut(i: nat)
    | TakeOutAbsent
    | Move(i: nat, pointer: nat, stride: nat)

  /** The attributes met from the head on, each once; the last one may lead back into the list. */
  datatype ListState = ListState(list: seq<Rec>, count: int, back: Option<nat>)

  function Apply(s: ListState, call: Call): (s': ListState)
    requires s.back.None?
    ensures s'.back.Some? ==> call.InsertAgain?
  {
    match call
    case Insert(r) => s.(list := Added(s.list, r), count := s.count + 1)
    case InsertAgain(i) =>
      if i >= |s.list| then s
      else if Place(s.list, s.list[i]) == 0 then
        s.(list := Added(s.list, s.list[i]), count := s.count + 1)
      else
        MemberPlace(s.list, i);
        ListState(Added(s.list, s.list[i])[..i + 1], s.count + 1, Some(Place(s.list, s.list[i])))
    case TakeOut(i) =>
      if i < |s.list| then s.(list := s.list[..i] + s.list[i + 1..], count := s.count - 1) else s
    case TakeOutAbsent => if s.list == [] then s else s.(count := s.count - 1)
    case Move(i, pointer, stride) =>
      if i < |s.list| then s.(list := s.list[i := s.list[i].(pointer := pointer, stride := stride)]) else s
  }

  /** What a caller can check first: nothing in front of the head, no member again, no stranger out. */
  predicate Safe(s: ListState, call: Call) {
    match call
    case Insert(r) => !DropsList(s.list, r)
    case InsertAgain(i) => i >= |s.list|
    case TakeOut(_) => true
    case TakeOutAbsent => s.list == []
    case Move(_, _, _) => true
  }

  /** And for the order: an attribute changed in place stays between its neighbours in the chunk. */
  predicate KeepsOrder(s: ListState, call: Call) {
    call.Move? && call.i < |s.list| ==>
      var i, list := call.i, s.list;
      && (i > 0 && list[i - 1].chunk == list[i].chunk ==> list[i - 1].pointer <= call.pointer)
      && (i + 1 < |list| && list[i + 1].chunk == list[i].chunk ==> call.pointer <= list[i + 1].pointer)
  }

  lemma MovedInOrder(list: seq<Rec>, i: nat, pointer: nat, stride: nat)
    requires Sorted(list) && i < |list|
    ensures Sorted(list[i := list[i].(pointer := pointer, stride := stride)]) <==>
      KeepsOrder(ListState(list, 0, None), Move(i, pointer, stride))
  {
    var r := list[i].(pointer := pointer, stride := stride);
    var l := list[i := r];
    if Sorted(l) {
      assert i > 0 ==> InOrder(l[i - 1], l[i]);
      assert i + 1 < |l| ==> InOrder(l[i], l[i + 1]);
    } else {
      var a, b :| 0 <= a < b < |l| && !InOrder(l[a], l[b]);
      assert InOrder(list[a], list[b]);
      if b == i {
        assert a < i - 1 ==> InOrder(list[a], list[i - 1]);
        assert InOrder(list[i - 1], list[i]);
      } else {
        assert b > i + 1 ==> InOrder(list[i + 1], list[b]);
        assert InOrder(list[i], list[i + 1]);
      }
    }
  }

  /**
   The list ends, with the count as its length, exactly under safe calls; the order survives every
   call but a change in place past a neighbour.
   */
  lemma CallKeeps(s: ListState, call: Call)
    requires Sorted(s.list) && s.count == |s.list| && s.back.None?
    ensures var s' := Apply(s, call);
      && (Sorted(s'.list) <==> KeepsOrder(s, call))
      && (s'.back.None? && s'.count == |s'.list| <==> Safe(s, call))
  {
    hide Added, Place, Sorted;
    match call
    case Insert(r) =>
      AddKeepsSorted(s.list, r);
      AddKeepsAll(s.list, r);
    case InsertAgain(i) =>
      if i < |s.list| {
        InsertedAgain(s.list, i);
      }
    case TakeOut(i) =>
      if i < |s.list| {
        MoveKeepsSorted(s.list, i, s.list[i]);
      }
    case TakeOutAbsent =>
    case Move(i, pointer, stride) =>
      if i < |s.list| {
        MovedInOrder(s.list, i, pointer, stride);
      }
  }

  lemma InsertedAgain(list: seq<Rec>, i: nat)
    requires Sorted(list) && i < |list|
    ensures Sorted(Added(list, list[i]))
    ensures Place(list, list[i]) == 0 ==> |Added(list, list[i])| == 1
    ensures Place(list, list[i]) != 0 ==>
      i + 1 < |Added(list, list[i])| == |list| + 1 && Sorted(Added(list, list[i])[..i + 1])
  {
    AddKeepsSorted(list, list[i]);
  }

  /** Inserting a member again leaves a list with an end if and only if it goes in front of the head. */
  lemma AgainEnds(s: ListState, i: nat)
    requires s.back.None? && i < |s.list|
    ensures Apply(s, InsertAgain(i)).back.None? <==>
      Overlap(s.list[i], s.list[0]) && s.list[i].pointer <= s.list[0].pointer
  {
    assert s.list[0..] == s.list;
  }

  /** Two attributes apart in memory, inserted one after the other: inserting the second again links it to itself. */
  lemma OwnSuccessor()
    ensures var empty := ListState([], 0, None);
      var both := Apply(Apply(empty, Insert(Rec(2000, 16, 0))), Insert(Rec(1000, 16, 0)));
      && both == ListState([Rec(2000, 16, 2), Rec(1000, 16, 1)], 2, None)
      && Apply(both, InsertAgain(1)).back == Some(1) && |Apply(both, InsertAgain(1)).list| == 2
  {
    var first, list := Rec(2000, 16, 1), [Rec(2000, 16, 2), Rec(1000, 16, 1)];
    assert Clear([], first) == 0 && Added([], Rec(2000, 16, 0)) == [first];
    assert Clear([first], Rec(1000, 16, 0)) == 1 && Bumped([first], 1) == [list[0]];
    assert Added([first], Rec(1000, 16, 0)) == list;
    assert Below(list[1..], 1, 1000) == 0;
    assert Clear(list, list[1]) == 1 + Clear(list[1..], list[1]);
    assert Place(list, list[1]) == 1;
  }

  predicate AllSafe(s: ListState, calls: seq<Call>)
    requires s.back.None?
    decreases |calls|
  {
    calls == [] || (Safe(s, calls[0]) && KeepsOrder(s, calls[0])
                    && Apply(s, calls[0]).back.None? && AllSafe(Apply(s, calls[0]), calls[1..]))
  }

  function ApplyAll(s: ListState, calls: seq<Call>): ListState
    requires s.back.None? && AllSafe(s, calls)
    decreases |calls|
  {
    if calls == [] then s else ApplyAll(Apply(s, calls[0]), calls[1..])
  }

  /** Over any history of safe calls the list stays sorted and ends, and the count stays its length. */
  lemma {:induction false} HistoryKeeps(s: ListState, calls: seq<Call>)
    requires Sorted(s.list) && s.count == |s.list| && s.back.None? && AllSafe(s, calls)
    ensures var s' := ApplyAll(s, calls);
      Sorted(s'.list) && s'.count == |s'.list| && s'.back.None?
    decreases |calls|
  {
    if calls != [] {
      CallKeeps(s, calls[0]);
      HistoryKeeps(Apply(s, calls[0]), calls[1..]);
    }
  }

  // ----- The list in memory -----

  class EnabledList {
    var enabledAttribs: VertexAttrib?
    var enabledCount: int
    ghost var nodes: seq<VertexAttrib>

    constructor ()
      ensures Linked() && nodes == [] && enabledCount == 0
    {
      enabledAttribs, enabledCount, nodes := null, 0, [];
    }

    /** `nodes` are the attributes met by following `nextEnabled` from the head. */
    ghost predicate Linked()
      reads this, nodes
    {
      && enabledAttribs == NodeAt(0)
      && (forall i {:trigger nodes[i].nextEnabled} :: 0 <= i < |nodes| ==> nodes[i].nextEnabled == NodeAt(i + 1))
      && (forall i, j :: 0 <= i < j < |nodes| ==> nodes[i] != nodes[j])
    }

    ghost function NodeAt(i: nat): VertexAttrib?
      reads this
    {
      if i < |nodes| then nodes[i] else null
    }

    ghost function Recs(): (r: seq<Rec>)
      reads this, nodes
      ensures |r| == |nodes|
      ensures forall i :: 0 <= i < |nodes| ==> r[i] == nodes[i].AsRec()
    {
      seq(|nodes|, i requires 0 <= i < |nodes| reads this, nodes => nodes[i].AsRec())
    }

    ghost predicate Shows(list: seq<Rec>)
      reads this, nodes
    {
      |list| == |nodes| && forall i :: 0 <= i < |nodes| ==> nodes[i].AsRec() == list[i]
    }

    /** Taking out an attribute; the count goes down whether or not it was in the list. */
    method Remove(attrib: VertexAttrib)
      requires Linked()
      modifies this, (set n | n in nodes)`nextEnabled
      ensures Linked()
      ensures enabledCount == old(enabledCount) - (if old(nodes) == [] then 0 else 1)
      ensures attrib !in old(nodes) ==> nodes == old(nodes)
      ensures forall i :: 0 <= i < |old(nodes)| && old(nodes)[i] == attrib ==>
        nodes == old(nodes)[..i] + old(nodes)[i + 1..]
    {
      if enabledAttribs == null {
        return;
      }
      enabledCount := enabledCount - 1;
      var enabled := enabledAttribs;
      if enabled == attrib {
        UnlinkHead();
        return;
      }
      var previous := enabled;
      enabled := enabled.nextEnabled;
      ghost var i: nat := 1;
      while enabled != null
        invariant 1 <= i <= |nodes| && nodes == old(nodes) && Linked()
        invariant previous == nodes[i - 1] && enabled == NodeAt(i)
        invariant forall j :: 0 <= j < i ==> nodes[j] != attrib
        invariant enabledCount == old(enabledCount) - 1
        decreases |nodes| - i
      {
        if enabled == attrib {
          UnlinkAfter(previous, enabled, i);
          return;
        }
        previous := enabled;
        enabled := enabled.nextEnabled;
        i := i + 1;
      }
    }

    method UnlinkHead()
      requires Linked() && enabledAttribs != null
      modifies this`enabledAttribs, this`nodes, enabledAttribs`nextEnabled
      ensures Linked() && nodes == old(nodes)[1..]
    {
      var enabled := enabledAttribs;
      enabledAttribs := enabled.nextEnabled;
      enabled.nextEnabled := null;
      nodes := nodes[1..];
    }

    method UnlinkAfter(previous: VertexAttrib, enabled: VertexAttrib, ghost i: nat)
      requires Linked() && 1 <= i < |nodes| && previous == nodes[i - 1] && enabled == nodes[i]
      modifies this`nodes, previous`nextEnabled
      ensures Linked()
      ensures nodes == old(nodes)[..i] + old(nodes)[i + 1..]
    {
      previous.nextEnabled := enabled.nextEnabled;
      nodes := nodes[..i] + nodes[i + 1..];
    }

    /** The list has no end: the last of `nodes` leads back to the one at `m`. */
    ghost predicate LoopsTo(m: nat)
      reads this, nodes
    {
      && m < |nodes| && enabledAttribs == nodes[0]
      && (forall i {:trigger nodes[i].nextEnabled} :: 0 <= i < |nodes| ==>
            nodes[i].nextEnabled == if i + 1 < |nodes| then nodes[i + 1] else nodes[m])
      && (forall i, j :: 0 <= i < j < |nodes| ==> nodes[i] != nodes[j])
    }

    /** Following the links of such a list meets an attribute after any number of steps. */
    ghost function Met(m: nat, steps: nat): (n: VertexAttrib)
      requires LoopsTo(m)
      reads this, nodes
      ensures n in nodes && (steps > 0 ==> n == Met(m, steps - 1).nextEnabled)
    {
      if steps == 0 then nodes[0] else Met(m, steps - 1).nextEnabled
    }

    /** Inserting an attribute. One that is in the list already leaves it without an end, or alone in it. */
    method Add(attrib: VertexAttrib)
      requires Linked()
      modifies this, nodes, attrib
      ensures enabledCount == old(enabledCount) + 1
      ensures var m := Place(old(Recs()), old(attrib.AsRec()));
        attrib !in old(nodes) || m == 0 ==>
          && Linked() && nodes == Inserted(old(nodes), m, attrib)
          && Recs() == Added(old(Recs()), old(attrib.AsRec()))
      ensures var m := Place(old(Recs()), old(attrib.AsRec()));
        forall i :: 0 <= i < |old(nodes)| && old(nodes)[i] == attrib && m > 0 ==>
          && m <= i && LoopsTo(m) && nodes == Inserted(old(nodes), m, attrib)[..i + 1]
          && Recs() == Added(old(Recs()), old(attrib.AsRec()))[..i + 1]
    {
      ghost var list, r := Recs(), attrib.AsRec();
      enabledCount := enabledCount + 1;
      if enabledAttribs == null {
        attrib.chunk := 1;
        attrib.nextEnabled := null;
        enabledAttribs := attrib;
        nodes := [attrib];
        assert Recs() == Added(list, r);
        return;
      }
      ghost var i := if attrib in nodes then IndexOf(nodes, attrib) else 0;
      assert forall j :: 0 <= j < |nodes| && nodes[j] == attrib ==> j == i;
      hide Place, Clear, ChunkFor, Overlap, Below, Linked, LoopsTo, Bumped, Added, Inserted;
      AddBehindOthers(attrib, i, list);
    }

    /** Inserting an attribute into a list that is not empty; `i` is where it is already, if it is. */
    method AddBehindOthers(attrib: VertexAttrib, ghost i: nat, ghost list: seq<Rec>)
      requires Linked() && enabledAttribs != null && list == Recs()
      requires forall j :: 0 <= j < |nodes| && nodes[j] == attrib ==> j == i
      requires attrib in nodes ==> i < |nodes| && nodes[i] == attrib
      modifies this`enabledAttribs, this`nodes, nodes, attrib
      ensures var m := Place(list, old(attrib.AsRec()));
        attrib !in old(nodes) || m == 0 ==>
          && Linked() && nodes == Inserted(old(nodes), m, attrib)
          && Recs() == Added(list, old(attrib.AsRec()))
      ensures var m := Place(list, old(attrib.AsRec()));
        attrib in old(nodes) && m > 0 ==>
          && m <= i && LoopsTo(m) && nodes == Inserted(old(nodes), m, attrib)[..i + 1]
          && Recs() == Added(list, old(attrib.AsRec()))[..i + 1]
    {
      ghost var was, r := nodes, attrib.AsRec();
      ghost var bumped := Bumped(list, Clear(list, r));
      assert Added(list, r) == Inserted(bumped, Place(list, r), r.(chunk := ChunkFor(list, r)));
      hide Place, Clear, ChunkFor, Overlap, Below, Linked, LoopsTo, Bumped, Added, Inserted;
      if attrib in nodes {
        MemberPlace(list, i);
      }
      var previous, chunk, m := Walk(attrib, list, r);
      LinkIn(attrib, previous, chunk, m);
      if attrib in was && m > 0 {
        RecsAgain(was, m, attrib, i, bumped);
      } else {
        RecsInserted(was, m, attrib, bumped);
      }
    }

    /** The records go where their attributes go. */
    lemma RecsInserted(was: seq<VertexAttrib>, m: nat, attrib: VertexAttrib, list: seq<Rec>)
      requires m <= |was| == |list| && (attrib !in was || m == 0) && nodes == Inserted(was, m, attrib)
      requires forall i :: 0 <= i < |was| && was[i] != attrib ==> was[i].AsRec() == list[i]
      ensures Recs() == Inserted(list, m, attrib.AsRec())
    {
    }

    lemma RecsAgain(was: seq<VertexAttrib>, m: nat, attrib: VertexAttrib, i: nat, list: seq<Rec>)
      requires 0 < m <= i < |was| == |list| && was[i] == attrib && nodes == Inserted(was, m, attrib)[..i + 1]
      requires forall j :: 0 <= j < i ==> was[j] != attrib && was[j].AsRec() == list[j]
      ensures Recs() == Inserted(list, m, attrib.AsRec())[..i + 1]
    {
    }

    /** glVertexAttribPointer: an enabled attribute is taken out and put back, another changed in place. */
    method SetPointer(attrib: VertexAttrib, pointer: nat, stride: nat, arrayEnabled: bool)
      requires Linked()
      modifies this, nodes, attrib
      ensures Linked()
      ensures !arrayEnabled ==> nodes == old(nodes) && enabledCount == old(enabledCount)
      ensures !arrayEnabled ==> forall i :: 0 <= i < |nodes| ==>
        nodes[i].AsRec() == if nodes[i] == attrib then Rec(pointer, stride, old(attrib.chunk)) else old(Recs())[i]
      ensures arrayEnabled ==> enabledCount == old(enabledCount) + (if old(nodes) == [] then 1 else 0)
      ensures arrayEnabled && attrib !in old(nodes) ==>
        Recs() == Added(old(Recs()), Rec(pointer, stride, old(attrib.chunk)))
      ensures arrayEnabled ==> forall i :: 0 <= i < |old(nodes)| && old(nodes)[i] == attrib ==>
        Recs() == Added(old(Recs()[..i] + Recs()[i + 1..]), Rec(pointer, stride, old(attrib.chunk)))
    {
      ghost var was, i := Recs(), if attrib in nodes then IndexOf(nodes, attrib) else 0;
      assert forall j :: 0 <= j < |nodes| && nodes[j] == attrib ==> j == i;
      hide Linked, Added, Recs;
      Repoint(attrib, pointer, stride);
      if arrayEnabled {
        OthersSame(Recs(), was, i, attrib in nodes);
        PutBack(attrib, i);
      }
    }

    method Repoint(attrib: VertexAttrib, pointer: nat, stride: nat)
      requires Linked()
      modifies attrib`pointer, attrib`stride
      ensures Linked() && attrib.pointer == pointer && attrib.stride == stride
      ensures forall i :: 0 <= i < |nodes| ==>
        Recs()[i] == if nodes[i] == attrib then Rec(pointer, stride, old(attrib.chunk)) else old(Recs())[i]
    {
      attrib.pointer, attrib.stride := pointer, stride;
    }

    /** Taking an attribute out and inserting it anew; `i` is where it is, if it is in the list. */
    method PutBack(attrib: VertexAttrib, ghost i: nat)
      requires Linked()
      requires attrib in nodes ==> i < |nodes| && nodes[i] == attrib
      modifies this, nodes, attrib
      ensures Linked()
      ensures enabledCount == old(enabledCount) + (if old(nodes) == [] then 1 else 0)
      ensures attrib !in old(nodes) ==> Recs() == Added(old(Recs()), old(attrib.AsRec()))
      ensures attrib in old(nodes) ==> Recs() == Added(old(Recs()[..i] + Recs()[i + 1..]), old(attrib.AsRec()))
    {
      ghost var was, member := Recs(), attrib in nodes;
      ghost var rest := if member then was[..i] + was[i + 1..] else was;
      assert forall j :: 0 <= j < |nodes| && nodes[j] == attrib ==> j == i;
      hide Linked, Added, Place, Inserted, LoopsTo;
      Remove(attrib);
      assert attrib !in nodes && Recs() == rest;
      Add(attrib);
    }

    /** The walk of an insertion: past what does not overlap, then up to the place inside a chunk. */
    method Walk(attrib: VertexAttrib, ghost list: seq<Rec>, ghost r: Rec)
      returns (previous: VertexAttrib?, chunk: nat, ghost m: nat)
      requires Linked() && enabledAttribs != null
      requires Shows(list) && attrib.AsRec() == r
      modifies (set n | n in nodes)`chunk
      ensures Linked() && m <= |nodes| && previous == if m == 0 then null else nodes[m - 1]
      ensures attrib.AsRec() == r
      ensures Shows(Bumped(list, Clear(list, r)))
      ensures chunk == ChunkFor(list, r) && m == Place(list, r)
    {
      hide Linked, Clear, Place, ChunkFor, Below, Overlap;
      var enabled;
      enabled, previous, chunk, m := PassClear(attrib, list, r);
      if enabled != null {
        chunk := enabled.chunk;
        previous, m := WalkChunk(attrib, enabled, previous, chunk, list, r, m);
      }
    }

    /** Past the attributes that do not overlap, whose chunk numbers make room for one more. */
    method PassClear(attrib: VertexAttrib, ghost list: seq<Rec>, ghost r: Rec)
      returns (enabled: VertexAttrib?, previous: VertexAttrib?, chunk: nat, ghost k: nat)
      requires Linked() && enabledAttribs != null
      requires Shows(list) && attrib.AsRec() == r
      modifies (set n | n in nodes)`chunk
      ensures Linked() && k <= |nodes| && enabled == NodeAt(k)
      ensures previous == if k == 0 then null else nodes[k - 1]
      ensures Shows(Bumped(list, k)) && k == Clear(list, r) && attrib.AsRec() == r
      ensures forall j :: 0 <= j < k ==> !Overlap(r, list[j])
      ensures k < |list| ==> Overlap(r, list[k])
      ensures k == |list| ==> k == Place(list, r) && chunk == ChunkFor(list, r)
    {
      assert Overlap(r, r);
      hide Clear, Place, ChunkFor, Below, Overlap, Bumped;
      enabled, previous, chunk, k := enabledAttribs, null, 0, 0;
      while enabled != null
        invariant k <= |nodes| && enabled == NodeAt(k)
        invariant forall j :: 0 <= j < |nodes| ==>
          nodes[j].AsRec() == if j < k then list[j].(chunk := list[j].chunk + 1) else list[j]
        invariant forall j :: 0 <= j < k ==> !Overlap(r, list[j])
        invariant attrib.AsRec() == r
        invariant previous == if k == 0 then null else nodes[k - 1]
        invariant k > 0 ==> chunk == list[k - 1].chunk
        decreases |nodes| - k
      {
        if Overlap(attrib.AsRec(), enabled.AsRec()) {
          break;
        }
        previous := enabled;
        chunk := previous.chunk;
        previous.chunk := previous.chunk + 1;
        enabled := enabled.nextEnabled;
        k := k + 1;
      }
      PassEnds(list, r, k);
    }

    /** Inside the first overlapping chunk: past the attributes that lie lower in memory. */
    method WalkChunk(attrib: VertexAttrib, start: VertexAttrib, before: VertexAttrib?, chunk: nat,
                     ghost list: seq<Rec>, ghost r: Rec, ghost k: nat)
      returns (previous: VertexAttrib?, ghost m: nat)
      requires Linked() && k < |nodes| == |list| && start == nodes[k]
      requires before == if k == 0 then null else nodes[k - 1]
      requires forall j :: k <= j < |nodes| ==> nodes[j].AsRec() == list[j]
      requires attrib.AsRec() == r && chunk == list[k].chunk
      requires Overlap(r, list[k]) && forall j :: 0 <= j < k ==> !Overlap(r, list[j])
      ensures k == Clear(list, r) && m == Place(list, r) && chunk == ChunkFor(list, r)
      ensures previous == if m == 0 then null else nodes[m - 1]
    {
      previous, m := before, k;
      var enabled: VertexAttrib? := start;
      while enabled != null && enabled.chunk == chunk && enabled.pointer < attrib.pointer
        invariant k <= m <= |nodes| && enabled == NodeAt(m)
        invariant forall j :: k <= j < m ==> list[j].chunk == chunk && list[j].pointer < r.pointer
        invariant previous == if m == 0 then null else nodes[m - 1]
        decreases |nodes| - m
      {
        previous := enabled;
        enabled := enabled.nextEnabled;
        m := m + 1;
      }
      WalkEnds(list, r, k, m);
    }

    /** Linking the attribute in; in front of the head it becomes the whole list. */
    method LinkIn(attrib: VertexAttrib, previous: VertexAttrib?, chunk: nat, ghost m: nat)
      requires Linked() && enabledAttribs != null
      requires m <= |nodes| && previous == if m == 0 then null else nodes[m - 1]
      requires forall i :: 0 <= i < |nodes| && nodes[i] == attrib ==> m <= i
      modifies this`enabledAttribs, this`nodes, attrib`chunk, attrib`nextEnabled
      modifies (set n | n in nodes)`nextEnabled
      ensures attrib.chunk == chunk
      ensures attrib !in old(nodes) || m == 0 ==> Linked() && nodes == Inserted(old(nodes), m, attrib)
      ensures forall i :: 0 <= i < |old(nodes)| && old(nodes)[i] == attrib && m > 0 ==>
        LoopsTo(m) && nodes == Inserted(old(nodes), m, attrib)[..i + 1]
    {
      attrib.chunk := chunk;
      if previous == null {
        enabledAttribs := attrib;
        attrib.nextEnabled := previous;
        nodes := [attrib];
      } else {
        LinkAfter(previous, attrib, m);
      }
    }

    /** Linking it in behind another; a member becomes a successor of itself. */
    method LinkAfter(previous: VertexAttrib, attrib: VertexAttrib, ghost m: nat)
      requires Linked() && 1 <= m <= |nodes| && previous == nodes[m - 1]
      requires forall i :: 0 <= i < |nodes| && nodes[i] == attrib ==> m <= i
      modifies this`nodes, previous`nextEnabled, attrib`nextEnabled
      ensures attrib !in old(nodes) ==> Linked() && nodes == Inserted(old(nodes), m, attrib)
      ensures forall i :: 0 <= i < |old(nodes)| && old(nodes)[i] == attrib ==>
        LoopsTo(m) && nodes == Inserted(old(nodes), m, attrib)[..i + 1]
    {
      ghost var was := nodes;
      assert enabledAttribs == was[0] && forall i, j :: 0 <= i < j < |was| ==> was[i] != was[j];
      assert forall j {:trigger was[j].nextEnabled} :: 0 <= j < |was| ==>
        was[j].nextEnabled == if j + 1 < |was| then was[j + 1] else null;
      hide Linked, LoopsTo, NodeAt;
      attrib.nextEnabled := previous.nextEnabled;
      previous.nextEnabled := attrib;
      if attrib in nodes {
        ghost var i := IndexOf(nodes, attrib);
        assert (was[..m] + [attrib] + was[m..])[..i + 1] == was[..m] + [attrib] + was[m..i];
        nodes := nodes[..m] + [attrib] + nodes[m..i];
        LoopsNow(was, m, attrib, i);
      } else {
        nodes := nodes[..m] + [attrib] + nodes[m..];
        LinkedNow(was, m, attrib);
      }
    }

    lemma LinkedNow(was: seq<VertexAttrib>, m: nat, attrib: VertexAttrib)
      requires 1 <= m <= |was| && attrib !in was && enabledAttribs == was[0]
      requires nodes == was[..m] + [attrib] + was[m..]
      requires forall i, j :: 0 <= i < j < |was| ==> was[i] != was[j]
      requires was[m - 1].nextEnabled == attrib
      requires attrib.nextEnabled == if m < |was| then was[m] else null
      requires forall j {:trigger was[j].nextEnabled} :: 0 <= j < |was| && j != m - 1 ==>
        was[j].nextEnabled == if j + 1 < |was| then was[j + 1] else null
      ensures Linked()
    {
      forall i {:trigger nodes[i].nextEnabled} | 0 <= i < |nodes| ensures nodes[i].nextEnabled == NodeAt(i + 1) {
        assert i < m ==> nodes[i] == was[i];
        assert i > m ==> nodes[i] == was[i - 1];
      }
    }

    lemma LoopsNow(was: seq<VertexAttrib>, m: nat, attrib: VertexAttrib, i: nat)
      requires 1 <= m <= i < |was| && was[i] == attrib && enabledAttribs == was[0]
      requires nodes == was[..m] + [attrib] + was[m..i]
      requires forall i, j :: 0 <= i < j < |was| ==> was[i] != was[j]
      requires was[m - 1].nextEnabled == attrib && attrib.nextEnabled == was[m]
      requires forall j {:trigger was[j].nextEnabled} :: 0 <= j < i && j != m - 1 ==> was[j].nextEnabled == was[j + 1]
      ensures LoopsTo(m)
    {
      forall j {:trigger nodes[j].nextEnabled} | 0 <= j < |nodes|
        ensures nodes[j].nextEnabled == if j + 1 < |nodes| then nodes[j + 1] else nodes[m]
      {
        assert j < m ==> nodes[j] == was[j];
        assert j > m ==> nodes[j] == was[j - 1];
      }
    }
  }

  lemma OthersSame<T>(a: seq<T>, b: seq<T>, i: nat, changed: bool)
    requires |a| == |b| && (changed ==> i < |a|)
    requires forall j :: 0 <= j < |a| && !(changed && j == i) ==> a[j] == b[j]
    ensures if changed then a[..i] + a[i + 1..] == b[..i] + b[i + 1..] else a == b
  {
  }

  ghost function IndexOf<T>(list: seq<T>, x: T): (i: nat)
    requires x in list
    ensures i < |list| && list[i] == x
  {
    var i :| 0 <= i < |list| && list[i] == x;
    i
  }

  lemma PassEnds(list: seq<Rec>, r: Rec, k: nat)
    requires k <= |list| && list != []
    requires forall j :: 0 <= j < k ==> !Overlap(r, list[j])
    requires k == |list| || Overlap(r, list[k])
    ensures k == Clear(list, r)
    ensures k == |list| ==> k == Place(list, r) && ChunkFor(list, r) == list[k - 1].chunk
  {
    ClearSplits(list, r, k);
  }

  /** The counters of a walk that ends inside a chunk are the ones the specification names. */
  lemma WalkEnds(list: seq<Rec>, r: Rec, k: nat, m: nat)
    requires k <= m <= |list| && k < |list|
    requires forall j :: 0 <= j < k ==> !Overlap(r, list[j])
    requires Overlap(r, list[k])
    requires forall j :: k <= j < m ==> list[j].chunk == list[k].chunk && list[j].pointer < r.pointer
    requires m < |list| ==> list[m].chunk != list[k].chunk || list[m].pointer >= r.pointer
    ensures k == Clear(list, r) && m == Place(list, r) && list[k].chunk == ChunkFor(list, r)
  {
    PassEnds(list, r, k);
    BelowSplits(list[k..], list[k].chunk, r.pointer, m - k);
    assert list[k..][m - k..] == list[m..];
  }
}
