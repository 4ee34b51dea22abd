/** Names for GL objects, handed out by the client itself and recycled through a list. */
module NameHandler {
  import opened LinkList
  import opened Sequences

  const UINT_MAX: nat := 0xFFFF_FFFF

  // ----- The names as values -----

  /** The largest name handed out so far, and the names to hand out again, next one first. */
  datatype Names = Names(last: nat, reusable: seq<nat>)

  function Init(): Names {
    Names(0, [])
  }

  /** One name: a recycled one if there is any. */
  function AllocOne(s: Names): (Names, nat) {
    if s.reusable != [] then (s.(reusable := s.reusable[1..]), s.reusable[0])
    else (s.(last := s.last + 1), s.last + 1)
  }

  function Alloc(s: Names, n: nat): (r: (Names, seq<nat>))
    ensures |r.1| == n
  {
    if n == 0 then (s, []) else
      var before := Alloc(s, n - 1);
      var next := AllocOne(before.0);
      (next.0, before.1 + [next.1])
  }

  /** The name zero is not an object. */
  function NonZero(names: seq<nat>): seq<nat> {
    if names == [] then [] else
      NonZero(names[..|names| - 1]) + if names[|names| - 1] == 0 then [] else [names[|names| - 1]]
  }

  /** It is left out wherever it stands, and the order of the others stays. */
  lemma {:induction false} NonZeroParts(a: seq<nat>, b: seq<nat>, name: nat)
    ensures NonZero(a + b) == NonZero(a) + NonZero(b)
    ensures NonZero([name]) == if name == 0 then [] else [name]
  {
    assert [name][..0] == [] && NonZero([]) == [];
    if b == [] {
      assert a + b == a;
    } else {
      var n := |b| - 1;
      NonZeroParts(a, b[..n], name);
      assert (a + b)[..|a + b| - 1] == a + b[..n];
    }
  }

  function Delete(s: Names, names: seq<nat>): Names {
    s.(reusable := s.reusable + NonZero(names))
  }

  /** A name that the application chose itself. */
  function Claim(s: Names, name: nat): Names {
    if name >= s.last then s.(last := (s.last + 1) % (UINT_MAX + 1))
    else s.(reusable := WithoutFirst(s.reusable, name))
  }

  /** `n` names can be handed out before the counter reaches UINT_MAX. */
  predicate Room(s: Names, n: nat) {
    n <= |s.reusable| || s.last + (n - |s.reusable|) < UINT_MAX
  }

  // ----- Conservation -----

  /** Live names and recyclable names divide up `1..last`. */
  ghost predicate Partition(s: Names, live: set<nat>) {
    && Unique(s.reusable)
    && (forall x :: x in live ==> x !in s.reusable)
    && (forall x {:trigger x in live} {:trigger x in s.reusable} ::
          1 <= x <= s.last <==> x in live || x in s.reusable)
  }

  lemma AllocOneKeeps(s: Names, live: set<nat>)
    requires Partition(s, live)
    ensures var (s', name) := AllocOne(s); 1 <= name && name !in live && Partition(s', live + {name})
  {
    if s.reusable != [] {
      assert s.reusable[0] in s.reusable;
      assert forall x :: x in s.reusable <==> x == s.reusable[0] || x in s.reusable[1..];
    }
  }

  lemma AllocNext(s: Names, n: nat)
    ensures Alloc(s, 0) == (s, [])
    ensures var before := Alloc(s, n); var next := AllocOne(before.0);
      Alloc(s, n + 1) == (next.0, before.1 + [next.1])
  {
  }

  /** The recycled names go first. */
  lemma {:induction false} AllocShape(s: Names, n: nat)
    ensures Alloc(s, n).0 == if n <= |s.reusable| then s.(reusable := s.reusable[n..])
                             else Names(s.last + (n - |s.reusable|), [])
    ensures n <= |s.reusable| ==> Alloc(s, n).1 == s.reusable[..n]
  {
    if n > 0 {
      AllocShape(s, n - 1);
    }
  }

  /** Names handed out are new, different from one another, and from then on live. */
  lemma {:induction false} AllocKeeps(s: Names, live: set<nat>, n: nat)
    requires Partition(s, live)
    ensures var (s', names) := Alloc(s, n);
      && Unique(names)
      && (forall x :: x in names ==> 1 <= x && x !in live)
      && Partition(s', live + Elements(names))
  {
    if n > 0 {
      AllocKeeps(s, live, n - 1);
      var (before, names) := Alloc(s, n - 1);
      AllocOneKeeps(before, live + Elements(names));
      var (after, name) := AllocOne(before);
      OneMoreName(live, names, name);
    } else {
      assert live + Elements([]) == live;
    }
  }

  lemma OneMoreName(live: set<nat>, names: seq<nat>, name: nat)
    requires Unique(names) && name !in live + Elements(names)
    ensures Unique(names + [name]) && live + Elements(names + [name]) == live + Elements(names) + {name}
  {
    assert forall x :: x in names ==> x in Elements(names);
  }

  lemma {:induction false} NonZeroMembers(names: seq<nat>, x: nat)
    ensures x in NonZero(names) <==> x in names && x != 0
  {
    if names != [] {
      NonZeroMembers(names[..|names| - 1], x);
      assert names == names[..|names| - 1] + [names[|names| - 1]];
    }
  }

  /** Each of the names is live, and none is named twice; zero may stand among them. */
  ghost predicate EachLiveOnce(names: seq<nat>, live: set<nat>) {
    Unique(NonZero(names)) && forall x :: x in names ==> x == 0 || x in live
  }

  /** Deleting keeps the partition exactly when each deleted name is live and named once. */
  lemma DeleteKeeps(s: Names, live: set<nat>, names: seq<nat>)
    requires Partition(s, live)
    ensures Partition(Delete(s, names), live - Elements(names)) <==> EachLiveOnce(names, live)
  {
    var gone := NonZero(names);
    forall x ensures x in gone <==> x in names && x != 0 {
      NonZeroMembers(names, x);
    }
    assert forall x :: x in Delete(s, names).reusable <==> x in s.reusable || x in gone;
    if EachLiveOnce(names, live) {
      DeleteKeepsUnique(s.reusable, gone);
    }
    if Partition(Delete(s, names), live - Elements(names)) {
      UniqueParts(s.reusable, gone);
    }
  }

  lemma DeleteKeepsUnique(a: seq<nat>, b: seq<nat>)
    requires Unique(a) && Unique(b) && forall x :: x in b ==> x !in a
    ensures Unique(a + b)
  {
    forall i, j | 0 <= i < j < |a + b| ensures (a + b)[i] != (a + b)[j] {
      if i < |a| <= j {
        assert b[j - |a|] in b && a[i] in a;
      }
    }
  }

  lemma UniqueParts(a: seq<nat>, b: seq<nat>)
    requires Unique(a + b)
    ensures Unique(b) && forall x :: x in b ==> x !in a
  {
    assert forall j :: 0 <= j < |b| ==> (a + b)[|a| + j] == b[j];
    forall j, i | 0 <= j < |b| && 0 <= i < |a| ensures a[i] != b[j] {
      assert (a + b)[i] != (a + b)[|a| + j];
    }
  }

  /**
   Claiming keeps the partition exactly when the claimed name is below the largest one or is the
   next one. Claiming the largest one again, or one further off, breaks it.
   */
  lemma ClaimKeeps(s: Names, live: set<nat>, name: nat)
    requires Partition(s, live) && name != 0 && s.last < UINT_MAX
    ensures Partition(Claim(s, name), live + {name}) <==> name < s.last || name == s.last + 1
  {
    hide WithoutFirst;
    if name < s.last {
      ClaimBelow(s, live, name);
    } else if name != s.last + 1 {
      assert !(s.last + 1 in live || s.last + 1 in s.reusable);
    }
  }

  lemma ClaimBelow(s: Names, live: set<nat>, name: nat)
    requires Partition(s, live) && 0 < name < s.last
    ensures Partition(Claim(s, name), live + {name})
  {
    hide WithoutFirst;
    if name in s.reusable {
      var k := FirstIndex(s.reusable, name);
      WithoutFirstAt(s.reusable, name, k);
      var left := s.reusable[..k] + s.reusable[k + 1..];
      forall x ensures x in left <==> x in s.reusable && x != name {
        if x in s.reusable && x != name {
          var i := FirstIndex(s.reusable, x);
          assert left[if i < k then i else i - 1] == x;
        }
      }
    } else {
      WithoutAbsent(s.reusable, name);
    }
  }

  // ----- Whole histories -----

  datatype Call = GenNames(n: nat) | DeleteNames(names: seq<nat>) | ClaimName(name: nat)

  function After(s: Names, call: Call): Names {
    match call
    case GenNames(n) => Alloc(s, n).0
    case DeleteNames(names) => Delete(s, names)
    case ClaimName(name) => Claim(s, name)
  }

  function LiveAfter(s: Names, live: set<nat>, call: Call): set<nat> {
    match call
    case GenNames(n) => live + Elements(Alloc(s, n).1)
    case DeleteNames(names) => live - Elements(names)
    case ClaimName(name) => live + {name}
  }

  /** What the application must keep to: conditions it can check on its own live names. */
  ghost predicate Orderly(s: Names, live: set<nat>, call: Call) {
    match call
    case GenNames(n) => Room(s, n)
    case DeleteNames(names) => EachLiveOnce(names, live)
    case ClaimName(name) => name != 0 && s.last < UINT_MAX && (name < s.last || name == s.last + 1)
  }

  ghost predicate History(states: seq<Names>, lives: seq<set<nat>>, calls: seq<Call>) {
    && |states| == |lives| == |calls| + 1
    && states[0] == Init() && lives[0] == {}
    && forall i {:trigger calls[i]} :: 0 <= i < |calls| ==>
         && Orderly(states[i], lives[i], calls[i])
         && states[i + 1] == After(states[i], calls[i])
         && lives[i + 1] == LiveAfter(states[i], lives[i], calls[i])
  }

  /**
   Names are conserved: at every point of every orderly history, live and recyclable names divide up
   `1..last`; and whatever a Gen hands out is non-zero, not live, and handed out once.
   */
  lemma {:induction false} NamesConserved(states: seq<Names>, lives: seq<set<nat>>, calls: seq<Call>, i: nat)
    requires History(states, lives, calls) && i < |states|
    ensures Partition(states[i], lives[i])
    ensures i < |calls| && calls[i].GenNames? ==>
      var names := Alloc(states[i], calls[i].n).1;
      Unique(names) && forall x :: x in names ==> 1 <= x <= UINT_MAX && x !in lives[i]
    ensures states[i].last <= UINT_MAX
  {
    if i > 0 {
      NamesConserved(states, lives, calls, i - 1);
      var s, live, call := states[i - 1], lives[i - 1], calls[i - 1];
      match call
      case GenNames(n) => AllocKeeps(s, live, n); AllocShape(s, n);
      case DeleteNames(names) => DeleteKeeps(s, live, names);
      case ClaimName(name) => ClaimKeeps(s, live, name);
    }
    if i < |calls| && calls[i].GenNames? {
      var s, live, n := states[i], lives[i], calls[i].n;
      AllocKeeps(s, live, n);
      AllocShape(s, n);
      var (s', names) := Alloc(s, n);
      forall x | x in names ensures x <= UINT_MAX {
        assert x in live + Elements(names);
      }
    }
  }

  /** Why each name must be deleted once only: a name deleted twice is handed out twice. */
  lemma DoubleDeleteIssuesTwice(s: Names, name: nat)
    requires name != 0
    ensures var n := |s.reusable|; var names := Alloc(Delete(Delete(s, [name]), [name]), n + 2).1;
      names[n] == names[n + 1] == name
  {
    assert NonZero([name]) == [name] by {
      assert [name][..0] == [];
    }
    AllocShape(Delete(Delete(s, [name]), [name]), |s.reusable| + 2);
  }

  // ----- The name handler -----

  class Handler {
    var lastName: nat
    const reusableNames: List<nat>

    ghost predicate Valid()
      reads this, reusableNames, reusableNames.nodes
    {
      reusableNames.Valid() && lastName <= UINT_MAX
    }

    ghost function View(): Names
      reads this, reusableNames, reusableNames.nodes
    {
      Names(lastName, reusableNames.Contents())
    }

    constructor ()
      ensures Valid() && View() == Init() && fresh(reusableNames)
    {
      reusableNames := new List();
      lastName := 0;
    }

    method NextName() returns (name: nat)
      requires Valid() && Room(View(), 1)
      modifies this, reusableNames, reusableNames.nodes
      ensures Valid() && (View(), name) == AllocOne(old(View()))
      ensures forall k :: 0 <= k < |reusableNames.nodes| ==> reusableNames.nodes[k] in old(reusableNames.nodes)
    {
      if reusableNames.head != null {
        name := reusableNames.head.data;
        ghost var contents := reusableNames.Contents();
        reusableNames.DeleteElement(reusableNames.head, 0);
        assert contents[..0] + contents[1..] == contents[1..];
      } else {
        lastName := lastName + 1;
        name := lastName;
      }
    }

    /** Fills the array with `n` names; a negative `n` asks for none. */
    method AllocNames(n: int, buffers: array<nat>)
      requires Valid() && n <= buffers.Length && (n > 0 ==> Room(View(), n))
      modifies this, reusableNames, reusableNames.nodes, buffers
      ensures Valid()
      ensures var count := if n < 0 then 0 else n;
        && (View(), buffers[..count]) == Alloc(old(View()), count)
        && buffers[count..] == old(buffers[count..])
    {
      hide Alloc;
      ghost var before := View();
      AllocNext(before, 0);
      var i := 0;
      while i < n
        invariant 0 <= i && (n >= 0 ==> i <= n) && (n < 0 ==> i == 0)
        invariant Valid() && View() == Alloc(before, i).0
        invariant buffers[..i] == Alloc(before, i).1
        invariant buffers[i..] == old(buffers[i..])
        invariant forall k :: 0 <= k < |reusableNames.nodes| ==> reusableNames.nodes[k] in old(reusableNames.nodes)
      {
        AllocNext(before, i);
        AllocShape(before, i);
        var name := NextName();
        buffers[i] := name;
        assert buffers[..i + 1] == buffers[..i] + [name];
        i := i + 1;
      }
    }

    /** A name chosen by the application is taken out of the recyclable ones, or counted. */
    method AllocName(name: nat)
      requires Valid()
      modifies this, reusableNames, reusableNames.nodes
      ensures Valid() && View() == Claim(old(View()), name)
    {
      if name >= lastName {
        lastName := (lastName + 1) % (UINT_MAX + 1);
      } else {
        reusableNames.DeleteFirstMatching(name);
      }
    }

    method DeleteNames(n: int, buffers: array<nat>)
      requires Valid() && n <= buffers.Length
      modifies reusableNames, reusableNames.nodes
      ensures Valid() && View() == Delete(old(View()), buffers[..if n < 0 then 0 else n])
    {
      var i := 0;
      while i < n
        invariant 0 <= i && (n >= 0 ==> i <= n) && (n < 0 ==> i == 0)
        invariant Valid() && View() == Delete(old(View()), buffers[..i])
        invariant forall k :: 0 <= k < |reusableNames.nodes| ==>
                    reusableNames.nodes[k] in old(reusableNames.nodes) || fresh(reusableNames.nodes[k])
      {
        assert buffers[..i + 1][..i] == buffers[..i];
        if buffers[i] != 0 {
          reusableNames.Append(buffers[i]);
        }
        i := i + 1;
      }
    }
  }
}
