/**
 Buffer names from end to end. The client invents names and queues commands that carry them; the
 server gives every Gen command driver names and keeps a table from client names to driver names.
 Names are recycled while commands that mention them are still queued.
 */
module NameTranslation {
  import opened NameHandler
  import opened Wrappers
  import HashTable

  // GLenum values.
  const GL_ARRAY_BUFFER: nat := 0x8892
  const GL_ELEMENT_ARRAY_BUFFER: nat := 0x8893

  datatype Command =
    | GenBuffers(names: seq<nat>)
    | DeleteBuffers(names: seq<nat>)
    | BindBuffer(target: nat, name: nat)

  // ----- The client -----

  /** The client's own state and the commands it has queued. */
  datatype Client = Client(names: Names, arrayBound: nat, elementBound: nat, queue: seq<Command>)

  function ClientGen(c: Client, n: nat): Client {
    var (names, issued) := Alloc(c.names, n);
    c.(names := names, queue := c.queue + [GenBuffers(issued)])
  }

  /** The cached bindings after the deletion: per name the array binding is looked at first, else the other. */
  function Unbound(arrayBound: nat, elementBound: nat, deleted: seq<nat>): (nat, nat) {
    if deleted == [] then (arrayBound, elementBound) else
      var n := |deleted| - 1;
      var (a, e) := Unbound(arrayBound, elementBound, deleted[..n]);
      if deleted[n] == a then (0, e) else if deleted[n] == e then (a, 0) else (a, e)
  }

  function ClientDelete(c: Client, names: seq<nat>): Client {
    var (arrayBound, elementBound) := Unbound(c.arrayBound, c.elementBound, names);
    Client(Delete(c.names, names), arrayBound, elementBound, c.queue + [DeleteBuffers(names)])
  }

  /** A buffer that is bound already is not bound again; there is no third target. */
  function ClientBind(c: Client, target: nat, name: nat): Client {
    if target == GL_ARRAY_BUFFER then
      if c.arrayBound == name then c
      else c.(arrayBound := name, queue := c.queue + [BindBuffer(target, name)])
    else if target == GL_ELEMENT_ARRAY_BUFFER then
      if c.elementBound == name then c
      else c.(elementBound := name, queue := c.queue + [BindBuffer(target, name)])
    else c
  }

  class CachingClient {
    const names: Handler
    var arrayBinding: nat
    var elementBinding: nat
    var queue: seq<Command>

    ghost predicate Valid()
      reads this, names, names.reusableNames, names.reusableNames.nodes
    {
      names.Valid()
    }

    ghost function View(): Client
      reads this, names, names.reusableNames, names.reusableNames.nodes
    {
      Client(names.View(), arrayBinding, elementBinding, queue)
    }

    constructor ()
      ensures Valid() && View() == Client(Init(), 0, 0, [])
    {
      names := new Handler();
      arrayBinding, elementBinding, queue := 0, 0, [];
    }

    /** A negative `n` is an error and queues nothing. */
    method Gen(n: int, buffers: array<nat>) returns (ok: bool)
      requires Valid() && n <= buffers.Length && (n > 0 ==> Room(names.View(), n))
      modifies this, names, names.reusableNames, names.reusableNames.nodes, buffers
      ensures Valid() && ok == (n >= 0)
      ensures !ok ==> View() == old(View()) && buffers[..] == old(buffers[..])
      ensures ok ==> View() == ClientGen(old(View()), n) && buffers[..n] == Alloc(old(names.View()), n).1
      ensures ok ==> queue == old(queue) + [GenBuffers(buffers[..n])]
    {
      if n < 0 {
        return false;
      }
      names.AllocNames(n, buffers);
      queue := queue + [GenBuffers(buffers[..n])];
      ok := true;
    }

    method DeleteMany(n: int, buffers: array<nat>) returns (ok: bool)
      requires Valid() && n <= buffers.Length
      modifies this, names.reusableNames, names.reusableNames.nodes
      ensures Valid() && ok == (n >= 0)
      ensures View() == if ok then ClientDelete(old(View()), buffers[..n]) else old(View())
      ensures ok ==> queue == old(queue) + [DeleteBuffers(buffers[..n])]
    {
      if n < 0 {
        return false;
      }
      queue := queue + [DeleteBuffers(buffers[..n])];
      names.DeleteNames(n, buffers);
      var i := 0;
      while i < n
        invariant 0 <= i <= n && Valid()
        invariant names.View() == Delete(old(names.View()), buffers[..n])
        invariant queue == old(queue) + [DeleteBuffers(buffers[..n])]
        invariant (arrayBinding, elementBinding) == Unbound(old(arrayBinding), old(elementBinding), buffers[..i])
      {
        assert buffers[..i + 1][..i] == buffers[..i];
        if buffers[i] == arrayBinding {
          arrayBinding := 0;
        } else if buffers[i] == elementBinding {
          elementBinding := 0;
        }
        i := i + 1;
      }
      ok := true;
    }

    /** The array target is 0x8892, the element target 0x8893. Any other is an error and queues nothing. */
    method Bind(target: nat, buffer: nat) returns (ok: bool)
      requires Valid()
      modifies this
      ensures Valid() && View() == ClientBind(old(View()), target, buffer)
      ensures names.View() == old(names.View()) && ok == (target == 0x8892 || target == 0x8893)
      ensures arrayBinding == if target == 0x8892 then buffer else old(arrayBinding)
      ensures elementBinding == if target == 0x8893 then buffer else old(elementBinding)
      ensures queue == old(queue) +
        if arrayBinding != old(arrayBinding) || elementBinding != old(elementBinding)
        then [BindBuffer(target, buffer)] else []
    {
      ok := true;
      if target == GL_ARRAY_BUFFER {
        if arrayBinding == buffer {
          return;
        }
        queue := queue + [BindBuffer(target, buffer)];
        arrayBinding := buffer;
      } else if target == GL_ELEMENT_ARRAY_BUFFER {
        if elementBinding == buffer {
          return;
        }
        queue := queue + [BindBuffer(target, buffer)];
        elementBinding := buffer;
      } else {
        ok := false;
      }
    }
  }

  // ----- The server's table -----

  /** The table once `names[i]` stands for `values[i]`. */
  function Assigned(m: map<nat, nat>, names: seq<nat>, values: seq<nat>): map<nat, nat>
    requires |names| == |values|
  {
    if names == [] then m else
      var n := |names| - 1;
      Assigned(m, names[..n], values[..n])[names[n] := values[n]]
  }

  /** Names are taken out of the table one by one; a name it does not hold is passed on as it is. */
  function TakeAll(m: map<nat, nat>, names: seq<nat>): (r: (map<nat, nat>, seq<nat>))
    ensures |r.1| == |names|
  {
    if names == [] then (m, []) else
      var n := |names| - 1;
      var (m', out) := TakeAll(m, names[..n]);
      if names[n] in m' then (m' - {names[n]}, out + [m'[names[n]]]) else (m', out + [names[n]])
  }

  /** What is taken out of a table by any names: a name stands for what the table holds, once. */
  lemma {:induction false} TakenMeans(m: map<nat, nat>, names: seq<nat>, i: nat)
    requires i < |names|
    ensures TakeAll(m, names).0 == map name | name in m && name !in names :: m[name]
    ensures TakeAll(m, names).1[i] == if names[i] in m && names[i] !in names[..i] then m[names[i]] else names[i]
  {
    var n := |names| - 1;
    assert names == names[..n] + [names[n]];
    if n > 0 {
      TakenMeans(m, names[..n], if i < n then i else 0);
    } else {
      assert names[..n] == [];
    }
    if i < n {
      assert names[..n][..i] == names[..i];
    }
  }

  lemma OneMoreTaken(m: map<nat, nat>, names: seq<nat>, i: nat)
    requires i < |names|
    ensures TakeAll(m, names[..i + 1]) ==
      var (m', out) := TakeAll(m, names[..i]);
      if names[i] in m' then (m' - {names[i]}, out + [m'[names[i]]]) else (m', out + [names[i]])
  {
    assert names[..i + 1][..i] == names[..i];
  }

  /** A name to bind is looked up; an unknown one is entered as standing for itself. */
  function LookupToBind(m: map<nat, nat>, name: nat): (map<nat, nat>, nat) {
    if name == 0 then (m, 0)
    else if name in m then (m, m[name])
    else (m[name := name], name)
  }

  class NameMapping {
    const table: HashTable.Table<nat>

    ghost predicate Valid()
      reads table, table.buckets, table.entryOf.Values
    {
      table.Valid() && 0 !in table.Map()
    }

    constructor ()
      ensures Valid() && table.Map() == map[] && fresh(table)
    {
      table := new HashTable.Table();
    }

    /** Enters the driver's names for the names of a Gen command. */
    method HandleGenBuffers(names: seq<nat>, driverNames: seq<nat>)
      requires Valid() && |names| == |driverNames| && forall x :: x in names ==> 0 < x <= HashTable.KEY_LIMIT
      modifies table, table.buckets, table.entryOf.Values
      ensures Valid() && table.Map() == Assigned(old(table.Map()), names, driverNames)
    {
      hide HashTable.Table.Valid, HashTable.Table.Map;
      var i := 0;
      while i < |names|
        invariant i <= |names| && Valid()
        invariant table.Map() == Assigned(old(table.Map()), names[..i], driverNames[..i])
        invariant forall k :: k in table.entryOf ==>
                    fresh(table.entryOf[k]) || (k in old(table.entryOf) && table.entryOf[k] == old(table.entryOf[k]))
      {
        assert names[..i + 1][..i] == names[..i] && driverNames[..i + 1][..i] == driverNames[..i];
        assert names[i] in names;
        var replaced := table.Insert(names[i], driverNames[i]);
        i := i + 1;
      }
      assert names[..|names|] == names && driverNames[..|names|] == driverNames;
    }

    method TakeOne(buffers: array<nat>, i: nat)
      requires Valid() && i < buffers.Length
      modifies table, table.buckets, table.entryOf.Values, buffers
      ensures Valid() && table.Map() == old(table.Map()) - {old(buffers[i])}
      ensures var name := old(buffers[i]);
        buffers[i] == if name in old(table.Map()) then old(table.Map())[name] else name
      ensures buffers[..i] == old(buffers[..i]) && buffers[i + 1..] == old(buffers[i + 1..])
      ensures table.entryOf == old(table.entryOf) - {old(buffers[i])}
    {
      hide HashTable.Table.Valid, HashTable.Table.Map;
      var entry := table.Take(buffers[i]);
      if entry.Some? {
        buffers[i] := entry.value;
      }
    }

    /** Replaces the names in the command by the driver's, forgetting them. */
    method HandleDeleteBuffers(buffers: array<nat>)
      requires Valid()
      modifies table, table.buckets, table.entryOf.Values, buffers
      ensures Valid() && (table.Map(), buffers[..]) == TakeAll(old(table.Map()), old(buffers[..]))
    {
      hide HashTable.Table.Valid, HashTable.Table.Map, TakeAll;
      ghost var names := buffers[..];
      assert TakeAll(table.Map(), names[..0]) == (table.Map(), []) by {
        TakeNone(table.Map());
      }
      var i := 0;
      while i < buffers.Length
        invariant i <= buffers.Length && Valid()
        invariant table.Map() == TakeAll(old(table.Map()), names[..i]).0
        invariant buffers[..i] == TakeAll(old(table.Map()), names[..i]).1
        invariant buffers[i..] == names[i..]
        invariant forall k :: k in table.entryOf ==>
                    k in old(table.entryOf) && table.entryOf[k] == old(table.entryOf[k])
      {
        OneMoreTaken(old(table.Map()), names, i);
        assert buffers[i] == names[i..][0];
        ghost var before := buffers[..i];
        TakeOne(buffers, i);
        assert buffers[..i + 1] == before + [buffers[i]];
        i := i + 1;
      }
      assert names[..buffers.Length] == names && buffers[..buffers.Length] == buffers[..];
    }

    lemma TakeNone(m: map<nat, nat>)
      ensures TakeAll(m, []) == (m, [])
    {
    }

    method HandleBindBuffer(name: nat) returns (handle: nat)
      requires Valid() && name <= HashTable.KEY_LIMIT
      modifies table, table.buckets, table.entryOf.Values
      ensures Valid() && (table.Map(), handle) == LookupToBind(old(table.Map()), name)
      ensures handle == if name in old(table.Map()) then old(table.Map())[name] else name
      ensures table.Map() ==
        if name == 0 || name in old(table.Map()) then old(table.Map()) else old(table.Map())[name := name]
    {
      handle := name;
      if name != 0 {
        var data := table.Lookup(name);
        if data == None {
          var replaced := table.Insert(name, name);
          data := Some(name);
        }
        handle := data.value;
      }
    }
  }
}
