/** The chained hash table that maps client names to data. */
module HashTable {
  import opened Sequences
  import opened Wrappers

  const TABLE_SIZE: nat := 1023

  /** The largest GLuint. */
  const KEY_LIMIT: nat := 0xFFFF_FFFF

  class Entry<T> {
    const key: nat
    var data: T
    var next: Entry?<T>

    constructor (key: nat, data: T, next: Entry?<T>)
      ensures this.key == key && this.data == data && this.next == next
    {
      this.key, this.data, this.next := key, data, next;
    }
  }

  function Find<T>(m: map<nat, T>, key: nat): (data: Option<T>)
    ensures data.Some? <==> key in m
    ensures key in m ==> data.value == m[key]
  {
    if key in m then Some(m[key]) else None
  }

  /** The keys of all chains, bucket by bucket. */
  ghost function KeysOf<T>(chains: seq<seq<Entry<T>>>): seq<nat> {
    if chains == [] then [] else
      KeysOf(chains[..|chains| - 1]) + ChainKeys(chains[|chains| - 1])
  }

  ghost function ChainKeys<T>(chain: seq<Entry<T>>): (keys: seq<nat>)
    ensures |keys| == |chain| && forall i {:trigger keys[i]} :: 0 <= i < |chain| ==> keys[i] == chain[i].key
  {
    seq(|chain|, i requires 0 <= i < |chain| => chain[i].key)
  }

  /** Where the keys of bucket `pos` stand among all. */
  lemma {:induction false} KeysAt<T>(chains: seq<seq<Entry<T>>>, pos: nat)
    requires pos < |chains|
    ensures |KeysOf(chains[..pos])| + |chains[pos]| <= |KeysOf(chains)|
    ensures KeysOf(chains)[|KeysOf(chains[..pos])|..|KeysOf(chains[..pos])| + |chains[pos]|] == ChainKeys(chains[pos])
    ensures KeysOf(chains[..pos + 1]) == KeysOf(chains[..pos]) + ChainKeys(chains[pos])
    ensures |KeysOf(chains[..pos + 1])| <= |KeysOf(chains)|
    ensures KeysOf(chains[..pos + 1]) == KeysOf(chains)[..|KeysOf(chains[..pos + 1])|]
  {
    var n := |chains| - 1;
    assert chains[..pos + 1][..pos] == chains[..pos];
    if pos < n {
      assert chains[..n][..pos] == chains[..pos] && chains[..n][pos] == chains[pos];
      assert chains[..n][..pos + 1] == chains[..pos + 1];
      KeysAt(chains[..n], pos);
    } else {
      assert chains[..pos + 1] == chains;
    }
  }

  /** Every bucket holds its own keys only, and each of them once. */
  ghost predicate Sorted<T>(chains: seq<seq<Entry<T>>>) {
    && (forall pos, i {:trigger chains[pos][i]} :: 0 <= pos < |chains| && 0 <= i < |chains[pos]| ==>
          chains[pos][i].key % TABLE_SIZE == pos)
    && (forall pos :: 0 <= pos < |chains| ==> Unique(ChainKeys(chains[pos])))
  }

  lemma {:induction false} KeysUnique<T>(chains: seq<seq<Entry<T>>>)
    requires Sorted(chains)
    ensures Unique(KeysOf(chains))
    ensures forall k :: k in KeysOf(chains) ==> k % TABLE_SIZE < |chains| && k in ChainKeys(chains[k % TABLE_SIZE])
    ensures forall pos, i :: 0 <= pos < |chains| && 0 <= i < |chains[pos]| ==> chains[pos][i].key in KeysOf(chains)
  {
    if chains != [] {
      var n := |chains| - 1;
      KeysUnique(chains[..n]);
      var before, last := KeysOf(chains[..n]), ChainKeys(chains[n]);
      assert KeysOf(chains) == before + last;
      forall i | 0 <= i < |last| ensures last[i] % TABLE_SIZE == n && last[i] in last && last[i] !in before {
        assert last[i] == chains[n][i].key;
      }
      forall pos, i | 0 <= pos < |chains| && 0 <= i < |chains[pos]| ensures chains[pos][i].key in before + last {
        if pos == n {
          assert last[i] in last;
        } else {
          assert chains[..n][pos][i].key in before;
        }
      }
      forall i, j | 0 <= i < j < |before + last| ensures (before + last)[i] != (before + last)[j] {
        if i < |before| <= j {
          assert last[j - |before|] !in before && before[i] in before;
        }
      }
    }
  }

  /** `n` keys from `first` on are free. */
  ghost predicate FreeBlock<T>(m: map<nat, T>, first: nat, n: nat) {
    forall k :: first <= k < first + n ==> k !in m
  }

  lemma FreeBlockMeans<T>(m: map<nat, T>, first: nat, n: nat)
    ensures FreeBlock(m, first, n) <==> forall k :: first <= k < first + n ==> k !in m
  {
  }

  ghost function Without<T>(s: seq<T>, i: nat): (r: seq<T>)
    requires i < |s|
    ensures |r| == |s| - 1
    ensures forall j {:trigger r[j]} :: 0 <= j < |r| ==> r[j] == s[if j < i then j else j + 1]
  {
    s[..i] + s[i + 1..]
  }

  lemma WithoutMembers<T>(s: seq<T>, i: nat)
    requires i < |s|
    ensures forall x :: x in s && x != s[i] ==> x in Without(s, i)
  {
    forall j | 0 <= j < |s| && j != i ensures s[j] in Without(s, i) {
      assert Without(s, i)[if j < i then j else j - 1] == s[j];
    }
  }

  class Table<T> {
    const buckets: array<Entry?<T>>
    var maxKey: nat
    ghost var chains: seq<seq<Entry<T>>>
    ghost var entryOf: map<nat, Entry<T>>

    ghost function At(pos: nat, i: nat): Entry?<T>
      reads this`chains
      requires pos < |chains|
    {
      if i < |chains[pos]| then chains[pos][i] else null
    }

    /** A chain holds distinct entries, all of its own bucket, and ends in null. */
    ghost predicate Linked(pos: nat)
      reads this`chains, this`entryOf, buckets, entryOf.Values`next
      requires pos < |chains| && pos < buckets.Length
    {
      && buckets[pos] == At(pos, 0)
      && (forall i, j :: 0 <= i < j < |chains[pos]| ==> chains[pos][i] != chains[pos][j])
      && (forall i {:trigger chains[pos][i]} :: 0 <= i < |chains[pos]| ==>
            && chains[pos][i].key % TABLE_SIZE == pos
            && chains[pos][i].key in entryOf && entryOf[chains[pos][i].key] == chains[pos][i])
      && (forall i {:trigger chains[pos][i].next} :: 0 <= i < |chains[pos]| ==> chains[pos][i].next == At(pos, i + 1))
    }

    /** Every key has one entry, in its own bucket, and is not above `maxKey`. */
    ghost predicate Valid()
      reads this, buckets, entryOf.Values
    {
      && buckets.Length == |chains| == TABLE_SIZE && maxKey <= KEY_LIMIT
      && (forall pos :: 0 <= pos < TABLE_SIZE ==> Linked(pos))
      && Keyed()
    }

    ghost predicate Keyed()
      reads this
      requires |chains| == TABLE_SIZE
    {
      forall k {:trigger k in entryOf} {:trigger entryOf[k]} :: k in entryOf ==>
        0 < k <= maxKey && entryOf[k].key == k && entryOf[k] in chains[k % TABLE_SIZE]
    }

    twostate lemma KeyedAfterAdd(pos: nat)
      requires |old(chains)| == |chains| == TABLE_SIZE && old(Keyed()) && maxKey == old(maxKey)
      requires pos < TABLE_SIZE && chains[pos] != []
      requires chains == old(chains)[pos := [chains[pos][0]] + old(chains[pos])]
      requires entryOf == old(entryOf)[chains[pos][0].key := chains[pos][0]]
      requires 0 < chains[pos][0].key <= maxKey && chains[pos][0].key % TABLE_SIZE == pos
      ensures Keyed()
    {
    }

    twostate lemma KeyedAfterRemove(pos: nat)
      requires |old(chains)| == |chains| == TABLE_SIZE && old(Keyed()) && maxKey == old(maxKey)
      requires forall p :: 0 <= p < TABLE_SIZE ==>
                 forall x :: x in old(chains[p]) && x.key in entryOf ==> x in chains[p]
      requires forall k :: k in entryOf ==> k in old(entryOf) && entryOf[k] == old(entryOf[k])
      ensures Keyed()
    {
    }

    /** The table as a map. */
    ghost function Map(): (m: map<nat, T>)
      reads this`entryOf, entryOf.Values`data
      ensures m.Keys == entryOf.Keys && forall k :: k in m ==> m[k] == entryOf[k].data
    {
      map k | k in entryOf :: entryOf[k].data
    }

    /** Buckets that an operation does not touch stay linked. */
    twostate lemma OtherBuckets(pos: nat)
      requires |old(chains)| == |chains| == TABLE_SIZE == buckets.Length
      requires forall p :: 0 <= p < TABLE_SIZE ==> old(Linked(p))
      requires forall p :: 0 <= p < TABLE_SIZE && p != pos ==>
                 chains[p] == old(chains[p]) && buckets[p] == old(buckets[p])
      requires forall k {:trigger old(entryOf[k])} :: k in old(entryOf) && k % TABLE_SIZE != pos ==>
                 k in entryOf && entryOf[k] == old(entryOf[k]) && entryOf[k].next == old(entryOf[k].next)
      ensures forall p :: 0 <= p < TABLE_SIZE && p != pos ==> Linked(p)
    {
      forall p | 0 <= p < TABLE_SIZE && p != pos ensures Linked(p) {
        assert old(Linked(p));
        forall i {:trigger chains[p][i]} | 0 <= i < |chains[p]|
          ensures chains[p][i].key % TABLE_SIZE == p && chains[p][i].key in entryOf
          ensures entryOf[chains[p][i].key] == chains[p][i] && chains[p][i].next == old(chains[p][i].next)
        {
          assert old(entryOf[chains[p][i].key]) == chains[p][i];
        }
      }
    }

    constructor ()
      ensures Valid() && Map() == map[] && fresh(buckets) && maxKey == 0
    {
      buckets := new Entry?<T>[TABLE_SIZE](_ => null);
      maxKey := 0;
      chains := seq(TABLE_SIZE, _ => []);
      entryOf := map[];
    }

    method Lookup(key: nat) returns (data: Option<T>)
      requires Valid()
      ensures data == Find(Map(), key)
    {
      if key == 0 {
        return None;
      }
      var pos := key % TABLE_SIZE;
      assert Linked(pos);
      var entry := buckets[pos];
      ghost var i: nat := 0;
      while entry != null
        invariant i <= |chains[pos]| && entry == At(pos, i)
        invariant forall j :: 0 <= j < i ==> chains[pos][j].key != key
        decreases |chains[pos]| - i
      {
        if entry.key == key {
          return Some(entry.data);
        }
        entry, i := entry.next, i + 1;
      }
      data := None;
    }

    /** Replaces the data of the key, handing the old data to the delete function, or adds the key. */
    method Insert(key: nat, data: T) returns (deleted: Option<T>)
      requires Valid() && 0 < key <= KEY_LIMIT
      modifies this, buckets, entryOf.Values
      ensures Valid() && Map() == old(Map())[key := data] && deleted == Find(old(Map()), key)
      ensures maxKey == if key > old(maxKey) then key else old(maxKey)
      ensures forall k :: k in entryOf ==> fresh(entryOf[k]) || (k in old(entryOf) && entryOf[k] == old(entryOf[k]))
    {
      hide Map;
      var pos := key % TABLE_SIZE;
      assert Linked(pos);
      if key > maxKey {
        maxKey := key;
      }
      assert Valid();
      hide Keyed;
      EntriesKeyed();
      var entry := buckets[pos];
      ghost var i: nat := 0;
      while entry != null
        invariant i <= |chains[pos]| && entry == At(pos, i)
        invariant forall j :: 0 <= j < i ==> chains[pos][j].key != key
        decreases |chains[pos]| - i
      {
        if entry.key == key {
          deleted := Some(entry.data);
          assert entry == entryOf[key] && entry in entryOf.Values;
          Replace(entry, data);
          return;
        }
        entry, i := entry.next, i + 1;
      }
      deleted := None;
      AddFirst(pos, key, data);
    }

    method Replace(entry: Entry<T>, data: T)
      requires Valid() && entry.key in entryOf && entryOf[entry.key] == entry
      modifies entry`data
      ensures Valid() && Map() == old(Map())[entry.key := data]
    {
      EntriesKeyed();
      entry.data := data;
    }

    method AddFirst(pos: nat, key: nat, data: T)
      requires Valid() && 0 < key <= maxKey && pos == key % TABLE_SIZE && key !in entryOf
      modifies `chains, `entryOf, buckets
      ensures Valid() && Map() == old(Map())[key := data]
      ensures entryOf.Keys == old(entryOf.Keys) + {key} && fresh(entryOf[key])
      ensures forall k :: k in old(entryOf) ==> entryOf[k] == old(entryOf[k])
    {
      hide Valid, Map;
      LinkFirst(pos, key, data);
      assert Map().Keys == old(Map().Keys) + {key};
    }

    method LinkFirst(pos: nat, key: nat, data: T)
      requires Valid() && 0 < key <= maxKey && pos == key % TABLE_SIZE && key !in entryOf
      modifies `chains, `entryOf, buckets
      ensures Valid() && key in entryOf && entryOf == old(entryOf)[key := entryOf[key]]
      ensures fresh(entryOf[key]) && entryOf[key].data == data
    {
      hide Keyed;
      assert Linked(pos);
      var entry := new Entry(key, data, buckets[pos]);
      buckets[pos] := entry;
      chains := chains[pos := [entry] + chains[pos]];
      entryOf := entryOf[key := entry];
      OtherBuckets(pos);
      forall i {:trigger chains[pos][i]} | 0 < i < |chains[pos]|
        ensures chains[pos][i].key != key && entryOf[chains[pos][i].key] == chains[pos][i]
        ensures chains[pos][i].next == At(pos, i + 1)
      {
        assert chains[pos][i] == old(chains[pos])[i - 1];
      }
      assert chains[pos][0] == entry && entry.next == At(pos, 1);
      KeyedAfterAdd(pos);
    }

    /** Unlinks the entry of the key; its data is returned, whether or not the caller deletes it. */
    method Remove(key: nat) returns (removed: Option<T>)
      requires Valid()
      modifies `chains, `entryOf, buckets, entryOf.Values
      ensures Valid() && Map() == old(Map()) - {key} && removed == Find(old(Map()), key)
      ensures entryOf == old(entryOf) - {key}
    {
      var pos := key % TABLE_SIZE;
      assert Linked(pos);
      var prev: Entry?<T> := null;
      var entry := buckets[pos];
      ghost var i: nat := 0;
      while entry != null
        invariant i <= |chains[pos]| && entry == At(pos, i)
        invariant prev == if i == 0 then null else At(pos, i - 1)
        invariant forall j :: 0 <= j < i ==> chains[pos][j].key != key
        decreases |chains[pos]| - i
      {
        if entry.key == key {
          removed := Some(entry.data);
          assert Linked(pos) && (prev != null ==> prev == entryOf[prev.key] && prev in entryOf.Values);
          Unlink(pos, prev, entry, i);
          assert Map() == old(Map()) - {key};
          return;
        }
        prev, entry, i := entry, entry.next, i + 1;
      }
      removed := None;
    }

    method Unlink(pos: nat, prev: Entry?<T>, entry: Entry<T>, ghost i: nat)
      requires Valid() && pos < TABLE_SIZE && i < |chains[pos]| && chains[pos][i] == entry
      requires prev == if i == 0 then null else chains[pos][i - 1]
      modifies `chains, `entryOf, buckets, (if prev == null then {} else {prev})`next
      ensures Valid() && entryOf == old(entryOf) - {entry.key}
    {
      hide Keyed, Without;
      EntriesKeyed();
      assert Linked(pos);
      if prev != null {
        prev.next := entry.next;
      } else {
        buckets[pos] := entry.next;
      }
      chains := chains[pos := Without(chains[pos], i)];
      entryOf := entryOf - {entry.key};
      OtherBuckets(pos);
      Unlinked((pos, i));
      hide Linked;
      WithoutMembers(old(chains[pos]), i);
      KeyedAfterRemove(pos);
    }

    /** Position `at.1` of bucket `at.0` is skipped; the bucket stays linked. */
    twostate lemma Unlinked(at: (nat, nat))
      requires var (pos, i) := at;
        && pos < TABLE_SIZE == |chains| == buckets.Length == |old(chains)| && old(Linked(pos))
        && i < |old(chains[pos])| && chains[pos] == Without(old(chains[pos]), i)
        && entryOf == old(entryOf) - {old(chains[pos][i]).key}
        && buckets[pos] == if i == 0 then old(chains[pos][i].next) else old(buckets[pos])
      requires forall j {:trigger old(chains[at.0][j].next)} :: 0 <= j < |old(chains[at.0])| ==>
                 old(chains[at.0][j]).next
                 == if j == at.1 - 1 then old(chains[at.0][at.1].next) else old(chains[at.0][j].next)
      ensures Linked(at.0)
    {
      hide Without;
      var (pos, i) := at;
      forall j {:trigger chains[pos][j]} | 0 <= j < |chains[pos]|
        ensures chains[pos][j] == old(chains[pos])[if j < i then j else j + 1]
        ensures chains[pos][j].next == At(pos, j + 1)
        ensures chains[pos][j].key % TABLE_SIZE == pos && chains[pos][j].key in entryOf
        ensures entryOf[chains[pos][j].key] == chains[pos][j]
      {
        var k := if j < i then j else j + 1;
        assert chains[pos][j] == old(chains[pos][k]);
        assert old(chains[pos][k].next) == old(At(pos, k + 1)) && old(chains[pos][i].next) == old(At(pos, i + 1));
        assert j + 1 < |chains[pos]| ==> chains[pos][j + 1] == old(chains[pos])[if j + 1 < i then j + 1 else j + 2];
      }
    }

    lemma EntriesKeyed()
      requires |chains| == TABLE_SIZE && Keyed()
      ensures forall k {:trigger entryOf[k]} :: k in entryOf ==> entryOf[k].key == k
    {
    }

    method Take(key: nat) returns (data: Option<T>)
      requires Valid()
      modifies `chains, `entryOf, buckets, entryOf.Values
      ensures Valid() && Map() == old(Map()) - {key} && data == Find(old(Map()), key)
      ensures entryOf == old(entryOf) - {key}
    {
      data := Lookup(key);
      var removed := Remove(key);
    }

    /** The order in which first and next run through the keys. */
    ghost function Order(): seq<nat>
      reads this`chains
    {
      KeysOf(chains)
    }

    /** It contains every key of the table, and each of them once. */
    lemma OrderCovers()
      requires Valid()
      ensures Unique(Order()) && Elements(Order()) == Map().Keys && |Order()| == |Map()|
    {
      forall pos | 0 <= pos < TABLE_SIZE
        ensures Unique(ChainKeys(chains[pos]))
        ensures forall i {:trigger chains[pos][i]} :: 0 <= i < |chains[pos]| ==>
                  chains[pos][i].key % TABLE_SIZE == pos && chains[pos][i].key in entryOf
      {
        assert Linked(pos);
        var keys := ChainKeys(chains[pos]);
        forall i, j | 0 <= i < j < |keys| ensures keys[i] != keys[j] {
          assert entryOf[chains[pos][i].key] == chains[pos][i] && entryOf[chains[pos][j].key] == chains[pos][j];
        }
      }
      KeysUnique(chains);
      UniqueCount(Order());
      forall k ensures k in Order() <==> k in entryOf {
        if k in entryOf {
          var pos := k % TABLE_SIZE;
          var i :| 0 <= i < |chains[pos]| && chains[pos][i] == entryOf[k];
          assert chains[pos][i].key in KeysOf(chains);
        }
        if k in Order() {
          var keys := ChainKeys(chains[k % TABLE_SIZE]);
          var i :| 0 <= i < |keys| && keys[i] == k;
          assert chains[k % TABLE_SIZE][i].key == k;
        }
      }
      assert Map().Keys == Elements(Order());
      assert |Map()| == |Map().Keys|;
    }

    method NumEntries() returns (count: nat)
      requires Valid()
      ensures count == |Map()|
    {
      count := 0;
      for pos := 0 to TABLE_SIZE
        invariant count == |KeysOf(chains[..pos])|
      {
        KeysAt(chains, pos);
        assert Linked(pos);
        var entry := buckets[pos];
        ghost var i: nat := 0;
        while entry != null
          invariant i <= |chains[pos]| && entry == At(pos, i) && count == |KeysOf(chains[..pos])| + i
          decreases |chains[pos]| - i
        {
          count := count + 1;
          entry, i := entry.next, i + 1;
        }
      }
      assert chains[..TABLE_SIZE] == chains;
      OrderCovers();
    }

    method FirstEntry() returns (key: nat)
      requires Valid()
      ensures key == if Order() == [] then 0 else Order()[0]
    {
      assert chains[..0] == [];
      key := FirstFrom(0);
    }

    /** From any key of the table to the one after it in that order; zero at the end. */
    method NextEntry(key: nat) returns (next: nat)
      requires Valid() && key != 0
      ensures key !in Map() ==> next == 0
      ensures forall n :: 0 <= n < |Order()| && Order()[n] == key ==>
                next == if n + 1 < |Order()| then Order()[n + 1] else 0
    {
      hide KeysOf, Keyed;
      var pos := key % TABLE_SIZE;
      assert Linked(pos);
      KeyPlace(key);
      var entry := buckets[pos];
      ghost var i: nat := 0;
      while entry != null && entry.key != key
        invariant i <= |chains[pos]| && entry == At(pos, i)
        invariant forall j :: 0 <= j < i ==> chains[pos][j].key != key
        decreases |chains[pos]| - i
      {
        entry, i := entry.next, i + 1;
      }
      if entry == null {
        return 0;
      }
      ghost var at := |KeysOf(chains[..pos])|;
      OrderAt(pos, i);
      if entry.next != null {
        OrderAt(pos, i + 1);
        return entry.next.key;
      }
      next := FirstFrom(pos + 1);
    }

    /** A key of the order is in its chain. */
    lemma KeyPlace(key: nat)
      requires Valid()
      ensures var chain := chains[key % TABLE_SIZE];
        key in Map() || key in Order() ==> exists i :: 0 <= i < |chain| && chain[i].key == key
    {
      OrderCovers();
      if key in entryOf {
        assert entryOf[key] in chains[key % TABLE_SIZE];
      }
    }

    /** Entry `i` of bucket `pos` has one place in the order. */
    lemma OrderAt(pos: nat, i: nat)
      requires Valid() && pos < TABLE_SIZE && i < |chains[pos]|
      ensures var n := |KeysOf(chains[..pos])| + i;
        && n < |Order()| && Order()[n] == chains[pos][i].key
        && forall m :: 0 <= m < |Order()| && Order()[m] == chains[pos][i].key ==> m == n
      ensures |KeysOf(chains[..pos + 1])| == |KeysOf(chains[..pos])| + |chains[pos]|
    {
      hide KeysOf;
      OrderCovers();
      KeysAt(chains, pos);
      var at, mine := |KeysOf(chains[..pos])|, ChainKeys(chains[pos]);
      assert Order()[at..at + |mine|][i] == mine[i];
    }

    /** The first key in the buckets from `pos` on. */
    method FirstFrom(pos: nat) returns (key: nat)
      requires Valid() && pos <= TABLE_SIZE
      ensures var before := |KeysOf(chains[..pos])|;
        && before <= |Order()|
        && key == if before < |Order()| then Order()[before] else 0
    {
      hide Keyed, KeysOf;
      assert chains[..TABLE_SIZE] == chains;
      var p := pos;
      if p < TABLE_SIZE {
        KeysAt(chains, p);
      }
      ghost var before := |KeysOf(chains[..pos])|;
      while p < TABLE_SIZE
        invariant pos <= p <= TABLE_SIZE && |KeysOf(chains[..p])| == before <= |Order()|
      {
        KeysAt(chains, p);
        assert Linked(p);
        if buckets[p] != null {
          assert Order()[before..before + |chains[p]|][0] == ChainKeys(chains[p])[0];
          return buckets[p].key;
        }
        p := p + 1;
      }
      key := 0;
    }

    /**
     A block of free keys. Whatever is returned starts one, below the largest key; and zero is
     returned for a block of one or more keys only if there is none in `1..KEY_LIMIT`.
     */
    method FindFreeKeyBlock(numKeys: nat) returns (first: nat)
      requires Valid() && numKeys <= KEY_LIMIT
      ensures first != 0 ==> FreeBlock(Map(), first, numKeys) && first + numKeys <= KEY_LIMIT
      ensures first != 0 ==> forall k :: first <= k < first + numKeys ==> k !in Map()
      ensures numKeys > 0 ==>
        (first == 0 <==> forall s :: 1 <= s && s + numKeys <= KEY_LIMIT ==> !FreeBlock(Map(), s, numKeys))
      ensures numKeys == 0 ==> (first == 0 <==> maxKey == KEY_LIMIT)
    {
      if KEY_LIMIT - numKeys > maxKey {
        first := maxKey + 1;
        assert FreeBlock(Map(), first, numKeys);
        return;
      }
      var freeCount, freeStart, key := 0, 1, 1;
      while key != KEY_LIMIT
        invariant 1 <= key <= KEY_LIMIT && freeStart + freeCount == key && freeStart >= 1
        invariant numKeys > 0 ==> freeCount < numKeys
        invariant FreeBlock(Map(), freeStart, freeCount)
        invariant numKeys > 0 ==> forall s :: 1 <= s < freeStart ==> !FreeBlock(Map(), s, numKeys)
        decreases KEY_LIMIT - key
      {
        var data := Lookup(key);
        if data.Some? {
          freeCount := 0;
          freeStart := key + 1;
        } else {
          freeCount := freeCount + 1;
          if freeCount == numKeys {
            assert FreeBlock(Map(), freeStart, numKeys);
            return freeStart;
          }
        }
        key := key + 1;
      }
      first := 0;
    }
  }
}
