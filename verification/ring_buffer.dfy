/** The ring buffer itself: one shared array, mapped twice in a row, with two cursors and a counter. */
module RingBuffer {
  import opened Bytes
  import opened Sequences
  import opened Wrappers

  const DEFAULT_SIZE: nat := 1024 * 512

  class Ring {
    const data: array<Byte>
    var head: nat
    var tail: nat
    var fillCount: nat
    var lastToken: nat

    // What has joined the queue since the start, one entry an advance.
    ghost var commits: seq<seq<Byte>>

    ghost predicate Valid()
      reads this, data
    {
      && data.Length > 0 && tail < data.Length && fillCount <= data.Length
      && head == Cell(data.Length, tail + fillCount)
      && IsEnd(Contents(), Concat(commits))
    }

    /** The queued bytes, oldest first, as read through the mirror. */
    ghost function Contents(): seq<Byte>
      reads this, data
      requires data.Length > 0
    {
      Window(data[..], tail, fillCount)
    }

    /** A ring of at least half a megabyte, rounded up to whole pages and no further. */
    constructor (size: nat, pageSize: nat)
      requires pageSize > 0
      ensures Valid() && fresh(data) && Contents() == [] && commits == [] && lastToken == 0
      ensures data.Length % pageSize == 0
      ensures data.Length >= 1024 * size && data.Length >= DEFAULT_SIZE
      ensures data.Length < 1024 * size + pageSize || data.Length < DEFAULT_SIZE + pageSize
    {
      var bufferSize := if 1024 * size < DEFAULT_SIZE then DEFAULT_SIZE else 1024 * size;
      var pages := (bufferSize + pageSize - 1) / pageSize;
      RoundedUp(bufferSize, pageSize);
      data := new Byte[pages * pageSize](_ => 0);
      head, tail, fillCount, lastToken := 0, 0, 0, 0;
      commits := [];
    }

    method NumEntries() returns (n: nat)
      requires Valid()
      ensures n == |Contents()|
    {
      n := fillCount;
    }

    /** Where the producer may write, and how much; nowhere when the ring is full. */
    method WriteAddress() returns (address: Option<nat>, writable: nat)
      requires Valid()
      ensures writable == data.Length - |Contents()|
      ensures address == if writable == 0 then None else Some(head)
    {
      writable := data.Length - fillCount;
      if writable == 0 {
        return None, writable;
      }
      address := Some(head);
    }

    /** What the producer left behind `head` joins the queue. */
    method WriteAdvance(count: nat)
      requires Valid() && count <= data.Length - fillCount
      modifies `head, `fillCount, `commits
      ensures Valid()
      ensures head == Cell(data.Length, old(head) + count) && fillCount == old(fillCount) + count
      ensures Contents() == old(Contents()) + Window(old(data[..]), old(head), count)
      ensures commits == old(commits) + [Window(old(data[..]), old(head), count)]
    {
      hide Concat, IsEnd, Window, Cell;
      ghost var command := Window(data[..], head, count);
      ConcatOneMore(commits, command);
      LongerEnd(Contents(), Concat(commits), command);
      CellOfCell(data.Length, tail + fillCount, count);
      AppendWindow(data[..], tail, fillCount, count);
      head := Cell(data.Length, head + count);
      fillCount := fillCount + count;
      commits := commits + [command];
    }

    /** Where the oldest queued byte is, and how many there are. */
    method ReadAddress() returns (address: Option<nat>, readable: nat)
      requires Valid()
      ensures readable == |Contents()|
      ensures address == if readable == 0 then None else Some(tail)
      ensures readable > 0 ==> Window(data[..], tail, readable) == Contents()
    {
      readable := fillCount;
      if readable == 0 {
        return None, readable;
      }
      address := Some(tail);
    }

    /** The oldest bytes leave the queue. */
    method ReadAdvance(count: nat)
      requires Valid() && count <= fillCount
      modifies `tail, `fillCount
      ensures Valid() && head == old(head)
      ensures tail == Cell(data.Length, old(tail) + count)
      ensures Contents() == old(Contents())[count..]
    {
      hide Concat, IsEnd, Window, Cell;
      ShorterEnd(Contents(), Concat(commits), count);
      var newTail := Cell(data.Length, tail + count);
      DropWindow(data[..], tail, fillCount, count);
      SameHead(data.Length, tail, fillCount, count);
      tail := newTail;
      fillCount := fillCount - count;
    }

    method Clear()
      requires Valid()
      modifies `head, `tail, `fillCount
      ensures Valid() && Contents() == []
    {
      head, tail := 0, 0;
      fillCount := 0;
    }

    /** The whole ring as the producer sees it from `head`: free bytes first, then the queue. */
    ghost function View(): seq<Byte>
      reads this, data
      requires data.Length > 0
    {
      Window(data[..], head, data.Length)
    }

    /** A memcpy of `bytes` to `address + offset`: it runs into the mirror past the ring's end. */
    method Store(offset: nat, bytes: seq<Byte>)
      requires Valid() && offset + |bytes| <= data.Length - fillCount
      modifies data
      ensures Valid() && Contents() == old(Contents())
      ensures View() == Laid(old(View()), offset, bytes)
    {
      ghost var before := View();
      assert Laid(before, offset, bytes[..0]) == before;
      for i := 0 to |bytes|
        invariant Valid() && View() == Laid(before, offset, bytes[..i])
        invariant Contents() == old(Contents())
      {
        LaidOneMore(before, offset, bytes, i);
        StoreByte(offset + i, bytes[i]);
      }
      assert bytes[..|bytes|] == bytes;
    }

    method StoreByte(offset: nat, value: Byte)
      requires Valid() && offset < data.Length - fillCount
      modifies data
      ensures Valid() && Contents() == old(Contents())
      ensures View() == old(View())[offset := value]
    {
      hide Concat, IsEnd, Window;
      ghost var mem := data[..];
      var c := Cell(data.Length, head + offset);
      data[c] := value;
      assert data[..] == mem[c := value];
      StoreInView(mem, head, offset, value);
      QueueInView(mem, tail, fillCount);
      QueueInView(data[..], tail, fillCount);
    }
  }

  /** Seen from `head`, the queue is the end of the ring. */
  lemma QueueInView(mem: seq<Byte>, tail: nat, fill: nat)
    requires |mem| > 0 && fill <= |mem|
    ensures Window(mem, Cell(|mem|, tail + fill), |mem|)[|mem| - fill..] == Window(mem, tail, fill)
  {
    var n := |mem|;
    WindowOfCell(mem, tail + fill, n);
    var w := Window(mem, tail + fill, n);
    forall i | 0 <= i < fill ensures w[n - fill + i] == Window(mem, tail, fill)[i] {
      CellOfNextRound(n, tail + i);
      assert tail + fill + (n - fill + i) == tail + i + n;
    }
  }

  lemma LaidOneMore(view: seq<Byte>, offset: nat, bytes: seq<Byte>, i: nat)
    requires offset + |bytes| <= |view| && i < |bytes|
    ensures Laid(view, offset, bytes[..i])[offset + i := bytes[i]] == Laid(view, offset, bytes[..i + 1])
  {
  }

  lemma StoreInView(mem: seq<Byte>, from: nat, k: nat, value: Byte)
    requires k < |mem|
    ensures Window(mem[Cell(|mem|, from + k) := value], from, |mem|) == Window(mem, from, |mem|)[k := value]
  {
    var mem' := mem[Cell(|mem|, from + k) := value];
    forall i | 0 <= i < |mem|
      ensures Window(mem', from, |mem|)[i] == Window(mem, from, |mem|)[k := value][i]
    {
      if i < k {
        CellsDiffer(|mem|, from + i, from + k);
      } else if k < i {
        CellsDiffer(|mem|, from + k, from + i);
      }
    }
  }

  lemma RoundedUp(n: nat, page: nat)
    requires page > 0
    ensures var r := (n + page - 1) / page * page; n <= r < n + page && r % page == 0
  {
    var q := (n + page - 1) / page;
    assert n + page - 1 == q * page + (n + page - 1) % page;
    UniqueRemainder(page, q * page, q, 0);
  }

  /** Reading moves the tail and the counter, and so not the place they add up to. */
  lemma SameHead(length: nat, tail: nat, fill: nat, count: nat)
    requires length > 0 && count <= fill
    ensures Cell(length, Cell(length, tail + count) + (fill - count)) == Cell(length, tail + fill)
  {
    CellOfCell(length, tail + count, fill - count);
  }

  lemma AppendWindow(mem: seq<Byte>, from: nat, n: nat, more: nat)
    requires |mem| > 0
    ensures Window(mem, from, n + more) == Window(mem, from, n) + Window(mem, Cell(|mem|, from + n), more)
  {
    WindowOfCell(mem, from + n, more);
    assert Window(mem, from, n + more) == Window(mem, from, n) + Window(mem, from + n, more);
  }

  lemma DropWindow(mem: seq<Byte>, from: nat, n: nat, k: nat)
    requires |mem| > 0 && k <= n
    ensures Window(mem, from, n)[k..] == Window(mem, Cell(|mem|, from + k), n - k)
  {
    WindowOfCell(mem, from + k, n - k);
    assert Window(mem, from, n)[k..] == Window(mem, from + k, n - k);
  }
}
