/** Bytes, little-endian integers and positions of a ring that is mapped twice in a row. */
module Bytes {

  type Byte = x: int | 0 <= x < 256

  /** The little-endian value of a byte string. */
  function FromLE(bs: seq<Byte>): nat {
    if bs == [] then 0 else bs[0] + 256 * FromLE(bs[1..])
  }

  /** The `k` low bytes of `n`, least significant first. */
  function ToLE(n: nat, k: nat): (bs: seq<Byte>)
    ensures |bs| == k
  {
    if k == 0 then [] else [n % 256] + ToLE(n / 256, k - 1)
  }

  function Pow256(k: nat): (p: nat)
    ensures p > 0
  {
    if k == 0 then 1 else 256 * Pow256(k - 1)
  }

  /** Storing an integer in `k` bytes and loading it again keeps it modulo 256^k. */
  lemma {:induction false} LoadAfterStore(n: nat, k: nat)
    ensures FromLE(ToLE(n, k)) < Pow256(k)
    ensures n < Pow256(k) ==> FromLE(ToLE(n, k)) == n
  {
    if k > 0 {
      LoadAfterStore(n / 256, k - 1);
      assert ToLE(n, k)[1..] == ToLE(n / 256, k - 1);
    }
  }

  /** The cell of the ring that holds the byte at absolute position `p`. */
  function Cell(length: nat, p: nat): (c: nat)
    requires length > 0
    ensures c < length
  {
    p % length
  }

  lemma MultipleBounds(k: int, length: int)
    requires length > 0
    ensures k >= 1 ==> k * length >= length
    ensures k <= -1 ==> k * length <= 0 - length
  {
    if k >= 1 {
      assert k * length == length + (k - 1) * length;
    }
    if k <= -1 {
      assert k * length == (k + 1) * length - length;
    }
  }

  lemma UniqueRemainder(length: nat, a: nat, q: int, r: nat)
    requires length > 0 && r < length
    requires a == q * length + r
    ensures a % length == r
  {
    var q', r' := a / length, a % length;
    assert (q - q') * length == r' - r;
    MultipleBounds(q - q', length);
  }

  /** Positions closer than the ring's length live in different cells. */
  lemma CellsDiffer(length: nat, a: nat, b: nat)
    requires length > 0
    requires a < b < a + length
    ensures Cell(length, a) != Cell(length, b)
  {
    var qa, qb := a / length, b / length;
    if a % length == b % length {
      assert b - a == (qb - qa) * length;
      MultipleBounds(qb - qa, length);
    }
  }

  /** One round of the ring further is the same cell. */
  lemma CellOfNextRound(length: nat, p: nat)
    requires length > 0
    ensures Cell(length, p + length) == Cell(length, p)
  {
    assert p + length == (p / length + 1) * length + p % length;
    UniqueRemainder(length, p + length, p / length + 1, p % length);
  }

  /** The mirror: an offset from a reduced address reaches the cell of the unreduced position. */
  lemma CellOfCell(length: nat, a: nat, i: nat)
    requires length > 0
    ensures Cell(length, Cell(length, a) + i) == Cell(length, a + i)
  {
    var q, r := a / length, a % length;
    assert a == q * length + r;
    var q2, r2 := (r + i) / length, (r + i) % length;
    assert a + i == (q + q2) * length + r2;
    UniqueRemainder(length, a + i, q + q2, r2);
  }

  /** What a reader sees who starts at cell `from` and runs through the mirror for `n` bytes. */
  function Window(mem: seq<Byte>, from: nat, n: nat): (w: seq<Byte>)
    requires |mem| > 0
    ensures |w| == n
    ensures forall i {:trigger w[i]} :: 0 <= i < n ==> w[i] == mem[Cell(|mem|, from + i)]
  {
    seq(n, i requires 0 <= i < n => mem[Cell(|mem|, from + i)])
  }

  /** Reading from a position and from its cell shows the same bytes. */
  lemma WindowOfCell(mem: seq<Byte>, p: nat, n: nat)
    requires |mem| > 0
    ensures Window(mem, Cell(|mem|, p), n) == Window(mem, p, n)
  {
    forall i | 0 <= i < n
      ensures Window(mem, Cell(|mem|, p), n)[i] == Window(mem, p, n)[i]
    {
      CellOfCell(|mem|, p, i);
    }
  }

  /** `bytes` laid over `view` at `offset`. */
  ghost function Laid(view: seq<Byte>, offset: nat, bytes: seq<Byte>): (v: seq<Byte>)
    requires offset + |bytes| <= |view|
    ensures |v| == |view|
  {
    view[..offset] + bytes + view[offset + |bytes|..]
  }

  /** Laying two pieces side by side lays their concatenation. */
  lemma LaidTwice(view: seq<Byte>, offset: nat, a: seq<Byte>, b: seq<Byte>)
    requires offset + |a| + |b| <= |view|
    ensures Laid(Laid(view, offset, a), offset + |a|, b) == Laid(view, offset, a + b)
  {
  }
}
