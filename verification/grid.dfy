/**
 * The symbol under construction: the module grid (`QR.data`) and the map of
 * reserved modules (`QR.reservedBits`). `QR` keeps both in flat arrays
 * indexed `row * gridSize + col`; here they are rows of columns, and `Flat`
 * gives back the flat array (see `FlatIndex`).
 */
module Matrix {
  import opened Types

  /** A grid of `size` x `size` modules, `true` for a dark module, with the reservation of each module. */
  datatype Symbol = Symbol(size: nat, data: seq<seq<bool>>, reserved: seq<seq<Option<Reserved>>>)
  {
    predicate Valid()
    {
      && |data| == size
      && |reserved| == size
      && (forall r | 0 <= r < size :: |data[r]| == size)
      && (forall r | 0 <= r < size :: |reserved[r]| == size)
    }

    predicate In(r: int, c: int)
    {
      0 <= r < size && 0 <= c < size
    }

    /** A module no function pattern has claimed: `reservedBits[index] === undefined`. */
    predicate Free(r: int, c: int)
      requires Valid() && In(r, c)
    {
      reserved[r][c].None?
    }
  }

  /** A fresh symbol: every module light (the zero-filled `Uint8Array`) and none reserved. */
  function Blank(size: nat): (s: Symbol)
    ensures s.Valid() && s.size == size
    ensures forall r, c | s.In(r, c) :: !s.data[r][c] && s.Free(r, c)
  {
    Symbol(size, seq(size, r => seq(size, c => false)), seq(size, r => seq(size, c => None)))
  }

  /**
   * What one drawing step writes into a module: the reservation it records,
   * and the new data bit, or `None` when it leaves the data as it was.
   */
  datatype Write = Write(mark: Reserved, bit: Option<bool>)

  function NewBit(prev: bool, w: Option<Write>): bool
  {
    if w.Some? && w.value.bit.Some? then w.value.bit.value else prev
  }

  function NewMark(prev: Option<Reserved>, w: Option<Write>): Option<Reserved>
  {
    if w.Some? then Some(w.value.mark) else prev
  }

  /**
   * A drawing stage whose loop writes every module at most once: the module
   * at (r, c) receives `w(r, c)` and every other module keeps its value.
   */
  function Paint(s: Symbol, w: (int, int) -> Option<Write>): (t: Symbol)
    requires s.Valid()
    ensures t.Valid() && t.size == s.size
    ensures forall r, c | s.In(r, c) :: t.data[r][c] == NewBit(s.data[r][c], w(r, c))
    ensures forall r, c | s.In(r, c) :: t.reserved[r][c] == NewMark(s.reserved[r][c], w(r, c))
  {
    Symbol(s.size,
      seq(s.size, r requires 0 <= r < s.size => seq(s.size, c requires 0 <= c < s.size => NewBit(s.data[r][c], w(r, c)))),
      seq(s.size, r requires 0 <= r < s.size => seq(s.size, c requires 0 <= c < s.size => NewMark(s.reserved[r][c], w(r, c)))))
  }

  /**
   * `t` only adds reservations to `s`: a module free in `t` was free in `s`
   * and holds the same data, and a reserved module stays reserved.
   */
  ghost predicate Extends(s: Symbol, t: Symbol)
    requires s.Valid() && t.Valid()
  {
    && t.size == s.size
    && (forall r, c | s.In(r, c) && t.Free(r, c) :: s.Free(r, c) && t.data[r][c] == s.data[r][c])
    && (forall r, c | s.In(r, c) && !s.Free(r, c) :: !t.Free(r, c))
  }

  /** Every drawing stage only adds reservations: each module it writes, it reserves. */
  lemma PaintExtends(s: Symbol, w: (int, int) -> Option<Write>)
    requires s.Valid()
    ensures Extends(s, Paint(s, w))
  {
  }

  lemma ExtendsTransitive(a: Symbol, b: Symbol, c: Symbol)
    requires a.Valid() && b.Valid() && c.Valid()
    requires Extends(a, b) && Extends(b, c)
    ensures Extends(a, c)
  {
  }

  /** The rows laid end to end: the `data` `Uint8Array` of `QR`, of `size * size` modules. */
  function Flat(rows: seq<seq<bool>>): seq<bool>
  {
    if |rows| == 0 then [] else Flat(rows[..|rows| - 1]) + rows[|rows| - 1]
  }

  /** Module (r, c) sits at index `r * n + c` of the flat array, which holds `n * n` modules. */
  lemma {:induction false} FlatIndex(rows: seq<seq<bool>>, n: nat, r: nat, c: nat)
    requires forall k | 0 <= k < |rows| :: |rows[k]| == n
    requires r < |rows| && c < n
    ensures |Flat(rows)| == |rows| * n
    ensures r * n + c < |Flat(rows)| && Flat(rows)[r * n + c] == rows[r][c]
  {
    var m := |rows| - 1;
    var front := rows[..m];
    assert Flat(rows) == Flat(front) + rows[m];
    assert |Flat(front)| == m * n by { FlatLength(front, n); }
    assert |Flat(rows)| == |rows| * n by { Distribute(m, n); }
    if r < m {
      assert r * n + c < m * n by { RowBefore(r, m, n, c); }
      FlatIndex(front, n, r, c);
    } else {
      assert r * n == m * n;
    }
  }

  lemma Distribute(m: nat, n: nat)
    ensures m * n + n == (m + 1) * n
  {
  }

  lemma RowBefore(r: nat, m: nat, n: nat, c: nat)
    requires r < m && c < n
    ensures r * n + c < m * n
  {
    assert (r + 1) * n <= m * n;
  }

  lemma {:induction false} FlatLength(rows: seq<seq<bool>>, n: nat)
    requires forall k | 0 <= k < |rows| :: |rows[k]| == n
    ensures |Flat(rows)| == |rows| * n
  {
    if |rows| > 0 {
      FlatLength(rows[..|rows| - 1], n);
    }
  }
}
