/** The flat twiddle table both generators build: a list of N*N/2 slots indexed
    by the product k*n of a row k and a column n. A slot either was never
    written (Python's 0 or False) or holds the twiddle of the pair (k, n) that
    wrote it; the value exp(-2*pi*i*k*n/N) is a function of that pair only, so the
    pair stands for it here. Which pair a slot ends up holding is decided by
    the write order and by which write wins. */
module TwiddleTable {
  import opened Wrappers
  import opened Arith

  datatype Slot = Empty | Tw(k: nat, n: nat)

  /** The integer parts a slot shows: q(k, n) are the scaled and truncated
      real and imaginary parts of the twiddle of (k, n); a falsy slot shows
      (0, 0). */
  function Quantized(s: Slot, q: (nat, nat) -> (int, int)): (int, int) {
    match s
    case Empty => (0, 0)
    case Tw(k, n) => q(k, n)
  }

  /** The slot at index x; an index past the end reads as falsy (the emitters
      only read inside the table, see Layout.LookupInTable). */
  function Lookup(table: seq<Slot>, x: nat): Slot {
    if x < |table| then table[x] else Empty
  }

  /** The table index that the pair (k, n) is written to. */
  function Key(k: nat, n: nat): nat {
    k * n
  }

  /** Number of slots, `N*N/2` in Python. */
  function TableSize(N: nat): nat {
    N * N / 2
  }

  function EmptyTable(size: nat): (t: seq<Slot>)
    ensures |t| == size && forall p :: 0 <= p < size ==> t[p] == Empty
  {
    seq(size, p => Empty)
  }

  /** The pair (k, n) of a `rows` by `cols` enumeration writes index p. */
  predicate Writes(rows: nat, cols: nat, k: nat, n: nat, p: nat) {
    k < rows && n < cols && Key(k, n) == p
  }

  /** (k1, n1) comes strictly before (k2, n2) in row-major order. */
  predicate Earlier(k1: nat, n1: nat, k2: nat, n2: nat) {
    k1 < k2 || (k1 == k2 && n1 < n2)
  }

  lemma MulDivExact(k: nat, n: nat)
    requires k > 0
    ensures (k * n) % k == 0 && (k * n) / k == n
  {
    DivModUnique(k * n, k, n, 0);
  }

  /** In row k > 0 at most the column p/k writes index p. */
  lemma RowColumn(k: nat, n: nat, p: nat)
    requires k > 0
    ensures Key(k, n) == p <==> (p % k == 0 && p / k == n)
  {
    MulDivExact(k, n);
  }

  /** Column n of row k, among the first `cols` columns, writes index p. */
  predicate InRow(k: nat, cols: nat, n: nat, p: nat) {
    n < cols && Key(k, n) == p
  }

  /** The last column of row k, among the first `cols`, that writes index p. */
  function RowLast(k: nat, cols: nat, p: nat): Option<nat> {
    if k == 0 then (if p == 0 && cols > 0 then Some(cols - 1) else None)
    else if p % k == 0 && p / k < cols then Some(p / k)
    else None
  }

  /** The first column of row k, among the first `cols`, that writes index p. */
  function RowFirst(k: nat, cols: nat, p: nat): Option<nat> {
    if k == 0 then (if p == 0 && cols > 0 then Some(0) else None)
    else if p % k == 0 && p / k < cols then Some(p / k)
    else None
  }

  lemma RowLastSpec(k: nat, cols: nat, p: nat)
    ensures RowLast(k, cols, p).Some? ==>
              var n := RowLast(k, cols, p).value;
              InRow(k, cols, n, p) &&
              forall n': nat :: InRow(k, cols, n', p) ==> n' <= n
    ensures RowLast(k, cols, p).None? ==> forall n': nat :: !InRow(k, cols, n', p)
  {
    if k > 0 {
      forall n': nat ensures Key(k, n') == p <==> (p % k == 0 && p / k == n') {
        RowColumn(k, n', p);
      }
    }
  }

  lemma RowFirstSpec(k: nat, cols: nat, p: nat)
    ensures RowFirst(k, cols, p).Some? ==>
              var n := RowFirst(k, cols, p).value;
              InRow(k, cols, n, p) &&
              forall n': nat :: InRow(k, cols, n', p) ==> n <= n'
    ensures RowFirst(k, cols, p).None? ==> forall n': nat :: !InRow(k, cols, n', p)
  {
    if k > 0 {
      forall n': nat ensures Key(k, n') == p <==> (p % k == 0 && p / k == n') {
        RowColumn(k, n', p);
      }
    }
  }

  /** The pair that a last-write-wins fill of rows [0, rows) leaves at index p. */
  function LastWriter(rows: nat, cols: nat, p: nat): Slot {
    if rows == 0 then Empty
    else match RowLast(rows - 1, cols, p)
      case Some(n) => Tw(rows - 1, n)
      case None => LastWriter(rows - 1, cols, p)
  }

  /** The pair that a first-write-wins fill of rows [0, rows) leaves at index p. */
  function FirstWriter(rows: nat, cols: nat, p: nat): Slot {
    if rows == 0 then Empty
    else if FirstWriter(rows - 1, cols, p).Tw? then FirstWriter(rows - 1, cols, p)
    else match RowFirst(rows - 1, cols, p)
      case Some(n) => Tw(rows - 1, n)
      case None => Empty
  }

  lemma LowerRow(rows: nat, cols: nat, k: nat, n: nat, p: nat)
    requires rows > 0 && Writes(rows, cols, k, n, p)
    ensures Writes(rows - 1, cols, k, n, p) || (k == rows - 1 && InRow(k, cols, n, p))
  {
  }

  /** The last column n0 of row top that writes p comes after every pair of
      rows [0, top] that writes p. */
  lemma TopLatest(rows: nat, top: nat, cols: nat, p: nat, n0: nat)
    requires rows == top + 1 && InRow(top, cols, n0, p)
    requires forall n': nat :: InRow(top, cols, n', p) ==> n' <= n0
    ensures Writes(rows, cols, top, n0, p)
    ensures forall k: nat, n: nat :: Writes(rows, cols, k, n, p) ==> !Earlier(top, n0, k, n)
  {
    forall k: nat, n: nat | Writes(rows, cols, k, n, p)
      ensures !Earlier(top, n0, k, n)
    {
      if k == top {
        assert InRow(top, cols, n, p);
      }
    }
  }

  /** When no column of row top writes p, rows [0, top] and rows [0, top)
      have the same writers of p. */
  lemma SilentRow(rows: nat, top: nat, cols: nat, p: nat)
    requires rows == top + 1
    requires forall n': nat :: !InRow(top, cols, n', p)
    ensures forall k: nat, n: nat :: Writes(rows, cols, k, n, p) <==> Writes(top, cols, k, n, p)
  {
    forall k: nat, n: nat | Writes(rows, cols, k, n, p)
      ensures Writes(top, cols, k, n, p)
    {
      assert !InRow(top, cols, n, p);
    }
  }

  /** LastWriter holds the latest pair in row-major order whose product is p,
      and is Empty exactly when no pair has product p. */
  lemma {:induction false} LastWriterIsLatest(rows: nat, cols: nat, p: nat)
    ensures LastWriter(rows, cols, p).Tw? ==>
              var s := LastWriter(rows, cols, p);
              Writes(rows, cols, s.k, s.n, p) &&
              forall k: nat, n: nat :: Writes(rows, cols, k, n, p) ==> !Earlier(s.k, s.n, k, n)
    ensures LastWriter(rows, cols, p) == Empty <==> forall k: nat, n: nat :: !Writes(rows, cols, k, n, p)
  {
    if rows > 0 {
      var top := rows - 1;
      RowLastSpec(top, cols, p);
      match RowLast(top, cols, p)
      case Some(n0) =>
        TopLatest(rows, top, cols, p, n0);
      case None =>
        LastWriterIsLatest(top, cols, p);
        SilentRow(rows, top, cols, p);
    }
  }

  /** A writer earliest among rows [0, rows - 1) stays earliest when row rows - 1
      is added, since every pair of that row comes after it. */
  lemma EarliestKept(rows: nat, cols: nat, p: nat, s: Slot)
    requires rows > 0 && s.Tw? && Writes(rows - 1, cols, s.k, s.n, p)
    requires forall k: nat, n: nat :: Writes(rows - 1, cols, k, n, p) ==> !Earlier(k, n, s.k, s.n)
    ensures Writes(rows, cols, s.k, s.n, p)
    ensures forall k: nat, n: nat :: Writes(rows, cols, k, n, p) ==> !Earlier(k, n, s.k, s.n)
  {
    forall k: nat, n: nat | Writes(rows, cols, k, n, p)
      ensures !Earlier(k, n, s.k, s.n)
    {
      if k < rows - 1 {
        assert Writes(rows - 1, cols, k, n, p);
      }
    }
  }

  /** When no pair of rows [0, top) writes p, only row top of rows [0, rows) can. */
  lemma OnlyTopRow(rows: nat, top: nat, cols: nat, p: nat)
    requires rows == top + 1
    requires forall k: nat, n: nat :: !Writes(top, cols, k, n, p)
    ensures forall k: nat, n: nat :: Writes(rows, cols, k, n, p) ==> k == top && InRow(top, cols, n, p)
  {
    forall k: nat, n: nat | Writes(rows, cols, k, n, p)
      ensures k == top && InRow(top, cols, n, p)
    {
      LowerRow(rows, cols, k, n, p);
    }
  }

  /** FirstWriter holds the earliest pair in row-major order whose product is p,
      and is Empty exactly when no pair has product p. */
  lemma {:induction false} FirstWriterIsEarliest(rows: nat, cols: nat, p: nat)
    ensures FirstWriter(rows, cols, p).Tw? ==>
              var s := FirstWriter(rows, cols, p);
              Writes(rows, cols, s.k, s.n, p) &&
              forall k: nat, n: nat :: Writes(rows, cols, k, n, p) ==> !Earlier(k, n, s.k, s.n)
    ensures FirstWriter(rows, cols, p) == Empty <==> forall k: nat, n: nat :: !Writes(rows, cols, k, n, p)
  {
    if rows > 0 {
      var top := rows - 1;
      FirstWriterIsEarliest(top, cols, p);
      var prev := FirstWriter(top, cols, p);
      if prev.Tw? {
        EarliestKept(rows, cols, p, prev);
      } else {
        RowFirstSpec(top, cols, p);
        OnlyTopRow(rows, top, cols, p);
        match RowFirst(top, cols, p)
        case Some(n0) =>
          assert Writes(rows, cols, top, n0, p);
        case None =>
      }
    }
  }

  /** Half a square bounds a half-rounded-down factor times the whole. */
  lemma HalfSquare(N: nat)
    ensures (N / 2) * N <= TableSize(N)
  {
    var h := N / 2;
    MulMonotone(2 * h, N, N);
    assert (2 * h) * N == 2 * (h * N);
    DivModUnique(N * N, 2, N * N / 2, N * N % 2);
  }

  /** Every pair of rows [0, N/2) and columns [0, N) writes inside the table. */
  lemma KeyInTable(N: nat, k: nat, n: nat)
    requires k < N / 2 && n < N
    ensures Key(k, n) < TableSize(N)
  {
    var h := N / 2;
    MulMonotone(n, N - 1, k);
    MulMonotone(k, h - 1, N - 1);
    assert (h - 1) * (N - 1) < h * N by {
      MulMonotone(h - 1, h, N - 1);
      MulMonotone(N - 1, N, h);
    }
    HalfSquare(N);
  }

  /** The rows [0, N/2] and columns [0, N) of the memo fill write inside the
      table, except when N is 1 (an empty table and the pair (0, 0)). */
  lemma MemoKeyInTable(N: nat, i: nat, j: nat)
    requires i <= N / 2 && j < N
    ensures Key(i, j) < TableSize(N) <==> N != 1
  {
    if N == 1 {
      assert i == 0 && j == 0;
    } else {
      MemoKeyBound(N, N / 2, i, j);
    }
  }

  lemma MemoKeyBound(N: nat, h: nat, i: nat, j: nat)
    requires N >= 2 && h == N / 2 && i <= h && j < N
    ensures i * j < TableSize(N)
  {
    var m := N - 1;
    MulMonotone(i, h, j);
    MulMonotone(j, m, h);
    assert h >= 1;
    assert j * h <= m * h && i * j <= h * j;
    assert h * N == h * m + h;
    HalfSquare(N);
  }

  /** For N = 12 index 6 is written by (1, 6), (2, 3) and (3, 2): the
      last-write fill of rows [0, 6) keeps (3, 2) and the first-write fill of
      rows [0, 7) keeps (1, 6). */
  lemma WritersDiffer()
    ensures LastWriter(6, 12, 6) == Tw(3, 2)
    ensures FirstWriter(7, 12, 6) == Tw(1, 6)
  {
    assert RowLast(5, 12, 6).None? && RowLast(4, 12, 6).None?;
    assert RowLast(3, 12, 6) == Some(2);
    assert LastWriter(4, 12, 6) == Tw(3, 2);
    assert LastWriter(5, 12, 6) == Tw(3, 2);
    assert RowFirst(0, 12, 6).None? && RowFirst(1, 12, 6) == Some(6);
    assert FirstWriter(1, 12, 6) == Empty;
    assert FirstWriter(2, 12, 6) == Tw(1, 6);
    assert FirstWriter(3, 12, 6) == Tw(1, 6);
    assert FirstWriter(4, 12, 6) == Tw(1, 6);
    assert FirstWriter(5, 12, 6) == Tw(1, 6);
    assert FirstWriter(6, 12, 6) == Tw(1, 6);
  }
}
