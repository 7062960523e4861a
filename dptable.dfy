/** The dynamic-programming table of the Viterbi decoder: a row-major
    matrix of entries, each a score and a backpointer. Scores are the
    float64 log-probabilities of the decoder, kept as extended reals: the
    two infinities and a finite value. */
module DpTable {
  datatype Score = NegInf | Fin(r: real) | PosInf

  /** `a > b` on float64. */
  predicate Above(a: Score, b: Score) {
    match (a, b)
    case (NegInf, _) => false
    case (_, PosInf) => false
    case (PosInf, _) => true
    case (Fin(x), Fin(y)) => x > y
    case (Fin(_), NegInf) => true
  }

  /** `a + b` on float64 where no NaN arises: minus infinity absorbs. */
  function Plus(a: Score, b: Score): (r: Score)
    ensures r != NegInf <==> a != NegInf && b != NegInf
  {
    if a == NegInf || b == NegInf then NegInf
    else if a == PosInf || b == PosInf then PosInf
    else Fin(a.r + b.r)
  }

  /** A table entry: the Viterbi value and the backpointer. */
  datatype Entry = Entry(v: Score, prev: int)

  /** The zero value of an entry, which `make` puts in every cell. */
  const Zero := Entry(Fin(0.0), 0)

  class Table {
    const a: array<Entry>
    const ncols: nat

    /** `newTable(n, m)`: `n*m` zero entries in rows of `m`. */
    constructor (n: nat, m: nat)
      ensures a.Length == n * m && ncols == m && fresh(a)
      ensures forall k :: 0 <= k < a.Length ==> a[k] == Zero
    {
      a := new Entry[n * m](_ => Zero);
      ncols := m;
    }

    /** The offset of cell `(i, j)` in the backing slice. */
    function Index(i: int, j: int): int
      reads this
    {
      i * ncols + j
    }

    /** `nrows`: Go's division, which panics on zero columns. */
    function NRows(): (r: nat)
      reads this
      requires ncols > 0
      ensures r * ncols <= a.Length < (r + 1) * ncols
    {
      a.Length / ncols
    }

    /** `row(i)`: the slice of the cells of row `i`. */
    function Row(i: int): (r: seq<Entry>)
      reads this, a
      requires 0 <= i * ncols && (i + 1) * ncols <= a.Length
      ensures |r| == ncols
      ensures forall j :: 0 <= j < ncols ==> r[j] == a[Index(i, j)]
    {
      a[i * ncols..(i + 1) * ncols]
    }

    /** `at(i, j)`, read: only the offset is checked, as Go checks only
        the slice index, so `j` may run past its row. */
    method At(i: int, j: int) returns (e: Entry)
      requires 0 <= Index(i, j) < a.Length
      ensures e == a[Index(i, j)]
    {
      e := a[i * ncols + j];
    }

    /** `at(i, j)`, written through the pointer. */
    method Put(i: int, j: int, e: Entry)
      requires 0 <= Index(i, j) < a.Length
      modifies a
      ensures a[..] == old(a[..])[Index(i, j) := e]
    {
      a[i * ncols + j] := e;
    }

    /** Writing cell `k` of a row being filled from offset `b`: the cells
        before the row and the cells of the row already written stay. */
    method PutNext(i: int, k: nat, e: Entry, ghost b: nat, ghost pre: seq<Entry>, ghost next: seq<Entry>)
      requires Index(i, k) == b + k && b + k < a.Length
      requires k < |next| && next[k] == e
      requires a[..b] == pre && forall c :: 0 <= c < k ==> a[b + c] == next[c]
      modifies a
      ensures a[..] == old(a[..])[b + k := e]
      ensures a[..b] == pre && forall c :: 0 <= c < k + 1 ==> a[b + c] == next[c]
    {
      Put(i, k, e);
      assert a[..b] == old(a[..])[..b];
    }
  }

  /** A table made by `newTable(n, m)` with `m > 0` has `n` rows. */
  lemma NewTableRows(t: Table, n: nat, m: nat)
    requires t.a.Length == n * m && t.ncols == m && m > 0
    ensures t.NRows() == n
  {
    MulCancel(t.NRows(), n, m);
  }

  /** `x` is the quotient of `y * m` by `m`. */
  lemma MulCancel(x: nat, y: nat, m: nat)
    requires m > 0 && x * m <= y * m < (x + 1) * m
    ensures x == y
  {
    assert (y - x) * m == y * m - x * m;
    assert 0 <= (y - x) * m < m;
  }

  lemma MulMono(x: nat, y: nat, m: nat)
    requires x <= y
    ensures x * m <= y * m
  {
  }

  /** Row `i` starts `ncols` cells before row `i + 1`. */
  lemma RowStart(i: nat, m: nat)
    ensures 0 <= i * m && i * m + m == (i + 1) * m
  {
  }

  /** Cells of distinct coordinates inside the table never share an offset. */
  lemma IndexInjective(t: Table, i: int, j: int, i': int, j': int)
    requires 0 <= j < t.ncols && 0 <= j' < t.ncols
    requires t.Index(i, j) == t.Index(i', j')
    ensures i == i' && j == j'
  {
    if i < i' {
      RowsApart(i, i', t.ncols, j, j');
    } else if i' < i {
      RowsApart(i', i, t.ncols, j', j);
    }
  }

  /** Every offset of a lower row comes before every offset of a higher one. */
  lemma RowsApart(i: int, i': int, m: nat, j: int, j': int)
    requires i < i' && 0 <= j < m && 0 <= j'
    ensures i * m + j < i' * m + j'
  {
    assert (i' - i - 1) * m >= 0;
    assert i' * m == (i' - i - 1) * m + i * m + m;
  }
}
