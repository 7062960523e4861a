/** The older decoder of semanticizest/semanticizer.go: `viterbi` over a
    table whose cells were filled beforehand. The forward pass sets every
    cell of row `i + 1` to the best value of row `i` and its column; the
    path starts at a column of the last row and follows the backpointers.

    Two lines of the source differ from what the decoder evidently means,
    and `fixed` selects between the code as written and the intended one:
    the running maximum starts at `-math.Inf(-1)`, which is plus infinity,
    and the scan of the last row declares its maximum inside the loop, so
    every column compares against zero. */
module LegacyViterbi {
  import opened Text
  import opened DpTable
  import V = Viterbi

  /** The values of a row. */
  function Values(row: seq<Entry>): (r: seq<Score>)
    ensures |r| == |row|
    ensures forall j :: 0 <= j < |row| ==> r[j] == row[j].v
  {
    seq(|row|, j requires 0 <= j < |row| => row[j].v)
  }

  /** The initial running maximum: `-math.Inf(-1)` as written is plus
      infinity; minus infinity is meant. */
  function Start(fixed: bool): Score {
    if fixed then NegInf else PosInf
  }

  /** The scan of a row for the forward pass, from `argmax = 0`. */
  function Best(row: seq<Entry>, fixed: bool): (r: (int, Score))
    ensures r.0 == 0 || 0 <= r.0 < |row|
  {
    V.Fold(Values(row), 0, Start(fixed))
  }

  /** Row `i` after the forward pass, from the first row of the table;
      every backpointer written is a column of the table. */
  function RowAfter(first: seq<Entry>, i: nat, fixed: bool): (r: seq<Entry>)
    ensures |r| == |first|
    ensures i > 0 ==> forall c :: 0 <= c < |r| ==> 0 <= r[c].prev < |first|
  {
    if i == 0 then first
    else
      var b := Best(RowAfter(first, i - 1, fixed), fixed);
      seq(|first|, c requires 0 <= c < |first| => Entry(b.1, b.0))
  }

  /** The first `n` rows after the forward pass, row after row. */
  function FlatRows(first: seq<Entry>, n: nat, fixed: bool): (r: seq<Entry>)
    ensures |r| == n * |first|
  {
    if n == 0 then [] else
      var r := FlatRows(first, n - 1, fixed) + RowAfter(first, n - 1, fixed);
      assert |r| == (n - 1) * |first| + |first| == n * |first|;
      r
  }

  /** The scan of the last row as written: `max` is zero at every column,
      so the result is the last column with a positive value, or 0. */
  function LastPositive(row: seq<Entry>): (r: int)
    ensures r == 0 || 0 <= r < |row|
    ensures (exists j :: 0 <= j < |row| && Above(row[j].v, Fin(0.0))) ==>
              0 <= r < |row| && Above(row[r].v, Fin(0.0))
              && forall j :: r < j < |row| ==> !Above(row[j].v, Fin(0.0))
    ensures (forall j :: 0 <= j < |row| ==> !Above(row[j].v, Fin(0.0))) ==> r == 0
  {
    if row == [] then 0
    else if Above(row[|row| - 1].v, Fin(0.0)) then |row| - 1
    else LastPositive(row[..|row| - 1])
  }

  /** The column the path ends at. */
  function LastArg(row: seq<Entry>, fixed: bool): (r: int)
    ensures r == 0 || 0 <= r < |row|
  {
    if fixed then Best(row, true).0 else LastPositive(row)
  }

  /** `path[i]` for a table of `n` rows. */
  function PathAt(first: seq<Entry>, n: nat, i: nat, fixed: bool): (r: int)
    requires i < n && first != []
    ensures 0 <= r < |first|
    decreases n - i
  {
    if i == n - 1 then LastArg(RowAfter(first, n - 1, fixed), fixed)
    else RowAfter(first, i + 1, fixed)[PathAt(first, n, i + 1, fixed)].prev
  }

  /** The result of `viterbi` on a table with cells `a0` in rows of `m`;
      `None` for a panic: on zero columns (`nrows` divides by zero) and on
      no rows (the last-row scan reads at a negative offset). */
  function LegacyPath(a0: seq<Entry>, m: nat, fixed: bool): Option<seq<int>> {
    if m == 0 || |a0| / m == 0 then None
    else
      var n := |a0| / m;
      assert m <= |a0| by { DivBounds(|a0|, m); MulMono(1, n, m); }
      Some(seq(n, i requires 0 <= i < n => PathAt(a0[..m], n, i, fixed)))
  }

  /** The table after `viterbi`: the first `n` rows after the forward pass,
      and the cells past the last whole row as they were. */
  function Filled(a0: seq<Entry>, m: nat, fixed: bool): seq<Entry> {
    if m == 0 || |a0| / m == 0 then a0
    else
      var n := |a0| / m;
      assert m <= n * m <= |a0| by { DivBounds(|a0|, m); MulMono(1, n, m); }
      FlatRows(a0[..m], n, fixed) + a0[n * m..]
  }

  lemma DivBounds(len: nat, m: nat)
    requires m > 0
    ensures (len / m) * m <= len < (len / m + 1) * m
  {
  }

  /** Nothing exceeds plus infinity: the scan leaves its start untouched. */
  lemma {:induction false} FoldFromPosInf(xs: seq<Score>, arg: int)
    ensures V.Fold(xs, arg, PosInf) == (arg, PosInf)
  {
    if xs != [] {
      FoldFromPosInf(xs[..|xs| - 1], arg);
    }
  }

  /** As written, every cell below the first row is `{+Inf, 0}`. */
  lemma AsWrittenRows(first: seq<Entry>, i: nat, c: nat)
    requires 1 <= i && c < |first|
    ensures RowAfter(first, i, false)[c] == Entry(PosInf, 0)
  {
    FoldFromPosInf(Values(RowAfter(first, i - 1, false)), 0);
  }

  /** As written, a table of two rows or more always gives the path
      `0, …, 0, ncols - 1`, whatever its values. */
  lemma AsWrittenCollapses(a0: seq<Entry>, m: nat)
    requires m >= 1 && |a0| / m >= 2
    ensures LegacyPath(a0, m, false)
            == Some(seq(|a0| / m, i requires 0 <= i < |a0| / m => if i == |a0| / m - 1 then m - 1 else 0))
  {
    var n := |a0| / m;
    DivBounds(|a0|, m);
    MulMono(1, n, m);
    var first := a0[..m];
    var last := RowAfter(first, n - 1, false);
    forall c | 0 <= c < m ensures last[c] == Entry(PosInf, 0) {
      AsWrittenRows(first, n - 1, c);
    }
    assert Above(last[m - 1].v, Fin(0.0));
    var p := seq(n, i requires 0 <= i < n => PathAt(first, n, i, false));
    assert LegacyPath(a0, m, false) == Some(p);
    forall i | 0 <= i < n
      ensures p[i] == if i == n - 1 then m - 1 else 0
    {
      if i < n - 1 {
        AsWrittenRows(first, i + 1, PathAt(first, n, i + 1, false));
      }
    }
    assert p == seq(|a0| / m, i requires 0 <= i < |a0| / m => if i == |a0| / m - 1 then m - 1 else 0);
  }

  /** A table of one row whose values are 2 and 1: as written the path is
      column 1, though column 0 holds the larger value. */
  lemma LastRowAsWritten(a0: seq<Entry>)
    requires a0 == [Entry(Fin(2.0), 0), Entry(Fin(1.0), 0)]
    ensures Above(a0[0].v, a0[1].v)
    ensures LegacyPath(a0, 2, false) == Some([1])
    ensures LegacyPath(a0, 2, true) == Some([0])
  {
    assert |a0| / 2 == 1;
    assert a0[..2] == a0;
    assert Above(a0[1].v, Fin(0.0));
    assert LastPositive(a0) == 1;
    assert PathAt(a0, 1, 0, false) == 1;
    var xs := Values(a0);
    assert xs[..1][..0] == [];
    assert V.Fold(xs[..1], 0, NegInf) == (0, Fin(2.0));
    assert xs[..1] == xs[..|xs| - 1];
    assert Best(a0, true) == (0, Fin(2.0));
    assert PathAt(a0, 1, 0, true) == 0;
    assert seq(1, i requires 0 <= i < 1 => PathAt(a0, 1, i, false)) == [1];
    assert seq(1, i requires 0 <= i < 1 => PathAt(a0, 1, i, true)) == [0];
  }

  /** The scan from `argmax = 0` and the scan from `-1` agree, except that
      nothing above minus infinity leaves `0`. */
  lemma {:induction false} FoldShift(xs: seq<Score>, arg: int)
    ensures V.Fold(xs, arg, NegInf)
            == var r := V.Fold(xs, -1, NegInf); if r.0 == -1 then (arg, NegInf) else r
  {
    if xs != [] {
      var init := xs[..|xs| - 1];
      FoldShift(init, arg);
      V.FoldFirstMax(init);
    }
  }

  /** The intended scan finds the first column of largest value, or column
      0 with minus infinity when every value is minus infinity. */
  lemma BestIsFirstMax(row: seq<Entry>)
    ensures var r := Best(row, true);
            ((forall j :: 0 <= j < |row| ==> row[j].v == NegInf) ==> r == (0, NegInf))
            && ((exists j :: 0 <= j < |row| && row[j].v != NegInf) ==>
                  0 <= r.0 < |row| && row[r.0].v == r.1
                  && (forall j :: 0 <= j < |row| ==> !Above(row[j].v, r.1))
                  && (forall j :: 0 <= j < r.0 ==> Above(r.1, row[j].v)))
  {
    var xs := Values(row);
    FoldShift(xs, 0);
    V.FoldFirstMax(xs);
  }

  /** Corrected, each step of the path is the first best column of its
      row after the forward pass. */
  lemma CorrectedPathIsRowBest(a0: seq<Entry>, m: nat)
    requires m >= 1 && |a0| / m >= 1
    ensures LegacyPath(a0, m, true)
            == Some(seq(|a0| / m, i requires 0 <= i < |a0| / m => Best(RowAfter(a0[..m], i, true), true).0))
  {
    var n := |a0| / m;
    DivBounds(|a0|, m);
    MulMono(1, n, m);
    var first := a0[..m];
    var p := seq(n, i requires 0 <= i < n => PathAt(first, n, i, true));
    assert LegacyPath(a0, m, true) == Some(p);
    forall i | 0 <= i < n
      ensures p[i] == Best(RowAfter(first, i, true), true).0
    {
      if i < n - 1 {
        var c := PathAt(first, n, i + 1, true);
        assert RowAfter(first, i + 1, true)[c].prev == Best(RowAfter(first, i, true), true).0;
      }
    }
    assert p == seq(|a0| / m, i requires 0 <= i < |a0| / m => Best(RowAfter(a0[..m], i, true), true).0);
  }

  /** Cell `(r, c)` of the flat rows is cell `c` of row `r`. */
  lemma {:induction false} FlatRowsCell(first: seq<Entry>, m: nat, n: nat, r: nat, c: nat, fixed: bool)
    requires m == |first| && r < n && c < m
    ensures 0 <= r * m && r * m + c < n * m
    ensures FlatRows(first, n, fixed)[r * m + c] == RowAfter(first, r, fixed)[c]
  {
    assert (n - 1) * m + m == n * m;
    MulMono(0, r, m);
    if r < n - 1 {
      FlatRowsCell(first, m, n - 1, r, c, fixed);
    }
  }

  /** The last of the first `n` rows is row `n - 1`. */
  lemma FlatRowsLast(first: seq<Entry>, n: nat, fixed: bool)
    requires n >= 1
    ensures (n - 1) * |first| + |first| == n * |first|
    ensures FlatRows(first, n, fixed)[(n - 1) * |first|..n * |first|] == RowAfter(first, n - 1, fixed)
  {
    var m := |first|;
    RowStart(n - 1, m);
    var f, r := FlatRows(first, n - 1, fixed), RowAfter(first, n - 1, fixed);
    assert FlatRows(first, n, fixed) == f + r;
    assert |f| == (n - 1) * m;
    assert (f + r)[|f|..|f| + |r|] == r;
  }

  lemma TailKeeps(a0: seq<Entry>, a1: seq<Entry>, x: nat, e: Entry, b: nat)
    requires x < b <= |a0| && a1 == a0[x := e]
    ensures a1[b..] == a0[b..]
  {
  }

  /** `viterbi` on table `t`, as written or as intended; `None` is a panic. */
  method Decode(t: Table, fixed: bool) returns (path: Option<seq<int>>)
    modifies t.a
    ensures path == LegacyPath(old(t.a[..]), t.ncols, fixed)
    ensures t.a[..] == Filled(old(t.a[..]), t.ncols, fixed)
  {
    if t.ncols == 0 {
      return None;
    }
    var n := t.NRows();
    if n == 0 {
      return None;
    }
    ghost var a0 := t.a[..];
    WholeRows(a0, t.ncols, n, fixed);
    path := DecodeRows(t, n, fixed);
  }

  /** With `n` whole rows, the result and the table are those of the
      forward pass and the backward loop over those rows. */
  lemma WholeRows(a0: seq<Entry>, m: nat, n: nat, fixed: bool)
    requires m > 0 && n == |a0| / m && n >= 1
    ensures m <= n * m <= |a0|
    ensures LegacyPath(a0, m, fixed) == Some(seq(n, i requires 0 <= i < n => PathAt(a0[..m], n, i, fixed)))
    ensures Filled(a0, m, fixed) == FlatRows(a0[..m], n, fixed) + a0[n * m..]
  {
    DivBounds(|a0|, m);
    MulMono(1, n, m);
  }

  /** `viterbi` on a table of `n >= 1` whole rows of `ncols > 0`. */
  method DecodeRows(t: Table, n: nat, fixed: bool) returns (path: Option<seq<int>>)
    requires t.ncols > 0 && n >= 1 && t.ncols <= n * t.ncols <= t.a.Length
    modifies t.a
    ensures path == Some(seq(n, i requires 0 <= i < n => PathAt(old(t.a[..t.ncols]), n, i, fixed)))
    ensures t.a[..] == FlatRows(old(t.a[..t.ncols]), n, fixed) + old(t.a[n * t.ncols..])
  {
    var m := t.ncols;
    ghost var first := t.a[..m];
    ghost var tail := t.a[n * m..];
    Forward(t, n, fixed, first, tail);
    path := Backward(t, n, fixed, first);
    assert t.a[..] == t.a[..n * m] + t.a[n * m..];
  }

  /** The path, read from the table after the forward pass: the scan of
      the last row, then the backward loop. */
  method Backward(t: Table, n: nat, fixed: bool, ghost first: seq<Entry>) returns (path: Option<seq<int>>)
    requires t.ncols > 0 && |first| == t.ncols && n >= 1 && n * t.ncols <= t.a.Length
    requires t.a[..n * t.ncols] == FlatRows(first, n, fixed)
    ensures path == Some(seq(n, i requires 0 <= i < n => PathAt(first, n, i, fixed)))
  {
    var m := t.ncols;
    assert 0 <= (n - 1) * m && (n - 1) * m + m == n * m by { MulMono(0, n - 1, m); }
    var row := t.Row(n - 1);
    assert row == RowAfter(first, n - 1, fixed) by {
      FlatRowsLast(first, n, fixed);
      V.SliceOfPrefix(t.a[..], (n - 1) * m, n * m, FlatRows(first, n, fixed));
    }
    var last := LastArgOf(row, fixed);
    path := Backtrack(t, n, last, fixed, first);
  }

  /** The forward pass: rows `1` to `n - 1`, each from the row above. */
  method Forward(t: Table, n: nat, fixed: bool, ghost first: seq<Entry>, ghost tail: seq<Entry>)
    requires t.ncols > 0 && n >= 1 && n * t.ncols <= t.a.Length
    requires first == t.a[..t.ncols] && tail == t.a[n * t.ncols..]
    modifies t.a
    ensures t.a[..n * t.ncols] == FlatRows(first, n, fixed)
    ensures t.a[n * t.ncols..] == tail
  {
    var m := t.ncols;
    MulMono(1, n, m);
    assert t.a[..1 * m] == FlatRows(first, 1, fixed) by {
      assert FlatRows(first, 1, fixed) == [] + first;
    }
    for i := 0 to n - 1
      invariant (i + 1) * m <= n * m
      invariant t.a[..(i + 1) * m] == FlatRows(first, i + 1, fixed)
      invariant t.a[n * m..] == tail
    {
      RowArith(i, n, m);
      FillRow(t, i, n, fixed, first, tail, (i + 1) * m);
    }
  }

  lemma RowArith(i: nat, n: nat, m: nat)
    requires i + 2 <= n
    ensures (i + 1) * m + m == (i + 2) * m <= n * m
  {
    MulMono(i + 2, n, m);
  }

  /** One turn of the outer forward loop: every cell of row `i + 1`, which
      starts at offset `b`. */
  method FillRow(t: Table, i: nat, n: nat, fixed: bool, ghost first: seq<Entry>, ghost tail: seq<Entry>, ghost b: nat)
    requires t.ncols > 0 && |first| == t.ncols && i + 2 <= n
    requires b == (i + 1) * t.ncols && b + t.ncols <= n * t.ncols <= t.a.Length
    requires t.a[..b] == FlatRows(first, i + 1, fixed)
    requires t.a[n * t.ncols..] == tail
    modifies t.a
    ensures t.a[..b + t.ncols] == FlatRows(first, i + 2, fixed)
    ensures t.a[n * t.ncols..] == tail
  {
    ghost var s := i * t.ncols;
    ghost var pre := FlatRows(first, i + 1, fixed);
    ghost var row := RowAfter(first, i, fixed);
    ghost var next := RowAfter(first, i + 1, fixed);
    RowStart(i, t.ncols);
    FlatRowsLast(first, i + 1, fixed);
    for k := 0 to t.ncols
      invariant t.a[..b] == pre
      invariant forall c :: 0 <= c < k ==> t.a[b + c] == next[c]
      invariant t.a[n * t.ncols..] == tail
    {
      NextCell(first, i, k, fixed);
      FillCell(t, i, k, n, fixed, s, b, row, pre, next, tail);
    }
    V.PrefixExtend(t.a[..], b, pre, next);
  }

  /** One turn of the inner forward loop: the scan of row `i` and the
      write of cell `(i + 1, k)`. */
  method FillCell(t: Table, i: nat, k: nat, n: nat, fixed: bool, ghost s: nat, ghost b: nat,
                  ghost row: seq<Entry>, ghost pre: seq<Entry>, ghost next: seq<Entry>, ghost tail: seq<Entry>)
    requires t.ncols > 0 && k < t.ncols
    requires s == i * t.ncols && b == (i + 1) * t.ncols && s + t.ncols == b
    requires b + t.ncols <= n * t.ncols <= t.a.Length
    requires t.a[..b] == pre && pre[s..b] == row
    requires k < |next| && next[k] == Entry(Best(row, fixed).1, Best(row, fixed).0)
    requires forall c :: 0 <= c < k ==> t.a[b + c] == next[c]
    requires t.a[n * t.ncols..] == tail
    modifies t.a
    ensures t.a[..b] == pre
    ensures forall c :: 0 <= c < k + 1 ==> t.a[b + c] == next[c]
    ensures t.a[n * t.ncols..] == tail
  {
    var r := t.Row(i);
    assert r == row by { assert t.a[s..b] == t.a[..b][s..b]; }
    var argmax, max := BestOf(r, fixed);
    ghost var a0 := t.a[..];
    t.PutNext(i + 1, k, Entry(max, argmax), b, pre, next);
    TailKeeps(a0, t.a[..], b + k, Entry(max, argmax), n * t.ncols);
  }

  /** Cell `k` of row `i + 1` holds the scan of row `i`. */
  lemma NextCell(first: seq<Entry>, i: nat, k: nat, fixed: bool)
    requires k < |first|
    ensures var b := Best(RowAfter(first, i, fixed), fixed);
            RowAfter(first, i + 1, fixed)[k] == Entry(b.1, b.0)
  {
  }

  /** The scan `for j, e := range m.row(i)` for the forward pass. */
  method BestOf(row: seq<Entry>, fixed: bool) returns (argmax: int, max: Score)
    ensures (argmax, max) == Best(row, fixed)
  {
    ghost var xs := Values(row);
    argmax := 0;
    max := Start(fixed);
    for j := 0 to |row|
      invariant (argmax, max) == V.Fold(xs[..j], 0, Start(fixed))
    {
      V.FoldSnoc(xs, j, 0, Start(fixed));
      if Above(row[j].v, max) {
        argmax := j;
        max := row[j].v;
      }
    }
    assert xs[..|row|] == xs;
  }

  /** The scan of the last row. */
  method LastArgOf(row: seq<Entry>, fixed: bool) returns (argmax: int)
    ensures argmax == LastArg(row, fixed)
  {
    if fixed {
      var max;
      argmax, max := BestOf(row, true);
      return;
    }
    argmax := 0;
    for j := 0 to |row|
      invariant argmax == LastPositive(row[..j])
    {
      var max := Fin(0.0);
      assert row[..j + 1][..j] == row[..j];
      if Above(row[j].v, max) {
        argmax := j;
      }
    }
    assert row[..|row|] == row;
  }

  /** The backward loop: `path[i] = at(i+1, path[i+1]).prev`. */
  method Backtrack(t: Table, n: nat, last: int, fixed: bool, ghost first: seq<Entry>) returns (path: Option<seq<int>>)
    requires t.ncols > 0 && |first| == t.ncols && n >= 1 && n * t.ncols <= t.a.Length
    requires t.a[..n * t.ncols] == FlatRows(first, n, fixed)
    requires last == LastArg(RowAfter(first, n - 1, fixed), fixed)
    ensures path == Some(seq(n, i requires 0 <= i < n => PathAt(first, n, i, fixed)))
  {
    var p := new int[n];
    p[n - 1] := last;
    BackLoop(t, n, p, fixed, first);
    FollowsIsPath(first, n, p[..], fixed);
    return Some(p[..]);
  }

  /** `p` from index `i` on follows the backpointers of the table after
      the forward pass. */
  ghost predicate Follows(first: seq<Entry>, n: nat, p: seq<int>, i: nat, fixed: bool)
    requires |p| == n
  {
    (forall j :: i <= j < n ==> 0 <= p[j] < |first|)
    && (forall j :: i <= j < n - 1 ==> p[j] == RowAfter(first, j + 1, fixed)[p[j + 1]].prev)
  }

  /** The loop `for i := len(path) - 2; i >= 0; i--` once the last step is set. */
  method BackLoop(t: Table, n: nat, p: array<int>, fixed: bool, ghost first: seq<Entry>)
    requires t.ncols > 0 && |first| == t.ncols && n >= 1 && n * t.ncols <= t.a.Length
    requires t.a[..n * t.ncols] == FlatRows(first, n, fixed)
    requires p.Length == n && 0 <= p[n - 1] < t.ncols
    modifies p
    ensures p[n - 1] == old(p[n - 1])
    ensures Follows(first, n, p[..], 0, fixed)
  {
    var i := n - 1;
    while i > 0
      invariant 0 <= i < n && p[n - 1] == old(p[n - 1])
      invariant Follows(first, n, p[..], i, fixed)
    {
      var prev := CellPrev(t, n, i, p[i], fixed, first);
      ghost var p0 := p[..];
      p[i - 1] := prev;
      FollowsStep(first, n, p0, p[..], i, fixed);
      i := i - 1;
    }
  }

  lemma FollowsStep(first: seq<Entry>, n: nat, p0: seq<int>, p1: seq<int>, i: nat, fixed: bool)
    requires 1 <= i < n && |p0| == n && Follows(first, n, p0, i, fixed)
    requires p1 == p0[i - 1 := RowAfter(first, i, fixed)[p0[i]].prev]
    ensures Follows(first, n, p1, i - 1, fixed)
  {
  }

  /** A path that ends at the right column and follows the backpointers is
      the path of the specification. */
  lemma FollowsIsPath(first: seq<Entry>, n: nat, p: seq<int>, fixed: bool)
    requires first != [] && |p| == n && n >= 1
    requires p[n - 1] == LastArg(RowAfter(first, n - 1, fixed), fixed)
    requires Follows(first, n, p, 0, fixed)
    ensures p == seq(n, i requires 0 <= i < n => PathAt(first, n, i, fixed))
  {
    var i := n - 1;
    while i > 0
      invariant 0 <= i < n
      invariant forall j :: i <= j < n ==> p[j] == PathAt(first, n, j, fixed)
    {
      PathStep(first, n, i, fixed);
      i := i - 1;
    }
  }

  /** `at(i, c).prev` in the table after the forward pass. */
  method CellPrev(t: Table, n: nat, i: nat, c: int, fixed: bool, ghost first: seq<Entry>) returns (prev: int)
    requires t.ncols > 0 && |first| == t.ncols && i < n && n * t.ncols <= t.a.Length
    requires 0 <= c < t.ncols
    requires t.a[..n * t.ncols] == FlatRows(first, n, fixed)
    ensures prev == RowAfter(first, i, fixed)[c].prev
  {
    TableCell(t.a[..], t.a[..n * t.ncols], first, t.ncols, n, i, c, fixed);
    var e := t.At(i, c);
    prev := e.prev;
  }

  /** Cell `(i, c)` of a table whose first `n` rows are laid out. */
  lemma TableCell(a: seq<Entry>, rows: seq<Entry>, first: seq<Entry>, m: nat, n: nat, i: nat, c: nat, fixed: bool)
    requires m == |first| && i < n && c < m && n * m <= |a|
    requires rows == a[..n * m] && rows == FlatRows(first, n, fixed)
    ensures 0 <= i * m + c < n * m && a[i * m + c] == RowAfter(first, i, fixed)[c]
  {
    FlatRowsCell(first, m, n, i, c, fixed);
    assert a[i * m + c] == rows[i * m + c];
  }

  lemma PathStep(first: seq<Entry>, n: nat, i: nat, fixed: bool)
    requires first != [] && 1 <= i < n
    ensures PathAt(first, n, i - 1, fixed) == RowAfter(first, i, fixed)[PathAt(first, n, i, fixed)].prev
  {
  }
}
