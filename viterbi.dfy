/** The Viterbi decoder of linking/semanticizer.go over its hidden Markov
    model: one state per candidate mention and a sink state, one step per
    byte position of the input. The float64 log-probabilities are extended
    reals (`Score`), and `math.Log` is the parameter `log`. */
module Viterbi {
  import opened Text
  import opened DpTable

  /** The part of `Entity` the decoder uses: target, offset and length of the anchor. */
  datatype Entity = Entity(target: Str, offset: int, length: int)

  /** `hmm`: the candidates, how many start at each position, and the
      observation log-probability of each (position, candidate). */
  datatype Hmm = Hmm(cands: seq<Entity>, nStart: map<int, int>, obsProb: map<int, map<int, real>>)

  /** `sinkState`: the state after the last candidate. */
  function Sink(h: Hmm): nat {
    |h.cands|
  }

  /** `math.SmallestNonzeroFloat64`. */
  const Eps := Fin(4.9406564584124654e-324)

  /** A Go map lookup of an `int`: zero when the key is missing. */
  function Get(m: map<int, int>, k: int): int {
    if k in m then m[k] else 0
  }

  /** `transProb(i, j, pos)`: the log-probability of moving from state `i`
      to state `j` at `pos`. */
  function TransProb(h: Hmm, i: int, j: int, pos: int, log: real -> real): Score
    requires 0 <= i
  {
    var sink := Sink(h);
    var end := if i < sink then h.cands[i].offset + h.cands[i].length else -1;
    var count := Get(h.nStart, pos);
    var startProb := if count != 0 then Fin(-log(count as real)) else NegInf;
    if i == sink && j == sink then (if count == 0 then Fin(0.0) else Eps)
    else if i == sink then startProb
    else if j == sink then (if pos == end then startProb else Eps)
    else if pos == end then startProb
    else if i == j then Fin(0.0)
    else Eps
  }

  /** The observation log-probability of state `k` at `pos`: a missing
      entry is minus infinity for a candidate and zero for the sink. */
  function ObsProb(h: Hmm, pos: int, k: int): Score {
    if pos in h.obsProb && k in h.obsProb[pos] then Fin(h.obsProb[pos][k])
    else if k != Sink(h) then NegInf
    else Fin(0.0)
  }

  /** The values compared for cell `(pos + 1, k)`, one per state `j` of row `pos`. */
  function Scores(h: Hmm, row: seq<Entry>, pos: int, k: int, log: real -> real): (r: seq<Score>)
    ensures |r| == |row|
  {
    seq(|row|, j requires 0 <= j < |row| => Plus(Plus(row[j].v, ObsProb(h, pos, k)), TransProb(h, j, k, pos, log)))
  }

  /** The scan `if v > max { argmax = j; max = v }` over `xs`, from the
      initial `argmax` and `max`. */
  function Fold(xs: seq<Score>, arg: int, max: Score): (r: (int, Score))
    ensures r.0 == arg || 0 <= r.0 < |xs|
  {
    if xs == [] then (arg, max)
    else
      var (a, m) := Fold(xs[..|xs| - 1], arg, max);
      if Above(xs[|xs| - 1], m) then (|xs| - 1, xs[|xs| - 1]) else (a, m)
  }

  /** The first maximum: `Fold` from `(-1, -Inf)` finds no state exactly
      when every value is minus infinity; otherwise it finds the first
      index of the largest value. */
  predicate FirstMax(xs: seq<Score>, r: (int, Score)) {
    (r.0 == -1 <==> forall j :: 0 <= j < |xs| ==> xs[j] == NegInf)
    && (r.0 == -1 ==> r.1 == NegInf)
    && (r.0 != -1 ==>
          0 <= r.0 < |xs| && xs[r.0] == r.1 && r.1 != NegInf
          && (forall j :: 0 <= j < |xs| ==> !Above(xs[j], r.1))
          && (forall j :: 0 <= j < r.0 ==> Above(r.1, xs[j])))
  }

  lemma AboveTrans(x: Score, m: Score, y: Score)
    requires Above(x, m) && !Above(y, m)
    ensures Above(x, y)
  {
  }

  lemma {:induction false} FoldFirstMax(xs: seq<Score>)
    ensures FirstMax(xs, Fold(xs, -1, NegInf))
  {
    if xs != [] {
      var init := xs[..|xs| - 1];
      FoldFirstMax(init);
      var (a, m) := Fold(init, -1, NegInf);
      var x := xs[|xs| - 1];
      assert forall j :: 0 <= j < |init| ==> xs[j] == init[j];
      if Above(x, m) {
        forall j | 0 <= j < |xs| - 1 ensures Above(x, xs[j]) {
          AboveTrans(x, m, xs[j]);
        }
      }
    }
  }

  /** Row `pos` of the table after the forward pass: row 0 holds `eps`
      for every candidate and zero for the sink; every later cell holds
      the first maximum of the scores from the row before, and its index. */
  function RowAt(h: Hmm, pos: nat, log: real -> real): (r: seq<Entry>)
    ensures |r| == Sink(h) + 1
    ensures forall k :: 0 <= k < |r| ==> -1 <= r[k].prev <= Sink(h)
  {
    if pos == 0 then
      seq(Sink(h) + 1, j requires 0 <= j <= Sink(h) => Entry(if j < Sink(h) then Eps else Fin(0.0), 0))
    else
      var prev := RowAt(h, pos - 1, log);
      seq(Sink(h) + 1, k requires 0 <= k <= Sink(h) => CellOf(h, prev, pos - 1, k, log))
  }

  /** Cell `k` of the row after `row`: the first maximum of its scores, and its index. */
  function CellOf(h: Hmm, row: seq<Entry>, pos: int, k: int, log: real -> real): Entry {
    var b := Fold(Scores(h, row, pos, k, log), -1, NegInf);
    Entry(b.1, b.0)
  }

  /** `t.at(r, p).prev` for a backpointer `p` read from the table: `-1`
      is not checked on the last step, and reaches the sink cell of the
      row above. */
  function CellPrev(h: Hmm, r: nat, p: int, log: real -> real): (q: int)
    requires 1 <= r && -1 <= p <= Sink(h)
    ensures -1 <= q <= Sink(h)
  {
    if p >= 0 then RowAt(h, r, log)[p].prev else RowAt(h, r - 1, log)[Sink(h)].prev
  }

  /** `path[i]` as the backward loop computes it for a path of length `n`. */
  function Back(h: Hmm, n: nat, i: nat, log: real -> real): (q: int)
    requires i < n
    ensures -1 <= q <= Sink(h)
    decreases n - i
  {
    if i == n - 1 then RowAt(h, n, log)[Sink(h)].prev
    else CellPrev(h, i + 1, Back(h, n, i + 1, log), log)
  }

  /** `viterbi(n)`: the path, or `None` for a panic — on `path[n-1]` when
      `n` is not positive, or on a `-1` backpointer below the last step. */
  function ViterbiPath(h: Hmm, n: int, log: real -> real): Option<seq<int>> {
    if n <= 0 then None
    else if exists i :: 0 <= i < n - 1 && Back(h, n, i, log) == -1 then None
    else Some(seq(n, i requires 0 <= i < n => Back(h, n, i, log)))
  }

  /** The sink can always be reached: its value is never minus infinity. */
  lemma {:induction false} SinkFinite(h: Hmm, pos: nat, log: real -> real)
    ensures RowAt(h, pos, log)[Sink(h)].v != NegInf
  {
    if pos > 0 {
      var row := RowAt(h, pos - 1, log);
      var xs := Scores(h, row, pos - 1, Sink(h), log);
      assert xs[Sink(h)] != NegInf by {
        SinkFinite(h, pos - 1, log);
        ScoreAt(h, row, pos - 1, Sink(h), log, Sink(h));
        assert ObsProb(h, pos - 1, Sink(h)) != NegInf;
        assert TransProb(h, Sink(h), Sink(h), pos - 1, log) != NegInf;
      }
      var b := Fold(xs, -1, NegInf);
      assert b.1 != NegInf by {
        FoldFirstMax(xs);
      }
      assert RowAt(h, pos, log)[Sink(h)] == Entry(b.1, b.0);
    }
  }

  /** A reachable cell points back to a reachable state of the row before. */
  lemma FinitePrev(h: Hmm, r: nat, p: int, log: real -> real)
    requires 1 <= r && 0 <= p <= Sink(h) && RowAt(h, r, log)[p].v != NegInf
    ensures 0 <= RowAt(h, r, log)[p].prev <= Sink(h)
    ensures RowAt(h, r - 1, log)[RowAt(h, r, log)[p].prev].v != NegInf
  {
    var xs := Scores(h, RowAt(h, r - 1, log), r - 1, p, log);
    FoldFirstMax(xs);
  }

  /** Every step of the path from `i` on is a reachable state. */
  lemma {:induction false} BackFinite(h: Hmm, n: nat, i: nat, log: real -> real)
    requires i < n
    ensures 0 <= Back(h, n, i, log) <= Sink(h)
    ensures RowAt(h, i, log)[Back(h, n, i, log)].v != NegInf
    decreases n - i
  {
    if i == n - 1 {
      SinkFinite(h, n, log);
      FinitePrev(h, n, Sink(h), log);
    } else {
      BackFinite(h, n, i + 1, log);
      var b := Back(h, n, i + 1, log);
      assert Back(h, n, i, log) == RowAt(h, i + 1, log)[b].prev;
      FinitePrev(h, i + 1, b, log);
    }
  }

  /** The `-1 in path` panic cannot happen: for a positive length the
      decoder returns a path of states, each the backpointer of the next,
      ending at the best predecessor of the sink at the last step. */
  lemma NeverMinusOne(h: Hmm, n: int, log: real -> real)
    requires n >= 1
    ensures ViterbiPath(h, n, log).Some?
    ensures var path := ViterbiPath(h, n, log).value;
            |path| == n
            && (forall i :: 0 <= i < n ==> 0 <= path[i] <= Sink(h))
            && path[n - 1] == RowAt(h, n, log)[Sink(h)].prev
            && (forall i :: 0 <= i < n - 1 ==> path[i] == RowAt(h, i + 1, log)[path[i + 1]].prev)
  {
    forall i | 0 <= i < n
      ensures 0 <= Back(h, n, i, log) <= Sink(h)
    {
      BackFinite(h, n, i, log);
    }
    var path := seq(n, i requires 0 <= i < n => Back(h, n, i, log));
    assert ViterbiPath(h, n, log) == Some(path);
    forall i | 0 <= i < n - 1
      ensures path[i] == RowAt(h, i + 1, log)[path[i + 1]].prev
    {
      assert path[i] == CellPrev(h, i + 1, path[i + 1], log);
    }
  }

  /** The table after the forward pass over its first `n` rows, row after row. */
  function Flat(h: Hmm, n: nat, log: real -> real): (r: seq<Entry>)
    ensures |r| == n * (Sink(h) + 1)
  {
    if n == 0 then [] else
      var r := Flat(h, n - 1, log) + RowAt(h, n - 1, log);
      assert |r| == (n - 1) * (Sink(h) + 1) + (Sink(h) + 1) == n * (Sink(h) + 1);
      r
  }

  /** Cell `(r, c)` of the flat table is cell `c` of row `r`. */
  lemma {:induction false} FlatCell(h: Hmm, n: nat, r: nat, c: nat, log: real -> real)
    requires r < n && c <= Sink(h)
    ensures r * (Sink(h) + 1) + c < |Flat(h, n, log)|
    ensures Flat(h, n, log)[r * (Sink(h) + 1) + c] == RowAt(h, r, log)[c]
  {
    var m := Sink(h) + 1;
    assert (n - 1) * m + m == n * m;
    if r < n - 1 {
      FlatCell(h, n - 1, r, c, log);
    }
  }

  /** `n` rows followed by row `n` are the first `n + 1` rows. */
  lemma FlatSnoc(h: Hmm, n: nat, log: real -> real)
    ensures Flat(h, n + 1, log) == Flat(h, n, log) + RowAt(h, n, log)
  {
  }

  /** The first maximum for cell `(pos + 1, k)`, by the loop over row `pos`. */
  method BestCell(t: Table, h: Hmm, pos: nat, k: int, log: real -> real, ghost row: seq<Entry>)
      returns (argmax: int, max: Score)
    requires t.ncols == Sink(h) + 1 && (pos + 1) * t.ncols <= t.a.Length
    requires t.Row(pos) == row
    ensures (argmax, max) == Fold(Scores(h, row, pos, k, log), -1, NegInf)
  {
    ghost var xs := Scores(h, row, pos, k, log);
    argmax := -1;
    max := NegInf;
    var obsProb := ObsProb(h, pos, k);
    for j := 0 to t.ncols
      invariant (argmax, max) == Fold(xs[..j], -1, NegInf)
    {
      var e := t.At(pos, j);
      var v := Plus(Plus(e.v, obsProb), TransProb(h, j, k, pos, log));
      assert v == xs[j] by { ScoreAt(h, row, pos, k, log, j); }
      FoldSnoc(xs, j, -1, NegInf);
      if Above(v, max) {
        argmax := j;
        max := v;
      }
    }
    assert xs[..t.ncols] == xs;
  }

  lemma ScoreAt(h: Hmm, row: seq<Entry>, pos: int, k: int, log: real -> real, j: nat)
    requires j < |row|
    ensures Scores(h, row, pos, k, log)[j]
            == Plus(Plus(row[j].v, ObsProb(h, pos, k)), TransProb(h, j, k, pos, log))
  {
  }

  /** One more turn of the `argmax` scan. */
  lemma FoldSnoc(xs: seq<Score>, j: nat, arg: int, max: Score)
    requires j < |xs|
    ensures Fold(xs[..j + 1], arg, max)
            == var (a, m) := Fold(xs[..j], arg, max);
               if Above(xs[j], m) then (j, xs[j]) else (a, m)
  {
    assert xs[..j + 1][..j] == xs[..j];
  }

  /** The last row of the first `n` rows is row `n - 1`. */
  lemma FlatLastRow(h: Hmm, n: nat, log: real -> real)
    requires n >= 1
    ensures (n - 1) * (Sink(h) + 1) + (Sink(h) + 1) == n * (Sink(h) + 1)
    ensures Flat(h, n, log)[(n - 1) * (Sink(h) + 1)..n * (Sink(h) + 1)] == RowAt(h, n - 1, log)
  {
    var m := Sink(h) + 1;
    RowStart(n - 1, m);
    var f, r := Flat(h, n - 1, log), RowAt(h, n - 1, log);
    assert Flat(h, n, log) == f + r;
    assert |f| == (n - 1) * m;
    assert (f + r)[|f|..|f| + |r|] == r;
  }

  /** The first row of the forward pass: `eps` for every candidate and zero
      for the sink, keeping the zero backpointers that `make` left. */
  method InitRow(t: Table, h: Hmm, log: real -> real)
    requires t.ncols == Sink(h) + 1 && t.ncols <= t.a.Length
    requires forall c :: 0 <= c < t.ncols ==> t.a[c] == Zero
    modifies t.a
    ensures t.a[..t.ncols] == Flat(h, 1, log)
  {
    var sink := Sink(h);
    for j := 0 to t.ncols - 1
      invariant forall c :: 0 <= c < j ==> t.a[c] == Entry(Eps, 0)
      invariant forall c :: j <= c < t.ncols ==> t.a[c] == Zero
    {
      var e := t.At(0, j);
      t.Put(0, j, Entry(Eps, e.prev));
    }
    var e := t.At(0, sink);
    t.Put(0, sink, Entry(Fin(0.0), e.prev));
    assert Flat(h, 1, log) == [] + RowAt(h, 0, log);
  }

  /** One turn of the outer forward loop: row `pos + 1` is computed from
      row `pos`; the result is the backpointer of its sink cell, which is
      where `argmax` is left. */
  method FillRow(t: Table, h: Hmm, pos: nat, log: real -> real) returns (last: int)
    requires t.ncols == Sink(h) + 1 && (pos + 1) * t.ncols + t.ncols <= t.a.Length
    requires t.a[..(pos + 1) * t.ncols] == Flat(h, pos + 1, log)
    modifies t.a
    ensures t.a[..(pos + 1) * t.ncols + t.ncols] == Flat(h, pos + 2, log)
    ensures last == RowAt(h, pos + 1, log)[Sink(h)].prev
  {
    ghost var s := pos * t.ncols;
    ghost var b := (pos + 1) * t.ncols;
    ghost var pre := Flat(h, pos + 1, log);
    ghost var row := RowAt(h, pos, log);
    ghost var next := RowAt(h, pos + 1, log);
    RowStart(pos, t.ncols);
    FlatLastRow(h, pos + 1, log);
    last := -1;
    for k := 0 to t.ncols
      invariant t.a[..b] == pre
      invariant forall c :: 0 <= c < k ==> t.a[b + c] == next[c]
      invariant k > 0 ==> last == next[k - 1].prev
    {
      assert next[k] == CellOf(h, row, pos, k, log);
      last := FillCell(t, h, pos, k, log, s, b, row, pre, next);
    }
    PrefixExtend(t.a[..], b, pre, next);
    FlatSnoc(h, pos + 1, log);
  }

  /** One turn of the inner forward loop: cell `(pos + 1, k)` receives the
      first maximum over row `pos` and its index. */
  method FillCell(t: Table, h: Hmm, pos: nat, k: nat, log: real -> real, ghost s: nat, ghost b: nat,
                  ghost row: seq<Entry>, ghost pre: seq<Entry>, ghost next: seq<Entry>) returns (argmax: int)
    requires t.ncols == Sink(h) + 1 && k < t.ncols
    requires s == pos * t.ncols && b == (pos + 1) * t.ncols && s + t.ncols == b && b + t.ncols <= t.a.Length
    requires t.a[..b] == pre && pre[s..b] == row
    requires k < |next| && next[k] == CellOf(h, row, pos, k, log)
    requires forall c :: 0 <= c < k ==> t.a[b + c] == next[c]
    modifies t.a
    ensures t.a[..b] == pre
    ensures forall c :: 0 <= c < k + 1 ==> t.a[b + c] == next[c]
    ensures argmax == next[k].prev
  {
    assert t.Row(pos) == row by { assert t.a[s..b] == t.a[..b][s..b]; }
    var max;
    argmax, max := BestCell(t, h, pos, k, log, row);
    t.PutNext(pos + 1, k, Entry(max, argmax), b, pre, next);
  }

  lemma SliceOfPrefix(a: seq<Entry>, i: nat, j: nat, pre: seq<Entry>)
    requires i <= j <= |pre| <= |a| && a[..|pre|] == pre
    ensures a[i..j] == pre[i..j]
  {
    assert forall x :: i <= x < j ==> a[x] == a[..|pre|][x];
  }

  lemma PrefixExtend(a: seq<Entry>, b: nat, pre: seq<Entry>, next: seq<Entry>)
    requires b + |next| <= |a| && a[..b] == pre
    requires forall c :: 0 <= c < |next| ==> a[b + c] == next[c]
    ensures a[..b + |next|] == pre + next
  {
  }

  /** Cell `(i, c)` of the filled table, for a backpointer `c` of row `i`:
      the offset is in the table, and its backpointer is `CellPrev`. */
  lemma TableCell(h: Hmm, n: nat, i: nat, c: int, log: real -> real)
    requires 1 <= i <= n && -1 <= c <= Sink(h)
    ensures 0 <= i * (Sink(h) + 1) + c < (n + 1) * (Sink(h) + 1)
    ensures Flat(h, n + 1, log)[i * (Sink(h) + 1) + c].prev == CellPrev(h, i, c, log)
  {
    var m := Sink(h) + 1;
    CellArith(i, n, m, c);
    if c >= 0 {
      FlatCell(h, n + 1, i, c, log);
    } else {
      FlatCell(h, n + 1, i - 1, Sink(h), log);
    }
  }

  /** Offset arithmetic for a backpointer `c` read in row `i`: `-1` reaches
      the last cell of the row above. */
  lemma CellArith(i: nat, n: nat, m: nat, c: int)
    requires 1 <= i <= n && 1 <= m && -1 <= c < m
    ensures 0 <= i * m + c < (n + 1) * m
    ensures c < 0 ==> i * m + c == (i - 1) * m + (m - 1)
  {
    MulMono(i + 1, n + 1, m);
    MulMono(1, i, m);
  }

  /** `viterbi(obsLength)`: the forward pass fills a table of
      `obsLength + 1` rows, then the path is read backwards along the
      backpointers. `None` stands for a panic. */
  method Decode(h: Hmm, obsLength: nat, log: real -> real) returns (path: Option<seq<int>>)
    ensures path == ViterbiPath(h, obsLength, log)
  {
    var t := new Table(obsLength + 1, Sink(h) + 1);
    var argmax := Forward(t, h, obsLength, log);
    if obsLength == 0 {
      return None;
    }
    path := Backtrack(t, h, obsLength, argmax, log);
  }

  /** The forward pass over a fresh table of `n + 1` rows. The result is the
      backpointer of the sink cell of the last row. */
  method Forward(t: Table, h: Hmm, n: nat, log: real -> real) returns (argmax: int)
    requires t.ncols == Sink(h) + 1 && t.a.Length == (n + 1) * t.ncols
    requires forall c :: 0 <= c < t.a.Length ==> t.a[c] == Zero
    modifies t.a
    ensures t.a[..] == Flat(h, n + 1, log)
    ensures n > 0 ==> argmax == RowAt(h, n, log)[Sink(h)].prev
  {
    var m := t.ncols;
    assert m <= t.a.Length by { MulMono(1, n + 1, m); }
    InitRow(t, h, log);
    argmax := 0;
    for pos := 0 to n
      invariant t.a[..(pos + 1) * m] == Flat(h, pos + 1, log)
      invariant pos > 0 ==> argmax == RowAt(h, pos, log)[Sink(h)].prev
    {
      NextRowArith(pos, n, m);
      argmax := FillRow(t, h, pos, log);
    }
    assert t.a[..] == t.a[..(n + 1) * m];
  }

  lemma NextRowArith(pos: nat, n: nat, m: nat)
    requires pos < n
    ensures (pos + 1) * m + m == (pos + 2) * m <= (n + 1) * m
  {
    MulMono(pos + 2, n + 1, m);
  }

  /** `t.at(i, c).prev` in the filled table. */
  method PrevAt(t: Table, h: Hmm, n: nat, i: nat, c: int, log: real -> real) returns (prev: int)
    requires 1 <= i <= n && -1 <= c <= Sink(h)
    requires t.ncols == Sink(h) + 1 && t.a[..] == Flat(h, n + 1, log)
    ensures prev == CellPrev(h, i, c, log)
  {
    TableCell(h, n, i, c, log);
    var e := t.At(i, c);
    prev := e.prev;
  }

  /** One turn of the backward loop: the step before `path[i]`. */
  method BackOne(t: Table, h: Hmm, n: nat, i: nat, c: int, log: real -> real) returns (prev: int)
    requires 1 <= i < n && c == Back(h, n, i, log)
    requires t.ncols == Sink(h) + 1 && t.a[..] == Flat(h, n + 1, log)
    ensures prev == Back(h, n, i - 1, log)
  {
    prev := PrevAt(t, h, n, i, c, log);
    BackStep(h, n, i, log);
  }

  lemma BackStep(h: Hmm, n: nat, i: nat, log: real -> real)
    requires 1 <= i < n
    ensures Back(h, n, i - 1, log) == CellPrev(h, i, Back(h, n, i, log), log)
  {
  }

  /** The backward loop: `path[i] = at(i+1, path[i+1]).prev`, with a panic
      on a `-1` backpointer. */
  method Backtrack(t: Table, h: Hmm, n: nat, argmax: int, log: real -> real) returns (path: Option<seq<int>>)
    requires n > 0 && t.ncols == Sink(h) + 1 && t.a.Length == (n + 1) * t.ncols
    requires t.a[..] == Flat(h, n + 1, log)
    requires argmax == RowAt(h, n, log)[Sink(h)].prev
    ensures path == ViterbiPath(h, n, log)
  {
    var p := new int[n];
    p[n - 1] := argmax;
    var ok := BackLoop(t, h, n, p, log);
    if !ok {
      return None;
    }
    path := Some(p[..]);
    PathFound(h, n, p[..], log);
  }

  /** `p` holds the path from step `i` on, with no `-1` below the last step. */
  predicate PathFrom(h: Hmm, n: nat, p: seq<int>, i: nat, log: real -> real) {
    |p| == n && i <= n
    && forall j :: i <= j < n ==> p[j] == Back(h, n, j, log) && (j < n - 1 ==> p[j] != -1)
  }

  /** The loop `for i := len(path) - 2; i >= 0; i--` over a path whose last
      step is set; `false` when it stops on a `-1` backpointer. */
  method BackLoop(t: Table, h: Hmm, n: nat, p: array<int>, log: real -> real) returns (ok: bool)
    requires n > 0 && p.Length == n && p[n - 1] == Back(h, n, n - 1, log)
    requires t.ncols == Sink(h) + 1 && t.a[..] == Flat(h, n + 1, log)
    modifies p
    ensures ok ==> PathFrom(h, n, p[..], 0, log)
    ensures !ok ==> exists j :: 0 <= j < n - 1 && Back(h, n, j, log) == -1
  {
    var i := n - 1;
    while i > 0
      invariant 0 <= i < n
      invariant PathFrom(h, n, p[..], i, log)
    {
      var prev := BackOne(t, h, n, i, p[i], log);
      if prev == -1 {
        return false;
      }
      PathStep(h, n, p[..], i, prev, log);
      p[i - 1] := prev;
      i := i - 1;
    }
    return true;
  }

  lemma PathStep(h: Hmm, n: nat, p: seq<int>, i: nat, prev: int, log: real -> real)
    requires 0 < i && PathFrom(h, n, p, i, log) && prev == Back(h, n, i - 1, log) && prev != -1
    ensures PathFrom(h, n, p[i - 1 := prev], i - 1, log)
  {
  }

  lemma PathFound(h: Hmm, n: nat, p: seq<int>, log: real -> real)
    requires n >= 1 && PathFrom(h, n, p, 0, log)
    ensures ViterbiPath(h, n, log) == Some(p)
  {
    assert p == seq(n, j requires 0 <= j < n => Back(h, n, j, log));
  }
}
