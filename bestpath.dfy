/** `bestPath` of linking/semanticizer.go: the hidden Markov model is built
    from the candidate mentions by counting, the decoder runs over it, and
    the candidates on the best path are kept. The normalisation of the
    observation counts into float64 log-probabilities is a parameter. */
module BestPath {
  import opened Text
  import opened DpTable
  import opened Viterbi

  /** The position just past a candidate's anchor. */
  function EndOf(c: Entity): int {
    c.offset + c.length
  }

  /** Candidate `c` covers position `j` of the input. */
  predicate Covers(c: Entity, j: int) {
    c.offset <= j < EndOf(c)
  }

  /** How many of `cands` start at position `p`. */
  function StartCount(cands: seq<Entity>, p: int): nat {
    if cands == [] then 0
    else StartCount(cands[..|cands| - 1], p) + (if cands[|cands| - 1].offset == p then 1 else 0)
  }

  /** The indices of the candidates that start at `p`. */
  function StartersBelow(cands: seq<Entity>, p: int, n: nat): set<nat>
    requires n <= |cands|
  {
    set i: nat | i < n && cands[i].offset == p
  }

  /** `StartCount` counts exactly the candidates whose offset is `p`. */
  lemma {:induction false} StartCountIsCardinality(cands: seq<Entity>, p: int)
    ensures StartCount(cands, p) == |StartersBelow(cands, p, |cands|)|
    decreases |cands|
  {
    if cands != [] {
      var n := |cands| - 1;
      var init := cands[..n];
      StartCountIsCardinality(init, p);
      assert StartersBelow(init, p, n) == StartersBelow(cands, p, n);
      if cands[n].offset == p {
        assert StartersBelow(cands, p, n + 1) == StartersBelow(cands, p, n) + {n};
      } else {
        assert StartersBelow(cands, p, n + 1) == StartersBelow(cands, p, n);
      }
    }
  }

  /** The observation counts of the first `n` candidates: `obs[j][i]` is
      present, and then 1, exactly when candidate `i` covers `j`; a row is
      only made when something is put in it. */
  ghost predicate ObsCounted(cands: seq<Entity>, n: nat, obs: map<int, map<int, int>>)
    requires n <= |cands|
  {
    (forall j, i :: Present(obs, j, i) <==> 0 <= i < n && Covers(cands[i], j))
    && (forall j, i :: Present(obs, j, i) ==> obs[j][i] == 1)
    && (forall j :: j in obs ==> obs[j] != map[])
  }

  /** `obs[j][i]` is present. */
  predicate Present(obs: map<int, map<int, int>>, j: int, i: int) {
    j in obs && i in obs[j]
  }

  /** The start counts of the first `n` candidates. */
  ghost predicate StartsCounted(cands: seq<Entity>, n: nat, nStart: map<int, int>)
    requires n <= |cands|
  {
    (forall p :: p in nStart <==> exists i :: 0 <= i < n && cands[i].offset == p)
    && forall p :: p in nStart ==> nStart[p] == StartCount(cands[..n], p)
  }

  /** The counting loop of `bestPath`: the end of the furthest candidate,
      the number of candidates starting at each position, and a count of 1
      for every position a candidate covers. */
  method CountCandidates(cands: seq<Entity>) returns (endall: int, nStart: map<int, int>, obs: map<int, map<int, int>>)
    ensures endall >= 0
    ensures forall i :: 0 <= i < |cands| ==> EndOf(cands[i]) <= endall
    ensures endall == 0 || exists i :: 0 <= i < |cands| && EndOf(cands[i]) == endall
    ensures StartsCounted(cands, |cands|, nStart)
    ensures ObsCounted(cands, |cands|, obs)
  {
    endall := 0;
    nStart := map[];
    obs := map[];
    for i := 0 to |cands|
      invariant endall >= 0
      invariant forall c :: 0 <= c < i ==> EndOf(cands[c]) <= endall
      invariant endall == 0 || exists c :: 0 <= c < i && EndOf(cands[c]) == endall
      invariant StartsCounted(cands, i, nStart)
      invariant ObsCounted(cands, i, obs)
    {
      var start := cands[i].offset;
      var end := start + cands[i].length;
      if end > endall {
        endall := end;
      }
      nStart := CountStart(cands, i, nStart);
      obs := CountCoverage(cands, i, obs);
    }
    assert cands[..|cands|] == cands;
  }

  /** `h.nStart[start]++` for candidate `i`. */
  method CountStart(cands: seq<Entity>, i: nat, nStart: map<int, int>) returns (r: map<int, int>)
    requires i < |cands| && StartsCounted(cands, i, nStart)
    ensures StartsCounted(cands, i + 1, r)
  {
    var start := cands[i].offset;
    r := nStart[start := if start in nStart then nStart[start] + 1 else 1];
    assert cands[..i + 1][..i] == cands[..i];
    forall p | p in r ensures r[p] == StartCount(cands[..i + 1], p) {
      if p == start && start !in nStart {
        StartCountNone(cands[..i], p);
      }
    }
  }

  lemma {:induction false} StartCountNone(cands: seq<Entity>, p: int)
    requires forall c :: 0 <= c < |cands| ==> cands[c].offset != p
    ensures StartCount(cands, p) == 0
    decreases |cands|
  {
    if cands != [] {
      StartCountNone(cands[..|cands| - 1], p);
    }
  }

  /** The inner loop: `h.obsProb[j][i]++` for every position `j` that
      candidate `i` covers, making the row of `j` when it is missing. */
  method CountCoverage(cands: seq<Entity>, i: nat, obs: map<int, map<int, int>>)
      returns (r: map<int, map<int, int>>)
    requires i < |cands| && ObsCounted(cands, i, obs)
    ensures ObsCounted(cands, i + 1, r)
  {
    var start := cands[i].offset;
    var end := start + cands[i].length;
    r := obs;
    var j := start;
    while j < end
      invariant start <= j <= if start < end then end else start
      invariant forall x, c :: Present(r, x, c) <==>
                  (0 <= c < i && Covers(cands[c], x)) || (c == i && start <= x < j)
      invariant forall x, c :: Present(r, x, c) ==> r[x][c] == 1
      invariant forall x :: x in r ==> r[x] != map[]
      decreases end - j
    {
      ghost var r0 := r;
      var row := if j in r then r[j] else map[];
      assert !Present(r, j, i);
      r := r[j := row[i := (if i in row then row[i] else 0) + 1]];
      forall x, c
        ensures Present(r, x, c) <==> (0 <= c < i && Covers(cands[c], x)) || (c == i && start <= x < j + 1)
      {
        if x != j {
          assert Present(r, x, c) == Present(r0, x, c);
        } else {
          assert Present(r, x, c) <==> Present(r0, x, c) || c == i;
        }
      }
      j := j + 1;
    }
    forall x, c ensures Present(r, x, c) <==> 0 <= c < i + 1 && Covers(cands[c], x) {
      assert Present(r, x, c) <==> (0 <= c < i && Covers(cands[c], x)) || (c == i && start <= x < j);
      assert Covers(cands[i], x) <==> start <= x < j;
    }
  }

  /** The `keep` set: the states on the path, without the sink. Go keeps
      pointers into the candidate slice, so a candidate is kept once
      however often it occurs on the path. */
  method KeepSet(path: seq<int>, sink: int) returns (keep: set<int>)
    ensures keep == set i | i in path && i != sink
  {
    keep := {};
    for k := 0 to |path|
      invariant keep == set i | i in path[..k] && i != sink
    {
      assert path[..k + 1] == path[..k] + [path[k]];
      if path[k] != sink {
        keep := keep + {path[k]};
      }
    }
    assert path[..|path|] == path;
  }

  /** The copying loop over the `keep` map: every kept candidate once, in
      the map's iteration order, which Go leaves unspecified; `order` is
      the order that was taken. */
  method Collect(cands: seq<Entity>, keep: set<int>) returns (r: seq<Entity>, ghost order: seq<int>)
    requires forall i :: i in keep ==> 0 <= i < |cands|
    ensures |r| == |order| == |keep|
    ensures forall k :: 0 <= k < |order| ==> order[k] in keep && r[k] == cands[order[k]]
    ensures forall k, l :: 0 <= k < l < |order| ==> order[k] != order[l]
    ensures forall i :: i in keep ==> i in order
    ensures |r| == |keep|
    ensures forall e :: e in r ==> exists i :: i in keep && e == cands[i]
  {
    var left := keep;
    r, order := [], [];
    while left != {}
      invariant left <= keep && |r| == |order| && |order| + |left| == |keep|
      invariant forall k :: 0 <= k < |order| ==> order[k] in keep && order[k] !in left && r[k] == cands[order[k]]
      invariant forall k, l :: 0 <= k < l < |order| ==> order[k] != order[l]
      invariant forall i :: i in keep ==> i in left || i in order
      decreases |left|
    {
      var i := AnyOf(left);
      r, order := r + [cands[i]], order + [i];
      left := left - {i};
    }
  }

  /** An element of a non-empty set. */
  method AnyOf(s: set<int>) returns (x: int)
    requires s != {}
    ensures x in s
  {
    HasElement(s);
    x :| x in s;
  }

  lemma HasElement(s: set<int>)
    requires s != {}
    ensures exists x :: x in s
  {
    if forall x :: x !in s {
      assert false;
    }
  }

  /** `endall`: 0, or the end of the candidate that reaches furthest. */
  predicate IsEndAll(cands: seq<Entity>, endall: int) {
    endall >= 0
    && (forall i :: 0 <= i < |cands| ==> EndOf(cands[i]) <= endall)
    && (endall == 0 || exists i :: 0 <= i < |cands| && EndOf(cands[i]) == endall)
  }

  /** `h` and `endall` are what the counting loop of `bestPath` builds from
      `cands`, with `normalize` applied to the observation counts `obs`. */
  ghost predicate BuiltFrom(cands: seq<Entity>, normalize: map<int, map<int, int>> -> map<int, map<int, real>>,
                            h: Hmm, obs: map<int, map<int, int>>, endall: int)
  {
    h.cands == cands && StartsCounted(cands, |cands|, h.nStart)
    && ObsCounted(cands, |cands|, obs) && h.obsProb == normalize(obs)
    && IsEndAll(cands, endall)
  }

  /** `r` holds, once each and in `order`, exactly the candidates whose
      indices are the states of `path` other than the sink. */
  ghost predicate KeptOnPath(cands: seq<Entity>, path: seq<int>, sink: int, r: seq<Entity>, order: seq<int>) {
    |r| == |order|
    && (forall k :: 0 <= k < |order| ==> 0 <= order[k] < |cands| && r[k] == cands[order[k]])
    && (forall k, l :: 0 <= k < l < |order| ==> order[k] != order[l])
    && (forall i :: i in order <==> i in path && i != sink)
  }

  /** `bestPath(cands)`, with the float normalisation of the observation
      counts as a parameter. The result is the set of candidates on the
      decoded path `viterbi(endall)`; `None` stands for the panic of the
      decoder, which happens exactly when no candidate ends past position 0. */
  method BestPathOf(cands: seq<Entity>, normalize: map<int, map<int, int>> -> map<int, map<int, real>>,
                    log: real -> real)
      returns (r: Option<seq<Entity>>, ghost h: Hmm, ghost obs: map<int, map<int, int>>, ghost endall: int,
               ghost order: seq<int>)
    ensures BuiltFrom(cands, normalize, h, obs, endall)
    ensures r.None? <==> forall i :: 0 <= i < |cands| ==> EndOf(cands[i]) <= 0
    ensures r.None? <==> ViterbiPath(h, endall, log).None?
    ensures r.Some? ==> KeptOnPath(cands, ViterbiPath(h, endall, log).value, Sink(h), r.value, order)
  {
    var end, nStart, counts := CountCandidates(cands);
    var hmm := Hmm(cands, nStart, normalize(counts));
    h, obs, endall := hmm, counts, end;
    var path := Decode(hmm, end, log);
    order := [];
    if path.None? {
      if end > 0 {
        NeverMinusOne(hmm, end, log);
      }
      return None, h, obs, endall, order;
    }
    NeverMinusOne(hmm, end, log);
    var keep := KeepSet(path.value, Sink(hmm));
    var kept;
    kept, order := Collect(cands, keep);
    r := Some(kept);
  }

  /** `bestPath` as evidently intended: a text whose candidates cover
      nothing has no mentions on its best path, instead of a panic. */
  method BestPathChecked(cands: seq<Entity>, normalize: map<int, map<int, int>> -> map<int, map<int, real>>,
                         log: real -> real)
      returns (r: seq<Entity>, ghost h: Hmm, ghost obs: map<int, map<int, int>>, ghost endall: int,
               ghost order: seq<int>)
    ensures BuiltFrom(cands, normalize, h, obs, endall)
    ensures (forall i :: 0 <= i < |cands| ==> EndOf(cands[i]) <= 0) ==> r == []
    ensures ViterbiPath(h, endall, log).None? ==> r == []
    ensures ViterbiPath(h, endall, log).Some? ==>
      KeptOnPath(cands, ViterbiPath(h, endall, log).value, Sink(h), r, order)
    ensures |r| == |order|
    ensures forall k :: 0 <= k < |order| ==> 0 <= order[k] < |cands| && r[k] == cands[order[k]]
    ensures forall k, l :: 0 <= k < l < |order| ==> order[k] != order[l]
  {
    var res;
    res, h, obs, endall, order := BestPathOf(cands, normalize, log);
    if res.None? {
      r, order := [], [];
    } else {
      r := res.value;
    }
  }

  /** `BestPath(s)` as written, after tokenisation and candidate lookup,
      which are parameters: no tokens give no mentions and no error;
      otherwise `bestPath(all)`, which panics (`None`) when there is no
      candidate at all, and else holds the candidates on the best path. */
  method BestPath(tokenCount: nat, all: seq<Entity>, normalize: map<int, map<int, int>> -> map<int, map<int, real>>,
                  log: real -> real)
      returns (r: Option<seq<Entity>>, ghost h: Hmm, ghost obs: map<int, map<int, int>>, ghost endall: int,
               ghost order: seq<int>)
    ensures tokenCount == 0 ==> r == Some([])
    ensures tokenCount > 0 && all == [] ==> r.None?
    ensures r.None? <==> tokenCount > 0 && forall i :: 0 <= i < |all| ==> EndOf(all[i]) <= 0
    ensures tokenCount > 0 ==> BuiltFrom(all, normalize, h, obs, endall)
    ensures tokenCount > 0 ==> (r.None? <==> ViterbiPath(h, endall, log).None?)
    ensures tokenCount > 0 && r.Some? ==>
      KeptOnPath(all, ViterbiPath(h, endall, log).value, Sink(h), r.value, order)
  {
    if tokenCount == 0 {
      return Some([]), Hmm(all, map[], map[]), map[], 0, [];
    }
    r, h, obs, endall, order := BestPathOf(all, normalize, log);
  }

  /** `BestPath(s)` built on the corrected `bestPath`: the same mentions
      where the original has any, and none instead of a panic. */
  method BestPathCorrected(tokenCount: nat, all: seq<Entity>,
                           normalize: map<int, map<int, int>> -> map<int, map<int, real>>, log: real -> real)
      returns (r: seq<Entity>, ghost h: Hmm, ghost obs: map<int, map<int, int>>, ghost endall: int,
               ghost order: seq<int>)
    ensures tokenCount == 0 ==> r == []
    ensures forall e :: e in r ==> e in all
    ensures tokenCount > 0 ==> BuiltFrom(all, normalize, h, obs, endall)
    ensures tokenCount > 0 && ViterbiPath(h, endall, log).Some? ==>
      KeptOnPath(all, ViterbiPath(h, endall, log).value, Sink(h), r, order)
    ensures tokenCount > 0 && ViterbiPath(h, endall, log).None? ==> r == []
  {
    if tokenCount == 0 {
      return [], Hmm(all, map[], map[]), map[], 0, [];
    }
    r, h, obs, endall, order := BestPathChecked(all, normalize, log);
    forall e | e in r ensures e in all {
      var k :| 0 <= k < |r| && r[k] == e;
      assert all[order[k]] == e;
    }
  }

  /** A row of the link-statistics query: the target's title and the
      number of links to it with the n-gram as anchor. */
  datatype LinkRow = LinkRow(target: Str, count: real)

  /** The loop of `candidates` over the query's rows: one candidate per row,
      in row order, for the target of the row and spanning exactly the
      n-gram's bytes `[offset, end)` of the input. */
  method Candidates(rows: seq<LinkRow>, offset: int, end: int) returns (cands: seq<Entity>)
    ensures |cands| == |rows|
    ensures forall k :: 0 <= k < |rows| ==>
      cands[k].target == rows[k].target && cands[k].offset == offset && EndOf(cands[k]) == end
  {
    cands := [];
    for k := 0 to |rows|
      invariant |cands| == k
      invariant forall c :: 0 <= c < k ==>
        cands[c].target == rows[c].target && cands[c].offset == offset && EndOf(cands[c]) == end
    {
      cands := cands + [Entity(rows[k].target, offset, end - offset)];
    }
  }
}
