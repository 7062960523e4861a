/** N-gram enumeration: for every start position, the contiguous runs of
    tokens whose length lies between a lower and an upper bound, by start and
    then by length. */
module NGrams {
  import opened Text

  /** `min` of the Go sources. */
  function Min(a: int, b: int): (r: int)
    ensures r <= a && r <= b
    ensures r == a || r == b
  {
    if a < b then a else b
  }

  /** The n-gram of length `n` starting at token `start`. */
  datatype Gram = Gram(start: int, n: int)

  /** The grams the inner loop visits for one start: lengths `lo` to `hi`. */
  function Row(i: int, lo: int, hi: int): (r: seq<Gram>)
    ensures |r| == if hi < lo then 0 else hi - lo + 1
    decreases hi - lo
  {
    if hi < lo then [] else Row(i, lo, hi - 1) + [Gram(i, hi)]
  }

  /** The k-th gram of a row has length `lo + k`. */
  lemma {:induction false} RowAt(i: int, lo: int, hi: int, k: nat)
    requires k < |Row(i, lo, hi)|
    ensures Row(i, lo, hi)[k] == Gram(i, lo + k)
    decreases hi - lo
  {
    if k < |Row(i, lo, hi)| - 1 {
      RowAt(i, lo, hi - 1, k);
    }
  }

  /** A row holds the grams of its start with lengths `lo` to `hi`. */
  lemma RowMembers(i: int, lo: int, hi: int, g: Gram)
    ensures g in Row(i, lo, hi) <==> g.start == i && lo <= g.n <= hi
  {
    var row := Row(i, lo, hi);
    if g in row {
      var k :| 0 <= k < |row| && row[k] == g;
      RowAt(i, lo, hi, k);
    }
    if g.start == i && lo <= g.n <= hi {
      RowAt(i, lo, hi, g.n - lo);
    }
  }

  /** The grams visited for the starts below `i`, in visiting order: at start
      `j` the lengths run from `minN` up to `min(maxN, len - j)`. */
  function GramsBelow(i: nat, len: nat, minN: int, maxN: int): seq<Gram>
  {
    if i == 0 then []
    else GramsBelow(i - 1, len, minN, maxN) + Row(i - 1, minN, Min(maxN, len - (i - 1)))
  }

  /** All the grams the two loops of `NGrams` visit over `len` tokens. */
  function AllGrams(len: nat, minN: int, maxN: int): seq<Gram>
  {
    GramsBelow(len, len, minN, maxN)
  }

  /** The slice expression `tokens[i:i+n]` is out of range for a negative
      length, so the source panics as soon as the inner loop runs with one. */
  predicate Panics(len: nat, minN: int, maxN: int) {
    len > 0 && minN < 0 && minN <= Min(maxN, len)
  }

  /** Exactly the grams with a start inside the tokens and a length between
      `minN` and `min(maxN, len - start)`. */
  lemma {:induction false} GramsBelowMembers(i: nat, len: nat, minN: int, maxN: int, g: Gram)
    ensures g in GramsBelow(i, len, minN, maxN) <==>
      0 <= g.start < i && minN <= g.n <= Min(maxN, len - g.start)
  {
    if i > 0 {
      GramsBelowMembers(i - 1, len, minN, maxN, g);
      RowMembers(i - 1, minN, Min(maxN, len - (i - 1)), g);
    }
  }

  /** One output per (start, length) pair: the output with start `i` and
      length `n` is there exactly when `i < len` and `minN <= n <= min(maxN, len - i)`. */
  lemma AllGramsMembers(len: nat, minN: int, maxN: int, g: Gram)
    ensures g in AllGrams(len, minN, maxN) <==>
      0 <= g.start < len && minN <= g.n <= Min(maxN, len - g.start)
  {
    GramsBelowMembers(len, len, minN, maxN, g);
  }

  /** Ordered by start, then by increasing length; so no gram occurs twice. */
  predicate InGramOrder(gs: seq<Gram>) {
    forall a, b :: 0 <= a < b < |gs| ==>
      gs[a].start < gs[b].start || (gs[a].start == gs[b].start && gs[a].n < gs[b].n)
  }

  lemma {:induction false} GramsBelowOrdered(i: nat, len: nat, minN: int, maxN: int)
    ensures InGramOrder(GramsBelow(i, len, minN, maxN))
    ensures forall k :: 0 <= k < |GramsBelow(i, len, minN, maxN)| ==> GramsBelow(i, len, minN, maxN)[k].start < i
  {
    if i > 0 {
      GramsBelowOrdered(i - 1, len, minN, maxN);
      var front := GramsBelow(i - 1, len, minN, maxN);
      var row := Row(i - 1, minN, Min(maxN, len - (i - 1)));
      var gs := front + row;
      assert GramsBelow(i, len, minN, maxN) == gs;
      forall a, b | 0 <= a < b < |gs|
        ensures gs[a].start < gs[b].start || (gs[a].start == gs[b].start && gs[a].n < gs[b].n)
      {
        if b < |front| {
          assert gs[a] == front[a] && gs[b] == front[b];
        } else if a < |front| {
          RowAt(i - 1, minN, Min(maxN, len - (i - 1)), b - |front|);
          assert gs[a] == front[a] && gs[b] == row[b - |front|];
        } else {
          RowAt(i - 1, minN, Min(maxN, len - (i - 1)), a - |front|);
          RowAt(i - 1, minN, Min(maxN, len - (i - 1)), b - |front|);
          assert gs[a] == row[a - |front|] && gs[b] == row[b - |front|];
        }
      }
      forall k | 0 <= k < |gs| ensures gs[k].start < i {
        if k < |front| {
          assert gs[k] == front[k];
        } else {
          RowAt(i - 1, minN, Min(maxN, len - (i - 1)), k - |front|);
          assert gs[k] == row[k - |front|];
        }
      }
    }
  }

  lemma AllGramsOrdered(len: nat, minN: int, maxN: int)
    ensures InGramOrder(AllGrams(len, minN, maxN))
  {
    GramsBelowOrdered(len, len, minN, maxN);
  }

  /** A gram that names a slice of `len` tokens. */
  predicate InRange(g: Gram, len: nat) {
    0 <= g.start && 0 <= g.n && g.start + g.n <= len
  }

  predicate AllInRange(gs: seq<Gram>, len: nat) {
    forall k :: 0 <= k < |gs| ==> InRange(gs[k], len)
  }

  /** Unless the source panics, every visited gram names a slice of the tokens. */
  lemma AllGramsInRange(len: nat, minN: int, maxN: int)
    requires !Panics(len, minN, maxN)
    ensures AllInRange(AllGrams(len, minN, maxN), len)
  {
    var gs := AllGrams(len, minN, maxN);
    forall k | 0 <= k < |gs| ensures InRange(gs[k], len) {
      AllGramsMembers(len, minN, maxN, gs[k]);
    }
  }

  /** The tokens a gram names (nothing for a gram out of range). */
  function SliceOf(tokens: seq<Str>, g: Gram): seq<Str>
  {
    if InRange(g, |tokens|) then tokens[g.start..g.start + g.n] else []
  }

  /** The token slices the grams name. */
  function Slices(tokens: seq<Str>, gs: seq<Gram>): (r: seq<seq<Str>>)
    ensures |r| == |gs|
  {
    if gs == [] then [] else Slices(tokens, gs[..|gs| - 1]) + [SliceOf(tokens, gs[|gs| - 1])]
  }

  /** The k-th slice is the one the k-th gram names. */
  lemma {:induction false} SlicesAt(tokens: seq<Str>, gs: seq<Gram>, k: nat)
    requires k < |gs| && InRange(gs[k], |tokens|)
    ensures Slices(tokens, gs)[k] == tokens[gs[k].start..gs[k].start + gs[k].n]
  {
    var front := gs[..|gs| - 1];
    if k < |gs| - 1 {
      assert front[k] == gs[k];
      SlicesAt(tokens, front, k);
    }
  }

  /** `nlp.NGrams`: every n-gram with `minN <= n <= maxN`, by start and then
      by length. */
  method NGrams(tokens: seq<Str>, minN: int, maxN: int) returns (out: seq<seq<Str>>)
    requires !Panics(|tokens|, minN, maxN)
    ensures AllInRange(AllGrams(|tokens|, minN, maxN), |tokens|)
    ensures out == Slices(tokens, AllGrams(|tokens|, minN, maxN))
  {
    out := [];
    for i := 0 to |tokens|
      invariant out == Slices(tokens, GramsBelow(i, |tokens|, minN, maxN))
    {
      ghost var done := GramsBelow(i, |tokens|, minN, maxN);
      assert GramsBelow(i + 1, |tokens|, minN, maxN) == done + Row(i, minN, Min(maxN, |tokens| - i));
      out := AppendRow(tokens, i, minN, maxN, done, out);
    }
    AllGramsInRange(|tokens|, minN, maxN);
  }

  /** The inner loop: the slices of the grams starting at token `i`. */
  method AppendRow(tokens: seq<Str>, i: nat, minN: int, maxN: int, ghost done: seq<Gram>, out0: seq<seq<Str>>)
      returns (out: seq<seq<Str>>)
    requires i < |tokens| && !Panics(|tokens|, minN, maxN)
    requires out0 == Slices(tokens, done)
    ensures out == Slices(tokens, done + Row(i, minN, Min(maxN, |tokens| - i)))
  {
    var hi := Min(maxN, |tokens| - i);
    var n := minN;
    out := out0;
    assert done + Row(i, minN, n - 1) == done;
    while n <= hi
      invariant minN <= n && (n <= hi + 1 || n == minN)
      invariant out == Slices(tokens, done + Row(i, minN, n - 1))
      decreases hi - n
    {
      ghost var before := Slices(tokens, done + Row(i, minN, n - 1));
      assert Slices(tokens, done + Row(i, minN, n)) == before + [tokens[i..i + n]] by {
        InnerStep(tokens, done, i, n, minN, maxN);
      }
      out := out + [tokens[i..i + n]];
      n := n + 1;
    }
    assert Row(i, minN, n - 1) == Row(i, minN, hi) by {
      if n - 1 != hi { assert hi < minN && n - 1 < minN; }
    }
  }

  /** One pass of the inner loop appends the slice of the next gram. */
  lemma InnerStep(tokens: seq<Str>, done: seq<Gram>, i: nat, n: int, minN: int, maxN: int)
    requires i < |tokens| && !Panics(|tokens|, minN, maxN)
    requires minN <= n <= Min(maxN, |tokens| - i)
    ensures Slices(tokens, done + Row(i, minN, n))
            == Slices(tokens, done + Row(i, minN, n - 1)) + [tokens[i..i + n]]
  {
    var gs := done + Row(i, minN, n - 1);
    var next := gs + [Gram(i, n)];
    assert done + Row(i, minN, n) == next by {
      assert Row(i, minN, n) == Row(i, minN, n - 1) + [Gram(i, n)];
      AppendAssoc(done, Row(i, minN, n - 1), [Gram(i, n)]);
    }
    assert next[..|gs|] == gs && next[|gs|] == Gram(i, n);
    assert SliceOf(tokens, Gram(i, n)) == tokens[i..i + n] by { GramInRange(i, n, |tokens|, minN, maxN); }
  }

  lemma RowSnoc(done: seq<Gram>, i: int, lo: int, n: int)
    requires lo <= n
    ensures done + Row(i, lo, n) == (done + Row(i, lo, n - 1)) + [Gram(i, n)]
  {
    AppendAssoc(done, Row(i, lo, n - 1), [Gram(i, n)]);
  }

  /** Unless the source panics, each slice the inner loop takes is in range. */
  lemma GramInRange(i: nat, n: int, len: nat, minN: int, maxN: int)
    requires i < len && !Panics(len, minN, maxN)
    requires minN <= n <= Min(maxN, len - i)
    ensures InRange(Gram(i, n), len)
  {
    AllGramsMembers(len, minN, maxN, Gram(i, n));
    AllGramsInRange(len, minN, maxN);
    var gs := AllGrams(len, minN, maxN);
    var k :| 0 <= k < |gs| && gs[k] == Gram(i, n);
  }

  /** `NGrams(t, 1, 1)` is every token on its own, in order. */
  lemma Unigrams(len: nat)
    ensures |AllGrams(len, 1, 1)| == len
    ensures forall k :: 0 <= k < len ==> AllGrams(len, 1, 1)[k] == Gram(k, 1)
  {
    UnigramsBelow(len, len);
  }

  lemma {:induction false} UnigramsBelow(i: nat, len: nat)
    requires i <= len
    ensures |GramsBelow(i, len, 1, 1)| == i
    ensures forall k :: 0 <= k < i ==> GramsBelow(i, len, 1, 1)[k] == Gram(k, 1)
  {
    if i > 0 {
      UnigramsBelow(i - 1, len);
      assert Min(1, len - (i - 1)) == 1;
    }
  }

  /** `NGrams(t, 2, 2)` is the `len(t) - 1` consecutive pairs. */
  lemma Bigrams(len: nat)
    requires len >= 1
    ensures |AllGrams(len, 2, 2)| == len - 1
    ensures forall k :: 0 <= k < len - 1 ==> AllGrams(len, 2, 2)[k] == Gram(k, 2)
  {
    BigramsBelow(len, len);
  }

  lemma {:induction false} BigramsBelow(i: nat, len: nat)
    requires 1 <= i <= len
    ensures |GramsBelow(i, len, 2, 2)| == Min(i, len - 1)
    ensures forall k :: 0 <= k < Min(i, len - 1) ==> GramsBelow(i, len, 2, 2)[k] == Gram(k, 2)
  {
    if i == 1 {
      assert GramsBelow(0, len, 2, 2) == [];
    } else {
      BigramsBelow(i - 1, len);
    }
  }

  /** No tokens, or an empty length range, give no n-grams. */
  lemma NoGrams(len: nat, minN: int, maxN: int)
    requires len == 0 || minN > maxN
    ensures AllGrams(len, minN, maxN) == []
  {
    if AllGrams(len, minN, maxN) != [] {
      var g := AllGrams(len, minN, maxN)[0];
      AllGramsMembers(len, minN, maxN, g);
    }
  }
}
