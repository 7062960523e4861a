/** Hashed n-grams: the FNV-1 32-bit hash (draft-eastlake-fnv, section 2:
    offset basis 2166136261, prime 16777619) of each n-gram's tokens joined
    by NUL bytes, computed incrementally: one running hash per start
    position, extended by a NUL and the next token for each longer n-gram. */
module HashNGrams {
  import opened Text
  import opened NGrams

  const OffsetBasis: bv32 := 2166136261
  const Prime: bv32 := 16777619
  const Nul: Byte := '\0'

  /** One byte of FNV-1: multiply (modulo 2^32), then exclusive-or. */
  function FnvStep(h: bv32, c: Byte): bv32 {
    (h * Prime) ^ ((c as int) as bv32)
  }

  /** A running hash `h` after writing the bytes of `s`. */
  function Fnv(h: bv32, s: Str): bv32
    decreases |s|
  {
    if s == [] then h else Fnv(FnvStep(h, s[0]), s[1..])
  }

  /** Writing `a` and then `b` is writing `a + b`. */
  lemma {:induction false} FnvConcat(h: bv32, a: Str, b: Str)
    ensures Fnv(h, a + b) == Fnv(Fnv(h, a), b)
    decreases |a|
  {
    if a != [] {
      assert (a + b)[0] == a[0] && (a + b)[1..] == a[1..] + b;
      FnvConcat(FnvStep(h, a[0]), a[1..], b);
    } else {
      assert a + b == b;
    }
  }

  /** The tokens of an n-gram joined by NUL bytes. */
  function Join(g: seq<Str>): Str
    requires g != []
  {
    if |g| == 1 then g[0] else Join(g[..|g| - 1]) + [Nul] + g[|g| - 1]
  }

  /** `hashNGram`: the FNV-1 hash of the joined tokens. */
  function HashGram(g: seq<Str>): bv32
    requires g != []
  {
    Fnv(OffsetBasis, Join(g))
  }

  /** Extending the hash of an n-gram by a NUL and one more token gives the
      hash of the longer n-gram, as hashing it from scratch would. */
  lemma HashExtend(g: seq<Str>, t: Str)
    requires g != []
    ensures Fnv(Fnv(HashGram(g), [Nul]), t) == HashGram(g + [t])
  {
    var g' := g + [t];
    assert g'[..|g'| - 1] == g;
    FnvConcat(OffsetBasis, Join(g), [Nul]);
    FnvConcat(OffsetBasis, Join(g) + [Nul], t);
  }

  /** The hash of the n-gram a gram names (0 for a gram naming no tokens). */
  function HashOf(tokens: seq<Str>, g: Gram): bv32 {
    if InRange(g, |tokens|) && g.n >= 1 then HashGram(tokens[g.start..g.start + g.n]) else 0
  }

  function Hashes(tokens: seq<Str>, gs: seq<Gram>): (r: seq<bv32>)
    ensures |r| == |gs|
  {
    if gs == [] then [] else Hashes(tokens, gs[..|gs| - 1]) + [HashOf(tokens, gs[|gs| - 1])]
  }

  lemma HashesSnoc(tokens: seq<Str>, gs: seq<Gram>, g: Gram)
    ensures Hashes(tokens, gs + [g]) == Hashes(tokens, gs) + [HashOf(tokens, g)]
  {
    assert (gs + [g])[..|gs|] == gs;
  }

  /** The k-th hash is that of the k-th gram. */
  lemma {:induction false} HashesAt(tokens: seq<Str>, gs: seq<Gram>, k: nat)
    requires k < |gs|
    ensures Hashes(tokens, gs)[k] == HashOf(tokens, gs[k])
  {
    var front := gs[..|gs| - 1];
    if k < |gs| - 1 {
      assert front[k] == gs[k];
      HashesAt(tokens, front, k);
    }
  }

  /** Hashing two runs of grams one after the other. */
  lemma {:induction false} HashesConcat(tokens: seq<Str>, a: seq<Gram>, b: seq<Gram>)
    ensures Hashes(tokens, a + b) == Hashes(tokens, a) + Hashes(tokens, b)
    decreases |b|
  {
    if b == [] {
      assert a + b == a;
    } else {
      var b' := b[..|b| - 1];
      assert a + b == (a + b') + [b[|b| - 1]];
      HashesConcat(tokens, a, b');
      HashesSnoc(tokens, a + b', b[|b| - 1]);
    }
  }

  function Max(a: int, b: int): (r: int)
    ensures r >= a && r >= b
    ensures r == a || r == b
  {
    if a < b then b else a
  }

  /** The grams hashed for start `i`, in order: the unigram when `unigram`
      holds, then the lengths from `max(2, minN)` to `min(maxN, len - i)`. */
  function HashRow(i: nat, len: nat, unigram: bool, minN: int, maxN: int): seq<Gram> {
    (if unigram then [Gram(i, 1)] else []) + Row(i, Max(2, minN), Min(maxN, len - i))
  }

  function HashGramsBelow(i: nat, len: nat, unigram: bool, minN: int, maxN: int): seq<Gram> {
    if i == 0 then []
    else HashGramsBelow(i - 1, len, unigram, minN, maxN) + HashRow(i - 1, len, unigram, minN, maxN)
  }

  /** The grams `hash.NGrams` hashes as written: the unigram exactly when
      `minN == 1`, whatever `maxN` is. */
  function HashGramsAsWritten(len: nat, minN: int, maxN: int): seq<Gram> {
    HashGramsBelow(len, len, minN == 1, minN, maxN)
  }

  /** When the unigram is emitted as the documentation intends. */
  predicate UnigramWanted(minN: int, maxN: int) {
    minN <= 1 <= maxN
  }

  /** `make` with the negative capacity `len(tokens) * maxN` panics. */
  predicate CapPanics(len: nat, maxN: int) {
    len > 0 && maxN < 0
  }

  /** `hash.NGrams` as written: a unigram hash is emitted whenever `minN == 1`,
      whatever `maxN` is, and never when `minN < 1`. */
  method NGramHashesAsWritten(tokens: seq<Str>, minN: int, maxN: int) returns (out: seq<bv32>)
    requires !CapPanics(|tokens|, maxN)
    ensures out == Hashes(tokens, HashGramsAsWritten(|tokens|, minN, maxN))
  {
    out := NGramHashesWith(tokens, minN == 1, minN, maxN);
  }

  /** `hash.NGrams` corrected: the hashes of exactly the n-grams with
      `minN <= n <= maxN` (and `n >= 1`), in the order of `nlp.NGrams`. */
  method NGramHashes(tokens: seq<Str>, minN: int, maxN: int) returns (out: seq<bv32>)
    requires !CapPanics(|tokens|, maxN)
    ensures out == Hashes(tokens, AllGrams(|tokens|, Max(1, minN), maxN))
  {
    out := NGramHashesWith(tokens, UnigramWanted(minN, maxN), minN, maxN);
    HashGramsCorrected(|tokens|, |tokens|, minN, maxN);
  }

  /** The two loops of `hash.NGrams`, with the unigram test as a parameter. */
  method NGramHashesWith(tokens: seq<Str>, unigram: bool, minN: int, maxN: int) returns (out: seq<bv32>)
    requires !CapPanics(|tokens|, maxN)
    ensures out == Hashes(tokens, HashGramsBelow(|tokens|, |tokens|, unigram, minN, maxN))
  {
    out := [];
    for i := 0 to |tokens|
      invariant out == Hashes(tokens, HashGramsBelow(i, |tokens|, unigram, minN, maxN))
    {
      var row := RowHashes(tokens, i, unigram, minN, maxN);
      HashesConcat(tokens, HashGramsBelow(i, |tokens|, unigram, minN, maxN), HashRow(i, |tokens|, unigram, minN, maxN));
      out := out + row;
    }
  }

  /** The body of the outer loop: the hashes of the grams starting at token
      `i`, from one running hash extended by a NUL and a token at a time. */
  method RowHashes(tokens: seq<Str>, i: nat, unigram: bool, minN: int, maxN: int) returns (out: seq<bv32>)
    requires i < |tokens|
    ensures out == Hashes(tokens, HashRow(i, |tokens|, unigram, minN, maxN))
  {
    ghost var head: seq<Gram> := if unigram then [Gram(i, 1)] else [];
    var hi := Min(maxN, |tokens| - i);
    var lo := Max(2, minN);
    var h := Fnv(OffsetBasis, tokens[i]);
    out := [];
    if unigram {
      out := out + [h];
    }
    assert h == RunHash(tokens, i, 1);
    assert out == Hashes(tokens, head + Row(i, lo, 1)) by {
      UnigramHash(tokens, i);
      RowEntry(tokens, head, i, unigram, lo);
    }
    var n := 2;
    while n <= hi
      invariant 2 <= n && (n <= hi + 1 || n == 2)
      invariant h == RunHash(tokens, i, n - 1)
      invariant out == Hashes(tokens, head + Row(i, lo, n - 1))
      decreases hi - n
    {
      h := Fnv(h, [Nul]);
      h := Fnv(h, tokens[i + n - 1]);
      assert h == RunHash(tokens, i, n);
      if n >= minN {
        assert Hashes(tokens, head + Row(i, lo, n)) == out + [h] by {
          RunHashIsHash(tokens, i, n);
          EmitStep(tokens, head, i, lo, n);
        }
        out := out + [h];
      } else {
        assert Row(i, lo, n) == Row(i, lo, n - 1);
      }
      n := n + 1;
    }
    RowExit(head, i, |tokens|, unigram, minN, maxN, n);
  }

  /** The running hash the inner loop keeps after `k` tokens from `i`. */
  function RunHash(tokens: seq<Str>, i: nat, k: nat): bv32
    requires 1 <= k && i + k <= |tokens|
  {
    if k == 1 then Fnv(OffsetBasis, tokens[i])
    else Fnv(Fnv(RunHash(tokens, i, k - 1), [Nul]), tokens[i + k - 1])
  }

  lemma {:induction false} RunHashIsHash(tokens: seq<Str>, i: nat, k: nat)
    requires 1 <= k && i + k <= |tokens|
    ensures RunHash(tokens, i, k) == HashGram(tokens[i..i + k])
  {
    if k == 1 {
      UnigramHash(tokens, i);
    } else {
      RunHashIsHash(tokens, i, k - 1);
      ExtendStep(tokens, i, k, RunHash(tokens, i, k - 1));
    }
  }

  /** The hash of one token is the hash of the unigram it forms. */
  lemma UnigramHash(tokens: seq<Str>, i: nat)
    requires i < |tokens|
    ensures Fnv(OffsetBasis, tokens[i]) == HashOf(tokens, Gram(i, 1)) == HashGram(tokens[i..i + 1])
  {
    assert [tokens[i]] == tokens[i..i + 1];
  }

  /** Before the inner loop, the output holds the unigram when it is emitted. */
  lemma RowEntry(tokens: seq<Str>, head: seq<Gram>, i: nat, unigram: bool, lo: int)
    requires lo >= 2
    requires head == if unigram then [Gram(i, 1)] else []
    ensures Hashes(tokens, head + Row(i, lo, 1))
            == if unigram then [HashOf(tokens, Gram(i, 1))] else []
  {
    assert head + Row(i, lo, 1) == head;
    if unigram {
      HashesSnoc(tokens, [], Gram(i, 1));
      assert [] + [Gram(i, 1)] == head;
    }
  }

  /** After the inner loop, the output holds the whole row of start `i`. */
  lemma RowExit(head: seq<Gram>, i: nat, len: nat, unigram: bool, minN: int, maxN: int, n: int)
    requires head == if unigram then [Gram(i, 1)] else []
    requires var hi := Min(maxN, len - i); 2 <= n && (n == hi + 1 || (n == 2 && hi < 2))
    ensures head + Row(i, Max(2, minN), n - 1) == HashRow(i, len, unigram, minN, maxN)
  {
    assert Row(i, Max(2, minN), n - 1) == Row(i, Max(2, minN), Min(maxN, len - i));
  }

  /** The running hash of `tokens[i:i+n-1]`, extended, is that of `tokens[i:i+n]`. */
  lemma ExtendStep(tokens: seq<Str>, i: nat, n: int, h: bv32)
    requires 2 <= n && i + n <= |tokens|
    requires h == HashGram(tokens[i..i + n - 1])
    ensures Fnv(Fnv(h, [Nul]), tokens[i + n - 1]) == HashGram(tokens[i..i + n])
  {
    HashExtend(tokens[i..i + n - 1], tokens[i + n - 1]);
    assert tokens[i..i + n - 1] + [tokens[i + n - 1]] == tokens[i..i + n];
  }

  /** Emitting the hash of the gram of length `n` extends the output by the next gram of the row. */
  lemma EmitStep(tokens: seq<Str>, front: seq<Gram>, i: nat, lo: int, n: int)
    requires lo <= n && i + n <= |tokens| && n >= 1
    ensures Hashes(tokens, front + Row(i, lo, n))
            == Hashes(tokens, front + Row(i, lo, n - 1)) + [HashGram(tokens[i..i + n])]
  {
    RowSnoc(front, i, lo, n);
    assert HashOf(tokens, Gram(i, n)) == HashGram(tokens[i..i + n]);
    HashesSnoc(tokens, front + Row(i, lo, n - 1), Gram(i, n));
  }

  /** A non-empty row is its shortest gram followed by the longer ones. */
  lemma {:induction false} RowCons(i: int, lo: int, hi: int)
    requires lo <= hi
    ensures Row(i, lo, hi) == [Gram(i, lo)] + Row(i, lo + 1, hi)
    decreases hi - lo
  {
    if lo < hi {
      RowCons(i, lo, hi - 1);
    }
  }

  /** With the unigram emitted as intended, the grams hashed are exactly those
      `nlp.NGrams` enumerates with lengths from `max(1, minN)` to `maxN`. */
  lemma {:induction false} HashGramsCorrected(i: nat, len: nat, minN: int, maxN: int)
    requires i <= len
    ensures HashGramsBelow(i, len, UnigramWanted(minN, maxN), minN, maxN)
            == GramsBelow(i, len, Max(1, minN), maxN)
  {
    if i > 0 {
      HashGramsCorrected(i - 1, len, minN, maxN);
      var hi := Min(maxN, len - (i - 1));
      if UnigramWanted(minN, maxN) {
        RowCons(i - 1, 1, hi);
      }
    }
  }

  /** For `minN >= 2`, or `minN == 1 <= maxN`, the source hashes exactly the
      n-grams `nlp.NGrams` enumerates, in the same order. */
  lemma HashGramsAsWrittenAgree(len: nat, minN: int, maxN: int)
    requires minN >= 2 || (minN == 1 && maxN >= 1)
    ensures HashGramsAsWritten(len, minN, maxN) == AllGrams(len, minN, maxN)
  {
    assert (minN == 1) == UnigramWanted(minN, maxN);
    HashGramsCorrected(len, len, minN, maxN);
  }

  /** `NGrams(tokens, 1, 0)` hashes the unigram of a one-token input, although
      no length satisfies `1 <= n <= 0`. */
  lemma UnigramBeyondMaxN()
    ensures HashGramsAsWritten(1, 1, 0) == [Gram(0, 1)]
    ensures AllGrams(1, 1, 0) == []
  {
    assert HashGramsBelow(0, 1, true, 1, 0) == [];
    assert GramsBelow(0, 1, 1, 0) == [];
  }

  /** `NGrams(tokens, 0, 1)` hashes nothing for a one-token input, although
      the unigram has a length between 0 and 1. */
  lemma UnigramMissedBelowOne()
    ensures HashGramsAsWritten(1, 0, 1) == []
    ensures AllGrams(1, Max(1, 0), 1) == [Gram(0, 1)]
  {
    assert HashGramsBelow(0, 1, false, 0, 1) == [];
    assert GramsBelow(0, 1, 1, 1) == [];
    assert Row(0, 1, 1) == [Gram(0, 1)] by {
      assert Row(0, 1, 0) == [];
    }
  }

  /** Every hash is that of the NUL-joined tokens of the n-gram `nlp.NGrams`
      yields at the same index, as the naive hasher would compute it. */
  lemma HashesMatchSlices(tokens: seq<Str>, minN: int, maxN: int, k: nat)
    requires minN >= 1
    requires k < |AllGrams(|tokens|, minN, maxN)|
    ensures Slices(tokens, AllGrams(|tokens|, minN, maxN))[k] != []
    ensures Hashes(tokens, AllGrams(|tokens|, minN, maxN))[k]
            == HashGram(Slices(tokens, AllGrams(|tokens|, minN, maxN))[k])
  {
    var gs := AllGrams(|tokens|, minN, maxN);
    AllGramsMembers(|tokens|, minN, maxN, gs[k]);
    SlicesAt(tokens, gs, k);
    HashesAt(tokens, gs, k);
  }

  /** `HashPos`: the hash of the n-gram from token `start` up to, not
      including, token `end`. */
  datatype HashPos = HashPos(hash: bv32, start: int, end: int)

  function PosOf(tokens: seq<Str>, g: Gram): HashPos {
    HashPos(HashOf(tokens, g), g.start, g.start + g.n)
  }

  function Positions(tokens: seq<Str>, gs: seq<Gram>): (r: seq<HashPos>)
    ensures |r| == |gs|
  {
    if gs == [] then [] else Positions(tokens, gs[..|gs| - 1]) + [PosOf(tokens, gs[|gs| - 1])]
  }

  /** The hashes of a run of positions, in order. */
  function PosHashes(ps: seq<HashPos>): (r: seq<bv32>)
    ensures |r| == |ps|
  {
    if ps == [] then [] else PosHashes(ps[..|ps| - 1]) + [ps[|ps| - 1].hash]
  }

  lemma {:induction false} PositionsAt(tokens: seq<Str>, gs: seq<Gram>, k: nat)
    requires k < |gs|
    ensures Positions(tokens, gs)[k] == PosOf(tokens, gs[k])
  {
    var front := gs[..|gs| - 1];
    if k < |gs| - 1 {
      assert front[k] == gs[k];
      PositionsAt(tokens, front, k);
    }
  }

  lemma {:induction false} PositionsConcat(tokens: seq<Str>, a: seq<Gram>, b: seq<Gram>)
    ensures Positions(tokens, a + b) == Positions(tokens, a) + Positions(tokens, b)
    decreases |b|
  {
    if b == [] {
      assert a + b == a;
    } else {
      var b' := b[..|b| - 1];
      assert a + b == (a + b') + [b[|b| - 1]];
      assert (a + b)[..|a + b| - 1] == a + b';
      PositionsConcat(tokens, a, b');
    }
  }

  /** The positions carry the hashes `Hashes` computes for the same grams. */
  lemma {:induction false} PosHashesOfPositions(tokens: seq<Str>, gs: seq<Gram>)
    ensures PosHashes(Positions(tokens, gs)) == Hashes(tokens, gs)
  {
    if gs != [] {
      var ps := Positions(tokens, gs);
      assert ps[..|ps| - 1] == Positions(tokens, gs[..|gs| - 1]);
      PosHashesOfPositions(tokens, gs[..|gs| - 1]);
    }
  }

  /** `NGramsPos`: like `NGrams` with `minN` fixed at one, each hash with the
      token range of its n-gram. */
  method NGramsPos(tokens: seq<Str>, maxN: int) returns (out: seq<HashPos>)
    requires !CapPanics(|tokens|, maxN)
    ensures out == Positions(tokens, HashGramsBelow(|tokens|, |tokens|, true, 1, maxN))
  {
    out := [];
    for i := 0 to |tokens|
      invariant out == Positions(tokens, HashGramsBelow(i, |tokens|, true, 1, maxN))
    {
      var row := RowPositions(tokens, i, maxN);
      PositionsConcat(tokens, HashGramsBelow(i, |tokens|, true, 1, maxN), HashRow(i, |tokens|, true, 1, maxN));
      out := out + row;
    }
  }

  /** The body of the outer loop of `NGramsPos`. */
  method RowPositions(tokens: seq<Str>, i: nat, maxN: int) returns (out: seq<HashPos>)
    requires i < |tokens|
    ensures out == Positions(tokens, HashRow(i, |tokens|, true, 1, maxN))
  {
    ghost var head := [Gram(i, 1)];
    var hi := Min(maxN, |tokens| - i);
    var h := Fnv(OffsetBasis, tokens[i]);
    UnigramHash(tokens, i);
    out := [HashPos(h, i, i + 1)];
    assert out == Positions(tokens, head + Row(i, 2, 1)) by {
      assert head + Row(i, 2, 1) == [] + [Gram(i, 1)];
    }
    assert h == RunHash(tokens, i, 1);
    var n := 2;
    while n <= hi
      invariant 2 <= n && (n <= hi + 1 || n == 2)
      invariant h == RunHash(tokens, i, n - 1)
      invariant out == Positions(tokens, head + Row(i, 2, n - 1))
      decreases hi - n
    {
      h := Fnv(h, [Nul]);
      h := Fnv(h, tokens[i + n - 1]);
      assert h == RunHash(tokens, i, n);
      assert Positions(tokens, head + Row(i, 2, n)) == out + [HashPos(h, i, i + n)] by {
        RunHashIsHash(tokens, i, n);
        PosStep(tokens, head, i, n);
      }
      out := out + [HashPos(h, i, i + n)];
      n := n + 1;
    }
    RowExit(head, i, |tokens|, true, 1, maxN, n);
  }

  /** Appending the position of the gram of length `n` extends the row by it. */
  lemma PosStep(tokens: seq<Str>, front: seq<Gram>, i: nat, n: int)
    requires 2 <= n && i + n <= |tokens|
    ensures Positions(tokens, front + Row(i, 2, n))
            == Positions(tokens, front + Row(i, 2, n - 1)) + [HashPos(HashGram(tokens[i..i + n]), i, i + n)]
  {
    RowSnoc(front, i, 2, n);
    var gs := front + Row(i, 2, n);
    assert gs[..|gs| - 1] == front + Row(i, 2, n - 1);
    assert HashOf(tokens, Gram(i, n)) == HashGram(tokens[i..i + n]);
  }

  /** With `maxN < 1` only the unigrams are hashed. */
  lemma {:induction false} UnigramsOnly(i: nat, len: nat, maxN: int)
    requires i <= len && maxN < 1
    ensures HashGramsBelow(i, len, true, 1, maxN) == GramsBelow(i, len, 1, 1)
  {
    if i > 0 {
      UnigramsOnly(i - 1, len, maxN);
      assert Row(i - 1, 1, 1) == [Gram(i - 1, 1)] by {
        assert Row(i - 1, 1, 0) == [];
      }
    }
  }

  /** `NGramsPos` visits the n-grams `nlp.NGrams(tokens, 1, max(1, maxN))`
      enumerates, in the same order: by start, the unigram first, then by
      increasing length. */
  lemma NGramsPosGrams(len: nat, maxN: int)
    ensures HashGramsBelow(len, len, true, 1, maxN) == AllGrams(len, 1, Max(1, maxN))
  {
    if maxN >= 1 {
      HashGramsCorrected(len, len, 1, maxN);
    } else {
      UnigramsOnly(len, len, maxN);
    }
  }

  /** `NGramsPos` carries the same hashes, in the same order, as
      `NGrams(tokens, 1, maxN)`. */
  lemma NGramsPosHashes(tokens: seq<Str>, maxN: int)
    ensures PosHashes(Positions(tokens, HashGramsBelow(|tokens|, |tokens|, true, 1, maxN)))
            == Hashes(tokens, HashGramsAsWritten(|tokens|, 1, maxN))
  {
    PosHashesOfPositions(tokens, HashGramsBelow(|tokens|, |tokens|, true, 1, maxN));
  }

  /** A position of `NGramsPos`: a non-empty token range inside the input, at
      most `maxN` tokens long unless a unigram, hashed as its n-gram. */
  predicate WellPlaced(tokens: seq<Str>, maxN: int, p: HashPos) {
    0 <= p.start < p.end <= |tokens|
    && (p.end - p.start > 1 ==> p.end - p.start <= maxN)
    && p.hash == HashGram(tokens[p.start..p.end])
  }

  lemma NGramsPosEntries(tokens: seq<Str>, maxN: int, k: nat)
    requires k < |Positions(tokens, HashGramsBelow(|tokens|, |tokens|, true, 1, maxN))|
    ensures WellPlaced(tokens, maxN, Positions(tokens, HashGramsBelow(|tokens|, |tokens|, true, 1, maxN))[k])
  {
    var gs := HashGramsBelow(|tokens|, |tokens|, true, 1, maxN);
    NGramsPosGrams(|tokens|, maxN);
    AllGramsMembers(|tokens|, 1, Max(1, maxN), gs[k]);
    PositionsAt(tokens, gs, k);
  }
}
