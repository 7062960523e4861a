/** Link statistics as the dump parser stores them: `processLink` hashes
    the n-grams of a link's anchor, and `storeLinks` runs, for each hash,
    `insert or ignore` of the target title, `insert or ignore` of the
    `(hash, target)` row of `linkstats` at 0, and the update that adds the
    link's count to that row. */
module LinkStore {
  import opened Text
  import opened NGrams
  import opened HashNGrams
  import opened Tables
  import opened Storage
  import Tokenize
  import WikiSyntax

  /** `processedLink`: the target, the hashes of the anchor's n-grams, and
      the count each hash adds. */
  datatype Processed = Processed(target: Str, hashes: seq<bv32>, count: real)

  /** What `processLink` computes: with `n = min(maxN, len(tokens))`, the
      hashes `hash.NGrams(tokens, n, n)` returns; when there is more than
      one, each adds `1 / len(hashes)` instead of the link's frequency. */
  function Process(link: WikiSyntax.Link, freq: int, maxN: nat): Processed {
    var tokens := Tokenize.Tokens(link.anchor);
    var n := Min(maxN, |tokens|);
    var hashes := Hashes(tokens, HashGramsAsWritten(|tokens|, n, n));
    Processed(link.target, hashes, if |hashes| > 1 then 1.0 / (|hashes| as real) else freq as real)
  }

  /** `processLink`. A negative `maxN` makes `hash.NGrams` panic on any
      anchor with a token, and the parser never passes one. */
  method ProcessLink(link: WikiSyntax.Link, freq: int, maxN: int) returns (p: Processed)
    requires maxN >= 0
    ensures p == Process(link, freq, maxN)
  {
    var tokens := Tokenize.Tokenize(link.anchor);
    var n := Min(maxN, |tokens|);
    var hashes := NGramHashesAsWritten(tokens, n, n);
    var count := freq as real;
    if |hashes| > 1 {
      count := 1.0 / (|hashes| as real);
    }
    p := Processed(link.target, hashes, count);
  }

  /** With one length `n`, the grams below start `i` are one per start, up
      to the last start that leaves `n` tokens. */
  lemma {:induction false} FixedLength(i: nat, len: nat, n: int)
    requires 1 <= n <= len && i <= len
    ensures GramsBelow(i, len, n, n) == seq(Min(i, len - n + 1), k => Gram(k, n))
    decreases i
  {
    if i > 0 {
      FixedLength(i - 1, len, n);
      var hi := Min(n, len - (i - 1));
      if i - 1 <= len - n {
        assert Row(i - 1, n, hi) == [Gram(i - 1, n)] by {
          assert Row(i - 1, n, n - 1) == [];
        }
        assert seq(i, k => Gram(k, n)) == seq(i - 1, k => Gram(k, n)) + [Gram(i - 1, n)];
      } else {
        assert Row(i - 1, n, hi) == [];
        assert GramsBelow(i, len, n, n) == GramsBelow(i - 1, len, n, n) + [];
      }
    }
  }

  /** Length 0 yields no gram at all. */
  lemma {:induction false} NoEmptyGrams(i: nat, len: nat)
    ensures HashGramsBelow(i, len, false, 0, 0) == []
  {
    if i > 0 {
      NoEmptyGrams(i - 1, len);
      assert HashRow(i - 1, len, false, 0, 0) == [] + [];
    }
  }

  /** `hash.NGrams(tokens, n, n)` hashes every run of `n` consecutive
      tokens, in order, and nothing when `n` is 0. */
  lemma WindowHashes(tokens: seq<Str>, n: nat)
    requires n <= |tokens|
    ensures var hs := Hashes(tokens, HashGramsAsWritten(|tokens|, n, n));
      |hs| == (if n == 0 then 0 else |tokens| - n + 1)
      && forall k :: 0 <= k < |hs| ==> hs[k] == HashGram(tokens[k..k + n])
  {
    var len := |tokens|;
    if n == 0 {
      NoEmptyGrams(len, len);
    } else {
      HashGramsAsWrittenAgree(len, n, n);
      FixedLength(len, len, n);
      var gs := AllGrams(len, n, n);
      assert |gs| == len - n + 1;
      forall k | 0 <= k < |gs| ensures Hashes(tokens, gs)[k] == HashGram(tokens[k..k + n]) {
        assert gs[k] == Gram(k, n) && InRange(gs[k], len);
        assert HashOf(tokens, Gram(k, n)) == HashGram(tokens[k..k + n]);
        HashesAt(tokens, gs, k);
      }
    }
  }

  /** `processLink` hashes every run of `n = min(maxN, len(tokens))`
      consecutive tokens of the anchor, in order, and nothing when `n` is 0;
      a link with more than one hash adds 1 in all, spread evenly over its
      hashes, and otherwise its frequency. */
  lemma ProcessedHashes(link: WikiSyntax.Link, freq: int, maxN: nat)
    ensures var tokens := Tokenize.Tokens(link.anchor);
      var n := Min(maxN, |tokens|);
      var p := Process(link, freq, maxN);
      p.target == link.target
      && |p.hashes| == (if n == 0 then 0 else |tokens| - n + 1)
      && (forall k :: 0 <= k < |p.hashes| ==> p.hashes[k] == HashGram(tokens[k..k + n]))
    ensures var p := Process(link, freq, maxN);
      if |p.hashes| > 1 then Times(|p.hashes|, p.count) == 1.0 else p.count == freq as real
  {
    var tokens := Tokenize.Tokens(link.anchor);
    WindowHashes(tokens, Min(maxN, |tokens|));
    var p := Process(link, freq, maxN);
    if |p.hashes| > 1 {
      SpreadEvenly(|p.hashes|);
    }
  }

  // ------------------------------------------------------------ statements

  /** A link's count under each of its hashes. */
  function HashCounts(hs: seq<bv32>, c: real): (cs: seq<LinkCount>)
    ensures |cs| == |hs|
  {
    if hs == [] then [] else HashCounts(hs[..|hs| - 1], c) + [LinkCount(hs[|hs| - 1] as int, c)]
  }

  /** The statements `storeLinks` runs for one link: for each hash, the
      title, the `(hash, target)` row and the update adding the count. */
  function LinkStmts(p: Processed): seq<Stmt> {
    MoveStmts(HashCounts(p.hashes, p.count), p.target)
  }

  function AllLinkStmts(ps: seq<Processed>): seq<Stmt>
    decreases |ps|
  {
    if ps == [] then [] else AllLinkStmts(ps[..|ps| - 1]) + LinkStmts(ps[|ps| - 1])
  }

  lemma {:induction false} AllLinkStmtsConcat(xs: seq<Processed>, ys: seq<Processed>)
    ensures AllLinkStmts(xs + ys) == AllLinkStmts(xs) + AllLinkStmts(ys)
    decreases |ys|
  {
    if ys == [] {
      assert xs + ys == xs;
    } else {
      var front := ys[..|ys| - 1];
      var zs := xs + ys;
      assert zs[..|zs| - 1] == xs + front && zs[|zs| - 1] == ys[|ys| - 1];
      var a, b, l := AllLinkStmts(xs), AllLinkStmts(front), LinkStmts(ys[|ys| - 1]);
      assert AllLinkStmts(zs) == AllLinkStmts(xs + front) + l;
      assert AllLinkStmts(ys) == b + l;
      AllLinkStmtsConcat(xs, front);
      assert (a + b) + l == a + (b + l);
    }
  }

  /** How often a hash occurs among a link's hashes. */
  function Occurrences(hs: seq<bv32>, hash: int): nat {
    if hs == [] then 0 else Occurrences(hs[..|hs| - 1], hash) + (if hs[|hs| - 1] as int == hash then 1 else 0)
  }

  /** `k` times the count `c`. */
  function Times(k: nat, c: real): real {
    if k == 0 then 0.0 else Times(k - 1, c) + c
  }

  lemma {:induction false} TimesIsProduct(k: nat, c: real)
    ensures Times(k, c) == (k as real) * c
  {
    if k > 0 {
      TimesIsProduct(k - 1, c);
      assert (k as real) * c == ((k - 1) as real) * c + c;
    }
  }

  /** `m` shares of `1 / m` make 1. */
  lemma SpreadEvenly(m: nat)
    requires m > 0
    ensures Times(m, 1.0 / (m as real)) == 1.0
  {
    TimesIsProduct(m, 1.0 / (m as real));
  }

  lemma {:induction false} HashCountsSum(hs: seq<bv32>, c: real, hash: int)
    ensures CountsSum(HashCounts(hs, c), hash) == Times(Occurrences(hs, hash), c)
    decreases |hs|
  {
    if hs != [] {
      var front := hs[..|hs| - 1];
      HashCountsSum(front, c, hash);
      CountsSumSnoc(HashCounts(front, c), LinkCount(hs[|hs| - 1] as int, c), hash);
    }
  }

  /** The count of `(hash, title)`: 0 when the title is not there. */
  function TitleCount(t: Tables, hash: int, title: Str): real {
    CountAt(t.linkstats, hash, IdOf(t.titles, title))
  }

  /** Moving counts onto a title adds their sum for a hash to the
      `(hash, title)` count, and changes no other title's. */
  lemma MovedCount(t: Tables, cs: seq<LinkCount>, to: Str, hash: int, x: Str)
    requires TablesOk(t) && Resolves(t)
    ensures TitleCount(ApplyAll(t, MoveStmts(cs, to)), hash, x)
            == TitleCount(t, hash, x) + (if x == to then CountsSum(cs, hash) else 0.0)
  {
    var t' := ApplyAll(t, MoveStmts(cs, to));
    var id := TargetId(t.titles, to);
    if cs == [] {
      assert t' == t;
    } else if x == to {
      assert IdOf(t'.titles, x) == Some(id) by {
        MoveEffect(t, cs, to);
        InsertTitleOk(t.titles, to);
      }
      assert SumOf(t'.linkstats, Filter(hash, Some(id))) == SumOf(t.linkstats, Filter(hash, Some(id))) + CountsSum(cs, hash) by {
        MoveSum(t, cs, to, Filter(hash, Some(id)));
      }
      assert TitleCount(t, hash, x) == SumOf(t.linkstats, Filter(hash, Some(id))) by {
        if IdOf(t.titles, x).None? {
          FreshAbove(t.titles);
          assert forall q :: q in t.linkstats ==> q.target != id by {
            forall q | q in t.linkstats ensures q.target != id {
              var w :| w in t.titles && w.id == q.target;
            }
          }
          SumAbsent(t.linkstats, id, hash);
        }
      }
    } else if IdOf(t.titles, x).Some? {
      var xid := IdOf(t.titles, x).value;
      assert IdOf(t'.titles, x) == Some(xid) by {
        MoveEffect(t, cs, to);
        InsertTitleOk(t.titles, to);
      }
      assert xid != id by {
        if IdOf(t.titles, to).Some? {
          if xid == id {
            IdOfInjective(t.titles, x, to, xid);
          }
        } else {
          FreshAbove(t.titles);
          IdOfFound(t.titles, x);
        }
      }
      MoveSum(t, cs, to, Filter(hash, Some(xid)));
    } else {
      assert IdOf(t'.titles, x).None? by {
        MoveEffect(t, cs, to);
        InsertTitleOk(t.titles, to);
      }
    }
  }

  /** One link adds its count, once per occurrence of a hash among its
      hashes, to the `(hash, target)` count, and changes no other title's. */
  lemma LinkCounted(t: Tables, p: Processed, hash: int, x: Str)
    requires TablesOk(t) && Resolves(t)
    ensures TitleCount(ApplyAll(t, LinkStmts(p)), hash, x)
            == TitleCount(t, hash, x) + (if x == p.target then Times(Occurrences(p.hashes, hash), p.count) else 0.0)
  {
    MovedCount(t, HashCounts(p.hashes, p.count), p.target, hash, x);
    HashCountsSum(p.hashes, p.count, hash);
  }

  /** What a run of links adds to `(hash, title)`: the count of each link to
      that title, once per occurrence of the hash among its hashes. */
  function Added(ps: seq<Processed>, hash: int, title: Str): real
    decreases |ps|
  {
    if ps == [] then 0.0
    else
      Added(ps[..|ps| - 1], hash, title) + Carried(ps[|ps| - 1], hash, title)
  }

  /** What one link adds to `(hash, title)`. */
  function Carried(p: Processed, hash: int, title: Str): real {
    if p.target == title then Times(Occurrences(p.hashes, hash), p.count) else 0.0
  }

  lemma AddedThree(p: Processed, q: Processed, r: Processed, hash: int, title: Str)
    ensures Added([p, q, r], hash, title) == Carried(p, hash, title) + Carried(q, hash, title) + Carried(r, hash, title)
  {
    assert [p, q, r][..2] == [p, q] && [p, q][..1] == [p] && [p][..0] == [];
    assert Added([p], hash, title) == Carried(p, hash, title);
    assert Added([p, q], hash, title) == Carried(p, hash, title) + Carried(q, hash, title);
  }

  /** Storing links keeps the tables well formed and adds to every
      `(hash, title)` count what the links to that title carry for that hash. */
  lemma {:induction false} StoredCounts(t: Tables, ps: seq<Processed>, hash: int, x: Str)
    requires TablesOk(t) && Resolves(t)
    ensures var t' := ApplyAll(t, AllLinkStmts(ps));
      TablesOk(t') && Resolves(t') && t'.ngramfreq == t.ngramfreq
      && TitleCount(t', hash, x) == TitleCount(t, hash, x) + Added(ps, hash, x)
    decreases |ps|
  {
    if ps != [] {
      var front := ps[..|ps| - 1];
      var p := ps[|ps| - 1];
      StoredCounts(t, front, hash, x);
      var t1 := ApplyAll(t, AllLinkStmts(front));
      ApplyAllConcat(t, AllLinkStmts(front), LinkStmts(p));
      MoveEffect(t1, HashCounts(p.hashes, p.count), p.target);
      LinkCounted(t1, p, hash, x);
    }
  }

  // ------------------------------------------------ storeLinks, with a transaction

  /** `storeLinks` of the parser commands as written: the statements for
      the links in order, each skipped once one has failed, the loop left
      after the link that failed, and then the commit, whose result replaces
      the statement's error. */
  function StoreLinksAsWrittenResult(t: Tables, budget: Option<nat>, ps: seq<Processed>): Result {
    var o := Run(t, budget, AllLinkStmts(ps));
    if CanRun(o.budget) then Result(o.tables, Spend(o.budget), None)
    else Result(t, Spend(o.budget), Some(Rejected))
  }

  /** `storeLinks` with the statement's error returned instead of replaced:
      on a failed statement the transaction is left open, uncommitted. */
  function StoreLinksResult(t: Tables, budget: Option<nat>, ps: seq<Processed>): Result {
    var o := Run(t, budget, AllLinkStmts(ps));
    if o.failed then Result(o.tables, o.budget, Some(Rejected))
    else StoreLinksAsWrittenResult(t, budget, ps)
  }

  /** One more link after the first `i`. */
  lemma LinkStep(t: Tables, budget: Option<nat>, ps: seq<Processed>, i: nat)
    requires i < |ps|
    ensures Run(t, budget, AllLinkStmts(ps[..i + 1]))
            == var o := Run(t, budget, AllLinkStmts(ps[..i]));
               if o.failed then o else Run(o.tables, o.budget, LinkStmts(ps[i]))
  {
    assert ps[..i + 1][..i] == ps[..i];
    RunConcat(t, budget, AllLinkStmts(ps[..i]), LinkStmts(ps[i]));
  }

  /** Once the statements of the first `k` links are rejected, the rest
      change nothing. */
  lemma LinksFailed(t: Tables, budget: Option<nat>, ps: seq<Processed>, k: nat)
    requires k <= |ps| && Run(t, budget, AllLinkStmts(ps[..k])).failed
    ensures Run(t, budget, AllLinkStmts(ps)) == Run(t, budget, AllLinkStmts(ps[..k]))
  {
    assert ps == ps[..k] + ps[k..];
    AllLinkStmtsConcat(ps[..k], ps[k..]);
    RunPrefixFailed(t, budget, AllLinkStmts(ps[..k]), AllLinkStmts(ps));
  }

  /** The loop over the links: each link's hashes with the error sticky
      (the loop of `MoveCounts`), the loop left after a link that failed. */
  method RunLinks(db: Db, links: seq<Processed>) returns (ok: bool)
    requires db.Valid()
    modifies db
    ensures db.Valid() && db.inTx == old(db.inTx)
    ensures db.inTx ==> db.committed == old(db.committed)
    ensures Run(old(db.tables), old(db.budget), AllLinkStmts(links)) == Outcome(db.tables, db.budget, !ok)
  {
    ghost var t0 := db.tables;
    ghost var b0 := db.budget;
    ok := true;
    var i := 0;
    while i < |links|
      invariant 0 <= i <= |links|
      invariant db.Valid() && db.inTx == old(db.inTx)
      invariant db.inTx ==> db.committed == old(db.committed)
      invariant Run(t0, b0, AllLinkStmts(links[..i])) == Outcome(db.tables, db.budget, false)
    {
      var p := links[i];
      LinkStep(t0, b0, links, i);
      ok := MoveCounts(db, HashCounts(p.hashes, p.count), p.target);
      if !ok {
        LinksFailed(t0, b0, links, i + 1);
        return;
      }
      i := i + 1;
    }
    assert links[..i] == links;
  }

  /** `storeLinks` (`cmd/semanticizest-dumpparser` and its `internal`
      copy) as written: a failed statement is committed over, so the
      caller sees the commit's result. */
  method StoreLinksAsWritten(db: Db, links: seq<Processed>) returns (err: Option<Error>)
    requires db.Valid() && !db.inTx
    modifies db
    ensures db.Valid() && !db.inTx
    ensures Result(db.tables, db.budget, err) == StoreLinksAsWrittenResult(old(db.tables), old(db.budget), links)
  {
    db.Begin();
    var ok := RunLinks(db, links);
    ok := db.Commit();
    err := if ok then None else Some(Rejected);
  }

  /** `storeLinks` returning the statement's error: the commit runs only
      when every statement has been carried out. */
  method StoreLinks(db: Db, links: seq<Processed>) returns (err: Option<Error>)
    requires db.Valid() && !db.inTx
    modifies db
    ensures db.Valid()
    ensures db.inTx <==> Run(old(db.tables), old(db.budget), AllLinkStmts(links)).failed
    ensures db.committed == if err.None? then db.tables else old(db.tables)
    ensures Result(db.tables, db.budget, err) == StoreLinksResult(old(db.tables), old(db.budget), links)
  {
    db.Begin();
    var ok := RunLinks(db, links);
    if !ok {
      return Some(Rejected);
    }
    ok := db.Commit();
    err := if ok then None else Some(Rejected);
  }

  /** As written, a link whose second statement is rejected is reported as
      stored: the commit succeeds with the target title inserted and the
      link's count never added. */
  lemma CommitHidesRejection(t: Tables, p: Processed)
    requires TablesOk(t) && |p.hashes| == 1
    ensures Run(t, Some(1), AllLinkStmts([p])).failed
    ensures StoreLinksAsWrittenResult(t, Some(1), [p])
            == Result(t.(titles := InsertTitleRow(t.titles, p.target)), None, None)
    ensures StoreLinksResult(t, Some(1), [p]).err == Some(Rejected)
  {
    var c := LinkCount(p.hashes[0] as int, p.count);
    assert p.hashes[..0] == [];
    assert HashCounts(p.hashes, p.count) == [c];
    assert MoveStmts([c], p.target) == MoveStmts([], p.target) + MoveOne(c, p.target) by {
      assert [c][..0] == [];
    }
    assert AllLinkStmts([p]) == [] + LinkStmts(p);
    assert LinkStmts(p) == MoveOne(c, p.target);
    assert AllLinkStmts([p]) == [InsertTitle(p.target)] + [InsertLink(c.hash, p.target), AddCount(c.count, p.target, c.hash)];
    RunCons(t, Some(1), InsertTitle(p.target), [InsertLink(c.hash, p.target), AddCount(c.count, p.target, c.hash)]);
    var t1 := Apply(t, InsertTitle(p.target));
    RunCons(t1, Some(0), InsertLink(c.hash, p.target), [AddCount(c.count, p.target, c.hash)]);
  }

  /** Returning the statement's error, no error means every link was
      stored and committed. */
  lemma NoErrorMeansStored(t: Tables, budget: Option<nat>, ps: seq<Processed>)
    ensures StoreLinksResult(t, budget, ps).err.None?
            <==> !Run(t, budget, AllLinkStmts(ps)).failed && CanRun(Run(t, budget, AllLinkStmts(ps)).budget)
    ensures StoreLinksResult(t, budget, ps).err.None? ==> StoreLinksResult(t, budget, ps).tables == ApplyAll(t, AllLinkStmts(ps))
  {
    if !Run(t, budget, AllLinkStmts(ps)).failed {
      RunOk(t, budget, AllLinkStmts(ps));
    }
  }

  // ---------------------------------------- storeLinks, statement by statement

  /** A map's keys listed once each, in the order Go visits them. */
  ghost predicate Enumerates(m: map<WikiSyntax.Link, int>, order: seq<WikiSyntax.Link>) {
    (forall k :: k in m <==> k in order)
    && (forall i, j :: 0 <= i < j < |order| ==> order[i] != order[j])
  }

  /** The links of one map of link frequencies, processed in `order`. */
  function ProcessBatch(batch: map<WikiSyntax.Link, int>, order: seq<WikiSyntax.Link>, maxN: nat): (ps: seq<Processed>)
    requires forall l :: l in order ==> l in batch
    ensures |ps| == |order|
    ensures forall k :: 0 <= k < |order| ==> ps[k] == Process(order[k], batch[order[k]], maxN)
  {
    seq(|order|, k requires 0 <= k < |order| => Process(order[k], batch[order[k]], maxN))
  }

  ghost predicate Orders(batches: seq<map<WikiSyntax.Link, int>>, orders: seq<seq<WikiSyntax.Link>>) {
    |orders| == |batches| && forall b :: 0 <= b < |batches| ==> Enumerates(batches[b], orders[b])
  }

  /** Every map's links, the maps in the order they arrive. */
  function ProcessBatches(batches: seq<map<WikiSyntax.Link, int>>, orders: seq<seq<WikiSyntax.Link>>, maxN: nat): seq<Processed>
    requires Orders(batches, orders)
    decreases |batches|
  {
    if batches == [] then []
    else
      var k := |batches| - 1;
      ProcessBatches(batches[..k], orders[..k], maxN) + ProcessBatch(batches[k], orders[k], maxN)
  }

  lemma {:induction false} ProcessBatchesPrefix(batches: seq<map<WikiSyntax.Link, int>>, orders: seq<seq<WikiSyntax.Link>>, maxN: nat, i: nat)
    requires Orders(batches, orders) && i <= |batches|
    ensures ProcessBatches(batches[..i], orders[..i], maxN) <= ProcessBatches(batches, orders, maxN)
    decreases |batches|
  {
    if i < |batches| {
      var k := |batches| - 1;
      assert batches[..k][..i] == batches[..i] && orders[..k][..i] == orders[..i];
      ProcessBatchesPrefix(batches[..k], orders[..k], maxN, i);
    } else {
      assert batches[..i] == batches && orders[..i] == orders;
    }
  }

  /** The statements for the first `i` maps. */
  function BatchStmts(batches: seq<map<WikiSyntax.Link, int>>, orders: seq<seq<WikiSyntax.Link>>, maxN: nat, i: nat): seq<Stmt>
    requires Orders(batches, orders) && i <= |batches|
  {
    AllLinkStmts(ProcessBatches(batches[..i], orders[..i], maxN))
  }

  lemma BatchStmtsSnoc(batches: seq<map<WikiSyntax.Link, int>>, orders: seq<seq<WikiSyntax.Link>>, maxN: nat, i: nat)
    requires Orders(batches, orders) && i < |batches|
    ensures BatchStmts(batches, orders, maxN, i + 1)
            == BatchStmts(batches, orders, maxN, i) + AllLinkStmts(ProcessBatch(batches[i], orders[i], maxN))
  {
    var done := ProcessBatches(batches[..i], orders[..i], maxN);
    var next := ProcessBatch(batches[i], orders[i], maxN);
    assert ProcessBatches(batches[..i + 1], orders[..i + 1], maxN) == done + next by {
      assert batches[..i + 1][..i] == batches[..i] && orders[..i + 1][..i] == orders[..i];
    }
    AllLinkStmtsConcat(done, next);
  }

  /** Once the statements of the first `i` maps are rejected, the rest
      change nothing. */
  lemma BatchesFailed(t: Tables, budget: Option<nat>, batches: seq<map<WikiSyntax.Link, int>>,
                      orders: seq<seq<WikiSyntax.Link>>, maxN: nat, i: nat)
    requires Orders(batches, orders) && i <= |batches|
    requires Run(t, budget, BatchStmts(batches, orders, maxN, i)).failed
    ensures Run(t, budget, AllLinkStmts(ProcessBatches(batches, orders, maxN)))
            == Run(t, budget, BatchStmts(batches, orders, maxN, i))
  {
    var all := ProcessBatches(batches, orders, maxN);
    var prefix := ProcessBatches(batches[..i], orders[..i], maxN);
    ProcessBatchesPrefix(batches, orders, maxN, i);
    assert all[..|prefix|] == prefix;
    LinksFailed(t, budget, all, |prefix|);
  }

  /** One map: each link processed, then its statements, returning at the
      first statement that fails. */
  method StoreBatch(db: Db, batch: map<WikiSyntax.Link, int>, order: seq<WikiSyntax.Link>, maxN: int) returns (ok: bool)
    requires db.Valid() && maxN >= 0 && forall l :: l in order ==> l in batch
    modifies db
    ensures db.Valid() && db.inTx == old(db.inTx)
    ensures db.inTx ==> db.committed == old(db.committed)
    ensures Run(old(db.tables), old(db.budget), AllLinkStmts(ProcessBatch(batch, order, maxN))) == Outcome(db.tables, db.budget, !ok)
  {
    ghost var ps := ProcessBatch(batch, order, maxN);
    ghost var t0 := db.tables;
    ghost var b0 := db.budget;
    var i := 0;
    while i < |order|
      invariant 0 <= i <= |order|
      invariant db.Valid() && db.inTx == old(db.inTx)
      invariant db.inTx ==> db.committed == old(db.committed)
      invariant Run(t0, b0, AllLinkStmts(ps[..i])) == Outcome(db.tables, db.budget, false)
    {
      var link := order[i];
      var p := ProcessLink(link, batch[link], maxN);
      assert p == ps[i];
      LinkStep(t0, b0, ps, i);
      ok := MoveCounts(db, HashCounts(p.hashes, p.count), p.target);
      if !ok {
        LinksFailed(t0, b0, ps, i + 1);
        return;
      }
      i := i + 1;
    }
    assert ps[..i] == ps;
    ok := true;
  }

  /** `storeLinks` of the older `dumpparser`: no transaction, the links
      processed inline, and the first failed statement returned at once,
      leaving the statements before it in effect. */
  method StoreLinkMaps(db: Db, batches: seq<map<WikiSyntax.Link, int>>, orders: seq<seq<WikiSyntax.Link>>, maxN: int)
    returns (err: Option<Error>)
    requires db.Valid() && !db.inTx && maxN >= 0 && Orders(batches, orders)
    modifies db
    ensures db.Valid() && !db.inTx
    ensures Run(old(db.tables), old(db.budget), AllLinkStmts(ProcessBatches(batches, orders, maxN)))
            == Outcome(db.tables, db.budget, err.Some?)
    ensures err.Some? ==> err == Some(Rejected)
  {
    ghost var t0 := db.tables;
    ghost var b0 := db.budget;
    var i := 0;
    while i < |batches|
      invariant 0 <= i <= |batches|
      invariant db.Valid() && !db.inTx
      invariant Run(t0, b0, BatchStmts(batches, orders, maxN, i)) == Outcome(db.tables, db.budget, false)
    {
      assert Run(t0, b0, BatchStmts(batches, orders, maxN, i + 1))
             == Run(db.tables, db.budget, AllLinkStmts(ProcessBatch(batches[i], orders[i], maxN))) by {
        BatchStmtsSnoc(batches, orders, maxN, i);
        RunConcat(t0, b0, BatchStmts(batches, orders, maxN, i), AllLinkStmts(ProcessBatch(batches[i], orders[i], maxN)));
      }
      var ok := StoreBatch(db, batches[i], orders[i], maxN);
      if !ok {
        BatchesFailed(t0, b0, batches, orders, maxN, i + 1);
        return Some(Rejected);
      }
      i := i + 1;
    }
    assert batches[..i] == batches && orders[..i] == orders;
    err := None;
  }

  /** The store test: "semanticizest" to "Entity_linking" with frequency 2
      and "NER" to "Named_entity_recognition" with 3 in one map, then the
      first link again with 1; each anchor being one token, the count of
      the anchor's hash for "Entity_linking" is 3 in whichever order the
      first map is visited. */
  lemma StoreLinksExample(a: WikiSyntax.Link, b: WikiSyntax.Link, first: seq<WikiSyntax.Link>)
    requires a.target != b.target
    requires |Tokenize.Tokens(a.anchor)| == 1 && |Tokenize.Tokens(b.anchor)| == 1
    requires first == [a, b] || first == [b, a]
    ensures var ps := ProcessBatches([map[a := 2, b := 3], map[a := 1]], [first, [a]], 3);
      var t := ApplyAll(Tables([], [], []), AllLinkStmts(ps));
      TitleCount(t, HashGram(Tokenize.Tokens(a.anchor)) as int, a.target) == 3.0
  {
    var h := HashGram(Tokenize.Tokens(a.anchor)) as int;
    var ps := ExampleBatches(a, b, first);
    assert Added(ps, h, a.target) == 3.0 by {
      ExampleAdded(a, b, ps);
    }
    StoredFromEmpty(ps, h, a.target);
  }

  /** Onto empty tables, a `(hash, title)` count is what the links carry. */
  lemma StoredFromEmpty(ps: seq<Processed>, hash: int, x: Str)
    ensures TitleCount(ApplyAll(Tables([], [], []), AllLinkStmts(ps)), hash, x) == Added(ps, hash, x)
  {
    var t := Tables([], [], []);
    assert TablesOk(t) && Resolves(t) && TitleCount(t, hash, x) == 0.0;
    StoredCounts(t, ps, hash, x);
  }

  /** The example's three links carry 2 + 1 to `a`'s target on `a`'s hash. */
  lemma ExampleAdded(a: WikiSyntax.Link, b: WikiSyntax.Link, ps: seq<Processed>)
    requires a.target != b.target
    requires |Tokenize.Tokens(a.anchor)| == 1
    requires |ps| == 3 && ps[2] == Process(a, 1, 3)
    requires ps[..2] == [Process(a, 2, 3), Process(b, 3, 3)] || ps[..2] == [Process(b, 3, 3), Process(a, 2, 3)]
    ensures Added(ps, HashGram(Tokenize.Tokens(a.anchor)) as int, a.target) == 3.0
  {
    var h := HashGram(Tokenize.Tokens(a.anchor)) as int;
    assert Carried(Process(a, 2, 3), h, a.target) == 2.0 by {
      SingleHash(a, 2);
    }
    assert Carried(Process(a, 1, 3), h, a.target) == 1.0 by {
      SingleHash(a, 1);
    }
    assert Carried(Process(b, 3, 3), h, a.target) == 0.0;
    AddedThree(ps[0], ps[1], ps[2], h, a.target);
    assert ps == [ps[0], ps[1], ps[2]];
  }

  /** A link whose anchor is one token carries its frequency on that token's
      hash. */
  lemma SingleHash(l: WikiSyntax.Link, freq: int)
    requires |Tokenize.Tokens(l.anchor)| == 1
    ensures var p := Process(l, freq, 3);
      Carried(p, HashGram(Tokenize.Tokens(l.anchor)) as int, l.target) == freq as real
  {
    var tokens := Tokenize.Tokens(l.anchor);
    var h := HashGram(tokens) as int;
    var p := Process(l, freq, 3);
    ProcessedHashes(l, freq, 3);
    var hs := p.hashes;
    assert |hs| == 1;
    assert hs[0] == HashGram(tokens) by {
      assert tokens[0..1] == tokens;
    }
    assert Occurrences(hs, h) == 1 by {
      assert hs[..0] == [];
    }
    assert Times(1, p.count) == p.count;
  }

  /** The two maps of the example, processed in order. */
  lemma ExampleBatches(a: WikiSyntax.Link, b: WikiSyntax.Link, first: seq<WikiSyntax.Link>) returns (ps: seq<Processed>)
    requires a.target != b.target
    requires first == [a, b] || first == [b, a]
    ensures ps == ProcessBatches([map[a := 2, b := 3], map[a := 1]], [first, [a]], 3)
    ensures |ps| == 3 && ps[2] == Process(a, 1, 3)
    ensures ps[..2] == [Process(a, 2, 3), Process(b, 3, 3)] || ps[..2] == [Process(b, 3, 3), Process(a, 2, 3)]
  {
    var m1 := map[a := 2, b := 3];
    var m2 := map[a := 1];
    var batches := [m1, m2];
    var orders := [first, [a]];
    assert Orders(batches, orders);
    assert batches[..1] == [m1] && orders[..1] == [first];
    assert Orders([m1], [first]);
    assert ProcessBatches([m1], [first], 3) == [] + ProcessBatch(m1, first, 3);
    ps := ProcessBatches(batches, orders, 3);
  }
}
