/** The redirect pass of the storage packages: for every redirect whose
    title has link statistics, the title's `(hash, count)` rows are moved
    onto the redirect's target and the title is deleted. `StoreRedirects`
    (`internal/storage`) runs inside a transaction, skips a title that is
    not in `titles` and commits at the end; `ProcessRedirects` (`storage`)
    runs without one, over a map, and fails on a missing title. */
module Storage {
  import opened Text
  import opened Tables
  import Pages

  /** `sql.ErrNoRows`, or a statement the database rejected. */
  datatype Error = NoRows | Rejected

  /** The statements one redirect issues: the id query; then, when the
      title is there, the counts query, the two deletes and the moves. */
  function RedirectStmts(t: Tables, r: Pages.Redirect): seq<Stmt> {
    match IdOf(t.titles, r.title)
    case None => [QueryTitleId(r.title)]
    case Some(id) =>
      [QueryTitleId(r.title), QueryCounts(id), DeleteLinks(id), DeleteTitle(id)]
      + MoveStmts(CountsOf(t.linkstats, id), r.target)
  }

  /** The tables after one redirect has been carried out in full. */
  function Redirected(t: Tables, r: Pages.Redirect): Tables {
    ApplyAll(t, RedirectStmts(t, r))
  }

  datatype Result = Result(tables: Tables, budget: Option<nat>, err: Option<Error>)

  /** One redirect with a fault budget; with `strict` a missing title is
      the error `sql.ErrNoRows`. */
  function RedirectStep(t: Tables, budget: Option<nat>, r: Pages.Redirect, strict: bool): Result {
    var o := Run(t, budget, RedirectStmts(t, r));
    if o.failed then Result(o.tables, o.budget, Some(Rejected))
    else if strict && IdOf(t.titles, r.title).None? then Result(o.tables, o.budget, Some(NoRows))
    else Result(o.tables, o.budget, None)
  }

  /** The redirects in order, up to the first error. */
  function RedirectAll(t: Tables, budget: Option<nat>, rs: seq<Pages.Redirect>, strict: bool): Result
    decreases |rs|
  {
    if rs == [] then Result(t, budget, None)
    else
      var o := RedirectStep(t, budget, rs[0], strict);
      if o.err.Some? then o else RedirectAll(o.tables, o.budget, rs[1..], strict)
  }

  /** The redirects applied one after the other, nothing rejected. */
  function RedirectEach(t: Tables, rs: seq<Pages.Redirect>): Tables
    decreases |rs|
  {
    if rs == [] then t else RedirectEach(Redirected(t, rs[0]), rs[1..])
  }

  /** With nothing rejected and no missing title in the way, the redirects
      are carried out in order, each in full. */
  lemma {:induction false} RedirectAllInOrder(t: Tables, rs: seq<Pages.Redirect>)
    ensures RedirectAll(t, None, rs, false) == Result(RedirectEach(t, rs), None, None)
    decreases |rs|
  {
    if rs != [] {
      RunUnlimited(t, RedirectStmts(t, rs[0]));
      RedirectAllInOrder(Redirected(t, rs[0]), rs[1..]);
    }
  }

  /** A redirect whose title is not in `titles` changes nothing. */
  lemma RedirectSkips(t: Tables, r: Pages.Redirect)
    requires IdOf(t.titles, r.title).None?
    ensures Redirected(t, r) == t
  {
    var ss := RedirectStmts(t, r);
    assert ss == [QueryTitleId(r.title)] && ss[1..] == [];
    assert Run(t, None, ss) == Run(t, None, ss[1..]);
  }

  /** The tables once the title's rows and the title have been deleted. */
  function Deleted(t: Tables, id: int): Tables {
    t.(titles := DeleteTitleRow(t.titles, id), linkstats := DeleteLinkRows(t.linkstats, id))
  }

  lemma RedirectSplit(t: Tables, r: Pages.Redirect, id: int)
    requires IdOf(t.titles, r.title) == Some(id)
    ensures Redirected(t, r) == ApplyAll(Deleted(t, id), MoveStmts(CountsOf(t.linkstats, id), r.target))
  {
    var head := [QueryTitleId(r.title), QueryCounts(id), DeleteLinks(id), DeleteTitle(id)];
    var moves := MoveStmts(CountsOf(t.linkstats, id), r.target);
    ApplyAllConcat(t, head, moves);
    assert head[1..] == [QueryCounts(id), DeleteLinks(id), DeleteTitle(id)];
    assert head[1..][1..] == [DeleteLinks(id), DeleteTitle(id)];
    assert head[1..][1..][1..] == [DeleteTitle(id)];
    assert head[1..][1..][1..][1..] == [];
    var t2 := Apply(t, DeleteLinks(id));
    assert Run(t, None, head) == Run(t, None, head[1..]);
    assert Run(t, None, head[1..]) == Run(t, None, head[1..][1..]);
    assert Run(t, None, head[1..][1..]) == Run(t2, None, head[1..][1..][1..]);
    assert Run(t2, None, head[1..][1..][1..]) == Run(Apply(t2, DeleteTitle(id)), None, []);
  }

  /** The deletes keep the tables well formed, every row referring to a title. */
  lemma DeletedOk(t: Tables, id: int)
    requires TablesOk(t) && Resolves(t)
    ensures TablesOk(Deleted(t, id)) && Resolves(Deleted(t, id))
    ensures forall q :: q in t.linkstats ==> q.target == id || HasId(Deleted(t, id).titles, q.target)
  {
    var d := Deleted(t, id);
    DeleteTitleOk(t.titles, id);
    DeleteLinksUnique(t.linkstats, id);
    DeleteLinkRowsMembers(t.linkstats, id);
    forall q | q in t.linkstats ensures q.target == id || HasId(d.titles, q.target) {
      var w :| w in t.titles && w.id == q.target;
      if q.target != id {
        assert w in d.titles;
      }
    }
  }

  /** A redirect carried out in full keeps the tables well formed, leaves
      every row referring to a title, and inserts the target exactly when
      there were counts to move. */
  lemma RedirectKeepsOk(t: Tables, r: Pages.Redirect, id: int)
    requires TablesOk(t) && Resolves(t) && IdOf(t.titles, r.title) == Some(id)
    ensures TablesOk(Redirected(t, r)) && Resolves(Redirected(t, r))
    ensures Redirected(t, r).titles
            == if CountsOf(t.linkstats, id) == [] then DeleteTitleRow(t.titles, id)
               else InsertTitleRow(DeleteTitleRow(t.titles, id), r.target)
    ensures Redirected(t, r).ngramfreq == t.ngramfreq
  {
    RedirectSplit(t, r, id);
    DeletedOk(t, id);
    MoveEffect(Deleted(t, id), CountsOf(t.linkstats, id), r.target);
  }

  /** The title is gone (unless it is its own target), the target is there
      when there were counts to move, and every other title keeps its id. */
  lemma RedirectTitles(t: Tables, r: Pages.Redirect, id: int)
    requires TablesOk(t) && Resolves(t) && IdOf(t.titles, r.title) == Some(id)
    ensures r.title != r.target ==> IdOf(Redirected(t, r).titles, r.title).None?
    ensures CountsOf(t.linkstats, id) != [] ==> IdOf(Redirected(t, r).titles, r.target).Some?
    ensures forall x :: x != r.title && x != r.target ==> IdOf(Redirected(t, r).titles, x) == IdOf(t.titles, x)
  {
    RedirectKeepsOk(t, r, id);
    var d := DeleteTitleRow(t.titles, id);
    DeleteTitleOk(t.titles, id);
    InsertTitleOk(d, r.target);
    forall x | x != r.title ensures IdOf(d, x) == IdOf(t.titles, x) {
      if IdOf(t.titles, x) == Some(id) {
        IdOfInjective(t.titles, x, r.title, id);
      }
    }
  }

  /** Every sum of counts after a redirect: the title's counts are taken
      out and put back on the target's id. */
  lemma RedirectSum(t: Tables, r: Pages.Redirect, id: int, f: Filter)
    requires TablesOk(t) && Resolves(t) && IdOf(t.titles, r.title) == Some(id)
    ensures var moved := SumOf(t.linkstats, Filter(f.hash, Some(id)));
      var to := TargetId(DeleteTitleRow(t.titles, id), r.target);
      SumOf(Redirected(t, r).linkstats, f)
      == SumOf(t.linkstats, f)
         - (if f.target.None? || f.target == Some(id) then moved else 0.0)
         + (if f.target.None? || f.target == Some(to) then moved else 0.0)
  {
    var cs := CountsOf(t.linkstats, id);
    RedirectSplit(t, r, id);
    DeletedOk(t, id);
    MoveSum(Deleted(t, id), cs, r.target, f);
    SumDelete(t.linkstats, id, f);
    CountsOfSum(t.linkstats, id, f.hash);
  }

  /** A redirect leaves the total count of every n-gram hash unchanged. */
  lemma RedirectKeepsTotals(t: Tables, r: Pages.Redirect, hash: int)
    requires TablesOk(t) && Resolves(t)
    ensures SumOf(Redirected(t, r).linkstats, Filter(hash, None)) == SumOf(t.linkstats, Filter(hash, None))
  {
    match IdOf(t.titles, r.title)
    case None => RedirectSkips(t, r);
    case Some(id) => RedirectSum(t, r, id, Filter(hash, None));
  }

  /** A redirect adds the title's count for every hash to the target's, and
      leaves the counts of every other title alone. */
  lemma RedirectMovesCounts(t: Tables, r: Pages.Redirect, id: int, hash: int)
    requires TablesOk(t) && Resolves(t) && IdOf(t.titles, r.title) == Some(id) && r.title != r.target
    ensures CountAt(Redirected(t, r).linkstats, hash, IdOf(Redirected(t, r).titles, r.target))
            == CountAt(t.linkstats, hash, IdOf(t.titles, r.target)) + SumOf(t.linkstats, Filter(hash, Some(id)))
    ensures forall x :: x != r.title && x != r.target ==>
              CountAt(Redirected(t, r).linkstats, hash, IdOf(Redirected(t, r).titles, x))
              == CountAt(t.linkstats, hash, IdOf(t.titles, x))
  {
    var t' := Redirected(t, r);
    var d := DeleteTitleRow(t.titles, id);
    var to := TargetId(d, r.target);
    var moved := SumOf(t.linkstats, Filter(hash, Some(id)));
    RedirectKeepsOk(t, r, id);
    RedirectTitles(t, r, id);
    DeleteTitleOk(t.titles, id);
    InsertTitleOk(d, r.target);
    DeletedOk(t, id);
    assert IdOf(d, r.target) == IdOf(t.titles, r.target) by {
      if IdOf(t.titles, r.target) == Some(id) {
        IdOfInjective(t.titles, r.target, r.title, id);
      }
    }
    RedirectSum(t, r, id, Filter(hash, Some(to)));
    if CountsOf(t.linkstats, id) == [] {
      assert moved == 0.0 by { CountsOfSum(t.linkstats, id, hash); }
    } else {
      assert IdOf(t'.titles, r.target) == Some(to);
      if IdOf(t.titles, r.target).None? && to != id {
        FreshAbove(d);
        assert forall q :: q in t.linkstats ==> q.target != to by {
          forall q | q in t.linkstats ensures q.target != to {
            if q.target != id {
              var w :| w in d && w.id == q.target;
            }
          }
        }
        SumAbsent(t.linkstats, to, hash);
      }
    }
    forall x | x != r.title && x != r.target
      ensures CountAt(t'.linkstats, hash, IdOf(t'.titles, x)) == CountAt(t.linkstats, hash, IdOf(t.titles, x))
    {
      if IdOf(t.titles, x).Some? {
        var xid := IdOf(t.titles, x).value;
        assert xid != id by {
          if xid == id { IdOfInjective(t.titles, x, r.title, id); }
        }
        assert CountsOf(t.linkstats, id) != [] ==> xid != to by {
          if CountsOf(t.linkstats, id) != [] && xid == to { IdOfInjective(t'.titles, x, r.target, to); }
        }
        RedirectSum(t, r, id, Filter(hash, Some(xid)));
        if CountsOf(t.linkstats, id) == [] {
          CountsOfSum(t.linkstats, id, hash);
        }
      }
    }
  }

  /** The redirect test: "Architekt" (id 1) with the row (42, 1, 10) is
      redirected to "Architect", which takes id 1 and the row; the redirect
      of a title that is not there is skipped and inserts nothing. */
  lemma RedirectExample(t: Tables, from: Str, to: Str, missing: Str, missingTo: Str)
    requires from == "Architekt" && to == "Architect"
    requires missing == "Non existent" && missingTo == "Non-existent"
    requires t == Tables([TitleRow(1, from)], [LinkRow(42, 1, 10.0)], [])
    ensures RedirectAll(t, None, [Pages.Redirect(from, to), Pages.Redirect(missing, missingTo)], false)
            == Result(Tables([TitleRow(1, to)], [LinkRow(42, 1, 10.0)], []), None, None)
  {
    var r1 := Pages.Redirect(from, to);
    var r2 := Pages.Redirect(missing, missingTo);
    var t3 := Tables([TitleRow(1, to)], [LinkRow(42, 1, 10.0)], []);
    assert Redirected(t, r1) == t3 by {
      RedirectExampleFirst(t, from, to);
    }
    assert IdOf(t3.titles, missing) == None by {
      assert t3.titles[..0] == [];
    }
    RedirectSkips(t3, r2);
    RedirectAllInOrder(t, [r1, r2]);
    assert [r1, r2][1..] == [r2] && [r2][1..] == [];
    assert RedirectEach(t, [r1, r2]) == RedirectEach(t3, [r2]);
    assert RedirectEach(t3, [r2]) == RedirectEach(t3, []);
  }

  /** The first redirect of the test moves the title and its one row. */
  lemma RedirectExampleFirst(t: Tables, from: Str, to: Str)
    requires from == "Architekt" && to == "Architect"
    requires t == Tables([TitleRow(1, from)], [LinkRow(42, 1, 10.0)], [])
    ensures Redirected(t, Pages.Redirect(from, to)) == Tables([TitleRow(1, to)], [LinkRow(42, 1, 10.0)], [])
  {
    var r1 := Pages.Redirect(from, to);
    var cs := CountsOf(t.linkstats, 1);
    assert IdOf(t.titles, from) == Some(1);
    assert cs == [LinkCount(42, 10.0)] by {
      var ls := t.linkstats;
      assert ls[..|ls| - 1] == [] && ls[|ls| - 1] == LinkRow(42, 1, 10.0);
      assert CountsOf(ls, 1) == CountsOf([], 1) + [LinkCount(42, 10.0)];
      assert [] + [LinkCount(42, 10.0)] == [LinkCount(42, 10.0)];
    }
    var d := Deleted(t, 1);
    assert d == Tables([], [], []) by {
      var ts := t.titles;
      var ls := t.linkstats;
      assert ts[..|ts| - 1] == [] && ls[..|ls| - 1] == [];
      assert DeleteTitleRow(ts, 1) == DeleteTitleRow([], 1) + [];
      assert DeleteLinkRows(ls, 1) == DeleteLinkRows([], 1) + [];
    }
    assert MoveStmts(cs, to) == MoveOne(LinkCount(42, 10.0), to) by {
      assert cs[..0] == [];
    }
    var t1 := Apply(d, InsertTitle(to));
    assert t1 == Tables([TitleRow(1, to)], [], []);
    var t2 := Apply(t1, InsertLink(42, to));
    assert t2 == Tables([TitleRow(1, to)], [LinkRow(42, 1, 0.0)], []) by {
      assert IdOf(t1.titles, to) == Some(1);
      assert !HasLink([], 42, 1);
    }
    var t3 := Apply(t2, AddCount(10.0, to, 42));
    assert t3 == Tables([TitleRow(1, to)], [LinkRow(42, 1, 10.0)], []) by {
      assert IdOf(t2.titles, to) == Some(1);
      assert t2.linkstats[..0] == [];
    }
    RedirectSplit(t, r1, 1);
    ApplyThree(d, InsertTitle(to), InsertLink(42, to), AddCount(10.0, to, 42));
  }

  // ------------------------------------------------------------ connection

  /** A connection to the model database. Statements see `tables`;
      `committed` is what a commit has made durable, and outside a
      transaction the two are the same. `budget` is the number of
      statements the database still carries out (`None`: all of them). */
  class Db {
    var tables: Tables
    var committed: Tables
    var inTx: bool
    var budget: Option<nat>

    ghost predicate Valid()
      reads this
    {
      TablesOk(tables) && TablesOk(committed) && (!inTx ==> committed == tables)
    }

    constructor (t: Tables, budget: Option<nat>)
      requires TablesOk(t)
      ensures Valid() && tables == t && committed == t && !inTx && this.budget == budget
    {
      tables := t;
      committed := t;
      inTx := false;
      this.budget := budget;
    }

    /** Runs one statement; outside a transaction its effect is durable at once. */
    method Exec(s: Stmt) returns (ok: bool)
      requires Valid()
      modifies this
      ensures Valid() && inTx == old(inTx)
      ensures ok == CanRun(old(budget)) && budget == Spend(old(budget))
      ensures tables == if ok then Apply(old(tables), s) else old(tables)
      ensures inTx ==> committed == old(committed)
    {
      ok := CanRun(budget);
      budget := Spend(budget);
      if ok {
        ApplyOk(tables, s);
        tables := Apply(tables, s);
        if !inTx {
          committed := tables;
        }
      }
    }

    /** `select id from titles where title = ?` */
    method TitleId(title: Str) returns (ok: bool, id: Option<int>)
      requires Valid()
      modifies this
      ensures Valid() && inTx == old(inTx) && tables == old(tables) && committed == old(committed)
      ensures ok == CanRun(old(budget)) && budget == Spend(old(budget))
      ensures id == IdOf(tables.titles, title)
    {
      ok := Exec(QueryTitleId(title));
      id := IdOf(tables.titles, title);
    }

    /** `select ngramhash, count from linkstats where targetid = ?` */
    method Counts(id: int) returns (ok: bool, counts: seq<LinkCount>)
      requires Valid()
      modifies this
      ensures Valid() && inTx == old(inTx) && tables == old(tables) && committed == old(committed)
      ensures ok == CanRun(old(budget)) && budget == Spend(old(budget))
      ensures counts == CountsOf(tables.linkstats, id)
    {
      ok := Exec(QueryCounts(id));
      counts := CountsOf(tables.linkstats, id);
    }

    method Begin()
      requires Valid() && !inTx
      modifies this
      ensures Valid() && inTx
      ensures tables == old(tables) && committed == old(committed) && budget == old(budget)
    {
      inTx := true;
    }

    /** Makes the transaction durable; a rejected commit rolls it back. */
    method Commit() returns (ok: bool)
      requires Valid() && inTx
      modifies this
      ensures Valid() && !inTx
      ensures ok == CanRun(old(budget)) && budget == Spend(old(budget))
      ensures tables == (if ok then old(tables) else old(committed)) && committed == tables
    {
      ok := CanRun(budget);
      budget := Spend(budget);
      inTx := false;
      if ok {
        committed := tables;
      } else {
        tables := committed;
      }
    }
  }

  // ------------------------------------------------------------- redirects

  /** The three statements for one count: insert the target title, insert
      the `(hash, target)` row at 0, add the count; each runs only if the
      one before it succeeded. */
  method MoveOneCount(db: Db, c: LinkCount, to: Str) returns (ok: bool)
    requires db.Valid()
    modifies db
    ensures db.Valid() && db.inTx == old(db.inTx)
    ensures Run(old(db.tables), old(db.budget), MoveOne(c, to)) == Outcome(db.tables, db.budget, !ok)
    ensures db.inTx ==> db.committed == old(db.committed)
  {
    ghost var t0 := db.tables;
    ghost var b0 := db.budget;
    ghost var tail := [AddCount(c.count, to, c.hash)];
    assert MoveOne(c, to) == [InsertTitle(to)] + ([InsertLink(c.hash, to)] + tail);
    RunCons(t0, b0, InsertTitle(to), [InsertLink(c.hash, to)] + tail);
    ok := db.Exec(InsertTitle(to));
    if ok {
      RunCons(db.tables, db.budget, InsertLink(c.hash, to), tail);
      ok := db.Exec(InsertLink(c.hash, to));
      if ok {
        RunCons(db.tables, db.budget, AddCount(c.count, to, c.hash), []);
        assert tail == [AddCount(c.count, to, c.hash)] + [];
        ok := db.Exec(AddCount(c.count, to, c.hash));
      }
    }
  }

  /** The loop over the title's counts, with the error sticky: once a
      statement fails the rest are skipped. */
  method MoveCounts(db: Db, counts: seq<LinkCount>, to: Str) returns (ok: bool)
    requires db.Valid()
    modifies db
    ensures db.Valid() && db.inTx == old(db.inTx)
    ensures Run(old(db.tables), old(db.budget), MoveStmts(counts, to)) == Outcome(db.tables, db.budget, !ok)
    ensures db.inTx ==> db.committed == old(db.committed)
  {
    ghost var t0 := db.tables;
    ghost var b0 := db.budget;
    ok := true;
    var k := 0;
    while k < |counts|
      invariant 0 <= k <= |counts|
      invariant db.Valid() && db.inTx == old(db.inTx)
      invariant db.inTx ==> db.committed == old(db.committed)
      invariant Run(t0, b0, MoveStmts(counts[..k], to)) == Outcome(db.tables, db.budget, !ok)
    {
      assert MoveStmts(counts[..k + 1], to) == MoveStmts(counts[..k], to) + MoveOne(counts[k], to) by {
        assert counts[..k + 1][..k] == counts[..k];
      }
      RunConcat(t0, b0, MoveStmts(counts[..k], to), MoveOne(counts[k], to));
      if ok {
        ok := MoveOneCount(db, counts[k], to);
      }
      k := k + 1;
    }
    assert counts[..k] == counts;
  }

  /** The body of the redirect loop: look the title up, read its counts,
      delete its rows and its title, move the counts onto the target. */
  method RedirectOne(db: Db, r: Pages.Redirect, strict: bool) returns (err: Option<Error>)
    requires db.Valid()
    modifies db
    ensures db.Valid() && db.inTx == old(db.inTx)
    ensures RedirectStep(old(db.tables), old(db.budget), r, strict) == Result(db.tables, db.budget, err)
    ensures db.inTx ==> db.committed == old(db.committed)
  {
    ghost var t0 := db.tables;
    ghost var b0 := db.budget;
    var ok, fromId := db.TitleId(r.title);
    if fromId.None? {
      assert Run(t0, b0, RedirectStmts(t0, r)) == Outcome(t0, db.budget, !ok) by {
        RunCons(t0, b0, QueryTitleId(r.title), []);
        assert RedirectStmts(t0, r) == [QueryTitleId(r.title)] + [];
      }
      if !ok {
        return Some(Rejected);
      }
      return if strict then Some(NoRows) else None;
    }
    var id := fromId.value;
    ghost var moves := MoveStmts(CountsOf(t0.linkstats, id), r.target);
    ghost var afterDelete := [DeleteTitle(id)] + moves;
    ghost var afterCounts := [DeleteLinks(id)] + afterDelete;
    assert Run(t0, b0, RedirectStmts(t0, r))
           == if ok then Run(t0, db.budget, [QueryCounts(id)] + afterCounts) else Outcome(t0, db.budget, true) by {
      RunCons(t0, b0, QueryTitleId(r.title), [QueryCounts(id)] + afterCounts);
      assert RedirectStmts(t0, r) == [QueryTitleId(r.title)] + ([QueryCounts(id)] + afterCounts);
    }
    if !ok {
      return Some(Rejected);
    }
    var counts;
    ghost var b1 := db.budget;
    ok, counts := db.Counts(id);
    assert Run(t0, b1, [QueryCounts(id)] + afterCounts)
           == if ok then Run(t0, db.budget, afterCounts) else Outcome(t0, db.budget, true) by {
      RunCons(t0, b1, QueryCounts(id), afterCounts);
    }
    if !ok {
      return Some(Rejected);
    }
    ghost var b2 := db.budget;
    ok := db.Exec(DeleteLinks(id));
    assert Run(t0, b2, afterCounts)
           == if ok then Run(db.tables, db.budget, afterDelete) else Outcome(t0, db.budget, true) by {
      RunCons(t0, b2, DeleteLinks(id), afterDelete);
    }
    if !ok {
      return Some(Rejected);
    }
    ghost var t3 := db.tables;
    ghost var b3 := db.budget;
    ok := db.Exec(DeleteTitle(id));
    assert Run(t3, b3, afterDelete)
           == if ok then Run(db.tables, db.budget, moves) else Outcome(t3, db.budget, true) by {
      RunCons(t3, b3, DeleteTitle(id), moves);
    }
    if !ok {
      return Some(Rejected);
    }
    ok := MoveCounts(db, counts, r.target);
    if !ok {
      return Some(Rejected);
    }
    return None;
  }

  /** `StoreRedirects` (`internal/storage`): the redirects in slice order in
      one transaction, a missing title skipped. On a failed statement the
      error is returned and the transaction is left open, uncommitted. */
  method StoreRedirects(db: Db, redirs: seq<Pages.Redirect>) returns (err: Option<Error>)
    requires db.Valid() && !db.inTx
    modifies db
    ensures db.Valid()
    ensures var o := RedirectAll(old(db.tables), old(db.budget), redirs, false);
      if o.err.Some? then
        err == o.err && db.inTx && db.tables == o.tables && db.budget == o.budget && db.committed == old(db.committed)
      else
        !db.inTx && db.budget == Spend(o.budget)
        && (if CanRun(o.budget) then err == None && db.committed == o.tables
            else err == Some(Rejected) && db.committed == old(db.committed))
  {
    ghost var t0 := db.tables;
    ghost var b0 := db.budget;
    db.Begin();
    var i := 0;
    while i < |redirs|
      invariant 0 <= i <= |redirs|
      invariant db.Valid() && db.inTx && db.committed == t0
      invariant RedirectAll(t0, b0, redirs, false) == RedirectAll(db.tables, db.budget, redirs[i..], false)
    {
      assert redirs[i..][0] == redirs[i] && redirs[i..][1..] == redirs[i + 1..];
      var e := RedirectOne(db, redirs[i], false);
      if e.Some? {
        return e;
      }
      i := i + 1;
    }
    var ok := db.Commit();
    err := if ok then None else Some(Rejected);
  }

  /** The redirects of a map, visited in `order` (Go leaves it unspecified). */
  function MapRedirects(redirs: map<Str, Str>, order: seq<Str>): (rs: seq<Pages.Redirect>)
    requires forall k :: k in order ==> k in redirs
    ensures |rs| == |order|
    ensures forall i :: 0 <= i < |order| ==> rs[i] == Pages.Redirect(order[i], redirs[order[i]])
  {
    seq(|order|, i requires 0 <= i < |order| => Pages.Redirect(order[i], redirs[order[i]]))
  }

  /** `ProcessRedirects` (`storage`): each map entry once, with no
      transaction; a missing title is `sql.ErrNoRows`, and every error is
      returned at once, leaving the statements run so far in effect. */
  method ProcessRedirects(db: Db, redirs: map<Str, Str>, order: seq<Str>) returns (err: Option<Error>)
    requires db.Valid() && !db.inTx
    requires forall k :: k in redirs <==> k in order
    requires forall i, j :: 0 <= i < j < |order| ==> order[i] != order[j]
    modifies db
    ensures db.Valid() && !db.inTx
    ensures RedirectAll(old(db.tables), old(db.budget), MapRedirects(redirs, order), true)
            == Result(db.tables, db.budget, err)
  {
    var rs := MapRedirects(redirs, order);
    ghost var t0 := db.tables;
    ghost var b0 := db.budget;
    var i := 0;
    while i < |order|
      invariant 0 <= i <= |order|
      invariant db.Valid() && !db.inTx
      invariant RedirectAll(t0, b0, rs, true) == RedirectAll(db.tables, db.budget, rs[i..], true)
    {
      assert rs[i..][0] == rs[i] && rs[i..][1..] == rs[i + 1..];
      var from := order[i];
      var e := RedirectOne(db, Pages.Redirect(from, redirs[from]), true);
      if e.Some? {
        return e;
      }
      i := i + 1;
    }
    return None;
  }
}
