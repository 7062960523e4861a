/** The SQLite tables a semanticizer model keeps its link statistics in,
    held in memory: `titles` (an integer primary key and a unique title),
    `linkstats` (an n-gram hash, the id of a target title and a count,
    unique per hash and target) and `ngramfreq` (the cells of the n-gram
    count matrix). A table is the sequence of its rows in rowid order.
    The statements the storage code prepares become a datatype, and what
    each does to the tables a function. */
module Tables {
  import opened Text

  datatype TitleRow = TitleRow(id: int, title: Str)
  datatype LinkRow = LinkRow(hash: int, target: int, count: real)
  datatype CellRow = CellRow(row: int, col: int, count: int)

  datatype Tables = Tables(titles: seq<TitleRow>, linkstats: seq<LinkRow>, ngramfreq: seq<CellRow>)

  /** `(hash, count)` as `select ngramhash, count from linkstats` returns it. */
  datatype LinkCount = LinkCount(hash: int, count: real)

  /** The statements of the storage code, queries included. */
  datatype Stmt =
    | QueryTitleId(title: Str)              // select id from titles where title = ?
    | QueryCounts(id: int)                  // select ngramhash, count from linkstats where targetid = ?
    | DeleteLinks(id: int)                  // delete from linkstats where targetid = ?
    | DeleteTitle(id: int)                  // delete from titles where id = ?
    | InsertTitle(title: Str)               // insert or ignore into titles values (NULL, ?)
    | InsertLink(hash: int, title: Str)     // insert or ignore into linkstats values (?, (select id ...), 0)
    | AddCount(amount: real, title: Str, hash: int)  // update linkstats set count = count + ? where ...
    | InsertCell(i: int, j: int, value: int)       // insert into ngramfreq values (?, ?, ?)
    | QueryShape                            // select max(row) + 1, max(col) + 1 from ngramfreq
    | QueryCells                            // select row, col, count from ngramfreq
    | Commit

  // ---------------------------------------------------------------- titles

  /** `select id from titles where title = ?`. */
  function IdOf(ts: seq<TitleRow>, title: Str): Option<int> {
    if ts == [] then None
    else if ts[|ts| - 1].title == title then Some(ts[|ts| - 1].id)
    else IdOf(ts[..|ts| - 1], title)
  }

  /** Ids ascend in rowid order, and titles are unique. */
  predicate TitlesOk(ts: seq<TitleRow>) {
    (forall i, j :: 0 <= i < j < |ts| ==> ts[i].id < ts[j].id)
    && (forall i, j :: 0 <= i < j < |ts| ==> ts[i].title != ts[j].title)
  }

  predicate HasId(ts: seq<TitleRow>, id: int) {
    exists r :: r in ts && r.id == id
  }

  /** The id SQLite gives a row inserted with a NULL integer primary key:
      one more than the largest id, or 1 in an empty table. */
  function FreshId(ts: seq<TitleRow>): int {
    if ts == [] then 1 else ts[|ts| - 1].id + 1
  }

  function InsertTitleRow(ts: seq<TitleRow>, title: Str): seq<TitleRow> {
    if IdOf(ts, title).Some? then ts else ts + [TitleRow(FreshId(ts), title)]
  }

  function DeleteTitleRow(ts: seq<TitleRow>, id: int): seq<TitleRow> {
    if ts == [] then []
    else DeleteTitleRow(ts[..|ts| - 1], id) + (if ts[|ts| - 1].id == id then [] else [ts[|ts| - 1]])
  }

  /** The id a title has once `insert or ignore` has run for it. */
  function TargetId(ts: seq<TitleRow>, title: Str): int {
    match IdOf(ts, title)
    case Some(id) => id
    case None => FreshId(ts)
  }

  /** `IdOf` finds a title exactly when some row holds it. */
  lemma {:induction false} IdOfFound(ts: seq<TitleRow>, title: Str)
    ensures IdOf(ts, title).None? <==> forall r :: r in ts ==> r.title != title
    ensures IdOf(ts, title).Some? ==> TitleRow(IdOf(ts, title).value, title) in ts
  {
    if ts != [] {
      var front := ts[..|ts| - 1];
      IdOfFound(front, title);
      assert ts == front + [ts[|ts| - 1]];
    }
  }

  /** In a well-formed table a title has the id of its row. */
  lemma IdOfMember(ts: seq<TitleRow>, title: Str, id: int)
    requires TitlesOk(ts)
    ensures IdOf(ts, title) == Some(id) <==> TitleRow(id, title) in ts
  {
    IdOfFound(ts, title);
    if TitleRow(id, title) in ts {
      var k :| 0 <= k < |ts| && ts[k] == TitleRow(id, title);
      var j :| 0 <= j < |ts| && ts[j] == TitleRow(IdOf(ts, title).value, title);
      assert j == k;
    }
  }

  /** In a well-formed table no two titles share an id. */
  lemma IdOfInjective(ts: seq<TitleRow>, x: Str, y: Str, id: int)
    requires TitlesOk(ts) && IdOf(ts, x) == Some(id) && IdOf(ts, y) == Some(id)
    ensures x == y
  {
    IdOfMember(ts, x, id);
    IdOfMember(ts, y, id);
    var i :| 0 <= i < |ts| && ts[i] == TitleRow(id, x);
    var j :| 0 <= j < |ts| && ts[j] == TitleRow(id, y);
    assert i == j;
  }

  lemma FreshAbove(ts: seq<TitleRow>)
    requires TitlesOk(ts)
    ensures forall r :: r in ts ==> r.id < FreshId(ts)
  {
    forall r | r in ts ensures r.id < FreshId(ts) {
      var k :| 0 <= k < |ts| && ts[k] == r;
    }
  }

  lemma InsertTitleOk(ts: seq<TitleRow>, title: Str)
    requires TitlesOk(ts)
    ensures TitlesOk(InsertTitleRow(ts, title))
    ensures IdOf(InsertTitleRow(ts, title), title) == Some(TargetId(ts, title))
    ensures forall x :: x != title ==> IdOf(InsertTitleRow(ts, title), x) == IdOf(ts, x)
    ensures forall r :: r in InsertTitleRow(ts, title) <==> r in ts || (IdOf(ts, title).None? && r == TitleRow(FreshId(ts), title))
  {
    if IdOf(ts, title).None? {
      var ts' := ts + [TitleRow(FreshId(ts), title)];
      IdOfFound(ts, title);
      FreshAbove(ts);
      assert ts'[..|ts|] == ts;
      forall i, j | 0 <= i < j < |ts'| ensures ts'[i].id < ts'[j].id && ts'[i].title != ts'[j].title {
        if j == |ts| { assert ts'[i] in ts; }
      }
    }
  }

  /** The rows left after a delete are those with another id. */
  lemma {:induction false} DeleteTitleRows(ts: seq<TitleRow>, id: int)
    ensures forall r :: r in DeleteTitleRow(ts, id) <==> r in ts && r.id != id
  {
    if ts != [] {
      var front := ts[..|ts| - 1];
      DeleteTitleRows(front, id);
      assert ts == front + [ts[|ts| - 1]];
    }
  }

  lemma {:induction false} DeleteTitleSorted(ts: seq<TitleRow>, id: int)
    requires TitlesOk(ts)
    ensures TitlesOk(DeleteTitleRow(ts, id))
  {
    if ts != [] {
      var front := ts[..|ts| - 1];
      var last := ts[|ts| - 1];
      assert TitlesOk(front);
      DeleteTitleSorted(front, id);
      DeleteTitleRows(front, id);
      var d := DeleteTitleRow(front, id);
      if last.id != id {
        var r := d + [last];
        forall i, j | 0 <= i < j < |r| ensures r[i].id < r[j].id && r[i].title != r[j].title {
          if j == |d| {
            assert r[i] in front;
            var k :| 0 <= k < |front| && front[k] == r[i];
          }
        }
      }
    }
  }

  /** Deleting a row keeps the table well formed and forgets exactly the
      title whose id it was. */
  lemma DeleteTitleOk(ts: seq<TitleRow>, id: int)
    requires TitlesOk(ts)
    ensures TitlesOk(DeleteTitleRow(ts, id))
    ensures forall x :: IdOf(DeleteTitleRow(ts, id), x) == if IdOf(ts, x) == Some(id) then None else IdOf(ts, x)
    ensures forall r :: r in DeleteTitleRow(ts, id) <==> r in ts && r.id != id
  {
    var d := DeleteTitleRow(ts, id);
    DeleteTitleRows(ts, id);
    DeleteTitleSorted(ts, id);
    forall x ensures IdOf(d, x) == if IdOf(ts, x) == Some(id) then None else IdOf(ts, x) {
      IdOfFound(ts, x);
      IdOfFound(d, x);
      if IdOf(ts, x).Some? {
        IdOfMember(ts, x, IdOf(ts, x).value);
        if IdOf(d, x).Some? {
          IdOfMember(ts, x, IdOf(d, x).value);
        }
      }
    }
  }

  // ------------------------------------------------------------- linkstats

  /** The `linkstats` rows with a hash, and with a target id when one is given. */
  datatype Filter = Filter(hash: int, target: Option<int>)

  predicate Selects(f: Filter, r: LinkRow) {
    r.hash == f.hash && (f.target.None? || f.target.value == r.target)
  }

  /** The sum of the counts of the rows a filter selects. */
  function SumOf(ls: seq<LinkRow>, f: Filter): real {
    if ls == [] then 0.0
    else SumOf(ls[..|ls| - 1], f) + (if Selects(f, ls[|ls| - 1]) then ls[|ls| - 1].count else 0.0)
  }

  /** The count of `(hash, id)`, 0 when there is no such row or no id. */
  function CountAt(ls: seq<LinkRow>, hash: int, id: Option<int>): real {
    if id.None? then 0.0 else SumOf(ls, Filter(hash, id))
  }

  /** The unique index on `(ngramhash, targetid)`. */
  predicate LinksUnique(ls: seq<LinkRow>) {
    forall i, j :: 0 <= i < j < |ls| ==> ls[i].hash != ls[j].hash || ls[i].target != ls[j].target
  }

  predicate HasLink(ls: seq<LinkRow>, hash: int, id: int) {
    exists r :: r in ls && r.hash == hash && r.target == id
  }

  /** `insert or ignore into linkstats values (?, (select id from titles where title = ?), 0)`:
      nothing when the title is missing (the NULL id breaks `not NULL`) or
      the pair is already there. */
  function InsertLinkRow(ls: seq<LinkRow>, ts: seq<TitleRow>, hash: int, title: Str): seq<LinkRow> {
    match IdOf(ts, title)
    case None => ls
    case Some(id) => if HasLink(ls, hash, id) then ls else ls + [LinkRow(hash, id, 0.0)]
  }

  /** `update linkstats set count = count + ? where ngramhash = ? and targetid = ?`. */
  function AddTo(ls: seq<LinkRow>, hash: int, id: int, c: real): (r: seq<LinkRow>)
    ensures |r| == |ls|
  {
    if ls == [] then []
    else
      var last := ls[|ls| - 1];
      AddTo(ls[..|ls| - 1], hash, id, c)
      + [if last.hash == hash && last.target == id then last.(count := last.count + c) else last]
  }

  /** `delete from linkstats where targetid = ?`. */
  function DeleteLinkRows(ls: seq<LinkRow>, id: int): seq<LinkRow> {
    if ls == [] then []
    else DeleteLinkRows(ls[..|ls| - 1], id) + (if ls[|ls| - 1].target == id then [] else [ls[|ls| - 1]])
  }

  /** `select ngramhash, count from linkstats where targetid = ?`, in table order. */
  function CountsOf(ls: seq<LinkRow>, id: int): seq<LinkCount> {
    if ls == [] then []
    else
      var last := ls[|ls| - 1];
      CountsOf(ls[..|ls| - 1], id) + (if last.target == id then [LinkCount(last.hash, last.count)] else [])
  }

  /** The sum of the counts for one hash in a list of link counts. */
  function CountsSum(cs: seq<LinkCount>, hash: int): real {
    if cs == [] then 0.0
    else CountsSum(cs[..|cs| - 1], hash) + (if cs[|cs| - 1].hash == hash then cs[|cs| - 1].count else 0.0)
  }

  lemma SumSnoc(ls: seq<LinkRow>, r: LinkRow, f: Filter)
    ensures SumOf(ls + [r], f) == SumOf(ls, f) + (if Selects(f, r) then r.count else 0.0)
  {
    assert (ls + [r])[..|ls|] == ls;
  }

  lemma CountsSumSnoc(cs: seq<LinkCount>, c: LinkCount, hash: int)
    ensures CountsSum(cs + [c], hash) == CountsSum(cs, hash) + (if c.hash == hash then c.count else 0.0)
  {
    assert (cs + [c])[..|cs|] == cs;
  }

  /** Under the unique index the update adds its amount to the one row it
      matches, if there is one. */
  lemma {:induction false} SumAddTo(ls: seq<LinkRow>, hash: int, id: int, c: real, f: Filter)
    requires LinksUnique(ls)
    ensures SumOf(AddTo(ls, hash, id, c), f)
            == SumOf(ls, f) + (if Selects(f, LinkRow(hash, id, 0.0)) && HasLink(ls, hash, id) then c else 0.0)
  {
    if ls != [] {
      var front := ls[..|ls| - 1];
      var last := ls[|ls| - 1];
      assert LinksUnique(front);
      var hit := last.hash == hash && last.target == id;
      var last' := if hit then last.(count := last.count + c) else last;
      var a := AddTo(front, hash, id, c);
      assert SumOf(AddTo(ls, hash, id, c), f) == SumOf(a, f) + (if Selects(f, last) then last'.count else 0.0) by {
        assert AddTo(ls, hash, id, c) == a + [last'];
        SumSnoc(a, last', f);
      }
      SumAddTo(front, hash, id, c, f);
      LastLink(ls, hash, id);
    }
  }

  /** Under the unique index the last row holds a pair only if no earlier row does. */
  lemma LastLink(ls: seq<LinkRow>, hash: int, id: int)
    requires LinksUnique(ls) && ls != []
    ensures var last := ls[|ls| - 1];
      HasLink(ls, hash, id) == (HasLink(ls[..|ls| - 1], hash, id) || (last.hash == hash && last.target == id))
      && (last.hash == hash && last.target == id ==> !HasLink(ls[..|ls| - 1], hash, id))
  {
    var front := ls[..|ls| - 1];
    assert ls == front + [ls[|ls| - 1]];
    forall r | r in front ensures r.hash != ls[|ls| - 1].hash || r.target != ls[|ls| - 1].target {
      var k :| 0 <= k < |front| && front[k] == r;
      assert ls[k] == r;
    }
  }

  /** Deleting the rows of a target takes their counts out of every sum. */
  lemma {:induction false} SumDelete(ls: seq<LinkRow>, id: int, f: Filter)
    ensures SumOf(DeleteLinkRows(ls, id), f)
            == SumOf(ls, f) - (if f.target.None? || f.target == Some(id) then SumOf(ls, Filter(f.hash, Some(id))) else 0.0)
  {
    if ls != [] {
      var front := ls[..|ls| - 1];
      SumDelete(front, id, f);
      var d := DeleteLinkRows(front, id);
      var last := ls[|ls| - 1];
      var g := Filter(f.hash, Some(id));
      assert SumOf(ls, g) == SumOf(front, g) + (if Selects(g, last) then last.count else 0.0);
      if last.target != id {
        assert DeleteLinkRows(ls, id) == d + [last];
        SumSnoc(d, last, f);
      } else {
        assert DeleteLinkRows(ls, id) == d + [];
        assert d + [] == d;
      }
    }
  }

  /** The counts a query returns add up, hash by hash, to the target's counts. */
  lemma {:induction false} CountsOfSum(ls: seq<LinkRow>, id: int, hash: int)
    ensures CountsSum(CountsOf(ls, id), hash) == SumOf(ls, Filter(hash, Some(id)))
  {
    if ls != [] {
      var front := ls[..|ls| - 1];
      var last := ls[|ls| - 1];
      CountsOfSum(front, id, hash);
      if last.target == id {
        CountsSumSnoc(CountsOf(front, id), LinkCount(last.hash, last.count), hash);
      } else {
        assert CountsOf(ls, id) == CountsOf(front, id) + [];
        assert CountsOf(front, id) + [] == CountsOf(front, id);
      }
    }
  }

  /** A target no row refers to has nothing to count. */
  lemma {:induction false} SumAbsent(ls: seq<LinkRow>, id: int, hash: int)
    requires forall r :: r in ls ==> r.target != id
    ensures SumOf(ls, Filter(hash, Some(id))) == 0.0
    ensures CountsOf(ls, id) == []
  {
    if ls != [] {
      var front := ls[..|ls| - 1];
      assert forall r :: r in front ==> r in ls;
      SumAbsent(front, id, hash);
    }
  }

  lemma {:induction false} DeleteLinkRowsMembers(ls: seq<LinkRow>, id: int)
    ensures forall r :: r in DeleteLinkRows(ls, id) <==> r in ls && r.target != id
  {
    if ls != [] {
      var front := ls[..|ls| - 1];
      DeleteLinkRowsMembers(front, id);
      assert ls == front + [ls[|ls| - 1]];
    }
  }

  lemma {:induction false} DeleteLinksUnique(ls: seq<LinkRow>, id: int)
    requires LinksUnique(ls)
    ensures LinksUnique(DeleteLinkRows(ls, id))
  {
    if ls != [] {
      var front := ls[..|ls| - 1];
      var last := ls[|ls| - 1];
      assert LinksUnique(front);
      DeleteLinksUnique(front, id);
      DeleteLinkRowsMembers(front, id);
      var d := DeleteLinkRows(front, id);
      if last.target != id {
        var r := d + [last];
        forall i, j | 0 <= i < j < |r| ensures r[i].hash != r[j].hash || r[i].target != r[j].target {
          if j == |d| {
            assert r[i] in front;
            var k :| 0 <= k < |front| && front[k] == r[i];
          }
        }
      }
    }
  }

  /** The update changes counts only: every row keeps its hash and target. */
  lemma {:induction false} AddToKeys(ls: seq<LinkRow>, hash: int, id: int, c: real)
    ensures forall k :: 0 <= k < |ls| ==> AddTo(ls, hash, id, c)[k].hash == ls[k].hash && AddTo(ls, hash, id, c)[k].target == ls[k].target
  {
    if ls != [] {
      AddToKeys(ls[..|ls| - 1], hash, id, c);
    }
  }

  lemma AddToUnique(ls: seq<LinkRow>, hash: int, id: int, c: real)
    requires LinksUnique(ls)
    ensures LinksUnique(AddTo(ls, hash, id, c))
    ensures forall r :: r in AddTo(ls, hash, id, c) ==> exists q :: q in ls && q.hash == r.hash && q.target == r.target
  {
    AddToKeys(ls, hash, id, c);
    var a := AddTo(ls, hash, id, c);
    forall r | r in a ensures exists q :: q in ls && q.hash == r.hash && q.target == r.target {
      var k :| 0 <= k < |a| && a[k] == r;
      assert ls[k] in ls;
    }
  }

  lemma InsertLinkOk(ls: seq<LinkRow>, ts: seq<TitleRow>, hash: int, title: Str)
    requires LinksUnique(ls)
    ensures LinksUnique(InsertLinkRow(ls, ts, hash, title))
    ensures forall f :: SumOf(InsertLinkRow(ls, ts, hash, title), f) == SumOf(ls, f)
    ensures IdOf(ts, title).Some? ==> HasLink(InsertLinkRow(ls, ts, hash, title), hash, IdOf(ts, title).value)
    ensures forall r :: r in InsertLinkRow(ls, ts, hash, title) ==> r in ls || (r.hash == hash && Some(r.target) == IdOf(ts, title))
  {
    if IdOf(ts, title).Some? && !HasLink(ls, hash, IdOf(ts, title).value) {
      var r := LinkRow(hash, IdOf(ts, title).value, 0.0);
      var ls' := ls + [r];
      forall f ensures SumOf(ls', f) == SumOf(ls, f) { SumSnoc(ls, r, f); }
      assert r in ls';
      forall i, j | 0 <= i < j < |ls'| ensures ls'[i].hash != ls'[j].hash || ls'[i].target != ls'[j].target {
        if j == |ls| { assert ls'[i] in ls; }
      }
    }
  }

  // ------------------------------------------------------------ statements

  predicate TablesOk(t: Tables) {
    TitlesOk(t.titles) && LinksUnique(t.linkstats)
  }

  /** Every `linkstats` row refers to a title that exists. */
  predicate Resolves(t: Tables) {
    forall r :: r in t.linkstats ==> HasId(t.titles, r.target)
  }

  /** What a statement does to the tables; queries and commits change nothing. */
  function Apply(t: Tables, s: Stmt): Tables {
    match s
    case DeleteLinks(id) => t.(linkstats := DeleteLinkRows(t.linkstats, id))
    case DeleteTitle(id) => t.(titles := DeleteTitleRow(t.titles, id))
    case InsertTitle(title) => t.(titles := InsertTitleRow(t.titles, title))
    case InsertLink(hash, title) => t.(linkstats := InsertLinkRow(t.linkstats, t.titles, hash, title))
    case AddCount(c, title, hash) =>
      (match IdOf(t.titles, title)
       case None => t
       case Some(id) => t.(linkstats := AddTo(t.linkstats, hash, id, c)))
    case InsertCell(i, j, v) => t.(ngramfreq := t.ngramfreq + [CellRow(i, j, v)])
    case _ => t
  }

  lemma ApplyOk(t: Tables, s: Stmt)
    requires TablesOk(t)
    ensures TablesOk(Apply(t, s))
  {
    match s
    case DeleteLinks(id) => DeleteLinksUnique(t.linkstats, id);
    case DeleteTitle(id) => DeleteTitleSorted(t.titles, id);
    case InsertTitle(title) => InsertTitleOk(t.titles, title);
    case InsertLink(hash, title) => InsertLinkOk(t.linkstats, t.titles, hash, title);
    case AddCount(c, title, hash) =>
      if IdOf(t.titles, title).Some? {
        AddToUnique(t.linkstats, hash, IdOf(t.titles, title).value, c);
      }
    case _ =>
  }

  /** The database's faults: with budget `Some(k)` it carries out the next
      `k` statements, rejects the one after them, and carries out every one
      after that; with `None` it rejects nothing. */
  predicate CanRun(budget: Option<nat>) {
    budget != Some(0)
  }

  /** The budget once one more statement has been tried. */
  function Spend(budget: Option<nat>): Option<nat> {
    if budget.Some? && budget.value > 0 then Some(budget.value - 1) else None
  }

  /** The tables and budget after a run of statements, and whether one was rejected. */
  datatype Outcome = Outcome(tables: Tables, budget: Option<nat>, failed: bool)

  /** Statements carried out in order until the database rejects one, and
      the budget once that one has been tried. */
  function Run(t: Tables, budget: Option<nat>, ss: seq<Stmt>): Outcome
    decreases |ss|
  {
    if ss == [] then Outcome(t, budget, false)
    else if !CanRun(budget) then Outcome(t, Spend(budget), true)
    else Run(Apply(t, ss[0]), Spend(budget), ss[1..])
  }

  lemma RunCons(t: Tables, budget: Option<nat>, s: Stmt, rest: seq<Stmt>)
    ensures Run(t, budget, [s] + rest)
            == if CanRun(budget) then Run(Apply(t, s), Spend(budget), rest) else Outcome(t, Spend(budget), true)
  {
    assert ([s] + rest)[0] == s && ([s] + rest)[1..] == rest;
  }

  /** One more statement after a run nothing rejected. */
  lemma RunSnoc(t: Tables, budget: Option<nat>, ss: seq<Stmt>, s: Stmt)
    requires !Run(t, budget, ss).failed
    ensures var o := Run(t, budget, ss);
      Run(t, budget, ss + [s])
      == if CanRun(o.budget) then Outcome(Apply(o.tables, s), Spend(o.budget), false) else Outcome(o.tables, Spend(o.budget), true)
  {
    var o := Run(t, budget, ss);
    RunConcat(t, budget, ss, [s]);
    RunCons(o.tables, o.budget, s, []);
    assert [s] + [] == [s];
  }

  /** Once a run is rejected, statements after it change nothing. */
  lemma RunPrefixFailed(t: Tables, budget: Option<nat>, xs: seq<Stmt>, ys: seq<Stmt>)
    requires xs <= ys && Run(t, budget, xs).failed
    ensures Run(t, budget, ys) == Run(t, budget, xs)
  {
    assert ys == xs + ys[|xs|..];
    RunConcat(t, budget, xs, ys[|xs|..]);
  }

  /** The tables after every statement has been carried out. */
  function ApplyAll(t: Tables, ss: seq<Stmt>): Tables {
    Run(t, None, ss).tables
  }

  lemma {:induction false} RunConcat(t: Tables, budget: Option<nat>, xs: seq<Stmt>, ys: seq<Stmt>)
    ensures Run(t, budget, xs + ys)
            == var o := Run(t, budget, xs); if o.failed then o else Run(o.tables, o.budget, ys)
    decreases |xs|
  {
    if xs == [] {
      assert xs + ys == ys;
    } else if CanRun(budget) {
      assert (xs + ys)[0] == xs[0] && (xs + ys)[1..] == xs[1..] + ys;
      RunConcat(Apply(t, xs[0]), Spend(budget), xs[1..], ys);
    }
  }

  /** A run nothing rejects does what the statements do. */
  lemma {:induction false} RunOk(t: Tables, budget: Option<nat>, ss: seq<Stmt>)
    requires !Run(t, budget, ss).failed
    ensures Run(t, budget, ss).tables == ApplyAll(t, ss)
    decreases |ss|
  {
    if ss != [] {
      RunOk(Apply(t, ss[0]), Spend(budget), ss[1..]);
    }
  }

  lemma {:induction false} RunKeepsOk(t: Tables, budget: Option<nat>, ss: seq<Stmt>)
    requires TablesOk(t)
    ensures TablesOk(Run(t, budget, ss).tables)
    decreases |ss|
  {
    if ss != [] && CanRun(budget) {
      ApplyOk(t, ss[0]);
      RunKeepsOk(Apply(t, ss[0]), Spend(budget), ss[1..]);
    }
  }

  /** With no budget limit nothing is rejected. */
  lemma {:induction false} RunUnlimited(t: Tables, ss: seq<Stmt>)
    ensures !Run(t, None, ss).failed && Run(t, None, ss).budget == None
    decreases |ss|
  {
    if ss != [] {
      RunUnlimited(Apply(t, ss[0]), ss[1..]);
    }
  }

  lemma ApplyAllConcat(t: Tables, xs: seq<Stmt>, ys: seq<Stmt>)
    ensures ApplyAll(t, xs + ys) == ApplyAll(ApplyAll(t, xs), ys)
  {
    RunConcat(t, None, xs, ys);
    RunUnlimited(t, xs);
  }

  // --------------------------------------------------------- moving counts

  /** The three statements that add one link count to a target title:
      insert the title, insert the `(hash, target)` row at 0, add the count. */
  function MoveOne(c: LinkCount, to: Str): seq<Stmt> {
    [InsertTitle(to), InsertLink(c.hash, to), AddCount(c.count, to, c.hash)]
  }

  function MoveStmts(cs: seq<LinkCount>, to: Str): seq<Stmt> {
    if cs == [] then [] else MoveStmts(cs[..|cs| - 1], to) + MoveOne(cs[|cs| - 1], to)
  }

  lemma ApplyThree(t: Tables, a: Stmt, b: Stmt, c: Stmt)
    ensures ApplyAll(t, [a, b, c]) == Apply(Apply(Apply(t, a), b), c)
  {
    var ss := [a, b, c];
    assert ss[1..] == [b, c] && ss[1..][1..] == [c] && ss[1..][1..][1..] == [];
    var t1 := Apply(t, a);
    var t2 := Apply(t1, b);
    assert Run(t, None, ss) == Run(t1, None, [b, c]);
    assert Run(t1, None, [b, c]) == Run(t2, None, [c]);
    assert Run(t2, None, [c]) == Run(Apply(t2, c), None, []);
  }

  /** One count moved: the title is there, the tables stay well formed and
      every row still refers to a title. */
  lemma MoveOneEffect(t: Tables, c: LinkCount, to: Str)
    requires TablesOk(t)
    ensures var t' := ApplyAll(t, MoveOne(c, to));
      TablesOk(t') && t'.titles == InsertTitleRow(t.titles, to) && t'.ngramfreq == t.ngramfreq
      && (Resolves(t) ==> Resolves(t'))
  {
    var id := TargetId(t.titles, to);
    var t1 := Apply(t, InsertTitle(to));
    var t2 := Apply(t1, InsertLink(c.hash, to));
    var t3 := Apply(t2, AddCount(c.count, to, c.hash));
    assert ApplyAll(t, MoveOne(c, to)) == t3 by {
      ApplyThree(t, InsertTitle(to), InsertLink(c.hash, to), AddCount(c.count, to, c.hash));
    }
    InsertTitleOk(t.titles, to);
    InsertLinkOk(t1.linkstats, t1.titles, c.hash, to);
    AddToUnique(t2.linkstats, c.hash, id, c.count);
    assert TablesOk(t3) && t3.titles == InsertTitleRow(t.titles, to) && t3.ngramfreq == t.ngramfreq;
    if Resolves(t) {
      MoveOneResolves(t, t1, t2, t3, c, to);
    }
  }

  /** One count moved: the sums of exactly the rows of its hash and the
      target title grow by the count. */
  lemma MoveOneSum(t: Tables, c: LinkCount, to: Str, f: Filter)
    requires TablesOk(t)
    ensures SumOf(ApplyAll(t, MoveOne(c, to)).linkstats, f)
            == SumOf(t.linkstats, f) + (if Selects(f, LinkRow(c.hash, TargetId(t.titles, to), 0.0)) then c.count else 0.0)
  {
    var id := TargetId(t.titles, to);
    var t1 := Apply(t, InsertTitle(to));
    var t2 := Apply(t1, InsertLink(c.hash, to));
    var t3 := Apply(t2, AddCount(c.count, to, c.hash));
    assert ApplyAll(t, MoveOne(c, to)) == t3 by {
      ApplyThree(t, InsertTitle(to), InsertLink(c.hash, to), AddCount(c.count, to, c.hash));
    }
    assert IdOf(t1.titles, to) == Some(id) && TitlesOk(t1.titles) by { InsertTitleOk(t.titles, to); }
    assert SumOf(t2.linkstats, f) == SumOf(t.linkstats, f) && LinksUnique(t2.linkstats) && HasLink(t2.linkstats, c.hash, id) by {
      InsertLinkOk(t1.linkstats, t1.titles, c.hash, to);
    }
    assert t3.linkstats == AddTo(t2.linkstats, c.hash, id, c.count);
    SumAddTo(t2.linkstats, c.hash, id, c.count, f);
  }

  lemma MoveOneResolves(t: Tables, t1: Tables, t2: Tables, t3: Tables, c: LinkCount, to: Str)
    requires TablesOk(t) && Resolves(t)
    requires t1 == Apply(t, InsertTitle(to)) && t2 == Apply(t1, InsertLink(c.hash, to))
    requires t3 == Apply(t2, AddCount(c.count, to, c.hash))
    ensures Resolves(t3)
  {
    var id := TargetId(t.titles, to);
    InsertTitleOk(t.titles, to);
    InsertLinkOk(t1.linkstats, t1.titles, c.hash, to);
    AddToUnique(t2.linkstats, c.hash, id, c.count);
    assert t3.titles == t1.titles;
    forall r | r in t3.linkstats ensures HasId(t3.titles, r.target) {
      var q :| q in t2.linkstats && q.hash == r.hash && q.target == r.target;
      if q in t.linkstats {
        var w :| w in t.titles && w.id == q.target;
        assert w in t3.titles;
      } else {
        IdOfFound(t1.titles, to);
        assert TitleRow(id, to) in t3.titles;
      }
    }
  }

  /** Moving a list of counts onto a title inserts the title (if there is
      anything to move) and keeps the tables well formed. */
  lemma {:induction false} MoveEffect(t: Tables, cs: seq<LinkCount>, to: Str)
    requires TablesOk(t)
    ensures var t' := ApplyAll(t, MoveStmts(cs, to));
      TablesOk(t') && t'.titles == (if cs == [] then t.titles else InsertTitleRow(t.titles, to))
      && t'.ngramfreq == t.ngramfreq
      && (Resolves(t) ==> Resolves(t'))
  {
    if cs != [] {
      var front := cs[..|cs| - 1];
      var c := cs[|cs| - 1];
      MoveEffect(t, front, to);
      var t1 := ApplyAll(t, MoveStmts(front, to));
      ApplyAllConcat(t, MoveStmts(front, to), MoveOne(c, to));
      MoveOneEffect(t1, c, to);
      InsertTitleOk(t.titles, to);
    }
  }

  /** Moving a list of counts onto a title: the sum of the rows a filter
      selects grows by the counts moved for its hash when it selects the
      target's rows, and not at all otherwise. */
  lemma {:induction false} MoveSum(t: Tables, cs: seq<LinkCount>, to: Str, f: Filter)
    requires TablesOk(t)
    ensures SumOf(ApplyAll(t, MoveStmts(cs, to)).linkstats, f)
            == SumOf(t.linkstats, f)
               + (if f.target.None? || f.target == Some(TargetId(t.titles, to)) then CountsSum(cs, f.hash) else 0.0)
  {
    if cs != [] {
      var front := cs[..|cs| - 1];
      var c := cs[|cs| - 1];
      var id := TargetId(t.titles, to);
      var t1 := ApplyAll(t, MoveStmts(front, to));
      var t2 := ApplyAll(t, MoveStmts(cs, to));
      assert t2 == ApplyAll(t1, MoveOne(c, to)) by {
        ApplyAllConcat(t, MoveStmts(front, to), MoveOne(c, to));
      }
      assert TablesOk(t1) && TargetId(t1.titles, to) == id by {
        MoveEffect(t, front, to);
        InsertTitleOk(t.titles, to);
      }
      assert SumOf(t2.linkstats, f) == SumOf(t1.linkstats, f) + (if Selects(f, LinkRow(c.hash, id, 0.0)) then c.count else 0.0) by {
        MoveOneSum(t1, c, to, f);
      }
      MoveSum(t, front, to, f);
      assert CountsSum(cs, f.hash) == CountsSum(front, f.hash) + (if c.hash == f.hash then c.count else 0.0) by {
        assert cs == front + [c];
        CountsSumSnoc(front, c, f.hash);
      }
    }
  }
}
