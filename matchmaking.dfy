/** The `next_contest` query of critic/src/critic_sqlite/mod.rs over the first-generation
    store: pick a category, form every pair of entries linked to it with the smaller id
    first, drop the pairs already judged in that category, and return a pair whose ratings
    are closest. The category comes from `ORDER BY RANDOM()` in the source; here it is the
    parameter `pick`, an index into the `categories` table. */
module Matchmaking {
  import opened Sqlite
  import opened CategoryStore
  import opened Dto

  datatype Pair = Pair(first: int, second: int)

  /** `dto::Category` of the first-generation store. */
  datatype Category = Category(id: int, name: string)

  /** The contest the first-generation query reports. */
  datatype CategoryContest = CategoryContest(category: Category, a: Contestant, b: Contestant)

  predicate Linked(db: Db, entry: int, cat: int) {
    EntryCategoryRow(entry, cat) in db.entryCategories
  }

  /** A `match_history` row for category `cat` with `x` and `y` as winner and loser, in either order. */
  predicate Played(history: seq<HistoryRow>, cat: int, x: int, y: int) {
    exists h :: h in history && h.category == cat && ((h.winner == x && h.loser == y) || (h.winner == y && h.loser == x))
  }

  /** The conditions on a pair besides the two links: smaller id first, both entries
      present (`JOIN entries`), and no history row (`mh.id IS NULL`). */
  predicate Unplayed(db: Db, cat: int, p: Pair) {
    && p.first < p.second
    && EntryWithId(db.entries, p.first).Some?
    && EntryWithId(db.entries, p.second).Some?
    && !Played(db.matchHistory, cat, p.first, p.second)
  }

  /** A row of the `unevaluated_pairs` view for category `cat`. */
  predicate Eligible(db: Db, cat: int, p: Pair)
    ensures Eligible(db, cat, p) ==> p.first < p.second && BothEntries(db, p)
  {
    Linked(db, p.first, cat) && Linked(db, p.second, cat) && Unplayed(db, cat, p)
  }

  /** The pairs the join forms from link row `r1` and the link rows `rows`. */
  function PairsWith(db: Db, cat: int, r1: EntryCategoryRow, rows: seq<EntryCategoryRow>): (ps: seq<Pair>)
    ensures forall p :: p in ps <==>
      p.first == r1.entry && r1.category == cat && EntryCategoryRow(p.second, cat) in rows && Unplayed(db, cat, p)
  {
    if |rows| == 0 then []
    else
      var p := Pair(r1.entry, rows[0].entry);
      (if r1.category == cat && rows[0].category == cat && Unplayed(db, cat, p) then [p] else [])
        + PairsWith(db, cat, r1, rows[1..])
  }

  /** The `unevaluated_pairs` view: the self-join of `entry_categories` on the category. */
  function Unevaluated(db: Db, cat: int, rows: seq<EntryCategoryRow>): (ps: seq<Pair>)
    ensures forall p :: p in ps <==>
      EntryCategoryRow(p.first, cat) in rows && Linked(db, p.second, cat) && Unplayed(db, cat, p)
  {
    if |rows| == 0 then []
    else PairsWith(db, cat, rows[0], db.entryCategories) + Unevaluated(db, cat, rows[1..])
  }

  /** The view holds exactly the eligible pairs. */
  lemma UnevaluatedExactly(db: Db, cat: int, p: Pair)
    ensures p in Unevaluated(db, cat, db.entryCategories) <==> Eligible(db, cat, p)
  {
  }

  lemma {:induction false} PairsWithDistinct(db: Db, cat: int, r1: EntryCategoryRow, rows: seq<EntryCategoryRow>)
    requires Distinct(rows)
    ensures Distinct(PairsWith(db, cat, r1, rows))
  {
    if |rows| > 0 {
      DistinctTail(rows);
      PairsWithDistinct(db, cat, r1, rows[1..]);
      var p := Pair(r1.entry, rows[0].entry);
      DistinctAppend(
        if r1.category == cat && rows[0].category == cat && Unplayed(db, cat, p) then [p] else [],
        PairsWith(db, cat, r1, rows[1..]));
    }
  }

  /** `UNIQUE(entry_id, category_id)` makes every unordered pair a candidate at most once. */
  lemma {:induction false} UnevaluatedDistinct(db: Db, cat: int, rows: seq<EntryCategoryRow>)
    requires Distinct(db.entryCategories) && Distinct(rows)
    ensures Distinct(Unevaluated(db, cat, rows))
  {
    if |rows| > 0 {
      DistinctTail(rows);
      UnevaluatedDistinct(db, cat, rows[1..]);
      PairsWithDistinct(db, cat, rows[0], db.entryCategories);
      DistinctAppend(PairsWith(db, cat, rows[0], db.entryCategories), Unevaluated(db, cat, rows[1..]));
    }
  }

  function Abs(x: int): int {
    if x < 0 then -x else x
  }

  predicate BothEntries(db: Db, p: Pair) {
    EntryWithId(db.entries, p.first).Some? && EntryWithId(db.entries, p.second).Some?
  }

  /** `ABS(e1.elo - e2.elo) AS elo_distance`. */
  function Distance(db: Db, p: Pair): (d: nat)
    requires BothEntries(db, p)
    ensures d == Abs(EntryWithId(db.entries, p.first).value.elo - EntryWithId(db.entries, p.second).value.elo)
  {
    Abs(EntryWithId(db.entries, p.first).value.elo - EntryWithId(db.entries, p.second).value.elo)
  }

  /** `ORDER BY elo_distance ASC LIMIT 1`: a pair of least distance. The source leaves ties
      to the engine; this picks the first minimiser in join order. */
  function Closest(db: Db, ps: seq<Pair>): (r: Pair)
    requires |ps| > 0 && forall p :: p in ps ==> BothEntries(db, p)
    ensures r in ps
    ensures forall q :: q in ps ==> Distance(db, r) <= Distance(db, q)
  {
    if |ps| == 1 then ps[0]
    else
      var rest := Closest(db, ps[1..]);
      if Distance(db, ps[0]) <= Distance(db, rest) then ps[0] else rest
  }

  /** Every value the query reads fits the `i32` the row is read into. */
  predicate FitsI32(db: Db) {
    && (forall e :: e in db.entries ==> IsI32(e.id) && IsI32(e.elo))
    && (forall c :: c in db.categories ==> IsI32(c.id))
  }

  /** Every value the query reads has the type the closure reads it as. */
  ghost predicate Readable(db: Db) {
    FitsI32(db) && TextColumns(db)
  }

  /** The `query_row` closure: columns 0-2 are `a`, 3-5 are `b`, 6-7 the category. */
  function ContestFromRow(row: seq<Value>): (r: Result<CategoryContest>)
    ensures r.Ok? <==>
      && GetI32(row, 0).Ok? && GetString(row, 1).Ok? && GetI32(row, 2).Ok?
      && GetI32(row, 3).Ok? && GetString(row, 4).Ok? && GetI32(row, 5).Ok?
      && GetI32(row, 6).Ok? && GetString(row, 7).Ok?
    ensures r.Ok? ==> r.value == CategoryContest(
      Category(row[6].i, row[7].s),
      Contestant(row[0].i, row[1].s, row[2].i as real),
      Contestant(row[3].i, row[4].s, row[5].i as real))
  {
    var aId :- GetI32(row, 0);
    var aName :- GetString(row, 1);
    var aElo :- GetI32(row, 2);
    var bId :- GetI32(row, 3);
    var bName :- GetString(row, 4);
    var bElo :- GetI32(row, 5);
    var catId :- GetI32(row, 6);
    var catName :- GetString(row, 7);
    Ok(CategoryContest(Category(catId, catName), Contestant(aId, aName, aElo as real), Contestant(bId, bName, bElo as real)))
  }

  /** The result row: both entries and the category, joined by id, in `SELECT` order.
      Names and the category value reach the closure as the columns store them. */
  function ResultRow(e1: EntryRow, e2: EntryRow, c: CategoryRow): (row: seq<Value>)
    ensures |row| == 8
    ensures row[1] == e1.name && row[4] == e2.name && row[7] == c.value
    ensures forall k :: 0 <= k < 8 && k != 1 && k != 4 && k != 7 ==> row[k].Integer?
  {
    [Integer(e1.id), e1.name, Integer(e1.elo), Integer(e2.id), e2.name, Integer(e2.elo),
     Integer(c.id), c.value]
  }

  /** The result row of two entries and a category reads back as their contest exactly
      when every id and rating fits in `i32` and both names and the category value are TEXT. */
  lemma ResultRowRoundTrip(e1: EntryRow, e2: EntryRow, c: CategoryRow)
    ensures ContestFromRow(ResultRow(e1, e2, c)).Ok? <==>
      && IsI32(e1.id) && IsI32(e1.elo) && IsI32(e2.id) && IsI32(e2.elo) && IsI32(c.id)
      && e1.name.Text? && e2.name.Text? && c.value.Text?
    ensures ContestFromRow(ResultRow(e1, e2, c)).Ok? ==>
      ContestFromRow(ResultRow(e1, e2, c)).value == CategoryContest(
        Category(c.id, c.value.s),
        Contestant(e1.id, e1.name.s, e1.elo as real),
        Contestant(e2.id, e2.name.s, e2.elo as real))
  {
  }

  /** A first entry whose id fits but whose name is not TEXT fails at column 1. */
  lemma ResultRowNameUnreadable(e1: EntryRow, e2: EntryRow, c: CategoryRow)
    requires IsI32(e1.id) && !e1.name.Text?
    ensures ContestFromRow(ResultRow(e1, e2, c)) == Err(Sqlite(InvalidColumnType(1)))
  {
  }

  /** `next_contest` on the first-generation store. */
  function NextContest(db: Db, pick: nat): (r: Result<CategoryContest>)
    requires |db.categories| > 0 ==> pick < |db.categories|
    ensures |db.categories| == 0 ==> r == Err(Sqlite(QueryReturnedNoRows))
    ensures |db.categories| > 0 && (forall p :: !Eligible(db, db.categories[pick].id, p)) ==>
      r == Err(Sqlite(QueryReturnedNoRows))
    ensures |db.categories| > 0 && Readable(db) && (exists p :: Eligible(db, db.categories[pick].id, p)) ==> r.Ok?
    ensures r.Ok? ==>
      var cat := db.categories[pick].id;
      var p := Pair(r.value.a.id, r.value.b.id);
      && r.value.category.id == cat
      && Eligible(db, cat, p)
      && (forall q :: Eligible(db, cat, q) ==> Distance(db, p) <= Distance(db, q))
      && var e1 := EntryWithId(db.entries, p.first).value;
         var e2 := EntryWithId(db.entries, p.second).value;
         && e1.name == Text(r.value.a.name) && r.value.a == Contestant(e1.id, e1.name.s, e1.elo as real)
         && e2.name == Text(r.value.b.name) && r.value.b == Contestant(e2.id, e2.name.s, e2.elo as real)
         && CategoryRow(cat, Text(r.value.category.name)) in db.categories
  {
    if |db.categories| == 0 then Err(Sqlite(QueryReturnedNoRows))
    else
      var cat := db.categories[pick].id;
      var ps := Unevaluated(db, cat, db.entryCategories);
      if |ps| == 0 then
        assert forall p :: !Eligible(db, cat, p) by {
          forall p ensures !Eligible(db, cat, p) {
            UnevaluatedExactly(db, cat, p);
          }
        }
        Err(Sqlite(QueryReturnedNoRows))
      else
        assert ps[0] in ps && Eligible(db, cat, ps[0]);
        var p := Closest(db, ps);
        var e1 := EntryWithId(db.entries, p.first).value;
        var e2 := EntryWithId(db.entries, p.second).value;
        var c := CategoryWithId(db.categories, cat);
        assert db.categories[pick] in db.categories;
        ResultRowRoundTrip(e1, e2, c.value);
        ContestFromRow(ResultRow(e1, e2, c.value))
  }

  /** Once a judgment of a pair is recorded in a category, in either order, the pair is
      never proposed again in that category. */
  lemma NoRematch(db: Db, cat: int, p: Pair, winner: int, loser: int, adj: int)
    requires (winner, loser) == (p.first, p.second) || (winner, loser) == (p.second, p.first)
    ensures !Eligible(db.(matchHistory := db.matchHistory + [HistoryRow(cat, winner, loser, adj)]), cat, p)
  {
    var h := HistoryRow(cat, winner, loser, adj);
    assert h in db.matchHistory + [h];
  }

  /** When one eligible pair is strictly closer than every other, the query returns
      exactly that pair, with both titles' names and ratings. */
  lemma UniqueClosestChosen(db: Db, pick: nat, p: Pair)
    requires |db.categories| > 0 && pick < |db.categories| && Readable(db)
    requires Eligible(db, db.categories[pick].id, p)
    requires forall q :: Eligible(db, db.categories[pick].id, q) && q != p ==> Distance(db, p) < Distance(db, q)
    ensures NextContest(db, pick).Ok?
    ensures var r := NextContest(db, pick).value;
      var e1 := EntryWithId(db.entries, p.first).value;
      var e2 := EntryWithId(db.entries, p.second).value;
      && e1.name == Text(r.a.name) && r.a == Contestant(e1.id, e1.name.s, e1.elo as real)
      && e2.name == Text(r.b.name) && r.b == Contestant(e2.id, e2.name.s, e2.elo as real)
  {
    var r := NextContest(db, pick);
    assert r.Ok?;
    var q := Pair(r.value.a.id, r.value.b.id);
    assert Distance(db, q) <= Distance(db, p);
    assert q == p;
  }

  /** With the schema as written, a store whose titles were saved with numeric names
      ("1984", "2001" in "Novels", stored as INTEGERs by `SavedNumericTitle`) has an
      eligible pair, yet `next_contest` fails reading the first name. */
  lemma NumericTitlesUnreadable()
    ensures var db := Db(
        [EntryRow(1, Integer(1984), DEFAULT_ELO), EntryRow(2, Integer(2001), DEFAULT_ELO)],
        [CategoryRow(1, Text("Novels"))],
        [EntryCategoryRow(1, 1), EntryCategoryRow(2, 1)],
        [],
        NumericAffinity);
      && Eligible(db, 1, Pair(1, 2))
      && NextContest(db, 0) == Err(Sqlite(InvalidColumnType(1)))
  {
    var db := Db(
      [EntryRow(1, Integer(1984), DEFAULT_ELO), EntryRow(2, Integer(2001), DEFAULT_ELO)],
      [CategoryRow(1, Text("Novels"))],
      [EntryCategoryRow(1, 1), EntryCategoryRow(2, 1)],
      [],
      NumericAffinity);
    assert Eligible(db, 1, Pair(1, 2));
    var p := Closest(db, Unevaluated(db, 1, db.entryCategories));
    ResultRowNameUnreadable(EntryWithId(db.entries, p.first).value,
      EntryWithId(db.entries, p.second).value, CategoryWithId(db.categories, 1).value);
  }

  /** With TEXT affinity (the corrected schema) every store built by saves from a new
      file stays readable, so `next_contest` answers whenever a pair is eligible and
      the ids and ratings fit. */
  lemma TextSchemaReadable(stmts: seq<Statement>, pick: nat)
    requires Run(Opened("TEXT"), stmts).Ok?
    ensures var db := Run(Opened("TEXT"), stmts).value;
      (&& |db.categories| > 0 && pick < |db.categories| && FitsI32(db)
       && exists p :: Eligible(db, db.categories[pick].id, p))
      ==> NextContest(db, pick).Ok?
  {
    RunKeepsTextColumns(Opened("TEXT"), stmts);
  }
}
