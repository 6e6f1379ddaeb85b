/** The first-generation store of critic/src/critic_sqlite/mod.rs: the tables `entries`,
    `categories`, `entry_categories` and `match_history`, the three insert statements of
    `NewCategoryItem::save`, and that save as a transaction on a connection. */
module CategoryStore {
  import opened Sqlite
  import Dto

  /** A name or value as the column stores it (see `Key`). */
  datatype EntryRow = EntryRow(id: int, name: Value, elo: int)
  datatype CategoryRow = CategoryRow(id: int, value: Value)
  datatype EntryCategoryRow = EntryCategoryRow(entry: int, category: int)
  /** A `match_history` row; its own id and timestamp are left out. */
  datatype HistoryRow = HistoryRow(category: int, winner: int, loser: int, eloAdj: int)

  /** The four tables, each a sequence of rows in rowid order, and the affinity of the
      columns `entries.name` and `categories.value`. */
  datatype Db = Db(
    entries: seq<EntryRow>,
    categories: seq<CategoryRow>,
    entryCategories: seq<EntryCategoryRow>,
    matchHistory: seq<HistoryRow>,
    affinity: Affinity)

  /** The declared type of `entries.name` and `categories.value` in `open_category`. */
  const NAME_TYPE: string := "STRING"

  /** The tables `open_category` creates in a new file, for a declared name type. */
  function Opened(declared: string): (db: Db)
    ensures db.entries == [] && db.categories == [] && db.entryCategories == [] && db.matchHistory == []
    ensures declared == NAME_TYPE ==> db.affinity == NumericAffinity
    ensures declared == "TEXT" ==> db.affinity == TextAffinity
  {
    DeclaredAffinities();
    Db([], [], [], [], AffinityOf(declared))
  }

  /** The value a bound name is stored as, and compared as, in the name columns. */
  function Key(db: Db, text: string): Value {
    Stored(db.affinity, text)
  }

  /** `elo INTEGER DEFAULT 1000`. */
  const DEFAULT_ELO: int := 1000

  /** `SELECT ... FROM entries WHERE name = ?`: the first such row. */
  function EntryNamed(rows: seq<EntryRow>, name: Value): (r: Option<EntryRow>)
    ensures r.Some? ==> r.value in rows && r.value.name == name
    ensures r.None? ==> forall e :: e in rows ==> e.name != name
  {
    if |rows| == 0 then None
    else if rows[0].name == name then Some(rows[0])
    else EntryNamed(rows[1..], name)
  }

  /** `JOIN entries e ON e.id = ?`: the first row with that id. */
  function EntryWithId(rows: seq<EntryRow>, id: int): (r: Option<EntryRow>)
    ensures r.Some? ==> r.value in rows && r.value.id == id
    ensures r.None? ==> forall e :: e in rows ==> e.id != id
  {
    if |rows| == 0 then None
    else if rows[0].id == id then Some(rows[0])
    else EntryWithId(rows[1..], id)
  }

  /** `SELECT ... FROM categories WHERE value = ?`: the first such row. */
  function CategoryWithValue(rows: seq<CategoryRow>, value: Value): (r: Option<CategoryRow>)
    ensures r.Some? ==> r.value in rows && r.value.value == value
    ensures r.None? ==> forall c :: c in rows ==> c.value != value
  {
    if |rows| == 0 then None
    else if rows[0].value == value then Some(rows[0])
    else CategoryWithValue(rows[1..], value)
  }

  function CategoryWithId(rows: seq<CategoryRow>, id: int): (r: Option<CategoryRow>)
    ensures r.Some? ==> r.value in rows && r.value.id == id
    ensures r.None? ==> forall c :: c in rows ==> c.id != id
  {
    if |rows| == 0 then None
    else if rows[0].id == id then Some(rows[0])
    else CategoryWithId(rows[1..], id)
  }

  /** SQLite's rowid for a new row: one more than the largest, 1 in an empty table. */
  function NextEntryId(rows: seq<EntryRow>): (id: int)
    ensures forall e :: e in rows ==> e.id < id
    ensures |rows| == 0 ==> id == 1
    ensures |rows| > 0 ==> exists e :: e in rows && id == e.id + 1
  {
    if |rows| == 0 then 1
    else if |rows| == 1 then rows[0].id + 1
    else
      var rest := NextEntryId(rows[1..]);
      if rows[0].id + 1 > rest then rows[0].id + 1 else rest
  }

  function NextCategoryId(rows: seq<CategoryRow>): (id: int)
    ensures forall c :: c in rows ==> c.id < id
    ensures |rows| == 0 ==> id == 1
    ensures |rows| > 0 ==> exists c :: c in rows && id == c.id + 1
  {
    if |rows| == 0 then 1
    else if |rows| == 1 then rows[0].id + 1
    else
      var rest := NextCategoryId(rows[1..]);
      if rows[0].id + 1 > rest then rows[0].id + 1 else rest
  }

  /** The statements `NewCategoryItem::save` prepares, and the commit. */
  datatype Statement =
    | InsertEntry(entryName: string)
    | InsertCategory(categoryValue: string)
    | InsertEntryCategory(entryName: string, categoryValue: string)
    | Commit

  /** Effect of one statement. Inserts are `ON CONFLICT DO NOTHING` under `UNIQUE(name)`,
      `UNIQUE(value)` and `UNIQUE(entry_id, category_id)`, comparing the stored values;
      a sub-select that finds no row yields NULL, which the `NOT NULL` columns of
      `entry_categories` reject. */
  function Apply(db: Db, s: Statement): (r: Result<Db>)
    ensures r.Err? <==>
      s.InsertEntryCategory? &&
      (EntryNamed(db.entries, Key(db, s.entryName)).None? || CategoryWithValue(db.categories, Key(db, s.categoryValue)).None?)
    ensures r.Err? ==> r.error == Sqlite(NotNullConstraint)
    ensures r.Ok? ==> Extends(db, r.value)
    ensures r.Ok? && s.InsertEntry? ==> EntryNamed(r.value.entries, Key(db, s.entryName)).Some?
    ensures r.Ok? && s.InsertCategory? ==> CategoryWithValue(r.value.categories, Key(db, s.categoryValue)).Some?
  {
    match s
    case InsertEntry(name) =>
      if EntryNamed(db.entries, Key(db, name)).Some? then Ok(db)
      else
        var row := EntryRow(NextEntryId(db.entries), Key(db, name), DEFAULT_ELO);
        EntryNamedTail(db.entries, row);
        Ok(db.(entries := db.entries + [row]))
    case InsertCategory(value) =>
      if CategoryWithValue(db.categories, Key(db, value)).Some? then Ok(db)
      else
        var row := CategoryRow(NextCategoryId(db.categories), Key(db, value));
        CategoryNamedTail(db.categories, row);
        Ok(db.(categories := db.categories + [row]))
    case InsertEntryCategory(name, value) =>
      var e := EntryNamed(db.entries, Key(db, name));
      var c := CategoryWithValue(db.categories, Key(db, value));
      if e.None? || c.None? then Err(Sqlite(NotNullConstraint))
      else
        var row := EntryCategoryRow(e.value.id, c.value.id);
        if row in db.entryCategories then Ok(db)
        else Ok(db.(entryCategories := db.entryCategories + [row]))
    case Commit => Ok(db)
  }

  /** Statements run in order, stopping at the first one rejected. */
  function Run(db: Db, stmts: seq<Statement>): Result<Db>
    decreases |stmts|
  {
    if |stmts| == 0 then Ok(db)
    else
      match Apply(db, stmts[0])
      case Err(e) => Err(e)
      case Ok(db') => Run(db', stmts[1..])
  }

  lemma {:induction false} RunAppend(db: Db, s1: seq<Statement>, s2: seq<Statement>)
    ensures Run(db, s1 + s2) == match Run(db, s1) case Err(e) => Err(e) case Ok(d) => Run(d, s2)
    decreases |s1|
  {
    if |s1| > 0 {
      assert (s1 + s2)[0] == s1[0];
      assert (s1 + s2)[1..] == s1[1..] + s2;
      match Apply(db, s1[0])
      case Err(_) =>
      case Ok(d) => RunAppend(d, s1[1..], s2);
    } else {
      assert s1 + s2 == s2;
    }
  }

  /** The insert-if-absent statements for the non-empty sub-categories, in list order. */
  function SubCategoryStatements(name: string, subs: seq<string>): (stmts: seq<Statement>)
    ensures |stmts| <= 2 * |subs|
    ensures forall s :: s in stmts ==> s.InsertCategory? || s.InsertEntryCategory?
  {
    if |subs| == 0 then []
    else
      var last := subs[|subs| - 1];
      SubCategoryStatements(name, subs[..|subs| - 1])
        + (if last == "" then [] else [InsertCategory(last), InsertEntryCategory(name, last)])
  }

  /** Each statement inserts, or links the entry to, one of the non-empty sub-categories. */
  lemma {:induction false} SubCategoryStatementsShape(name: string, subs: seq<string>)
    ensures forall s :: s in SubCategoryStatements(name, subs) ==>
      || (s.InsertCategory? && s.categoryValue in subs && s.categoryValue != "")
      || (s.InsertEntryCategory? && s.entryName == name && s.categoryValue in subs && s.categoryValue != "")
  {
    if |subs| > 0 {
      SubCategoryStatementsShape(name, subs[..|subs| - 1]);
    }
  }

  /** Everything `NewCategoryItem::save` executes before its commit. */
  function ItemStatements(item: Dto.NewCategoryItem): (stmts: seq<Statement>)
    ensures 1 <= |stmts| <= 1 + 2 * |item.subCategories|
    ensures stmts[0] == InsertEntry(item.name) && Commit !in stmts
  {
    [InsertEntry(item.name)] + SubCategoryStatements(item.name, item.subCategories)
  }

  /** Rows are only ever appended, and `match_history` is left alone. */
  ghost predicate Extends(d: Db, d': Db) {
    && d'.affinity == d.affinity
    && d.entries <= d'.entries
    && d.categories <= d'.categories
    && d.entryCategories <= d'.entryCategories
    && d'.matchHistory == d.matchHistory
  }

  lemma {:induction false} EntryNamedStable(rows: seq<EntryRow>, rows': seq<EntryRow>, name: Value)
    requires rows <= rows' && EntryNamed(rows, name).Some?
    ensures EntryNamed(rows', name) == EntryNamed(rows, name)
  {
    if rows[0].name != name {
      EntryNamedStable(rows[1..], rows'[1..], name);
    }
  }

  lemma {:induction false} CategoryWithValueStable(rows: seq<CategoryRow>, rows': seq<CategoryRow>, value: Value)
    requires rows <= rows' && CategoryWithValue(rows, value).Some?
    ensures CategoryWithValue(rows', value) == CategoryWithValue(rows, value)
  {
    if rows[0].value != value {
      CategoryWithValueStable(rows[1..], rows'[1..], value);
    }
  }

  /** The state after a successful save: the entry exists, and every non-empty
      sub-category exists and is linked to it. */
  ghost predicate Saved(d: Db, name: string, subs: seq<string>) {
    && EntryNamed(d.entries, Key(d, name)).Some?
    && forall sc :: sc in subs && sc != "" ==>
         && CategoryWithValue(d.categories, Key(d, sc)).Some?
         && EntryCategoryRow(EntryNamed(d.entries, Key(d, name)).value.id, CategoryWithValue(d.categories, Key(d, sc)).value.id)
              in d.entryCategories
  }

  lemma SavedStable(d: Db, d': Db, name: string, subs: seq<string>)
    requires Saved(d, name, subs) && Extends(d, d')
    ensures Saved(d', name, subs)
  {
    EntryNamedStable(d.entries, d'.entries, Key(d, name));
    forall sc | sc in subs && sc != ""
      ensures CategoryWithValue(d'.categories, Key(d, sc)) == CategoryWithValue(d.categories, Key(d, sc))
    {
      CategoryWithValueStable(d.categories, d'.categories, Key(d, sc));
    }
  }

  /** The save's statements never hit the NOT NULL constraint, leave the store
      `Saved`, only append rows, and a newly created entry has the default rating. */
  lemma {:induction false} SaveRuns(db: Db, name: string, subs: seq<string>)
    ensures Run(db, ItemStatements(Dto.NewCategoryItem(name, subs))).Ok?
    ensures var d := Run(db, ItemStatements(Dto.NewCategoryItem(name, subs))).value;
      && Saved(d, name, subs)
      && Extends(db, d)
      && (EntryNamed(db.entries, Key(db, name)).None? ==>
            && EntryNamed(d.entries, Key(db, name)).value.elo == DEFAULT_ELO
            && forall e :: e in db.entries ==> e.id != EntryNamed(d.entries, Key(db, name)).value.id)
  {
    var stmts := ItemStatements(Dto.NewCategoryItem(name, subs));
    if |subs| == 0 {
      assert stmts == [InsertEntry(name)];
      InsertEntryEffect(db, name);
      assert Run(db, stmts) == Run(Apply(db, InsertEntry(name)).value, []);
    } else {
      var init := subs[..|subs| - 1];
      var last := subs[|subs| - 1];
      var prefix := ItemStatements(Dto.NewCategoryItem(name, init));
      var tail := if last == "" then [] else [InsertCategory(last), InsertEntryCategory(name, last)];
      assert stmts == prefix + tail;
      SaveRuns(db, name, init);
      var d1 := Run(db, prefix).value;
      RunAppend(db, prefix, tail);
      assert forall sc :: sc in subs && sc != "" ==> sc in init || sc == last;
      if last == "" {
        assert Run(d1, tail) == Ok(d1);
      } else {
        SubCategoryStep(d1, name, init, last);
      }
    }
  }

  lemma InsertEntryEffect(db: Db, name: string)
    ensures Apply(db, InsertEntry(name)).Ok?
    ensures var d := Apply(db, InsertEntry(name)).value;
      && Extends(db, d)
      && EntryNamed(d.entries, Key(db, name)).Some?
      && (EntryNamed(db.entries, Key(db, name)).None? ==>
            && EntryNamed(d.entries, Key(db, name)).value.elo == DEFAULT_ELO
            && forall e :: e in db.entries ==> e.id != EntryNamed(d.entries, Key(db, name)).value.id)
  {
    if EntryNamed(db.entries, Key(db, name)).None? {
      EntryNamedTail(db.entries, EntryRow(NextEntryId(db.entries), Key(db, name), DEFAULT_ELO));
    }
  }

  /** The two statements for one non-empty sub-category. */
  lemma SubCategoryStep(d1: Db, name: string, init: seq<string>, last: string)
    requires Saved(d1, name, init) && last != ""
    ensures Run(d1, [InsertCategory(last), InsertEntryCategory(name, last)]).Ok?
    ensures var d3 := Run(d1, [InsertCategory(last), InsertEntryCategory(name, last)]).value;
      && Saved(d3, name, init + [last])
      && Extends(d1, d3)
      && EntryNamed(d3.entries, Key(d1, name)) == EntryNamed(d1.entries, Key(d1, name))
  {
    InsertCategoryEffect(d1, last);
    var d2 := Apply(d1, InsertCategory(last)).value;
    SavedStable(d1, d2, name, init);
    InsertLinkEffect(d2, name, last);
    var d3 := Apply(d2, InsertEntryCategory(name, last)).value;
    SavedStable(d2, d3, name, init);
    var e := EntryNamed(d3.entries, Key(d3, name)).value;
    forall sc | sc in init + [last] && sc != ""
      ensures CategoryWithValue(d3.categories, Key(d3, sc)).Some?
      ensures EntryCategoryRow(e.id, CategoryWithValue(d3.categories, Key(d3, sc)).value.id) in d3.entryCategories
    {
      if sc !in init {
        assert sc == last;
      }
    }
    RunTwo(d1, InsertCategory(last), InsertEntryCategory(name, last));
  }

  lemma InsertCategoryEffect(d: Db, value: string)
    ensures Apply(d, InsertCategory(value)).Ok?
    ensures var d' := Apply(d, InsertCategory(value)).value;
      && Extends(d, d') && d'.entries == d.entries
      && CategoryWithValue(d'.categories, Key(d, value)).Some?
  {
    if CategoryWithValue(d.categories, Key(d, value)).None? {
      CategoryNamedTail(d.categories, CategoryRow(NextCategoryId(d.categories), Key(d, value)));
    }
  }

  lemma InsertLinkEffect(d: Db, name: string, value: string)
    requires EntryNamed(d.entries, Key(d, name)).Some? && CategoryWithValue(d.categories, Key(d, value)).Some?
    ensures Apply(d, InsertEntryCategory(name, value)).Ok?
    ensures var d' := Apply(d, InsertEntryCategory(name, value)).value;
      && Extends(d, d') && d'.entries == d.entries && d'.categories == d.categories
      && EntryCategoryRow(EntryNamed(d.entries, Key(d, name)).value.id, CategoryWithValue(d.categories, Key(d, value)).value.id)
           in d'.entryCategories
  {
  }

  /** A run that succeeds succeeds at its first statement and then runs the rest. */
  lemma RunStep(d: Db, stmts: seq<Statement>)
    requires |stmts| > 0 && Run(d, stmts).Ok?
    ensures Apply(d, stmts[0]).Ok? && Run(Apply(d, stmts[0]).value, stmts[1..]) == Run(d, stmts)
  {
  }

  lemma RunOne(d: Db, s: Statement)
    ensures Run(d, [s]) == Apply(d, s)
  {
    assert [s][1..] == [];
  }

  lemma RunTwo(d: Db, s: Statement, t: Statement)
    requires Apply(d, s).Ok?
    ensures Run(d, [s, t]) == Apply(Apply(d, s).value, t)
  {
    assert [s, t][1..] == [t];
    RunOne(Apply(d, s).value, t);
  }

  lemma {:induction false} EntryNamedTail(rows: seq<EntryRow>, row: EntryRow)
    requires EntryNamed(rows, row.name).None?
    ensures EntryNamed(rows + [row], row.name) == Some(row)
  {
    if |rows| > 0 {
      assert (rows + [row])[1..] == rows[1..] + [row];
      EntryNamedTail(rows[1..], row);
    }
  }

  lemma {:induction false} CategoryNamedTail(rows: seq<CategoryRow>, row: CategoryRow)
    requires CategoryWithValue(rows, row.value).None?
    ensures CategoryWithValue(rows + [row], row.value) == Some(row)
  {
    if |rows| > 0 {
      assert (rows + [row])[1..] == rows[1..] + [row];
      CategoryNamedTail(rows[1..], row);
    }
  }

  lemma {:induction false} RunNoOps(d: Db, stmts: seq<Statement>)
    requires forall s :: s in stmts ==> Apply(d, s) == Ok(d)
    ensures Run(d, stmts) == Ok(d)
  {
    if |stmts| > 0 {
      assert stmts[0] in stmts;
      RunNoOps(d, stmts[1..]);
    }
  }

  /** Saving the same item twice leaves the store as one save does. */
  lemma SaveIdempotent(db: Db, item: Dto.NewCategoryItem)
    ensures Run(db, ItemStatements(item)).Ok?
    ensures Run(Run(db, ItemStatements(item)).value, ItemStatements(item)) == Run(db, ItemStatements(item))
  {
    SaveRuns(db, item.name, item.subCategories);
    var d := Run(db, ItemStatements(item)).value;
    var stmts := ItemStatements(item);
    SubCategoryStatementsShape(item.name, item.subCategories);
    forall s | s in stmts
      ensures Apply(d, s) == Ok(d)
    {
      if s != InsertEntry(item.name) {
        assert s in SubCategoryStatements(item.name, item.subCategories);
      }
    }
    RunNoOps(d, stmts);
  }

  lemma SaveSucceeds(db: Db, item: Dto.NewCategoryItem)
    ensures Run(db, ItemStatements(item)).Ok?
  {
    SaveRuns(db, item.name, item.subCategories);
  }

  predicate Distinct<T(==)>(s: seq<T>) {
    forall i, j :: 0 <= i < j < |s| ==> s[i] != s[j]
  }

  lemma DistinctAppend<T>(a: seq<T>, b: seq<T>)
    requires Distinct(a) && Distinct(b) && forall x :: x in a ==> x !in b
    ensures Distinct(a + b)
  {
    forall i, j | 0 <= i < j < |a + b|
      ensures (a + b)[i] != (a + b)[j]
    {
      if i < |a| && j >= |a| {
        assert (a + b)[i] in a && (a + b)[j] == b[j - |a|];
      }
    }
  }

  lemma DistinctTail<T>(s: seq<T>)
    requires |s| > 0 && Distinct(s)
    ensures Distinct(s[1..]) && s[0] !in s[1..]
  {
    forall i, j | 0 <= i < j < |s[1..]|
      ensures s[1..][i] != s[1..][j]
    {
      assert s[1..][i] == s[i + 1] && s[1..][j] == s[j + 1];
    }
    forall k | 0 <= k < |s[1..]|
      ensures s[1..][k] != s[0]
    {
      assert s[1..][k] == s[k + 1];
    }
  }

  /** `UNIQUE(entry_id, category_id)`: no statement run adds a link row that is already present. */
  lemma {:induction false} RunKeepsLinksDistinct(db: Db, stmts: seq<Statement>)
    requires Distinct(db.entryCategories)
    ensures Run(db, stmts).Ok? ==> Distinct(Run(db, stmts).value.entryCategories)
    decreases |stmts|
  {
    if |stmts| > 0 && Apply(db, stmts[0]).Ok? {
      var d := Apply(db, stmts[0]).value;
      if d.entryCategories != db.entryCategories {
        var row := EntryCategoryRow(EntryNamed(db.entries, Key(db, stmts[0].entryName)).value.id,
          CategoryWithValue(db.categories, Key(db, stmts[0].categoryValue)).value.id);
        DistinctAppend(db.entryCategories, [row]);
      }
      RunKeepsLinksDistinct(d, stmts[1..]);
    }
  }

  /** Every stored name and category value is TEXT, as `next_contest` reads them. */
  ghost predicate TextColumns(db: Db) {
    && (forall e :: e in db.entries ==> e.name.Text?)
    && (forall c :: c in db.categories ==> c.value.Text?)
  }

  /** With TEXT affinity on the name columns every statement keeps the names TEXT. */
  lemma {:induction false} RunKeepsTextColumns(db: Db, stmts: seq<Statement>)
    requires db.affinity == TextAffinity && TextColumns(db)
    ensures Run(db, stmts).Ok? ==> TextColumns(Run(db, stmts).value)
    decreases |stmts|
  {
    if |stmts| > 0 && Apply(db, stmts[0]).Ok? {
      RunKeepsTextColumns(Apply(db, stmts[0]).value, stmts[1..]);
    }
  }

  /** With the schema as written (`name STRING`, NUMERIC affinity), saving the title
      "1984" stores its name as the INTEGER 1984, not as TEXT. */
  lemma SavedNumericTitle(db: Db, subs: seq<string>)
    requires db.affinity == NumericAffinity
    ensures Run(db, ItemStatements(Dto.NewCategoryItem("1984", subs))).Ok?
    ensures EntryNamed(Run(db, ItemStatements(Dto.NewCategoryItem("1984", subs))).value.entries, Integer(1984)).Some?
  {
    NumericLiterals();
    SaveRuns(db, "1984", subs);
  }

  /** With the schema as written, once "1984" is saved the title "01984" is the same
      entry: its insert adds no row, so its sub-categories are linked to "1984". */
  lemma LeadingZeroSameEntry(db: Db)
    requires db.affinity == NumericAffinity && EntryNamed(db.entries, Integer(1984)).Some?
    ensures Apply(db, InsertEntry("01984")) == Ok(db)
    ensures Key(db, "01984") == Key(db, "1984")
  {
    NumericLiterals();
  }

  /** A database connection: the committed tables, and the statements sent to the engine. */
  class Connection {
    var db: Db
    var issued: seq<Statement>

    constructor (db: Db)
      ensures this.db == db && issued == []
    {
      this.db := db;
      issued := [];
    }

    /** Executes `s` inside the open transaction whose working state is `tx`. */
    method Execute(tx: Db, s: Statement, step: nat, fault: Option<nat>) returns (r: Result<Db>)
      modifies this`issued
      ensures issued == old(issued) + [s]
      ensures r == if FailsAt(fault, step) then Err(Sqlite(EngineFailure)) else Apply(tx, s)
    {
      issued := issued + [s];
      if FailsAt(fault, step) {
        return Err(Sqlite(EngineFailure));
      }
      r := Apply(tx, s);
    }

    /** Executes `stmts` in order inside the open transaction, from the working state
        `tx0`, stopping at the first statement the engine rejects (each `?` of the source). */
    method ExecuteInOrder(tx0: Db, stmts: seq<Statement>, fault: Option<nat>) returns (r: Result<Db>)
      modifies this`issued
      requires Run(tx0, stmts).Ok?
      ensures if fault.Some? && fault.value < |stmts|
        then r == Err(Sqlite(EngineFailure)) && issued == old(issued) + stmts[..fault.value + 1]
        else r == Run(tx0, stmts) && issued == old(issued) + stmts
    {
      var tx := tx0;
      var k := 0;
      while k < |stmts|
        invariant 0 <= k <= |stmts|
        invariant issued == old(issued) + stmts[..k]
        invariant Run(tx, stmts[k..]) == Run(tx0, stmts)
        invariant fault.None? || fault.value >= k
      {
        RunStep(tx, stmts[k..]);
        assert stmts[k..][1..] == stmts[k + 1..];
        r := Execute(tx, stmts[k], k, fault);
        assert stmts[..k + 1] == stmts[..k] + [stmts[k]];
        if r.Err? {
          return;
        }
        PassStep(fault, k);
        tx := r.value;
        k := k + 1;
      }
      assert stmts[..k] == stmts && stmts[k..] == [];
      r := Ok(tx);
    }

    /** Runs `stmts`, which the store's constraints accept, and the commit as one
        transaction: on success the tables are the result of the statements and 1 is
        returned; otherwise nothing is committed. `issued` records this transaction only. */
    method Transaction(stmts: seq<Statement>, fault: Option<nat>) returns (r: Result<nat>)
      modifies this
      requires Run(db, stmts).Ok?
      ensures issued == Issued(stmts, Commit, fault)
      ensures r.Ok? <==> Commits(|stmts|, fault)
      ensures r.Ok? ==> r.value == 1 && db == Run(old(db), stmts).value
      ensures r.Err? ==> r.error == Sqlite(EngineFailure) && db == old(db)
    {
      issued := [];
      var res := ExecuteInOrder(db, stmts, fault);
      if res.Err? {
        return Err(res.error);
      }
      issued := issued + [Commit];
      if FailsAt(fault, |stmts|) {
        return Err(Sqlite(EngineFailure));
      }
      db := res.value;
      return Ok(1);
    }

    /** `NewCategoryItem::save`: in one transaction, insert the entry, then for each
        non-empty sub-category insert the category and the link; commit and return 1.
        The first rejected statement returns its error and nothing is committed.
        `issued` records the statements of this transaction only. */
    method SaveNewCategoryItem(item: Dto.NewCategoryItem, fault: Option<nat>) returns (r: Result<nat>)
      modifies this
      ensures Run(old(db), ItemStatements(item)).Ok?
      ensures issued == Issued(ItemStatements(item), Commit, fault)
      ensures r.Ok? <==> Commits(|ItemStatements(item)|, fault)
      ensures r.Ok? ==> r.value == 1 && db == Run(old(db), ItemStatements(item)).value
      ensures r.Err? ==> r.error == Sqlite(EngineFailure) && db == old(db)
    {
      SaveSucceeds(db, item);
      r := Transaction(ItemStatements(item), fault);
    }
  }
}
