/** The second-generation store behind `MatchResult::save`
    (critic/src/critic_sqlite/match_result.rs) and `NewCategoryItem::save`
    (critic/src/critic_sqlite/new_criterion_item.rs).

    The statements of this store live in SQL files that are not part of this model
    (`add_contest_result.sql`, `update_elo.sql`, `ins_entry.sql`,
    `ins_entry_criterion.sql`). Each statement is an abstract operation named after its
    file and applied to the parameters the Rust code binds; its effect on the tables is
    the one its name and parameters describe, and whether the engine rejects it is
    decided by the fault oracle of module Sqlite. Linking a title to a criterion also
    creates the rating row of the title in the criterion's group, at a fixed baseline,
    so that a rating exists exactly when its association does. */
module CriteriaStore {
  import opened Sqlite
  import Dto

  /** A row written by `add_contest_result.sql`: the criterion, both titles, the score
      and both rating changes. */
  datatype MatchRecord = MatchRecord(criterion: int, a: int, b: int, score: real, changeA: int, changeB: int)

  /** Rating rows are identified by a title and a criteria group. */
  datatype RatingKey = RatingKey(title: int, group: int)

  /** A link of a title, by name, to a criterion, by name. */
  datatype Link = Link(title: string, criterion: string)

  /** `ratingOf` maps a link to the rating row it belongs to: the title's id and the
      criterion's group, as the tables this model does not hold resolve them. */
  datatype Store = Store(
    records: seq<MatchRecord>,
    ratings: map<RatingKey, real>,
    titles: seq<string>,
    links: seq<Link>,
    ratingOf: map<Link, RatingKey>)

  /** The rating a new association starts from. */
  const BASELINE: real := 1000.0

  /** The criterion every new title is linked to. */
  const GENERAL: string := "General"

  datatype Statement =
    | AddContestResult(record: MatchRecord)
    | UpdateElo(title: int, group: int, change: int)
    | InsertEntry(name: string)
    | InsertEntryCriterion(name: string, criterion: string)
    | Commit

  /** Effect of one statement that the engine accepts. A rating update adds the change
      to the row of the title in the group, when there is one; the inserts add a row
      unless an equal one is present, and a new link brings its rating row, at the
      baseline, when the title has none in that group yet. */
  function Apply(s: Store, st: Statement): (s': Store)
    ensures s'.ratingOf == s.ratingOf
    ensures s.records <= s'.records && s.titles <= s'.titles && s.links <= s'.links
    ensures s'.records != s.records ==> st.AddContestResult? && s'.records == s.records + [st.record]
    ensures forall k :: k in s.ratings ==> k in s'.ratings
    ensures forall k :: k in s'.ratings && k !in s.ratings ==>
      && st.InsertEntryCriterion? && s'.ratings[k] == BASELINE
      && Link(st.name, st.criterion) in s.ratingOf && s.ratingOf[Link(st.name, st.criterion)] == k
    ensures !st.UpdateElo? ==> forall k :: k in s.ratings ==> s'.ratings[k] == s.ratings[k]
  {
    match st
    case AddContestResult(rec) => s.(records := s.records + [rec])
    case UpdateElo(title, group, change) =>
      var key := RatingKey(title, group);
      if key in s.ratings then s.(ratings := s.ratings[key := s.ratings[key] + change as real]) else s
    case InsertEntry(name) =>
      if name in s.titles then s else s.(titles := s.titles + [name])
    case InsertEntryCriterion(name, criterion) =>
      var link := Link(name, criterion);
      if link in s.links then s
      else if link in s.ratingOf && s.ratingOf[link] !in s.ratings then
        s.(links := s.links + [link], ratings := s.ratings[s.ratingOf[link] := BASELINE])
      else s.(links := s.links + [link])
    case Commit => s
  }

  /** No rating row is lost or changed, and every new one starts at the baseline. */
  ghost predicate RatingsKept(s: Store, s': Store) {
    && (forall k :: k in s.ratings ==> k in s'.ratings && s'.ratings[k] == s.ratings[k])
    && (forall k :: k in s'.ratings && k !in s.ratings ==> s'.ratings[k] == BASELINE)
  }

  /** The design's invariant: a rating row exists exactly when an association of the
      title with a criterion of that group does. */
  ghost predicate RatingsMatchLinks(s: Store) {
    && (forall l :: l in s.links && l in s.ratingOf ==> s.ratingOf[l] in s.ratings)
    && (forall k :: k in s.ratings ==> exists l :: l in s.links && l in s.ratingOf && s.ratingOf[l] == k)
  }

  /** Every statement keeps ratings and associations in step. */
  lemma ApplyKeepsRatingsMatchLinks(s: Store, st: Statement)
    requires RatingsMatchLinks(s)
    ensures RatingsMatchLinks(Apply(s, st))
  {
    var s' := Apply(s, st);
    forall k | k in s'.ratings
      ensures exists l :: l in s'.links && l in s'.ratingOf && s'.ratingOf[l] == k
    {
      if k in s.ratings {
        var l :| l in s.links && l in s.ratingOf && s.ratingOf[l] == k;
        assert l in s'.links;
      } else {
        assert Link(st.name, st.criterion) in s'.links;
      }
    }
    if st.InsertEntryCriterion? {
      var link := Link(st.name, st.criterion);
      forall l | l in s'.links && l in s'.ratingOf
        ensures s'.ratingOf[l] in s'.ratings
      {
        if l != link {
          assert l in s.links;
        }
      }
    }
  }

  lemma {:induction false} RunKeepsRatingsMatchLinks(s: Store, stmts: seq<Statement>)
    requires RatingsMatchLinks(s)
    ensures RatingsMatchLinks(Run(s, stmts))
    decreases |stmts|
  {
    if |stmts| > 0 {
      ApplyKeepsRatingsMatchLinks(s, stmts[0]);
      RunKeepsRatingsMatchLinks(Apply(s, stmts[0]), stmts[1..]);
    }
  }

  function Run(s: Store, stmts: seq<Statement>): Store
    decreases |stmts|
  {
    if |stmts| == 0 then s else Run(Apply(s, stmts[0]), stmts[1..])
  }

  lemma {:induction false} RunAppend(s: Store, s1: seq<Statement>, s2: seq<Statement>)
    ensures Run(s, s1 + s2) == Run(Run(s, s1), s2)
    decreases |s1|
  {
    if |s1| == 0 {
      assert s1 + s2 == s2;
    } else {
      assert (s1 + s2)[0] == s1[0];
      assert (s1 + s2)[1..] == s1[1..] + s2;
      RunAppend(Apply(s, s1[0]), s1[1..], s2);
    }
  }

  lemma RunCons(s: Store, st: Statement, rest: seq<Statement>)
    ensures Run(s, [st] + rest) == Run(Apply(s, st), rest)
  {
    assert ([st] + rest)[1..] == rest;
  }

  lemma RunThree(s: Store, x: Statement, y: Statement, z: Statement)
    ensures Run(s, [x, y, z]) == Apply(Apply(Apply(s, x), y), z)
  {
    RunCons(s, x, [y, z]);
    RunCons(Apply(s, x), y, [z]);
    RunCons(Apply(Apply(s, x), y), z, []);
    assert [x] + [y, z] == [x, y, z];
    assert [y] + [z] == [y, z];
    assert [z] + [] == [z];
  }

  /** The record `MatchResult::save` inserts: keyed by the criterion, not the group. */
  function RecordOf(m: Dto.MatchResult): (rec: MatchRecord)
    ensures rec.criterion == m.criterion && rec.a == m.a && rec.b == m.b && rec.score == m.score
    ensures (rec.changeA, rec.changeB) == m.eloChange
  {
    MatchRecord(m.criterion, m.a, m.b, m.score, m.eloChange.0, m.eloChange.1)
  }

  /** The statements of `MatchResult::save`, in the order it executes them. */
  function MatchStatements(m: Dto.MatchResult): (stmts: seq<Statement>)
    ensures |stmts| == 3 && stmts[0] == AddContestResult(RecordOf(m))
    ensures forall i :: 1 <= i < 3 ==> stmts[i].UpdateElo? && stmts[i].group == m.criteriaGroup
    ensures (stmts[1].title, stmts[1].change) == (m.a, m.eloChange.0)
    ensures (stmts[2].title, stmts[2].change) == (m.b, m.eloChange.1)
  {
    [AddContestResult(RecordOf(m)),
     UpdateElo(m.a, m.criteriaGroup, m.eloChange.0),
     UpdateElo(m.b, m.criteriaGroup, m.eloChange.1)]
  }

  /** A judgment adds exactly its one record, moves the ratings of `a` and `b` in the
      judgment's criteria group by their changes, and touches nothing else. */
  lemma MatchEffect(s: Store, m: Dto.MatchResult)
    ensures var s' := Run(s, MatchStatements(m));
      var ka := RatingKey(m.a, m.criteriaGroup);
      var kb := RatingKey(m.b, m.criteriaGroup);
      && s'.records == s.records + [RecordOf(m)]
      && s'.titles == s.titles && s'.links == s.links
      && s'.ratings.Keys == s.ratings.Keys
      && (forall k :: k in s.ratings && k != ka && k != kb ==> s'.ratings[k] == s.ratings[k])
      && (ka in s.ratings && ka != kb ==> s'.ratings[ka] == s.ratings[ka] + m.eloChange.0 as real)
      && (kb in s.ratings && ka != kb ==> s'.ratings[kb] == s.ratings[kb] + m.eloChange.1 as real)
      && (ka in s.ratings && ka == kb ==>
            s'.ratings[ka] == s.ratings[ka] + m.eloChange.0 as real + m.eloChange.1 as real)
  {
    var stmts := MatchStatements(m);
    RunThree(s, stmts[0], stmts[1], stmts[2]);
  }

  /** The sub-categories that are not the empty string, in list order. */
  function NonEmpty(subs: seq<string>): (r: seq<string>)
    ensures |r| <= |subs|
    ensures forall sc :: sc in r <==> sc in subs && sc != ""
  {
    if |subs| == 0 then []
    else (if subs[0] == "" then [] else [subs[0]]) + NonEmpty(subs[1..])
  }

  /** Filtering keeps the list order: the filter of a concatenation is the
      concatenation of the filters. */
  lemma {:induction false} NonEmptyAppend(a: seq<string>, b: seq<string>)
    ensures NonEmpty(a + b) == NonEmpty(a) + NonEmpty(b)
    decreases |a|
  {
    if |a| == 0 {
      assert a + b == b;
    } else {
      assert (a + b)[0] == a[0];
      assert (a + b)[1..] == a[1..] + b;
      NonEmptyAppend(a[1..], b);
    }
  }

  /** One link statement per criterion, in order. */
  function LinkStatements(name: string, criteria: seq<string>): (stmts: seq<Statement>)
    ensures |stmts| == |criteria|
    ensures forall i :: 0 <= i < |criteria| ==> stmts[i] == InsertEntryCriterion(name, criteria[i])
  {
    if |criteria| == 0 then []
    else [InsertEntryCriterion(name, criteria[0])] + LinkStatements(name, criteria[1..])
  }

  /** The statements of `NewCategoryItem::save`: the title, its link to "General", then
      one link per non-empty sub-category. */
  function ItemStatements(item: Dto.NewCategoryItem): (stmts: seq<Statement>)
    ensures |stmts| == 2 + |NonEmpty(item.subCategories)|
    ensures Commit !in stmts
  {
    [InsertEntry(item.name), InsertEntryCriterion(item.name, GENERAL)]
      + LinkStatements(item.name, NonEmpty(item.subCategories))
  }

  /** The title is inserted before any link, "General" is linked before any
      sub-category, and the sub-categories follow in list order with empty names skipped. */
  lemma ItemStatementsOrder(item: Dto.NewCategoryItem)
    ensures var stmts := ItemStatements(item);
      && |stmts| >= 2
      && stmts[0] == InsertEntry(item.name)
      && (forall i :: 1 <= i < |stmts| ==> stmts[i].InsertEntryCriterion? && stmts[i].name == item.name)
      && stmts[1].criterion == GENERAL
      && (forall i :: 2 <= i < |stmts| ==> stmts[i].criterion != "" && stmts[i].criterion in item.subCategories)
  {
    var stmts := ItemStatements(item);
    var subs := NonEmpty(item.subCategories);
    var links := LinkStatements(item.name, subs);
    forall i | 2 <= i < |stmts|
      ensures stmts[i] == InsertEntryCriterion(item.name, subs[i - 2])
      ensures subs[i - 2] in item.subCategories && subs[i - 2] != ""
    {
      assert stmts[i] == links[i - 2];
      assert subs[i - 2] in subs;
    }
  }

  /** Every non-empty sub-category gets its link statement after the first two. */
  lemma ItemStatementsCover(item: Dto.NewCategoryItem)
    ensures var stmts := ItemStatements(item);
      |stmts| >= 2 && forall sc :: sc in item.subCategories && sc != "" ==> InsertEntryCriterion(item.name, sc) in stmts[2..]
  {
    var stmts := ItemStatements(item);
    var subs := NonEmpty(item.subCategories);
    var links := LinkStatements(item.name, subs);
    assert stmts[2..] == links;
    forall sc | sc in item.subCategories && sc != ""
      ensures InsertEntryCriterion(item.name, sc) in links
    {
      var j :| 0 <= j < |subs| && subs[j] == sc;
      assert links[j] == InsertEntryCriterion(item.name, sc);
    }
  }

  /** Running link statements only adds links, and rating rows at the baseline, and adds
      every one of the links. */
  lemma {:induction false} RunLinks(s: Store, name: string, criteria: seq<string>)
    ensures var s' := Run(s, LinkStatements(name, criteria));
      && s'.records == s.records && s'.titles == s.titles && s'.ratingOf == s.ratingOf
      && RatingsKept(s, s')
      && (forall l :: l in s.links ==> l in s'.links)
      && (forall c :: c in criteria ==> Link(name, c) in s'.links)
    decreases |criteria|
  {
    if |criteria| > 0 {
      var stmts := LinkStatements(name, criteria);
      var s1 := Apply(s, InsertEntryCriterion(name, criteria[0]));
      assert stmts[0] == InsertEntryCriterion(name, criteria[0]);
      assert stmts[1..] == LinkStatements(name, criteria[1..]);
      RunLinks(s1, name, criteria[1..]);
      forall c | c in criteria
        ensures c == criteria[0] || c in criteria[1..]
      {
        var i :| 0 <= i < |criteria| && criteria[i] == c;
        if i > 0 {
          assert criteria[1..][i - 1] == c;
        }
      }
    }
  }

  /** The first two statements of a save: the title, and its link to "General". */
  lemma HeadEffect(s: Store, name: string)
    ensures var s2 := Run(s, [InsertEntry(name), InsertEntryCriterion(name, GENERAL)]);
      && s2.records == s.records && s2.ratingOf == s.ratingOf && RatingsKept(s, s2)
      && name in s2.titles && (forall t :: t in s.titles ==> t in s2.titles)
      && (forall l :: l in s.links ==> l in s2.links) && Link(name, GENERAL) in s2.links
  {
    var general := InsertEntryCriterion(name, GENERAL);
    var s1 := Apply(s, InsertEntry(name));
    RunCons(s, InsertEntry(name), [general]);
    RunCons(s1, general, []);
    assert [InsertEntry(name)] + [general] == [InsertEntry(name), general];
    assert [general] + [] == [general];
  }

  /** After a save the title exists and is linked to "General" and to every non-empty
      sub-category; records and existing ratings are untouched, new rating rows start at
      the baseline, and nothing already present is lost. */
  lemma ItemEffect(s: Store, item: Dto.NewCategoryItem)
    ensures var s' := Run(s, ItemStatements(item));
      && s'.records == s.records && s'.ratingOf == s.ratingOf && RatingsKept(s, s')
      && item.name in s'.titles
      && (forall t :: t in s.titles ==> t in s'.titles)
      && (forall l :: l in s.links ==> l in s'.links)
      && Link(item.name, GENERAL) in s'.links
      && (forall sc :: sc in item.subCategories && sc != "" ==> Link(item.name, sc) in s'.links)
  {
    var head := [InsertEntry(item.name), InsertEntryCriterion(item.name, GENERAL)];
    var links := LinkStatements(item.name, NonEmpty(item.subCategories));
    RunAppend(s, head, links);
    HeadEffect(s, item.name);
    var s2 := Run(s, head);
    RunLinks(s2, item.name, NonEmpty(item.subCategories));
    RatingsKeptTrans(s, s2, Run(s2, links));
  }

  /** When ratings matched the associations before a save, they still do after it, so
      the title has its rating row in the group of every criterion it is now linked to. */
  lemma ItemRated(s: Store, item: Dto.NewCategoryItem)
    requires RatingsMatchLinks(s)
    ensures var s' := Run(s, ItemStatements(item));
      && RatingsMatchLinks(s')
      && (Link(item.name, GENERAL) in s.ratingOf ==> s.ratingOf[Link(item.name, GENERAL)] in s'.ratings)
      && (forall sc :: sc in item.subCategories && sc != "" && Link(item.name, sc) in s.ratingOf ==>
            s.ratingOf[Link(item.name, sc)] in s'.ratings)
  {
    ItemEffect(s, item);
    RunKeepsRatingsMatchLinks(s, ItemStatements(item));
  }

  lemma RatingsKeptTrans(s: Store, s': Store, s'': Store)
    requires RatingsKept(s, s') && RatingsKept(s', s'')
    ensures RatingsKept(s, s'')
  {
  }

  lemma {:induction false} RunNoOps(s: Store, stmts: seq<Statement>)
    requires forall st :: st in stmts ==> Apply(s, st) == s
    ensures Run(s, stmts) == s
    decreases |stmts|
  {
    if |stmts| > 0 {
      assert stmts[0] in stmts;
      RunNoOps(s, stmts[1..]);
    }
  }

  /** A store holding the title and all its links is left alone by every statement of
      the save. */
  lemma SavedIsFixed(d: Store, item: Dto.NewCategoryItem, st: Statement)
    requires item.name in d.titles && Link(item.name, GENERAL) in d.links
    requires forall sc :: sc in item.subCategories && sc != "" ==> Link(item.name, sc) in d.links
    requires st in ItemStatements(item)
    ensures Apply(d, st) == d
  {
    var stmts := ItemStatements(item);
    ItemStatementsOrder(item);
    var i :| 0 <= i < |stmts| && stmts[i] == st;
    if i >= 2 {
      assert Link(item.name, st.criterion) in d.links;
    }
  }

  /** Saving the same item twice leaves the store as one save does. */
  lemma SaveIdempotent(s: Store, item: Dto.NewCategoryItem)
    ensures Run(Run(s, ItemStatements(item)), ItemStatements(item)) == Run(s, ItemStatements(item))
  {
    var stmts := ItemStatements(item);
    var d := Run(s, stmts);
    ItemEffect(s, item);
    forall st | st in stmts
      ensures Apply(d, st) == d
    {
      SavedIsFixed(d, item, st);
    }
    RunNoOps(d, stmts);
  }

  /** A database connection: the committed tables, and the statements sent to the
      engine by the latest transaction. */
  class Connection {
    var store: Store
    var issued: seq<Statement>

    constructor (store: Store)
      ensures this.store == store && issued == []
    {
      this.store := store;
      issued := [];
    }

    /** Executes `stmts` in order inside the open transaction, from the working state
        `tx0`, stopping at the first statement the engine rejects (each `?` of the source). */
    method ExecuteInOrder(tx0: Store, stmts: seq<Statement>, fault: Option<nat>) returns (r: Result<Store>)
      modifies this`issued
      ensures if fault.Some? && fault.value < |stmts|
        then r == Err(Sqlite(EngineFailure)) && issued == old(issued) + stmts[..fault.value + 1]
        else r == Ok(Run(tx0, stmts)) && issued == old(issued) + stmts
    {
      var tx := tx0;
      var k := 0;
      while k < |stmts|
        invariant 0 <= k <= |stmts|
        invariant issued == old(issued) + stmts[..k]
        invariant Run(tx, stmts[k..]) == Run(tx0, stmts)
        invariant fault.None? || fault.value >= k
      {
        assert stmts[k..][1..] == stmts[k + 1..];
        issued := issued + [stmts[k]];
        assert stmts[..k + 1] == stmts[..k] + [stmts[k]];
        if FailsAt(fault, k) {
          return Err(Sqlite(EngineFailure));
        }
        PassStep(fault, k);
        tx := Apply(tx, stmts[k]);
        k := k + 1;
      }
      assert stmts[..k] == stmts && stmts[k..] == [];
      r := Ok(tx);
    }

    /** Runs `stmts` and the commit as one transaction: on success the store is the
        result of the statements and 1 is returned; otherwise nothing is committed. */
    method Transaction(stmts: seq<Statement>, fault: Option<nat>) returns (r: Result<nat>)
      modifies this
      ensures issued == Issued(stmts, Commit, fault)
      ensures r.Ok? <==> Commits(|stmts|, fault)
      ensures r.Ok? ==> r.value == 1 && store == Run(old(store), stmts)
      ensures r.Err? ==> r.error == Sqlite(EngineFailure) && store == old(store)
    {
      issued := [];
      var res := ExecuteInOrder(store, stmts, fault);
      if res.Err? {
        return Err(res.error);
      }
      issued := issued + [Commit];
      if FailsAt(fault, |stmts|) {
        return Err(Sqlite(EngineFailure));
      }
      store := res.value;
      return Ok(1);
    }

    /** `MatchResult::save`: the record insert, the update of `a`, the update of `b`,
        then the commit, all or nothing. */
    method SaveMatchResult(m: Dto.MatchResult, fault: Option<nat>) returns (r: Result<nat>)
      modifies this
      ensures issued == Issued(MatchStatements(m), Commit, fault)
      ensures r.Ok? <==> Commits(3, fault)
      ensures r.Ok? ==> r.value == 1 && store == Run(old(store), MatchStatements(m))
      ensures r.Err? ==> r.error == Sqlite(EngineFailure) && store == old(store)
    {
      r := Transaction(MatchStatements(m), fault);
    }

    /** `NewCategoryItem::save`: the title, its "General" link and one link per
        non-empty sub-category, then the commit, all or nothing. */
    method SaveNewCategoryItem(item: Dto.NewCategoryItem, fault: Option<nat>) returns (r: Result<nat>)
      modifies this
      ensures issued == Issued(ItemStatements(item), Commit, fault)
      ensures r.Ok? <==> Commits(|ItemStatements(item)|, fault)
      ensures r.Ok? ==> r.value == 1 && store == Run(old(store), ItemStatements(item))
      ensures r.Err? ==> r.error == Sqlite(EngineFailure) && store == old(store)
    {
      r := Transaction(ItemStatements(item), fault);
    }
  }
}
