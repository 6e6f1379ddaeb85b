/** The rating screen of critic-term/src/app/rate.rs: the highlighted choice, the
    score it stands for, the judgment `save_match` builds from the current contest, and
    the key handler that saves it and moves on to the next contest.

    The handler opens the store afresh on every confirmation; here the store is the
    connection `conn` held by the widget. The contest `next_contest` returns after the
    save is a parameter of the handler. */
module Rate {
  import opened Sqlite
  import opened Dto
  import Elo
  import Terminal
  import CriteriaStore

  /** The highlighted choice: the left card (a wins), the right card (b wins), equal, or skip. */
  datatype Selected = Unselected | Left | Right | Skip | Equals

  /** The arrow keys only move the highlight: Up is Skip, Down is Equals, Left and Right
      the two cards; other keys select nothing. */
  function ArrowSelection(code: Terminal.KeyCode): (r: Option<Selected>)
    ensures r.Some? <==> code in {Terminal.Up, Terminal.Down, Terminal.Left, Terminal.Right}
    ensures r.Some? ==> r.value != Unselected
  {
    match code
    case Up => Some(Skip)
    case Down => Some(Equals)
    case Left => Some(Left)
    case Right => Some(Right)
    case _ => None
  }

  /** The score of `a` a confirmation saves: 1 for the left card, 0 for the right card,
      one half for equal; skipping or confirming nothing saves no judgment. */
  function ScoreOf(sel: Selected): (s: Option<real>)
    ensures s.None? <==> sel == Unselected || sel == Skip
    ensures s.Some? ==> s.value == 0.0 || s.value == 0.5 || s.value == 1.0
  {
    match sel
    case Left => Some(1.0)
    case Right => Some(0.0)
    case Equals => Some(0.5)
    case _ => None
  }

  predicate IsConfirm(code: Terminal.KeyCode) {
    code == Terminal.Enter || code == Terminal.Char(' ')
  }

  /** `save_match`: the judgment of `contest` with score `score` for `a`; the history is
      keyed by the criterion, the ratings by the criterion's group, and the rating changes
      are the Elo changes of both contestants. */
  function MatchFor(contest: Contest, score: real, expected: (real, real) -> real): (m: MatchResult)
    ensures m.a == contest.a.id && m.b == contest.b.id
    ensures m.criterion == contest.criterion.id && m.criteriaGroup == contest.criterion.group
    ensures m.score == score
    ensures m.eloChange == Elo.CalcChange(contest.a.elo, contest.b.elo, score, expected)
  {
    MatchResult(
      contest.criterion.group, contest.criterion.id, contest.a.id, contest.b.id, score,
      Elo.CalcChange(contest.a.elo, contest.b.elo, score, expected))
  }

  function Swapped(c: Contest): Contest {
    Contest(c.criterion, c.b, c.a)
  }

  /** Choosing the right card is choosing the left card of the swapped contest: the same
      judgment seen from the other side, with the two rating changes exchanged. */
  lemma RightIsSwappedLeft(c: Contest, expected: (real, real) -> real)
    ensures var m := MatchFor(c, ScoreOf(Right).value, expected);
      var m' := MatchFor(Swapped(c), ScoreOf(Left).value, expected);
      && m'.a == m.b && m'.b == m.a
      && m'.eloChange == (m.eloChange.1, m.eloChange.0)
  {
    Elo.CalcChangeSwap(c.a.elo, c.b.elo, 0.0, expected);
  }

  /** Every saved judgment moves each rating by at most its K-factor, and a choice of a
      card never lowers the chosen contestant. */
  lemma {:induction false} SavedChangeBounded(c: Contest, sel: Selected, expected: (real, real) -> real)
    requires ScoreOf(sel).Some?
    requires 0.0 < expected(c.a.elo, c.b.elo) < 1.0 && 0.0 < expected(c.b.elo, c.a.elo) < 1.0
    ensures var ch := MatchFor(c, ScoreOf(sel).value, expected).eloChange;
      && -Elo.KFactor(c.a.elo) <= ch.0 <= Elo.KFactor(c.a.elo)
      && -Elo.KFactor(c.b.elo) <= ch.1 <= Elo.KFactor(c.b.elo)
      && (sel == Left ==> ch.0 >= 0)
      && (sel == Right ==> ch.0 <= 0)
  {
    Elo.CalcChangeBounded(c.a.elo, c.b.elo, ScoreOf(sel).value, expected);
    Elo.CalcChangeWinLoss(c.a.elo, c.b.elo, expected);
  }

  class RateWidget {
    var contest: Contest
    var selected: Selected
    var conn: CriteriaStore.Connection

    constructor (contest: Contest, conn: CriteriaStore.Connection)
      ensures this.contest == contest && selected == Unselected && this.conn == conn
    {
      this.contest := contest;
      selected := Unselected;
      this.conn := conn;
    }

    /** `handle_key_events`. `fault` is the engine's fault oracle for the save and
        `next` the answer of `next_contest` once the save is done. */
    method HandleKey(evt: Terminal.KeyEvent, expected: (real, real) -> real, fault: Option<nat>, next: Result<Contest>)
      returns (r: Result<()>)
      modifies this`contest, this`selected, conn
      ensures conn == old(conn)
      ensures ArrowSelection(evt.code).Some? ==>
        && r.Ok? && selected == ArrowSelection(evt.code).value && contest == old(contest)
        && conn.store == old(conn.store) && conn.issued == old(conn.issued)
      ensures !IsConfirm(evt.code) && ArrowSelection(evt.code).None? ==>
        r.Ok? && selected == old(selected) && contest == old(contest)
        && conn.store == old(conn.store) && conn.issued == old(conn.issued)
      ensures IsConfirm(evt.code) && ScoreOf(old(selected)).None? ==>
        conn.store == old(conn.store) && conn.issued == old(conn.issued)
      ensures IsConfirm(evt.code) && ScoreOf(old(selected)).Some? ==>
        var m := MatchFor(old(contest), ScoreOf(old(selected)).value, expected);
        && conn.issued == Issued(CriteriaStore.MatchStatements(m), CriteriaStore.Commit, fault)
        && conn.store == if Commits(3, fault) then CriteriaStore.Run(old(conn.store), CriteriaStore.MatchStatements(m))
                         else old(conn.store)
      ensures IsConfirm(evt.code) ==>
        var saved := ScoreOf(old(selected)).None? || Commits(3, fault);
        && (saved && next.Ok? ==> r.Ok? && contest == next.value && selected == Unselected)
        && (!saved ==> r == Err(Sqlite(EngineFailure)))
        && (saved && next.Err? ==> r == Err(next.error))
        && (r.Err? ==> contest == old(contest) && selected == old(selected))
    {
      var arrow := ArrowSelection(evt.code);
      if arrow.Some? {
        selected := arrow.value;
        return Ok(());
      }
      if !IsConfirm(evt.code) {
        return Ok(());
      }
      var score := ScoreOf(selected);
      if score.Some? {
        var saved := conn.SaveMatchResult(MatchFor(contest, score.value, expected), fault);
        if saved.Err? {
          return Err(saved.error);
        }
      }
      if next.Err? {
        return Err(next.error);
      }
      contest := next.value;
      selected := Unselected;
      return Ok(());
    }
  }
}
