/** The title screen of critic-term/src/app/title_tab.rs, in three of its modes: opening
    the group editor of a title, editing and saving the title's group memberships, and
    confirming the deletion of a title.

    Each request is saved by the store as a transaction of its own; `sent` is the list
    of requests the store has committed. Whether the store rejects a request is decided
    by the fault oracle `failAt`, the position (from 0) of the failing request among
    those one key press sends. The answers of the store's queries after the writes are
    parameters. */
module TitleTab {
  import opened Sqlite
  import opened Terminal
  import Dto

  /** The screen's mode; `ConfirmDelete` is the source's `Mode::DeleteTitle` and
      `Titles` its `Mode::Title`. The text inputs of `NewTitle` and `EditTitle` are not
      part of this model. */
  datatype Mode =
    | Titles
    | Group(titleId: int)
    | NewTitle
    | EditTitle(id: int)
    | ConfirmDelete(id: int)
    | EditGroups(titleId: int, id: int, cur: seq<bool>, edit: seq<bool>, allGroups: seq<Dto.CriteriaGroup>, sel: Option<nat>)

  /** The write requests of this screen. */
  datatype Request =
    | NewTitleCriteria(title: int, criteria: int)
    | DeleteTitleCriteria(title: int, criteria: int)
    | DeleteTitle(id: int)

  /** `all_titles`: a failing query shows as no titles. */
  function AllTitles(answer: Result<seq<Dto.Title>>): (titles: seq<Dto.Title>)
    ensures answer.Err? ==> titles == []
    ensures answer.Ok? ==> titles == answer.value
  {
    if answer.Ok? then answer.value else []
  }

  /** `groups_by_title`: a failing query shows as no groups. */
  function GroupsByTitle(groupsOf: int -> Result<seq<Dto.CriteriaGroup>>, id: int): (groups: seq<Dto.CriteriaGroup>)
    ensures groupsOf(id).Err? ==> groups == []
    ensures groupsOf(id).Ok? ==> groups == groupsOf(id).value
  {
    if groupsOf(id).Ok? then groupsOf(id).value else []
  }

  /** `usize as i32`: the low 32 bits, read as a signed number. */
  function UsizeAsI32(n: nat): (r: int)
    ensures IsI32(r)
    ensures n <= I32_MAX ==> r == n
    ensures (n - r) % 0x1_0000_0000 == 0
  {
    var low := n % 0x1_0000_0000;
    if low <= I32_MAX then low else low - 0x1_0000_0000
  }

  /** `cur`: whether each group is among the title's current groups. */
  function Membership(allGroups: seq<Dto.CriteriaGroup>, groups: seq<Dto.CriteriaGroup>): (cur: seq<bool>)
    ensures |cur| == |allGroups|
    ensures forall i :: 0 <= i < |allGroups| ==> (cur[i] <==> allGroups[i] in groups)
  {
    seq(|allGroups|, i requires 0 <= i < |allGroups| => allGroups[i] in groups)
  }

  /** `edit[idx] = !edit[idx]`. */
  function Flip(edit: seq<bool>, idx: nat): (r: seq<bool>)
    requires idx < |edit|
    ensures |r| == |edit| && r[idx] == !edit[idx]
    ensures forall j :: 0 <= j < |edit| && j != idx ==> r[j] == edit[j]
  {
    edit[idx := !edit[idx]]
  }

  lemma FlipTwice(edit: seq<bool>, idx: nat)
    requires idx < |edit|
    ensures Flip(Flip(edit, idx), idx) == edit
  {
  }

  /** The request that makes group `g` a group of the title (`add`) or not. */
  function RequestFor(title: int, add: bool, g: Dto.CriteriaGroup): Request {
    if add then NewTitleCriteria(title, g.id) else DeleteTitleCriteria(title, g.id)
  }

  /** The requests of a save: one per position where `cur` and `edit` differ, in order. */
  function DiffRequests(title: int, cur: seq<bool>, edit: seq<bool>, groups: seq<Dto.CriteriaGroup>): (reqs: seq<Request>)
    requires |cur| == |edit| == |groups|
    ensures |reqs| <= |cur|
    decreases |cur|
  {
    if |cur| == 0 then []
    else
      var n := |cur| - 1;
      DiffRequests(title, cur[..n], edit[..n], groups[..n])
        + (if cur[n] != edit[n] then [RequestFor(title, edit[n], groups[n])] else [])
  }

  /** Each request of a save is the request for one position where `cur` and `edit` differ. */
  lemma {:induction false} DiffSound(title: int, cur: seq<bool>, edit: seq<bool>, groups: seq<Dto.CriteriaGroup>, r: Request)
    requires |cur| == |edit| == |groups|
    requires r in DiffRequests(title, cur, edit, groups)
    ensures exists i :: 0 <= i < |cur| && cur[i] != edit[i] && r == RequestFor(title, edit[i], groups[i])
    decreases |cur|
  {
    var n := |cur| - 1;
    if r !in DiffRequests(title, cur[..n], edit[..n], groups[..n]) {
      assert cur[n] != edit[n] && r == RequestFor(title, edit[n], groups[n]);
    } else {
      DiffSound(title, cur[..n], edit[..n], groups[..n], r);
      var i :| 0 <= i < n && cur[..n][i] != edit[..n][i] && r == RequestFor(title, edit[..n][i], groups[..n][i]);
      assert cur[i] != edit[i] && r == RequestFor(title, edit[i], groups[i]);
    }
  }

  /** Every position where `cur` and `edit` differ has its request. */
  lemma {:induction false} DiffComplete(title: int, cur: seq<bool>, edit: seq<bool>, groups: seq<Dto.CriteriaGroup>, i: nat)
    requires |cur| == |edit| == |groups|
    requires i < |cur| && cur[i] != edit[i]
    ensures RequestFor(title, edit[i], groups[i]) in DiffRequests(title, cur, edit, groups)
    decreases |cur|
  {
    var n := |cur| - 1;
    if i < n {
      DiffComplete(title, cur[..n], edit[..n], groups[..n], i);
    }
  }

  /** The number of positions where `cur` and `edit` differ. */
  function Differing(cur: seq<bool>, edit: seq<bool>): nat
    requires |cur| == |edit|
    decreases |cur|
  {
    if |cur| == 0 then 0
    else Differing(cur[..|cur| - 1], edit[..|cur| - 1]) + (if cur[|cur| - 1] != edit[|cur| - 1] then 1 else 0)
  }

  /** Exactly one request per differing position: none at all when nothing was toggled. */
  lemma {:induction false} DiffCount(title: int, cur: seq<bool>, edit: seq<bool>, groups: seq<Dto.CriteriaGroup>)
    requires |cur| == |edit| == |groups|
    ensures |DiffRequests(title, cur, edit, groups)| == Differing(cur, edit)
    ensures cur == edit ==> DiffRequests(title, cur, edit, groups) == []
    decreases |cur|
  {
    if |cur| > 0 {
      var n := |cur| - 1;
      DiffCount(title, cur[..n], edit[..n], groups[..n]);
    }
  }

  /** The group ids of `title` after the store applies one request. */
  function ApplyRequest(title: int, members: set<int>, r: Request): set<int> {
    match r
    case NewTitleCriteria(t, g) => if t == title then members + {g} else members
    case DeleteTitleCriteria(t, g) => if t == title then members - {g} else members
    case DeleteTitle(_) => members
  }

  /** The group ids of `title` after the store applies `reqs` to `members`, in order. */
  function ApplyRequests(title: int, members: set<int>, reqs: seq<Request>): set<int>
    decreases |reqs|
  {
    if |reqs| == 0 then members
    else ApplyRequest(title, ApplyRequests(title, members, reqs[..|reqs| - 1]), reqs[|reqs| - 1])
  }

  lemma ApplyOneMore(title: int, members: set<int>, reqs: seq<Request>, r: Request)
    ensures ApplyRequests(title, members, reqs + [r]) == ApplyRequest(title, ApplyRequests(title, members, reqs), r)
  {
    assert (reqs + [r])[..|reqs|] == reqs;
  }

  predicate DistinctIds(groups: seq<Dto.CriteriaGroup>) {
    forall i, j :: 0 <= i < j < |groups| ==> groups[i].id != groups[j].id
  }

  /** Saving the difference turns the title's groups from `cur` into `edit`: starting
      from group ids that match `cur`, the requests leave exactly the groups `edit` marks. */
  lemma {:induction false} DiffMakesEdit(title: int, cur: seq<bool>, edit: seq<bool>, groups: seq<Dto.CriteriaGroup>, members: set<int>)
    requires |cur| == |edit| == |groups| && DistinctIds(groups)
    requires forall i :: 0 <= i < |groups| ==> (groups[i].id in members <==> cur[i])
    ensures forall i :: 0 <= i < |groups| ==>
      (groups[i].id in ApplyRequests(title, members, DiffRequests(title, cur, edit, groups)) <==> edit[i])
    decreases |cur|
  {
    if |cur| > 0 {
      var n := |cur| - 1;
      var before := DiffRequests(title, cur[..n], edit[..n], groups[..n]);
      DiffMakesEdit(title, cur[..n], edit[..n], groups[..n], members);
      DiffUntouched(title, cur[..n], edit[..n], groups[..n], members, groups[n].id);
      var m := ApplyRequests(title, members, before);
      if cur[n] != edit[n] {
        ApplyOneMore(title, members, before, RequestFor(title, edit[n], groups[n]));
      } else {
        assert before + [] == before;
      }
      forall i | 0 <= i < n
        ensures groups[i].id != groups[n].id && groups[..n][i] == groups[i] && cur[..n][i] == cur[i] && edit[..n][i] == edit[i]
      {
      }
    }
  }

  /** A group none of whose positions differ keeps its membership. */
  lemma {:induction false} DiffUntouched(title: int, cur: seq<bool>, edit: seq<bool>, groups: seq<Dto.CriteriaGroup>, members: set<int>, g: int)
    requires |cur| == |edit| == |groups|
    requires forall i :: 0 <= i < |groups| ==> groups[i].id != g
    ensures g in ApplyRequests(title, members, DiffRequests(title, cur, edit, groups)) <==> g in members
    decreases |cur|
  {
    if |cur| > 0 {
      var n := |cur| - 1;
      var before := DiffRequests(title, cur[..n], edit[..n], groups[..n]);
      assert forall i :: 0 <= i < n ==> groups[..n][i] == groups[i];
      DiffUntouched(title, cur[..n], edit[..n], groups[..n], members, g);
      if cur[n] != edit[n] {
        var r := RequestFor(title, edit[n], groups[n]);
        assert DiffRequests(title, cur, edit, groups) == before + [r];
        ApplyOneMore(title, members, before, r);
        assert groups[n].id != g;
      } else {
        assert before + [] == before;
        assert DiffRequests(title, cur, edit, groups) == before;
      }
    }
  }

  /** The requests for a prefix of the positions are a prefix of the requests. */
  lemma {:induction false} DiffGrows(title: int, cur: seq<bool>, edit: seq<bool>, groups: seq<Dto.CriteriaGroup>, i: nat)
    requires |cur| == |edit| == |groups| && i <= |cur|
    ensures DiffRequests(title, cur[..i], edit[..i], groups[..i]) <= DiffRequests(title, cur, edit, groups)
    decreases |cur| - i
  {
    if i < |cur| {
      DiffGrows(title, cur, edit, groups, i + 1);
      DiffStep(title, cur, edit, groups, i);
    } else {
      assert cur[..i] == cur && edit[..i] == edit && groups[..i] == groups;
    }
  }

  /** The requests for the positions before a differing one are a proper prefix of all requests. */
  lemma DiffBefore(title: int, cur: seq<bool>, edit: seq<bool>, groups: seq<Dto.CriteriaGroup>, i: nat)
    requires |cur| == |edit| == |groups| && i < |cur| && cur[i] != edit[i]
    ensures var pre := DiffRequests(title, cur[..i], edit[..i], groups[..i]);
      var d := DiffRequests(title, cur, edit, groups);
      |pre| < |d| && d[..|pre|] == pre
  {
    DiffGrows(title, cur, edit, groups, i + 1);
    DiffStep(title, cur, edit, groups, i);
  }

  lemma DiffStep(title: int, cur: seq<bool>, edit: seq<bool>, groups: seq<Dto.CriteriaGroup>, i: nat)
    requires |cur| == |edit| == |groups| && i < |cur|
    ensures DiffRequests(title, cur[..i + 1], edit[..i + 1], groups[..i + 1])
      == DiffRequests(title, cur[..i], edit[..i], groups[..i])
         + (if cur[i] != edit[i] then [RequestFor(title, edit[i], groups[i])] else [])
  {
    assert cur[..i + 1][..i] == cur[..i];
    assert edit[..i + 1][..i] == edit[..i];
    assert groups[..i + 1][..i] == groups[..i];
  }

  /** `position(|x| x.id == id)`: the first group with that id. */
  function Position(groups: seq<Dto.CriteriaGroup>, id: int): (k: Option<nat>)
    ensures k.Some? ==> k.value < |groups| && groups[k.value].id == id
    ensures k.Some? ==> forall j :: 0 <= j < k.value ==> groups[j].id != id
    ensures k.None? ==> forall j :: 0 <= j < |groups| ==> groups[j].id != id
  {
    if |groups| == 0 then None
    else if groups[0].id == id then Some(0)
    else
      var k := Position(groups[1..], id);
      if k.Some? then Some(k.value + 1) else None
  }

  /** Where the deleted title's index leaves the selection once the list is rendered:
      the same index if it is still in range, else the last title, else nothing. */
  lemma DeleteSelectionRepaired(idx: nat, len: nat)
    requires len <= USIZE_MAX
    ensures idx < len ==> Clamp(Some(idx), len) == Some(idx)
    ensures len <= idx && len > 0 ==> Clamp(SELECT_LAST, len) == Some(len - 1)
    ensures len == 0 ==> Clamp(SELECT_LAST, len).None? && Clamp(Some(idx), len).None?
  {
    if len <= idx && len > 0 {
      SelectLastRendered(len);
    }
  }

  predicate IsUp(code: KeyCode) { code == Up || code == Char('w') }
  predicate IsDown(code: KeyCode) { code == Down || code == Char('s') }
  predicate IsConfirm(code: KeyCode) { code == Enter || code == Char(' ') }

  /** Ctrl+S saves; `s` with any other modifiers moves down. */
  predicate IsSave(evt: KeyEvent) { evt.code == Char('s') && evt.control }

  class TitleWidget {
    var mode: Mode
    var titles: seq<Dto.Title>
    var groups: seq<Dto.CriteriaGroup>
    var titlesSel: Option<nat>
    var groupSel: Option<nat>
    var sent: seq<Request>

    /** The three lists of the group editor run in step. */
    predicate Valid()
      reads this
    {
      mode.EditGroups? ==> |mode.cur| == |mode.edit| == |mode.allGroups|
    }

    /** `TitleWidget::new`: load the titles, then the groups of the first title, or of
        the id `i32::MAX` when there is no title. `titlesAnswer` and `groupsOf` answer
        `all_titles` and `groups_by_title`. */
    constructor (titlesAnswer: Result<seq<Dto.Title>>, groupsOf: int -> Result<seq<Dto.CriteriaGroup>>)
      ensures Valid() && mode == Titles && titles == AllTitles(titlesAnswer)
      ensures groups == GroupsByTitle(groupsOf, if |titles| > 0 then titles[0].id else I32_MAX)
      ensures titlesSel == SELECT_FIRST && groupSel == SELECT_FIRST && sent == []
    {
      mode := Titles;
      var loaded := AllTitles(titlesAnswer);
      titles := loaded;
      groups := GroupsByTitle(groupsOf, if |loaded| > 0 then loaded[0].id else I32_MAX);
      titlesSel := SELECT_FIRST;
      groupSel := SELECT_FIRST;
      sent := [];
    }

    /** `e` in `Group` mode: open the group editor. `id` is the selected title's index
        cast to `i32`; `cur` and `edit` both mark the groups the title has now; the first
        group is selected. `allGroups` is the answer of `all_groups`, whose failure
        panics in the source. */
    method OpenGroupEditor(allGroups: seq<Dto.CriteriaGroup>)
      modifies this`mode
      requires mode.Group? && titlesSel.Some?
      ensures Valid()
      ensures mode == EditGroups(old(mode).titleId, UsizeAsI32(titlesSel.value),
        Membership(allGroups, groups), Membership(allGroups, groups), allGroups, SELECT_FIRST)
      ensures forall i :: 0 <= i < |allGroups| ==> (mode.cur[i] <==> allGroups[i] in groups)
    {
      var id := UsizeAsI32(titlesSel.value);
      var cur := Membership(allGroups, groups);
      mode := EditGroups(mode.titleId, id, cur, cur, allGroups, SELECT_FIRST);
    }

    /** Sends the requests of a save one by one, each its own transaction; the first
        rejected one stops the loop and the earlier ones stay committed. */
    method SaveGroupChanges(title: int, cur: seq<bool>, edit: seq<bool>, allGroups: seq<Dto.CriteriaGroup>, failAt: Option<nat>)
      returns (r: Result<()>)
      modifies this`sent
      requires |cur| == |edit| == |allGroups|
      ensures var d := DiffRequests(title, cur, edit, allGroups);
        if failAt.Some? && failAt.value < |d|
        then r == Err(Sqlite(EngineFailure)) && sent == old(sent) + d[..failAt.value]
        else r == Ok(()) && sent == old(sent) + d
    {
      var i := 0;
      var n := 0;
      while i < |cur|
        invariant 0 <= i <= |cur|
        invariant n == |DiffRequests(title, cur[..i], edit[..i], allGroups[..i])|
        invariant sent == old(sent) + DiffRequests(title, cur[..i], edit[..i], allGroups[..i])
        invariant failAt.None? || failAt.value >= n
      {
        DiffStep(title, cur, edit, allGroups, i);
        if cur[i] != edit[i] {
          if failAt == Some(n) {
            DiffBefore(title, cur, edit, allGroups, i);
            return Err(Sqlite(EngineFailure));
          }
          sent := sent + [RequestFor(title, edit[i], allGroups[i])];
          n := n + 1;
        }
        i := i + 1;
      }
      assert cur[..i] == cur && edit[..i] == edit && allGroups[..i] == allGroups;
      r := Ok(());
    }

    /** A key in the group editor. Esc returns to `Group` without writing; Enter or
        Space flips the selected group's mark; Up/`w` and Down/`s` move the selection;
        Ctrl+S saves the difference between `cur` and `edit`, reloads the title's groups
        and selects the group whose id equals the editor's `id` (the title's index), or
        the first group. `groupsOf` answers `groups_by_title` after the writes. */
    method HandleEditGroupsKey(evt: KeyEvent, failAt: Option<nat>, groupsOf: int -> Result<seq<Dto.CriteriaGroup>>)
      returns (r: Result<()>)
      modifies this`mode, this`groups, this`groupSel, this`sent
      requires Valid() && mode.EditGroups?
      requires IsConfirm(evt.code) && mode.sel.Some? ==> mode.sel.value < |mode.edit|
      ensures Valid()
      ensures evt.code == Esc ==>
        r.Ok? && mode == Group(old(mode).titleId) && sent == old(sent) && groups == old(groups)
      ensures IsConfirm(evt.code) ==>
        && r.Ok? && sent == old(sent) && groups == old(groups)
        && mode == if old(mode).sel.Some? then old(mode).(edit := Flip(old(mode).edit, old(mode).sel.value)) else old(mode)
      ensures !IsSave(evt) && evt.code != Esc && !IsConfirm(evt.code) ==> sent == old(sent) && groups == old(groups)
      ensures IsUp(evt.code) && evt.code != Esc ==> mode == old(mode).(sel := SelectPrevious(old(mode).sel))
      ensures IsDown(evt.code) && !IsSave(evt) ==> mode == old(mode).(sel := SelectNext(old(mode).sel))
      ensures !IsSave(evt) && evt.code != Esc && !IsConfirm(evt.code) && !IsUp(evt.code) && !IsDown(evt.code) ==>
        r.Ok? && mode == old(mode)
      ensures !IsSave(evt) ==> groupSel == old(groupSel) && r.Ok?
      ensures IsSave(evt) ==>
        var m := old(mode);
        var d := DiffRequests(m.titleId, m.cur, m.edit, m.allGroups);
        if failAt.Some? && failAt.value < |d| then
          && r == Err(Sqlite(EngineFailure)) && sent == old(sent) + d[..failAt.value]
          && mode == old(mode) && groups == old(groups) && groupSel == old(groupSel)
        else
          var gs := GroupsByTitle(groupsOf, m.titleId);
          var k := Position(gs, m.id);
          && r.Ok? && sent == old(sent) + d && groups == gs
          && (k.Some? ==> groupSel == k && mode == Group(m.id))
          && (k.None? ==> groupSel == SELECT_FIRST && mode == Group(if |gs| == 0 then I32_MAX else gs[0].id))
    {
      var m := mode;
      if evt.code == Esc {
        mode := Group(m.titleId);
      } else if IsConfirm(evt.code) {
        if m.sel.Some? {
          mode := m.(edit := Flip(m.edit, m.sel.value));
        }
      } else if IsSave(evt) {
        r := SaveGroupChanges(m.titleId, m.cur, m.edit, m.allGroups, failAt);
        if r.Err? {
          return;
        }
        var gs := GroupsByTitle(groupsOf, m.titleId);
        var k := Position(gs, m.id);
        if k.Some? {
          groupSel := k;
          mode := Group(gs[k.value].id);
        } else {
          groupSel := SELECT_FIRST;
          mode := Group(if |gs| == 0 then I32_MAX else gs[0].id);
        }
        groups := gs;
      } else if IsUp(evt.code) {
        mode := m.(sel := SelectPrevious(m.sel));
      } else if IsDown(evt.code) {
        mode := m.(sel := SelectNext(m.sel));
      }
      return Ok(());
    }

    /** A key on the delete prompt. `y` deletes the title (its own transaction), reloads
        the titles and repairs the selection: the same index if still in range, else the
        last title, else no groups; then back to `Titles`. Esc or `n` goes back without
        deleting. `titlesAnswer` and `groupsOf` answer `all_titles` and
        `groups_by_title` after the delete. */
    method HandleDeleteKey(evt: KeyEvent, fails: bool, titlesAnswer: Result<seq<Dto.Title>>,
                           groupsOf: int -> Result<seq<Dto.CriteriaGroup>>)
      returns (r: Result<()>)
      modifies this`mode, this`titles, this`groups, this`titlesSel, this`groupSel, this`sent
      requires mode.ConfirmDelete?
      requires evt.code == Char('y') ==> titlesSel.Some?
      ensures Valid()
      ensures evt.code == Esc || evt.code == Char('n') ==>
        r.Ok? && mode == Titles && sent == old(sent) && titles == old(titles) && groups == old(groups)
        && titlesSel == old(titlesSel) && groupSel == old(groupSel)
      ensures evt.code != Esc && evt.code != Char('n') && evt.code != Char('y') ==>
        r.Ok? && mode == old(mode) && sent == old(sent) && titles == old(titles) && groups == old(groups)
        && titlesSel == old(titlesSel) && groupSel == old(groupSel)
      ensures evt.code == Char('y') && fails ==>
        r == Err(Sqlite(EngineFailure)) && mode == old(mode) && sent == old(sent)
        && titles == old(titles) && groups == old(groups) && titlesSel == old(titlesSel)
        && groupSel == old(groupSel)
      ensures evt.code == Char('y') && !fails ==>
        var idx := old(titlesSel).value;
        && r.Ok? && mode == Titles && sent == old(sent) + [DeleteTitle(old(mode).id)]
        && titles == AllTitles(titlesAnswer) && groupSel == SELECT_FIRST
        && (idx < |titles| ==> titlesSel == Some(idx) && groups == GroupsByTitle(groupsOf, titles[idx].id))
        && (idx >= |titles| && |titles| > 0 ==>
              titlesSel == SELECT_LAST && groups == GroupsByTitle(groupsOf, titles[|titles| - 1].id))
        && (|titles| == 0 ==> titlesSel == old(titlesSel) && groups == [])
    {
      if evt.code == Char('y') {
        var idx := titlesSel.value;
        if fails {
          return Err(Sqlite(EngineFailure));
        }
        sent := sent + [DeleteTitle(mode.id)];
        titles := AllTitles(titlesAnswer);
        if idx < |titles| {
          groups := GroupsByTitle(groupsOf, titles[idx].id);
        } else if |titles| > 0 {
          titlesSel := SELECT_LAST;
          groups := GroupsByTitle(groupsOf, titles[|titles| - 1].id);
        } else {
          groups := [];
        }
        groupSel := SELECT_FIRST;
        mode := Titles;
      } else if evt.code == Esc || evt.code == Char('n') {
        mode := Titles;
      }
      return Ok(());
    }
  }
}
