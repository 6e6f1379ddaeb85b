/** The ranking screen of critic-term/src/app/top_tab.rs: a page of `top` rows, the
    page number, the group filter and the table selection, and the keys that page
    through the ranking and toggle the filter.

    The store is the query function `top_criteria.sql` answers with, a parameter of
    each operation. */
module TopTab {
  import opened Sqlite
  import opened Dto
  import opened Terminal
  import CriticData

  /** Rows per page. */
  const PAGE_SIZE: nat := 30

  /** Every answer of the store decodes; the source unwraps each row. */
  ghost predicate Decodes(query: CriticData.Query) {
    forall ps :: query(ps).Ok? ==> CriticData.Decodable(query(ps).value)
  }

  /** A page whose window fits in `usize`. */
  predicate PageFits(page: nat) {
    (page + 1) * PAGE_SIZE <= USIZE_MAX
  }

  /** `top_rows`: the page of the ranking under filter `group`; a failing query shows
      as an empty page. */
  function TopRowsOf(query: CriticData.Query, group: string, page: nat): (rows: seq<TopRow>)
    requires Decodes(query) && PageFits(page)
    ensures query(CriticData.TopParams(group, PAGE_SIZE, page)).Err? ==> rows == []
    ensures query(CriticData.TopParams(group, PAGE_SIZE, page)).Ok? ==>
      |rows| == |query(CriticData.TopParams(group, PAGE_SIZE, page)).value|
  {
    match CriticData.TopAnswer(query, group, PAGE_SIZE, page)
    case Ok(rs) => rs
    case Err(_) => []
  }

  method TopRows(query: CriticData.Query, group: string, page: nat) returns (rows: seq<TopRow>)
    requires Decodes(query) && PageFits(page)
    ensures rows == TopRowsOf(query, group, page)
  {
    var r := CriticData.Top(query, group, PAGE_SIZE, page);
    rows := if r.Ok? then r.value else [];
  }

  /** `page.saturating_sub(1)` and `page.saturating_add(1)` on `usize`. */
  function PageBefore(page: nat): (p: nat)
    ensures page == 0 ==> p == 0
    ensures page > 0 ==> p == page - 1
  {
    if page > 0 then page - 1 else 0
  }

  function PageAfter(page: nat): (p: nat)
    ensures page < USIZE_MAX ==> p == page + 1
    ensures page >= USIZE_MAX ==> p == page
  {
    if page < USIZE_MAX then page + 1 else page
  }

  /** The filter after Enter: with no filter, the group of the selected row (if any);
      with a filter, none. */
  function ToggledFilter(criteria: string, rows: seq<TopRow>, sel: Option<nat>): (c: string)
    requires criteria == "" && sel.Some? ==> sel.value < |rows|
    ensures criteria != "" ==> c == ""
    ensures criteria == "" && sel.Some? ==> c == rows[sel.value].group
    ensures criteria == "" && sel.None? ==> c == ""
  {
    if criteria == "" then (if sel.Some? then rows[sel.value].group else criteria) else ""
  }

  predicate IsUp(code: KeyCode) { code == Up || code == Char('w') }
  predicate IsDown(code: KeyCode) { code == Down || code == Char('s') }
  predicate IsLeft(code: KeyCode) { code == Left || code == Char('a') }
  predicate IsRight(code: KeyCode) { code == Right || code == Char('d') }
  predicate IsConfirm(code: KeyCode) { code == Enter || code == Char(' ') }

  class TopWidget {
    var rows: seq<TopRow>
    var page: nat
    var criteria: string
    var selected: Option<nat>

    predicate Valid()
      reads this
    {
      PageFits(page)
    }

    /** The rows on screen are the current page of the ranking under the current filter. */
    ghost predicate Showing(query: CriticData.Query)
      reads this
    {
      Decodes(query) && PageFits(page) && rows == TopRowsOf(query, criteria, page)
    }

    /** `TopWidget::new`: the first page of the unfiltered ranking, first row selected. */
    constructor (query: CriticData.Query)
      requires Decodes(query)
      ensures Valid() && Showing(query)
      ensures page == 0 && criteria == "" && selected == SELECT_FIRST
    {
      rows := TopRowsOf(query, "", 0);
      page := 0;
      criteria := "";
      selected := SELECT_FIRST;
    }

    /** `handle_key_events`. Modifiers are ignored. */
    method HandleKey(evt: KeyEvent, query: CriticData.Query)
      modifies this
      requires Valid() && Decodes(query)
      requires IsRight(evt.code) ==> PageFits(PageAfter(page))
      requires IsConfirm(evt.code) && criteria == "" && selected.Some? ==> selected.value < |rows|
      ensures Valid()
      ensures old(Showing(query)) ==> Showing(query)
      ensures IsUp(evt.code) ==>
        selected == SelectPrevious(old(selected)) && rows == old(rows) && page == old(page) && criteria == old(criteria)
      ensures IsDown(evt.code) ==>
        selected == SelectNext(old(selected)) && rows == old(rows) && page == old(page) && criteria == old(criteria)
      ensures IsLeft(evt.code) || IsRight(evt.code) ==>
        var p := if IsLeft(evt.code) then PageBefore(old(page)) else PageAfter(old(page));
        var rs := TopRowsOf(query, old(criteria), p);
        && criteria == old(criteria)
        && (|rs| > 0 ==> rows == rs && page == p && selected == SELECT_FIRST)
        && (|rs| == 0 ==> rows == old(rows) && page == old(page) && selected == old(selected))
      ensures IsConfirm(evt.code) ==>
        && criteria == ToggledFilter(old(criteria), old(rows), old(selected))
        && page == 0 && selected == SELECT_FIRST
        && rows == TopRowsOf(query, criteria, 0)
        && Showing(query)
      ensures !(IsUp(evt.code) || IsDown(evt.code) || IsLeft(evt.code) || IsRight(evt.code) || IsConfirm(evt.code)) ==>
        rows == old(rows) && page == old(page) && criteria == old(criteria) && selected == old(selected)
    {
      if IsUp(evt.code) {
        selected := SelectPrevious(selected);
      } else if IsDown(evt.code) {
        selected := SelectNext(selected);
      } else if IsLeft(evt.code) || IsRight(evt.code) {
        var p := if IsLeft(evt.code) then PageBefore(page) else PageAfter(page);
        var rs := TopRows(query, criteria, p);
        if |rs| > 0 {
          rows := rs;
          page := p;
          selected := SELECT_FIRST;
        }
      } else if IsConfirm(evt.code) {
        criteria := ToggledFilter(criteria, rows, selected);
        page := 0;
        selected := SELECT_FIRST;
        rows := TopRows(query, criteria, page);
      }
    }
  }
}
