/** The plain records of critic/src/dto: values passed between the store and its callers. */
module Dto {

  datatype Contestant = Contestant(id: int, name: string, elo: real)

  /** A criterion of a criteria group, as `next_contest` reports it. */
  datatype Criterion = Criterion(group: int, id: int, name: string, groupName: string)

  /** A proposed comparison awaiting a judgment. */
  datatype Contest = Contest(criterion: Criterion, a: Contestant, b: Contestant)

  /** A judgment: contestant `a` scored `score` against `b` under `criterion`. */
  datatype MatchResult = MatchResult(
    criteriaGroup: int,
    criterion: int,
    a: int,
    b: int,
    score: real,
    eloChange: (int, int))

  /** One line of the ranking. */
  datatype TopRow = TopRow(group: string, entry: string, elo: int)

  datatype CriteriaGroup = CriteriaGroup(id: int, name: string)

  datatype Title = Title(id: int, name: string)

  /** A title to add, with the names of the sub-categories (criteria) it belongs to. */
  datatype NewCategoryItem = NewCategoryItem(name: string, subCategories: seq<string>)
}
