/** The record the rebalancer keeps per holding, and the facts about ids
    that the position store maintains. */
module Positions {

  /** A parsed form field: `None` stands for a JavaScript `NaN`. */
  datatype Option<+T> = None | Some(value: T)

  /** One holding as entered in the form. Numbers are exact reals; the
      identifier is an opaque string. */
  datatype Position = Position(
    id: string,
    name: string,
    shares: real,
    price: real,
    targetWeight: real)

  /** Some record of `ps` carries identifier `id`. */
  predicate HasId(ps: seq<Position>, id: string)
  {
    exists i :: 0 <= i < |ps| && ps[i].id == id
  }

  /** No two records of `ps` share an identifier. */
  predicate UniqueIds(ps: seq<Position>)
  {
    forall i, j :: 0 <= i < j < |ps| ==> ps[i].id != ps[j].id
  }
}
