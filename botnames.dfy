/** The record every component passes around: one candidate name with its tally. */
module BotNames {

  /** A candidate name. `id` keys the record, `text` is what the user typed,
      `votes` is its current tally (never negative in this program). */
  datatype Name = Name(id: string, text: string, votes: nat)

  datatype Option<T> = None | Some(value: T)

  /** The ids in use in a list of names. */
  function Ids(names: seq<Name>): set<string>
  {
    set i | 0 <= i < |names| :: names[i].id
  }

  /** No two records of the list share an id. */
  predicate IdsDistinct(names: seq<Name>)
  {
    forall i, j :: 0 <= i < j < |names| ==> names[i].id != names[j].id
  }

  /** Sum of all tallies of a list. */
  function TotalVotes(names: seq<Name>): nat
  {
    if names == [] then 0 else names[0].votes + TotalVotes(names[1..])
  }
}
