/** The millisecond units the dashboard's date arithmetic is written in. */
module TimeUnits {

  const SECOND_MS: int := 1000
  const MINUTE_MS: int := 1000 * 60
  const HOUR_MS: int := 1000 * 60 * 60
  const DAY_MS: int := 1000 * 60 * 60 * 24
}

/**
 * The static part of the page the dashboard script works on: the task items,
 * the course cards that contain them and the filter buttons, each in document
 * order. The marker classes the script toggles ('completed', 'hidden',
 * 'active') are not here: they are the mutable state of Dashboard.Board.
 */
module Markup {
  import opened Wrappers

  /**
   * A task item. `card` is the index of the course card that contains it,
   * `due` the instant of its `data-date` in milliseconds (None when the date
   * does not parse), `startText` the text of its start-date span, if any.
   */
  datatype Task = Task(id: string, card: nat, due: Option<int>, name: string, startText: Option<string>)

  /** A course card: its `data-course` attribute (if any) and its heading text. */
  datatype Card = Card(course: Option<string>, heading: string)

  /** A filter button: its `data-filter` and `data-status` attributes. */
  datatype FilterButton = FilterButton(filter: Option<string>, status: Option<string>)

  /** Every task item lies inside one of the first `n` course cards. */
  predicate CardsWithin(tasks: seq<Task>, n: nat) {
    forall t :: 0 <= t < |tasks| ==> tasks[t].card < n
  }
}
