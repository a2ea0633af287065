/**
  The sort menu of web/src/features/SortMenu.tsx: its five options, the click handler that
  picks a mode or flips the direction of the current one, and the direction indicator.
*/
module SortMenu {
  import opened Wrappers
  import opened ViewTypes

  datatype SortOption = SortOption(mode: SortMode, caption: string)

  /** `sortOptions`, in menu order. */
  const SortOptions: seq<SortOption> := [
    SortOption(Default, "Default"),
    SortOption(Views, "Views"),
    SortOption(NewUsers, "New Users"),
    SortOption(AverageSessionDuration, "Session Duration"),
    SortOption(UpdatedAt, "Updated At")
  ]

  /** Every sort mode has exactly one menu option. */
  lemma SortOptionsCover(m: SortMode)
    ensures exists k :: 0 <= k < |SortOptions| && SortOptions[k].mode == m
    ensures forall i, j :: 0 <= i < j < |SortOptions| ==> SortOptions[i].mode != SortOptions[j].mode
  {
    match m
    case Default => assert SortOptions[0].mode == m;
    case Views => assert SortOptions[1].mode == m;
    case NewUsers => assert SortOptions[2].mode == m;
    case AverageSessionDuration => assert SortOptions[3].mode == m;
    case UpdatedAt => assert SortOptions[4].mode == m;
  }

  datatype SortState = SortState(mode: SortMode, direction: SortDirection)

  /** `handleClick`: the clicked mode, descending unless it was already selected, which flips it. */
  function Click(state: SortState, mode: SortMode): (r: SortState)
    ensures r.mode == mode
    ensures state.mode == mode ==> r.direction != state.direction
    ensures state.mode != mode ==> r.direction == Desc
  {
    SortState(mode, if state.mode == mode then state.direction.Flip() else Desc)
  }

  /** Clicking the same option twice: back where it was if it was selected, else ascending. */
  lemma ClickTwice(state: SortState, mode: SortMode)
    ensures Click(Click(state, mode), mode) == if state.mode == mode then state else SortState(mode, Asc)
  {
  }

  /** `renderSortIcon`: only the current mode shows an arrow, pointing the current way. */
  function SortIcon(state: SortState, mode: SortMode): Option<SortDirection> {
    if state.mode != mode then None else Some(state.direction)
  }

  /** Exactly one option of the menu carries the indicator, and it shows the current direction. */
  lemma ExactlyOneIcon(state: SortState)
    ensures exists k :: 0 <= k < |SortOptions| && SortIcon(state, SortOptions[k].mode) == Some(state.direction)
    ensures forall i, j ::
      0 <= i < |SortOptions| && 0 <= j < |SortOptions| &&
      SortIcon(state, SortOptions[i].mode).Some? && SortIcon(state, SortOptions[j].mode).Some?
      ==> i == j
  {
    SortOptionsCover(state.mode);
  }
}
