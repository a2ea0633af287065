/** The session-state enumerations of web/src/features/types.ts. */
module ViewTypes {

  /** `SortMode`: `null` is the default (catalog) order. */
  datatype SortMode = Default | Views | NewUsers | UpdatedAt | AverageSessionDuration

  datatype SortDirection = Asc | Desc {
    function Flip(): SortDirection {
      if Asc? then Desc else Asc
    }
  }

  /** `PrStatus`. */
  datatype PrStatus = AllPrs | WithPr | WithoutPr
}
