/** Timeline entries: the records that `mark` and `measure` produce. */
module Entries {
  import opened Results

  /** The two kinds of entry a user-timing timeline holds. */
  datatype EntryType = MarkType | MeasureType

  /** One record of the timeline. Times are whole milliseconds since the origin instant. */
  datatype Entry = Entry(name: string, entryType: EntryType, startTime: nat, duration: nat)

  /** The reserved name of the origin instant; it can never be marked. */
  const NavigationStart: string := "navigationStart"

  /** The `entryType` string an entry of this kind reports. */
  function TypeName(t: EntryType): string
  {
    match t
    case MarkType => "mark"
    case MeasureType => "measure"
  }

  /** Reads an entry-type string from a caller; anything other than the two known names is unknown. */
  function ParseType(s: string): (r: Option<EntryType>)
    ensures r.Some? <==> s == "mark" || s == "measure"
    ensures r.Some? ==> TypeName(r.value) == s
  {
    if s == "mark" then Some(MarkType)
    else if s == "measure" then Some(MeasureType)
    else None
  }

  /** Every kind's reported name reads back as that kind. */
  lemma ParseTypeName(t: EntryType)
    ensures ParseType(TypeName(t)) == Some(t)
  {
  }
}
