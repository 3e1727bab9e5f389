/**
 * The time-card record of types.ts: a title holding the year-month and the
 * person's name, the column headers, and the data rows as strings.
 */
module TimeCards {

  datatype Title = Title(yearMonth: string, name: string)

  datatype TimeCard = TimeCard(title: Title, headers: seq<string>, data: seq<seq<string>>)

  type Row = seq<string>

  /** Every data row has exactly one cell per header. */
  predicate Rectangular(c: TimeCard) {
    forall i :: 0 <= i < |c.data| ==> |c.data[i]| == |c.headers|
  }
}
