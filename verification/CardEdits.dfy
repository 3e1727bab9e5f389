/**
 * The two edit handlers of App.tsx: each takes a copy of the cards on
 * screen and writes one slot of it, a data cell or a title field, when the
 * addressed card (and row) exists.
 */
module CardEdits {
  import opened TimeCards

  /** `handleDataChange`: the copy with the cell `cellIndex` of row
      `rowIndex` of card `cardIndex` set to `value`, or an unchanged copy
      when that card or row does not exist. The cell index itself is not
      checked by the handler, so callers must give one inside the row. */
  method DataChange(prevData: seq<TimeCard>, cardIndex: int, rowIndex: int, cellIndex: int, value: string)
    returns (newData: seq<TimeCard>)
    requires 0 <= cardIndex < |prevData| && 0 <= rowIndex < |prevData[cardIndex].data| ==>
      0 <= cellIndex < |prevData[cardIndex].data[rowIndex]|
    ensures |newData| == |prevData|
    ensures !(0 <= cardIndex < |prevData| && 0 <= rowIndex < |prevData[cardIndex].data|) ==> newData == prevData
    ensures forall c :: 0 <= c < |prevData| && c != cardIndex ==> newData[c] == prevData[c]
    ensures 0 <= cardIndex < |prevData| ==>
      var before, after := prevData[cardIndex], newData[cardIndex];
      after.title == before.title && after.headers == before.headers && |after.data| == |before.data|
      && (forall r :: 0 <= r < |before.data| && r != rowIndex ==> after.data[r] == before.data[r])
      && (0 <= rowIndex < |before.data| ==>
            |after.data[rowIndex]| == |before.data[rowIndex]|
            && after.data[rowIndex][cellIndex] == value
            && forall k :: 0 <= k < |before.data[rowIndex]| && k != cellIndex ==>
                 after.data[rowIndex][k] == before.data[rowIndex][k])
    ensures forall c :: 0 <= c < |prevData| && Rectangular(prevData[c]) ==> Rectangular(newData[c])
  {
    newData := prevData;
    if 0 <= cardIndex < |newData| && 0 <= rowIndex < |newData[cardIndex].data| {
      var card := newData[cardIndex];
      var row := card.data[rowIndex];
      row := row[cellIndex := value];
      card := card.(data := card.data[rowIndex := row]);
      newData := newData[cardIndex := card];
    }
  }

  /** The two editable title fields. */
  datatype TitleKey = YearMonth | Name

  /** Reads one title field. */
  function TitleValue(t: Title, field: TitleKey): string {
    match field
    case YearMonth => t.yearMonth
    case Name => t.name
  }

  /** `handleTitleChange`: the copy with the named title field of card
      `cardIndex` set to `value`, or an unchanged copy when there is no such
      card. */
  method TitleChange(prevData: seq<TimeCard>, cardIndex: int, field: TitleKey, value: string)
    returns (newData: seq<TimeCard>)
    ensures |newData| == |prevData|
    ensures !(0 <= cardIndex < |prevData|) ==> newData == prevData
    ensures forall c :: 0 <= c < |prevData| && c != cardIndex ==> newData[c] == prevData[c]
    ensures 0 <= cardIndex < |prevData| ==>
      var before, after := prevData[cardIndex], newData[cardIndex];
      after.headers == before.headers && after.data == before.data
      && TitleValue(after.title, field) == value
      && forall other :: other != field ==> TitleValue(after.title, other) == TitleValue(before.title, other)
    ensures forall c :: 0 <= c < |prevData| && Rectangular(prevData[c]) ==> Rectangular(newData[c])
  {
    newData := prevData;
    if 0 <= cardIndex < |newData| {
      var card := newData[cardIndex];
      var title := match field
        case YearMonth => card.title.(yearMonth := value)
        case Name => card.title.(name := value);
      newData := newData[cardIndex := card.(title := title)];
    }
  }
}
