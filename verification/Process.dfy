/**
 * The end of App.tsx's `handleProcess` once every page has been read: the
 * extracted cards are sanitised, a batch in which nothing survives fails,
 * and the rest is merged per person and month.
 */
module Process {
  import opened JsonValues
  import opened TimeCards
  import opened Sanitizer
  import opened CardMerge

  /** The error raised when the model answered but no card had the
      expected shape. */
  const MismatchMessage: string :=
    "AIは応答しましたが、期待されるデータ形式と一致しませんでした。ファイルがタイムカード形式であることを確認してください。"

  /** What the error banner puts in front of an error's message. */
  const ErrorPrefix: string := "処理中にエラーが発生しました:\n"

  /** What the screen shows after a batch: the merged cards, or an error. */
  datatype Outcome = Cards(cards: seq<TimeCard>) | Error(message: string)

  /** Sanitise, apply the failure rule, merge. */
  method HandleProcess(extracted: seq<Json>) returns (r: Outcome)
    ensures r.Error? <==> |extracted| > 0 && forall i :: 0 <= i < |extracted| ==> SanitizeCard(extracted[i]).None?
    ensures r.Error? ==> r.message == ErrorPrefix + MismatchMessage
    ensures r.Cards? ==> r.cards == MergeSpec(Sanitize(extracted))
    ensures extracted == [] ==> r == Cards([])
  {
    var sanitized := Sanitize(extracted);
    SanitizeEmpty(extracted);
    if |extracted| > 0 && |sanitized| == 0 {
      return Error(ErrorPrefix + MismatchMessage);
    }
    var merged := Merge(sanitized);
    return Cards(merged);
  }
}
