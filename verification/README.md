# Time-card OCR: a verified model of its record logic

The application reads scanned time cards (attendance sheets) with an OCR
model, turns the model's JSON reply into time-card records, merges the
records of the same person and month, lets the user edit cells and titles,
and writes the cards out as workbooks. A second screen edits the list of
work patterns (named shifts). This project models the deterministic core of
that program in Dafny and proves what it promises:

- the handling of one page's reply (`services/geminiService.ts`): the JSON
  payload is cut out of the reply text, from the first `[` to the last `]`
  and, failing that, from the first `{` to the last `}`; a parsed array is
  kept only when every item is a well-formed `table` or `transcription`;
- the sanitiser of `handleProcess` (`App.tsx`), which coerces every value to
  a string, fits every row to the header count and drops what is not a card
  or a row; the batch failure rule; and the merger, which groups cards by
  the key `name-yearMonth` (white space removed) and re-sorts the rows of a
  key by the day number in their first cell each time a card is added;
- the cell and title edits, and the worksheet and file names of a download;
- `parseTime` (`services/utils.ts`), which reads `"900"`, `"9:05"` or
  `"1830"` as hours;
- the work-pattern list of `components/WorkPatternModal.tsx`: delete by
  id, save by id (replace or append) and the defaults of a new pattern.

The JavaScript built-ins the code relies on (`trim`, `\s`, `parseInt`,
`indexOf`, `lastIndexOf`, `substring`, `replace`, truthiness, `String(x ??
"")`) are written out with their ECMAScript behaviour in `JsStrings.dfy` and
`JsonValues.dfy`. The merger's loop is an imperative method over a map, proved
equal to a specification over the whole input (`CardMerge.MergeSpec`); the
page loop is likewise a method proved equal to `OcrResponse.AllPages`; the
modal's state is a class whose methods replace its two fields.

Two points where the code does not do what a reader of its comments might
expect are modelled as the code does them: a merge of two cards with the
same key and a different number of headers produces rows that do not match
the headers (`CardMerge.MergeBreaksRectangular`), and the rows of a key
seen only once are never sorted (`CardMerge.MergedRowsOrder`). A name that
contains `-` can also make two different titles share a merge key
(`CardMerge.MergeKeyCollision`).

Files: `Wrappers.dfy` (Option, Result), `SeqFacts.dfy` (sequence facts),
`JsStrings.dfy`, `JsonValues.dfy`, `TimeCards.dfy` (the record of
`types.ts`), `Sanitizer.dfy`, `StableSort.dfy`, `CardMerge.dfy`,
`Process.dfy`, `CardEdits.dfy`, `ExportNames.dfy`, `TimeParse.dfy`,
`WorkPatterns.dfy`, `OcrResponse.dfy`.

## Model

| member | source | states |
|---|---|---|
| JsStrings.StripWhitespace | App.tsx:311 | removing every `\s` character leaves no white space, keeps every other character and adds none, and leaves a string without white space as it is |
| JsStrings.WhitespaceExamples | App.tsx:311 | the ideographic space, the no-break space and the tab are white space for `\s` and `trim()`; digits and `-` are not |
| JsStrings.StripWhitespaceSingle | App.tsx:311 | one character is dropped when it is white space and kept otherwise, which with the concatenation law fixes the result and its order |
| JsStrings.StripWhitespaceConcat | App.tsx:311 | white-space removal works on each part of a concatenation separately |
| JsStrings.StripAllWhitespace | App.tsx:311 | a text of white space only strips to the empty string |
| JsStrings.StripInsertedWhitespace | App.tsx:311 | white space inserted anywhere is removed again, giving the result of the text without it |
| JsStrings.Trim | services/geminiService.ts:74 | `trim()` never lengthens, and its result neither starts nor ends with white space |
| JsStrings.TrimSlice | services/geminiService.ts:74 | `trim()` gives the slice of the text between a run of leading and a run of trailing white space |
| JsStrings.TrimOfTrimmed | services/geminiService.ts:74 | trimming a text that neither starts nor ends with white space leaves it unchanged |
| JsStrings.LeadingDigits | services/utils.ts:12-13 | the digit run `parseInt` reads is the longest prefix made of decimal digits |
| JsStrings.ParseIntOfDigits | services/utils.ts:12-13 | `parseInt` of a non-empty digit string is the number the digits denote |
| JsStrings.ParseInt | services/utils.ts:12-13 | `parseInt` finds a number only where the text holds a digit, and a negative one only where it holds a `-` |
| JsStrings.ParseIntPrefix | services/utils.ts:12-13 | `parseInt` stops at the first character that is not a digit: a digit run followed by anything else reads as the run's value |
| JsStrings.ParseIntForm | services/utils.ts:12-13 | the whole of `parseInt` on any text laid out as white space, an optional `+` or `-`, digits and a rest not starting with a digit: NaN when there are no digits (so "", "-", "abc" are NaN), otherwise the digits' value, negated after `-` |
| JsStrings.IndexOf | services/geminiService.ts:77 | `indexOf` is -1 exactly when the character is absent, and otherwise the position of its first occurrence |
| JsStrings.LastIndexOf | services/geminiService.ts:78 | `lastIndexOf` is -1 exactly when the character is absent, and otherwise the position of its last occurrence |
| JsStrings.RemoveFirst | services/utils.ts:8 | `replace(':', '')` leaves a text without a colon as it is, and otherwise removes exactly the first colon, keeping everything before and after it |
| JsStrings.RemoveAll | App.tsx:357 | removing a character class leaves none of its characters, keeps every other character, adds none and never lengthens |
| JsStrings.RemoveAllSingle | App.tsx:357 | one character is dropped when it is in the class and kept otherwise, which with `RemoveAllConcat` fixes the result and its order |
| JsStrings.RemoveAllClean | App.tsx:357 | removing a class from a string without any of its characters changes nothing |
| JsStrings.RemoveAllConcat | App.tsx:357 | removing a class works on each part of a concatenation separately |
| JsStrings.ReplaceAll | App.tsx:368-369 | replacing a character class by `_` keeps the length and changes exactly the class's characters |
| JsStrings.Substring | services/geminiService.ts:81 | `substring` is always a slice of its string; in-range ends give the slice between them, in either order |
| JsonValues.Get | App.tsx:267 | a property is found exactly when the value is an object with that key, and what is found is that field's value |
| JsonValues.StringOrEmpty | App.tsx:279 | `String(x ?? "")` is "" for null and undefined, the text itself for a string, the number's rendering for a number, "true" or "false" for a boolean, "[object Object]" for an object and `String` of the value for an array |
| JsonValues.ArrayText | App.tsx:279 | `String` of an array joins its items with ",": the empty array is "", one item is its text, and each further item adds "," and its text, `null` items counting as "" |
| JsonValues.JoinFromAppend | App.tsx:279 | joining from any position onward, one more item at the end adds "," and its text |
| JsonValues.TruthyValues | App.tsx:267 | an empty array or object is truthy, so a card with `headers: []` is kept; `undefined`, `null`, `false`, `0` and "" are falsy |
| Sanitizer.CoerceCells | App.tsx:279 | each cell becomes its `String(x ?? "")`, one for one |
| Sanitizer.FitRow | App.tsx:281-286 | a fitted row has exactly the header count of cells: its own cells first, then "" |
| Sanitizer.SanitizeRows | App.tsx:275-290 | no more rows come out than go in, and every row that does has the header count of cells |
| Sanitizer.SanitizeRowsConcat | App.tsx:275-290 | rows are handled independently and keep their relative order |
| Sanitizer.SanitizeOneRow | App.tsx:276-288 | an array row becomes its coerced, fitted cells; any other value is dropped |
| Sanitizer.SanitizedHeaders | App.tsx:272-273 | an array of headers becomes its cells' `String(h ?? "")`, one for one; any other value gives no headers |
| Sanitizer.SanitizedData | App.tsx:275-290 | an array `data` gives exactly its rows filtered and fitted by `SanitizeRows`, every kept row has the header count of cells and no more rows come out than go in; a `data` that is not an array gives no rows |
| Sanitizer.TitleField | App.tsx:292-296 | with a title present the field is `String(title[field] ?? "")`; a missing title or field gives "", and a string field gives its own text |
| Sanitizer.SanitizeCard | App.tsx:266-300 | a card survives exactly when it is an object whose `headers` and `data` are truthy; a survivor is rectangular, carries the coerced title fields, the coerced headers and the coerced rows fitted to the header count |
| Sanitizer.Sanitize | App.tsx:265-302 | the sanitised batch is no longer than the input and every card in it is rectangular |
| Sanitizer.SanitizeOne | App.tsx:265-302 | a batch of one card gives exactly that card's sanitised form, or nothing when it is dropped |
| Sanitizer.SanitizeConcat | App.tsx:265-302 | cards are handled independently and the survivors keep their relative order |
| Sanitizer.SanitizeEmpty | App.tsx:302-304 | nothing survives exactly when every card is dropped |
| Sanitizer.CoerceStrings | App.tsx:279 | coercing cells that are already strings gives them back |
| Sanitizer.SanitizeWellFormedRows | App.tsx:275-290 | rows of strings that already have the header count pass through unchanged |
| Sanitizer.SanitizeRoundTrip | App.tsx:266-300 | a time card written as JSON comes back unchanged exactly when it is rectangular |
| Process.HandleProcess | App.tsx:304-329 | the batch fails with the prefixed mismatch message exactly when it is non-empty and no card survives; otherwise the result is the merge of the survivors, and an empty batch gives no cards |
| StableSort.WithKeyConcat | App.tsx:316-320 | the elements with one key, taken from a concatenation, are those of each part in turn |
| StableSort.WithKeyNone | App.tsx:316-320 | a sequence without the key has no elements with it |
| StableSort.InsertPos | App.tsx:316-320 | the insertion point lies before every larger key and, in sorted input, after every smaller or equal key |
| StableSort.Insert | App.tsx:316-320 | insertion adds exactly the one element |
| StableSort.InsertSorted | App.tsx:316-320 | insertion into a sorted sequence keeps it sorted |
| StableSort.InsertStable | App.tsx:316-320 | insertion places the new element after every element with an equal key |
| StableSort.SortBy | App.tsx:316-320 | the sort is in key order and a permutation of its input |
| StableSort.SortByStable | App.tsx:316-320 | elements with the same key keep their relative order |
| StableSort.SortByOfSorted | App.tsx:316-320 | input already in key order is left as it is |
| StableSort.SortByConcat | App.tsx:316-320 | sorting a concatenation is inserting the second part into the sorted first part |
| StableSort.SortByAgain | App.tsx:313-320 | sorting after each append gives the same rows as one sort of everything |
| CardMerge.KeysInOrder | App.tsx:309-324 | the keys listed are distinct and include the key of every card |
| CardMerge.DayKey | App.tsx:317-318 | a row without a first cell, one whose first cell is blank, and one whose trimmed first cell `parseInt` reads as NaN all sort as day 0; otherwise the key is the number `parseInt` reads from the trimmed first cell, sign included |
| CardMerge.DayKeyOfSignedNumber | App.tsx:317-318 | a trimmed first cell of a sign, digits and a rest not starting with a digit sorts by the signed value: "-3" sorts as -3, before the rows keyed 0 |
| CardMerge.DayKeyOfLabel | App.tsx:317-318 | a first cell whose trimmed text starts with neither a digit nor a sign, such as a totals label, sorts as day 0 |
| CardMerge.DayKeyOfDayNumber | App.tsx:317-318 | a first cell holding a day number, with white space around it and anything but a digit after it, sorts by that number |
| CardMerge.MergeKey | App.tsx:311 | the key is the stripped name, a `-` and the stripped year-month |
| CardMerge.MergeKeyIgnoresWhitespace | App.tsx:311 | white space inserted anywhere in the name or the year-month, such as a leading ideographic space, does not change the key |
| CardMerge.MergedCard | App.tsx:313-322 | the merged card of a key has the title and headers of the first card with that key |
| CardMerge.FirstIndex | App.tsx:312-322 | the first position of a key holds a card with that key and no earlier card has it |
| CardMerge.MergeSpec | App.tsx:309-325 | the output holds one merged card per distinct key, in the order the keys are first seen |
| CardMerge.CountZero | App.tsx:312-322 | a key that never occurs has no cards and no rows |
| CardMerge.CountOne | App.tsx:312-322 | a key seen once contributes exactly the rows of its one card |
| CardMerge.CountPositive | App.tsx:312-322 | a key that occurs has at least one card |
| CardMerge.KeysFirstSeenOrder | App.tsx:322-325 | the keys are exactly those of the cards, listed in the order of their first occurrence |
| CardMerge.MergeStepNew | App.tsx:321-322 | a card with a new key is stored as it is and its key goes to the end of the order |
| CardMerge.MergeStepSame | App.tsx:312-320 | a card with a known key has its rows appended to the stored card's and the whole is sorted again; the order of keys is unchanged |
| CardMerge.MergeStepOther | App.tsx:310-324 | adding a card leaves the merged card of every other key unchanged |
| CardMerge.ValuesInOrder | App.tsx:325 | the map's values come out in the insertion order of their keys |
| CardMerge.CollectMerged | App.tsx:325 | once the loop is done, the values in insertion order are the specified merge |
| CardMerge.Merge | App.tsx:309-325 | the map-building loop produces exactly the specified merge |
| CardMerge.MergedKey | App.tsx:311-322 | the merged card of a key has that key |
| CardMerge.MergeOnePerKey | App.tsx:309-325 | the i-th merged card carries the i-th distinct key |
| CardMerge.MergeKeysDistinct | App.tsx:309-325 | no two merged cards share a key, and every input card's key has a merged card |
| CardMerge.MergedRowsPermutation | App.tsx:313-314 | a merged card's rows are a permutation of all rows with its key in input order |
| CardMerge.MergedRowsOrder | App.tsx:316-322 | for a key seen at least twice the rows are in day order and equal days keep arrival order; for a key seen once the rows are its card's, unsorted |
| CardMerge.RowsWithKeyWidth | App.tsx:314 | every row gathered for a key has the common width of that key's rectangular cards |
| CardMerge.MergePreservesRectangular | App.tsx:314 | a merged card is rectangular when every card with its key is rectangular with the first card's header count |
| CardMerge.MergeBreaksRectangular | App.tsx:312-320 | two rectangular cards with one key and different header counts merge into a non-rectangular card |
| CardMerge.MergeKeyInjective | App.tsx:311 | titles without white space and without `-` in the name are told apart by their key |
| CardMerge.MergeKeyCollision | App.tsx:311 | with a `-` inside a name, two different titles can share a key |
| CardEdits.DataChange | App.tsx:335-343 | only the addressed cell changes, to the new value; an address outside the cards or rows leaves everything unchanged; rectangular cards stay rectangular |
| CardEdits.TitleChange | App.tsx:345-353 | only the named title field of the addressed card changes; an index outside the cards leaves everything unchanged |
| ExportNames.SheetName | App.tsx:357 | the sheet name is at most 31 characters, holds no forbidden character, and is the longest prefix of the cleaned title text that fits |
| ExportNames.SheetBase | App.tsx:357 | cleaning `"${yearMonth} ${name}"` cleans the year-month and the name separately and keeps the space between them |
| ExportNames.SheetNameOfCleanTitle | App.tsx:357 | a clean title whose text fits is its own sheet name |
| ExportNames.SheetNameIsClean | App.tsx:380 | cleaning a sheet name again changes nothing |
| ExportNames.FileNamePart | App.tsx:368-369 | a file-name part is the text with white space removed, in which each forbidden character becomes `_` and every other character stays in place; it holds no white space or forbidden character |
| ExportNames.FileName | App.tsx:368-372 | with both cleaned parts non-empty the name is `${name}_${yearMonth}.xlsx` from the cleaned parts, otherwise `TimeCard.xlsx`; every such name is free of white space and forbidden characters and ends in `.xlsx` |
| ExportNames.FileNameFallback | App.tsx:370 | the fallback `TimeCard.xlsx` is used exactly when the name or the year-month is all white space |
| ExportNames.AllCardsNameDistinct | App.tsx:393 | the name of the all-cards download, `TimeCards.xlsx`, is never the name of a single-card download |
| TimeParse.ParseTime | services/utils.ts:5-22 | the empty text is rejected; any other text is read by `ParseCompact` with its first colon removed; an accepted text has 3 or 4 characters once its colon is gone, and its value is h + m/60 for an hour 0..23 and a minute 0..59, so it lies in [0, 24) |
| TimeParse.ParseCompact | services/utils.ts:9-18 | a text of 3 or 4 characters is accepted exactly when `parseInt` reads a number from both its hour part (all but the last two characters) and its minute part (the last two), with the hour in 0..23 and the minute in 0..59; an accepted text has 3 or 4 characters and its value is h + m/60 of those two numbers |
| TimeParse.ExampleLeadingSpace | services/utils.ts:8-18 | " 905" is 9:05, because `parseInt` skips the leading space of its hour part " 9" |
| TimeParse.ExampleLeadingPlus | services/utils.ts:8-18 | "+905" is 9:05, because `parseInt` takes the sign of its hour part "+9" |
| TimeParse.ExampleTrailingDot | services/utils.ts:8-18 | "9.05" is 9:05, because `parseInt` stops at the dot of its hour part "9." |
| TimeParse.ExampleNotANumber | services/utils.ts:8-17 | "9x5" is rejected because its minute part is NaN, and "9:-5" because its minute part -5 is out of range |
| TimeParse.CompactDigits | services/utils.ts:12-18 | a digit text is accepted exactly when its hour part is at most 23 and its minute part at most 59, with the value they denote |
| TimeParse.NoColon | services/utils.ts:8 | a text without a colon is read as it is |
| TimeParse.ExampleNineOClock | services/utils.ts:2 | `"900"` is 9 hours |
| TimeParse.ExampleHalfPastSix | services/utils.ts:2 | `"1830"` is 18.5 hours |
| TimeParse.ExampleWithoutColon | services/utils.ts:12-18 | `"905"` is 9 + 5/60 hours |
| TimeParse.ExampleWithColon | services/utils.ts:8-18 | `"9:05"` is 9 + 5/60 hours |
| TimeParse.ExampleHourOutOfRange | services/utils.ts:15-17 | `"2500"` is rejected |
| TimeParse.ColonInsensitiveAt | services/utils.ts:8 | a text with one colon parses like the text without it |
| TimeParse.ColonInsensitive | services/utils.ts:8 | `"H:MM"` and `"HMM"` (and `"HH:MM"` and `"HHMM"`) give the same result |
| TimeParse.DigitExample | services/utils.ts:9-18 | a digit text with given hour and minute parts parses to h + m/60 when both are in range, and is rejected otherwise |
| TimeParse.DigitText | services/utils.ts:9-18 | a text of 3 or 4 digits is accepted exactly when its parts are an hour and a minute |
| TimeParse.ParseFormatted | services/utils.ts:5-18 | every `"HH:MM"` text of a valid time parses back to that time |
| WorkPatterns.NewPattern | components/WorkPatternModal.tsx:18-25 | a new pattern has the given id, an empty name, 09:00 to 18:00 and a one-hour break |
| WorkPatterns.NewPatternHours | components/WorkPatternModal.tsx:22-23 | the default start and end parse as 9 and 18 hours |
| WorkPatterns.WithoutId | components/WorkPatternModal.tsx:32-34 | a pattern is kept exactly when it was present and has a different id |
| WorkPatterns.WithoutIdConcat | components/WorkPatternModal.tsx:33 | deleting works on each part of a concatenation separately, so the kept patterns keep their order |
| WorkPatterns.WithoutAbsentId | components/WorkPatternModal.tsx:33 | deleting an id nobody has changes nothing |
| WorkPatterns.WithoutIdUnique | components/WorkPatternModal.tsx:33 | deleting keeps ids unique |
| WorkPatterns.DeleteUniqueAt | components/WorkPatternModal.tsx:33 | with unique ids, deleting the id at one position removes just that position |
| WorkPatterns.FindIndexById | components/WorkPatternModal.tsx:39 | `findIndex` is -1 exactly when no pattern has the id, and otherwise the first position with it |
| WorkPatterns.Upsert | components/WorkPatternModal.tsx:39-46 | a saved pattern with a new id is appended after the unchanged list; with a present id the list keeps its length; either way the saved pattern is in the list |
| WorkPatterns.UpsertExisting | components/WorkPatternModal.tsx:39-43 | a saved pattern with a present id replaces the first pattern with it; the length and all other positions are unchanged |
| WorkPatterns.UpsertFound | components/WorkPatternModal.tsx:39-46 | after a save the saved pattern is the first one with its id |
| WorkPatterns.UpsertUnique | components/WorkPatternModal.tsx:39-46 | saving keeps ids unique |
| WorkPatterns.PatternEditor.constructor | components/WorkPatternModal.tsx:11-16 | the working list is the saved patterns and nothing is being edited |
| WorkPatterns.PatternEditor.AddNew | components/WorkPatternModal.tsx:18-26 | the form holds a new pattern with the defaults; the list is unchanged |
| WorkPatterns.PatternEditor.Edit | components/WorkPatternModal.tsx:28-30 | the form holds the chosen pattern; the list is unchanged |
| WorkPatterns.PatternEditor.Delete | components/WorkPatternModal.tsx:32-34 | the list loses exactly the patterns with the id and keeps unique ids unique; the form is unchanged |
| WorkPatterns.PatternEditor.SaveEditing | components/WorkPatternModal.tsx:36-48 | with nothing edited nothing changes; otherwise the edited pattern is upserted and in the list, unique ids stay unique, and the form is cleared |
| WorkPatterns.PatternEditor.FinalSave | components/WorkPatternModal.tsx:50-52 | the working list is handed back as it is |
| OcrResponse.Span | services/geminiService.ts:77-81 | a span exists exactly when both of its characters occur |
| OcrResponse.ExtractJson | services/geminiService.ts:74-89 | the payload is always a contiguous piece of the trimmed reply text |
| OcrResponse.ExtractFrom | services/geminiService.ts:77-89 | every branch of the extraction yields a slice of its input |
| OcrResponse.SpanOrdered | services/geminiService.ts:77-81 | a span whose opening character comes first runs from the first opening through the last closing character |
| OcrResponse.SpanInverted | services/geminiService.ts:81 | a span whose last closing character comes first holds what lies strictly between, the ends being swapped |
| OcrResponse.ExtractArray | services/geminiService.ts:77-81 | with a `[` before a `]` the payload runs from the first `[` through the last `]` |
| OcrResponse.ExtractInverted | services/geminiService.ts:80-81 | with the last `]` before the first `[` the payload is what lies between them |
| OcrResponse.ExtractObjectInverted | services/geminiService.ts:83-88 | without a pair of square brackets, a last `}` before the first `{` gives what lies between them, `substring` having swapped its ends |
| OcrResponse.ExtractObject | services/geminiService.ts:82-88 | without both square brackets, a `{` before a `}` gives the span from the first `{` through the last `}` |
| OcrResponse.ExtractNeither | services/geminiService.ts:80-89 | without either pair the payload is the trimmed text |
| OcrResponse.SpanOfBracketed | services/geminiService.ts:77-81 | a text that starts with the opening and ends with the closing character is its own span |
| OcrResponse.ReExtract | services/geminiService.ts:74-81 | such a text is also unchanged by trimming |
| OcrResponse.ArrayPayloadStable | services/geminiService.ts:77-81 | extracting again from an array payload gives it back |
| OcrResponse.ObjectPayloadStable | services/geminiService.ts:82-88 | extracting again from an object payload gives it back |
| OcrResponse.PlainPayloadStable | services/geminiService.ts:80-89 | extracting again from a payload without brackets gives it back |
| OcrResponse.ExtractIdempotent | services/geminiService.ts:74-89 | when the bracket pair that decides the payload opens before it closes, extracting from the payload gives the payload again |
| OcrResponse.ExtractNotIdempotent | services/geminiService.ts:74-89 | on an inverted pair extraction is not idempotent: "] a [" gives " a ", which extracts again to "a" |
| OcrResponse.ItemShapeOk | services/geminiService.ts:95-98 | an item passes `isValid` only if it is an object whose `type` is "table" or "transcription" |
| OcrResponse.ItemShapeAccepts | services/geminiService.ts:95-98 | for any object, a transcription passes exactly when it has `content`, a table exactly when it has both `headers` and `data`, and any other or missing `type` fails |
| OcrResponse.ShapeChecksPresence | services/geminiService.ts:96 | the `in` tests ask only whether a key is present: a table with `null` headers and data passes, one without `data` fails |
| OcrResponse.NoText | services/geminiService.ts:70 | a reply has no text exactly when its text is falsy in JavaScript: missing or empty |
| OcrResponse.PageItems | services/geminiService.ts:91-106 | a page adds the parsed array exactly when every item has a valid shape, and nothing otherwise |
| OcrResponse.ObjectPageAddsNothing | services/geminiService.ts:104-106 | a single object is not an array and adds nothing |
| OcrResponse.AllPages | services/geminiService.ts:21-113 | a failed run fails with the no-text message |
| OcrResponse.ProcessPages | services/geminiService.ts:21-113 | the per-page loop computes exactly the page-by-page specification |
| OcrResponse.AllPagesShape | services/geminiService.ts:95-100 | everything accumulated passed the shape check |
| OcrResponse.AllPagesFailure | services/geminiService.ts:70-72 | the run fails exactly when some page's reply has no text |
| OcrResponse.FailureSticks | services/geminiService.ts:70-72 | once the pages so far fail, the whole run fails |

## Left out

- The user interface (React components, effects, the modal's form fields and their change handlers, the table view, scrolling and keyboard handling): it renders state and holds no logic of its own.
- Reading files and base64 encoding (`FileReader`), and the `await` loop over the selected files: these are I/O. `Process.HandleProcess` starts from the list of cards that loop gathers.
- `processTimeCardFile`, which `App.tsx` imports, is not exported by `services/geminiService.ts`; its behaviour is not part of this model, so the extracted cards are a parameter of `Process.HandleProcess`.
- The Gemini client, the API key, the prompt text and the network call: each page's reply text is a parameter of `OcrResponse.ProcessPages`.
- `JSON.parse` is foreign code: it is a parameter (`string -> Option<Json>`) of `OcrResponse.ProcessPages`, and `JSON.parse(JSON.stringify(x))` deep copies are modelled as the values they copy.
- A JavaScript `null` item makes `isValid` throw instead of returning false; either way the page adds nothing, so `OcrResponse.ItemShapeOk` simply rejects it.
- Workbook creation and writing (XLSX): a foreign library; only the sheet and file names are modelled. The download of all cards keeps only its sheet names (the same expression as the single download) and its fixed name `TimeCards.xlsx`.
- Electron's main process, the preload bridge, the build scripts and configuration: platform and build code.
- Floating point: `parseTime`'s result and the break length are exact reals; `parseFloat` of the break input is not modelled.
- `crypto.randomUUID`: the fresh id is a parameter of `WorkPatterns.PatternEditor.AddNew`.
- JavaScript strings are sequences of UTF-16 code units; here a string is a sequence of characters. `substring(0, 31)` in `ExportNames.SheetName` therefore counts characters, and `TimeParse.ParseTime` and `TimeParse.ParseCompact` measure the length and split off the last two positions by characters: for a text holding a character outside the Basic Multilingual Plane, such as "12😀", JavaScript sees four code units and rejects it, while the model sees three characters and reads hour "1" and minute "2😀" and accepts it as 1 + 2/60.
- `JsStrings.ParseInt`: gives the exact integer, where JavaScript loses precision beyond 2^53.
- `CardEdits.DataChange`: requires the cell index to lie inside the addressed row, where JavaScript would write past the end and leave holes.
- The `nameCorrected` field of the time-card record is never set by the modelled code and is left out of `TimeCards.TimeCard`.
- Roster name correction, edit-distance scoring, template-sheet lookup and attendance-hour calculation are not part of this model: no code for them is present.
