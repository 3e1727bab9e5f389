/**
 * The sanitiser of App.tsx's `handleProcess`: it turns the loosely shaped
 * cards the OCR step returns into time-card records whose rows all have one
 * cell per header, dropping what cannot be read as a card or a row.
 */
module Sanitizer {
  import opened Wrappers
  import opened JsonValues
  import opened TimeCards
  import opened SeqFacts

  /** `items.map(x => String(x ?? ""))`. */
  function CoerceCells(items: seq<Json>): (r: seq<string>)
    ensures |r| == |items|
    ensures forall i :: 0 <= i < |items| ==> r[i] == StringOrEmpty(Some(items[i]))
  {
    seq(|items|, i requires 0 <= i < |items| => StringOrEmpty(Some(items[i])))
  }

  /** A row brought to `n` cells: padded on the right with "" when shorter,
      cut to its first `n` cells when longer. */
  function FitRow(row: Row, n: nat): (r: Row)
    ensures |r| == n
    ensures forall i :: 0 <= i < n ==> r[i] == (if i < |row| then row[i] else "")
  {
    if |row| < n then row + seq(n - |row|, _ => "")
    else if |row| > n then row[..n]
    else row
  }

  /** The rows kept from a card's `data` array: each array row coerced and
      fitted to `n` cells, every other value dropped. */
  function SanitizeRows(rows: seq<Json>, n: nat): (r: seq<Row>)
    ensures |r| <= |rows|
    ensures forall i :: 0 <= i < |r| ==> |r[i]| == n
  {
    if rows == [] then []
    else
      (if rows[0].JArray? then [FitRow(CoerceCells(rows[0].items), n)] else [])
      + SanitizeRows(rows[1..], n)
  }

  /** Rows are handled one at a time and keep their order. */
  lemma {:induction false} SanitizeRowsConcat(a: seq<Json>, b: seq<Json>, n: nat)
    ensures SanitizeRows(a + b, n) == SanitizeRows(a, n) + SanitizeRows(b, n)
  {
    if a == [] {
      assert a + b == b;
    } else {
      var head := if a[0].JArray? then [FitRow(CoerceCells(a[0].items), n)] else [];
      assert SanitizeRows(a + b, n) == head + SanitizeRows(a[1..] + b, n) by {
        assert (a + b)[0] == a[0] && (a + b)[1..] == a[1..] + b;
      }
      assert SanitizeRows(a[1..] + b, n) == SanitizeRows(a[1..], n) + SanitizeRows(b, n) by {
        SanitizeRowsConcat(a[1..], b, n);
      }
      assert SanitizeRows(a, n) == head + SanitizeRows(a[1..], n);
      Assoc(head, SanitizeRows(a[1..], n), SanitizeRows(b, n));
    }
  }

  /** What one row becomes. */
  lemma SanitizeOneRow(row: Json, n: nat)
    ensures SanitizeRows([row], n) ==
      if row.JArray? then [FitRow(CoerceCells(row.items), n)] else []
  {
    assert [row][1..] == [];
  }

  /** The headers: an array is coerced cell by cell, anything else is []. */
  function SanitizedHeaders(card: Json): (r: seq<string>)
    ensures match Get(card, "headers")
      case Some(JArray(hs)) => |r| == |hs| && forall i :: 0 <= i < |hs| ==> r[i] == StringOrEmpty(Some(hs[i]))
      case _ => r == []
  {
    match Get(card, "headers")
    case Some(JArray(hs)) => CoerceCells(hs)
    case _ => []
  }

  /** The rows: an array is sanitised row by row, anything else is []. */
  function SanitizedData(card: Json, n: nat): (r: seq<Row>)
    ensures forall i :: 0 <= i < |r| ==> |r[i]| == n
    ensures match Get(card, "data")
      case Some(JArray(rows)) => |r| <= |rows|
      case _ => r == []
    ensures Get(card, "data").Some? && Get(card, "data").value.JArray? ==>
      r == SanitizeRows(Get(card, "data").value.items, n)
  {
    match Get(card, "data")
    case Some(JArray(rows)) => SanitizeRows(rows, n)
    case _ => []
  }

  /** `String(card.title?.[field] ?? "")`. */
  function TitleField(card: Json, field: string): (r: string)
    ensures Get(card, "title").None? ==> r == ""
    ensures Get(card, "title").Some? ==> r == StringOrEmpty(Get(Get(card, "title").value, field))
    ensures !Has(card, "title") || !Has(card.fields["title"], field) ==> r == ""
    ensures Has(card, "title") && Get(card.fields["title"], field).Some? && Get(card.fields["title"], field).value.JString?
      ==> r == Get(card.fields["title"], field).value.s
  {
    match Get(card, "title")
    case Some(t) => StringOrEmpty(Get(t, field))
    case None => ""
  }

  /** One card: `None` when it is dropped, because it is not an object (an
      array has no `headers`, so it is dropped too) or its `headers` or
      `data` is missing or falsy. */
  function SanitizeCard(card: Json): (r: Option<TimeCard>)
    ensures r.Some? <==> card.JObject? && Truthy(Get(card, "headers")) && Truthy(Get(card, "data"))
    ensures r.Some? ==> Rectangular(r.value)
    ensures r.Some? ==> r.value.title == Title(TitleField(card, "yearMonth"), TitleField(card, "name"))
    ensures r.Some? ==> r.value.headers == SanitizedHeaders(card)
    ensures r.Some? ==> r.value.data == SanitizedData(card, |r.value.headers|)
  {
    if !card.JObject? || !Truthy(Get(card, "headers")) || !Truthy(Get(card, "data")) then None
    else
      var headers := SanitizedHeaders(card);
      var title := Title(TitleField(card, "yearMonth"), TitleField(card, "name"));
      Some(TimeCard(title, headers, SanitizedData(card, |headers|)))
  }

  /** The whole sanitiser: the cards that survive, in their order. */
  function Sanitize(cards: seq<Json>): (r: seq<TimeCard>)
    ensures |r| <= |cards|
    ensures forall i :: 0 <= i < |r| ==> Rectangular(r[i])
  {
    if cards == [] then []
    else
      (match SanitizeCard(cards[0]) case Some(c) => [c] case None => [])
      + Sanitize(cards[1..])
  }

  /** A batch of one card gives that card's sanitised form, or nothing. */
  lemma SanitizeOne(c: Json)
    ensures Sanitize([c]) == match SanitizeCard(c) case Some(x) => [x] case None => []
  {
    assert [c][1..] == [];
  }

  /** Cards are handled one at a time and keep their order. */
  lemma {:induction false} SanitizeConcat(a: seq<Json>, b: seq<Json>)
    ensures Sanitize(a + b) == Sanitize(a) + Sanitize(b)
  {
    if a == [] {
      assert a + b == b;
    } else {
      var head := match SanitizeCard(a[0]) case Some(c) => [c] case None => [];
      assert Sanitize(a + b) == head + Sanitize(a[1..] + b) by {
        assert (a + b)[0] == a[0] && (a + b)[1..] == a[1..] + b;
      }
      assert Sanitize(a[1..] + b) == Sanitize(a[1..]) + Sanitize(b) by {
        SanitizeConcat(a[1..], b);
      }
      assert Sanitize(a) == head + Sanitize(a[1..]);
      Assoc(head, Sanitize(a[1..]), Sanitize(b));
    }
  }

  /** Nothing survives exactly when every card is dropped. */
  lemma {:induction false} SanitizeEmpty(cards: seq<Json>)
    ensures Sanitize(cards) == [] <==> forall i :: 0 <= i < |cards| ==> SanitizeCard(cards[i]).None?
  {
    if cards != [] {
      SanitizeEmpty(cards[1..]);
      assert forall i :: 1 <= i < |cards| ==> cards[i] == cards[1..][i - 1];
    }
  }

  /** A row as `JSON.stringify` writes it and `JSON.parse` reads it back. */
  function RowToJson(row: Row): Json {
    JArray(seq(|row|, i requires 0 <= i < |row| => JString(row[i])))
  }

  function RowsToJson(rows: seq<Row>): (r: seq<Json>)
    ensures |r| == |rows| && forall i :: 0 <= i < |rows| ==> r[i] == RowToJson(rows[i])
  {
    seq(|rows|, i requires 0 <= i < |rows| => RowToJson(rows[i]))
  }

  /** A time card as `JSON.stringify` writes it and `JSON.parse` reads it back. */
  function CardToJson(c: TimeCard): Json {
    var title := JObject(map["yearMonth" := JString(c.title.yearMonth), "name" := JString(c.title.name)]);
    JObject(map["title" := title, "headers" := RowToJson(c.headers), "data" := JArray(RowsToJson(c.data))])
  }

  lemma CoerceStrings(row: Row)
    ensures CoerceCells(RowToJson(row).items) == row
  {
  }

  lemma {:induction false} SanitizeWellFormedRows(rows: seq<Row>, n: nat)
    requires forall i :: 0 <= i < |rows| ==> |rows[i]| == n
    ensures SanitizeRows(RowsToJson(rows), n) == rows
  {
    var js := RowsToJson(rows);
    if rows != [] {
      assert js[1..] == RowsToJson(rows[1..]);
      SanitizeWellFormedRows(rows[1..], n);
      CoerceStrings(rows[0]);
      assert rows == [rows[0]] + rows[1..];
    }
  }

  /** A card already in time-card shape comes out of the sanitiser unchanged
      exactly when its rows match its headers. */
  lemma SanitizeRoundTrip(c: TimeCard)
    ensures SanitizeCard(CardToJson(c)) == Some(c) <==> Rectangular(c)
  {
    var j := CardToJson(c);
    assert Get(j, "headers") == Some(RowToJson(c.headers));
    CoerceStrings(c.headers);
    assert SanitizedHeaders(j) == c.headers;
    if Rectangular(c) {
      SanitizeWellFormedRows(c.data, |c.headers|);
      assert SanitizedData(j, |c.headers|) == c.data;
      assert TitleField(j, "yearMonth") == c.title.yearMonth;
      assert TitleField(j, "name") == c.title.name;
    }
  }
}
