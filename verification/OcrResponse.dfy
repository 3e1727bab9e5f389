/**
 * The handling of each page's reply in services/geminiService.ts
 * `processDocumentPages`: the JSON payload is cut out of the reply's text,
 * parsed, and kept only when it is an array of well-formed items. The call
 * to the model and `JSON.parse` itself are parameters here.
 */
module OcrResponse {
  import opened Wrappers
  import opened JsStrings
  import opened JsonValues
  import opened SeqFacts

  /** The error thrown when a reply has no text. */
  const NoTextMessage: string :=
    "APIからの応答にテキストデータが含まれていませんでした。ファイルを確認してもう一度お試しください。"

  /** `s.substring(start, end + 1)` from a first `open` to a last `close`,
      or `None` when one of them is missing. */
  function Span(s: string, open: char, close: char): (r: Option<string>)
    ensures r.None? <==> open !in s || close !in s
    ensures r.Some? ==> exists i, j :: 0 <= i <= j <= |s| && r.value == s[i..j]
  {
    var start, end := IndexOf(s, open), LastIndexOf(s, close);
    if start != -1 && end != -1 then Some(Substring(s, start, end + 1)) else None
  }

  /** The payload cut out of a reply's text: see `ExtractFrom`. It is
      always a contiguous piece of the trimmed text. */
  function ExtractJson(text: string): (r: string)
    ensures exists i, j :: 0 <= i <= j <= |Trim(text)| && r == Trim(text)[i..j]
  {
    ExtractFrom(Trim(text))
  }

  /** The payload cut out of the trimmed text `s`: from its first `[` to its
      last `]`; failing that, from its first `{` to its last `}`; failing
      that, `s` itself. */
  function ExtractFrom(s: string): (r: string)
    ensures exists i, j :: 0 <= i <= j <= |s| && r == s[i..j]
  {
    match Span(s, '[', ']')
    case Some(list) => list
    case None =>
      match Span(s, '{', '}')
      case Some(obj) => obj
      case None => assert s[0..|s|] == s; s
  }

  /** The pair of brackets that decides the payload, if any, opens before
      it closes: the square brackets when both occur, otherwise the braces. */
  predicate WellOrdered(s: string) {
    if '[' in s && ']' in s then IndexOf(s, '[') < LastIndexOf(s, ']')
    else '{' in s && '}' in s ==> IndexOf(s, '{') < LastIndexOf(s, '}')
  }

  /** A span whose first `open` comes before its last `close` runs from
      the one through the other ... */
  lemma SpanOrdered(s: string, open: char, close: char)
    requires open in s && close in s && IndexOf(s, open) <= LastIndexOf(s, close)
    ensures var a, b := IndexOf(s, open), LastIndexOf(s, close);
      Span(s, open, close) == Some(s[a..b + 1]) && s[a..b + 1][0] == open && s[a..b + 1][b - a] == close
  {
    var a, b := IndexOf(s, open), LastIndexOf(s, close);
    assert s[a] == open && s[b] == close;
    assert Span(s, open, close) == Some(Substring(s, a, b + 1));
    assert Substring(s, a, b + 1) == s[a..b + 1] by {
      assert Clamp(a, |s|) == a && Clamp(b + 1, |s|) == b + 1;
    }
    SliceEnds(s, a, b);
  }

  /** ... and one whose last `close` comes first holds what lies strictly
      between them, `substring` having swapped its ends. */
  lemma SpanInverted(s: string, open: char, close: char)
    requires open in s && close in s && LastIndexOf(s, close) < IndexOf(s, open)
    ensures Span(s, open, close) == Some(s[LastIndexOf(s, close) + 1..IndexOf(s, open)])
  {
    var a, b := IndexOf(s, open), LastIndexOf(s, close);
    assert Span(s, open, close) == Some(Substring(s, a, b + 1));
    assert Substring(s, a, b + 1) == s[b + 1..a] by {
      assert Clamp(a, |s|) == a && Clamp(b + 1, |s|) == b + 1;
    }
  }

  /** With a `[` before a `]`, the payload runs from the first `[` through
      the last `]`. */
  lemma ExtractArray(s: string)
    requires '[' in s && ']' in s && IndexOf(s, '[') <= LastIndexOf(s, ']')
    ensures ExtractFrom(s) == s[IndexOf(s, '[')..LastIndexOf(s, ']') + 1]
    ensures ExtractFrom(s)[0] == '[' && ExtractFrom(s)[|ExtractFrom(s)| - 1] == ']'
  {
    SpanOrdered(s, '[', ']');
  }

  /** With the last `]` before the first `[`, the payload is what lies
      strictly between them. */
  lemma ExtractInverted(s: string)
    requires '[' in s && ']' in s && LastIndexOf(s, ']') < IndexOf(s, '[')
    ensures ExtractFrom(s) == s[LastIndexOf(s, ']') + 1..IndexOf(s, '[')]
  {
    SpanInverted(s, '[', ']');
  }

  /** Without a pair of square brackets, a `{` before a `}` gives the span
      from the first `{` through the last `}`. */
  lemma ExtractObject(s: string)
    requires ('[' !in s || ']' !in s) && '{' in s && '}' in s
    requires IndexOf(s, '{') <= LastIndexOf(s, '}')
    ensures ExtractFrom(s) == s[IndexOf(s, '{')..LastIndexOf(s, '}') + 1]
    ensures ExtractFrom(s)[0] == '{' && ExtractFrom(s)[|ExtractFrom(s)| - 1] == '}'
  {
    assert Span(s, '[', ']') == None;
    SpanOrdered(s, '{', '}');
  }

  /** Without a pair of square brackets, a last `}` before the first `{`
      gives what lies strictly between them. */
  lemma ExtractObjectInverted(s: string)
    requires ('[' !in s || ']' !in s) && '{' in s && '}' in s
    requires LastIndexOf(s, '}') < IndexOf(s, '{')
    ensures ExtractFrom(s) == s[LastIndexOf(s, '}') + 1..IndexOf(s, '{')]
  {
    assert Span(s, '[', ']') == None;
    SpanInverted(s, '{', '}');
  }

  /** Without either pair, the payload is the trimmed text. */
  lemma ExtractNeither(s: string)
    requires ('[' !in s || ']' !in s) && ('{' !in s || '}' !in s)
    ensures ExtractFrom(s) == s
  {
  }

  /** A character missing from a string is missing from its slices. */
  lemma NotInSlice(s: string, i: nat, j: nat, c: char)
    requires i <= j <= |s| && c !in s
    ensures c !in s[i..j]
  {
    forall k | 0 <= k < j - i ensures s[i..j][k] != c {
      assert s[i..j][k] == s[i + k];
    }
  }

  /** A string that is already bracketed by `open` and `close`, with no `open`
      before and no `close` after, is its own span. */
  lemma SpanOfBracketed(r: string, open: char, close: char)
    requires |r| >= 1 && r[0] == open && r[|r| - 1] == close
    ensures Span(r, open, close) == Some(r)
  {
    assert IndexOf(r, open) == 0;
    assert LastIndexOf(r, close) == |r| - 1;
    assert Substring(r, 0, |r|) == r[0..|r|] == r;
  }

  /** A payload with `open` first and `close` last has no white space to
      trim and is its own span. */
  lemma ReExtract(r: string, open: char, close: char)
    requires |r| >= 1 && r[0] == open && r[|r| - 1] == close
    requires !IsWhitespace(open) && !IsWhitespace(close)
    ensures Trim(r) == r && Span(r, open, close) == Some(r)
  {
    TrimOfTrimmed(r);
    SpanOfBracketed(r, open, close);
  }

  /** A payload cut between square brackets is its own payload ... */
  lemma ArrayPayloadStable(s: string)
    requires '[' in s && ']' in s && IndexOf(s, '[') <= LastIndexOf(s, ']')
    ensures Trim(ExtractFrom(s)) == ExtractFrom(s) && ExtractFrom(ExtractFrom(s)) == ExtractFrom(s)
  {
    var r := ExtractFrom(s);
    assert |r| >= 1 && r[0] == '[' && r[|r| - 1] == ']' by {
      ExtractArray(s);
    }
    assert Trim(r) == r && Span(r, '[', ']') == Some(r) by {
      ReExtract(r, '[', ']');
    }
    ListIsOwnPayload(r);
  }

  lemma ListIsOwnPayload(r: string)
    requires Span(r, '[', ']') == Some(r)
    ensures ExtractFrom(r) == r
  {
  }

  /** ... and so is one cut between braces from a text lacking a `[` or a
      `]`, which its payload then lacks too ... */
  lemma ObjectPayloadStable(s: string)
    requires ('[' !in s || ']' !in s) && '{' in s && '}' in s
    requires IndexOf(s, '{') <= LastIndexOf(s, '}')
    ensures Trim(ExtractFrom(s)) == ExtractFrom(s) && ExtractFrom(ExtractFrom(s)) == ExtractFrom(s)
  {
    var r, i, j := ExtractFrom(s), IndexOf(s, '{'), LastIndexOf(s, '}') + 1;
    assert r == s[i..j] && |r| >= 1 && r[0] == '{' && r[|r| - 1] == '}' by {
      ExtractObject(s);
    }
    assert '[' !in r || ']' !in r by {
      if '[' !in s {
        NotInSlice(s, i, j, '[');
      } else {
        NotInSlice(s, i, j, ']');
      }
    }
    assert Trim(r) == r && Span(r, '{', '}') == Some(r) by {
      ReExtract(r, '{', '}');
    }
    BracedIsOwnPayload(r);
  }

  lemma BracedIsOwnPayload(r: string)
    requires ('[' !in r || ']' !in r) && Span(r, '{', '}') == Some(r)
    ensures ExtractFrom(r) == r
  {
    assert Span(r, '[', ']') == None;
  }

  /** ... and a trimmed text without either pair is its own payload. */
  lemma PlainPayloadStable(s: string)
    requires ('[' !in s || ']' !in s) && ('{' !in s || '}' !in s) && Trim(s) == s
    ensures Trim(ExtractFrom(s)) == ExtractFrom(s) && ExtractFrom(ExtractFrom(s)) == ExtractFrom(s)
  {
    ExtractNeither(s);
  }

  /** Extracting again from an extracted payload gives it back, when the
      brackets are not inverted. */
  lemma ExtractIdempotent(text: string)
    requires WellOrdered(Trim(text))
    ensures ExtractJson(ExtractJson(text)) == ExtractJson(text)
  {
    var s := Trim(text);
    var r := ExtractFrom(s);
    assert Trim(r) == r && ExtractFrom(r) == r by {
      if '[' in s && ']' in s {
        ArrayPayloadStable(s);
      } else if '{' in s && '}' in s {
        ObjectPayloadStable(s);
      } else {
        TrimOfTrimmed(s);
        PlainPayloadStable(s);
      }
    }
  }

  /** On inverted brackets extraction is not idempotent: "] a [" gives
      " a ", and extracting again trims that to "a". */
  lemma ExtractNotIdempotent()
    ensures ExtractJson("] a [") == " a "
    ensures ExtractJson(ExtractJson("] a [")) == "a"
  {
    InvertedExample();
    TrimmedExample();
  }

  /** The first extraction of `ExtractNotIdempotent`. */
  lemma InvertedExample()
    ensures ExtractJson("] a [") == " a "
  {
    var s := "] a [";
    TrimOfTrimmed(s);
    assert IndexOf(s, '[') == 4 by {
      assert s[4] == '[' && forall i :: 0 <= i < 4 ==> s[i] != '[';
    }
    assert LastIndexOf(s, ']') == 0;
    ExtractInverted(s);
    assert s[1..4] == " a ";
  }

  /** The second extraction of `ExtractNotIdempotent`. */
  lemma TrimmedExample()
    ensures ExtractJson(" a ") == "a"
  {
    assert Trim(" a ") == "a" by {
      assert SkipSpace(" a ", 0) == 1;
      assert SkipSpaceBack(" a ", 3) == 2;
    }
    ExtractNeither("a");
  }

  // ---------------------------------------------------------------------
  // Shape check and accumulation

  /** `isValid` for one item: a `table` with `headers` and `data`, or a
      `transcription` with `content`. An item that is not an object fails
      (for `null`, JavaScript throws instead, which drops the page just the
      same). */
  predicate ItemShapeOk(item: Json): (r: bool)
    ensures r ==> item.JObject?
    ensures r ==> Get(item, "type") == Some(JString("table")) || Get(item, "type") == Some(JString("transcription"))
  {
    (Get(item, "type") == Some(JString("table")) && Has(item, "headers") && Has(item, "data"))
    || (Get(item, "type") == Some(JString("transcription")) && Has(item, "content"))
  }

  /** `'headers' in item` asks only whether the key is there: a table item
      whose `headers` and `data` are `null` passes, and one without `data`
      fails. */
  lemma ShapeChecksPresence()
    ensures ItemShapeOk(JObject(map["type" := JString("table"), "headers" := JNull, "data" := JNull]))
    ensures !ItemShapeOk(JObject(map["type" := JString("table"), "headers" := JArray([])]))
  {
    var m := map["type" := JString("table"), "headers" := JArray([])];
    assert "data" !in m;
  }

  /** `isValid` for any object: a transcription passes exactly when it has
      `content`, a table exactly when it has both `headers` and `data`, and
      any other `type` (or none) fails. */
  lemma ItemShapeAccepts(fields: map<string, Json>)
    ensures "type" in fields && fields["type"] == JString("transcription")
      ==> (ItemShapeOk(JObject(fields)) <==> "content" in fields)
    ensures "type" in fields && fields["type"] == JString("table")
      ==> (ItemShapeOk(JObject(fields)) <==> "headers" in fields && "data" in fields)
    ensures ("type" !in fields || (fields["type"] != JString("table") && fields["type"] != JString("transcription")))
      ==> !ItemShapeOk(JObject(fields))
  {
  }

  /** What one page contributes: the parsed array when every item passes,
      nothing when parsing failed, the value is not an array, or an item is
      malformed. */
  function PageItems(parsed: Option<Json>): (r: seq<Json>)
    ensures r != [] ==> parsed.Some? && parsed.value.JArray? && r == parsed.value.items
    ensures forall i :: 0 <= i < |r| ==> ItemShapeOk(r[i])
    ensures parsed.Some? && parsed.value.JArray? && (forall i :: 0 <= i < |parsed.value.items| ==> ItemShapeOk(parsed.value.items[i]))
      ==> r == parsed.value.items
  {
    match parsed
    case Some(JArray(items)) =>
      if forall i :: 0 <= i < |items| ==> ItemShapeOk(items[i]) then items else []
    case _ => []
  }

  /** A reply whose payload is a single object adds nothing. */
  lemma ObjectPageAddsNothing(fields: map<string, Json>)
    ensures PageItems(Some(JObject(fields))) == []
  {
  }

  /** `!response.text`: no text, or an empty one. */
  predicate NoText(reply: Option<string>): (r: bool)
    ensures r <==> !Truthy(match reply case None => None case Some(t) => Some(JString(t)))
  {
    reply == None || reply == Some("")
  }

  /** What the page with the reply text `reply` contributes. */
  function PageResult(reply: string, parse: string -> Option<Json>): seq<Json> {
    PageItems(parse(ExtractJson(reply)))
  }

  /** The result of every page, in page order, given each reply's text
      (`None` when the reply has none) and the parser. A reply without text
      aborts the whole run. */
  function AllPages(replies: seq<Option<string>>, parse: string -> Option<Json>): (r: Result<seq<Json>, string>)
    ensures r.Failure? ==> r.error == NoTextMessage
  {
    if replies == [] then Success([])
    else
      var init := replies[..|replies| - 1];
      var last := replies[|replies| - 1];
      match AllPages(init, parse)
      case Failure(e) => Failure(e)
      case Success(items) =>
        if NoText(last) then Failure(NoTextMessage)
        else Success(items + PageResult(last.value, parse))
  }

  /** The per-page loop of `processDocumentPages`. */
  method ProcessPages(replies: seq<Option<string>>, parse: string -> Option<Json>) returns (r: Result<seq<Json>, string>)
    ensures r == AllPages(replies, parse)
  {
    var all: seq<Json> := [];
    var i := 0;
    while i < |replies|
      invariant 0 <= i <= |replies|
      invariant AllPages(replies[..i], parse) == Success(all)
    {
      assert replies[..i + 1][..i] == replies[..i];
      var reply := replies[i];
      assert AllPages(replies[..i + 1], parse) ==
        if NoText(reply) then Failure(NoTextMessage) else Success(all + PageResult(reply.value, parse));
      if NoText(reply) {
        FailureSticks(replies, i + 1, parse);
        return Failure(NoTextMessage);
      }
      var payload := ExtractJson(reply.value);
      var parsed := parse(payload);
      all := all + PageItems(parsed);
      i := i + 1;
    }
    assert replies[..|replies|] == replies;
    return Success(all);
  }

  /** Everything accumulated passed the shape check. */
  lemma {:induction false} AllPagesShape(replies: seq<Option<string>>, parse: string -> Option<Json>)
    ensures AllPages(replies, parse).Success? ==>
      forall i :: 0 <= i < |AllPages(replies, parse).value| ==> ItemShapeOk(AllPages(replies, parse).value[i])
  {
    if replies != [] {
      var init := replies[..|replies| - 1];
      AllPagesShape(init, parse);
      var r := AllPages(replies, parse);
      if r.Success? {
        var items, page := AllPages(init, parse).value, PageResult(replies[|replies| - 1].value, parse);
        assert r.value == items + page;
        forall i | 0 <= i < |r.value| ensures ItemShapeOk(r.value[i]) {
          if i >= |items| {
            assert r.value[i] == page[i - |items|];
          }
        }
      }
    }
  }

  /** The run fails exactly when some reply has no text, wherever it is. */
  lemma {:induction false} AllPagesFailure(replies: seq<Option<string>>, parse: string -> Option<Json>)
    ensures AllPages(replies, parse).Failure? <==> exists i :: 0 <= i < |replies| && NoText(replies[i])
  {
    if replies != [] {
      var init, last := replies[..|replies| - 1], replies[|replies| - 1];
      AllPagesFailure(init, parse);
      assert AllPages(replies, parse).Failure? <==> AllPages(init, parse).Failure? || NoText(last);
      if AllPages(init, parse).Failure? {
        var i :| 0 <= i < |init| && NoText(init[i]);
        assert replies[i] == init[i];
      } else if !NoText(last) {
        NoTextNowhere(init, last);
        ButLast(replies);
      }
    }
  }

  lemma NoTextNowhere(init: seq<Option<string>>, last: Option<string>)
    requires forall i :: 0 <= i < |init| ==> !NoText(init[i])
    requires !NoText(last)
    ensures forall i :: 0 <= i < |init + [last]| ==> !NoText((init + [last])[i])
  {
    forall i | 0 <= i < |init + [last]| ensures !NoText((init + [last])[i]) {
      if i < |init| {
        assert (init + [last])[i] == init[i];
      }
    }
  }

  /** Once a prefix fails, the whole run fails. */
  lemma FailureSticks(replies: seq<Option<string>>, n: nat, parse: string -> Option<Json>)
    requires n <= |replies| && AllPages(replies[..n], parse).Failure?
    ensures AllPages(replies, parse).Failure?
  {
    AllPagesFailure(replies[..n], parse);
    var k :| 0 <= k < n && NoText(replies[..n][k]);
    assert replies[k] == replies[..n][k];
    AllPagesFailure(replies, parse);
  }
}
