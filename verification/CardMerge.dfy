/**
 * The merger of App.tsx's `handleProcess`: cards of the same person and
 * month are combined into the first one seen, whose rows are re-sorted by
 * the day number in their first cell each time more rows arrive.
 */
module CardMerge {
  import opened JsStrings
  import opened TimeCards
  import opened StableSort
  import opened SeqFacts

  // ---------------------------------------------------------------------
  // Sort key

  /** `parseInt(row[0]?.trim(), 10) || 0`: NaN, a missing first cell and
      zero all give 0. */
  function DayKey(row: Row): (r: int)
    ensures row == [] || Trim(row[0]) == [] ==> r == 0
    ensures row != [] && ParseInt(Trim(row[0])).None? ==> r == 0
    ensures row != [] && ParseInt(Trim(row[0])).Some? ==> r == ParseInt(Trim(row[0])).value
  {
    if row == [] then 0
    else match ParseInt(Trim(row[0]))
      case Some(n) => n
      case None => 0
  }

  /** A first cell holding a day number, with white space around it and
      anything but a digit after it, sorts by that number: " 05日" is day 5. */
  lemma DayKeyOfDayNumber(row: Row, ds: string, rest: string)
    requires row != [] && Trim(row[0]) == ds + rest
    requires ds != [] && AllDigits(ds) && (rest == [] || !IsDigit(rest[0]))
    ensures DayKey(row) == DecimalValue(ds)
  {
    ParseIntPrefix(ds, rest);
  }

  /** A signed day number sorts by its signed value: "-3" is -3 and sorts
      before every 0-keyed row, "+5" is 5. */
  lemma DayKeyOfSignedNumber(row: Row, sign: string, ds: string, rest: string)
    requires row != [] && Trim(row[0]) == sign + ds + rest
    requires sign == "+" || sign == "-"
    requires ds != [] && AllDigits(ds) && (rest == [] || !IsDigit(rest[0]))
    ensures DayKey(row) == if sign == "-" then -(DecimalValue(ds) as int) else DecimalValue(ds) as int
  {
    assert sign + ds + rest == "" + sign + ds + rest;
    ParseIntForm("", sign, ds, rest);
  }

  /** A first cell whose text starts with neither a digit nor a sign, such
      as a "合計" totals row, reads as NaN and sorts as day 0. */
  lemma DayKeyOfLabel(row: Row)
    requires row != [] && Trim(row[0]) != []
    requires !IsDigit(Trim(row[0])[0]) && Trim(row[0])[0] != '+' && Trim(row[0])[0] != '-'
    ensures DayKey(row) == 0
  {
    var text := Trim(row[0]);
    assert text == "" + "" + "" + text;
    ParseIntForm("", "", "", text);
  }

  // ---------------------------------------------------------------------
  // The merge, specified over the whole input

  /** `${name without white space}-${yearMonth without white space}`. */
  function MergeKey(c: TimeCard): (r: string)
    ensures |r| == |StripWhitespace(c.title.name)| + 1 + |StripWhitespace(c.title.yearMonth)|
    ensures r[|StripWhitespace(c.title.name)|] == '-'
  {
    StripWhitespace(c.title.name) + "-" + StripWhitespace(c.title.yearMonth)
  }

  /** The distinct keys, in order of first appearance. */
  function KeysInOrder(cards: seq<TimeCard>): (ks: seq<string>)
    ensures forall i, j :: 0 <= i < j < |ks| ==> ks[i] != ks[j]
    ensures forall n :: 0 <= n < |cards| ==> MergeKey(cards[n]) in ks
  {
    if cards == [] then []
    else
      var ks := KeysInOrder(cards[..|cards| - 1]);
      var k := MergeKey(cards[|cards| - 1]);
      assert forall n :: 0 <= n < |cards| - 1 ==> cards[n] == cards[..|cards| - 1][n];
      if k in ks then ks else ks + [k]
  }

  /** Where the key `k` first appears. */
  function FirstIndex(cards: seq<TimeCard>, k: string): (i: nat)
    requires k in KeysInOrder(cards)
    ensures i < |cards| && MergeKey(cards[i]) == k
    ensures forall j :: 0 <= j < i ==> MergeKey(cards[j]) != k
  {
    var init := cards[..|cards| - 1];
    assert forall n :: 0 <= n < |cards| - 1 ==> cards[n] == init[n];
    if k in KeysInOrder(init) then FirstIndex(init, k) else |cards| - 1
  }

  /** How many cards have the key `k`. */
  function CountWithKey(cards: seq<TimeCard>, k: string): nat {
    if cards == [] then 0
    else
      CountWithKey(cards[..|cards| - 1], k)
      + (if MergeKey(cards[|cards| - 1]) == k then 1 else 0)
  }

  /** The rows of all cards with the key `k`, concatenated in input order. */
  function RowsWithKey(cards: seq<TimeCard>, k: string): seq<Row> {
    if cards == [] then []
    else
      RowsWithKey(cards[..|cards| - 1], k)
      + (if MergeKey(cards[|cards| - 1]) == k then cards[|cards| - 1].data else [])
  }

  /** The card the merge produces for the key `k`: the first card with that
      key, whose rows, once a second card has arrived, are all the key's rows
      in day order. */
  function MergedCard(cards: seq<TimeCard>, k: string): (r: TimeCard)
    requires k in KeysInOrder(cards)
    ensures r.title == cards[FirstIndex(cards, k)].title
    ensures r.headers == cards[FirstIndex(cards, k)].headers
  {
    var first := cards[FirstIndex(cards, k)];
    if CountWithKey(cards, k) >= 2 then first.(data := SortBy(RowsWithKey(cards, k), DayKey)) else first
  }

  /** The merge's output: one merged card per distinct key, in order of
      first appearance. */
  function MergeSpec(cards: seq<TimeCard>): (r: seq<TimeCard>)
    ensures |r| == |KeysInOrder(cards)|
    ensures forall i :: 0 <= i < |r| ==> r[i] == MergedCard(cards, KeysInOrder(cards)[i])
  {
    var ks := KeysInOrder(cards);
    seq(|ks|, i requires 0 <= i < |ks| => MergedCard(cards, ks[i]))
  }

  // ---------------------------------------------------------------------
  // Facts about the specification

  lemma {:induction false} CountZero(cards: seq<TimeCard>, k: string)
    requires k !in KeysInOrder(cards)
    ensures CountWithKey(cards, k) == 0 && RowsWithKey(cards, k) == []
  {
    if cards != [] {
      CountZero(cards[..|cards| - 1], k);
    }
  }

  /** A key seen once contributes exactly the rows of its one card. */
  lemma {:induction false} CountOne(cards: seq<TimeCard>, k: string)
    requires k in KeysInOrder(cards) && CountWithKey(cards, k) == 1
    ensures RowsWithKey(cards, k) == cards[FirstIndex(cards, k)].data
  {
    var init, last := cards[..|cards| - 1], cards[|cards| - 1];
    if k in KeysInOrder(init) {
      assert MergeKey(last) != k by {
        CountPositive(init, k);
      }
      CountOne(init, k);
      var i := FirstIndex(init, k);
      assert FirstIndex(cards, k) == i && cards[i] == init[i];
      assert RowsWithKey(cards, k) == RowsWithKey(init, k) + [];
    } else {
      CountZero(init, k);
      assert FirstIndex(cards, k) == |cards| - 1;
      assert RowsWithKey(cards, k) == [] + last.data;
    }
  }

  lemma {:induction false} CountPositive(cards: seq<TimeCard>, k: string)
    requires k in KeysInOrder(cards)
    ensures CountWithKey(cards, k) >= 1
  {
    var init := cards[..|cards| - 1];
    if k in KeysInOrder(init) {
      CountPositive(init, k);
    }
  }

  /** The keys in `KeysInOrder` are those of the cards, listed in the order
      in which each first appears. */
  lemma {:induction false} KeysFirstSeenOrder(cards: seq<TimeCard>)
    ensures forall k :: k in KeysInOrder(cards) <==> exists n :: 0 <= n < |cards| && MergeKey(cards[n]) == k
    ensures forall i, j :: 0 <= i < j < |KeysInOrder(cards)| ==>
      FirstIndex(cards, KeysInOrder(cards)[i]) < FirstIndex(cards, KeysInOrder(cards)[j])
  {
    var ks := KeysInOrder(cards);
    forall k | k in ks ensures exists n :: 0 <= n < |cards| && MergeKey(cards[n]) == k {
      var n := FirstIndex(cards, k);
    }
    if cards != [] {
      var init := cards[..|cards| - 1];
      KeysFirstSeenOrder(init);
      var kinit := KeysInOrder(init);
      forall k | k in kinit ensures FirstIndex(cards, k) == FirstIndex(init, k) { }
      forall i, j | 0 <= i < j < |ks| ensures FirstIndex(cards, ks[i]) < FirstIndex(cards, ks[j]) {
        assert ks[i] in kinit;
        if j == |kinit| {
          assert FirstIndex(cards, ks[j]) == |cards| - 1;
        } else {
          assert ks[j] == kinit[j];
        }
      }
    }
  }

  // ---------------------------------------------------------------------
  // The merge loop

  /** How one more card changes the merged cards: a new key starts with
      the card itself ... */
  lemma MergeStepNew(pre: seq<TimeCard>, c: TimeCard)
    requires MergeKey(c) !in KeysInOrder(pre)
    ensures KeysInOrder(pre + [c]) == KeysInOrder(pre) + [MergeKey(c)]
    ensures MergedCard(pre + [c], MergeKey(c)) == c
  {
    var post, k := pre + [c], MergeKey(c);
    assert post[..|post| - 1] == pre && post[|post| - 1] == c;
    CountZero(pre, k);
  }

  /** ... a key already present gets the card's rows appended and sorted ... */
  lemma MergeStepSame(pre: seq<TimeCard>, c: TimeCard)
    requires MergeKey(c) in KeysInOrder(pre)
    ensures KeysInOrder(pre + [c]) == KeysInOrder(pre)
    ensures var m := MergedCard(pre, MergeKey(c));
      MergedCard(pre + [c], MergeKey(c)) == m.(data := SortBy(m.data + c.data, DayKey))
  {
    var post, k := pre + [c], MergeKey(c);
    assert post[..|post| - 1] == pre && post[|post| - 1] == c;
    assert FirstIndex(post, k) == FirstIndex(pre, k);
    assert post[FirstIndex(pre, k)] == pre[FirstIndex(pre, k)];
    assert RowsWithKey(post, k) == RowsWithKey(pre, k) + c.data;
    CountPositive(pre, k);
    if CountWithKey(pre, k) == 1 {
      CountOne(pre, k);
    } else {
      SortByAgain(RowsWithKey(pre, k), c.data, DayKey);
    }
  }

  /** ... and every other key is left as it was. */
  lemma MergeStepOther(pre: seq<TimeCard>, c: TimeCard, k: string)
    requires k in KeysInOrder(pre) && MergeKey(c) != k
    ensures k in KeysInOrder(pre + [c])
    ensures MergedCard(pre + [c], k) == MergedCard(pre, k)
  {
    var post := pre + [c];
    assert post[..|post| - 1] == pre && post[|post| - 1] == c;
    assert FirstIndex(post, k) == FirstIndex(pre, k);
    assert post[FirstIndex(pre, k)] == pre[FirstIndex(pre, k)];
    assert CountWithKey(post, k) == CountWithKey(pre, k);
    assert RowsWithKey(post, k) == RowsWithKey(pre, k);
  }

  /** `Array.from(map.values())`: the values in insertion order. */
  function ValuesInOrder(table: map<string, TimeCard>, order: seq<string>): (r: seq<TimeCard>)
    requires forall k :: k in order ==> k in table
    ensures |r| == |order| && forall j :: 0 <= j < |order| ==> r[j] == table[order[j]]
  {
    seq(|order|, j requires 0 <= j < |order| => table[order[j]])
  }

  lemma CollectMerged(cards: seq<TimeCard>, order: seq<string>, table: map<string, TimeCard>)
    requires order == KeysInOrder(cards)
    requires forall k :: k in table <==> k in order
    requires forall k :: k in table ==> table[k] == MergedCard(cards, k)
    ensures ValuesInOrder(table, order) == MergeSpec(cards)
  {
  }

  /** Storing under `key` keeps the map's keys those of the order list,
      which gains `key` at its end when it is new. */
  lemma StoreKeys(table: map<string, TimeCard>, order: seq<string>, order': seq<string>, key: string, v: TimeCard)
    requires forall k :: k in table <==> k in order
    requires order' == if key in order then order else order + [key]
    ensures forall k :: k in table[key := v] <==> k in order'
  {
  }

  /** Storing the key's new merged card leaves every other key's card the
      merged card of one more card seen. */
  lemma StoreCards(table: map<string, TimeCard>, seen: seq<TimeCard>, c: TimeCard, v: TimeCard)
    requires forall k :: k in table ==> k in KeysInOrder(seen) && table[k] == MergedCard(seen, k)
    requires MergeKey(c) in KeysInOrder(seen + [c]) && v == MergedCard(seen + [c], MergeKey(c))
    ensures forall k :: k in table[MergeKey(c) := v] ==>
      k in KeysInOrder(seen + [c]) && table[MergeKey(c) := v][k] == MergedCard(seen + [c], k)
  {
    var table' := table[MergeKey(c) := v];
    forall k | k in table' ensures k in KeysInOrder(seen + [c]) && table'[k] == MergedCard(seen + [c], k) {
      if k != MergeKey(c) {
        MergeStepOther(seen, c, k);
      }
    }
  }

  /** The merge as App.tsx runs it: a map from key to card, filled in the
      order of the input, with the map's insertion order kept in `order`;
      a card with a key already present has its rows appended to the stored
      card, which are then sorted again. The result is the map's values in
      insertion order. */
  method Merge(cards: seq<TimeCard>) returns (merged: seq<TimeCard>)
    ensures merged == MergeSpec(cards)
  {
    var order: seq<string> := [];
    var table: map<string, TimeCard> := map[];
    ghost var seen: seq<TimeCard> := [];
    var i := 0;
    while i < |cards|
      invariant 0 <= i <= |cards| && seen == cards[..i]
      invariant order == KeysInOrder(seen)
      invariant forall k :: k in table <==> k in order
      invariant forall k :: k in table ==> k in KeysInOrder(seen) && table[k] == MergedCard(seen, k)
    {
      var card := cards[i];
      var key := MergeKey(card);
      PrefixStep(cards, i);
      var stored: TimeCard;
      var order' := order;
      if key in table {
        var existing := table[key];
        stored := existing.(data := SortBy(existing.data + card.data, DayKey));
        MergeStepSame(seen, card);
      } else {
        stored := card;
        MergeStepNew(seen, card);
        order' := order + [key];
      }
      StoreKeys(table, order, order', key, stored);
      StoreCards(table, seen, card, stored);
      table, order := table[key := stored], order';
      seen := seen + [card];
      i := i + 1;
    }
    assert seen == cards;
    merged := ValuesInOrder(table, order);
    CollectMerged(cards, order, table);
  }

  // ---------------------------------------------------------------------
  // What the merge promises

  /** The merged card for `k` has the key `k`. */
  lemma MergedKey(cards: seq<TimeCard>, k: string)
    requires k in KeysInOrder(cards)
    ensures MergeKey(MergedCard(cards, k)) == k
  {
    var first := cards[FirstIndex(cards, k)];
    assert MergedCard(cards, k).title == first.title;
    SameTitleSameKey(MergedCard(cards, k), first);
  }

  /** White space inserted anywhere in the name or the year-month does not
      change the key: "2025年8月" and "\U{3000}2025年8月" (led by an
      ideographic space) give the same key. */
  lemma MergeKeyIgnoresWhitespace(c: TimeCard, d: TimeCard, a: string, w: string, b: string)
    requires AllWhitespace(w)
    requires || (c.title.name == d.title.name && c.title.yearMonth == a + b && d.title.yearMonth == a + w + b)
             || (c.title.yearMonth == d.title.yearMonth && c.title.name == a + b && d.title.name == a + w + b)
    ensures MergeKey(c) == MergeKey(d)
  {
    StripInsertedWhitespace(a, w, b);
  }

  lemma SameTitleSameKey(c: TimeCard, d: TimeCard)
    requires c.title == d.title
    ensures MergeKey(c) == MergeKey(d)
  {
  }

  /** The merged cards carry exactly the distinct keys, in order of first
      appearance: one card per key. */
  lemma MergeOnePerKey(cards: seq<TimeCard>)
    ensures |MergeSpec(cards)| == |KeysInOrder(cards)|
    ensures forall i :: 0 <= i < |MergeSpec(cards)| ==> MergeKey(MergeSpec(cards)[i]) == KeysInOrder(cards)[i]
  {
    var r, ks := MergeSpec(cards), KeysInOrder(cards);
    forall i | 0 <= i < |r| ensures MergeKey(r[i]) == ks[i] {
      assert r[i] == MergedCard(cards, ks[i]);
      MergedKey(cards, ks[i]);
    }
  }

  /** Hence no two merged cards share a key, and every input card's key has
      its merged card. */
  lemma MergeKeysDistinct(cards: seq<TimeCard>)
    ensures forall i, j :: 0 <= i < j < |MergeSpec(cards)| ==> MergeKey(MergeSpec(cards)[i]) != MergeKey(MergeSpec(cards)[j])
    ensures forall n :: 0 <= n < |cards| ==>
      exists i :: 0 <= i < |MergeSpec(cards)| && MergeKey(MergeSpec(cards)[i]) == MergeKey(cards[n])
  {
    var r, ks := MergeSpec(cards), KeysInOrder(cards);
    MergeOnePerKey(cards);
    forall n | 0 <= n < |cards| ensures exists i :: 0 <= i < |r| && MergeKey(r[i]) == MergeKey(cards[n]) {
      var i :| 0 <= i < |ks| && ks[i] == MergeKey(cards[n]);
      assert MergeKey(r[i]) == ks[i];
    }
  }

  /** The merged rows are exactly the rows of all cards with the key,
      rearranged. */
  lemma MergedRowsPermutation(cards: seq<TimeCard>, k: string)
    requires k in KeysInOrder(cards)
    ensures multiset(MergedCard(cards, k).data) == multiset(RowsWithKey(cards, k))
  {
    if CountWithKey(cards, k) < 2 {
      CountPositive(cards, k);
      CountOne(cards, k);
    }
  }

  /** For a key seen at least twice the rows are in day order and rows with
      the same day keep the order in which they arrived; a key seen once
      keeps its one card's rows as they were. */
  lemma MergedRowsOrder(cards: seq<TimeCard>, k: string)
    requires k in KeysInOrder(cards)
    ensures var m := MergedCard(cards, k);
      (CountWithKey(cards, k) >= 2 ==>
         SortedBy(m.data, DayKey)
         && forall d :: WithKey(m.data, DayKey, d) == WithKey(RowsWithKey(cards, k), DayKey, d))
      && (CountWithKey(cards, k) < 2 ==> m.data == cards[FirstIndex(cards, k)].data == RowsWithKey(cards, k))
  {
    if CountWithKey(cards, k) >= 2 {
      forall d ensures WithKey(MergedCard(cards, k).data, DayKey, d) == WithKey(RowsWithKey(cards, k), DayKey, d) {
        SortByStable(RowsWithKey(cards, k), DayKey, d);
      }
    } else {
      CountPositive(cards, k);
      CountOne(cards, k);
    }
  }

  /** Every row contributed under the key `k` has `w` cells when every card
      with that key is rectangular with `w` headers. */
  lemma {:induction false} RowsWithKeyWidth(cards: seq<TimeCard>, k: string, w: nat)
    requires forall n :: 0 <= n < |cards| && MergeKey(cards[n]) == k ==> Rectangular(cards[n]) && |cards[n].headers| == w
    ensures forall row :: row in RowsWithKey(cards, k) ==> |row| == w
  {
    if cards != [] {
      var init := cards[..|cards| - 1];
      assert forall n :: 0 <= n < |init| ==> init[n] == cards[n];
      RowsWithKeyWidth(init, k, w);
      var last := cards[|cards| - 1];
      if MergeKey(last) == k {
        forall row | row in last.data ensures |row| == w {
          var j :| 0 <= j < |last.data| && last.data[j] == row;
        }
      }
    }
  }

  /** A merged card is rectangular when every card with its key is
      rectangular with as many headers as the first one ... */
  lemma MergePreservesRectangular(cards: seq<TimeCard>, k: string)
    requires k in KeysInOrder(cards)
    requires forall n :: 0 <= n < |cards| && MergeKey(cards[n]) == k ==>
      Rectangular(cards[n]) && |cards[n].headers| == |cards[FirstIndex(cards, k)].headers|
    ensures Rectangular(MergedCard(cards, k))
  {
    var m := MergedCard(cards, k);
    RowsWithKeyWidth(cards, k, |m.headers|);
    MergedRowsPermutation(cards, k);
    forall i | 0 <= i < |m.data| ensures |m.data[i]| == |m.headers| {
      assert m.data[i] in multiset(RowsWithKey(cards, k));
    }
  }

  /** ... but not otherwise: two rectangular cards with the same key and a
      different number of headers merge into a card whose rows do not all
      fit its headers, as soon as the second card has a row. */
  lemma MergeBreaksRectangular(a: TimeCard, b: TimeCard)
    requires Rectangular(a) && Rectangular(b) && MergeKey(a) == MergeKey(b)
    requires |a.headers| != |b.headers| && b.data != []
    ensures |MergeSpec([a, b])| == 1 && !Rectangular(MergeSpec([a, b])[0])
  {
    var m := a.(data := SortBy(a.data + b.data, DayKey));
    assert MergeSpec([a, b]) == [m] by {
      MergeTwo(a, b);
    }
    assert b.data[0] in multiset(m.data) by {
      assert (a.data + b.data)[|a.data|] == b.data[0];
    }
    var j :| 0 <= j < |m.data| && m.data[j] == b.data[0];
  }

  /** Two cards with one key merge into the first, holding the rows of both
      sorted. */
  lemma MergeTwo(a: TimeCard, b: TimeCard)
    requires MergeKey(a) == MergeKey(b)
    ensures KeysInOrder([a, b]) == [MergeKey(a)]
    ensures MergedCard([a, b], MergeKey(a)) == a.(data := SortBy(a.data + b.data, DayKey))
  {
    var none: seq<TimeCard> := [];
    assert none + [a] == [a] && [a] + [b] == [a, b];
    MergeStepNew(none, a);
    MergeStepSame([a], b);
  }

  /** Titles without white space or '-' are told apart by their key ... */
  lemma MergeKeyInjective(a: TimeCard, b: TimeCard)
    requires NoWhitespace(a.title.name) && NoWhitespace(a.title.yearMonth)
    requires NoWhitespace(b.title.name) && NoWhitespace(b.title.yearMonth)
    requires '-' !in a.title.name && '-' !in b.title.name
    requires MergeKey(a) == MergeKey(b)
    ensures a.title == b.title
  {
    var x, y := a.title.name, b.title.name;
    var key := MergeKey(a);
    assert key == x + "-" + a.title.yearMonth && key == y + "-" + b.title.yearMonth;
    if |x| < |y| {
      DashAt(x, y, a.title.yearMonth, b.title.yearMonth);
      assert false;
    } else if |y| < |x| {
      DashAt(y, x, b.title.yearMonth, a.title.yearMonth);
      assert false;
    }
    assert x == key[..|x|] == y;
    assert a.title.yearMonth == key[|x| + 1..] == b.title.yearMonth;
  }

  /** Where the shorter of two names ends, the key made from it holds the
      '-' and the key made from the longer one a character of that name. */
  lemma DashAt(short: string, long: string, p: string, q: string)
    requires |short| < |long| && short + "-" + p == long + "-" + q
    ensures long[|short|] == '-'
  {
    assert (short + "-" + p)[|short|] == '-';
    assert (long + "-" + q)[|short|] == long[|short|];
  }

  /** ... but a '-' inside the name lets two different titles share a key,
      so their cards are merged. */
  lemma MergeKeyCollision(x: string, y: string, z: string, a: TimeCard, b: TimeCard)
    requires NoWhitespace(x) && NoWhitespace(y) && NoWhitespace(z)
    requires a.title == Title(z, x + "-" + y) && b.title == Title(y + "-" + z, x)
    ensures a.title != b.title && MergeKey(a) == MergeKey(b)
  {
    assert a.title != b.title by {
      assert |a.title.name| != |b.title.name|;
    }
    assert MergeKey(a) == MergeKey(b) by {
      DashJoinClean(x, y);
      DashJoinClean(y, z);
      CleanTitleKey(a);
      CleanTitleKey(b);
      Assoc(x + "-", y, "-" + z);
      Assoc(x, "-", y);
      Assoc(y, "-", z);
    }
  }

  lemma DashJoinClean(x: string, y: string)
    requires NoWhitespace(x) && NoWhitespace(y)
    ensures NoWhitespace(x + "-" + y)
  {
  }

  lemma CleanTitleKey(c: TimeCard)
    requires NoWhitespace(c.title.name) && NoWhitespace(c.title.yearMonth)
    ensures MergeKey(c) == c.title.name + "-" + c.title.yearMonth
  {
  }
}
