/**
 * The JavaScript string built-ins that the time-card code relies on, written
 * out with their ECMAScript behaviour: the white-space set of `\s` and
 * `trim()`, `replace(/\s+/g, '')`, `parseInt(s, 10)`, `indexOf`,
 * `lastIndexOf`, `substring` and the removal or replacement of a character
 * class. A JavaScript string is modelled as a sequence of characters.
 */
module JsStrings {
  import opened Wrappers
  import opened SeqFacts

  /** WhiteSpace and LineTerminator of ECMAScript: what `\s` matches and what
      `trim()` removes. */
  predicate IsWhitespace(c: char) {
    || c == '\t' || c == '\n' || c == '\U{000B}' || c == '\U{000C}' || c == '\r'
    || c == ' ' || c == '\U{00A0}' || c == '\U{1680}'
    || ('\U{2000}' <= c <= '\U{200A}')
    || c == '\U{2028}' || c == '\U{2029}' || c == '\U{202F}' || c == '\U{205F}'
    || c == '\U{3000}' || c == '\U{FEFF}'
  }

  predicate NoWhitespace(s: string) {
    forall i :: 0 <= i < |s| ==> !IsWhitespace(s[i])
  }

  /** The ideographic space of Japanese text, the no-break space and the
      tab are white space; the digits and `-` are not. */
  lemma WhitespaceExamples()
    ensures IsWhitespace('\U{3000}') && IsWhitespace('\U{00A0}') && IsWhitespace('\t')
    ensures !IsWhitespace('-') && forall c :: IsDigit(c) ==> !IsWhitespace(c)
  {
  }

  /** `s.replace(/\s+/g, '')`: every white-space character removed. */
  function StripWhitespace(s: string): (r: string)
    ensures NoWhitespace(r)
    ensures forall i :: 0 <= i < |s| && !IsWhitespace(s[i]) ==> s[i] in r
    ensures forall i :: 0 <= i < |r| ==> r[i] in s
    ensures |r| <= |s|
    ensures NoWhitespace(s) ==> r == s
  {
    if s == [] then []
    else (if IsWhitespace(s[0]) then [] else [s[0]]) + StripWhitespace(s[1..])
  }

  /** One character is dropped when it is white space and kept otherwise;
      with `StripWhitespaceConcat` this fixes the result of every string. */
  lemma StripWhitespaceSingle(c: char)
    ensures StripWhitespace([c]) == if IsWhitespace(c) then [] else [c]
  {
    assert [c][1..] == [];
  }

  lemma {:induction false} StripWhitespaceConcat(a: string, b: string)
    ensures StripWhitespace(a + b) == StripWhitespace(a) + StripWhitespace(b)
  {
    if a == [] {
      assert a + b == b;
    } else {
      var head := if IsWhitespace(a[0]) then [] else [a[0]];
      assert StripWhitespace(a + b) == head + StripWhitespace(a[1..] + b) by {
        assert (a + b)[0] == a[0] && (a + b)[1..] == a[1..] + b;
      }
      assert StripWhitespace(a[1..] + b) == StripWhitespace(a[1..]) + StripWhitespace(b) by {
        StripWhitespaceConcat(a[1..], b);
      }
      assert StripWhitespace(a) == head + StripWhitespace(a[1..]);
      Assoc(head, StripWhitespace(a[1..]), StripWhitespace(b));
    }
  }

  predicate AllWhitespace(w: string) {
    forall i :: 0 <= i < |w| ==> IsWhitespace(w[i])
  }

  lemma {:induction false} StripAllWhitespace(w: string)
    requires AllWhitespace(w)
    ensures StripWhitespace(w) == []
  {
    if w != [] {
      assert IsWhitespace(w[0]);
      StripAllWhitespace(w[1..]);
    }
  }

  /** White space inserted anywhere is removed again: the result is that of
      the text without it. */
  lemma StripInsertedWhitespace(a: string, w: string, b: string)
    requires AllWhitespace(w)
    ensures StripWhitespace(a + w + b) == StripWhitespace(a + b)
  {
    StripWhitespaceConcat(a + w, b);
    StripWhitespaceConcat(a, w);
    StripWhitespaceConcat(a, b);
    StripAllWhitespace(w);
    AppendEmpty(StripWhitespace(a));
  }

  /** The first index at or after `k` that does not hold white space, or `|s|`. */
  function SkipSpace(s: string, k: nat): (r: nat)
    requires k <= |s|
    ensures k <= r <= |s|
    ensures forall i :: k <= i < r ==> IsWhitespace(s[i])
    ensures r < |s| ==> !IsWhitespace(s[r])
    decreases |s| - k
  {
    if k < |s| && IsWhitespace(s[k]) then SkipSpace(s, k + 1) else k
  }

  /** The end of the last character before `n` that is not white space, or 0. */
  function SkipSpaceBack(s: string, n: nat): (r: nat)
    requires n <= |s|
    ensures r <= n
    ensures forall i :: r <= i < n ==> IsWhitespace(s[i])
    ensures r > 0 ==> !IsWhitespace(s[r - 1])
  {
    if n > 0 && IsWhitespace(s[n - 1]) then SkipSpaceBack(s, n - 1) else n
  }

  /** Leading white space removed. */
  function TrimStart(s: string): (r: string)
  {
    s[SkipSpace(s, 0)..]
  }

  /** `s.trim()`: leading and trailing white space removed. */
  function Trim(s: string): (r: string)
    ensures |r| <= |s|
    ensures r != [] ==> !IsWhitespace(r[0]) && !IsWhitespace(r[|r| - 1])
  {
    var a := SkipSpace(s, 0);
    if a == |s| then [] else s[a..SkipSpaceBack(s, |s|)]
  }

  /** `Trim(s)` is the slice of `s` between a run of leading and a run of
      trailing white space. */
  lemma TrimSlice(s: string) returns (k: nat)
    ensures k + |Trim(s)| <= |s|
    ensures Trim(s) == s[k..k + |Trim(s)|]
    ensures forall i :: 0 <= i < k ==> IsWhitespace(s[i])
    ensures forall i :: k + |Trim(s)| <= i < |s| ==> IsWhitespace(s[i])
  {
    k := SkipSpace(s, 0);
  }

  /** Trimming a string that neither starts nor ends with white space leaves it as it is. */
  lemma TrimOfTrimmed(s: string)
    requires s != [] ==> !IsWhitespace(s[0]) && !IsWhitespace(s[|s| - 1])
    ensures Trim(s) == s
  {
  }

  predicate IsDigit(c: char) {
    '0' <= c <= '9'
  }

  predicate AllDigits(s: string) {
    forall i :: 0 <= i < |s| ==> IsDigit(s[i])
  }

  function DigitValue(c: char): (d: nat)
    requires IsDigit(c)
    ensures d < 10
  {
    (c as int) - ('0' as int)
  }

  /** The number a string of decimal digits denotes, most significant digit first. */
  function DecimalValue(ds: string): nat
    requires AllDigits(ds)
  {
    if ds == [] then 0 else DecimalValue(ds[..|ds| - 1]) * 10 + DigitValue(ds[|ds| - 1])
  }

  lemma DecimalValueOfTwo(ds: string)
    requires |ds| == 2 && AllDigits(ds)
    ensures DecimalValue(ds) == 10 * DigitValue(ds[0]) + DigitValue(ds[1])
  {
    DecimalValueOfOne(ds[..1]);
  }

  lemma DecimalValueOfOne(ds: string)
    requires |ds| == 1 && AllDigits(ds)
    ensures DecimalValue(ds) == DigitValue(ds[0])
  {
    assert ds[..0] == [];
  }

  /** The longest prefix of `s` made of decimal digits. */
  function LeadingDigits(s: string): (r: string)
    ensures |r| <= |s| && r == s[..|r|]
    ensures AllDigits(r)
    ensures |r| < |s| ==> !IsDigit(s[|r|])
  {
    if s != [] && IsDigit(s[0]) then [s[0]] + LeadingDigits(s[1..]) else []
  }

  /** `parseInt(s, 10)`: leading white space is skipped, one `+` or `-` is
      taken, then the longest run of decimal digits; `None` stands for NaN.
      `-0` is the integer 0. */
  function ParseInt(s: string): (r: Option<int>)
    ensures r.Some? ==> exists k :: 0 <= k < |s| && IsDigit(s[k])
    ensures r.Some? && r.value < 0 ==> '-' in s
  {
    var a := SkipSpace(s, 0);
    var n := ParseSigned(s[a..]);
    assert n.Some? ==> IsDigit(s[a]) || (a + 1 < |s| && IsDigit(s[a + 1]));
    assert n.Some? && n.value < 0 ==> s[a] == '-';
    n
  }

  /** `parseInt` once the leading white space is gone. */
  function ParseSigned(t: string): (r: Option<int>)
    ensures r.Some? ==> t != [] && (IsDigit(t[0]) || (|t| >= 2 && IsDigit(t[1])))
    ensures r.Some? && r.value < 0 ==> t[0] == '-'
  {
    var negative := t != [] && t[0] == '-';
    var unsigned := if t != [] && (t[0] == '-' || t[0] == '+') then t[1..] else t;
    var ds := LeadingDigits(unsigned);
    var magnitude: int := DecimalValue(ds);
    if ds == [] then None else Some(if negative then -magnitude else magnitude)
  }

  /** A string made only of decimal digits parses to the number it denotes. */
  lemma ParseIntOfDigits(ds: string)
    requires ds != [] && AllDigits(ds)
    ensures ParseInt(ds) == Some(DecimalValue(ds))
  {
    assert IsDigit(ds[0]);
    assert !IsWhitespace(ds[0]) && ds[0] != '-' && ds[0] != '+';
    assert TrimStart(ds) == ds;
    AppendEmpty(ds);
    LeadingDigitsOfDigits(ds, []);
  }

  /** Parsing stops at the first character that is not a digit: "05日"
      reads as 5. */
  lemma ParseIntPrefix(ds: string, rest: string)
    requires ds != [] && AllDigits(ds)
    requires rest == [] || !IsDigit(rest[0])
    ensures ParseInt(ds + rest) == Some(DecimalValue(ds))
  {
    var s := ds + rest;
    assert s[0] == ds[0] && IsDigit(ds[0]);
    assert !IsWhitespace(s[0]) && s[0] != '-' && s[0] != '+';
    assert TrimStart(s) == s;
    LeadingDigitsOfDigits(ds, rest);
  }

  lemma {:induction false} LeadingDigitsOfDigits(ds: string, rest: string)
    requires AllDigits(ds)
    requires rest == [] || !IsDigit(rest[0])
    ensures LeadingDigits(ds + rest) == ds
  {
    if ds == [] {
      assert ds + rest == rest;
    } else {
      assert (ds + rest)[0] == ds[0] && (ds + rest)[1..] == ds[1..] + rest;
      LeadingDigitsOfDigits(ds[1..], rest);
      assert ds == [ds[0]] + ds[1..];
    }
  }

  /** The whole of `parseInt` on a string laid out as the parser reads it:
      white space, an optional sign, digits, and a rest that does not start
      with a digit. Without digits the result is NaN (`None`): "abc", "",
      "-" and " +x" all give NaN. When neither a sign nor a digit is there,
      the rest must not start with white space or a sign either, since the
      parser would read those as part of the number. */
  lemma ParseIntForm(ws: string, sign: string, ds: string, rest: string)
    requires AllWhitespace(ws)
    requires sign == "" || sign == "+" || sign == "-"
    requires AllDigits(ds)
    requires rest == [] || !IsDigit(rest[0])
    requires sign == "" && ds == [] && rest != [] ==>
      !IsWhitespace(rest[0]) && rest[0] != '+' && rest[0] != '-'
    ensures ParseInt(ws + sign + ds + rest) ==
      if ds == [] then None
      else if sign == "-" then Some(-(DecimalValue(ds) as int))
      else Some(DecimalValue(ds) as int)
  {
    var u := sign + (ds + rest);
    assert ws + sign + ds + rest == ws + u by {
      Assoc(ws, sign, ds);
      Assoc(ws, sign + ds, rest);
      Assoc(sign, ds, rest);
    }
    assert u == [] || !IsWhitespace(u[0]) by {
      if sign != "" {
        assert u[0] == sign[0];
      } else if ds != [] {
        assert u[0] == ds[0] && IsDigit(ds[0]);
      }
    }
    ParseIntAfterSpace(ws, u);
    ParseIntLayout(sign, ds, rest);
  }

  /** `ParseIntForm` without the leading white space. */
  lemma ParseIntLayout(sign: string, ds: string, rest: string)
    requires sign == "" || sign == "+" || sign == "-"
    requires AllDigits(ds)
    requires rest == [] || !IsDigit(rest[0])
    requires sign == "" && ds == [] && rest != [] ==>
      !IsWhitespace(rest[0]) && rest[0] != '+' && rest[0] != '-'
    ensures ParseInt(sign + (ds + rest)) ==
      if ds == [] then None
      else if sign == "-" then Some(-(DecimalValue(ds) as int))
      else Some(DecimalValue(ds) as int)
  {
    if sign == "" {
      assert sign + (ds + rest) == ds + rest;
      ParseIntNoSign(ds, rest);
    } else {
      ParseIntWithSign(sign[0], ds, rest);
    }
  }

  /** `ParseIntLayout` without a sign. */
  lemma ParseIntNoSign(ds: string, rest: string)
    requires AllDigits(ds)
    requires rest == [] || !IsDigit(rest[0])
    requires ds == [] && rest != [] ==> !IsWhitespace(rest[0]) && rest[0] != '+' && rest[0] != '-'
    ensures ParseInt(ds + rest) == if ds == [] then None else Some(DecimalValue(ds) as int)
  {
    LeadingDigitsOfDigits(ds, rest);
    var u := ds + rest;
    if ds != [] {
      assert u[0] == ds[0] && IsDigit(ds[0]);
    }
    ParseIntUnsigned(u);
  }

  /** `ParseIntLayout` with the sign `c`. */
  lemma ParseIntWithSign(c: char, ds: string, rest: string)
    requires c == '+' || c == '-'
    requires AllDigits(ds)
    requires rest == [] || !IsDigit(rest[0])
    ensures ParseInt([c] + (ds + rest)) ==
      if ds == [] then None
      else if c == '-' then Some(-(DecimalValue(ds) as int))
      else Some(DecimalValue(ds) as int)
  {
    LeadingDigitsOfDigits(ds, rest);
    var u := [c] + (ds + rest);
    assert u[0] == c && u[1..] == ds + rest;
    ParseIntSign(u);
  }

  /** Leading white space does not change what `parseInt` reads. */
  lemma ParseIntAfterSpace(ws: string, u: string)
    requires AllWhitespace(ws)
    requires u == [] || !IsWhitespace(u[0])
    ensures ParseInt(ws + u) == ParseInt(u)
  {
    TrimStartOver(ws, u);
    TrimStartOver([], u);
    assert [] + u == u;
  }

  /** Without white space or a sign in front, `parseInt` reads the leading digits. */
  lemma ParseIntUnsigned(u: string)
    requires u == [] || (!IsWhitespace(u[0]) && u[0] != '+' && u[0] != '-')
    ensures ParseInt(u) == if LeadingDigits(u) == [] then None else Some(DecimalValue(LeadingDigits(u)) as int)
  {
    SkipSpaceOver(u, 0, 0);
    assert u[0..] == u;
  }

  /** A sign in front: the digits after it, negated for `-`. */
  lemma ParseIntSign(u: string)
    requires u != [] && (u[0] == '+' || u[0] == '-')
    ensures ParseInt(u) ==
      if LeadingDigits(u[1..]) == [] then None
      else if u[0] == '-' then Some(-(DecimalValue(LeadingDigits(u[1..])) as int))
      else Some(DecimalValue(LeadingDigits(u[1..])) as int)
  {
    SkipSpaceOver(u, 0, 0);
    assert u[0..] == u;
  }

  /** Leading white space of `ws + u` is exactly `ws` when `u` does not
      start with white space. */
  lemma TrimStartOver(ws: string, u: string)
    requires AllWhitespace(ws)
    requires u == [] || !IsWhitespace(u[0])
    ensures TrimStart(ws + u) == u
  {
    var s := ws + u;
    forall i | 0 <= i < |ws| ensures IsWhitespace(s[i]) {
      assert s[i] == ws[i];
    }
    if u != [] {
      assert s[|ws|] == u[0];
    }
    SkipSpaceOver(s, 0, |ws|);
    assert s[|ws|..] == u;
  }

  /** `SkipSpace` from `k` stops at `j` when `s[k..j]` is white space and
      `s[j]`, if any, is not. */
  lemma {:induction false} SkipSpaceOver(s: string, k: nat, j: nat)
    requires k <= j <= |s|
    requires forall i :: k <= i < j ==> IsWhitespace(s[i])
    requires j == |s| || !IsWhitespace(s[j])
    ensures SkipSpace(s, k) == j
    decreases j - k
  {
    if k < j {
      SkipSpaceOver(s, k + 1, j);
    }
  }

  /** `s.indexOf(c)`: the first position of `c`, or -1. */
  function IndexOf(s: string, c: char): (r: int)
    ensures -1 <= r < |s|
    ensures r == -1 <==> c !in s
    ensures r >= 0 ==> s[r] == c && forall i :: 0 <= i < r ==> s[i] != c
  {
    IndexFrom(s, c, 0)
  }

  function IndexFrom(s: string, c: char, k: nat): (r: int)
    requires k <= |s|
    ensures r == -1 || k <= r < |s|
    ensures r == -1 <==> forall i :: k <= i < |s| ==> s[i] != c
    ensures r >= 0 ==> s[r] == c && forall i :: k <= i < r ==> s[i] != c
    decreases |s| - k
  {
    if k == |s| then -1
    else if s[k] == c then k
    else IndexFrom(s, c, k + 1)
  }

  /** `s.lastIndexOf(c)`: the last position of `c`, or -1. */
  function LastIndexOf(s: string, c: char): (r: int)
    ensures -1 <= r < |s|
    ensures r == -1 <==> c !in s
    ensures r >= 0 ==> s[r] == c && forall i :: r < i < |s| ==> s[i] != c
  {
    LastBefore(s, c, |s|)
  }

  function LastBefore(s: string, c: char, n: nat): (r: int)
    requires n <= |s|
    ensures -1 <= r < n
    ensures r == -1 <==> forall i :: 0 <= i < n ==> s[i] != c
    ensures r >= 0 ==> s[r] == c && forall i :: r < i < n ==> s[i] != c
  {
    if n == 0 then -1
    else if s[n - 1] == c then n - 1
    else LastBefore(s, c, n - 1)
  }

  function Clamp(i: int, n: nat): (r: nat)
    ensures r <= n
  {
    if i < 0 then 0 else if i > n then n else i
  }

  /** `s.substring(start, end)`: both ends clamped to the string, and swapped
      when `start` is past `end`. */
  function Substring(s: string, start: int, end: int): (r: string)
    ensures exists i, j :: 0 <= i <= j <= |s| && r == s[i..j]
    ensures 0 <= start <= end <= |s| ==> r == s[start..end]
    ensures 0 <= end <= start <= |s| ==> r == s[end..start]
  {
    var a, b := Clamp(start, |s|), Clamp(end, |s|);
    if a <= b then s[a..b] else s[b..a]
  }

  /** `s.replace(c, '')` with a one-character string pattern: only the first
      occurrence of `c` is removed. */
  function RemoveFirst(s: string, c: char): (r: string)
    ensures c !in s ==> r == s
    ensures c in s ==> exists k :: 0 <= k < |s| && s[k] == c && c !in s[..k] && r == s[..k] + s[k + 1..]
  {
    var k := IndexOf(s, c);
    if k == -1 then s else s[..k] + s[k + 1..]
  }

  /** `s.replace(/[...]/g, '')`: every character of the class removed. */
  function RemoveAll(s: string, cls: set<char>): (r: string)
    ensures forall i :: 0 <= i < |r| ==> r[i] !in cls
    ensures forall i :: 0 <= i < |s| && s[i] !in cls ==> s[i] in r
    ensures forall i :: 0 <= i < |r| ==> r[i] in s
    ensures |r| <= |s|
  {
    if s == [] then []
    else (if s[0] in cls then [] else [s[0]]) + RemoveAll(s[1..], cls)
  }

  /** One character is dropped when it is in the class and kept otherwise;
      with `RemoveAllConcat` this fixes the result of every string. */
  lemma RemoveAllSingle(c: char, cls: set<char>)
    ensures RemoveAll([c], cls) == if c in cls then [] else [c]
  {
    assert [c][1..] == [];
  }

  /** Removing a class from a string without any of its characters leaves
      it unchanged ... */
  lemma {:induction false} RemoveAllClean(s: string, cls: set<char>)
    requires forall i :: 0 <= i < |s| ==> s[i] !in cls
    ensures RemoveAll(s, cls) == s
  {
    if s != [] {
      RemoveAllClean(s[1..], cls);
    }
  }

  /** ... and works on each part of a concatenation separately. */
  lemma {:induction false} RemoveAllConcat(a: string, b: string, cls: set<char>)
    ensures RemoveAll(a + b, cls) == RemoveAll(a, cls) + RemoveAll(b, cls)
  {
    if a == [] {
      assert a + b == b;
    } else {
      var head := if a[0] in cls then [] else [a[0]];
      assert RemoveAll(a + b, cls) == head + RemoveAll(a[1..] + b, cls) by {
        assert (a + b)[0] == a[0] && (a + b)[1..] == a[1..] + b;
      }
      assert RemoveAll(a[1..] + b, cls) == RemoveAll(a[1..], cls) + RemoveAll(b, cls) by {
        RemoveAllConcat(a[1..], b, cls);
      }
      assert RemoveAll(a, cls) == head + RemoveAll(a[1..], cls);
      Assoc(head, RemoveAll(a[1..], cls), RemoveAll(b, cls));
    }
  }

  /** `s.replace(/[...]/g, x)`: every character of the class replaced by `x`. */
  function ReplaceAll(s: string, cls: set<char>, x: char): (r: string)
    ensures |r| == |s|
    ensures forall i :: 0 <= i < |s| ==> r[i] == if s[i] in cls then x else s[i]
  {
    if s == [] then []
    else [if s[0] in cls then x else s[0]] + ReplaceAll(s[1..], cls, x)
  }
}
