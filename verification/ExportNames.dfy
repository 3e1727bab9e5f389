/**
 * The names App.tsx gives to what it writes out: the worksheet name of a
 * card and the workbook file name of a single-card download.
 */
module ExportNames {
  import opened JsStrings
  import opened TimeCards
  import opened SeqFacts

  /** The characters `\ / * ? : " < > |`, which worksheet and file names may
      not contain. */
  const Forbidden: set<char> := {'\\', '/', '*', '?', ':', '"', '<', '>', '|'}

  /** The longest worksheet name. */
  const MaxSheetName: nat := 31

  /** The workbook name used when the name or the year-month is empty. */
  const FallbackFileName: string := "TimeCard.xlsx"

  /** The workbook name of the download of all cards. */
  const AllCardsFileName: string := "TimeCards.xlsx"

  /** `"${yearMonth} ${name}"` with the forbidden characters removed: the
      year-month's and the name's characters are cleaned separately, and the
      space between them stays. */
  function SheetBase(t: Title): (r: string)
    ensures r == RemoveAll(t.yearMonth, Forbidden) + " " + RemoveAll(t.name, Forbidden)
  {
    RemoveAllConcat(t.yearMonth, " " + t.name, Forbidden);
    RemoveAllConcat(" ", t.name, Forbidden);
    RemoveAllSingle(' ', Forbidden);
    Assoc(t.yearMonth, " ", t.name);
    Assoc(RemoveAll(t.yearMonth, Forbidden), " ", RemoveAll(t.name, Forbidden));
    RemoveAll(t.yearMonth + " " + t.name, Forbidden)
  }

  /** The worksheet name: the cleaned `"${yearMonth} ${name}"`, cut to its
      first 31 characters. */
  function SheetName(t: Title): (r: string)
    ensures |r| <= MaxSheetName
    ensures forall i :: 0 <= i < |r| ==> r[i] !in Forbidden
    ensures |r| <= |SheetBase(t)| && r == SheetBase(t)[..|r|]
    ensures |r| == if |SheetBase(t)| < MaxSheetName then |SheetBase(t)| else MaxSheetName
  {
    Substring(SheetBase(t), 0, MaxSheetName)
  }

  /** A title without forbidden characters whose `"${yearMonth} ${name}"`
      fits names its sheet exactly that way. */
  lemma SheetNameOfCleanTitle(t: Title)
    requires forall i :: 0 <= i < |t.yearMonth| ==> t.yearMonth[i] !in Forbidden
    requires forall i :: 0 <= i < |t.name| ==> t.name[i] !in Forbidden
    requires |t.yearMonth| + 1 + |t.name| <= MaxSheetName
    ensures SheetName(t) == t.yearMonth + " " + t.name
  {
    var s := t.yearMonth + " " + t.name;
    forall i | 0 <= i < |s| ensures s[i] !in Forbidden {
      if i < |t.yearMonth| {
        assert s[i] == t.yearMonth[i];
      } else if i > |t.yearMonth| {
        assert s[i] == t.name[i - |t.yearMonth| - 1];
      }
    }
    RemoveAllClean(s, Forbidden);
  }

  /** Removing the forbidden characters of a sheet name changes nothing:
      the name is already clean. */
  lemma SheetNameIsClean(t: Title)
    ensures RemoveAll(SheetName(t), Forbidden) == SheetName(t)
  {
    RemoveAllClean(SheetName(t), Forbidden);
  }

  /** No forbidden character and no white space. */
  predicate SafeChar(c: char) {
    c !in Forbidden && !IsWhitespace(c)
  }

  predicate SafeForFile(s: string) {
    forall i :: 0 <= i < |s| ==> SafeChar(s[i])
  }

  /** One part of the file name: white space removed, then each forbidden
      character replaced by `_`; every other character is kept in place. */
  function FileNamePart(s: string): (r: string)
    ensures |r| == |StripWhitespace(s)|
    ensures forall i :: 0 <= i < |r| ==>
      r[i] == if StripWhitespace(s)[i] in Forbidden then '_' else StripWhitespace(s)[i]
    ensures SafeForFile(r)
  {
    var stripped := StripWhitespace(s);
    assert SafeChar('_');
    ReplaceAll(stripped, Forbidden, '_')
  }

  lemma SafeLiterals()
    ensures SafeForFile("_") && SafeForFile(".xlsx") && SafeForFile(FallbackFileName)
  {
    assert SafeChar('_') && SafeChar('.') && SafeChar('x') && SafeChar('l') && SafeChar('s');
    forall i | 0 <= i < |FallbackFileName| ensures SafeChar(FallbackFileName[i]) {
    }
  }

  lemma SafeConcat(a: string, b: string)
    requires SafeForFile(a) && SafeForFile(b)
    ensures SafeForFile(a + b)
  {
    forall i | 0 <= i < |a + b| ensures SafeChar((a + b)[i]) {
      if i >= |a| {
        assert (a + b)[i] == b[i - |a|];
      }
    }
  }

  /** The single-card workbook name: `${name}_${yearMonth}.xlsx` from the
      cleaned parts when both are non-empty, `TimeCard.xlsx` otherwise. It
      holds no white space and no forbidden character, and ends in `.xlsx`. */
  function FileName(t: Title): (r: string)
    ensures SafeForFile(r)
    ensures |r| >= 5 && r[|r| - 5..] == ".xlsx"
    ensures FileNamePart(t.name) != [] && FileNamePart(t.yearMonth) != [] ==>
      r == FileNamePart(t.name) + "_" + FileNamePart(t.yearMonth) + ".xlsx"
    ensures FileNamePart(t.name) == [] || FileNamePart(t.yearMonth) == [] ==> r == FallbackFileName
  {
    var name, yearMonth := FileNamePart(t.name), FileNamePart(t.yearMonth);
    SafeLiterals();
    if name != [] && yearMonth != [] then
      SafeConcat(name, "_");
      SafeConcat(name + "_", yearMonth);
      SafeConcat(name + "_" + yearMonth, ".xlsx");
      name + "_" + yearMonth + ".xlsx"
    else
      FallbackFileName
  }

  /** The fallback name is used exactly when the name or the year-month has
      nothing but white space: no pair of cleaned parts can spell it. */
  lemma FileNameFallback(t: Title)
    ensures FileName(t) == FallbackFileName <==> StripWhitespace(t.name) == [] || StripWhitespace(t.yearMonth) == []
  {
    var name, yearMonth := FileNamePart(t.name), FileNamePart(t.yearMonth);
    assert name == [] <==> StripWhitespace(t.name) == [];
    assert yearMonth == [] <==> StripWhitespace(t.yearMonth) == [];
    if name != [] && yearMonth != [] {
      var f := name + "_" + yearMonth + ".xlsx";
      assert FileName(t) == f;
      assert f != FallbackFileName by {
        if |f| == |FallbackFileName| {
          assert f[|name|] == '_';
          NoUnderscore(FallbackFileName, |name|);
        }
      }
    }
  }

  /** The download of all cards never takes the name of a single-card
      download. */
  lemma AllCardsNameDistinct(t: Title)
    ensures FileName(t) != AllCardsFileName
  {
    var name, yearMonth := FileNamePart(t.name), FileNamePart(t.yearMonth);
    if name != [] && yearMonth != [] {
      var f := name + "_" + yearMonth + ".xlsx";
      assert f[|name|] == '_';
      if |f| == |AllCardsFileName| {
        NoUnderscore(AllCardsFileName, |name|);
      }
    } else {
      assert |FallbackFileName| != |AllCardsFileName|;
    }
  }

  /** Neither fixed workbook name holds an underscore. */
  lemma NoUnderscore(f: string, i: nat)
    requires f == FallbackFileName || f == AllCardsFileName
    requires i < |f|
    ensures f[i] != '_'
  {
  }
}
