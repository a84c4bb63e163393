/**
  `extractFunction` of scripts/extract-functions.js and the loop that
  runs it over the list of function names, counting successes and
  recording the metadata the script writes next to its output.
 */
module Extractor {
  import opened Text
  import opened HeaderPattern
  import opened BraceScan

  /** The names the script copies out of the application source, in
      order. The script writes them as one flat list; the model writes it
      as four consecutive literal stretches only so that each stretch can
      be checked by a proof of its own (see `FunctionNamesAreWords`). */
  const FunctionNames: seq<string> := FormatNames + ImportNames + CurrencyNames + TrendNames

  const FormatNames: seq<string> := ["formatCurrency", "formatNumber", "formatDate", "formatMonth"]

  const ImportNames: seq<string> :=
    ["parseCSV", "normalizeDate", "normalizeImportedCategory", "monthNameToNumber", "findHeaderIndex"]

  const CurrencyNames: seq<string> := ["getCurrencySymbol", "getCurrency"]

  const TrendNames: seq<string> :=
    ["getPreviousMonth", "getMonthTotals", "calculateMoMDelta", "calculateExpensePercentage"]

  // Each stretch is checked character by character in a proof of its own.
  lemma FormatNamesAreWords()
    ensures forall i :: 0 <= i < |FormatNames| ==> IsFunctionName(FormatNames[i])
  {
  }

  lemma ImportNamesAreWords()
    ensures forall i :: 0 <= i < |ImportNames| ==> IsFunctionName(ImportNames[i])
  {
  }

  lemma CurrencyNamesAreWords()
    ensures forall i :: 0 <= i < |CurrencyNames| ==> IsFunctionName(CurrencyNames[i])
  {
  }

  lemma TrendNamesAreWords()
    ensures forall i :: 0 <= i < |TrendNames| ==> IsFunctionName(TrendNames[i])
  {
  }

  /** Joining two lists of word-character names gives one. */
  lemma NamesAreWordsJoin(xs: seq<string>, ys: seq<string>)
    requires forall i :: 0 <= i < |xs| ==> IsFunctionName(xs[i])
    requires forall i :: 0 <= i < |ys| ==> IsFunctionName(ys[i])
    ensures forall i :: 0 <= i < |xs + ys| ==> IsFunctionName((xs + ys)[i])
  {
    forall i | 0 <= i < |xs + ys|
      ensures IsFunctionName((xs + ys)[i])
    {
      if i >= |xs| {
        assert (xs + ys)[i] == ys[i - |xs|];
      }
    }
  }

  /** Every listed name is made of word characters, so pasting it into
      the header pattern unescaped reads it literally. */
  lemma FunctionNamesAreWords()
    ensures forall i :: 0 <= i < |FunctionNames| ==> IsFunctionName(FunctionNames[i])
  {
    FormatNamesAreWords();
    ImportNamesAreWords();
    CurrencyNamesAreWords();
    TrendNamesAreWords();
    NamesAreWordsJoin(FormatNames, ImportNames);
    NamesAreWordsJoin(FormatNames + ImportNames, CurrencyNames);
    NamesAreWordsJoin(FormatNames + ImportNames + CurrencyNames, TrendNames);
  }

  /** The text of the first definition of `name` in `code`: from the
      start of the first header match to the `}` that balances the
      header's `{`; `None` when there is no header or the code ends
      before the braces balance. */
  function ExtractFunction(code: string, name: string): Option<string>
  {
    var found := FindHeader(code, name, 0);
    if found.None? then None
    else
      var p, e := found.value.0, found.value.1;
      var close := CloseFrom(code, e, 1);
      if close.None? then None else Some(code[p..close.value])
  }

  /** Where an extracted text sits in the code: it is `code[p..k]`, the
      header's keyword is at `p`, and the character before `k` is `}`. */
  lemma ExtractedCut(code: string, name: string) returns (p: nat, k: nat)
    ensures ExtractFunction(code, name).Some? ==>
      && p + |Keyword| < k <= |code|
      && code[p..p + |Keyword|] == Keyword
      && code[k - 1] == '}'
      && ExtractFunction(code, name) == Some(code[p..k])
  {
    p, k := 0, 0;
    var found := FindHeader(code, name, 0);
    if found.Some? {
      var e := found.value.1;
      p := found.value.0;
      var close := CloseFrom(code, e, 1);
      if close.Some? {
        k := close.value;
        assert HeaderEnd(code, name, p) == Some(e);
      }
    }
  }

  /** An extracted text opens with the keyword `function` and closes
      with `}`; in particular it is never empty. */
  lemma ExtractedShape(code: string, name: string)
    ensures ExtractFunction(code, name).Some? ==>
      var text := ExtractFunction(code, name).value;
      |Keyword| < |text| && text[..|Keyword|] == Keyword && text[|text| - 1] == '}'
  {
    var p, k := ExtractedCut(code, name);
    var r := ExtractFunction(code, name);
    if r.Some? {
      DefinitionShape(code, p, k);
      assert r.value == code[p..k];
    }
  }

  /** A stretch that opens with the keyword and ends with `}` keeps both
      once cut out of the code. */
  lemma DefinitionShape(code: string, p: nat, k: nat)
    requires p + |Keyword| < k <= |code|
    requires code[p..p + |Keyword|] == Keyword && code[k - 1] == '}'
    ensures |code[p..k]| > |Keyword|
    ensures code[p..k][..|Keyword|] == Keyword
    ensures code[p..k][|code[p..k]| - 1] == '}'
  {
    assert code[p..k][..|Keyword|] == code[p..p + |Keyword|];
  }

  /** Two first matches are the same match. */
  lemma FirstHeaderUnique(code: string, name: string, p1: nat, e1: nat, p2: nat, e2: nat)
    requires IsFunctionName(name)
    requires FirstHeader(code, name, p1, e1) && FirstHeader(code, name, p2, e2)
    ensures p1 == p2 && e1 == e2
  {
    assert p1 == p2;
    HeaderInsideText(code, name, p1, e1);
    HeaderEndComplete(code, name, p1, e1);
    HeaderEndComplete(code, name, p2, e2);
  }

  /** Where the search stops when the pattern matches somewhere. */
  lemma FindHeaderAt(code: string, name: string, p: nat, e: nat)
    requires IsFunctionName(name)
    requires FirstHeader(code, name, p, e)
    ensures FindHeader(code, name, 0) == Some((p, e))
  {
    FindHeaderIsFirst(code, name);
    var r := FindHeader(code, name, 0);
    assert r.Some?;
    FirstHeaderUnique(code, name, p, e, r.value.0, r.value.1);
  }

  /** With the first header ending at `e` and its braces balancing just
      before `k`, the result is exactly `code[p..k]`. */
  lemma ExtractFound(code: string, name: string, p: nat, e: nat, k: nat)
    requires IsFunctionName(name)
    requires FirstHeader(code, name, p, e)
    requires ClosesAt(code, e, k)
    ensures ExtractFunction(code, name) == Some(code[p..k])
  {
    FindHeaderAt(code, name, p, e);
    CloseFromSpec(code, e);
  }

  /** A first header whose braces never balance gives `null`. */
  lemma ExtractUnclosed(code: string, name: string, p: nat, e: nat)
    requires IsFunctionName(name)
    requires FirstHeader(code, name, p, e)
    requires Unclosed(code, e)
    ensures ExtractFunction(code, name).None?
  {
    FindHeaderAt(code, name, p, e);
    CloseFromSpec(code, e);
  }

  /** No header anywhere gives `null`. */
  lemma ExtractNoHeader(code: string, name: string)
    requires IsFunctionName(name)
    requires NoHeader(code, name)
    ensures ExtractFunction(code, name).None?
  {
    FindHeaderIsFirst(code, name);
  }

  /** The converse: every result arises in one of the three ways above.
      A text comes from the first header and the shortest balanced
      close after it; `null` means no header or an unbalanced body. */
  lemma ExtractOutcomes(code: string, name: string)
    requires IsFunctionName(name)
    ensures ExtractFunction(code, name).Some? ==>
      exists p: nat, e: nat, k: nat ::
        && FirstHeader(code, name, p, e)
        && ClosesAt(code, e, k)
        && e < k
        && ExtractFunction(code, name).value == code[p..k]
    ensures ExtractFunction(code, name).None? ==>
      || NoHeader(code, name)
      || exists p: nat, e: nat :: FirstHeader(code, name, p, e) && Unclosed(code, e)
  {
    FindHeaderIsFirst(code, name);
    match FindHeader(code, name, 0)
    case None =>
    case Some((p, e)) =>
      CloseFromSpec(code, e);
      match CloseFrom(code, e, 1)
      case None =>
        assert FirstHeader(code, name, p, e) && Unclosed(code, e);
      case Some(k) =>
        ClosesAtBrace(code, e, k);
        assert FirstHeader(code, name, p, e) && ClosesAt(code, e, k);
  }

  /** A definition is never taken from a later match than the first. */
  lemma ExtractIgnoresLaterDefinitions(code: string, name: string, q: nat, f: nat)
    requires IsFunctionName(name)
    requires HeaderAt(code, name, q, f)
    ensures forall p: nat, e: nat, k: nat ::
      FirstHeader(code, name, p, e) && ClosesAt(code, e, k) ==>
        p <= q && ExtractFunction(code, name) == Some(code[p..k])
  {
    forall p: nat, e: nat, k: nat | FirstHeader(code, name, p, e) && ClosesAt(code, e, k)
      ensures p <= q && ExtractFunction(code, name) == Some(code[p..k])
    {
      ExtractFound(code, name, p, e, k);
    }
  }

  /** `if (extracted)`: JavaScript truthiness of a string or `null`. */
  predicate Truthy(r: Option<string>) {
    r.Some? && r.value != ""
  }

  /** An extracted text is never empty, so the script's truthiness test
      is exactly the test for `null`. */
  lemma ExtractedIsTruthy(code: string, name: string)
    ensures Truthy(ExtractFunction(code, name)) <==> ExtractFunction(code, name).Some?
  {
    ExtractedShape(code, name);
  }

  /** What the script appends to the generated module per definition. */
  function ExportBlock(f: string): string {
    "export " + f + "\n\n"
  }

  /** The result of `extractFunction` for each name, in list order. */
  function Lookups(code: string, names: seq<string>): (rs: seq<Option<string>>)
    ensures |rs| == |names|
    ensures forall i :: 0 <= i < |names| ==> rs[i] == ExtractFunction(code, names[i])
  {
    seq(|names|, i requires 0 <= i < |names| => ExtractFunction(code, names[i]))
  }

  /** The texts of the successful lookups, in order. */
  function Found(rs: seq<Option<string>>): seq<string>
    decreases |rs|
  {
    if |rs| == 0 then []
    else
      var rest := Found(rs[..|rs| - 1]);
      match rs[|rs| - 1]
      case Some(f) => rest + [f]
      case None => rest
  }

  /** The names whose lookup failed, in order. */
  function Missing(names: seq<string>, rs: seq<Option<string>>): seq<string>
    requires |names| == |rs|
    decreases |rs|
  {
    if |rs| == 0 then []
    else
      var rest := Missing(names[..|rs| - 1], rs[..|rs| - 1]);
      if rs[|rs| - 1].None? then rest + [names[|rs| - 1]] else rest
  }

  /** The export blocks of `fs`, one after the other. */
  function ExportSection(fs: seq<string>): string
    decreases |fs|
  {
    if |fs| == 0 then "" else ExportSection(fs[..|fs| - 1]) + ExportBlock(fs[|fs| - 1])
  }

  /** Every lookup is either found or missing. */
  lemma {:induction false} FoundPlusMissing(names: seq<string>, rs: seq<Option<string>>)
    requires |names| == |rs|
    ensures |Found(rs)| + |Missing(names, rs)| == |rs|
    decreases |rs|
  {
    if |rs| > 0 {
      FoundPlusMissing(names[..|rs| - 1], rs[..|rs| - 1]);
    }
  }

  /** Nothing is missing exactly when every lookup succeeded. */
  lemma {:induction false} MissingEmptyIff(names: seq<string>, rs: seq<Option<string>>)
    requires |names| == |rs|
    ensures |Missing(names, rs)| == 0 <==> forall i :: 0 <= i < |rs| ==> rs[i].Some?
    decreases |rs|
  {
    if |rs| > 0 {
      var init := rs[..|rs| - 1];
      MissingEmptyIff(names[..|rs| - 1], init);
      assert forall i :: 0 <= i < |init| ==> init[i] == rs[i];
    }
  }

  /** One more lookup adds its text, if any, to the end of `Found`,
      and its name, if it failed, to the end of `Missing`. */
  lemma StepLookups(names: seq<string>, rs: seq<Option<string>>, i: nat)
    requires |names| == |rs|
    requires i < |rs|
    ensures rs[i].Some? ==> Found(rs[..i + 1]) == Found(rs[..i]) + [rs[i].value]
    ensures rs[i].None? ==> Found(rs[..i + 1]) == Found(rs[..i])
    ensures rs[i].Some? ==> Missing(names[..i + 1], rs[..i + 1]) == Missing(names[..i], rs[..i])
    ensures rs[i].None? ==> Missing(names[..i + 1], rs[..i + 1]) == Missing(names[..i], rs[..i]) + [names[i]]
  {
    assert rs[..i + 1][..i] == rs[..i];
    assert names[..i + 1][..i] == names[..i];
  }

  /** The `forEach` over the names: appends an export block for each
      definition found, counts them in `extractedCount`, and warns about
      each name not found. */
  method ExtractAll(code: string, names: seq<string>)
    returns (content: string, extractedCount: nat, warnings: seq<string>)
    ensures content == ExportSection(Found(Lookups(code, names)))
    ensures extractedCount == |Found(Lookups(code, names))|
    ensures warnings == Missing(names, Lookups(code, names))
  {
    ghost var rs := Lookups(code, names);
    content := "";
    extractedCount := 0;
    warnings := [];
    var i := 0;
    while i < |names|
      invariant 0 <= i <= |names|
      invariant content == ExportSection(Found(rs[..i]))
      invariant extractedCount == |Found(rs[..i])|
      invariant warnings == Missing(names[..i], rs[..i])
    {
      var extracted := ExtractFunction(code, names[i]);
      ExtractedIsTruthy(code, names[i]);
      StepLookups(names, rs, i);
      if Truthy(extracted) {
        content := content + ExportBlock(extracted.value);
        extractedCount := extractedCount + 1;
      } else {
        warnings := warnings + [names[i]];
      }
      i := i + 1;
    }
    assert rs[..i] == rs;
    assert names[..i] == names;
  }

  /** The version metadata written beside the generated module. */
  datatype Metadata = Metadata(appVersion: string, extractedFunctions: nat, totalFunctions: nat, success: bool)

  /** The captured `APP_VERSION` text, or `unknown` when the version
      line was not found. */
  function AppVersion(versionCapture: Option<string>): string {
    match versionCapture
    case Some(v) => v
    case None => "unknown"
  }

  /** The closing warning about an incomplete extraction. */
  predicate WarnsIncomplete(m: Metadata) {
    m.extractedFunctions < m.totalFunctions
  }

  /** The whole extraction over `names`: the generated export section,
      the per-name warnings and the metadata record. `success` holds,
      and the closing warning stays silent, exactly when every name was
      found. */
  method RunExtraction(code: string, names: seq<string>, versionCapture: Option<string>)
    returns (content: string, warnings: seq<string>, meta: Metadata)
    ensures content == ExportSection(Found(Lookups(code, names)))
    ensures warnings == Missing(names, Lookups(code, names))
    ensures meta.appVersion == AppVersion(versionCapture)
    ensures meta.totalFunctions == |names|
    ensures meta.extractedFunctions + |warnings| == |names|
    ensures meta.success <==> forall i :: 0 <= i < |names| ==> ExtractFunction(code, names[i]).Some?
    ensures WarnsIncomplete(meta) <==> exists i :: 0 <= i < |names| && ExtractFunction(code, names[i]).None?
    ensures meta.success <==> !WarnsIncomplete(meta)
  {
    var extractedCount;
    content, extractedCount, warnings := ExtractAll(code, names);
    meta := Metadata(AppVersion(versionCapture), extractedCount, |names|, extractedCount == |names|);
    FoundPlusMissing(names, Lookups(code, names));
    MissingEmptyIff(names, Lookups(code, names));
  }

  /** The script as configured: its fifteen names. */
  method ExtractionScript(scriptContent: string, versionCapture: Option<string>)
    returns (content: string, warnings: seq<string>, meta: Metadata)
    ensures meta.totalFunctions == 15
    ensures meta.success <==> forall i :: 0 <= i < |FunctionNames| ==> ExtractFunction(scriptContent, FunctionNames[i]).Some?
    ensures meta.success <==> warnings == []
  {
    content, warnings, meta := RunExtraction(scriptContent, FunctionNames, versionCapture);
  }
}
