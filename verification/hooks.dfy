/**
 The hook handlers (the `Hooks` class): the `{{#articlecontentarea: …}}` parser
 function that stores the value on the parser output, and the two relays that
 carry it to the output page and from there into the client-side globals.

 The three property bags are plain maps passed in and returned. Reading an
 unset key gives `None`: on the output page that is PHP `null`; on the parser
 output it stands for the `false` `ParserOutput::getProperty` returns.
 */
module Hooks {
  import opened Wrappers
  import opened PhpValues
  import opened PhpStrings
  import ContentArea

  /** The key the value travels under in the parser output and the output page. */
  const DataVar: string := ContentArea.DataVar

  /** The client-side global the value ends up in. */
  const JsVar: string := "wgArticleContentArea"

  /** What is stored when the candidate does not pass validation. */
  const Fallback: string := "unknown"

  type ParserOutputProps = map<string, string>
  type OutputPageProps = map<string, Option<string>>
  type JsVars = map<string, Option<string>>

  /** `ParserOutput::getProperty`: the stored value, or `None` for the `false` it returns when unset. */
  function ParserOutputGet(po: ParserOutputProps, key: string): Option<string> {
    if key in po then Some(po[key]) else None
  }

  /** `OutputPage::getProperty`: the stored value (possibly null), or null when unset. */
  function OutputPageGet(out: OutputPageProps, key: string): Option<string> {
    if key in out then out[key] else None
  }

  /** The stub `Hooks::isValidContentArea`: only PHP-empty strings fail. */
  predicate IsValidStub(contentArea: string) {
    !IsEmptyString(contentArea)
  }

  /**
   The value `setArticleContentArea` stores: the trimmed, escaped input when the
   stub accepts it, otherwise the fallback. It is never PHP-empty, never holds a
   raw markup character, has no strippable ends, and decodes back to the trimmed
   input whenever that input was accepted.
   */
  function StoredValue(input: string): (r: string)
    ensures !IsEmptyString(r)
    ensures forall i :: 0 <= i < |r| ==> !IsMarkupChar(r[i])
    ensures IsTrimmed(r)
    ensures IsEmptyString(Trim(input)) ==> r == Fallback
    ensures !IsEmptyString(Trim(input)) ==> r == HtmlSpecialChars(Trim(input)) && Decode(r) == Trim(input)
  {
    var trimmed := Trim(input);
    var escaped := HtmlSpecialChars(trimmed);
    HtmlSpecialCharsZero(trimmed);
    HtmlSpecialCharsKeepsTrimmed(trimmed);
    DecodeHtmlSpecialChars(trimmed);
    FallbackIsClean();
    if IsValidStub(escaped) then escaped else Fallback
  }

  /** The fallback itself passes the stub and is clean text. */
  lemma FallbackIsClean()
    ensures IsValidStub(Fallback) && IsTrimmed(Fallback)
    ensures forall i :: 0 <= i < |Fallback| ==> !IsMarkupChar(Fallback[i])
  {
  }

  /** Input with nothing to trim or escape, and that the stub accepts, is stored verbatim. */
  lemma StoredVerbatim(input: string)
    requires !IsEmptyString(input) && IsTrimmed(input) && IsPlainText(input)
    ensures StoredValue(input) == input
  {
    TrimOfTrimmed(input);
    HtmlSpecialCharsPlainText(input);
  }

  /** Whitespace-only input, and input that trims to `"0"`, is stored as the fallback. */
  lemma BlankOrZeroStoresFallback(input: string)
    requires AllTrimChars(input) || Trim(input) == "0"
    ensures StoredValue(input) == Fallback
  {
  }

  /**
   `setArticleContentArea`: contributes the empty string to the page and writes
   the stored value under the extension's key, leaving every other key alone.
   */
  function SetArticleContentArea(po: ParserOutputProps, input: string): (r: (string, ParserOutputProps))
    ensures r.0 == ""
    ensures r.1.Keys == po.Keys + {DataVar}
    ensures r.1[DataVar] == StoredValue(input)
    ensures forall k :: k in po && k != DataVar ==> r.1[k] == po[k]
  {
    ("", po[DataVar := StoredValue(input)])
  }

  /** Calling the parser function twice leaves the bag as the second call alone would: last write wins. */
  lemma LastWriteWins(po: ParserOutputProps, first: string, second: string)
    ensures SetArticleContentArea(SetArticleContentArea(po, first).1, second).1
         == SetArticleContentArea(po, second).1
  {
  }

  /** `onOutputPageParserOutput`: copies the parser-output value (or null) onto the output page. */
  function OnOutputPageParserOutput(out: OutputPageProps, po: ParserOutputProps): (r: OutputPageProps)
    ensures r.Keys == out.Keys + {DataVar}
    ensures OutputPageGet(r, DataVar) == ParserOutputGet(po, DataVar)
    ensures forall k :: k in out && k != DataVar ==> r[k] == out[k]
  {
    out[DataVar := ParserOutputGet(po, DataVar)]
  }

  /** `onMakeGlobalVariablesScript`: copies the output-page value (or null) into the client globals. */
  function OnMakeGlobalVariablesScript(vars: JsVars, out: OutputPageProps): (r: JsVars)
    ensures r.Keys == vars.Keys + {JsVar}
    ensures r[JsVar] == OutputPageGet(out, DataVar)
    ensures forall k :: k in vars && k != JsVar ==> r[k] == vars[k]
  {
    vars[JsVar := OutputPageGet(out, DataVar)]
  }

  /** Both relays together pass the parser-output value through unchanged, null included. */
  lemma RelaysPassThrough(po: ParserOutputProps, out: OutputPageProps, vars: JsVars)
    ensures OnMakeGlobalVariablesScript(vars, OnOutputPageParserOutput(out, po))[JsVar]
         == ParserOutputGet(po, DataVar)
  {
  }

  /** Render, relay, relay: the client global holds exactly what the parser function stored. */
  lemma StoredValueReachesClient(po: ParserOutputProps, input: string, out: OutputPageProps, vars: JsVars)
    ensures var po' := SetArticleContentArea(po, input).1;
      OnMakeGlobalVariablesScript(vars, OnOutputPageParserOutput(out, po'))[JsVar]
        == Some(StoredValue(input))
  {
  }

  /**
   Once the stored value is saved as the page's one `ArticleContentArea` row,
   in a table holding any other rows, the registry's lookup returns it.
   */
  lemma StoredValueReadBack(po: ParserOutputProps, input: string, rows: seq<ContentArea.PropRow>, pageId: int)
    requires ContentArea.PropRow(pageId, DataVar, SetArticleContentArea(po, input).1[DataVar]) in rows
    requires forall j, k :: (0 <= j < |rows| && 0 <= k < |rows| && ContentArea.IsContentAreaRow(pageId, rows[j])
                             && ContentArea.IsContentAreaRow(pageId, rows[k])) ==> j == k
    ensures ContentArea.GetArticleContentArea(ContentArea.PropertiesOf(rows, pageId)) == Some(StoredValue(input))
  {
    ContentArea.LookupReturnsSoleRow(rows, pageId, SetArticleContentArea(po, input).1[DataVar]);
  }

  /**
   The render path validates with the stub, not the vocabulary: plain text that
   the registry rejects against a non-empty vocabulary is still stored as given.
   */
  lemma RenderPathIgnoresVocabulary(valid: seq<string>, input: string)
    requires |valid| > 0 && input !in valid && !IsEmptyString(input)
    requires IsTrimmed(input) && IsPlainText(input)
    ensures !ContentArea.IsValidAgainst(valid, Str(input))
    ensures StoredValue(input) == input
  {
    ContentArea.SingleTokenValidity(valid, input);
    StoredVerbatim(input);
  }
}
