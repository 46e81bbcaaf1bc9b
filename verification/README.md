# ArticleContentArea — a Dafny model

This project models the core of the MediaWiki extension *ArticleContentArea*.
The extension lets a page carry one "content area" token. It is set with the
parser function `{{#articlecontentarea: value}}`, kept as a page property, and
published to the page's JavaScript as `wgArticleContentArea`.

The model has four pure modules plus a small `Wrappers` module holding `Option`:

- `PhpValues`: the PHP value semantics the code relies on. These are
  `empty()`/truthiness of `null|string|array` arguments, the `(array)` cast and
  `array_diff`.
- `PhpStrings`: `trim()` with its default character list and `htmlspecialchars()`.
  It also has `Decode`, an entity reader used as the inverse in the round-trip lemma.
- `ContentArea`: the `ArticleContentArea` class. It covers the join descriptor
  (`getJoin`), the page-property lookup, the memoised vocabulary with its cache as
  explicit `Option` state, and the validity check.
- `Hooks`: the `Hooks` class. It covers the parser-function setter with its stub
  validator and the two relay hooks. The three property bags are maps that each
  handler takes and returns.

Host facilities are parameters:
- the database's `makeList` quoting is an arbitrary function `makeList`;
- category membership is a function `membersOf` from a category name to titles;
- `PageProps::getProperties` is replaced by the property array it returns.

Points of the code worth knowing, modelled as written:

- `getJoin` has no page-id-field parameter. The join always uses `page_id`.
- The render path validates only with the stub `Hooks::isValidContentArea`,
  which rejects only `""` and `"0"`. It never consults the category vocabulary,
  so a value outside a non-empty vocabulary is stored as given
  (`Hooks.RenderPathIgnoresVocabulary`).
- Because `empty()` runs before the membership test, a vocabulary member titled
  `0` is rejected (`ContentArea.ZeroMemberRejected`).

For `getJoin`, the model adds a reference reading of the SQL it builds:
`ContentArea.JoinedContentArea` gives the `content_area` values the joined
query yields for one page, given the `page_props` rows. The join lemmas are
stated against this reading. `GetJoin`'s contract says that the clause it
returns is the rendering of the join type and conditions that the reading
interprets.

## Model

| member | source | states |
|---|---|---|
| PhpValues.ArrayDiff | includes/ArticleContentArea.php:106 | `array_diff(a, b)` holds exactly the elements of `a` that are not in `b`, and is no longer than `a` |
| PhpValues.ArrayDiffEmptyIffSubset | includes/ArticleContentArea.php:106-107 | `count(array_diff(a, b)) === 0` holds iff every element of `a` is in `b` |
| PhpStrings.LeadingTrimCount | includes/Hooks.php:48 | counts the strippable characters at the start: all of them are trim characters and the next one is not |
| PhpStrings.TrailingTrimCount | includes/Hooks.php:48 | counts the strippable characters at the end: all of them are trim characters and the one before is not |
| PhpStrings.TrimLeft | includes/Hooks.php:48 | the result is a suffix of the input; everything dropped is a trim character; the result does not start with one |
| PhpStrings.TrimRight | includes/Hooks.php:48 | the result is a prefix of the input; everything dropped is a trim character; the result does not end with one |
| PhpStrings.Trim | includes/Hooks.php:48 | `trim()` returns a contiguous slice with only trim characters cut on each side, and the slice has no trim character at either end |
| PhpStrings.TrimIdempotent | includes/Hooks.php:48 | trimming twice is trimming once |
| PhpStrings.TrimEmptyIffAllTrimChars | includes/Hooks.php:48 | `trim()` yields `""` iff every input character is a trim character |
| PhpStrings.HtmlSpecialChars | includes/Hooks.php:48 | escaped text holds no raw `<`, `>`, `"` or `'`, is at least as long as the input, and is empty iff the input is |
| PhpStrings.DecodeHtmlSpecialChars | includes/Hooks.php:48 | escaping loses nothing: decoding the escaped text gives the input back |
| PhpStrings.HtmlSpecialCharsAppend | includes/Hooks.php:48 | escaping distributes over concatenation |
| PhpStrings.HtmlSpecialCharsKeepsTrimmed | includes/Hooks.php:48 | escaping a string with no trim characters at its ends gives one with none either |
| PhpStrings.HtmlSpecialCharsPlainText | includes/Hooks.php:48 | text holding none of `&`, `<`, `>`, `"`, `'` is left unchanged by escaping |
| PhpStrings.HtmlSpecialCharsZero | includes/Hooks.php:48-49 | text escapes to `"0"` iff it is `"0"`, so the stub sees the same emptiness before and after escaping |
| ContentArea.GetJoin | includes/ArticleContentArea.php:29-49 | exactly one table (`content_area_page_props` → `page_props`), one field (`content_area` → `content_area_page_props.pp_value`) and one join clause; falsy argument: `LEFT OUTER JOIN` with the two base conditions; truthy: `INNER JOIN` with those plus `pp_value IN (makeList((array)$contentArea))`; the clause is the SQL rendering of the join type and conditions that `JoinSelectsContentArea` interprets |
| ContentArea.FalsyArgumentsJoinAlike | includes/ArticleContentArea.php:32-36 | `null`, `""`, `"0"` and `[]` all give the same unfiltered join |
| ContentArea.StringJoinsAsSingletonList | includes/ArticleContentArea.php:34-35 | a truthy string joins exactly like the one-element list holding it |
| ContentArea.JoinSelectsContentArea | includes/ArticleContentArea.php:32-39 | the joined `content_area` values of a page are exactly its content-area rows' values, filtered to `(array)$contentArea` when truthy; unfiltered, the page is always kept and gets null iff it has no such row; filtered, null never appears |
| ContentArea.GetArticleContentArea | includes/ArticleContentArea.php:58-63 | null iff the property array is empty, otherwise its first value in order |
| ContentArea.LookupReturnsSoleRow | includes/ArticleContentArea.php:58-62 | when the page has exactly one `ArticleContentArea` row in the table, the lookup returns that row's value |
| ContentArea.LookupAgreesWithJoin | includes/ArticleContentArea.php:62 | the single-page lookup is null exactly when the unfiltered join yields null for the page, and otherwise it is the join's first value |
| ContentArea.GetValidContentAreas | includes/ArticleContentArea.php:68-88 | a set cache is returned unchanged; else no category gives `[]`, and a category gives its members' title texts in member order; the cache afterwards holds what was returned |
| ContentArea.CachedVocabularyIsFinal | includes/ArticleContentArea.php:71-73 | once the cache is set, every later call returns it, whatever the configuration or membership says by then |
| ContentArea.ComputedAtMostOnce | includes/ArticleContentArea.php:71-87 | in any run of calls, every call returns what the first call returned |
| ContentArea.IsValidAgainst | includes/ArticleContentArea.php:98-107 | empty vocabulary: always valid; else a PHP-empty candidate is invalid; else valid iff every element of `(array)$contentArea` is in the vocabulary |
| ContentArea.IsValidContentArea | includes/ArticleContentArea.php:95-108 | the rule above, applied to the vocabulary `getValidContentAreas` yields for the same cache and host (the cache it leaves is exactly that call's), so on a first call the configured category's members decide; the cache is set afterwards and unchanged if it was already set |
| ContentArea.SingleTokenValidity | includes/ArticleContentArea.php:102-107 | against a non-empty vocabulary, a token outside it is rejected and a non-empty token in it is accepted |
| ContentArea.StringValidatesAsSingletonList | includes/ArticleContentArea.php:106 | a non-empty single token is validated like the one-element list holding it |
| ContentArea.ZeroMemberRejected | includes/ArticleContentArea.php:102-104 | a vocabulary listing `0` still rejects the candidate `"0"` |
| Hooks.StoredValue | includes/Hooks.php:48-49 | the stored value is never `""` or `"0"`, holds no raw markup character and has no trim characters at its ends; it is the escaped, trimmed input and decodes back to it when that input is not PHP-empty; otherwise it is `unknown` (the stub check of Hooks.php:64-65) |
| Hooks.StoredVerbatim | includes/Hooks.php:48-49 | input with nothing to trim or escape, other than `""` and `"0"`, is stored exactly as written |
| Hooks.BlankOrZeroStoresFallback | includes/Hooks.php:48-49 | whitespace-only input, and input that trims to `"0"`, stores `unknown` |
| Hooks.SetArticleContentArea | includes/Hooks.php:47-54 | returns `""`; the bag afterwards has the old keys plus `ArticleContentArea`, which holds the stored value; every other key is unchanged |
| Hooks.LastWriteWins | includes/Hooks.php:51 | two calls leave the bag exactly as the second call alone would |
| Hooks.OnOutputPageParserOutput | includes/Hooks.php:34-36 | the output page's property becomes the parser output's property, null when unset; other keys are unchanged |
| Hooks.OnMakeGlobalVariablesScript | includes/Hooks.php:77-79 | `wgArticleContentArea` becomes the output page's property, null when unset; other entries are unchanged |
| Hooks.RelaysPassThrough | includes/Hooks.php:78 | after both relays, `wgArticleContentArea` equals the parser-output property, null included |
| Hooks.StoredValueReachesClient | includes/Hooks.php:51 | setter then both relays: `wgArticleContentArea` is exactly the value the setter stored |
| Hooks.StoredValueReadBack | includes/ArticleContentArea.php:58-62 | in any `page_props` table where the page has exactly one `ArticleContentArea` row, holding the stored value, `getArticleContentArea` returns that value |
| Hooks.RenderPathIgnoresVocabulary | includes/Hooks.php:64-65 | plain, already-trimmed text that the registry rejects against a non-empty vocabulary is still stored as given by the render path |

## Left out

- Database access: `wfGetDB` is dropped. `$dbr->makeList` is an arbitrary function parameter, so the quoting it does is not modelled.
- Host lookups: `Category::newFromName`, `getMembers` and `PageProps::getInstance()->getProperties` become parameters. These are a membership function and a property array.
- Malformed category names: for these the host returns `false` from `Category::newFromName`. The model assumes the membership function always answers, so it does not cover that path.
- `onParserFirstCallInit`: the hook registration is host plumbing with no behaviour to state.
- The commented-out `wgArticleTypeConfig` check in the stub validator is dead code.
- `htmlspecialchars` is modelled as the fixed five-character replacement (`&`, `<`, `>`, `"`, and `'` as `&#039;`). Invalid-UTF-8 substitution and other flag or encoding variants are not modelled.
- `false` for unset properties: for an unset key, `ParserOutput::getProperty` returns `false`, not null. So on a page that never calls the parser function, Hooks.php:35 puts `false` into the output page, and `wgArticleContentArea` becomes `false`. The model reads an unset parser-output key as `None`, which stands for that `false`; it does not tell it apart from null.
- Concurrent first-use races on the vocabulary cache are not modelled; each call is one step applied to the cache value.
- An aggregate listing of assigned content areas and a configurable page-id field for the join do not exist in this code, so they are not modelled.
