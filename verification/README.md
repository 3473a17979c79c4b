# HTTP Headers popup: a Dafny model of its rendering pipeline

The HTTP Headers browser extension shows, in a popup, the request and
response headers the background page captured for the active tab, and the
browser cookies that belong to the tab's host. This project models the pure
part of `chrome/headersPopup.js`:

- `sanitize`, which escapes `<` and `>`;
- the error branch taken when the tab has no captured record;
- the header sort, which uses a three-way ordinal comparator on names;
- the section headings;
- `printStatus`, `printHeader` and `printKeys`;
- the cookie filter, the cookie sort and the cookie export string built in `printCookie`.

The popup appends HTML fragments to a results element. The model instead
returns a sequence of structured lines (`Lines.Line`: error text, heading,
status line, header row, cookie row) together with the export string
(`Popup.Output`). `Lines.Markup` is the HTML fragment the popup appends
for a line, and `Lines.Text` is the markup text of that fragment with its
tags removed. The entity lemmas speak about `Escape.Unescape`, which decodes
only `&lt;` and `&gt;`; the browser's own decoding of character references
is not modelled (see "Left out").

Modules, one per concern:

| file | module | contents |
|---|---|---|
| wrappers.dfy | `Wrappers` | `Option`, for a missing record or a missing status line |
| strings.dfy | `Strings` | global one-character replace, `indexOf` and substring containment, `join`, ASCII case mapping |
| escape.dfy | `Escape` | `sanitize`, a character-wise reference escaping, entity decoding |
| ordinal.dfy | `Ordinal` | JavaScript's `<` on strings and the three-way header comparator |
| sorting.dfy | `Sorting` | a stable insertion sort by any total preorder: permutation, order, stability, uniqueness |
| lines.dfy | `Lines` | rendered lines, the error message, heading text |
| headers.dfy | `Headers` | headers, sections, header sort, status line, header rows, `printKeys` |
| cookies.dfy | `Cookies` | cookie filter, cookie sort, cookie rows, export string |
| popup.dfy | `Popup` | `Present`: the whole output for one tab |

Inputs that come from browser APIs are parameters of `Popup.Present`:
- the tab's record from the background page (`Option<Exchange>`);
- the elapsed-time text;
- the cookie store as a sequence;
- the host name of the tab's URL;
- the collation that stands in for `localeCompare`, as a three-way function.

## Model

| member | source | states |
|---|---|---|
| Strings.ReplaceAll | chrome/headersPopup.js:34-35 | Global replacement of one character. Input without that character comes back unchanged. The character is gone from the result unless the replacement holds it. Every other character of the input survives, and nothing new appears except from the replacement. |
| Strings.ReplaceAllOne | chrome/headersPopup.js:34-35 | A single character becomes the replacement when it is the pattern character and stays as it is otherwise. Together with `ReplaceAllAppend` this fixes the result for every input: each occurrence is replaced in place and all other characters keep their order. |
| Strings.ReplaceAllAppend | chrome/headersPopup.js:34-35 | Replacement distributes over concatenation. |
| Strings.IndexOf | chrome/headersPopup.js:69 | `indexOf` returns the first index where the needle occurs. It returns -1 exactly when the needle is not a substring. |
| Strings.IndexFrom | chrome/headersPopup.js:69 | The search from a start index returns the first occurrence at or after that index, or -1 when there is none. |
| Strings.SuffixIsFound | chrome/headersPopup.js:69 | A suffix of the haystack is found. |
| Strings.IndexOfEmpty | chrome/headersPopup.js:69 | An empty needle is found at index 0. |
| Strings.InfixIsFound | chrome/headersPopup.js:69 | Text that sits anywhere inside the haystack is found. |
| Strings.LongerIsNotFound | chrome/headersPopup.js:69 | A needle longer than the haystack is never found. |
| Strings.Join | chrome/headersPopup.js:76 | `join` of no pieces is empty. Otherwise it starts with the first piece, and its length is the pieces' total length plus one separator between each pair of neighbours. |
| Strings.JoinSnoc | chrome/headersPopup.js:76 | Joining one more piece appends the separator and then that piece. |
| Strings.Lower | chrome/headersPopup.js:69 | Lower-casing keeps the length and leaves no ASCII capital. Non-capitals are unchanged, and each capital becomes its lower-case letter. |
| Strings.LowerOfLowerCase | chrome/headersPopup.js:69 | Text without ASCII capitals is its own lower case. |
| Strings.LowerAppend | chrome/headersPopup.js:69 | Lower-casing distributes over concatenation. |
| Strings.LowerIdempotent | chrome/headersPopup.js:69 | Lower-casing twice is the same as lower-casing once. |
| Escape.Sanitize | chrome/headersPopup.js:33-37 | The result has no `<` and no `>`. Text without either character is returned unchanged. Every other character of the input survives. |
| Escape.SanitizeIsEscaped | chrome/headersPopup.js:33-37 | The two global replacements give the same result as escaping one character at a time: `<` becomes `&lt;`, `>` becomes `&gt;`, and all other characters stay, in order. |
| Escape.SanitizeOneChar | chrome/headersPopup.js:33-37 | A single character is escaped to its entity when it is `<` or `>` and kept otherwise. |
| Escape.EscapedAppend | chrome/headersPopup.js:33-37 | Escaping distributes over concatenation. |
| Escape.EscapedPlain | chrome/headersPopup.js:33-37 | Text without brackets is its own escaping. |
| Escape.SanitizeIdempotent | chrome/headersPopup.js:33-37 | Sanitizing twice is the same as sanitizing once. |
| Escape.SanitizeRoundTrip | chrome/headersPopup.js:33-37 | For text with no literal `&lt;` or `&gt;`, decoding the two entities recovers the captured text. Other `&` characters, such as those in a query string, are allowed. |
| Escape.AmpFreeHasNoEntity | chrome/headersPopup.js:33-37 | Text without `&` holds no literal entity, so the round trip covers it. |
| Escape.SanitizeThenText | chrome/headersPopup.js:33-37 | Decoding reads a sanitized text without literal entities back exactly. It then continues with whatever follows, provided that does not start with a character that could continue an entity. |
| Escape.SanitizedPairReadsBack | chrome/headersPopup.js:100 | Two sanitized parts without literal entities, around a separator that has no `&` and does not start with a character that could continue an entity, decode back to the original parts around the separator. |
| Escape.SanitizeNotInjective | chrome/headersPopup.js:33-37 | `&` is not escaped, so `<` and the literal text `&lt;` produce the same output. |
| Escape.SanitizeTag | chrome/headersPopup.js:33-37 | A bracket-free tag name between `<` and `>` is written as the name between `&lt;` and `&gt;`. |
| Escape.SanitizeScriptTag | chrome/headersPopup.js:33-37 | `<script>` becomes `&lt;script&gt;`. |
| Ordinal.Compare | chrome/headersPopup.js:54 | The comparator answers 1, 0 or -1. It answers 1 exactly when the first name sorts after the second. |
| Ordinal.LessIrreflexive | chrome/headersPopup.js:54 | No name sorts strictly before itself. |
| Ordinal.LessAsymmetric | chrome/headersPopup.js:54 | Two names never each sort strictly before the other. |
| Ordinal.LessTrichotomy | chrome/headersPopup.js:54 | For any two names, they are equal or one sorts strictly before the other. |
| Ordinal.LessTransitive | chrome/headersPopup.js:54 | String `<` is transitive. |
| Ordinal.CompareZeroIffEqual | chrome/headersPopup.js:54 | The comparator answers 0 exactly when the names are equal. |
| Ordinal.CompareAntisymmetric | chrome/headersPopup.js:54 | Swapping the arguments negates the answer. |
| Ordinal.CompareTransitive | chrome/headersPopup.js:54 | "Not after" is transitive, so the comparator is consistent. |
| Sorting.Sort | chrome/headersPopup.js:59 | The sorted sequence has the input's length and is a permutation of it. |
| Sorting.InsertSorted | chrome/headersPopup.js:59 | Inserting into an ordered sequence keeps it ordered. |
| Sorting.InsertStable | chrome/headersPopup.js:59 | Inserting `x` leaves the tied elements in the order they have when `x` is put in front of the sequence. |
| Sorting.SortSorted | chrome/headersPopup.js:59 | Under a total preorder, every element of the sorted sequence is not after any later element. |
| Sorting.SortStable | chrome/headersPopup.js:59 | Sorting is stable: elements tied under the order keep their relative order. |
| Sorting.SortedTiesDetermine | chrome/headersPopup.js:59 | Two ordered permutations of each other whose tied elements come in the same order are equal. |
| Sorting.StableSortIsUnique | chrome/headersPopup.js:59 | Any ordered, stable permutation is exactly `Sort`'s result. So a stable `Array.prototype.sort` agrees with the model. |
| Headers.NotAfterIsTotalPreorder | chrome/headersPopup.js:54 | "The comparator does not answer 1" is a total preorder on headers. |
| Headers.SortHeaders | chrome/headersPopup.js:54 | Sorted headers are a permutation of the captured headers, in non-decreasing order of name under the comparator. |
| Headers.SortHeadersStable | chrome/headersPopup.js:54 | Headers with the same name, such as repeated `Set-Cookie` headers, keep their captured order. |
| Headers.SortHeadersStableAll | chrome/headersPopup.js:54 | The same holds for every name at once. |
| Headers.SortHeadersExample | chrome/headersPopup.js:54 | `b`(2), `a`(1), `a`(0) sort to `a`(1), `a`(0), `b`(2). |
| Headers.StatusText | chrome/headersPopup.js:95-102 | The status text holds no `<` or `>`. |
| Headers.StatusTextReadsBack | chrome/headersPopup.js:95-102 | A present, non-empty status line is written, and under `Unescape` it decodes back to the captured status line when that holds no literal entity. Otherwise the method, a space and the URL are written, and they decode back under `Unescape` when the method and URL hold no literal entity. Each branch depends only on the fields it reads. |
| Headers.HeaderLine | chrome/headersPopup.js:104-106 | A header becomes a header row whose name and value hold no `<` or `>`. |
| Headers.HeaderLineReadsBack | chrome/headersPopup.js:104-106 | Under `Unescape`, a header row's text decodes back to `name: value` of the captured header when neither holds a literal `&lt;` or `&gt;`. |
| Headers.HeaderRows | chrome/headersPopup.js:113 | There is one header row per header, in the same order. |
| Headers.HeaderRowsSnoc | chrome/headersPopup.js:113 | One more header adds its row at the end. |
| Headers.SectionLines | chrome/headersPopup.js:108-115 | A section with no headers renders nothing. A section with n headers renders n + 1 lines: the status line, then row i + 1 for header i. |
| Headers.SectionLinesKinds | chrome/headersPopup.js:108-115 | Every line of a section is a status line or a header row. The only status line is the first line. |
| Headers.PrintKeys | chrome/headersPopup.js:108-115 | `printKeys` produces exactly `SectionLines`. |
| Headers.PrintRows | chrome/headersPopup.js:109-114 | The source's counting loop, which prints the status line when it reaches index 0, produces nothing for no headers and otherwise the status line followed by one row per header, in order. |
| Headers.IsSectionLines | chrome/headersPopup.js:108-115 | A sequence that is empty for a section with no headers, and otherwise has the status line first and row i + 1 for header i, is exactly the section's lines. |
| Headers.SortedSection | chrome/headersPopup.js:54 | Rendering a section sorts its headers. The status line, method and URL are kept. The headers are a permutation of the captured ones, in non-decreasing order of name under the comparator, and headers sharing a name keep their captured order. |
| Lines.Text | chrome/headersPopup.js:47-105 | For a line whose fields hold no `<`, the text is what remains of the fragment the popup appends once every tag is removed: the message of `<p class="error-text">…</p>`, the title of `<h2>…</h2>`, `title (in elapseds)` for the response heading with its `<small>` part, the status text of `<p><b>…</b></p>`, and `name: value` for `<p><b>name:</b> value</p>`. |
| Lines.PlainWhenTextIs | chrome/headersPopup.js:47-105 | Every field of a line is part of its text, so a line whose text holds no `<` has its text equal to its fragment with the tags removed. |
| Lines.RowTextEscaped | chrome/headersPopup.js:74 | A header or cookie row whose escaped name and value hold no `<` or `>` shows no markup in its text. |
| Lines.Capitalize | chrome/headersPopup.js:85 | Only the first character is case-mapped. It becomes a non-lower-case character with the same lower case. The rest of the key is unchanged. |
| Lines.CapitalizeKeys | chrome/headersPopup.js:85 | The keys `request`, `response` and `cookie` become `Request`, `Response` and `Cookie`. |
| Lines.HeadingLine | chrome/headersPopup.js:84-93 | A heading's title is the capitalized key. The heading carries the elapsed time exactly when the key is `response`. |
| Lines.SectionHeadings | chrome/headersPopup.js:84-93 | The three headings `printResults` writes. Only the Response heading has the elapsed time. |
| Lines.HeadingLineEscaped | chrome/headersPopup.js:84-93 | A heading's text holds no markup unless its key or the elapsed time does. |
| Lines.ErrorMessageEscaped | chrome/headersPopup.js:44 | The fixed error message holds no markup. |
| Cookies.MatchesIffSubstring | chrome/headersPopup.js:69 | A cookie is kept exactly when its lower-cased domain is a contiguous substring of the lower-cased host name. |
| Cookies.EmptyDomainMatches | chrome/headersPopup.js:69 | A cookie with an empty domain is kept for every host. |
| Cookies.DomainSuffixMatches | chrome/headersPopup.js:69 | A cookie whose domain ends the host name, ignoring ASCII case, is kept. |
| Cookies.DomainInsideMatches | chrome/headersPopup.js:69 | A cookie whose domain occurs anywhere in the host name, ignoring ASCII case, is kept. |
| Cookies.SubstringMatchIsLooserThanSuffix | chrome/headersPopup.js:69 | A domain followed by more text in the host name is kept, although it does not end the host name. An example is `example.com` on `example.com.evil.net`. |
| Cookies.LongerDomainDropped | chrome/headersPopup.js:69 | A cookie whose domain is longer than the host name is dropped, for example a `www.example.com` cookie on `example.com`. |
| Cookies.FilterExample | chrome/headersPopup.js:69 | On `mail.example.com`, a cookie for `example.com` is kept and one for `www.mail.example.com` is dropped. |
| Cookies.FilterKeeps | chrome/headersPopup.js:69 | `filter` keeps a cookie exactly when it is in the input and accepted. Each accepted cookie keeps its multiplicity and no result is longer than its input. |
| Cookies.FilterAppend | chrome/headersPopup.js:69 | `filter` distributes over concatenation. |
| Cookies.FilterCookies | chrome/headersPopup.js:69 | A cookie is in the filtered list exactly when it is in the store and matches. Each matching cookie keeps its multiplicity and each other cookie is dropped. |
| Cookies.FilterCookiesSingle | chrome/headersPopup.js:69 | A single cookie is kept exactly when it matches. |
| Cookies.FilterCookiesAppend | chrome/headersPopup.js:69 | Filtering two runs of cookies one after the other equals filtering each run and concatenating. With `FilterCookiesSingle` this fixes the result: the kept cookies stay in store order. |
| Cookies.OrdinalIsValidCollation | chrome/headersPopup.js:71 | Ordinal comparison is a valid collation, so the collation requirement can be met. |
| Cookies.CookieOrderIsTotalPreorder | chrome/headersPopup.js:70-72 | Comparing lower-cased names with a valid collation is a total preorder on cookies. |
| Cookies.SortCookies | chrome/headersPopup.js:70-72 | The sorted cookies are a permutation of the filtered cookies. |
| Cookies.SortCookiesOrdered | chrome/headersPopup.js:70-72 | Under a valid collation, the cookies are in non-decreasing order of lower-cased name. Cookies whose names collate equal keep their order. |
| Cookies.SortCookiesOrderedAll | chrome/headersPopup.js:70-72 | The same, stated for every class of equally collating names at once. |
| Cookies.CookieLine | chrome/headersPopup.js:74 | A cookie becomes a cookie row whose name and value hold no `<` or `>`. |
| Cookies.CookieLineReadsBack | chrome/headersPopup.js:74 | Under `Unescape`, a cookie row's text decodes back to `name: value` of the cookie when neither holds a literal `&lt;` or `&gt;`. |
| Cookies.CookieLines | chrome/headersPopup.js:73-74 | There is one row per cookie, in the same order. |
| Cookies.ExportPiece | chrome/headersPopup.js:75 | A piece starts with the raw cookie name and ends with `;`. |
| Cookies.ExportPieces | chrome/headersPopup.js:73-75 | There is one piece per cookie, in the same order. |
| Cookies.ExportString | chrome/headersPopup.js:73-76 | The export string is empty exactly when there are no cookies. Otherwise it starts with the first cookie's raw name and ends with `;`. |
| Cookies.ExportSnoc | chrome/headersPopup.js:73-76 | Exporting one more cookie appends a space and that cookie's `name = value;`. |
| Cookies.ExportSingle | chrome/headersPopup.js:73-76 | A single cookie exports as its own `name = value;` piece. |
| Cookies.BuildExport | chrome/headersPopup.js:73-76 | Building the string with a running accumulator gives the same result as the `map`/`join` in the source. |
| Cookies.ExportExample | chrome/headersPopup.js:73-76 | Cookies `a`=1 and `b`=2 export as `a = 1; b = 2;`. |
| Cookies.ExportHoldsRawPieces | chrome/headersPopup.js:75 | Every exported cookie's raw `name = value;` occurs in the export string. |
| Popup.ShownCookies | chrome/headersPopup.js:69-72 | The shown cookies are exactly the store's matching cookies, each with its multiplicity. Under a valid collation they are in non-decreasing order of lower-cased name. Cookies whose names collate equal appear in their order in the filtered list, which is store order. |
| Popup.Present | chrome/headersPopup.js:26-64 | The whole callback. With no record the output is the error line alone, with an empty export string. With a record the output has at least three lines and starts with the Request heading. `MissingRecordShowsOnlyError`, `CapturedRecordLayout`, `CapturedRecordHeadings` and `CookieRowsMatchExport` give the full layout. |
| Popup.Arrange | chrome/headersPopup.js:53-64 | The output is laid out as: Request heading, request lines, Response heading, response lines, Cookie heading, cookie rows. |
| Popup.ArrangeMembers | chrome/headersPopup.js:53-64 | The output holds exactly the three headings and the lines of the three parts. |
| Popup.MissingRecordShowsOnlyError | chrome/headersPopup.js:43-48 | With no record for the tab, the output is exactly one error line with the fixed message and the export string is empty. |
| Popup.CapturedRecordLayout | chrome/headersPopup.js:50-64 | With a record, the Request, Response and Cookie headings are at fixed positions. Only the Response heading carries the elapsed time. Each section has 0 or n + 1 lines, the cookie rows come last, and the Cookie heading is present even with no cookies. |
| Popup.CapturedRecordHeadings | chrome/headersPopup.js:50-64 | With a record, the lines at those three positions are headings and no other line is. No line is an error line. |
| Popup.CookieRowsMatchExport | chrome/headersPopup.js:66-77 | The output ends with one row per shown cookie. The export string joins the same cookies' raw `name = value;` pieces in the same order and holds each of them. It is empty exactly when no cookie in the store matches the host. |
| Popup.OutputMatchesExport | chrome/headersPopup.js:66-77 | The same facts hold for any output that ends with the shown cookies' rows and carries their export string. |
| Popup.NothingShownIffNoMatch | chrome/headersPopup.js:69 | No cookie is shown exactly when no cookie in the store matches the host name. |
| Popup.PresentEscapesMarkup | chrome/headersPopup.js:33-37 | If the elapsed text has no markup, then no line's text in any output holds `<` or `>`. |
| Popup.PresentTextIsMarkupText | chrome/headersPopup.js:33-37 | If the elapsed text has no markup, then for every line of every output, the line's text is the fragment the popup appends with its tags removed: captured text never opens a tag of its own. |
| Popup.HeaderIsRendered | chrome/headersPopup.js:54-56 | Every header of a section has a row once the section is sorted. |
| Popup.RowOfMember | chrome/headersPopup.js:108-115 | Every header of a section has its row among the section's lines. |
| Popup.EveryHeaderIsShown | chrome/headersPopup.js:108-115 | Every captured request or response header appears as a row in the output. |

## Left out

- `calcTime` (chrome/headersPopup.js:80-82): floating-point division and `toFixed(4)` formatting. The elapsed-time text is an opaque string parameter of `Popup.Present`. The model does not relate it to the two time stamps, so `Exchange` carries no time stamps.
- Browser I/O: `chrome.tabs.query`, `chrome.runtime.sendMessage` and `chrome.cookies.getAll`, and their callbacks (chrome/headersPopup.js:18-19, 68). Their results are parameters.
- Callback timing: the cookie callback runs after the sections are written. Until it runs, the export string is still empty. The model gives only the final state.
- DOM output: `innerHTML`, `clearResults` and the theme class on the body (chrome/headersPopup.js:20, 24, 39-41). Output is a sequence of structured lines, each with its fragment (`Lines.Markup`), rather than one growing HTML string.
- Character references: the browser's HTML parser decodes every character reference in the appended markup, not only `&lt;` and `&gt;`. This includes `&amp;`, numeric ones such as `&#60;`, and legacy names that need no `;`, such as `&reg` or `&copy`. `Lines.Text` stops before this decoding, and `Escape.Unescape` decodes only the two entities `sanitize` writes. So the read-back lemmas (`SanitizeRoundTrip`, `StatusTextReadsBack`, `HeaderLineReadsBack`, `CookieLineReadsBack`) describe `Unescape`, not the screen. For captured text holding a character reference, such as the query string `a=1&region=us`, the screen differs from the captured text.
- `copyCookie`, the clipboard write, `window.close` and `launchLiveHeaders` (chrome/headersPopup.js:122-137): foreign browser APIs. The export string they would copy is modelled.
- Host name parsing with `new URL` (chrome/headersPopup.js:67): a library call. The host name is an input.
- Strings.Lower: `toLowerCase` and `toUpperCase` are modelled on ASCII letters only. Other letters are left unchanged, which differs from JavaScript's Unicode case mapping.
- Cookies.SortCookies: `localeCompare` is modelled as a caller-supplied three-way collation. Order is proved only for collations whose "not after" relation is total and transitive (`ValidCollation`). Locale rules themselves are not modelled.
- Ordinal.Less: characters are compared by code point. JavaScript compares UTF-16 code units. The two orders differ only between supplementary-plane characters and U+E000 to U+FFFF.
- Record shape: a record is assumed to hold both sections, a header list in each, and a string method, URL, header name and header value wherever they are read. The source would throw on some records that break this. A missing section or header list throws at `.sort` (chrome/headersPopup.js:54, 59). For the response this happens after the Request section has been written. A missing method or URL throws in `sanitize(undefined)` only when it is read: on the else-branch of `printStatus`, and only for a section with at least one header (chrome/headersPopup.js:96-100, 109-111). A header without a string name or value throws in `sanitize` at line 105. A `null` record is not `undefined` and would throw too. None of these exceptions is modelled.
- Sorting in place: the source sorts the record's header arrays in place. The model sorts a copy, because nothing else reads those arrays.
