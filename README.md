# email-validator-api: list tooling and verdict assembly, in Dafny

This project models three parts of the email validator API and proves
properties of the model:

- **The blacklist updater** (`scripts/updateBlacklist.js`).
  - It downloads three third-party lists of disposable-mail domains.
  - `parseDomains` parses each list into a duplicate-free array of
    normalised domains. It handles the text format and the JSON format.
  - It merges the lists into one Set and counts what it downloaded.
  - It sorts the union and renders it two ways: as the
    `const DISPOSABLE_DOMAINS = new Set([...]);` literal for
    `emailValidator.js`, and as the `{domains, count, lastUpdated, sources}`
    record of `data/disposable-domains.json`.
- **The simpler fetch tool** (`scripts/fetchDomains.js`).
  - It applies the same line filter, as a `split`/`map`/`filter` pipeline, to
    two lists.
  - It adds the results to one Set, sorts it and joins it with line breaks.
- **The API server's decisions** (`server.js`).
  - The `/mailcheck` handler combines the format check, the disposable check
    and the MX lookup into one response.
  - The `validateApiKey` gate. `server.js` declares it but mounts it on no
    route; the model treats it on its own.

The JavaScript behaviour the scripts rely on is written out explicitly:

- `String.prototype.trim` strips exactly the ECMAScript WhiteSpace and
  LineTerminator characters.
- `split` on one character gives one more piece than there are separators,
  and `[""]` for the empty string.
- `Array.prototype.join` puts the separator between neighbours only.
- The default `sort` compares strings by their UTF-16 code units,
  lexicographically.
- `.length` counts UTF-16 code units.
- A JavaScript `Set` is modelled as the sequence of its values in insertion
  order (`OrderedSet.Distinct`), which is what `Array.from(set)` returns.

Modules:

| module | file | role |
|---|---|---|
| `Wrappers` | `wrappers.dfy` | `Option`, `Result` |
| `Json` | `json.dfy` | JSON values |
| `JsString` | `js_string.dfy` | trim, toLowerCase, split, join, UTF-16 |
| `JsSort` | `js_sort.dfy` | default sort order; in-place sort of an array |
| `OrderedSet` | `ordered_set.dfy` | `Set` add and insertion order |
| `DomainLines` | `domain_lines.dfy` | the line filter both scripts share |
| `UpdateBlacklist` | `update_blacklist.dfy` | `scripts/updateBlacklist.js` |
| `FetchDomains` | `fetch_domains.dfy` | `scripts/fetchDomains.js` |
| `Server` | `server.dfy` | `/mailcheck` and `validateApiKey` |

Network downloads, `JSON.parse`, clocks and the three checks from
`emailValidator.js` are parameters. A download is a function from URL to
`Result<string, string>`. `JSON.parse` is a function from text to
`Option<JsonValue>`, where `None` stands for a throw. The checks are
functions returning `Result`, where `Failure` stands for a throw or a
rejected Promise. A time stamp is a string parameter.

A rejected `checkMXRecords` (`server.js:140`) is awaited inside the `try`,
so it produces the 500 response (`server.js:154-161`), not a verdict with
null MX fields. `Server.FailingCheckIsInternalError` states this.

## Model

| member | source | states |
|---|---|---|
| `JsString.Trim` | scripts/updateBlacklist.js:76 | the result neither starts nor ends with a WhiteSpace or LineTerminator character and is no longer than the input |
| `JsString.TrimRemovesOnlyWhitespace` | scripts/updateBlacklist.js:76 | the input is some whitespace, then the trimmed string, then some whitespace |
| `JsString.TrimKeepsContent` | scripts/updateBlacklist.js:76 | every non-whitespace character of the input is still in the trimmed string |
| `JsString.TrimAddsNothing` | scripts/updateBlacklist.js:76 | every character of the trimmed string comes from the input |
| `JsString.TrimOfTrimmed` | scripts/updateBlacklist.js:76 | trim leaves a string without leading or trailing whitespace unchanged, so trim is idempotent |
| `JsString.ToLower` | scripts/updateBlacklist.js:76 | same length as the input; each upper-case ASCII letter becomes its lower-case letter and every other character is kept in place, so no upper-case ASCII letter remains |
| `JsString.ToLowerOfLowerCase` | scripts/updateBlacklist.js:76 | lower-casing a string without upper-case ASCII letters returns it unchanged |
| `JsString.ToLowerKeepsNonLetters` | scripts/updateBlacklist.js:65-66 | a character that is not an ASCII letter, the dot for instance, is in the lower-cased string exactly when it is in the input |
| `JsString.TrimLowerCommute` | scripts/updateBlacklist.js:66-76 | trimming then lower-casing gives the same as lower-casing then trimming, so both branches apply the same normalisation |
| `JsString.Split` | scripts/updateBlacklist.js:74 | at least one piece, and no piece contains the separator |
| `JsString.SplitJoin` | scripts/fetchDomains.js:29 | splitting a join on the same one-character separator returns the pieces, when none contains the separator |
| `JsString.SplitJoinThen` | scripts/updateBlacklist.js:98 | splitting a join followed by the separator and more text gives the pieces, then the pieces of that text |
| `JsString.JoinSplit` | scripts/fetchDomains.js:17 | joining the pieces of a split with the separator rebuilds the string |
| `JsString.Length` | server.js:31 | `.length` lies between the number of characters and twice that, equals it for Basic Multilingual Plane text, and is twice it when every character is outside that plane |
| `JsString.Utf16Injective` | scripts/fetchDomains.js:28 | two different strings have different UTF-16 code units, so the sort order cannot tie two different domains |
| `JsSort.LessEqTotal` | scripts/fetchDomains.js:28 | any two strings are comparable under the default sort order |
| `JsSort.LessEqAntisymmetric` | scripts/fetchDomains.js:28 | strings that each sort no later than the other are equal |
| `JsSort.LessEqTransitive` | scripts/fetchDomains.js:28 | the default sort order is transitive |
| `JsSort.LessEq` | scripts/fetchDomains.js:28 | `a` sorts no later than `b` exactly when the UTF-16 code units of `a` are a prefix of those of `b`, or are smaller at the first position where they differ |
| `JsSort.LexLessEqCases` | scripts/fetchDomains.js:28 | the recursive code-unit comparison holds exactly for a prefix or a smaller unit at the first difference |
| `JsSort.SortedUnique` | scripts/updateBlacklist.js:127 | two sorted arrangements of the same elements are equal, so sorting the sorted array again changes nothing |
| `JsSort.SortInPlace` | scripts/updateBlacklist.js:95 | after `domains.sort()` the array is in ascending order and holds the same elements, counted with multiplicity |
| `OrderedSet.Add` | scripts/updateBlacklist.js:78 | `set.add(x)` keeps the set duplicate-free, leaves it unchanged when `x` is present and appends `x` otherwise |
| `OrderedSet.Distinct` | scripts/updateBlacklist.js:58-83 | the set built from a sequence has no repeats and exactly the sequence's members |
| `OrderedSet.DistinctKeepsFirstOccurrenceOrder` | scripts/updateBlacklist.js:83 | `Array.from(set)` lists the values in the order of their first occurrence |
| `OrderedSet.DistinctOfNoDuplicates` | scripts/updateBlacklist.js:83 | building a set from values that are all different lists them unchanged |
| `OrderedSet.NoDuplicatesPermutation` | scripts/fetchDomains.js:28 | rearranging the set's values, as sorting does, creates no repeats |
| `OrderedSet.AddAll` | scripts/updateBlacklist.js:153 | `forEach(add)` over `xs` gives the set built from the earlier values followed by `xs` |
| `DomainLines.NormalizeLine` | scripts/fetchDomains.js:18 | the normalised line is no longer than the line and has no upper-case ASCII letter |
| `DomainLines.KeptTest` | scripts/fetchDomains.js:19 | a string is kept exactly when it contains a dot and does not start with `#`; the non-empty test adds nothing, because a string with a dot is non-empty |
| `DomainLines.FilterLines` | scripts/fetchDomains.js:17-19 | every kept string is non-empty, has a dot and does not start with `#`; no more strings than lines |
| `DomainLines.FilterLinesSound` | scripts/fetchDomains.js:18-19 | every kept string is trimmed, lower-case and the normalised form of some input line |
| `DomainLines.FilterLinesOrigin` | scripts/fetchDomains.js:17-19 | every kept string is the normalised form of some input line |
| `DomainLines.FilterLinesComplete` | scripts/fetchDomains.js:18-19 | every line whose normalised form passes the filter contributes that form |
| `DomainLines.FilterLinesCount` | scripts/fetchDomains.js:17-19 | the filter returns exactly one string per line whose normalised form passes, so a domain on several lines is counted once for each |
| `DomainLines.TextDomains` | scripts/fetchDomains.js:17-19 | the kept domains of a text are no more than its lines, and each passes the filter |
| `DomainLines.TextDomainsListed` | scripts/fetchDomains.js:17-19 | every domain taken from a text list is kept by the filter, trimmed, lower-case and on one line |
| `DomainLines.TextRoundTrip` | scripts/fetchDomains.js:17-29 | joining listed domains with line breaks and filtering the text again returns the same sequence |
| `UpdateBlacklist.NormalizeJson` | scripts/updateBlacklist.js:66 | a JSON entry's normalised form is trimmed and no longer than the entry |
| `UpdateBlacklist.AcceptedDomains` | scripts/updateBlacklist.js:60-81 | an unknown format accepts nothing, JSON that does not parse to an array accepts nothing, and every domain accepted from a text list passes the filter |
| `UpdateBlacklist.ParsedDomains` | scripts/updateBlacklist.js:57-84 | the returned array has no repeats and holds exactly the accepted domains |
| `UpdateBlacklist.JsonCandidates` | scripts/updateBlacklist.js:64-68 | no more domains than array elements |
| `UpdateBlacklist.ParseJsonItems` | scripts/updateBlacklist.js:63-68 | the loop over the parsed array builds the set of the normalised string elements that contain a dot |
| `UpdateBlacklist.ParseTextLines` | scripts/updateBlacklist.js:73-80 | the loop over the lines builds the set of the filtered lines |
| `UpdateBlacklist.ParseDomains` | scripts/updateBlacklist.js:57-84 | `parseDomains` returns the set of accepted domains without repeats; an unknown format, JSON that does not parse and JSON that is not an array give none |
| `UpdateBlacklist.TextDomainsWellFormed` | scripts/updateBlacklist.js:73-80 | in the text format every returned domain is non-empty, has a dot, does not start with `#`, is trimmed and lower-case |
| `UpdateBlacklist.TextDomainsComplete` | scripts/updateBlacklist.js:74-79 | in the text format every line whose normalised form passes the filter is returned |
| `UpdateBlacklist.ParsedInFirstAppearanceOrder` | scripts/updateBlacklist.js:58-83 | no domain is returned twice, and the domains come in the order of their first acceptance |
| `UpdateBlacklist.JsonCandidateKept` | scripts/updateBlacklist.js:64-67 | every string element whose raw text has a dot is accepted, lower-cased and trimmed |
| `UpdateBlacklist.JsonCandidateOrigin` | scripts/updateBlacklist.js:64-67 | every accepted JSON domain is the normalised form of a string element with a dot |
| `UpdateBlacklist.NormalizeJsonShape` | scripts/updateBlacklist.js:65-66 | a dot checked before normalising survives it; the result is non-empty, trimmed and lower-case |
| `UpdateBlacklist.JsonDomainsExactly` | scripts/updateBlacklist.js:60-69 | for a JSON array the returned domains are exactly the normalised string elements whose raw text has a dot, each trimmed, lower-case and non-empty |
| `UpdateBlacklist.JsonKeepsHashEntries` | scripts/updateBlacklist.js:64-67 | the JSON branch keeps an entry starting with `#` and normalises it, and drops non-strings and dotless strings |
| `UpdateBlacklist.MergedIsUnion` | scripts/updateBlacklist.js:143-160 | the merged set holds exactly the domains parsed from some source whose download resolved, each once |
| `UpdateBlacklist.FailedSourceIgnored` | scripts/updateBlacklist.js:146-158 | a source whose download rejects changes neither the merged set nor the total: the outcome is that of the loop without it |
| `UpdateBlacklist.TotalBoundsUnique` | scripts/updateBlacklist.js:154-163 | the number of unique domains never exceeds the total downloaded |
| `UpdateBlacklist.MergedTextListed` | scripts/updateBlacklist.js:73-80 | when every source is a text list, every merged domain is a well-formed listed domain |
| `UpdateBlacklist.ConfiguredListsAreText` | scripts/updateBlacklist.js:6-22 | all three configured sources are text lists, so `MergedTextListed` covers the domains `updateBlacklist` merges |
| `UpdateBlacklist.MergedDomains` | scripts/updateBlacklist.js:143-160 | the merged `Array.from(allDomains)` has no repeats |
| `UpdateBlacklist.TotalDownloaded` | scripts/updateBlacklist.js:144-154 | `totalDownloaded` is the number of domains in all per-list results together, a failed list contributing none |
| `UpdateBlacklist.MergeLists` | scripts/updateBlacklist.js:143-158 | the loop over the configured sources yields the merged set and the sum of the per-list lengths |
| `UpdateBlacklist.Quote` | scripts/updateBlacklist.js:98 | an entry is two spaces, a single quote, the domain unchanged and a closing single quote |
| `UpdateBlacklist.SetLiteral` | scripts/updateBlacklist.js:98 | the literal starts with `const DISPOSABLE_DOMAINS = new Set([` and ends with `]);` |
| `UpdateBlacklist.SetLiteralLines` | scripts/updateBlacklist.js:98 | the literal is the opening line, one `  '<d>'` line per domain in order with a comma after all but the last, and `]);` |
| `UpdateBlacklist.SetLiteralRoundTrip` | scripts/updateBlacklist.js:98 | reading the rendered literal back with `ReadSetLiteral` (one entry per line, quotes stripped) returns exactly the rendered domains, in order |
| `UpdateBlacklist.SourceNames` | scripts/updateBlacklist.js:130 | one name per source, in declaration order |
| `UpdateBlacklist.ConfiguredSourceNames` | scripts/updateBlacklist.js:6-22 | the record's `sources` are the three list names in declaration order |
| `UpdateBlacklist.UpdateEmailValidator` | scripts/updateBlacklist.js:94-98 | sorts the array in place and renders the literal from the sorted domains |
| `UpdateBlacklist.SaveDomainsToFile` | scripts/updateBlacklist.js:126-131 | sorts the array in place; the record holds the sorted domains, their number, the time stamp and the source names |
| `UpdateBlacklist.WriteOutputs` | scripts/updateBlacklist.js:165-171 | both writes see the same strictly ascending arrangement of the union, the literal renders it and the count is its size |
| `UpdateBlacklist.UpdateBlacklist` | scripts/updateBlacklist.js:140-176 | reports the total and the unique count; writes nothing exactly when the union is empty, otherwise the sorted union as literal and record |
| `FetchDomains.KeptLines` | scripts/fetchDomains.js:16-19 | a failed download keeps nothing, and every kept line passes the filter |
| `FetchDomains.LogEntry` | scripts/fetchDomains.js:14-24 | a URL reports added domains exactly when its download resolves, with the number of kept lines; otherwise the failure with that URL and the error message |
| `FetchDomains.LogCountsKeptLines` | scripts/fetchDomains.js:16-22 | for any resolved download, the logged count is the number of lines that pass the filter, repeats included |
| `FetchDomains.CollectDomains` | scripts/fetchDomains.js:11-26 | the set of all kept lines, and one report per URL: the number of kept lines, repeats included, or the failure |
| `FetchDomains.SortSet` | scripts/fetchDomains.js:28 | the set's values in strictly ascending order |
| `FetchDomains.FetchDomains` | scripts/fetchDomains.js:10-31 | the per-URL reports, the strictly ascending union, the text as the domains joined by line breaks, and the final count as the number of domains |
| `FetchDomains.SavedIsUnion` | scripts/fetchDomains.js:13-28 | a domain is saved exactly when the filter keeps it from some URL whose download resolved |
| `FetchDomains.SavedListed` | scripts/fetchDomains.js:17-28 | every saved domain is non-empty, has a dot, does not start with `#`, is trimmed, lower-case and on one line |
| `FetchDomains.SavedTextRoundTrip` | scripts/fetchDomains.js:17-29 | filtering the written text again, or parsing it as a text list with `parseDomains`, returns the saved sequence |
| `FetchDomains.NoTrailingNewline` | scripts/fetchDomains.js:29 | the written text neither starts nor ends with a line break |
| `FetchDomains.PerUrlCountKeepsRepeats` | scripts/fetchDomains.js:17-22 | a list with the same domain twice reports two domains added while the set gains one |
| `Server.Judge` | server.js:142-150 | the verdict echoes the address, `valid` is the negation of `isDisposable`, `reason` is `Blacklist` exactly when disposable and `Valid` exactly when not, and the domain and MX fields are copied |
| `Server.Mailcheck` | server.js:109-162 | every response is a 200 verdict, the 400 exactly for a missing address, or a 500; a verdict echoes the address |
| `Server.MissingEmailRejected` | server.js:113-119 | a missing or empty address gives the 400 error whatever the checks would say |
| `Server.InvalidFormatShortCircuits` | server.js:122-134 | a format-invalid address gives `valid: false`, the validator's reason and domain and null MX fields, independent of the disposable check and the MX lookup |
| `Server.ValidFormatVerdict` | server.js:137-152 | for a valid format, `valid` is the negation of `isDisposable`, `reason` is `Blacklist` exactly when disposable and `Valid` otherwise, and the MX fields are copied verbatim |
| `Server.MxDoesNotDecide` | server.js:140-150 | two MX lookups give the same `valid`, `reason` and `domain` |
| `Server.FailingCheckIsInternalError` | server.js:154-161 | a check that throws on the path taken gives the 500 error with the time stamp |
| `Server.ValidateApiKey` | server.js:14-43 | every refusal is a 401 |
| `Server.ApiKeyGate` | server.js:14-43 | a request passes exactly in development mode or with a key of at least ten UTF-16 code units |
| `Server.DevelopmentPasses` | server.js:18-20 | development mode passes every request |
| `Server.MissingKeyRefused` | server.js:23-28 | outside development, no non-empty key gives 401 `API key required` |
| `Server.ShortKeyRefused` | server.js:31-36 | outside development, a key shorter than ten code units gives 401 `Invalid API key` |
| `Server.FirstHeaderWins` | server.js:15 | the second header is consulted only when the first is missing or empty |
| `Server.ApiKey` | server.js:15 | the key is one of the two headers; a non-empty `x-rapidapi-key` is taken; no usable key exactly when both headers are missing or empty |
| `Server.AstralKeyIsLongEnough` | server.js:31 | five characters outside the Basic Multilingual Plane make a ten-unit key, which passes |

## Left out

- `JsString.ToLower`: maps only the ASCII letters A-Z. JavaScript's `toLowerCase` applies the full Unicode case mapping, which can change the length. The model does not contain Unicode case tables.
- Strings are sequences of Unicode scalar values. A JavaScript string holding a lone surrogate cannot be represented. UTF-16 appears explicitly only in `.length` and in the sort order.
- `downloadFromUrl` and `download` (HTTPS, chunked bodies, status codes) are a parameter returning the body or an error.
  - In `updateBlacklist.js`, a non-200 status is one more way for that parameter to fail.
  - In `fetchDomains.js`, `download` never checks the status, so an error page counts as a body.
- `JSON.parse` is a parameter. `JSON.stringify` of the data record is not modelled; the record is returned as a value.
- File reads and writes, `mkdirSync`, and the two regex replacements in `emailValidator.js` (`scripts/updateBlacklist.js:91-92,101-109`) are not modelled. `UpdateEmailValidator` returns the new literal, and `SaveDomainsToFile` returns the record.
- `new Date().toISOString()` is a string parameter.
- Console output is not modelled as text. The values the scripts print are part of the results instead:
  - the per-URL reports of `fetchDomains.js` (`FetchResult.log`) and its final count (`FetchResult.savedCount`, `scripts/fetchDomains.js:30`);
  - the two totals `updateBlacklist.js` prints (`UpdateSummary.totalDownloaded` and `UpdateSummary.uniqueCount`, `scripts/updateBlacklist.js:162-163`).
  The per-list and failure messages of `updateBlacklist.js` are not modelled.
- `UpdateBlacklist.SetLiteral`: each domain goes between single quotes without escaping, as `scripts/updateBlacklist.js:98` does. A listed domain can pass the filter and still render badly. One holding `'` or an inner carriage return gives a line that is not a JavaScript string literal. One holding `\` gives a literal that may denote a different string: `'a\.com'` is `"a.com"`, which can coincide with another listed domain. `SetLiteralRoundTrip` reads the literal back with the model's own `ReadSetLiteral`, which strips the quotes; it says nothing about how JavaScript parses the literal.
- `content.replace` (`scripts/updateBlacklist.js:101-102`) expands `$&`, `$'`, `` $` `` and `$$` in the replacement text, so a domain holding one of those would be written differently. This replacement is not modelled.
- `emailValidator.js` (`validateEmail`, `checkDisposableDomain`, `checkMXRecords`) is not part of this model. Its functions are parameters, and their results are taken with the types they are used at.
- JavaScript truthiness on values other than strings is not modelled:
  - `email` as an array from a repeated query parameter;
  - a non-boolean `isValid` or `isDisposable`;
  - a header given as something other than a string.
- Node lower-cases incoming header names, so the `X-RapidAPI-Key` lookup is always `undefined` in practice. The model keeps it as an independent input.
- Express routing, `helmet`, `cors`, `express.json`, both rate limiters, the request logger, `/health`, `/docs` and `app.listen` are not modelled. They are library configuration and transport.
- `async`/`await` ordering is not modelled; the handler and the loops are sequential.
- A throw from `res.json` itself, which the handler's `catch` would also turn into a 500, is not modelled.
- The sort is an insertion sort rather than the engine's algorithm. The sorted arrangement of a set of elements is unique (`JsSort.SortedUnique`), so the result is the same.
