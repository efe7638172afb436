# metasearch core, modelled in Dafny

A model of the small, pure pieces of the `metasearch` search aggregator.

- **Engine registry.** The `Engine` enum and its lookups are generated by the
  macros in `src/engines/macros.rs`. The model covers:
  - `all`, `id`, `id_proper` and `from_id`;
  - weights, the scholarly flag and the enabled-by-default flag, each with
    its `_` default;
  - `is_enabled` against a user's preference map;
  - the capability tables for search, autocomplete and postsearch, with the
    `None`/error fallbacks for engines that have no line in a table.
- **Blocked-domain cookie.** This is `get_blocked_domains` /
  `set_blocked_domains` in `src/web/mod.rs`. The list is joined with commas,
  encoded as UTF-8 and then as standard padded base64. Reading is
  best-effort, and the model states it together with its round trip. The
  model needs two codecs, written in full:
  - `Base64`: the base64 crate's STANDARD engine, which demands canonical
    padding and zero trailing bits;
  - `Utf8`: strict UTF-8 well-formedness, as `std::str::from_utf8` checks it.
- **Random-number answer** (`src/engines/answer/random.rs`). The model covers
  the trigger regex on the lower-cased query, the fixed answer markup, and
  the `/rand_noscript` handler's bounds:
  - the i64 parse with defaults 1 and 10;
  - the one-sided range test and the premium prompt;
  - collapse (not swap) when `min > max`;
  - the form echo of both bounds.

  The random generator is an arbitrary choice within the allowed range.
- **Urban Dictionary postsearch request**
  (`src/engines/postsearch/urbandictionary.rs`). Among the first eight merged
  results, the request fetches the first URL that matches the definition-page
  pattern.
- **Yep search engine** (`src/engines/search/yep.rs`). The model covers the
  fixed request parameters and the `"Ok"` status gate. It also covers the
  field-by-field mapping of the API's results after an abstract JSON decode.
- **Autocomplete endpoint** (`src/web/autocomplete.rs`). The model covers:
  - the `q` default and the newline replacement;
  - the ESC rejection (400), which happens before censoring;
  - the 200/500 selection.

  The censor and the engine fan-out are function parameters.

Modules:

| module | file | contents |
|---|---|---|
| `Wrappers` | `wrappers.dfy` | `Option`, `Result` |
| `Bytes` | `bytes.dfy` | the `byte` type, ASCII |
| `Text` | `text.dfy` | Rust `str` operations: `trim`, `split`, joining, `replace`, ASCII lower-casing, `contains` |
| `Utf8` | `utf8.dfy` | UTF-8 encoding and strict decoding |
| `Base64` | `base64.dfy` | standard padded base64 |
| `Decimal` | `decimal.dfy` | `i64::from_str` and `i64::to_string` |
| `Engines` | `engines.dfy` | the values engines exchange: queries, results, responses, requests |
| `Registry` | `registry.dfy` | the macro-generated `Engine` API |
| `BlockedDomains` | `blocked_domains.dfy` | the cookie codec |
| `RandomAnswer` | `random_answer.dfy` | the random-number answer and its page handler |
| `UrbanDictionary` | `urban_dictionary.dfy` | the postsearch request |
| `Yep` | `yep.dfy` | the Yep request and response mapping |
| `Autocomplete` | `autocomplete.dfy` | the autocomplete route |

Modelling choices:

- **Enum variants.** An `Engine` is its position in the `engines!` list,
  which is also its derived `Ord`. A registry is the written lists, in order.
  A generated `match` is the first arm written for the engine, or the `_`
  default when there is none.
- **Strings.** Strings are sequences of Unicode scalar values. Where Rust
  measures a `str` in bytes, the model uses the length of its UTF-8
  encoding.
- **`f64` weights.** These are kept as their bit pattern, and no arithmetic
  is done on them.
- **Errors.** `eyre` errors are their message strings. HTTP requests are a
  URL plus an ordered parameter list.
- **Cookie size limit.** The limit counts UTF-8 *bytes* (`str::len`), not
  characters, and the model follows the code. A base64 value is ASCII, so the
  two counts agree for every value the writer produces.

## Model

| member | source | states |
|---|---|---|
| Registry.All | src/engines/macros.rs:11-13 | every declared engine occurs, nothing else does, and the order is the declaration order with no repeats |
| Registry.FromId | src/engines/macros.rs:30-35 | a found engine has the given id and no earlier engine has it; `None` exactly when no declared engine has the id |
| Registry.FromIdFrom | src/engines/macros.rs:31-34 | the arm-by-arm search from line `k` finds the first line at or after `k` with the id, or none when no such line exists |
| Registry.FromIdOfId | src/engines/macros.rs:16-20 | with pairwise distinct ids, `from_id(e.id()) == Some(e)` for every engine |
| Registry.FromIdFirstWins | src/engines/macros.rs:30-35 | with repeated ids, `from_id(e.id())` is an engine declared no later than `e` with the same id |
| Registry.FirstArm | src/engines/macros.rs:46-48 | the arm a `match` takes is the first one written for the engine; none exactly when the engine has no arm |
| Registry.Lookup | src/engines/macros.rs:46-48 | a value-arm `match` yields the first listed value for the engine, or the `_` default when it is unlisted |
| Registry.Weight | src/engines/macros.rs:45-49 | the first listed weight, and `1.0` for an unlisted engine |
| Registry.IsScholarly | src/engines/macros.rs:60-64 | the first listed flag for a listed engine, and `false` for an unlisted one |
| Registry.IsEnabledByDefault | src/engines/macros.rs:80-84 | the first listed flag for a listed engine, and `true` for an unlisted one |
| Registry.IsEnabled | src/engines/macros.rs:75-77 | the preference entry under the engine's id wins; without one, the first listed default flag, or `true` for an unlisted engine |
| Registry.IsEnabledOnlyReadsOwnId | src/engines/macros.rs:75-77 | preference maps that agree on the engine's own id enable it alike, so entries for other ids have no effect |
| Registry.Request | src/engines/macros.rs:105-113 | `RequestResponse::None` for an engine outside the search table, otherwise its first arm's request |
| Registry.ParseResponse | src/engines/macros.rs:115-124 | an error naming the variant for an engine outside the search table or with parser `None`, otherwise its parser's result |
| Registry.RequestAutocomplete | src/engines/macros.rs:134-141 | `None` exactly for an engine outside the autocomplete table |
| Registry.ParseAutocompleteResponse | src/engines/macros.rs:143-151 | an error for an unlisted engine and for parser `None`, otherwise the parser's result |
| Registry.PostsearchRequest | src/engines/macros.rs:161-168 | `None` for an engine outside the postsearch table, otherwise its own request decision |
| Registry.PostsearchParseResponse | src/engines/macros.rs:171-178 | `None`, never an error, for an unlisted engine and for parser `None` |
| BlockedDomains.GetBlockedDomains | src/web/mod.rs:105-129 | the empty list without a `blocked` cookie, for a value over 500000 bytes, for invalid base64 and for invalid UTF-8; every entry is non-empty, trimmed and comma-free |
| BlockedDomains.ParseDomainList | src/web/mod.rs:122-126 | every domain the split-trim-filter step yields is non-empty, trimmed and comma-free |
| BlockedDomains.KeepDomainsEntries | src/web/mod.rs:124-125 | trimming and dropping empty pieces keeps at most one entry per piece, each a valid domain entry |
| BlockedDomains.ParseEmptyText | src/web/mod.rs:119-126 | text that is empty (also what a failed decode falls back to) holds no domains |
| BlockedDomains.ParseDomainListAppend | src/web/mod.rs:122-126 | the domains of `a,b` are the domains of `a` followed by those of `b`, so the comma-separated order is kept |
| BlockedDomains.KeepDomainsAppend | src/web/mod.rs:124-126 | the trim-and-filter step distributes over concatenation of piece lists |
| BlockedDomains.EncodeDomainList | src/web/mod.rs:145-146 | the value decodes as base64 to the UTF-8 of the comma-joined list; the empty list gives the empty value |
| BlockedDomains.SetBlockedDomains | src/web/mod.rs:131-148 | the loop that inserts a comma before every item but the first builds the comma-join, and the cookie is `blocked=` followed by its encoding |
| BlockedDomains.JoinSnoc | src/web/mod.rs:138-143 | one more loop iteration extends the join by a comma and the item, or by the item alone on the first iteration |
| BlockedDomains.RoundTrip | src/web/mod.rs:105-148 | decoding what `set_blocked_domains` wrote for a list of valid entries whose comma-join fits in 375000 bytes (exactly the lists whose cookie value fits in the limit) gives the same list back |
| BlockedDomains.EncodedLengthFits | src/web/mod.rs:116 | a base64 value of n bytes fits in 500000 characters exactly when n is at most 375000 |
| BlockedDomains.ValueFits | src/web/mod.rs:116-146 | a list whose comma-join fits in 375000 bytes gets a cookie value that passes the length check |
| Text.Split | src/web/mod.rs:122-123 | `split(',')` yields at least one piece and no piece contains the separator |
| Text.SplitJoin | src/web/mod.rs:122-144 | splitting the comma-join of comma-free pieces gives the pieces back |
| Text.SplitAppend | src/web/mod.rs:122-123 | splitting `a,b` gives the pieces of `a` followed by those of `b` |
| Text.JoinSeparatorCount | src/web/mod.rs:137-144 | joining n items with single commas inserts exactly n-1 commas |
| Text.Trim | src/web/mod.rs:124 | the result has no leading or trailing whitespace, and it is a contiguous part of the input with only whitespace removed before and after it |
| Text.TrimEndOfSuffix | src/web/mod.rs:124 | trimming the end of a whitespace-stripped suffix leaves a contiguous core of the original with only whitespace around it |
| Text.TrimStart | src/web/mod.rs:124 | the result is a suffix, and everything removed is whitespace |
| Text.TrimEnd | src/web/mod.rs:124 | the result is a prefix, and everything removed is whitespace |
| Text.TrimKeepsAbsent | src/web/mod.rs:124 | trimming introduces no character, so a comma-free piece stays comma-free |
| Text.TrimOfTrimmed | src/web/mod.rs:124 | trimming an already trimmed string changes nothing |
| Text.SplitWithoutSeparator | src/web/mod.rs:122-123 | text without a comma is one piece, itself |
| Text.ReplaceChar | src/web/autocomplete.rs:26 | same length; every newline becomes a space and every other character stays where it was |
| Text.RemoveChar | src/web/autocomplete.rs:31 | no ESC remains, every other character keeps its count, and text without ESC is unchanged |
| Text.RemoveCharAppend | src/web/autocomplete.rs:31 | removal distributes over concatenation, so the kept characters stay in order |
| Text.RemoveCharSingle | src/web/autocomplete.rs:31 | a single character is dropped exactly when it is the removed one |
| Text.AsciiLower | src/engines/answer/random.rs:11 | same length; ASCII capitals become small letters, every other character is kept |
| Base64.Encode | src/web/mod.rs:146 | the encoding has length `4 * ceil(n / 3)` and is empty exactly for empty input |
| Base64.EncodeIsAscii | src/web/mod.rs:146 | every encoded character is from the standard alphabet or the padding, all ASCII |
| Base64.DecodeEncode | src/web/mod.rs:119-146 | decoding the encoding gives the original bytes |
| Base64.EncodeDecode | src/web/mod.rs:119 | whatever the strict decoder accepts is the canonical encoding of what it yields |
| Utf8.EncodeChar | src/web/mod.rs:120-121 | one to four bytes per character, one exactly for ASCII |
| Utf8.Encode | src/web/mod.rs:116 | a string takes at least one byte per character |
| Utf8.DecodeFirst | src/web/mod.rs:120-121 | a well-formed leading sequence is one to four bytes long and lies within the input |
| Utf8.DecodeStep | src/web/mod.rs:120-121 | an accepted sequence is a well-formed character followed by an accepted rest |
| Utf8.DecodeEncode | src/web/mod.rs:120-121 | decoding the UTF-8 of any string gives the string back |
| Utf8.EncodeDecode | src/web/mod.rs:120-121 | whatever the strict decoder accepts is the encoding of what it yields |
| Utf8.EncodeAsciiLength | src/web/mod.rs:116 | an ASCII string's byte length equals its character length, so the limit on the base64 value counts its characters |
| RandomAnswer.TriggerSimplified | src/engines/answer/random.rs:11 | the trigger regex, whose `^` anchors only its `rng` alternative, matches exactly when the text starts with `rng` or contains `rand` anywhere |
| RandomAnswer.Request | src/engines/answer/random.rs:10-30 | no contribution unless the lower-cased query matches the regex, and then the fixed iframe markup whatever the query |
| RandomAnswer.Bound | src/engines/answer/random.rs:33-42 | a present parameter that parses as an i64 gives its value; a missing or unparsable one gives the default |
| RandomAnswer.Draw | src/engines/answer/random.rs:46-62 | a number exactly when `min >= -9999999999 && max <= 9999999999`; the number lies in `[min, max]`, or is `min` itself when `min > max` |
| RandomAnswer.Route | src/engines/answer/random.rs:32-81 | bounds default to 1 and 10, the draw follows them, and each form field parses back to the bound in force |
| RandomAnswer.OutputTextDistinct | src/engines/answer/random.rs:44-61 | the output cell distinguishes any two numbers, and a number from the premium prompt |
| Decimal.ParseI64 | src/engines/answer/random.rs:33-42 | `i64::from_str` succeeds exactly on an optional `+` or `-` followed by one or more ASCII digits whose signed value is in the i64 range, and then yields that signed value |
| Decimal.SplitUnique | src/engines/answer/random.rs:33-42 | a decimal text splits into sign and digits in at most one way: the sign is the first character when that is `+` or `-` |
| Decimal.FormatNat | src/engines/answer/random.rs:59 | the decimal digits of a natural number denote that number, with no leading zero except for zero itself |
| Decimal.FormatI64 | src/engines/answer/random.rs:59-81 | `to_string` of an i64 starts with `-` exactly for negatives, has no leading zero except for zero itself, and parses back to the same i64 |
| UrbanDictionary.FirstDefinition | src/engines/postsearch/urbandictionary.rs:6-15 | the request fetches the lowest-index result with a definition URL, unchanged; none when no result has one |
| UrbanDictionary.Inspected | src/engines/postsearch/urbandictionary.rs:6 | `take(8)` is a prefix of at most eight results, the whole list when shorter |
| UrbanDictionary.Request | src/engines/postsearch/urbandictionary.rs:5-16 | a request exactly when one of the first eight results has a definition URL, and then a GET of the first such URL |
| UrbanDictionary.RegisteredPostsearch | src/engines/macros.rs:161-177 | with the Urban Dictionary line as an engine's first arm, the engine's postsearch request and parser are this module's |
| UrbanDictionary.RequestIgnoresLaterResults | src/engines/postsearch/urbandictionary.rs:6 | results after the eighth never change the request |
| UrbanDictionary.FirstDefinitionSkips | src/engines/postsearch/urbandictionary.rs:6-12 | results without a definition URL in front of the list change nothing |
| UrbanDictionary.FirstDefinitionReadsOnlyUrls | src/engines/postsearch/urbandictionary.rs:6-8 | only result URLs decide the choice, never titles or descriptions |
| UrbanDictionary.RequestReadsOnlyUrls | src/engines/postsearch/urbandictionary.rs:6-8 | the same for the whole request |
| UrbanDictionary.ShiftFirstDefinition | src/engines/postsearch/urbandictionary.rs:6-12 | skipping a non-matching first result keeps the first match first |
| Yep.Request | src/engines/search/yep.rs:6-23 | always a GET of the Yep endpoint whose `q` parameter is the query |
| Yep.ParamValue | src/engines/search/yep.rs:9-18 | a parameter lookup finds a pair with that name, and fails exactly when no pair has it |
| Yep.ParamValueAt | src/engines/search/yep.rs:9-18 | a parameter whose name no earlier one has is found with its value |
| Yep.ParamValueSameNames | src/engines/search/yep.rs:9-18 | lists with the same names that agree under a key give the same value for it |
| Yep.RequestOnlyQueryVaries | src/engines/search/yep.rs:10-18 | every parameter but `q` is the same whatever the query |
| Yep.ParamNamesDistinct | src/engines/search/yep.rs:10-18 | the six parameter names are pairwise distinct |
| Yep.ToEngineResult | src/engines/search/yep.rs:45-49 | url is url, title is title, description is the snippet |
| Yep.ToApiResult | src/engines/search/yep.rs:45-49 | mapping back and forth again is the identity, so the field mapping loses nothing |
| Yep.ParseResponse | src/engines/search/yep.rs:37-58 | a decode failure is an error; a status other than `"Ok"` gives an empty response; with `"Ok"`, the results in order with the field mapping and every other slot `None` |
| Yep.ParseResponseRecoversResults | src/engines/search/yep.rs:42-50 | mapping the engine results back gives exactly the API's result list: same length, order and contents |
| Yep.RegisteredSearch | src/engines/macros.rs:105-123 | with the Yep line as an engine's first arm, the engine's request and response parser are this module's |
| Autocomplete.Code | src/web/autocomplete.rs:28-51 | the statuses are valid HTTP codes: success exactly 200, a bad request exactly 400, an internal error exactly 500 |
| Autocomplete.Query | src/web/autocomplete.rs:22-26 | the query is empty without `q`; otherwise it is `q` with each newline replaced by a space at the same position and every other character unchanged |
| Autocomplete.Route | src/web/autocomplete.rs:12-52 | 400 exactly when the query has an ESC, echoing it ESC-free with no suggestions; otherwise the query is censored only when flagged, with 200 and the fan-out's suggestions on success and 500 with none on failure |
| Autocomplete.RejectionIgnoresCensorAndFanOut | src/web/autocomplete.rs:28-41 | the ESC check comes before censoring: a rejected reply is the ESC-stripped query whatever the censor and the fan-out are |
| Autocomplete.RejectedExactlyOnRawEsc | src/web/autocomplete.rs:22-33 | the 400 is given exactly when the raw `q` parameter has an ESC |
| Autocomplete.AcceptedUncensored | src/web/autocomplete.rs:37-51 | an unflagged, accepted query reaches the fan-out exactly as cleaned, and the suggestions come back unchanged with 200 |

## Left out

- `web::run` in src/web/mod.rs is left out: routing, static assets and the TCP listener are I/O.
- src/web/settings.rs is not part of this model: it is HTML templating around a foreign escaper.
- src/main.rs is not part of this model: logger setup and the censor-dictionary patch at start-up.
- Engine registration lists (src/engines/mod.rs) are not part of this model. The registry is a parameter, and `Yep.Capability` and `UrbanDictionary.Capability` show how an engine's line fills it; `Yep.RegisteredSearch` and `UrbanDictionary.RegisteredPostsearch` prove that such a line makes the registry dispatch to the engine's module.
- The dispatcher, merging, ranking and postsearch orchestration are not part of this model.
- Registry.Weight: weights are opaque `f64` bit patterns, and no floating-point arithmetic is modelled.
- BlockedDomains.GetBlockedDomains: the cookie jar is a map from names to values. Cookie header parsing and percent-decoding are left out. The `B: FromIterator` result is a sequence.
- RandomAnswer.Request: `to_lowercase` is modelled as ASCII lower-casing. The trigger is the same under full Unicode lower-casing, because the only non-ASCII characters whose lower case contains ASCII letters are U+0130 (to `i` plus a combining dot) and U+212A (to `k`), and neither `i` nor `k` occurs in `rng` or `rand`. This argument is not proved in the model.
- RandomAnswer.Route: the page around the output cell is left out: the HTML, the client-side JavaScript and its own checks. Only the output cell and the two form values are modelled. `thread_rng` is an arbitrary choice in the range.
- UrbanDictionary.IsDefinitionUrl: `\w` is taken as the ASCII word characters. The regex crate's Unicode `\w` also accepts non-ASCII letters and digits, so the model rejects some URLs the source accepts.
- Urban Dictionary `parse_response` is left out: it is HTML scraping and sanitising by foreign libraries. It is a parameter of `UrbanDictionary.Capability`.
- Urban Dictionary's `log::info!` is left out.
- Yep.Request: `Url::parse_with_params` and percent-encoding are not modelled. The request is the endpoint plus the ordered parameter pairs.
- Yep.ParseResponse: JSON decoding by serde is the `decode` parameter, and its errors are their messages.
- Autocomplete.Route: the client-IP lookup (header name from the environment) and logging are left out. The censor (`is_inappropriate`, `censor`) and `engines::autocomplete` are parameters, since the fan-out is async network code.
