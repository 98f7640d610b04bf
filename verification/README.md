# Shortner, modelled in Dafny

A model of the logic of the Shortner URL shortener (`main.go`), in three parts.

- **URL cleaner** (`cleanURL`, `fullyDecode`). The cleaner works in these steps:
  - it trims ASCII white space and every leading and trailing `<` and `>`;
  - it query-unescapes the string until a pass fails or changes nothing;
  - it parses the URL;
  - it deletes the tracking keys of `trackingParams` from the query;
  - it writes the query back with `Values.Encode`;
  - it unwraps a Google redirector link on `l.google.com` or `out.google.com` through the regular expression on line 69.

  `url.QueryUnescape`, `url.QueryEscape`, `url.ParseQuery`, `Values.Del` and `Values.Encode` are modelled byte for byte. `url.Parse` is a parameter. The regular expression is a hand-written matcher. It is proved to find the match that Go's leftmost-first rule picks.
- **Code generator** (`generateCode`). It builds six letters from a 62-letter alphabet. The random draws are an input.
- **Link table** (`shortenHandler`, `redirectHandler`, `cleanupOldLinks`). The `links` table is a map from code to `(url, createdAt)`. The `UNIQUE` constraint on `code` makes it a map. Each handler returns the new table and an HTTP outcome.

Strings are sequences of bytes (`Text.Byte`, a `char` below 256), because Go strings are. Times are integer seconds. The files, in dependency order:

- `wrappers.dfy`: `Option` and `Result`.
- `text.dfy`: `strings.TrimSpace`, `strings.Trim`, `strings.TrimPrefix`, `strings.Cut`, and Go's string order.
- `escape.dfy`: `url.QueryUnescape` and `url.QueryEscape`.
- `decode.dfy`: `fullyDecode`.
- `query.dfy`: `url.Values`.
- `pattern.dfy`: what counts as a match of the redirector expression.
- `redirector.dfy`: the matcher.
- `cleaner.dfy`: `cleanURL`.
- `codes.dfy`: `generateCode`.
- `links.dfy`: the handlers.

## Model

| member | source | states |
|---|---|---|
| Decode.FullyDecode | main.go:32-43 | The decode loop terminates without an iteration cap. The measure is (length, number of `+`), compared lexicographically. The result is a fixpoint: one more `QueryUnescape` fails or returns it unchanged. It is never longer than the input. |
| Decode.FullyDecodeLoop | main.go:33-43 | The `for` loop as written computes `FullyDecode`, and it stops at a fixpoint. |
| Decode.FullyDecodeIdempotent | main.go:32-43 | Decoding the decoded string again changes nothing. |
| Decode.FullyDecodeAbsorbsEscaping | main.go:32-43 | A string query-escaped any number of times decodes to what the string itself decodes to. |
| Escape.DecodeProgress | main.go:36-40 | A pass that succeeds and changes the string either shortens it or keeps its length and removes a `+`. This is why the unbounded loop stops. |
| Escape.Unescape | main.go:36 | `url.QueryUnescape`, also called on line 72. A failure carries one to three bytes starting with `%`. Its other properties are the lemmas UnescapeSucceedsIff (when it succeeds), UnescapeShrinks (it never lengthens) and UnescapeEscape (it inverts QueryEscape). |
| Escape.UnescapeShrinks | main.go:36 | Unescaping never lengthens a string. When the length stays the same, only `+` became a space. |
| Escape.UnescapeSucceedsIff | main.go:36-37 | `QueryUnescape` succeeds exactly when every `%` is followed by two hex digits. |
| Escape.UnescapeEscape | main.go:66 | `QueryUnescape(QueryEscape(s))` is `s`. |
| Escape.QueryEscape | main.go:66 | An escaped string holds no `&`, `=`, `;`, white space, `<` or `>`. |
| Text.TrimSpace | main.go:51 | `strings.TrimSpace` on ASCII white space. What it keeps is stated by Text.TrimSpec and Text.TrimIdempotent for the predicate IsSpace. |
| Text.TrimAngles | main.go:52 | `strings.Trim(rawURL, "<>")`. What it keeps is stated by Text.TrimSpec and Text.TrimIdempotent for the predicate IsAngle. |
| Text.TrimSpec | main.go:51-52 | The trimmed string is the slice of the input between a leading and a trailing run of dropped bytes. Neither of its end bytes can be dropped, so no `<` or `>` is left at either end. |
| Text.TrimIdempotent | main.go:51-52 | Trimming twice is trimming once. |
| Text.TrimFixed | main.go:51-52 | A string whose end bytes cannot be dropped is left as it is. |
| Text.LeadingRunSpec | main.go:51-52 | The leading run is all dropped bytes and stops at a kept byte. |
| Text.TrailingRunSpec | main.go:51-52 | The trailing run is all dropped bytes and starts after a kept byte. |
| Text.Cut | main.go:62 | When the separator occurs, the two halves joined around it give the input, and the first half holds no separator. Otherwise the first half is the whole input. |
| Text.CutJoin | main.go:62 | Cutting at the first separator recovers the halves that were joined around it. |
| Text.TrimPrefix | main.go:122 | One leading copy of the prefix is removed, and only when it is there. |
| Query.ParseQuery | main.go:62 | `URL.Query()`, with the rules of `url.ParseQuery`: segments split at `&`, a segment holding `;` rejected, an empty one skipped, key and value split at the first `=` and unescaped. Its contract is carried by ParseJoinPairs and ParseEncode: it reads back exactly the pairs Encode wrote. |
| Query.Encode | main.go:66 | `Values.Encode`. Its contract is carried by ParseEncode and SortByKeySpec: the pairs come out sorted by key, none lost, each key's values in their original order. |
| Query.Del | main.go:63-65 | Every pair with the key is gone. Every other key keeps exactly its values. |
| Query.SortByKeySpec | main.go:66 | The order in which `Encode` writes the pairs sorts the keys and keeps every pair. It also keeps each key's values in their original order. |
| Query.InsertSorted | main.go:66 | One step of the stable sort keeps the keys sorted. |
| Query.InsertValues | main.go:66 | One step of the stable sort appends the inserted value after the key's earlier values. |
| Query.ParseEncodedPair | main.go:62-66 | An encoded pair holds no `&` and parses back to the pair. |
| Query.ParseJoinPairs | main.go:62-66 | Parsing the `&`-joined encoded pairs gives back the same pairs in the same order. |
| Query.ParseEncode | main.go:62-66 | Round trip: parsing `Encode(ps)` gives the pairs sorted by key. Every key keeps exactly its values in their original order. |
| Query.ValuesOfEmpty | main.go:62-66 | A key has values exactly when some pair carries it. |
| Cleaner.DelAll | main.go:63-65 | After the deletions no pair carries a deleted key. Every other key keeps exactly its values. |
| Cleaner.DelEach | main.go:63-65 | The loop of `q.Del` calls leaves no pair with a key from the list. It computes `DelAll`. |
| Cleaner.DelAfterDelAll | main.go:63-65 | Deleting one more key after the others is the same as deleting them all together. |
| Cleaner.Render | main.go:70 | `URL.String()`, also called on line 78, as far as the query goes: `?` and the raw query are written when the query is non-empty or forced. Path and fragment escaping are left out. Its role in cleaning is stated by CleanURLResult. |
| Cleaner.CleanParsed | main.go:61-78 | What `cleanURL` makes of a parsed URL: the query rebuilt, then the redirector target when there is one. Its contract is carried by CleanURLResult and RebuiltQueryClean. |
| Cleaner.CleanURL | main.go:50-79 | `cleanURL` fails exactly when `url.Parse` fails on the trimmed and decoded string. No other path gives an error. |
| Cleaner.CleanURLResult | main.go:68-78 | When the rebuilt URL holds a redirector target and the target unescapes, the result is the unescaped target, with no further tracking-key removal. Otherwise the result is the rebuilt URL. |
| Cleaner.RebuiltQueryClean | main.go:61-66 | The rebuilt query holds no tracking key. Every other key keeps all its values in their original order, and the keys come out sorted. |
| Cleaner.TrackingParams | main.go:26-30 | The twelve tracking keys, in the order of `trackingParams`. |
| Cleaner.Prepare | main.go:51-54 | The string handed to `url.Parse`: trimmed, then fully decoded. Its properties are Cleaner.PrepareIgnoresEncodingDepth and Cleaner.CleanURLIgnoresSpace. |
| Cleaner.Rebuild | main.go:62-66 | Only the raw query changes: the head, the forced `?` and the fragment are kept. Cleaner.RebuiltQueryClean states what the new query holds. |
| Cleaner.CleanURLIgnoresSpace | main.go:51 | Cleaning the space-trimmed string gives the same result as cleaning the original. |
| Cleaner.PrepareIgnoresEncodingDepth | main.go:51-54 | A string with no white space, `<` or `>` at either end reaches `url.Parse` as the same string as any query-escaped form of it. |
| Cleaner.CleanURLIgnoresEncodingDepth | main.go:50-79 | A string with no white space, `<` or `>` at either end cleans to the same result as any query-escaped form of it. |
| Redirector.FindTarget | main.go:69-71 | There is no capture exactly when the expression matches nowhere. A capture is the `[^&]+` run after the `url=` of the match the leftmost-first rule picks: the earliest start, and there the earliest `url=`. It is non-empty and holds no `&`. |
| Redirector.MatchFromSpec | main.go:69-70 | The search from `i` finds a match with no match starting earlier from `i`, and no earlier `url=` at its start. When it finds nothing, no match starts from `i` on. |
| Pattern.PreferredMatchUnique | main.go:69-70 | The leftmost-first rule picks at most one (start, `url=`) pair. |
| Redirector.MatchFromFindsPreferred | main.go:69-70 | Whenever a preferred match exists, the search from the start of the string returns exactly it. |
| Redirector.MatchStartingAt | main.go:69 | At a fixed start, the lazy `.*?` stops at the first `url=` that completes a match. With no result, no match starts there. |
| Redirector.LazyParamIsFirstMatch | main.go:69 | Once the prefix is read, the matches at a start are exactly the `url=` positions the lazy step can reach. |
| Redirector.LazyParam | main.go:69 | The lazy step finds the first `url=` followed by a byte other than `&`, without crossing a newline. With no result, none is reachable. |
| Redirector.PrefixChoice | main.go:69 | It finds the one reading of the expression's prefix (`http` or `https`, with or without `www.`, then the `l` or `out` host) present at a position, or shows that none of the eight is present. |
| Redirector.PrefixDetermined | main.go:69 | At most one of the eight prefix readings matches at a position. |
| Redirector.RunEnd | main.go:69 | `[^&]+` takes the longest run of bytes other than `&`. |
| Redirector.MatchInside | main.go:69 | A match starts inside the string, and its `url=` has a byte other than `&` after it. |
| Codes.Letter | main.go:83 | Draw `i` picks byte `i` of `letters`, as Codes.LetterIsLetters states. |
| Codes.LetterIsLetters | main.go:83 | `letters` has 62 bytes, and Letter(i) is byte `i` of it. |
| Codes.GenerateCode | main.go:82-89 | The code has length `n`, and byte `i` is the letter of draw `i`, an alphanumeric byte. |
| Codes.GenerateCodeReadsLetters | main.go:86 | Byte `i` of the code is `letters[draws[i]]`. |
| Codes.LetterBijection | main.go:83 | The 62 letters are exactly the alphanumeric bytes, each once. |
| Codes.DrawsOfCode | main.go:82-89 | The draws can be read back from the code. |
| Codes.CodesCollideOnlyOnSameDraws | main.go:82-89 | Two codes are equal exactly when their draws are. |
| Links.Store | main.go:99-117 | An invalid URL gives BadRequest and a code already in the table gives ServerError; both leave the table unchanged. Otherwise exactly one row `(code, url, now)` is added, every other row is unchanged, and the body is the domain, `/` and the code. |
| Links.Shorten | main.go:92-118 | `shortenHandler`. Its contract is carried by ShortenSpec, ShortenThenResolve and ShortenKeepsValid. |
| Links.ShortDomain | main.go:113-116 | A non-empty `SHORT_DOMAIN` is used as it is; an empty one means `http://localhost`. |
| Links.ShortenSpec | main.go:92-118 | A missing `url` or an invalid URL gives BadRequest, a duplicate code gives ServerError, and neither changes the table. Otherwise exactly one row with the cleaned URL is added under the generated code, and the body is `domain/code`, with `http://localhost` as the default domain. |
| Links.Resolve | main.go:121-134 | A path redirects exactly when, with one leading `/` removed, it is a non-empty code in the table, and then to that row's URL as it is handed to `http.Redirect`. Otherwise it is NotFound. |
| Links.ResolveEmpty | main.go:122-126 | The empty path and `/` give NotFound. |
| Links.StoreThenResolve | main.go:99-133 | After a successful insert, `/` plus the code redirects to the stored URL. |
| Links.ShortenThenResolve | main.go:92-133 | After a successful shortening, `/` plus the code redirects to the cleaned URL. |
| Links.Cutoff | main.go:138-142 | The cut-off of the `DELETE`: `now` minus the expiry in days, 30 days when `CACHE_EXPIRY` is unset. Its contract is carried by Cleanup and ResolveAfterCleanup. |
| Links.Cleanup | main.go:137-143 | Cleanup removes exactly the rows created before `now` minus the expiry in days, 30 by default. Every other row is unchanged. |
| Links.ResolveAfterCleanup | main.go:121-143 | After cleanup a path resolves exactly when its row was there and not older than the cut-off, and then to the same URL. |
| Links.CleanupIdempotent | main.go:137-143 | A second cleanup at the same time removes nothing more. |
| Links.ShortenKeepsValid | main.go:105-106 | Shortening keeps every stored code six alphanumeric bytes long. |
| Links.CleanupKeepsValid | main.go:137-143 | Cleanup keeps every stored code six alphanumeric bytes long. |

## Left out

- HTTP wiring is not modelled: the `ResponseWriter`, the server, the routes and the port. The `url` query parameter is an input, empty when it is missing. The request path is an input.
- Logging (zap, `initLogger`) and `.env` loading are not modelled. `SHORT_DOMAIN` and `CACHE_EXPIRY` are plain parameters.
- SQLite and the SQL text are not modelled. The table is a map. An insert fails only on a duplicate code. Other database errors, such as a full disk or a locked file, are not modelled.
- The `DELETE` query is built with `Sprintf` and compares text timestamps. Cutoff models it with integer seconds and a whole number of days. A non-numeric or negative `CACHE_EXPIRY`, which would change the SQL text, is not modelled.
- The daily cleanup goroutine and its ticker are not modelled, because they are scheduling. `Cleanup` is one run of `cleanupOldLinks`.
- `rand.Seed` and the PRNG are not modelled. The draws are an input. Nothing is claimed about collision probability.
- `url.Parse` is a parameter, because it is library code. `Url` keeps only what `cleanURL` uses: the text before the query, the raw query, `ForceQuery` and the text after the query. `URL.String()` re-escapes the path and the fragment, and that is not modelled: `Render` writes them back as they are.
- Links.Resolve: `Redirect` carries the URL as it is passed to `http.Redirect`, before that function rewrites it. `http.Redirect` joins a location with no scheme and no host to the request path's directory and cleans it with `path.Clean`, and it hex-escapes non-ASCII bytes in the `Location` header. A stored `example.com` is sent as `Location: /example.com`. That rewrite is library code and is not modelled.
- Text.TrimSpace: only ASCII white space is dropped. Go's `strings.TrimSpace` also drops Unicode white space, so for a leading `\xC2\xA0` (U+00A0) Go trims two bytes and the model trims none. The same difference reaches Cleaner.Prepare and Cleaner.CleanURL.
- Cleaner.CleanURLIgnoresSpace: only ASCII white space is trimmed. Go's `strings.TrimSpace` also drops Unicode white space, such as U+0085 and U+00A0 in their UTF-8 form, and the byte model does not decode UTF-8.
- The general Go regexp engine is not modelled. Only the one expression on line 69 is matched, by hand, with the leftmost-first rule Go applies to it.
- The code is followed where it differs from what its comments suggest:
  - `strings.Trim(rawURL, "<>")` strips every leading and trailing `<` and `>`, not one layer;
  - `Values.Encode` sorts the keys, so the original parameter order is lost;
  - a duplicate code is reported as a database error without a retry;
  - the comments on lines 49 and 68 promise Outlook redirect links too, but the expression matches only `l.google.com` and `out.google.com`, so an Outlook link is never unwrapped.
