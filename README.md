# gt-guest: token extraction, page scraping and the login pipeline

gt-guest is a small Go HTTP service. A caller hands it the URL of a Growtopia
login page (`/?url=…&platformID=…`). The service:

1. cuts the session token out of that URL (`parse_url_token`);
2. fetches the login page and scrapes the reCAPTCHA site key and two hidden
   form tokens out of it (`fetch_data`);
3. has a solving service answer the invisible challenge (`solve_captcha`);
4. posts the three-field form back (`validate_captcha`);
5. replies "Captcha validated!" or "Captcha failed to validate!".

This project models that core in Dafny as pure functions over byte strings
(Go strings are bytes). It proves what each piece promises.

- `ByteStrings` (bytes.dfy): the `strings.Index` and `strings.Split`
  behaviour the extractor relies on. The program never joins strings; `Join`
  is there only as the inverse that states what `Split` preserves.
- `QueryEscaping` (escape.dfy): `url.QueryEscape` and `url.QueryUnescape`.
  This is percent-encoding as in section 2.1 of RFC 3986. Only the unreserved
  bytes of section 2.3 are kept as they are, and a space becomes `+`.
  Proved: both round trips, that the encoder is injective, and that its
  output alphabet is safe.
- `TokenExtractor` (token.dfy): `parse_url_token`, checked against a direct
  description of the raw token (the text between the first `?token=` and the
  next one, or the end).
- `Scraper` (scrape.dfy): the three regular expressions of `fetch_data`, run
  as scanners with Go's leftmost-first semantics. `[^"]` on runes equals
  `[^"]` on bytes, because no byte of a multi-byte UTF-8 sequence is `"`.
- `Pipeline` (pipeline.dfy): `fetch_data`, `validate_captcha` and the `/`
  handler, as one function. Its inputs are the query and what each outbound
  exchange came to. Its result is the list of calls made and the reply
  written.

The model follows the code where it differs from what a reader of the
handler might expect:

- The token is cut at a second `?token=`. It is not "everything after the
  marker".
- An empty token (the URL ends right after the marker) is treated like a
  missing marker.
- A failed page fetch does not stop the pipeline. `fetch_data` returns three
  empty strings and an error. The handler only logs the error, then solves
  and posts anyway.
- An empty answer from the solver is posted as it is.
- A page that lacks one of the three patterns makes the handler panic
  (main.go:169). net/http then drops the connection without a reply. The
  model calls this reply `Aborted`.
- The solver is always given the page address with `platformID=0r`
  (main.go:49), whatever platform the request named.
- Success means only that the POST was built, sent and read. The body of the
  answer is not examined.

## Model

| member | source | states |
|---|---|---|
| ByteStrings.IndexFrom | main.go:132 | the result is the first occurrence of the separator at or after the start position, and there is none when it is absent |
| ByteStrings.Split | main.go:132-133 | `strings.Split` gives more than one part exactly when the separator occurs |
| ByteStrings.SplitFrom | main.go:132-133 | splitting from a position gives more than one part exactly when the separator occurs from there on |
| ByteStrings.SplitJoin | main.go:132 | joining the parts with the separator gives back the input |
| ByteStrings.SplitPartsFree | main.go:132 | no part of a split contains the separator |
| ByteStrings.PartEnd | main.go:134 | a part stops at the next occurrence of the separator after its start, or at the end when none follows |
| ByteStrings.SplitSecondPart | main.go:132-134 | element 1 is the text between the first separator and the next one, or the end |
| ByteStrings.IndexFromSkip | main.go:132 | a stretch without an occurrence does not change where the search ends |
| QueryEscaping.EscapeByte | main.go:134 | one byte becomes three bytes `%XX` (upper-case digits naming it) exactly when it is neither unreserved nor a space, and otherwise one byte: itself, or `+` for a space |
| QueryEscaping.QueryEscape | main.go:134 | the escape is never shorter than its input, and it is empty exactly when the input is |
| QueryEscaping.QueryUnescape | main.go:134 | the decoder that the two round trips pair with the encoder; a decoded text is never longer than its input, and a text without `%` always decodes to the same length |
| QueryEscaping.PercentStep | main.go:134 | one step of `EscapeUnescape`: a canonical `%XX` in front of a text that round-trips also round-trips |
| QueryEscaping.PlainStep | main.go:134 | one step of `EscapeUnescape`: an unreserved byte or `+` in front of a text that round-trips also round-trips |
| QueryEscaping.UnescapeEscape | main.go:134 | `QueryUnescape(QueryEscape(s))` gives back `s` |
| QueryEscaping.EscapeUnescape | main.go:134 | every canonical encoding decodes, and re-encoding gives back the same text |
| QueryEscaping.EscapeCanonical | main.go:134 | the encoder only writes unreserved bytes, `+`, and `%XX` with upper-case digits naming a byte that had to be escaped |
| QueryEscaping.CanonicalSafe | main.go:134 | every byte of a canonical encoding is unreserved, `+` or `%` |
| QueryEscaping.EscapeIsSafe | main.go:134 | the escaped text holds no `&`, `=`, `?`, `#` or `"` |
| QueryEscaping.EscapeInjective | main.go:134 | two inputs with the same escape are equal |
| QueryEscaping.EscapeUnreservedIdentity | main.go:134 | text made only of unreserved bytes is left unchanged |
| TokenExtractor.ParseUrlToken | main.go:131-137 | split on `?token=` and escape element 1, or empty; the result is empty when the marker is missing and holds only safe bytes (`ParseUrlTokenIsEscapedSegment` ties it to the raw token) |
| TokenExtractor.ParseUrlTokenIsEscapedSegment | main.go:131-137 | the result is the escape of the raw token, or empty when `?token=` is missing |
| TokenExtractor.EmptyTokenIff | main.go:132-136 | the token is empty exactly when the marker is missing or is followed directly by the next marker or the end |
| TokenExtractor.TokenSafeAndDecodes | main.go:134 | the token uses only safe bytes, and decoding it gives back the raw token |
| TokenExtractor.SegmentHasNoMarker | main.go:132-134 | the raw token never contains `?token=`, so text after a second marker is dropped |
| TokenExtractor.SingleMarker | main.go:131-137 | with one marker and no `?` elsewhere, the token is the escape of everything after the marker; a URL ending at the marker gives the empty token |
| TokenExtractor.SecondMarker | main.go:132-134 | a second marker cuts the token short |
| TokenExtractor.ExampleToken | main.go:131-137 | `https://example.com/login?token=abc123` gives `abc123` |
| Scraper.MatchAt | main.go:162-164 | a pattern's capture at one position: when there is one, the prefix occurs there and the capture holds no quote |
| Scraper.FindSubmatch | main.go:165-167 | `FindStringSubmatch(...)[1]`, or nothing where Go returns nil; a capture holds no quote (`OpenRunFound`, `OpenRunValue` and `QuotedRunMatch` state which one it is) |
| Scraper.Scrape | main.go:161-172 | the three values, only when all three patterns match; the site key is then non-empty and no value holds a quote (`ScrapeSucceedsIff` gives the converse, `ScrapeValues` which bytes of the page each value is) |
| Scraper.RunEnd | main.go:162-164 | a greedy `[^"]` run stops at the first quote after its start, or at the end |
| Scraper.LeftmostMatch | main.go:165-167 | the result is the leftmost position where the pattern matches; when there is none, it matches nowhere |
| Scraper.OpenRunFound | main.go:162 | the site key is found exactly when some `data-sitekey="` is followed by a non-quote byte |
| Scraper.OpenRunValue | main.go:162 | the site key starts after the first such occurrence; it is the maximal non-empty run without a quote, and needs no closing quote |
| Scraper.QuotedRunAtFirstOccurrence | main.go:163-167 | because each hidden-token prefix ends in a quote, the leftmost match is at the first occurrence of the prefix or nowhere |
| Scraper.QuotedRunMatch | main.go:163-167 | a hidden token is the possibly empty text from the first occurrence of its prefix to the next quote; there is no match when no quote follows |
| Scraper.HiddenPrefixesNeverAlign | main.go:163-164 | at every overlapping offset, the `_token` prefix and the `token` prefix differ in some byte |
| Scraper.HiddenPrefixesDisjoint | main.go:163-164 | occurrences of the `_token` prefix and the `token` prefix never overlap, so neither pattern matches the other's field |
| Scraper.SiteKeyField | main.go:162-165 | the site key is found exactly when some `data-sitekey="` is followed by a non-quote byte, and is then non-empty |
| Scraper.HiddenField | main.go:163-167 | each hidden token is found exactly when a quote follows the first occurrence of its prefix |
| Scraper.ScrapeSucceedsIff | main.go:161-172 | the triple is harvested exactly when all three fields are present; the site key is then non-empty, and no value holds a quote |
| Scraper.ScrapeValues | main.go:161-172 | for every page that is harvested, the site key is the page's text from just after the leftmost `data-sitekey="` that a non-quote byte follows, up to the next quote or the end; `_token` and `token` are each the text from just after the first occurrence of their prefix up to the quote that closes it |
| Scraper.SiteKeyValue | main.go:162 | the site key found in a page is the run after the leftmost usable `data-sitekey="`, with no usable occurrence before it |
| Scraper.HiddenValue | main.go:163-167 | a hidden token found in a page is the text from the first occurrence of its prefix up to the quote that closes it |
| Scraper.QuotedRunValue | main.go:163-167 | the same, given where the prefix first occurs: the token is the text from there to the closing quote |
| Scraper.QuotedRunMatchAt | main.go:163-164 | at an occurrence of its prefix, a hidden-token pattern matches exactly when a quote follows, and then captures the text up to that quote |
| Scraper.FirstOccurrence | main.go:163-164 | an occurrence of a prefix with none before it is the one the search finds |
| Scraper.ThreeFieldPage | main.go:161-172 | the page `data-sitekey="SK1" name="_token" type="hidden" value="T1" name="token" type="hidden" value="T2"` is harvested as `SK1`, `T1`, `T2` |
| Pipeline.Get | main.go:40-42 | `Values.Get`: a missing key, or a key with no values, reads as the empty string; otherwise the first value |
| Pipeline.Has | main.go:39 | `Values.Has`: a key counts as present even when it holds no value (`Get` then reads it as empty) |
| Pipeline.Set | main.go:73-75 | `Values.Set`: the key ends up with exactly the one value given, and every other key keeps its values |
| Pipeline.SetLeavesOtherKeys | main.go:73-75 | after a `Set`, `Has` and `Get` on any other key answer as before |
| Pipeline.LoginUrl | main.go:141 | the login address reads back as the fixed base, the token, `&platformID=` and the platform, each at its own place (also the Referer of main.go:86) |
| Pipeline.SolverPageUrl | main.go:49 | the solver's page address is the login address with the platform fixed to `0r` |
| Pipeline.Payload | main.go:72-75 | the form has exactly the keys `_token`, `g-recaptcha-response` and `token`, each holding exactly one value, the one given for it |
| Pipeline.ReplyText | main.go:52-58 | a body is written exactly for the usage hint and the two verdicts, not for an empty token or a panic |
| Pipeline.ReplyTextsDistinct | main.go:52-58 | the three bodies differ, so the caller can tell the usage hint and the two verdicts apart |
| Pipeline.FetchData | main.go:139-173 | GET issued unless the request could not be built; three empty values and an error on a transport failure; a panic exactly when a read page lacks a pattern; otherwise the harvested triple |
| Pipeline.ValidateCaptcha | main.go:69-107 | true exactly when building, sending and reading the POST all succeed; the POST carries the three-field form and the rebuilt Referer (the model's "not issued when it could not be built" case cannot arise in the program; see Left out) |
| Pipeline.Handle | main.go:37-60 | without `url`: the usage hint and no call; an empty token: no reply and no call; otherwise validated, failed or aborted |
| Pipeline.ValidatedIff | main.go:43-55 | "Captcha validated!" exactly when there is a non-empty token, the page did not cause a panic, and the POST completed |
| Pipeline.AbortedIff | main.go:165-172 | the handler dies exactly when a read page lacks a pattern, after the GET and before solving or posting |
| Pipeline.ReplyIgnoresFetchErrorAndSolver | main.go:45-50 | a failed fetch or any solver answer leaves the reply unchanged |
| Pipeline.StagesInOrder | main.go:45-50 | the calls are fetch, solve and post, in that order, and the post carries what the fetch and the solver gave |
| Pipeline.NoTokenNoCalls | main.go:39-44 | no outbound call is made exactly when `url` is missing or the token is empty |
| Pipeline.SolverReachedIff | main.go:43-49 | the solving service is called exactly when there is a non-empty token and the page did not make the handler panic |
| Pipeline.SolverSkippedOnPanic | main.go:45-49 | when the page makes the handler panic, the solving service is never called |
| Pipeline.SolverCalled | main.go:45-49 | with a token and a page that does not panic, the solving service is called, even after a failed fetch |
| Pipeline.SafeTokenInAddress | main.go:141 | a token of safe bytes sits between the fixed base and the `&` of the platform parameter, with no delimiter inside it |
| Pipeline.TokenStaysInItsParameter | main.go:49 | in the solver's page address of this line, and equally in the Referer of main.go:86 and the fetch address of main.go:141, the token holds no delimiter and ends at the next `&` |
| Pipeline.HarvestedCalls | main.go:45-50 | with a token, a page that yields all three values and a sendable POST, the calls are exactly fetch, solve and post |
| Pipeline.HarvestedRun | main.go:43-55 | the same run with a completed POST also replies "Captcha validated!" |
| Pipeline.ExampleRequest | main.go:37-60 | a request of the usual shape (`abc123`) on the page of `ThreeFieldPage`, with answer `RESP1` and a completed POST, replies "Captcha validated!" after exactly three calls |
| Pipeline.UsageWithoutUrl | main.go:57-58 | without `url`, the reply text is the usage hint and no call is made |

## Left out

- The HTTP listener, routing and `ListenAndServe` (main.go:37, 66): network I/O. The handler's query is an input, already parsed into `url.Values`.
- The outbound transport: `http.Client`, the request headers other than the Referer, and reading the response bodies (main.go:77-105, 141-159). Each exchange is an input outcome: build failed, send failed, read failed or completed.
- `solve_captcha` (main.go:109-129): a wrapper around the external 2captcha client, whose behaviour and timeout are not visible here. Its answer is an input (empty on failure), and the call is recorded with its page address and site key; the API key it also receives is process configuration and is not recorded.
- Environment variables, the log file and all logging and printing (main.go:19-35, 62-65 and the `log`/`fmt` calls): process plumbing, with no effect on replies.
- ValidateCaptcha: its `BuildFailed` outcome cannot arise in the program. `http.NewRequest` at main.go:77 gets a constant URL and a `strings.Reader` body, so it never fails there. The model keeps the case only because it shares the `Transport` type with the page fetch, whose URL carries the caller's token and platform and can fail to parse.
- `url.Values.Encode` (main.go:77): its key order is a library detail. The form is modelled as the map it encodes.
- Concurrency between requests: the handler shares no state, so each request is modelled as one independent function call.
- Unicode in the scanners: the model works on bytes. This is exact for these patterns, as explained above.
