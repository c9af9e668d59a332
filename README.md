# Social media video downloader: a Dafny model of its request and response logic

The repository is a browser page. The user pastes the link of a social
media video and presses a button. The page then asks a RapidAPI "Social
Media Video Downloader" service for the video's metadata and shows a card
with a title, a thumbnail and an MP4 download link. Everything it does lives
in `script.js`. This project models the pure decisions in that file and
proves properties about them:

- **Pre-checks** in `handleDownload`: the input is trimmed the way
  `String.prototype.trim` does it. A blank input, or the API key still set
  to its placeholder, ends with an error message and no request.
- **Request construction** in `fetchVideoData`: a GET request with the
  `X-RapidAPI-Key` and `X-RapidAPI-Host` headers. Its URL is the fixed
  endpoint, then `?url=`, then the ECMAScript `encodeURIComponent` of the
  input. The encoding goes through UTF-8 and upper-case `%HH` triplets
  (section 2.1 of RFC 3986). A decoder, `decodeURIComponent`, reads it back.
- **Status classification**: 2xx hands the decoded body on. 401/403 throw
  the authorisation error. Any other status throws `Error del servidor: `
  followed by the status in decimal.
- **Response normaliser** in `showResult`:
  - The decoded JSON body is a tagged tree (`Json.Json`), with JavaScript
    truthiness, property access and optional chaining on top of it
    (`JsValue`).
  - The title falls back to a default, and the thumbnail to the `picture`,
    then `thumbnail` fields, then a placeholder image.
  - The link comes from a fallback chain: the `links` array, then the
    `url` field, then the regex `/https?:\/\/[^"]+\.mp4/`.
  - The regex runs over a `JSON.stringify` serialiser with the string
    escaping of section 7 of RFC 8259. It is modelled as a leftmost, then
    longest, scan (`Mp4Scan`).
- **What one click shows** (`HandleDownload`): the message and its style,
  the card, and the request sent. The network reply is a parameter.

Two plain definitions carry no contract of their own: `VideoRequest.IsOk`
is `response.ok` (a status from 200 to 299), and `JsString.IsWhiteSpace` is
the set of characters `trim` removes (WhiteSpace and LineTerminator).

`ShowResult.ResolveSteps` is a method version of the normaliser. It
reassigns `downloadUrl` in the three conditional steps `showResult` uses,
and it is proved equal to the function `ShowResult.Resolve`.

Some facts about `script.js` that the model keeps:
- `showResult` takes a truthy `data.url` with no extension check
  (script.js:131-132).
- It reads no quality-ranked `medias` list.
- `fetchVideoData` sends a GET with no body and no proxy (script.js:82-96).
- The scan matches `.mp4` only (script.js:145).
- `fetchVideoData` throws the authorisation and server errors, but
  `handleDownload` catches them and shows only the generic failure message
  (script.js:70-72, `HandleDownload.FailuresShowGenericMessage`).

## Model

| member | source | states |
|---|---|---|
| JsString.Trim | script.js:46 | the result has no leading or trailing white space or line terminator |
| JsString.TrimStart | script.js:46 | the result is a suffix of the input, everything cut off is white space, and it does not start with white space |
| JsString.TrimEnd | script.js:46 | the result is a prefix of the input, everything cut off is white space, and it does not end with white space |
| JsString.TrimIsInfix | script.js:46 | the trimmed text is a contiguous piece of the input, and everything cut off on both sides is white space |
| JsString.TrimEmptyIff | script.js:46-48 | the input trims to empty exactly when every character is white space |
| JsString.TrimIdempotent | script.js:46 | trimming twice is trimming once |
| HandleDownload.HandleDownload | script.js:45-75 | a request is sent iff the trimmed input is non-empty and the key is not the placeholder; the request is `Build(trim(input), key)`; the outcome is a success iff a card is shown, the card's link is truthy, and every error uses one of the handler's messages (corrected version, see Findings) |
| HandleDownload.Sends | script.js:46-57 | a request is sent exactly when the input holds a character other than white space and the key is not the placeholder |
| HandleDownload.BlankInputRefused | script.js:46-51 | an all-blank input gives "Por favor, ingresa una URL válida." with no request, whatever the key and the reply |
| HandleDownload.PlaceholderKeyNeverSends | script.js:53-57 | with the placeholder key no request is sent; the message is the blank-input one or the missing-key one, depending on the input |
| HandleDownload.SentRequestCarriesInput | script.js:82-93 | the request sent is a GET whose key and host headers carry the key and the host; its URL is the endpoint, `?url=` and the encoding of the trimmed input, and its query parameter decodes to the trimmed input |
| HandleDownload.FailuresShowGenericMessage | script.js:70-72 | every thrown error (network, refused status, unreadable body) shows the generic failure message, never the authorisation message |
| HandleDownload.FalsyBodyNotFound | script.js:64-68 | an ok reply with a falsy body gives "No se pudo encontrar el video. Verifica el enlace." and no card |
| HandleDownload.TruthyBodyOutcome | script.js:64-66 | with a truthy body, success holds exactly when the normaliser finds a link; the card holds its title, thumbnail and link, and otherwise the message is the missing-link error |
| HandleDownload.HandleDownloadAsWritten | script.js:45-75 | the handler as written: a request is sent under the same conditions, and a success always shows the found message |
| HandleDownload.AsWrittenHidesMissingLink | script.js:64-66 | as written, a truthy body without a link ends on the success message with no card; the corrected handler shows the missing-link error |
| HandleDownload.EmptyLinksBodyHasNoLink | script.js:128-152 | the body `{"links":[]}` yields no link at all |
| HandleDownload.NoMatchWithoutH | script.js:145 | text without an `h` never matches the pattern |
| HandleDownload.EmptyLinksShownAsSuccess | script.js:64-66 | concrete input for the finding: a typed URL, status 200 and body `{"links":[]}` show the found message as written, and the missing-link message when corrected |
| HandleDownload.AsWrittenAgreesOtherwise | script.js:45-75 | outside that one case, the handler as written and the corrected one produce the same screen |
| VideoRequest.Build | script.js:82-93 | the request is a GET with two headers, the key under `X-RapidAPI-Key` and the host under `X-RapidAPI-Host`; its URL is exactly the endpoint, then `?url=`, then `encodeURIComponent` of the video URL, and that last part decodes back to the video URL |
| VideoRequest.BuildQueryIsEncoded | script.js:93 | the query value sent is made only of unreserved characters and `%HH` triplets, and holds no `&`, `=`, `#`, `?`, space or `+` |
| VideoRequest.BuildReadsBack | script.js:82-93 | the request is a GET with exactly two headers, `X-RapidAPI-Key` set to the key and `X-RapidAPI-Host` set to the host; its URL splits at `?` into the endpoint and a single `url=` parameter that decodes back to the video URL |
| VideoRequest.BuildInjective | script.js:93 | different video URLs give different requests |
| VideoRequest.ReadBuiltUrl | script.js:93 | endpoint + `?url=` + encoding splits back into the endpoint and the original input |
| VideoRequest.ApiUrlHasNoQuery | script.js:23 | the endpoint has no `?`, so the first `?` of the URL starts the query |
| VideoRequest.HeaderValue | script.js:84-87 | a header lookup finds nothing exactly when no header has that name, and otherwise gives the value of a header with that name |
| VideoRequest.Classify | script.js:98-103 | a status is accepted iff it is 2xx; a non-2xx 401 or 403 gives the authorisation message |
| VideoRequest.ServerMessageNamesStatus | script.js:102 | any other non-2xx status gives "Error del servidor: " followed by the shortest decimal numeral of the status (no leading zero); that numeral reads back as the status, and the message differs from the authorisation message |
| VideoRequest.Receive | script.js:96-106 | the body is handed on exactly when the reply is an ok response with a parsed body, and it is handed on unchanged |
| VideoRequest.BodyReadOnlyWhenOk | script.js:98-103 | for a non-2xx status the outcome does not depend on the body, and it is the classification's error |
| VideoRequest.UnauthorizedAlwaysThrows | script.js:99-100 | 401 and 403 throw the authorisation error, whatever the body |
| Decimal.FromNat | script.js:102 | the decimal text of a status is non-empty, all digits, and without a leading zero unless it is "0" |
| Decimal.ParseFromNat | script.js:102 | parsing the decimal text of `n` gives back `n` |
| Decimal.FromNatInjective | script.js:102 | different statuses have different texts |
| UriComponent.Encode | script.js:93 | every character of the encoding is unreserved or `%` |
| UriComponent.DecodeEncode | script.js:93 | decodeURIComponent(encodeURIComponent(s)) == s for every string of scalar values |
| UriComponent.DecodeEncodeAppend | script.js:93 | decoding the encoding of `s` followed by any text gives `s` followed by the decoding of that text |
| UriComponent.EncodeInjective | script.js:93 | different inputs never share an encoding |
| UriComponent.EncodeIsPercentEncoded | script.js:93 | the encoding is made only of unreserved characters and `%HH` triplets with upper-case digits |
| UriComponent.EncodeHasNoDelimiters | script.js:93 | the encoding never holds `&`, `=`, `#`, `?`, a space or `+` |
| UriComponent.EncodeUnreserved | script.js:93 | text of unreserved characters only is left as it is |
| Utf8.Encode | script.js:93 | a scalar value becomes 1 to 4 bytes; the lead byte announces the length and the rest are continuation bytes |
| Utf8.DecodeEncode | script.js:93 | decoding the UTF-8 bytes of a scalar value gives it back |
| Utf8.EncodeDecode | script.js:93 | every byte sequence the decoder accepts is the encoding of what it decodes to |
| Json.NumberText | script.js:145 | a number's text is non-empty, made of digits and `-`, starts with `-` exactly for a negative number, and holds no quote |
| Json.EscapeChar | script.js:145 | a plain character is copied as it is; any other is written as an escape sequence starting with a backslash; only a quote yields a quote |
| Json.Quote | script.js:145 | a string literal starts and ends with a quote, and its body reads back as the string |
| Json.Serialize | script.js:145 | the text is non-empty, and its first character tells the kind: a quote exactly for a string, `[` for an array, `{` for an object, a digit or `-` for a number |
| Json.SerializeItems | script.js:145 | the elements' text is empty exactly when there are no elements |
| Json.SerializeFields | script.js:145 | the members' text is empty exactly when there are no members, and otherwise starts with a key's quote |
| Json.SerializeField | script.js:145 | a member is its quoted key, a colon, then a non-empty value |
| Json.Escape | script.js:145 | the escaped text is no shorter than the string, and it has no quote when the string has none |
| Json.UnescapeEscape | script.js:145 | reading the escaped body of a string back gives that string |
| Json.UnescapeEscapeAppend | script.js:145 | the same, in front of any text |
| Json.EscapePlain | script.js:145 | a string of plain characters is written as it is |
| Json.EscapeAppend | script.js:145 | escaping distributes over concatenation |
| Json.Embedded | script.js:145 | the escaped form of every string value and key of a tree appears in its serialisation |
| JsValue.Truthy | script.js:121-149 | the falsy values are exactly undefined, null, false, 0 and the empty string |
| JsValue.TypeOf | script.js:128 | `typeof` is "object" exactly for null, arrays and objects, "undefined" for undefined, "function" for the inherited link method |
| JsValue.IsArray | script.js:128 | Array.isArray holds exactly for a decoded array |
| JsValue.Lookup | script.js:121-131 | a property read is undefined exactly when no field has that key, and otherwise yields a field with that key |
| JsValue.Get | script.js:121-131 | a property read on an object looks up its fields; `link` on a string is the inherited String.prototype.link function; any other key on a string, and any key on a boolean, number or array, is undefined |
| JsValue.OptionalGet | script.js:130 | `?.` on undefined or null is undefined |
| JsValue.At | script.js:130 | an index read is defined exactly within the array's bounds, and it gives that element |
| JsValue.Or | script.js:121-122 | JavaScript's logical or is one of its two operands, and it is truthy iff either operand is |
| ShowResult.Title | script.js:121 | the title is always truthy: `data.title` when that is truthy, else "Video descargado" |
| ShowResult.Thumbnail | script.js:122 | the thumbnail is always truthy: the first truthy one of `picture` and `thumbnail`, else the placeholder image |
| ShowResult.Resolve | script.js:121-152 | the outcome is the missing-link failure exactly when the final link is falsy; otherwise it holds the title, thumbnail and link, all three truthy |
| ShowResult.ResolveSteps | script.js:121-152 | the three reassignments of `downloadUrl` end in the same outcome as `Resolve` |
| ShowResult.HasLinksArray | script.js:128 | the test on `data.links` holds exactly when `data.links` is an array |
| ShowResult.LinkCandidate | script.js:126-133 | with a `links` array only its first element matters: none gives undefined, an object gives its own `link` field, a string the inherited link method, any other value undefined; without one, a truthy `url` is taken as it is, else the candidate is null |
| ShowResult.FirstLinkDecides | script.js:130 | two `links` arrays with the same first element give the same candidate, whatever follows it |
| ShowResult.DownloadUrl | script.js:142-147 | a truthy candidate is kept; a falsy one is replaced by the scan's match when there is one; the link is truthy exactly when the candidate is or the scan matches |
| ShowResult.LinksArrayDecides | script.js:128-130 | when `links` is an array, the candidate depends on that array alone, and `url` is not consulted |
| ShowResult.EmptyLinksShadowUrl | script.js:128-130 | an empty `links` array gives an undefined candidate, whatever `url` holds |
| ShowResult.StringLinkIsTruthy | script.js:130 | a string as first element of `links` gives the truthy String.prototype.link function as the link |
| ShowResult.UrlTakenVerbatim | script.js:131-132 | with no `links` array, a truthy `url` is the link verbatim, with no extension check |
| ShowResult.SourcePageUrlAccepted | script.js:131-132 | `{"url":"https://example.com/source-page"}` resolves to that page URL, with the default title and thumbnail |
| ShowResult.ScanNeverOverrides | script.js:142 | the scan never replaces a truthy link found earlier |
| ShowResult.ScanFindsLeftmost | script.js:142-146 | without an earlier link, the link is the leftmost match in the serialised body, and the longest one at that position; it starts with `http://` or `https://`, ends with `.mp4` and holds no quote |
| ShowResult.NoLinkIff | script.js:142-152 | the missing-link failure happens exactly when there is no truthy candidate and the serialised body has no match |
| ShowResult.EscapeKeepsMp4Url | script.js:145 | serialising a whole match keeps it a whole match |
| ShowResult.EmbeddedMp4UrlFound | script.js:142-152 | without an earlier link, any well-formed `.mp4` URL stored as a string value or key somewhere in the body makes the scan succeed with a well-formed `.mp4` URL |
| ShowResult.ScanHitResolves | script.js:145-152 | a match taken by the scan is a truthy link, so a card is shown |
| Mp4Scan.Match | script.js:145 | a match is in the pattern's language; no match means no substring is in it |
| Mp4Scan.Leftmost | script.js:145 | the start found is the leftmost one from where the search begins; at it the end is the longest; none found means there is no match at all from there |
| Mp4Scan.LongestAt | script.js:145 | the longest match at one position, or the fact that there is none |
| Mp4Scan.IsMatchIff | script.js:145 | a match at a position is exactly a scheme, a quote-free stretch before the next quote, and `.mp4` |
| Mp4Scan.MatchIsLeftmostLongest | script.js:145 | the match is the text between a leftmost start and the longest end there |
| Mp4Scan.Mp4UrlShape | script.js:145 | a match starts with `http://` or `https://`, is at least 12 long, ends with `.mp4` and holds no quote |
| Mp4Scan.MatchFindsEmbedded | script.js:145 | a whole match anywhere in the text means the scan finds a match that starts no later |

## Left out

- DOM and UI: element lookups, event listeners, the modal, loading state,
  and the HTML card template (script.js:1-43, 154-197). The model returns
  the values that would be rendered (`ShowResult.Media`) and the last
  message shown (`HandleDownload.Screen`).
- HandleDownload.HandleDownload and HandleDownload.HandleDownloadAsWritten
  assume the card template (script.js:154-169) renders without throwing.
  In the source, an object whose own `toString` is not callable, used as
  the title, thumbnail or link, makes the template literal throw a
  TypeError. For example, `{"title":{"toString":0},"url":"https://cdn.example.com/v.mp4"}`
  does this. The catch at script.js:70-72 then shows the generic failure
  message with no card. The model reports success with a card instead.
- The API key is a constant in the source (script.js:21), and the user is
  told to paste a key there. The model makes it a parameter (`apiKey`) of
  `VideoRequest.Build`, `HandleDownload.Sends` and both handlers, so that
  both the placeholder and a real key can be reasoned about.
- `console.log`, `console.warn` and `console.error` have no effect on the
  outcome and are not modelled.
- `fetch`, `async`/`await` and `response.json()` are network I/O and a
  built-in parser. Their outcome is a parameter (`VideoRequest.Reply`): a
  network error, or a status with a parsed tree or an unparsable body.
- The empty `if` block at script.js:137-140 does nothing and is not
  modelled.
- JSON numbers are integers (`Json.JNumber`). Fractions, the exponent form
  and NaN are not modelled. Truthiness needs only zero versus non-zero, and
  the scan needs only that a number's text holds no quote and no letter.
- Json.Escape: escaping is keyed on Unicode scalar values. UTF-16 lone
  surrogates in strings (escaped as `\uDXXX` by JSON.stringify) cannot
  occur. For the same reason, Json.UnescapeFront rejects `\u` escapes of
  surrogates, including the pairs.
- UriComponent.Encode: the `URIError` that `encodeURIComponent` throws for
  a lone surrogate is ruled out by the input type. Dafny strings are
  sequences of scalar values.
- The order of an object's properties is taken as given by the field list.
  `JSON.parse` keeps the last of duplicate keys, while `JsValue.Lookup`
  takes the first. Parsed objects have distinct keys, so the two agree.
- JsValue.Get: of the properties inherited from built-in prototypes, only
  `String.prototype.link` is modelled, since only it is reachable (through
  `links[0]?.link`). `title`, `picture`, `thumbnail`, `links` and `url` read
  on a non-object are undefined.
- HTML injection through the template is a rendering concern and is not
  modelled.

## Findings

| source | as written | input that shows it | evidently intended | confidence | as-written member | corrected member |
|---|---|---|---|---|---|---|
| script.js:64-66 | after `showResult(data)` returns, line 66 always shows "¡Video encontrado con éxito!" as a success. When showResult has just shown "No se pudo extraer el enlace de descarga del video." because no link was found, that error is replaced, and the user is told the video was found with no card shown | key set, input `https://example.com/v`, status 200, body `{"links":[]}` | the missing-link error stays, and success is reported only when a card is shown | high, not executed | HandleDownload.HandleDownloadAsWritten (HandleDownload.EmptyLinksShownAsSuccess, HandleDownload.AsWrittenHidesMissingLink) | HandleDownload.HandleDownload (HandleDownload.TruthyBodyOutcome) |
