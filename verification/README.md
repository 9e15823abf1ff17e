# A verified model of a small HTTP/1.1 client and server

The modelled system is a teaching-sized HTTP/1.1 stack written in Java. It has
two halves.

The server half:

- reads requests from a socket (`RequestParser`, `HttpRequest`);
- routes them by method and path (`Router`, `HttpServer.configureRoutes`) to
  handlers: registration and login against an in-memory user store
  (`RegisterHandler`, `LoginHandler`, `UserStore`, `JsonUtils`), two redirect
  demos, a status and an error endpoint, and a static-file handler with
  `If-Modified-Since` revalidation (`StaticFileHandler`, `MimeTypes`);
- writes responses built by `ResponseBuilder` / `HttpResponse` on a
  keep-alive connection loop (`ClientHandler`).

The client half:

- builds request text (`HttpRequestBuilder`);
- parses responses, including chunked bodies (`HttpResponseParser`);
- keeps one reusable connection, a `Last-Modified` cache and a redirect loop
  with a bound (`HttpClient`).

The Dafny project states each of these as pure functions over immutable data:

- bytes are `seq<byte>`;
- text is `string`;
- header maps are ordered lists of fields;
- the user store is a `map`;
- the file system is a `map` from path to file entry;
- the network is a function from the request bytes sent to the reply bytes.

Each operation is tied to a partner by a lemma over all inputs:

- each wire format by its parser (a request built by the client is parsed back
  by the server, a response built by the server is parsed back by the client,
  chunked bodies, header blocks, URLs, status lines, query strings, JSON
  escaping);
- each handler by an independent description of its outcome;
- the connection loop and the redirect loop by the invariants they keep.

One module per source class:

| module | file | models |
|---|---|---|
| `Wrappers` | wrappers.dfy | `Option` / `Result` |
| `Bytes` | bytes.dfy | UTF-8 encoding of text, byte-per-char decoding |
| `Numbers` | numbers.dfy | `Integer.parseInt`, `String.valueOf`, hex formatting |
| `Text` | text.dfy | `String.indexOf`, `trim`, `split`, `toLowerCase`, `equalsIgnoreCase` |
| `Methods` | methods.dfy | `HttpMethod` |
| `Status` | status.dfy | `HttpStatus` |
| `Headers` | headers.dfy | the header maps of requests and responses |
| `Wire` | wire.dfy | `readLine`, header blocks, fixed and chunked bodies |
| `HttpRequest` | request.dfy | `HttpRequest` |
| `RequestParser` | request_parser.dfy | `RequestParser` |
| `HttpResponse` | response.dfy | `HttpResponse` |
| `Json` | json.dfy | `JsonUtils` |
| `ResponseBuilder` | response_builder.dfy | `ResponseBuilder` |
| `Mime` | mime.dfy | `MimeTypes` |
| `UserStore` | user_store.dfy | `UserStore` |
| `RegisterHandler`, `LoginHandler` | register_handler.dfy, login_handler.dfy | the two API handlers |
| `StaticFiles` | static_files.dfy | `StaticFileHandler` |
| `Router` | router.dfy | `Router` |
| `ServerRoutes` | server_routes.dfy | `HttpServer.configureRoutes` |
| `ClientHandler` | client_handler.dfy | the per-connection keep-alive loop |
| `ResponseParser` | response_parser.dfy | `HttpResponseParser` |
| `RequestBuilder` | request_builder.dfy | `HttpRequestBuilder` |
| `Url` | url.dfy | the part of `java.net.URI` the client uses |
| `Client` | client.dfy | `HttpClient` |

## Model

| member | source | states |
|---|---|---|
| Methods.ValueOf | src/common/HttpMethod.java:16-25 | `valueOf` finds the constant whose name is exactly the token, and fails only when no constant has that name |
| Methods.FromString | src/common/HttpMethod.java:16-25 | `fromString` upper-cases the token and returns the constant of that name, null maps to UNKNOWN, and any token naming a constant yields that constant |
| Methods.FromStringIgnoresCase | src/common/HttpMethod.java:16-25 | every spelling of a method name in any letter case resolves to that method |
| Methods.FromStringName | src/common/HttpMethod.java:16-25 | reading back the name a method is written with gives the same method (the name/parse round trip) |
| Methods.FromStringExamples | src/common/HttpMethod.java:16-25 | "get" and "GeT" are GET, an unknown verb such as "FETCH" is UNKNOWN |
| Methods.NameInjective | src/common/HttpMethod.java:6-14 | no two methods share a name |
| Methods.AllMethodsComplete | src/common/HttpMethod.java:6-14 | the list the lookup searches holds every method |
| Status.FromCode | src/common/HttpStatus.java:44-51 | `fromCode` returns the status with that numeric code, and INTERNAL_SERVER_ERROR exactly when no status has it |
| Status.FromCodeOfCode | src/common/HttpStatus.java:44-51 | looking up a status's own code returns that status (code/lookup round trip) |
| Status.FromCodeUnknown | src/common/HttpStatus.java:44-51 | an unlisted code falls back to 500 |
| Status.CodesDistinct | src/common/HttpStatus.java:8-26 | the enum's codes are pairwise distinct, so lookup by code is unambiguous |
| Status.CodeRange | src/common/HttpStatus.java:8-26 | every listed code lies between 200 and 503 |
| Status.ToString | src/common/HttpStatus.java:53-56 | the text opens with the code's decimal digits, and what follows them is one space and the reason phrase |
| HttpResponse.StatusTextReadsBack | src/server/response/HttpResponse.java:115 | a space-free version, one space and the status's `toString` text is the status line the server writes; the client's status-line parser splits it back into that version, code and reason, and `fromCode` of the code gives the same status |
| Status.FindByCode | src/common/HttpStatus.java:44-51 | the search over the constants returns one whose code matches, and nothing exactly when none matches |
| Bytes.Utf8 | src/server/response/HttpResponse.java:79-85 | `getBytes("UTF-8")` of one character takes 1 to 4 bytes, one exactly for ASCII, and that byte is the code point |
| Bytes.EncodeAppend | src/server/response/HttpResponse.java:79-85 | encoding distributes over concatenation, so a message written piecewise equals the message encoded at once |
| Bytes.DecodeEncode | src/server/request/HttpRequest.java:100-109 | decoding the bytes of ASCII text gives back the text |
| Bytes.Encode | src/server/response/HttpResponse.java:79-85 | UTF-8 never has fewer bytes than characters |
| Bytes.Decode | src/server/request/HttpRequest.java:100-109 | decoding gives one character per byte, with the byte as its code |
| Bytes.EncodeAscii | src/server/response/HttpResponse.java:115-117 | ASCII text is written one byte per character, each byte the character's code |
| Bytes.EncodeCrlf | src/common/HttpConstants.java:12 | the line terminator is written as the two bytes CR LF |
| Numbers.ParseInt | src/server/request/HttpRequest.java:119-129 | `Integer.parseInt` succeeds only on non-empty text and only with a value inside the 32-bit range |
| Numbers.ParseIntToString | src/server/response/HttpResponse.java:72-77 | the decimal text written for a length parses back to the same number |
| Numbers.ParseHexString | src/client/HttpResponseParser.java:124-129 | a chunk size written in hex parses back with radix 16 |
| Numbers.MagnitudeOfDigits | src/server/request/HttpRequest.java:119-129 | the digits produced for a number are all digits of the radix and denote that number |
| Numbers.DigitValue | src/client/HttpResponseParser.java:124-129 | a character read as a digit of a radix is below the radix |
| Numbers.DigitChar | src/client/HttpResponseParser.java:124-129 | the character written for a digit reads back as that digit |
| Numbers.DigitsAreDigits | src/client/HttpResponseParser.java:124-129 | every character written for a number is a digit of the radix |
| Numbers.IntToStringChars | src/server/response/HttpResponse.java:72-77 | a number is written as non-empty text of digits and minus signs only |
| Text.IndexOf | src/server/request/HttpRequest.java:154 | `indexOf(c)` returns the first position of the character, or none exactly when it does not occur |
| Text.LastIndexOf | src/server/mime/MimeTypes.java:50 | `lastIndexOf(c)` returns the last position of the character, or none exactly when it does not occur |
| Text.IndexOfSubFrom | src/server/handler/JsonUtils.java:19-23 | `indexOf(sub, from)` returns the first occurrence at or after `from`, and none only when there is none |
| Text.ContainsIff | src/server/handler/StaticFileHandler.java:47 | `contains` holds exactly when the substring occurs at some position |
| Text.TrimStart | src/server/request/RequestParser.java:49-50 | trimming removes exactly the leading characters up to U+0020 |
| Text.TrimEnd | src/server/request/RequestParser.java:49-50 | trimming removes exactly the trailing characters up to U+0020 |
| Text.Trim | src/server/request/RequestParser.java:49-50 | `trim` returns one slice of its input with only characters up to U+0020 before and after it, and neither end of the result is such a character |
| Text.IndexOfSubFromFirst | src/server/handler/JsonUtils.java:19-23 | `indexOf` returns an occurrence that has no occurrence before it |
| Text.TrimIdempotent | src/server/handler/LoginHandler.java:30-38 | trimming twice is trimming once |
| Text.TrimEmptyIff | src/server/handler/LoginHandler.java:30-35 | the trimmed text is empty exactly when every character is blank, which is the handlers' blank test |
| Text.Utf16Length | src/server/handler/RegisterHandler.java:36-43 | `length()` counts UTF-16 units: at least one and at most two per character, and one each below U+10000 |
| Text.ToLower | src/server/mime/MimeTypes.java:55 | `toLowerCase` maps every character and keeps the length |
| Text.ToUpper | src/common/HttpMethod.java:16-25 | `toUpperCase` maps every character and keeps the length |
| Text.EqualsIgnoreCaseSym | src/server/request/HttpRequest.java:77-85 | case-insensitive header-name comparison is symmetric |
| Text.EqualsIgnoreCaseTrans | src/server/request/HttpRequest.java:77-85 | case-insensitive header-name comparison is transitive |
| Text.SplitJoin | src/server/request/HttpRequest.java:175-196 | `split(sep)` of parts joined by `sep` returns those parts when none contains `sep` and the last is non-empty |
| Text.JoinPieces | src/server/request/RequestParser.java:35 | splitting keeps every character: joining the pieces again restores the input |
| Text.SplitLimit | src/client/HttpResponseParser.java:71 | `split(" ", 3)` returns 1 to 3 pieces that join back to the line, with no separator inside any but the last |
| Text.SplitThree | src/server/request/RequestParser.java:35-38 | a request line of three space-free words splits into exactly those three |
| Text.IndexOfFrom | src/server/handler/JsonUtils.java:26-29 | `indexOf(c, from)` returns the first position at or after `from` holding c, and none only when no such position exists |
| Text.LastIndexOfAt | src/server/mime/MimeTypes.java:50 | a character occurring at i and nowhere after is found by `lastIndexOf` at i |
| Text.TrimSkipsBlank | src/server/request/RequestParser.java:49-50 | a leading blank character does not change the trimmed text |
| Text.TrimOfTrimmed | src/server/request/RequestParser.java:49-50 | text that starts and ends with a non-blank character is its own trim |
| Wire.TrimmedIsOwnTrim | src/server/request/RequestParser.java:49-50 | a header text is unchanged by `trim` exactly when neither end is a character up to U+0020 |
| Text.EqualsIgnoreCaseRefl | src/server/request/HttpRequest.java:77-85 | every name equals itself ignoring case |
| Text.ToUpperIgnoringCase | src/common/HttpMethod.java:16-25 | upper-casing does not change the text ignoring case |
| Text.Pieces | src/server/request/RequestParser.java:35 | splitting at a separator yields at least one piece |
| Text.PiecesJoin | src/server/request/HttpRequest.java:180 | cutting text joined with a separator at that separator gives back the parts when none contains it |
| Text.DropTrailingEmpty | src/server/request/RequestParser.java:35 | `split` drops exactly the trailing empty pieces, keeping the rest in order |
| Text.SplitLimitThree | src/client/HttpResponseParser.java:71 | `split(" ", 3)` of `a b rest` is `[a, b, rest]` when a and b have no space, whatever rest holds |
| Headers.Get | src/server/response/HttpResponse.java:60-62 | `get(name)` is absent exactly when no field has that exact name, and otherwise returns a stored field's value |
| Headers.Put | src/server/response/HttpResponse.java:64-66 | `put` replaces a present name in place and appends a new one, leaving every other field where it was |
| Headers.PutNames | src/server/response/HttpResponse.java:64-66 | the insertion order of a `LinkedHashMap` after `put`: names unchanged for a present name, the new name appended otherwise |
| Headers.PutUnique | src/server/response/HttpResponse.java:64-66 | `put` keeps names unique |
| Headers.GetPutSame | src/server/response/HttpResponse.java:64-66 | after `put(name, v)`, `get(name)` is `v` |
| Headers.GetPutOther | src/server/response/HttpResponse.java:64-66 | `put` of one name does not change `get` of another |
| Headers.GetPutAll | src/server/request/RequestParser.java:45-53 | after the header loop, each name read from the stream maps to its value, and the other names keep theirs |
| Headers.PutAllFresh | src/server/request/RequestParser.java:45-53 | distinct header names read in order are stored in that order |
| Headers.GetIgnoreCase | src/server/request/HttpRequest.java:77-85 | case-insensitive `getHeader` is null exactly when no name matches ignoring case, and otherwise returns a matching field's value |
| Headers.GetIgnoreCaseUnique | src/server/request/HttpRequest.java:77-85 | when exactly one field matches ignoring case, its value is returned |
| Headers.GetIgnoreCaseFindsExact | src/server/request/HttpRequest.java:77-85 | an exactly stored name is always found by the case-insensitive lookup |
| Headers.ContentLength | src/server/request/HttpRequest.java:119-129 | `getContentLength` is 0 without the header, the parsed 32-bit value of the trimmed header text when it is a decimal int, and 0 when it is not |
| Headers.ContentLengthOf | src/server/request/HttpRequest.java:119-129 | a single Content-Length field holding the decimal text of n yields n |
| Headers.KeepAlive | src/server/request/HttpRequest.java:135-142 | with a Connection header, keep-alive iff it equals "keep-alive" ignoring case; without one, iff the version is HTTP/1.1 |
| Headers.CloseIsNotKeepAlive | src/server/request/HttpRequest.java:135-142 | "Connection: close" ends keep-alive whatever the version |
| Headers.PutElements | src/server/response/HttpResponse.java:64-66 | after `put`, every field is the new one or was already there |
| Headers.PutAll | src/server/request/RequestParser.java:45-53 | storing a sequence of fields never loses one |
| Headers.ContentLengthExact | src/server/request/HttpRequest.java:119-129 | a Content-Length stored (in exact case) as the decimal text of a 32-bit n reads back as n |
| Wire.FindCrlfFrom | src/server/request/RequestParser.java:81-92 | the scan stops at the first CR LF pair at or after the start, and reports none only when there is none |
| Wire.ReadLine | src/server/request/RequestParser.java:76-100 | `readLine` returns null only at end of input and otherwise consumes at least one byte, leaving a suffix of the input |
| Wire.ReadLineLoop | src/server/request/RequestParser.java:76-100 | the byte-by-byte loop returns what `ReadLine` describes |
| Wire.ReadLineOfLine | src/server/request/RequestParser.java:76-100 | a printable line followed by CR LF reads back as that line, leaving the rest untouched |
| Wire.ParseField | src/server/request/RequestParser.java:47-52 | a header line without ':' is skipped, any other yields a field |
| Wire.ParseFieldText | src/server/request/RequestParser.java:47-52 | a line written as `Name: Value` (trimmed, no ':' in the name) parses back to the same name and value |
| Wire.ReadFieldsRoundTrip | src/server/response/HttpResponse.java:119-127 | a header block written one `Name: Value` line per field and closed by an empty line reads back as the same fields, leaving the rest |
| Wire.ReadFieldsOfLines | src/server/request/RequestParser.java:45-53 | reading a written header block stores each field with `put`, in order |
| Wire.ReadFixed | src/server/request/RequestParser.java:56-68 | the body buffer has exactly Content-Length bytes: the input's bytes where it has them and zeros past its end |
| Wire.ReadFixedExact | src/server/request/RequestParser.java:56-68 | reading n bytes from a body of n bytes returns that body and leaves the rest |
| Wire.ReadChunked | src/client/HttpResponseParser.java:115-153 | chunked decoding only appends to what it has and never consumes more than the input |
| Wire.ReadChunkedRoundTrip | src/client/HttpResponseParser.java:115-153 | a body sent as non-empty chunks (hex size line, bytes, CR LF, final `0`) decodes to the concatenation of the chunks |
| Wire.ReadChunkedLast | src/client/HttpResponseParser.java:131-135 | the zero-size chunk ends decoding after one more line |
| Wire.ReadFields | src/server/request/RequestParser.java:45-53 | the header loop consumes a prefix of the input and leaves the rest |
| HttpRequest.ParseUri | src/server/request/HttpRequest.java:147-170 | `parseUri` splits at the first '?': the path has no '?', path + "?" + query restores the URI; no '?' gives an empty query; null gives "/" |
| HttpRequest.PairKey | src/server/request/HttpRequest.java:180-191 | a pair's key is the text before its first '='; the whole pair when there is none |
| HttpRequest.PutPairsLastWins | src/server/request/HttpRequest.java:180-191 | in the parsed map a key holds the value of its last pair |
| HttpRequest.PutPairsUntouched | src/server/request/HttpRequest.java:180-191 | a key no pair names keeps its earlier value |
| HttpRequest.PutPairsKeys | src/server/request/HttpRequest.java:180-191 | every key of the parsed map was named by some pair or was already there |
| HttpRequest.FormData | src/server/request/HttpRequest.java:201-224 | form data is empty without a body, with an empty body, or when the Content-Type is missing or does not contain `application/x-www-form-urlencoded`; otherwise it is the parsed pairs of the body decoded as UTF-8 |
| RequestBuilder.FormRoundTrip | src/client/HttpRequestBuilder.java:87-106 | every pair `formBody` writes (distinct names, no `&` or `=` in names, no `&` in values, ASCII text) is read back by the server's `getFormData` with its value |
| RequestBuilder.FormPairsRoundTrip | src/server/request/HttpRequest.java:201-224 | a form body of joined pairs sent with the form Content-Type is parsed back by `getFormData` pair for pair |
| HttpRequest.FromRequestLine | src/server/request/RequestParser.java:40-42 | the request takes the method from the first word (case-insensitive), keeps URI and version, and its path and query restore the URI |
| HttpRequest.BodyAsString | src/server/request/HttpRequest.java:100-109 | `getBodyAsString` is null exactly when there is no body, and otherwise has one character per byte |
| HttpRequest.GetHeader | src/server/request/HttpRequest.java:77-85 | `getHeader` is null exactly when no stored name matches ignoring case |
| HttpRequest.PairValue | src/server/request/HttpRequest.java:180-191 | a pair's value is the text after its first '=', and empty when there is none |
| HttpRequest.PutPairs | src/server/request/HttpRequest.java:180-191 | storing pairs never removes a key |
| HttpRequest.ParsePairs | src/server/request/HttpRequest.java:175-196 | an empty query string gives an empty map; otherwise the keys are exactly the keys of the `&`-separated pairs, and each key holds the value of its last pair |
| HttpRequest.PutPairsMeaning | src/server/request/HttpRequest.java:180-191 | starting from an empty map, the keys are exactly the pairs' keys and the last pair of each key wins |
| HttpRequest.PutPairsNamed | src/server/request/HttpRequest.java:180-191 | every key a pair names is in the parsed map |
| RequestParser.Parse | src/server/request/RequestParser.java:23-71 | null (connection closed) exactly at end of input or on an empty first line; an error exactly when the line does not split into 3 words; a request always consumes input |
| RequestParser.ReadBody | src/server/request/RequestParser.java:56-68 | a positive Content-Length reads a body of exactly that many bytes; otherwise there is no body and nothing is consumed |
| RequestParser.RejectedLine | src/server/request/RequestParser.java:35-38 | a non-empty line that does not split into exactly 3 words throws |
| RequestParser.DoubleSpaceRejected | src/server/request/RequestParser.java:35-38 | a request line with two spaces between the method and the URI throws, because `split(" ")` keeps the empty word |
| RequestParser.ParseRoundTrip | src/server/request/RequestParser.java:23-71 | a request line, a block of distinct well-formed headers and a body of the declared length parse back to that method, URI, version, headers and body, leaving the rest of the stream |
| RequestParser.RequestLineIsLine | src/server/request/RequestParser.java:35-38 | a request line of three tokens is a single printable line that splits back into those tokens |
| RequestParser.ParseAfterLine | src/server/request/RequestParser.java:23-71 | after a well-formed request line, parsing reads the header block and then the body |
| HttpResponse.New | src/server/response/HttpResponse.java:29-37 | a new response is `HTTP/1.1 200` with no body and exactly the Server and Date headers, in that order |
| HttpResponse.SetHeader | src/server/response/HttpResponse.java:64-66 | `setHeader` stores the value under the name and changes no other header, the status or the body |
| HttpResponse.SetBody | src/server/response/HttpResponse.java:72-77 | `setBody` stores the bytes and sets Content-Length to their count; a null body leaves the headers as they were |
| HttpResponse.SetBodyText | src/server/response/HttpResponse.java:79-85 | a text body is stored as its UTF-8 bytes |
| HttpResponse.SetKeepAlive | src/server/response/HttpResponse.java:91-98 | keep-alive sets "Connection: keep-alive" and the Keep-Alive parameters; otherwise "Connection: close" and Keep-Alive untouched |
| HttpResponse.Build | src/server/response/HttpResponse.java:111-135 | the bytes start with the status line and CR LF and end with the body when there is one; with no or an empty body they are the head alone |
| HttpResponse.StatusLineIsLine | src/server/response/HttpResponse.java:115-117 | every status line the server writes is printable text with no CR or LF |
| HttpResponse.SetBodyWellFormed | src/server/response/HttpResponse.java:72-77 | after `setBody` the Content-Length header reads back as the body's length |
| HttpResponse.BuildParseRoundTrip | src/server/response/HttpResponse.java:111-135 | the bytes `build()` writes for a response with a body are parsed by the client's `HttpResponseParser` into the same version, code, reason, headers and body, leaving the rest of the stream |
| HttpResponse.ContentLengthFieldWellFormed | src/server/response/HttpResponse.java:72-77 | the Content-Length line written for any length is a well-formed header line |
| HttpResponse.ParseBuilt | src/server/response/HttpResponse.java:111-135 | a built response whose header block and body read back are parsed as that response |
| Json.EscapeChar | src/server/handler/JsonUtils.java:78-115 | no escaped character is below U+0020, a character stays as itself exactly when it is not below U+0020 and is neither quote nor backslash, and a quote is always preceded by a backslash |
| Json.Escape | src/server/handler/JsonUtils.java:78-115 | `escapeJson` output has no control character and is never shorter than its input |
| Json.UnescapeEscape | src/server/handler/JsonUtils.java:78-166 | `unescapeJson(escapeJson(s)) == s` for every text whose control characters have short escapes |
| Json.UnescapeKeepsUnknown | src/server/handler/JsonUtils.java:120-166 | a backslash before a letter with no meaning is kept together with that letter |
| Json.EscapeQuotesEscaped | src/server/handler/JsonUtils.java:78-115 | every quote in escaped text is preceded by a backslash, so it cannot end a string value |
| Json.BuildResponse | src/server/handler/JsonUtils.java:63-65 | the body starts `{"code":<code>,"message":"` and ends `"}` |
| Json.BuildResponseMessage | src/server/handler/JsonUtils.java:63-65 | `getString(buildResponse(code, m), "message")` is m for every m whose control characters have short escapes |
| Json.BuildResponseWith | src/server/handler/JsonUtils.java:70-73 | the body with a data field starts with the same code and message prefix |
| Json.BuildResponseWithMessage | src/server/handler/JsonUtils.java:70-73 | `getString` reads the message back out of a reply with a data field |
| Json.BuildResponseWithData | src/server/handler/JsonUtils.java:70-73 | `getString` reads the data value back under its key when nothing before it looks like the quoted key: the key does not start with a character that follows a quote earlier in the reply, and the message has no quote |
| Json.KeyAfterQuotes | src/server/handler/JsonUtils.java:19-23 | the quoted key is first found right after a prefix in which no quote is followed by the key's first character |
| Json.EscapeNoQuote | src/server/handler/JsonUtils.java:78-115 | text without a quote escapes to text without a quote |
| Json.SkipWhitespace | src/server/handler/JsonUtils.java:32-35 | the value start skips exactly the run of `Character.isWhitespace` characters |
| Json.ValueText | src/server/handler/JsonUtils.java:13-39 | a value is found only when the quoted key occurs in the text; null inputs give null |
| Json.GetString | src/server/handler/JsonUtils.java:13-58 | (corrected) the value is found exactly when a closing quote follows the opening one, skipping escaped characters |
| Json.GetStringField | src/server/handler/JsonUtils.java:13-58 | (corrected) for an object `"key":"<escaped v>"` whose first mention of the key is that field, `getString` returns exactly v |
| Json.ClosingQuoteAfterEscape | src/server/handler/JsonUtils.java:42-49 | (corrected) the closing-quote scan over escaped text stops exactly at the quote written after it |
| Json.GetStringAsWritten | src/server/handler/JsonUtils.java:13-58 | (as written) the value ends at the first quote whose previous character is not a backslash |
| Json.GetStringAsWrittenField | src/server/handler/JsonUtils.java:13-58 | (as written) the round trip holds only when the value does not end with a backslash |
| Json.TrailingBackslashLost | src/server/handler/JsonUtils.java:42-49 | (as written) `{"k":"a\\"}` gives no value for "k", whereas the corrected scan gives `a\` |
| Json.QuoteAsWrittenMisses | src/server/handler/JsonUtils.java:45 | (as written) the scan passes over the closing quote that follows an escaped backslash |
| Json.HexDigit | src/server/handler/JsonUtils.java:108 | the four-digit `\uXXXX` escape of a control character uses lower-case hex digits |
| Json.EscapeJson | src/server/handler/JsonUtils.java:78-115 | null escapes to the empty text and no escaped character is a control character |
| Json.Unescape | src/server/handler/JsonUtils.java:120-166 | unescaping never lengthens the text |
| Json.UnescapeSnoc | src/server/handler/JsonUtils.java:120-166 | a lone backslash at the end of the text is kept |
| Json.QuoteAsWrittenFrom | src/server/handler/JsonUtils.java:42-49 | (as written) the scan stops at the first quote whose previous character is not a backslash, passing every other quote |
| Json.ClosingQuote | src/server/handler/JsonUtils.java:42-49 | (corrected) the closing position found holds a quote |
| Json.KeyFirstInObject | src/server/handler/JsonUtils.java:19-23 | in a one-field object the quoted key is found right after the opening brace |
| ResponseBuilder.ReplaceChainIsEscapeEach | src/server/response/ResponseBuilder.java:168-177 | the five chained `replace` calls escape each character independently (backslash first, so no escape is doubled) |
| ResponseBuilder.UnescapeEscapeJson | src/server/response/ResponseBuilder.java:168-177 | the error-body escaping is undone by the server's own `unescapeJson` |
| ResponseBuilder.EscapeJsonNoBreaks | src/server/response/ResponseBuilder.java:168-177 | null escapes to "" and escaped text contains no newline, carriage return or tab |
| ResponseBuilder.ErrorJsonMessage | src/server/response/ResponseBuilder.java:99-105 | an error body is `{"code":N,"message":"…"}` and the message field unescapes to the message passed in |
| ResponseBuilder.Page | src/server/response/ResponseBuilder.java:14-58 | every factory's response has the given status, HTTP/1.1, the body, its Content-Type, a matching Content-Length, Server and Date |
| ResponseBuilder.Ok | src/server/response/ResponseBuilder.java:14-18 | `ok()` is 200 with no body and the default headers |
| ResponseBuilder.OkText | src/server/response/ResponseBuilder.java:23-28 | `ok(body)` is 200, text/plain, the body's UTF-8 bytes and their count |
| ResponseBuilder.Html | src/server/response/ResponseBuilder.java:33-38 | `html` is 200 with text/html and the content's bytes |
| ResponseBuilder.JsonPage | src/server/response/ResponseBuilder.java:43-48 | `json` is 200 with application/json, the content's bytes and their count |
| ResponseBuilder.Binary | src/server/response/ResponseBuilder.java:53-58 | `binary` is 200 with the given content type, the bytes unchanged and their count |
| ResponseBuilder.MovedPermanently | src/server/response/ResponseBuilder.java:63-71 | 301 with Location set to the target and an HTML page linking to it |
| ResponseBuilder.Found | src/server/response/ResponseBuilder.java:76-84 | 302 with Location set to the target and an HTML page linking to it |
| ResponseBuilder.NotModified | src/server/response/ResponseBuilder.java:89-94 | 304 carries neither a body nor a Content-Length |
| ResponseBuilder.BadRequest | src/server/response/ResponseBuilder.java:99-105 | 400 with a JSON error body carrying code 400 and the escaped message |
| ResponseBuilder.NotFound | src/server/response/ResponseBuilder.java:110-117 | 404 with the fixed HTML page |
| ResponseBuilder.NotFoundMessage | src/server/response/ResponseBuilder.java:122-128 | 404 with a JSON error body carrying code 404 |
| ResponseBuilder.MethodNotAllowed | src/server/response/ResponseBuilder.java:133-140 | 405 with the fixed HTML page |
| ResponseBuilder.InternalServerError | src/server/response/ResponseBuilder.java:145-152 | 500 with the fixed HTML page |
| ResponseBuilder.InternalServerErrorMessage | src/server/response/ResponseBuilder.java:157-163 | 500 with a JSON error body carrying code 500 and the message |
| ResponseBuilder.FactoryCodesRecognised | src/client/HttpResponseParser.java:228-234 | the codes the server's redirect and not-modified factories send are the ones the client's `isRedirect` / `isNotModified` recognise |
| ResponseBuilder.Replace | src/server/response/ResponseBuilder.java:168-177 | `replace(c, rep)` leaves no c when rep has none, and leaves text without c as it is |
| ResponseBuilder.EscapeEach | src/server/response/ResponseBuilder.java:168-177 | escaping never shortens the text |
| ResponseBuilder.UnescapeEscapeEach | src/server/response/ResponseBuilder.java:168-177 | the server's own `unescapeJson` restores any text escaped by the error-body escaping |
| ResponseBuilder.Redirect | src/server/response/ResponseBuilder.java:63-84 | a redirect has its status, Location set to the target, text/html and the page linking to the target |
| Mime.Extension | src/server/mime/MimeTypes.java:50-55 | the extension is the lower-cased suffix from the last '.', and absent exactly when there is no '.' |
| Mime.MimeType | src/server/mime/MimeTypes.java:45-59 | the table entry for the extension, and application/octet-stream exactly for null, no dot or an unknown extension |
| Mime.TypesKeys | src/server/mime/MimeTypes.java:13-37 | every key of the table is a lower-case '.' suffix with no further dot, so every entry is reachable |
| Mime.MimeTypeOfKnownSuffix | src/server/mime/MimeTypes.java:45-59 | a file ending in a known extension gets that extension's type |
| Mime.MimeTypeIgnoresCase | src/server/mime/MimeTypes.java:55 | the extension's letter case does not matter |
| Mime.LastDotDecides | src/server/mime/MimeTypes.java:50-58 | only the last extension counts: `x.html.bak` is application/octet-stream |
| Mime.TextTypes | src/server/mime/MimeTypes.java:64-72 | a table type is text exactly for .html .htm .css .js .json .xml .txt .svg |
| Mime.ImageTypes | src/server/mime/MimeTypes.java:77-82 | a table type is an image exactly for .png .jpg .jpeg .gif .ico .svg .webp |
| Mime.OctetStreamIsBinary | src/server/mime/MimeTypes.java:64-82 | the fallback type is neither text nor image |
| Mime.ExtensionAt | src/server/mime/MimeTypes.java:50-55 | the extension is the lower-cased suffix from the last dot |
| Mime.ExtensionOfSuffix | src/server/mime/MimeTypes.java:50-55 | a name ending in a dot suffix with no further dot has that suffix, lower-cased, as extension |
| Mime.ScriptIsText | src/server/mime/MimeTypes.java:64-72 | application/javascript with a charset counts as text |
| Mime.JsonIsText | src/server/mime/MimeTypes.java:64-72 | application/json with a charset counts as text |
| Mime.XmlIsText | src/server/mime/MimeTypes.java:64-72 | application/xml counts as text |
| Mime.SvgIsText | src/server/mime/MimeTypes.java:64-82 | image/svg+xml counts as text |
| UserStore.Register | src/server/handler/UserStore.java:21-29 | registration succeeds exactly for a non-null, non-empty name and password whose name is free; it adds that one user and keeps every other; a refusal changes nothing |
| UserStore.Clear | src/server/handler/UserStore.java:71-73 | after `clear` no user exists and the count is 0 |
| UserStore.RegisterThenLogin | src/server/handler/UserStore.java:21-52 | after a successful registration the user exists, logs in with that password, the count grew by one, and no other user changed |
| UserStore.RegisterFailsUnchanged | src/server/handler/UserStore.java:21-45 | a refused registration changes neither the count nor any login's outcome |
| UserStore.Login | src/server/handler/UserStore.java:38-45 | a successful login names a registered user |
| RegisterHandler.Validate | src/server/handler/RegisterHandler.java:16-43 | an empty or missing body is rejected with "请求体不能为空", and otherwise the fields read by the corrected `getString` scan are checked |
| RegisterHandler.CheckFields | src/server/handler/RegisterHandler.java:24-43 | checks in order: blank name, blank password, untrimmed name length outside 3..20, password shorter than 6; accepted exactly when all pass |
| RegisterHandler.Enrol | src/server/handler/RegisterHandler.java:46-55 | a free name is stored and answered 200 "注册成功"; a taken one leaves the store unchanged and is answered 400 "用户名已存在" |
| RegisterHandler.Respond | src/server/handler/RegisterHandler.java:28-55 | a rejected check is a 400 with its message and no change; an accepted one registers the trimmed name |
| RegisterHandler.Handle | src/server/handler/RegisterHandler.java:16-57 | a null body is a 400 "请求体不能为空"; a rejected body is a 400 with the failed check's message; an accepted body with a taken trimmed name is a 400 "用户名已存在"; a free one is stored with its password and answered 200 "注册成功"; the store changes exactly in that last case |
| RegisterHandler.PaddingCounted | src/server/handler/RegisterHandler.java:36-46 | a leading space adds one to the length the 3..20 rule sees, yet the registered (trimmed) name is the same |
| RegisterHandler.UntrimmedLengthCheck | src/server/handler/RegisterHandler.java:36-46 | the length rule is applied before trimming: `" ab"` passes validation with a strong password and the two-letter name "ab" is what is registered |
| LoginHandler.CheckFields | src/server/handler/LoginHandler.java:30-35 | login rejects a blank name, then a blank password, and accepts otherwise |
| LoginHandler.Validate | src/server/handler/LoginHandler.java:18-35 | an empty body is rejected first, and the fields come from the corrected `getString` scan |
| LoginHandler.Authenticate | src/server/handler/LoginHandler.java:38-49 | matching credentials give 200 with the token in the body, anything else 401 "用户名或密码错误" |
| LoginHandler.Respond | src/server/handler/LoginHandler.java:30-49 | a rejected check is a 400 with its message; an accepted one authenticates with the trimmed name |
| LoginHandler.Handle | src/server/handler/LoginHandler.java:18-51 | a rejected body is a 400 with the failed check's message; an accepted body is a 200 with the token exactly when the store holds the trimmed name with that password, and a 401 "用户名或密码错误" otherwise |
| LoginHandler.TokenReadsBack | src/server/handler/LoginHandler.java:38-45 | the token and the message of a successful login read back out of the reply with `getString` |
| LoginHandler.RegisterAcceptsLoginAccepts | src/server/handler/LoginHandler.java:18-35 | any body registration accepts, login accepts with the same fields |
| LoginHandler.LoginRejectsOnlyBlank | src/server/handler/LoginHandler.java:18-35 | whatever login rejects, registration rejects with the same message |
| LoginHandler.RegisteredUserLogsIn | src/server/handler/LoginHandler.java:38-49 | the same accepted fields register with 200 and then log in with 200; against an empty store they get 401 |
| StaticFiles.TruncateToSecond | src/server/handler/StaticFileHandler.java:62-63 | the modification time is cut to a whole second, never later than the file's time and less than a second earlier |
| StaticFiles.TruncateIdempotent | src/server/handler/StaticFileHandler.java:62-63 | truncating twice is truncating once |
| StaticFiles.Resolve | src/server/handler/StaticFileHandler.java:42-44 | "/" is served as "/index.html" and every other path as itself |
| StaticFiles.DropTrailingSlashes | src/server/handler/StaticFileHandler.java:52 | `new File(root, path)` drops the trailing '/' characters: the result is a prefix, only slashes were dropped, and it does not end in '/' |
| StaticFiles.LastSegment | src/server/handler/StaticFileHandler.java:83 | the text after the last '/' holds no '/' and is a suffix preceded by '/' |
| StaticFiles.FileName | src/server/handler/StaticFileHandler.java:52-83 | `file.getName()` holds no '/', sits after a '/' or at the start with only slashes after it, and is empty only for a path of slashes |
| StaticFiles.FileNameTrailingSlash | src/server/handler/StaticFileHandler.java:52-83 | a trailing '/' does not change the file's name |
| StaticFiles.MimeOfLastSegment | src/server/handler/StaticFileHandler.java:83 | the MIME type of the last segment equals that of the whole text |
| StaticFiles.MimeOfFileName | src/server/handler/StaticFileHandler.java:52-83 | the MIME type of the file's name equals that of the path without its trailing '/' characters |
| StaticFiles.Handle | src/server/handler/StaticFileHandler.java:33-93 | 405 exactly for non-GET; 400 exactly when the path contains ".."; 404 exactly when it is no regular file; otherwise the file is served |
| StaticFiles.HandleGet | src/server/handler/StaticFileHandler.java:39-93 | after the method check: 400 exactly on "..", 404 exactly on a missing file, otherwise the file is served |
| StaticFiles.Lookup | src/server/handler/StaticFileHandler.java:52-93 | a missing file is 404, and any present file ends in 200, 304 or 500 |
| StaticFiles.ServeFile | src/server/handler/StaticFileHandler.java:59-92 | 304 with Last-Modified and no body when the client's date is not older than the truncated time; otherwise 200 with the bytes, the MIME type of the path without trailing '/' and Last-Modified, or 500 "Failed to read file" when reading fails |
| StaticFiles.Unmodified | src/server/handler/StaticFileHandler.java:70-72 | the 304 answer has no body and carries Last-Modified |
| StaticFiles.Contents | src/server/handler/StaticFileHandler.java:81-88 | the 200 answer carries the bytes, the type by the extension of the path without trailing '/', and Last-Modified |
| StaticFiles.IndexAlias | src/server/handler/StaticFileHandler.java:42-44 | a request for "/" is answered as a request for "/index.html" |
| StaticFiles.ServedPath | src/server/handler/StaticFileHandler.java:33-93 | a 200 or 304 is only ever given to a GET of an existing regular file without ".." |
| StaticFiles.NoTraversal | src/server/handler/StaticFileHandler.java:47-49 | no request whose path contains ".." is served |
| StaticFiles.RevalidateUnchanged | src/server/handler/StaticFileHandler.java:59-73 | sending back the Last-Modified of a 200 as If-Modified-Since yields 304 with no body while the file is unchanged, for any date codec that reads back every whole second from 1970 on |
| StaticFiles.RevalidateChanged | src/server/handler/StaticFileHandler.java:59-88 | a file modified after the client's date is sent again in full |
| StaticFiles.UnconditionalNeverNotModified | src/server/handler/StaticFileHandler.java:65 | without If-Modified-Since the answer is never 304 |
| StaticFiles.CleanBeforeResolve | src/server/handler/StaticFileHandler.java:42-49 | the ".." test on the resolved path also rules it out of the requested path |
| Router.New | src/server/router/Router.java:21-26 | a new router has an empty table for every method and no default handler |
| Router.Add | src/server/router/Router.java:31-58 | registering maps the path under that method only (replacing an earlier handler) and leaves the other methods and the default alone |
| Router.SetDefault | src/server/router/Router.java:63-66 | `setDefaultHandler` changes only the default |
| Router.RegisteredElsewhereIff | src/server/router/Router.java:90-94 | the loop over all methods finds the path exactly when some other method registered it |
| Router.Route | src/server/router/Router.java:71-107 | an exact match calls its handler; 405 exactly when the path is absent for this method but registered for another; 404 exactly when no method has it and there is no default; the default handles the rest |
| Router.Complete | src/server/router/Router.java:82-84 | a handler's response is passed on, and a thrown exception becomes a 500 JSON error carrying its message |
| Router.Refuse | src/server/router/Router.java:90-107 | the refusals are 405 and 404 |
| Router.AddThenRoute | src/server/router/Router.java:31-87 | a registered path routes to its handler, and registering it again replaces the handler |
| Router.AddLeavesOthers | src/server/router/Router.java:31-58 | registering one path does not change the routing of any other path |
| Router.OnlyUnder | src/server/router/Router.java:71-94 | a path registered under one method alone is called for that method and 405 for every other |
| Router.Unregistered | src/server/router/Router.java:97-107 | a path no method registered goes to the default handler, or 404 without one |
| Router.DefaultOnlyAsFallback | src/server/router/Router.java:63-107 | setting a default never changes the routing of a registered path |
| Router.EmptyRouter | src/server/router/Router.java:21-107 | an empty router answers 404, and with only a default it calls the default |
| Router.Get | src/server/router/Router.java:31-34 | `get` registers the path under GET |
| Router.Post | src/server/router/Router.java:39-42 | `post` registers the path under POST |
| Router.Put | src/server/router/Router.java:47-50 | `put` registers the path under PUT |
| Router.Delete | src/server/router/Router.java:55-58 | `delete` registers the path under DELETE |
| Router.RegisteredElsewhere | src/server/router/Router.java:90-94 | the loop over a list of methods finds the path exactly when a method in it other than the verb has the path |
| ServerRoutes.TableOf | src/server/HttpServer.java:46-79 | the configured table: POST /api/register and /api/login, GET /old-page, /temp-redirect, /api/status and /api/error, the static handler as default, and nothing for other methods |
| ServerRoutes.RouteIsDispatch | src/server/HttpServer.java:46-79 | routing by the configured table agrees with the written-out dispatch of each path and method |
| ServerRoutes.Respond | src/server/router/Router.java:71-107 | 405 and 404 leave the user store as it was; a called handler's store change is the only one |
| ServerRoutes.Serve | src/server/router/Router.java:90-94 | a method not allowed for a configured path is answered 405 and changes nothing |
| ServerRoutes.Reaches | src/server/HttpServer.java:46-79 | a request dispatched to a handler is answered by that handler |
| ServerRoutes.ApiOnlyByPost | src/server/HttpServer.java:48-49 | the two API paths answer 405 to every method but POST, without touching the store |
| ServerRoutes.DemoOnlyByGet | src/server/HttpServer.java:52-72 | the four demo paths answer 405 to every method but GET |
| ServerRoutes.OldPageRedirects | src/server/HttpServer.java:52-55 | GET /old-page is a 301 to /index.html |
| ServerRoutes.TempRedirectFound | src/server/HttpServer.java:57-60 | GET /temp-redirect is a 302 to /index.html |
| ServerRoutes.StatusEndpoint | src/server/HttpServer.java:63-66 | GET /api/status is 200 with `{"status":"running","port":N}` |
| ServerRoutes.ErrorEndpoint | src/server/HttpServer.java:69-72 | GET /api/error throws, and the router answers 500 with the exception's message in JSON |
| ServerRoutes.OtherPathsAreStatic | src/server/HttpServer.java:75-76 | every other path, with any method, goes to the static-file handler and leaves the store alone |
| ServerRoutes.RoutesToDefault | src/server/router/Router.java:89-104 | for any handlers, a path registered under no method reaches the default handler, whatever the method |
| ServerRoutes.ServeStatic | src/server/router/Router.java:96-104 | a request the table sends to the static-file handler is answered by that handler and leaves the store alone |
| ServerRoutes.OnlyRegistrationWrites | src/server/HttpServer.java:46-79 | no request except one routed to registration changes the user store |
| ServerRoutes.RouteIsDispatchOf | src/server/HttpServer.java:46-79 | for any handlers, routing by the configured table agrees with the dispatch written out path by path |
| ServerRoutes.RouteOnlyUnder | src/server/HttpServer.java:46-72 | a configured path is routed as the written-out dispatch says, for every method |
| ServerRoutes.OnlyOneMethod | src/server/HttpServer.java:46-72 | each configured path is registered under exactly one method |
| ServerRoutes.RouteElsewhere | src/server/HttpServer.java:75-76 | an unconfigured path is routed as the written-out dispatch says |
| ServerRoutes.PostOnly | src/server/HttpServer.java:48-49 | the API paths are 405 for every method but POST |
| ServerRoutes.GetOnly | src/server/HttpServer.java:52-72 | the demo paths are 405 for every method but GET |
| ServerRoutes.Targets | src/server/HttpServer.java:48-72 | each configured path and method reaches the handler configured for it |
| ServerRoutes.DispatchedHandler | src/server/HttpServer.java:46-79 | every handler a request can reach is one of those configured |
| ServerRoutes.KeepsRegistry | src/server/HttpServer.java:49-76 | every configured handler except registration leaves the user store unchanged |
| ClientHandler.Answer | src/server/ClientHandler.java:82 | the routed response is sent with Connection set from the request's keep-alive, status and body unchanged |
| ClientHandler.Loop | src/server/ClientHandler.java:50-96 | one response per request, each carrying the matching Connection header; every request before the last asked for keep-alive; at most `maxRequests` are served; no request is read once keep-alive is off or the cap is reached |
| ClientHandler.LoopStep | src/server/ClientHandler.java:54-88 | one iteration parses a request, routes it, answers it and continues with the request's keep-alive |
| ClientHandler.FinishedByClose | src/server/ClientHandler.java:54-70 | when the loop ends by choice before the cap, the last request asked to close |
| ClientHandler.LoopEnds | src/server/ClientHandler.java:57-62 | end of stream (parse returns null) ends the loop with no response |
| ClientHandler.RunWith | src/server/ClientHandler.java:50-96 | the imperative `while` loop computes the loop described by `Loop` |
| ClientHandler.Run | src/server/ClientHandler.java:50-96 | running the connection with the real request parser gives the trace `Serve` describes |
| ClientHandler.Serve | src/server/ClientHandler.java:50-96 | as many responses as requests, never more than `maxRequests`, with the Connection headers of each request |
| ClientHandler.CloseEndsConnection | src/server/ClientHandler.java:70-85 | a request with "Connection: close" gets one response marked close and ends the connection |
| ClientHandler.NoRequestNoResponse | src/server/ClientHandler.java:57-62 | an empty stream is answered with nothing and changes nothing |
| ClientHandler.ServeFrom | src/server/ClientHandler.java:50-96 | from any starting count the loop answers each request once, each with the matching Connection header, and stays within the cap |
| ClientHandler.ParseConsumes | src/server/request/RequestParser.java:23-71 | every request read consumes input, so the loop ends |
| ResponseParser.ParseStatusLine | src/client/HttpResponseParser.java:69-83 | the status line is rejected as invalid exactly when it has no space; a parsed code is a 32-bit int and the version has no space |
| ResponseParser.ParseStatusLineOf | src/client/HttpResponseParser.java:69-83 | `version code reason` written by the server parses back to the same three parts |
| ResponseParser.ReadBody | src/client/HttpResponseParser.java:48-63 | a positive Content-Length reads exactly that many bytes; without one and without chunking there is no body; only chunked decoding can fail |
| ResponseParser.Parse | src/client/HttpResponseParser.java:28-64 | "Empty response" exactly at end of input or on an empty first line; a parsed response consumes input |
| ResponseParser.GetHeader | src/client/HttpResponseParser.java:172-179 | the header is null exactly when no name matches ignoring case |
| ResponseParser.RedirectCodes | src/client/HttpResponseParser.java:228-234 | `isRedirect` holds exactly for 301, 302, 303, 307 and 308, all 3xx and none of them 304 |
| RequestBuilder.New | src/client/HttpRequestBuilder.java:23-34 | a new builder is GET / on port 80 with User-Agent, Accept and Connection: keep-alive, in that order |
| RequestBuilder.Header | src/client/HttpRequestBuilder.java:66-69 | `header` sets one name, keeps the others and the insertion order, and changes nothing else |
| RequestBuilder.QueryParam | src/client/HttpRequestBuilder.java:71-74 | `queryParam` sets one name and keeps the others |
| RequestBuilder.PairTexts | src/client/HttpRequestBuilder.java:172-184 | each query or form pair is written `name=value` in insertion order |
| RequestBuilder.JsonBody | src/client/HttpRequestBuilder.java:81-85 | `jsonBody` sets the body and the JSON Content-Type |
| RequestBuilder.FormBody | src/client/HttpRequestBuilder.java:87-106 | `formBody` sets the `&`-joined pairs as body and the form Content-Type |
| RequestBuilder.IfModifiedSince | src/client/HttpRequestBuilder.java:108-111 | `ifModifiedSince` sets that header |
| RequestBuilder.WithoutHost | src/client/HttpRequestBuilder.java:133-137 | the header lines written are exactly the stored fields whose name is not Host in any case, and any two of them come in the order the builder holds them |
| RequestBuilder.LengthField | src/client/HttpRequestBuilder.java:139-147 | a Content-Length line with the body's UTF-8 byte count is written exactly when the body is non-empty |
| RequestBuilder.SentFields | src/client/HttpRequestBuilder.java:125-147 | Host comes first, then every stored non-Host field in the builder's order, then Content-Length for a body |
| RequestBuilder.QueryRoundTrip | src/client/HttpRequestBuilder.java:163-187 | the query string `buildUri` writes is read back by the server's `parseQueryString` pair for pair |
| RequestBuilder.UriRoundTrip | src/client/HttpRequestBuilder.java:163-187 | the server's `parseUri` splits the written URI back into the builder's path and query string |
| RequestBuilder.BuildParses | src/client/HttpRequestBuilder.java:116-158 | the request text `build()` writes is parsed by the server into the builder's method, URI, HTTP/1.1, exactly the header lines written and the body's bytes, leaving the rest of the stream |
| RequestBuilder.ServerSeesHost | src/client/HttpRequestBuilder.java:125-137 | the server's Host lookup returns the builder's host (with the port when not 80), whatever Host header the caller stored |
| RequestBuilder.PairParts | src/client/HttpRequestBuilder.java:172-184 | a pair `k=v` written with no '=' in k is read back by the server as key k and value v |
| RequestBuilder.BlockWellFormed | src/client/HttpRequestBuilder.java:125-147 | every header line the builder writes is a well-formed `Name: Value` line |
| RequestBuilder.SentFieldsReadable | src/client/HttpRequestBuilder.java:125-147 | the written header names are unique and well-formed, and the Content-Length read back is the body's byte count |
| Url.Parse | src/client/HttpClient.java:105-111 | text with a character outside the URL alphabet, a '%' not followed by two hex digits, or a second '#' is refused; a parsed URL has a scheme, a host that is an IPv4 address or a domain name, and a path that is empty or starts with '/' and holds no '?', '[' or ']' |
| Url.HostNameEnds | src/client/HttpClient.java:105-111 | a parsed host starts with a letter or digit, ends with one or with '.', and has no '-' at either end of a label, so a host such as `-a` is refused |
| Url.ParseFormat | src/client/HttpClient.java:105-121 | every well-formed URL, written out, parses back to itself |
| Url.ParseWellFormed | src/client/HttpClient.java:105-121 | whatever parses is well-formed, so formatting it again is faithful |
| Url.TargetOf | src/client/HttpClient.java:113-121 | the host is kept, a missing port becomes 80, an empty path becomes "/", and the raw query is appended after '?' |
| Url.TargetUriParses | src/client/HttpClient.java:113-121 | the server's `parseUri` gets back the URL's path (or "/") and query from the request target |
| Url.Resolve | src/client/HttpClient.java:194-201 | an absolute http or https location is followed as it is |
| Url.ResolveIsFormat | src/client/HttpClient.java:194-201 | a relative location becomes `http://host[:port]/path`, with the port omitted for 80 and a '/' added when missing |
| Url.AuthorityEnd | src/client/HttpClient.java:105-121 | the authority runs up to the first '/' or '?' |
| Url.Fragmentless | src/client/HttpClient.java:105-111 | the fragment is cut off: the rest is a prefix of the text with no '#' |
| Url.HostAndPort | src/client/HttpClient.java:113-121 | a parsed host is a host name and a parsed port lies in 0..2^31-1 |
| Url.ParseAuthority | src/client/HttpClient.java:113-121 | a parsed host is a host name and a parsed port lies in 0..2^31-1 |
| Url.ParseAuthorityOf | src/client/HttpClient.java:113-121 | `host[:port]` parses back to host and port |
| Url.SplitTail | src/client/HttpClient.java:113-121 | the path and the raw query split the rest of the URL at its first '?' and join back to it |
| Url.SplitPathQuery | src/client/HttpClient.java:113-121 | a path and query written out split back into the same two |
| Url.ParseServer | src/client/HttpClient.java:105-121 | after the scheme, a parsed URL has a host name and a path that is empty or starts with '/' and has no '?' |
| Url.ParseServerOf | src/client/HttpClient.java:105-121 | a well-formed URL after its scheme parses back to itself |
| Url.ParseAbsolute | src/client/HttpClient.java:105-121 | an absolute URL parses to a scheme, a host name and a clean path |
| Url.ParseAbsoluteOf | src/client/HttpClient.java:105-121 | a well-formed URL written out parses back to itself |
| Url.ResolveRelative | src/client/HttpClient.java:194-201 | a relative location is resolved on the current host and port, a '/' is added to the path when missing, and the target keeps host, port, path and query |
| Client.New | src/client/HttpClient.java:38-43 | a new client follows redirects, allows 10, has an empty cache and no connection |
| Client.CloseConnection | src/client/HttpClient.java:252-265 | `closeConnection` closes an open socket and leaves no connection, changing nothing else |
| Client.EnsureConnection | src/client/HttpClient.java:229-247 | an open connection to the same host and port is reused with no event; otherwise the old one is closed and a new one opened |
| Client.ClearCache | src/client/HttpClient.java:291-293 | `clearCache` empties the cache and changes nothing else |
| Client.Close | src/client/HttpClient.java:311-314 | `close` leaves no connection and an empty cache and keeps the settings |
| Client.ConditionalHeaders | src/client/HttpClient.java:123-130 | a GET of a cached URL adds If-Modified-Since with the cached date; nothing else is changed, and other requests are sent as given |
| Client.RequestFor | src/client/HttpClient.java:135-150 | the builder carries the method, host, port, path with query, every caller header and the body |
| Client.Exchange | src/client/HttpClient.java:132-167 | one exchange sends exactly one request on a connection to the target, after reusing or opening it, and leaves cache and settings alone |
| Client.Remember | src/client/HttpClient.java:179-186 | a 200 to a GET with Last-Modified is cached under the URL; nothing else changes the cache |
| Client.Decide | src/client/HttpClient.java:169-223 | handling a response sends nothing and keeps the redirect settings |
| Client.NotModifiedReturnsAsIs | src/client/HttpClient.java:169-177 | a 304 for a cached URL is returned as it is, with nothing changed |
| Client.CacheUpdatedIffCacheable | src/client/HttpClient.java:179-186 | the cache gains or refreshes the URL's entry exactly for a cacheable response, and no other URL's presence changes |
| Client.RedirectFollowed | src/client/HttpClient.java:188-215 | a redirect with Location closes the connection and goes to the resolved location; 301/302 turn into a bodiless GET, 303/307/308 keep method and body |
| Client.FinalResponse | src/client/HttpClient.java:218-223 | any other response is returned, closing the connection exactly when the server did not keep it alive |
| Client.ConditionalGetSent | src/client/HttpClient.java:123-152 | the request sent for a cached URL carries If-Modified-Since with the cached date |
| Client.CacheThenConditional | src/client/HttpClient.java:123-186 | after caching a response, the next GET of that URL asks with its Last-Modified |
| Client.RelativeRedirectStaysOnServer | src/client/HttpClient.java:194-214 | a relative Location is followed on the same host and port |
| Client.Chain | src/client/HttpClient.java:98-103 | the redirect chain sends at most `maxRedirects - count + 1` requests, exactly that many when it fails with too many redirects, and fails at once when the count is already over the limit |
| Client.Request | src/client/HttpClient.java:98-224 | the full request keeps the settings, sends at most the redirect budget, and fails without sending when over the limit |
| Client.Get | src/client/HttpClient.java:48-50 | `get` sends at most `maxRedirects + 1` requests and, with a negative limit, none |
| Client.PostJson | src/client/HttpClient.java:62-66 | `postJson` sends at most `maxRedirects + 1` requests |
| Client.PostForm | src/client/HttpClient.java:71-85 | `postForm` sends at most `maxRedirects + 1` requests |
| Client.FirstRequest | src/client/HttpClient.java:124-158 | the first thing a request does is connect (or reuse) and send the built request bytes |
| Client.PostFormSends | src/client/HttpClient.java:71-85 | `postForm` first sends a POST whose body is the `&`-joined pairs with the form Content-Type |
| Client.Continue | src/client/HttpClient.java:169-223 | after the one exchange, handling the reply keeps the settings and only extends the events |
| Client.Step | src/client/HttpClient.java:98-224 | one hop of the request keeps the redirect settings |
| Client.StepOver | src/client/HttpClient.java:98-224 | a hop over any network sends one request and keeps the settings, which is all the redirect chain relies on |
| Client.StepStartsWithExchange | src/client/HttpClient.java:132-167 | a hop begins with its exchange |
| Client.ChainStartsWithHop | src/client/HttpClient.java:98-214 | the redirect chain begins with its first hop |

## Left out

- Sockets, streams, timeouts and threads: the server reads a finite byte sequence and the client's network is a function from request bytes to reply bytes. `SocketTimeoutException`, `setSoTimeout` and the per-connection thread are not modelled. The two timeout constants are kept as constants only.
- IO errors while reading are treated like end of input.
- `RequestParser.parse` wraps the stream in a new `BufferedInputStream` on every call, which can swallow read-ahead bytes between requests. The model reads from one stream with nothing lost.
- `ClientHandler`'s own catch around `router.route` is not modelled separately, because `Router.route` already catches handler exceptions.
- `java.net.URI` is replaced by its server-authority grammar for absolute URLs: scheme, a host that is an IPv4 address or a domain name, optional port, path and query. Percent escapes must be complete, a second '#' is refused and the fragment is dropped.
- Url.Parse: four kinds of URL that `java.net.URI` accepts are refused here. These are non-ASCII text, user information before the host, an IPv6 literal host, and a URL with no host. The client as written still sends a host-less URL, with `Host: null`, over a socket to the loopback address; here nothing is sent.
- `URLDecoder.decode` / `URLEncoder.encode` are the identity.
- Bytes to text: `new String(bytes, "UTF-8")` is modelled one character per byte (Latin-1), which is exact on ASCII. Text to bytes is real UTF-8.
- Case mapping, `equalsIgnoreCase` and `toLowerCase` are ASCII only.
- Date formatting and parsing (`SimpleDateFormat` in GMT) are parameters. The `Date` header text is an input. The login token (`UUID.randomUUID`) is an input.
- `HashMap` iteration order (request headers, query and form maps) is modelled as insertion order.
- Only the writes of `UserStore` are modelled. `User` objects and their creation time are reduced to the password.
- Not modelled: logging, `printRoutes`, the `toString` methods other than `HttpStatus.toString`, `HttpServer.main/start/stop`, `getStaticDirectory`, `setTimeout`, and the interactive `HttpClientCLI`.
- `HttpResponse.send` is `Build` followed by an output write, and is left out as I/O.
- UserStore.Login: the contract states only that a successful login names a registered user. The full condition is covered by UserStore.RegisterThenLogin and LoginHandler.Authenticate.
- RegisterHandler.Validate, LoginHandler.Validate: the fields are read with the corrected `getString` scan (Json.GetString), not the scan as written (Json.GetStringAsWritten). The two differ only for a value whose escaped text ends in an escaped backslash; see Findings.
- StaticFiles.RevalidateUnchanged: modification times are counted in whole milliseconds from 1970 on (`FileEntry.lastModified` is a `nat`). `File.lastModified` can be negative for a file dated before 1970, and such files are not modelled.
- Client.Exchange: after a response that fails to parse, the connection stays open with no unread bytes. In the client as written, whatever the parser had not consumed stays in the socket, and the next request on that connection reads it first.
- StaticFiles.FileName: for a path made only of '/' characters the name is empty, where `java.io.File` would name the document root. Such a path is a directory and is never served, so no response depends on it.
- Client.Get, Client.PostJson, Client.PostForm: these state the bound on requests sent, not the contents of the replies. The reply handling is stated by Client.Decide and the lemmas about it.

## Findings

| source | as written | input that shows it | evidently intended | confidence | as-written member | corrected member |
|---|---|---|---|---|---|---|
| src/server/handler/JsonUtils.java:42-49 | The closing quote of a string value is the first `"` whose previous character is not a backslash. An escaped backslash at the end of a value (`\\`) therefore hides the real closing quote, and the value is lost. | `{"k":"a\\"}` (the value `a\` as `escapeJson` writes it): `getString(json, "k")` returns null. | Escape sequences are skipped as pairs, so the value `a\` is returned, as `unescapeJson(escapeJson(v))` promises for every v. | not executed | Json.TrailingBackslashLost | Json.ClosingQuoteAfterEscape |
