# SeungPring core in Dafny

SeungPring is a small Java web application server with a bean container.
This project models their sequential core and proves properties of the model.

Web server side:
- the HTTP/1.1 response writer, an 8 KiB `OutputBuffer` in front of the socket's output stream;
- the HTTP/1.1 request parser, `http1/Http1RequestParser`;
- the header multimap `HttpHeader`;
- the protocol sniffer `HttpProtocolSelector`;
- the header-name normaliser `HeaderNameFormatter.toTitleCase`;
- the enums and value classes they use: `HttpMethod`, `HttpProtocolVersion`, `HttpStatus` and `HttpBody`.

Container side:
- `BeanDefinition`;
- the first-registration-wins `MyBeanDefinitionRegistry`;
- the lookups, singleton cache and constructor choice of `MyBeanFactory`.

Each Java file becomes one module in the form the Java code takes.
- **Classes whose fields change:** `OutputBuffer`, `HttpHeader`, the registry and the factory become Dafny classes.
  - Their methods carry `modifies` clauses.
  - `OutputBuffer` keeps its `array<byte>`, and `writeInternal` keeps its copy-and-flush loop.
- **Stateful readers:** `readLine`, `parseHeader` and `detect` are methods over an input stream, modelled as bytes plus a cursor. Each is proved equal to a specification function over the bytes.
- **Pure code:** the enums, the formatter, the classification in `detect` and `resolveConstructor` are functions, with lemmas about them.

How Java's own library is modelled:
- The module `Strings` gives `split`, `trim`, `indexOf`, ASCII case mapping, `Long.parseLong` and decimal printing their Java meaning.
  - `split` drops trailing empty pieces.
  - `trim` removes every character up to and including the space character.
- The module `Bytes` gives UTF-8 encoding and US-ASCII decoding.
- The module `ByteInput` gives `read`, `readNBytes` and `readFully`.

Exceptions become `Result` values whose error names the exception. `null` becomes `None`.

Where the code and its documentation or tests disagree, the model follows the code:
- header lookup is case-sensitive;
- `put` splits a value on commas;
- `detect` consumes the bytes it reads;
- a line ended by a bare LF keeps the LF;
- an unknown method surfaces as IllegalArgumentException;
- the registry returns `null` for an unknown name instead of throwing;
- the registry stores a null definition, which then counts as registered, instead of throwing NullPointerException;
- `sendHeaders` writes Date, Server, Content-Type, Content-Length in that order, which is not the order its doc comment gives.

## Model

| member | source | states |
|---|---|---|
| HttpMethods.ValuesComplete | src/main/java/org/example/framework/was/protocol/model/HttpMethod.java:12-13 | There are exactly eight methods, each listed once in `values()`. |
| HttpMethods.FindIgnoreCase | src/main/java/org/example/framework/was/protocol/model/HttpMethod.java:15-19 | The linear search returns a listed constant whose name equals the text ignoring case. It returns nothing only when no listed name matches. |
| HttpMethods.From | src/main/java/org/example/framework/was/protocol/model/HttpMethod.java:15-21 | A method that `from` returns has a name equal to the text ignoring case. |
| HttpMethods.NameIsUpper | src/main/java/org/example/framework/was/protocol/model/HttpMethod.java:12-13 | Every constant's name is already upper case. |
| HttpMethods.FromIgnoresCase | src/main/java/org/example/framework/was/protocol/model/HttpMethod.java:15-21 | `from(s)` is `m` exactly when `s` equals `m`'s name ignoring case. It throws exactly when no name matches. |
| HttpMethods.FromName | src/main/java/org/example/framework/was/protocol/model/HttpMethod.java:15-19 | Round trip: `from(m.name()) == m` for every constant. |
| HttpMethods.PostUpper | src/main/java/org/example/framework/was/protocol/model/HttpMethod.java:17 | Upper-casing "post" gives "POST". |
| HttpMethods.FromLowerCase | src/main/java/org/example/framework/was/protocol/model/HttpMethod.java:15-19 | "post" names POST. |
| ProtocolVersions.FindByString | src/main/java/org/example/framework/was/protocol/HttpProtocolVersion.java:32-37 | The search returns a version whose protocol string equals the text ignoring case. It returns nothing only when none does. |
| ProtocolVersions.FindByNumber | src/main/java/org/example/framework/was/protocol/HttpProtocolVersion.java:44-49 | The search returns a version with that number, or nothing when there is none. |
| ProtocolVersions.FromString | src/main/java/org/example/framework/was/protocol/HttpProtocolVersion.java:32-39 | A version that `from(String)` returns has a protocol string equal to the text ignoring case. |
| ProtocolVersions.FromNumber | src/main/java/org/example/framework/was/protocol/HttpProtocolVersion.java:44-51 | A version that `from(int)` returns has that number. |
| ProtocolVersions.ProtocolStringIsUpper | src/main/java/org/example/framework/was/protocol/HttpProtocolVersion.java:10-11 | "HTTP/1.1" and "HTTP/2.0" are their own upper-case forms. |
| ProtocolVersions.FromStringIgnoresCase | src/main/java/org/example/framework/was/protocol/HttpProtocolVersion.java:32-39 | `from(String)` yields `v` exactly when the text is `v`'s protocol string ignoring case. It throws exactly when the text matches neither string. |
| ProtocolVersions.LowerHttp11Upper | src/main/java/org/example/framework/was/protocol/HttpProtocolVersion.java:34 | Upper-casing "http/1.1" gives "HTTP/1.1". |
| ProtocolVersions.FromStringRoundTrip | src/main/java/org/example/framework/was/protocol/HttpProtocolVersion.java:25-37 | Round trip: `from(v.getProtocolString()) == v`. |
| ProtocolVersions.FromLowerCase | src/main/java/org/example/framework/was/protocol/HttpProtocolVersion.java:32-37 | "http/1.1" names HTTP/1.1. |
| ProtocolVersions.FromNumberExact | src/main/java/org/example/framework/was/protocol/HttpProtocolVersion.java:44-51 | `from(int)` yields `v` exactly when the number is `v`'s. It throws for every number except 1 and 2. |
| ProtocolVersions.FromNumberRoundTrip | src/main/java/org/example/framework/was/protocol/HttpProtocolVersion.java:21-23 | Round trip: `from(v.getVersion()) == v`. |
| HttpStatuses.HttpStatus.Code | src/main/java/org/example/framework/was/protocol/model/HttpStatus.java:4-19 | Every code lies in 200..599. Only OK is below 300, and only INTERNAL_SERVER_ERROR is 500 or above. |
| HttpStatuses.HttpStatus.Reason | src/main/java/org/example/framework/was/protocol/model/HttpStatus.java:4-20 | Every reason phrase is non-empty. |
| HttpStatuses.CodesDistinct | src/main/java/org/example/framework/was/protocol/model/HttpStatus.java:4-8 | No two constants share a code. |
| HttpStatuses.ReasonsDistinct | src/main/java/org/example/framework/was/protocol/model/HttpStatus.java:4-8 | No two constants share a reason phrase. |
| HttpBodies.HttpBody.ContentLengthLong | src/main/java/org/example/framework/was/protocol/model/HttpBody.java:44-50 | The content length is the number of bytes `getData()` returns. |
| HttpBodies.Empty | src/main/java/org/example/framework/was/protocol/model/HttpBody.java:24-26 | `empty()` has length 0 and no bytes. |
| HeaderNameFormatter.TitleWord | src/main/java/org/example/framework/was/utils/HeaderNameFormatter.java:36-37 | A word keeps its length. Its first character is upper-cased and the rest are lower-cased. |
| HeaderNameFormatter.TitleWords | src/main/java/org/example/framework/was/utils/HeaderNameFormatter.java:35-38 | The mapping title-cases each word in place and keeps the count. |
| HeaderNameFormatter.ToTitleCase | src/main/java/org/example/framework/was/utils/HeaderNameFormatter.java:30-40 | null gives "". A name without a dash is one word, title-cased. |
| HeaderNameFormatter.TitleWordKeepsDashes | src/main/java/org/example/framework/was/utils/HeaderNameFormatter.java:36-37 | Case mapping neither creates nor removes a dash. |
| HeaderNameFormatter.TitleWordIdempotent | src/main/java/org/example/framework/was/utils/HeaderNameFormatter.java:36-37 | Title-casing a title-cased word changes nothing. |
| HeaderNameFormatter.TitleCaseWords | src/main/java/org/example/framework/was/utils/HeaderNameFormatter.java:34-39 | A non-empty name becomes its dash-separated words, title-cased and rejoined with dashes. Splitting the result gives back exactly those words. |
| HeaderNameFormatter.TitleCaseIdempotent | src/main/java/org/example/framework/was/utils/HeaderNameFormatter.java:30-40 | Applying `toTitleCase` twice gives what applying it once gives. |
| HeaderNameFormatter.NullOrEmpty | src/main/java/org/example/framework/was/utils/HeaderNameFormatter.java:31-32 | null and "" both give "". |
| HeaderNameFormatter.TitleWordIs | src/main/java/org/example/framework/was/utils/HeaderNameFormatter.java:36-37 | Any string with the upper-cased first character and lower-cased rest is the title-cased word. |
| HeaderNameFormatter.TitleWordsPair | src/main/java/org/example/framework/was/utils/HeaderNameFormatter.java:35-38 | Two words map to their two title-cased forms. |
| HeaderNameFormatter.SplitContentLength | src/main/java/org/example/framework/was/utils/HeaderNameFormatter.java:34 | "CoNteNT-LeNGTH" splits into "CoNteNT" and "LeNGTH". |
| HeaderNameFormatter.TitleContentLengthWords | src/main/java/org/example/framework/was/utils/HeaderNameFormatter.java:35-38 | Those words become "Content" and "Length". |
| HeaderNameFormatter.JoinContentLength | src/main/java/org/example/framework/was/utils/HeaderNameFormatter.java:39 | Joining them gives "Content-Length". |
| HeaderNameFormatter.TitleCaseFrom | src/main/java/org/example/framework/was/utils/HeaderNameFormatter.java:34-39 | Once the split and the mapped words are known, the result is their join. |
| HeaderNameFormatter.ContentLengthExample | src/main/java/org/example/framework/was/utils/HeaderNameFormatter.java:30-40 | "CoNteNT-LeNGTH" becomes "Content-Length". |
| HeaderNameFormatter.SplitDoubleDash | src/main/java/org/example/framework/was/utils/HeaderNameFormatter.java:34 | "a--b" splits into "a", "" and "b". |
| HeaderNameFormatter.TitleDoubleDashWords | src/main/java/org/example/framework/was/utils/HeaderNameFormatter.java:35-38 | The empty interior word stays empty: "A", "", "B". |
| HeaderNameFormatter.DoubleDashExample | src/main/java/org/example/framework/was/utils/HeaderNameFormatter.java:30-40 | "a--b" becomes "A--B". |
| HeaderNameFormatter.JoinDoubleDash | src/main/java/org/example/framework/was/utils/HeaderNameFormatter.java:39 | Joining "A", "", "B" gives "A--B". |
| HeaderNameFormatter.PiecesTrailingDash | src/main/java/org/example/framework/was/utils/HeaderNameFormatter.java:34 | A dash-free word followed by a dash cuts into the word and one empty piece, before trailing empties are dropped. |
| HeaderNameFormatter.TrailingDashExample | src/main/java/org/example/framework/was/utils/HeaderNameFormatter.java:34-39 | Split drops the trailing empty word, so "a-" becomes "A". |
| HeaderNameFormatter.LoneDashExample | src/main/java/org/example/framework/was/utils/HeaderNameFormatter.java:34-39 | "-" has only empty words, so it becomes "". |
| Headers.TrimAll | src/main/java/org/example/framework/was/protocol/model/HttpHeader.java:27-29 | Trimming each piece keeps the number of pieces. |
| Headers.TrimAllAt | src/main/java/org/example/framework/was/protocol/model/HttpHeader.java:27-29 | Each position holds the trimmed piece from the same position. |
| Headers.GetValues | src/main/java/org/example/framework/was/protocol/model/HttpHeader.java:39-41 | `get(k)` is null exactly when `k` was never put. Otherwise it is the whole stored list. |
| Headers.FirstValue | src/main/java/org/example/framework/was/protocol/model/HttpHeader.java:50-53 | `getFirst(k)` is null exactly when `k` is absent or its list is empty. Otherwise it is the first element. |
| Headers.HttpHeader.constructor | src/main/java/org/example/framework/was/protocol/model/HttpHeader.java:15 | A new header holds no names. |
| Headers.HttpHeader.Put | src/main/java/org/example/framework/was/protocol/model/HttpHeader.java:24-30 | The loop leaves the map that `WithPut` describes: the key's list, created if missing, followed by the trimmed comma-separated pieces. |
| Headers.HttpHeader.Get | src/main/java/org/example/framework/was/protocol/model/HttpHeader.java:39-41 | `get` is null exactly for a name never put, and otherwise the whole stored list. |
| Headers.HttpHeader.GetFirst | src/main/java/org/example/framework/was/protocol/model/HttpHeader.java:50-53 | `getFirst` is non-null exactly when `get` gives a non-empty list, and then it is that list's head. |
| Headers.HttpHeader.GetAll | src/main/java/org/example/framework/was/protocol/model/HttpHeader.java:63-65 | `getAll` holds exactly the names `get` finds, each with the list `get` returns. |
| Headers.PutAppends | src/main/java/org/example/framework/was/protocol/model/HttpHeader.java:24-30 | `put` appends the pieces to the key's old list, which stays a prefix. Every other key's `get` is unchanged. |
| Headers.PutKeepsFirst | src/main/java/org/example/framework/was/protocol/model/HttpHeader.java:25-29 | A later `put` never changes a `getFirst` that was already non-null. |
| Headers.ValuePiecesJoin | src/main/java/org/example/framework/was/protocol/model/HttpHeader.java:27-29 | Trimmed, comma-free values joined with commas come back as the same values, provided the last one is non-empty. |
| Headers.TrimAllFixed | src/main/java/org/example/framework/was/protocol/model/HttpHeader.java:28 | Trimming already trimmed pieces changes nothing. |
| Headers.SplitCacheControl | src/main/java/org/example/framework/was/protocol/model/HttpHeader.java:27 | "no-cache, private" splits into "no-cache" and " private". |
| Headers.ValuePiecesCacheControl | src/main/java/org/example/framework/was/protocol/model/HttpHeader.java:27-29 | The stored pieces of "no-cache, private" are "no-cache" and "private". |
| Headers.CacheControlPieces | src/main/java/org/example/framework/was/protocol/model/HttpHeader.java:27-29 | Those pieces are the trimmed split pieces. |
| Headers.TrimPrivate | src/main/java/org/example/framework/was/protocol/model/HttpHeader.java:28 | " private" trims to "private". |
| Headers.TrimLeadingSpace | src/main/java/org/example/framework/was/protocol/model/HttpHeader.java:28 | A space before a trimmed string is removed by trim. |
| Headers.TrimAllPair | src/main/java/org/example/framework/was/protocol/model/HttpHeader.java:27-29 | Two pieces trim to their two trimmed forms. |
| Headers.PutIntoEmpty | src/main/java/org/example/framework/was/protocol/model/HttpHeader.java:24-30 | A `put` into an empty header stores exactly the value's pieces, and `getFirst` gives the first piece. |
| Headers.CacheControlExample | src/main/java/org/example/framework/was/protocol/model/HttpHeader.java:24-53 | After `put("Cache-Control", "no-cache, private")`, `get` gives ["no-cache", "private"] and `getFirst` gives "no-cache". |
| Headers.LookupIsCaseSensitive | src/main/java/org/example/framework/was/protocol/model/HttpHeader.java:39-53 | A value put under "Content-Type" is not found under "content-type". |
| Headers.LoneCommaPieces | src/main/java/org/example/framework/was/protocol/model/HttpHeader.java:27 | A lone comma splits into no pieces at all. |
| Headers.EmptyValuePieces | src/main/java/org/example/framework/was/protocol/model/HttpHeader.java:27 | The empty value is one empty piece. |
| Headers.EdgeValues | src/main/java/org/example/framework/was/protocol/model/HttpHeader.java:24-30 | An empty value appends one empty entry. A lone comma appends nothing but still creates the name. |
| ProtocolSelector.AnyMethodPrefixExists | src/main/java/org/example/framework/was/protocol/HttpProtocolSelector.java:51-53 | The `anyMatch` over method names holds exactly when the text starts with some listed name followed by a space. |
| ProtocolSelector.Classify | src/main/java/org/example/framework/was/protocol/HttpProtocolSelector.java:42-57 | EmptyPreface exactly for an empty read. HTTP/2 only when the text starts with the preface. Any other failure names the decoded text. |
| ProtocolSelector.Detect | src/main/java/org/example/framework/was/protocol/HttpProtocolSelector.java:40-58 | `detect` consumes exactly min(24, remaining) bytes. Its result is the classification of those bytes. |
| ProtocolSelector.ClassifyCases | src/main/java/org/example/framework/was/protocol/HttpProtocolSelector.java:42-57 | HTTP/2 exactly when the text starts with "PRI * HTTP/2.0". Otherwise HTTP/1.1 exactly when it starts with a method name and a space. Otherwise an error, which is EmptyPreface for an empty read. |
| ProtocolSelector.DecodeIs | src/main/java/org/example/framework/was/protocol/HttpProtocolSelector.java:45 | ASCII bytes decode to the characters with the same codes. |
| ProtocolSelector.GetSpaceAlone | src/main/java/org/example/framework/was/protocol/HttpProtocolSelector.java:41-54 | There is no minimum length: "GET " alone is HTTP/1.1. |
| ProtocolSelector.LowerCaseRejected | src/main/java/org/example/framework/was/protocol/HttpProtocolSelector.java:51-57 | Case matters: "get " is rejected as an unknown protocol. |
| ProtocolSelector.LowerCaseNoMethod | src/main/java/org/example/framework/was/protocol/HttpProtocolSelector.java:51-53 | No method name followed by a space starts "get ". |
| ProtocolSelector.RequestLineDetected | src/main/java/org/example/framework/was/protocol/HttpProtocolSelector.java:51-54 | Any ASCII text starting with a method name and a space is taken for HTTP/1.1. |
| ProtocolSelector.PrefaceDetected | src/main/java/org/example/framework/was/protocol/HttpProtocolSelector.java:48-49 | Any ASCII text starting with the HTTP/2 preface is taken for HTTP/2. |
| RequestParser.LineEnd | src/main/java/org/example/framework/was/protocol/http/http1/Http1RequestParser.java:154-156 | The line runs to the first LF at or after the cursor, or to the end of the data when there is none. |
| RequestParser.ReadLineSpec | src/main/java/org/example/framework/was/protocol/http/http1/Http1RequestParser.java:151-168 | `readLine` never moves the cursor back, and it moves the cursor forward whenever it returns a line. |
| RequestParser.ReadLine | src/main/java/org/example/framework/was/protocol/http/http1/Http1RequestParser.java:151-168 | The byte-by-byte loop returns the line and leaves the cursor where `ReadLineSpec` says. |
| RequestParser.RequestLineSpec | src/main/java/org/example/framework/was/protocol/http/http1/Http1RequestParser.java:64-87 | A request line that parses has exactly three tokens, and the cursor only moves forward. |
| RequestParser.ParseRequestLine | src/main/java/org/example/framework/was/protocol/http/http1/Http1RequestParser.java:64-87 | The method's result and cursor are those of `RequestLineSpec`. |
| RequestParser.FieldOf | src/main/java/org/example/framework/was/protocol/http/http1/Http1RequestParser.java:106-107 | The name and the value taken from a line are both trimmed. |
| RequestParser.HeaderPhase | src/main/java/org/example/framework/was/protocol/http/http1/Http1RequestParser.java:97-114 | The header loop only moves the cursor forward. |
| RequestParser.ParseHeader | src/main/java/org/example/framework/was/protocol/http/http1/Http1RequestParser.java:97-114 | The loop's header holds `put` of every field read, in order, and the cursor and error are those of `HeaderPhase`. |
| RequestParser.ToInt32 | src/main/java/org/example/framework/was/protocol/http/http1/Http1RequestParser.java:134 | The `(int)` cast lands in the int range, differs from its argument by a multiple of 2^32, and changes nothing in range. |
| RequestParser.BodyReadAsWritten | src/main/java/org/example/framework/was/protocol/http/http1/Http1RequestParser.java:125-140 | `parseBody` as written. A body that reads is the next `(int) n` bytes. When `(int) n` is negative the result is NegativeArraySize of `(int) n`. Too few bytes gives HttpParsingException. A length above Integer.MAX_VALUE gives UnsupportedOperation. |
| RequestParser.BodyRead | src/main/java/org/example/framework/was/protocol/http/http1/Http1RequestParser.java:125-140 | The corrected read of the Findings row. A body that reads is the next `n` bytes. Too few bytes gives HttpParsingException. Every negative length gives NegativeArraySize of that length. A length above Integer.MAX_VALUE gives UnsupportedOperation. |
| RequestParser.ParseBody | src/main/java/org/example/framework/was/protocol/http/http1/Http1RequestParser.java:125-140 | The method's result and cursor are those of `BodyReadAsWritten`, so the length goes through the `(int)` cast. |
| RequestParser.BodyPhase | src/main/java/org/example/framework/was/protocol/http/http1/Http1RequestParser.java:41-46 | The body step only moves the cursor forward. It reads with the `(int)` cast as written. |
| RequestParser.IsChunked | src/main/java/org/example/framework/was/protocol/http/http1/Http1RequestParser.java:49-50 | Chunked means a first Transfer-Encoding value exists and contains "chunked". |
| RequestParser.PutAll | src/main/java/org/example/framework/was/protocol/http/http1/Http1RequestParser.java:101-108 | The header loop only adds: every name already present stays, and its old list stays a prefix of its new one. |
| RequestParser.Finish | src/main/java/org/example/framework/was/protocol/http/http1/Http1RequestParser.java:49-53 | Past the body, `parse` succeeds exactly when the body read, the first Transfer-Encoding does not contain "chunked", and the method name is known. |
| RequestParser.ParseSpec | src/main/java/org/example/framework/was/protocol/http/http1/Http1RequestParser.java:29-54 | `parse` never moves the cursor back or past the end. |
| RequestParser.Parse | src/main/java/org/example/framework/was/protocol/http/http1/Http1RequestParser.java:29-54 | The method succeeds exactly when `ParseSpec` does and returns the same request, error and cursor. |
| RequestParserProps.LineEndIs | src/main/java/org/example/framework/was/protocol/http/http1/Http1RequestParser.java:154-156 | The line ends at the first LF, or at the end of the data when there is no LF. |
| RequestParserProps.ReadLineCrlf | src/main/java/org/example/framework/was/protocol/http/http1/Http1RequestParser.java:156-160 | A CRLF line is returned without CR and LF. Both are consumed and nothing beyond them. |
| RequestParserProps.ReadLineBareLf | src/main/java/org/example/framework/was/protocol/http/http1/Http1RequestParser.java:156-162 | A line ended by a bare LF keeps the LF. |
| RequestParserProps.ReadLineAtEnd | src/main/java/org/example/framework/was/protocol/http/http1/Http1RequestParser.java:165-167 | Without an LF the rest of the data is the line. |
| RequestParserProps.ReadLineNull | src/main/java/org/example/framework/was/protocol/http/http1/Http1RequestParser.java:166 | `readLine` returns null exactly when nothing is left. |
| RequestParserProps.RequestLineTokens | src/main/java/org/example/framework/was/protocol/http/http1/Http1RequestParser.java:66-81 | Three space-free tokens, the last one non-empty, on a CRLF line are the request line. |
| RequestParserProps.EmptyRequestLineRejected | src/main/java/org/example/framework/was/protocol/http/http1/Http1RequestParser.java:66-70 | A missing or empty first line throws "Empty request line". |
| RequestParserProps.ReadLineEmpty | src/main/java/org/example/framework/was/protocol/http/http1/Http1RequestParser.java:156-160 | The empty line is a bare CRLF. |
| RequestParserProps.HeaderPhaseEnd | src/main/java/org/example/framework/was/protocol/http/http1/Http1RequestParser.java:101 | A header block that parses ends at the end of the data or just past a CRLF. |
| RequestParserProps.BareLfBlankLineRejected | src/main/java/org/example/framework/was/protocol/http/http1/Http1RequestParser.java:101-104 | A blank line ended by a bare LF does not end the headers. It is rejected as a header line without a colon. |
| RequestParserProps.HeaderWithoutColon | src/main/java/org/example/framework/was/protocol/http/http1/Http1RequestParser.java:102-104 | A header line without a colon throws "Malformed header line" after consuming that line. |
| RequestParserProps.ColonLine | src/main/java/org/example/framework/was/protocol/http/http1/Http1RequestParser.java:102-107 | The first colon of `name:value` is the one after `name`. The field is the trimmed name and the trimmed value. |
| RequestParserProps.HeaderPhaseLine | src/main/java/org/example/framework/was/protocol/http/http1/Http1RequestParser.java:101-108 | A non-empty line with a colon adds its field, and the loop goes on after the line. |
| RequestParserProps.HeaderLineStep | src/main/java/org/example/framework/was/protocol/http/http1/Http1RequestParser.java:101-108 | A line `name:value` adds the trimmed name and value, and the value keeps any later colons. |
| RequestParserProps.PutValues | src/main/java/org/example/framework/was/protocol/model/HttpHeader.java:24-30 | One `put` appends its pieces to its own name and leaves every other name as it was. |
| RequestParserProps.PutAllValues | src/main/java/org/example/framework/was/protocol/http/http1/Http1RequestParser.java:101-108 | After the header loop, each name holds the pieces of its own lines, in line order. |
| RequestParserProps.NamedAt | src/main/java/org/example/framework/was/protocol/http/http1/Http1RequestParser.java:106-108 | A name is `Named` exactly when some line carries it. |
| RequestParserProps.PutAllNames | src/main/java/org/example/framework/was/protocol/http/http1/Http1RequestParser.java:101-108 | A name is present after the header loop exactly when one of the lines named it. |
| RequestParserProps.NegativeLengthReadsOneByte | src/main/java/org/example/framework/was/protocol/http/http1/Http1RequestParser.java:134 | As written, Content-Length -4294967295 reads one byte. The corrected read rejects it. |
| RequestParserProps.NegativeLengthBodyPhase | src/main/java/org/example/framework/was/protocol/http/http1/Http1RequestParser.java:41-46 | In `parse`, a first Content-Length of "-4294967295" passes both guards and gives a one-byte body. |
| RequestParserProps.BodyReadAgreesFromIntMin | src/main/java/org/example/framework/was/protocol/http/http1/Http1RequestParser.java:125-140 | From Integer.MIN_VALUE up, the read as written and the corrected read agree. |
| RequestParserProps.RequestLineShape | src/main/java/org/example/framework/was/protocol/http/http1/Http1RequestParser.java:72-80 | A request line that parses has three tokens. The last two are space-free and the last one is non-empty. |
| RequestParserProps.BodyPhaseShape | src/main/java/org/example/framework/was/protocol/http/http1/Http1RequestParser.java:41-46 | A body that reads is exactly `(int)` of the first Content-Length value long. From Integer.MIN_VALUE up that is the value itself. It is empty when the value is absent or empty. |
| RequestParserProps.ParseSuccess | src/main/java/org/example/framework/was/protocol/http/http1/Http1RequestParser.java:29-54 | A request that parses has a known method, a space-free path, a non-empty version and no chunked Transfer-Encoding. Its body is `(int)` of the first Content-Length value long, which is the value itself from Integer.MIN_VALUE up. |
| RequestParserProps.RequestWithoutHeaders | src/main/java/org/example/framework/was/protocol/http/http1/Http1RequestParser.java:29-54 | A request line and a blank line give no headers and an empty body, and leave the rest unread. An unknown method gives IllegalArgumentException. |
| RequestParserProps.BlankLineAfterRequestLine | src/main/java/org/example/framework/was/protocol/http/http1/Http1RequestParser.java:29-54 | The same over any input whose request line ends in a CRLF followed by a blank line. |
| RequestParserProps.EmptyHeaderPhase | src/main/java/org/example/framework/was/protocol/http/http1/Http1RequestParser.java:101 | A blank line right away ends the header loop with no fields. |
| RequestParserProps.NoHeadersNoBody | src/main/java/org/example/framework/was/protocol/http/http1/Http1RequestParser.java:41-51 | Without headers there is no Content-Length, so the body is empty and not chunked. |
| RequestParserProps.ParsePhases | src/main/java/org/example/framework/was/protocol/http/http1/Http1RequestParser.java:29-54 | `parse` chains the phases: the request or IllegalArgumentException when not chunked, and UnsupportedOperation when chunked. |
| OutputBuffers.OutputStream.constructor | src/main/java/org/example/framework/was/protocol/http/http1/OutputBuffer.java:43 | A new stream has received nothing. |
| OutputBuffers.OutputStream.Write | src/main/java/org/example/framework/was/protocol/http/http1/OutputBuffer.java:225 | One write appends the bytes and counts one write call. |
| OutputBuffers.OutputStream.Flush | src/main/java/org/example/framework/was/protocol/http/http1/OutputBuffer.java:211 | A flush adds no bytes and counts one flush call. |
| OutputBuffers.StatusLine | src/main/java/org/example/framework/was/protocol/http/http1/OutputBuffer.java:82-87 | The status line starts with the protocol string and a space, and ends in CRLF. |
| OutputBuffers.ContentType | src/main/java/org/example/framework/was/protocol/http/http1/OutputBuffer.java:99-103 | The Content-Type value is never empty. |
| OutputBuffers.KeyFields | src/main/java/org/example/framework/was/protocol/http/http1/OutputBuffer.java:111-119 | A mandatory name gives no line. Any other name gives one line per value, in list order. |
| OutputBuffers.ResponseFields | src/main/java/org/example/framework/was/protocol/http/http1/OutputBuffer.java:90-128 | Four fixed lines, Content-Type and Content-Length being the third and fourth, then exactly the lines taken from the response's own headers. |
| OutputBuffers.HeaderBlock | src/main/java/org/example/framework/was/protocol/http/http1/OutputBuffer.java:121-128 | The block starts with the status line and ends in CRLF. |
| OutputBuffers.DivModOf | src/main/java/org/example/framework/was/protocol/http/http1/OutputBuffer.java:39 | Division by the 8192-byte buffer size from a known quotient and remainder. |
| OutputBuffers.SliceSplit | src/main/java/org/example/framework/was/protocol/http/http1/OutputBuffer.java:167-186 | Consecutive slices of the data concatenate. |
| OutputBuffers.OutputBuffer.constructor | src/main/java/org/example/framework/was/protocol/http/http1/OutputBuffer.java:43-51 | A new buffer is empty, uncommitted and 8192 bytes long. |
| OutputBuffers.OutputBuffer.FlushInternal | src/main/java/org/example/framework/was/protocol/http/http1/OutputBuffer.java:223-228 | The buffered bytes go to the stream in one write, only when there are any. Then `pos` is 0. |
| OutputBuffers.OutputBuffer.Flush | src/main/java/org/example/framework/was/protocol/http/http1/OutputBuffer.java:209-212 | Same as `flushInternal`, then one stream flush. |
| OutputBuffers.OutputBuffer.CopyIn | src/main/java/org/example/framework/was/protocol/http/http1/OutputBuffer.java:178-179 | `arraycopy` appends the bytes behind the buffered ones. |
| OutputBuffers.OutputBuffer.WriteRound | src/main/java/org/example/framework/was/protocol/http/http1/OutputBuffer.java:171-184 | One loop round copies at least one byte and conserves bytes. A full buffer is written out. |
| OutputBuffers.OutputBuffer.WriteInternal | src/main/java/org/example/framework/was/protocol/http/http1/OutputBuffer.java:167-186 | Byte conservation: stream bytes plus buffered bytes gain exactly the data. `pos` ends below 8192 at (old pos + len) mod 8192, after (old pos + len) div 8192 writes. |
| OutputBuffers.OutputBuffer.WriteBody | src/main/java/org/example/framework/was/protocol/http/http1/OutputBuffer.java:147-152 | Before commit it throws and changes nothing. After commit it behaves as `writeInternal` over the whole array. |
| OutputBuffers.OutputBuffer.SendHeaders | src/main/java/org/example/framework/was/protocol/http/http1/OutputBuffer.java:75-134 | When committed it does nothing. For a version other than HTTP/1.1 it throws and changes nothing. Otherwise the stream receives the buffered bytes and then the UTF-8 header block, with one flush, and the buffer is committed with `pos` 0. The header names are taken in an order that lists each key of the map once. |
| OutputBufferProps.OtherFieldsSound | src/main/java/org/example/framework/was/protocol/http/http1/OutputBuffer.java:111-119 | Each extra line names a non-mandatory header of the response and carries one of its values. |
| OutputBufferProps.OtherFieldsComplete | src/main/java/org/example/framework/was/protocol/http/http1/OutputBuffer.java:111-119 | Over the map's key order, the lines of each name are exactly its values, once each and in list order. A mandatory name, or one the map lacks, gets none. |
| OutputBufferProps.OtherFieldsNamed | src/main/java/org/example/framework/was/protocol/http/http1/OutputBuffer.java:111-119 | Over any order without repeats, the lines of a name are that name's own lines when it is listed, and none otherwise. |
| OutputBufferProps.MandatorySkipped | src/main/java/org/example/framework/was/protocol/http/http1/OutputBuffer.java:106-114 | A name whose upper-case form is DATE, SERVER, CONTENT-TYPE or CONTENT-LENGTH gives no extra line. |
| OutputBufferProps.ContentTypeRule | src/main/java/org/example/framework/was/protocol/http/http1/OutputBuffer.java:99-103 | Content-Type is the first value under that exact name when it is non-empty, and "application/octet-stream" otherwise. |
| OutputBufferProps.RenderFieldsAppend | src/main/java/org/example/framework/was/protocol/http/http1/OutputBuffer.java:111-119 | Rendering a concatenation of lines renders each part in turn. |
| OutputBufferProps.RenderFieldsEnd | src/main/java/org/example/framework/was/protocol/http/http1/OutputBuffer.java:111-119 | A non-empty list of lines renders to text ending in CRLF. |
| OutputBufferProps.RenderFieldsAt | src/main/java/org/example/framework/was/protocol/http/http1/OutputBuffer.java:112-119 | Each line appears whole in the rendering. |
| OutputBufferProps.BlockFrame | src/main/java/org/example/framework/was/protocol/http/http1/OutputBuffer.java:121-128 | A status line, lines ending in CRLF and one more CRLF frame the block. |
| OutputBufferProps.HeaderBlockFrame | src/main/java/org/example/framework/was/protocol/http/http1/OutputBuffer.java:82-128 | The block starts with the status line and ends with an empty line. |
| OutputBufferProps.ContainedInBlock | src/main/java/org/example/framework/was/protocol/http/http1/OutputBuffer.java:121-128 | A piece of the header lines is a piece of the whole block. |
| OutputBufferProps.HeaderBlockHas | src/main/java/org/example/framework/was/protocol/http/http1/OutputBuffer.java:90-128 | Every header line is written whole into the block. |
| OutputBufferProps.ContentLengthLine | src/main/java/org/example/framework/was/protocol/http/http1/OutputBuffer.java:94 | The block carries `Content-Length: <body length>`, and parsing that value as a long gives the length back. |
| OutputBufferProps.ContentTypeLine | src/main/java/org/example/framework/was/protocol/http/http1/OutputBuffer.java:99-103 | The block carries the Content-Type line with the rule's value. |
| OutputBufferProps.ResponseFieldsAfterFixed | src/main/java/org/example/framework/was/protocol/http/http1/OutputBuffer.java:111-119 | After the four fixed lines, the only lines are the response's own non-mandatory headers. |
| OutputBufferProps.WriteBodyExample | src/main/java/org/example/framework/was/protocol/http/http1/OutputBuffer.java:147-186 | 20000 bytes from an empty committed buffer cause two writes, leave 3616 bytes buffered and lose nothing. |
| BeanDefinitions.Decapitalize | src/main/java/org/example/framework/context/BeanDefinition.java:11 | Only the first character is lower-cased, except that a name starting with two capitals is kept. |
| BeanDefinitions.DecapitalizeIdempotent | src/main/java/org/example/framework/context/BeanDefinition.java:11 | Decapitalising twice is decapitalising once. |
| BeanDefinitions.DecapitalizeExamples | src/main/java/org/example/framework/context/BeanDefinition.java:11 | "DummyService" becomes "dummyService", while "URLHandler" and "x" stay as they are. |
| BeanDefinitions.ScopePredicates | src/main/java/org/example/framework/context/BeanDefinition.java:38-44 | `isSingleton` holds exactly for SINGLETON and `isPrototype` exactly for PROTOTYPE, so exactly one of them holds. |
| BeanDefinitions.Define | src/main/java/org/example/framework/context/BeanDefinition.java:22-26 | The three-argument constructor stores its arguments unchanged. |
| BeanDefinitions.DefineClass | src/main/java/org/example/framework/context/BeanDefinition.java:10-12 | A definition from the class alone is a singleton named after the decapitalised simple name. |
| BeanDefinitions.DefineNamed | src/main/java/org/example/framework/context/BeanDefinition.java:14-16 | A definition from a class and a name is a singleton with that name. |
| BeanDefinitions.DefineScoped | src/main/java/org/example/framework/context/BeanDefinition.java:18-20 | A definition from a class and a scope has that scope and the class's default name. |
| BeanRegistry.RegisterNew | src/main/java/org/example/framework/context/MyBeanDefinitionRegistry.java:19-23 | A new name is stored with its definition, a null one included, and the count grows by one. |
| BeanRegistry.RegisterTaken | src/main/java/org/example/framework/context/MyBeanDefinitionRegistry.java:20-21 | A taken name keeps its first definition, and the count is unchanged. |
| BeanRegistry.RegisterOthers | src/main/java/org/example/framework/context/MyBeanDefinitionRegistry.java:19-23 | Every other name keeps its presence and its definition. |
| BeanRegistry.RegisterTwice | src/main/java/org/example/framework/context/MyBeanDefinitionRegistry.java:19-23 | A second registration of a name changes nothing, whatever it carries. |
| BeanRegistry.MyBeanDefinitionRegistry.constructor | src/main/java/org/example/framework/context/MyBeanDefinitionRegistry.java:14-16 | A new registry holds no definitions. |
| BeanRegistry.MyBeanDefinitionRegistry.RegisterBeanDefinition | src/main/java/org/example/framework/context/MyBeanDefinitionRegistry.java:19-23 | The map becomes the one `Registered` describes: unchanged for a taken name, extended for a new one, also with a null definition. |
| BeanRegistry.MyBeanDefinitionRegistry.GetBeanDefinition | src/main/java/org/example/framework/context/MyBeanDefinitionRegistry.java:26-28 | The stored definition. It is null exactly when the name is not registered or was registered with null. The null name is a name like any other. |
| BeanRegistry.MyBeanDefinitionRegistry.GetBeanDefinitionCount | src/main/java/org/example/framework/context/MyBeanDefinitionRegistry.java:36-38 | The count is the number of registered names, null definitions included. It is zero exactly when nothing is registered. |
| BeanRegistry.MyBeanDefinitionRegistry.ContainsBeanDefinition | src/main/java/org/example/framework/context/MyBeanDefinitionRegistry.java:41-43 | An unregistered name looks up as null, and a name that looks up non-null is registered. |
| BeanRegistry.MyBeanDefinitionRegistry.GetBeanDefinitionNames | src/main/java/org/example/framework/context/MyBeanDefinitionRegistry.java:31-38 | As many names as the count, each once, and exactly the registered ones. |
| BeanFactories.PublicConstructors | src/main/java/org/example/framework/context/MyBeanFactory.java:224 | `getConstructors()` gives exactly the public declared constructors. |
| BeanFactories.AutowiredOf | src/main/java/org/example/framework/context/MyBeanFactory.java:227-230 | The filter keeps exactly the constructors marked `@Autowired`. |
| BeanFactories.NoArgConstructor | src/main/java/org/example/framework/context/MyBeanFactory.java:244-247 | `getDeclaredConstructor()` finds a declared constructor without parameters, or there is none. |
| BeanFactories.ResolveConstructor | src/main/java/org/example/framework/context/MyBeanFactory.java:223-249 | A chosen constructor is one the class declares. Every failure is one of the two IllegalStateExceptions, naming the class. |
| BeanFactories.NoneMarked | src/main/java/org/example/framework/context/MyBeanFactory.java:227-230 | The marked list is empty exactly when no public constructor is marked. |
| BeanFactories.ResolveAmbiguous | src/main/java/org/example/framework/context/MyBeanFactory.java:233-238 | Two or more marked constructors, and only they, throw "Multiple @Autowired". Exactly one marked constructor is chosen. |
| BeanFactories.ResolveChoice | src/main/java/org/example/framework/context/MyBeanFactory.java:223-249 | The chosen constructor is declared by the class. An unmarked choice means none is marked. A non-public choice takes no arguments. |
| BeanFactories.ResolveNoDefault | src/main/java/org/example/framework/context/MyBeanFactory.java:240-247 | The choice fails for want of a constructor exactly when none is marked, there is not exactly one public constructor, and none takes no arguments. |
| BeanFactories.MarkedConstructorWins | src/main/java/org/example/framework/context/MyBeanFactory.java:223-238 | The one marked public constructor wins even beside another constructor. |
| BeanFactories.MyBeanFactory.constructor | src/main/java/org/example/framework/context/MyBeanFactory.java:22-27 | A new factory has an empty singleton cache over the given registry. |
| BeanFactories.MyBeanFactory.ContainsSingleton | src/main/java/org/example/framework/context/MyBeanFactory.java:44-46 | Exactly the names in the singleton cache. |
| BeanFactories.MyBeanFactory.ContainsBean | src/main/java/org/example/framework/context/MyBeanFactory.java:36-38 | Every cached name and every registered name counts as a bean, and nothing else does. |
| BeanFactories.MyBeanFactory.GetBeanDefinitionOrThrow | src/main/java/org/example/framework/context/MyBeanFactory.java:170-174 | The stored definition, which may be null, or NoSuchBeanDefinition exactly when the name is unregistered. |
| BeanFactories.MyBeanFactory.GetType | src/main/java/org/example/framework/context/MyBeanFactory.java:116-121 | The cached instance's class if there is one, else the definition's class. Otherwise NoSuchBeanDefinition for an unknown name, and NullPointerException for a null definition. |
| BeanFactories.MyBeanFactory.IsPrototype | src/main/java/org/example/framework/context/MyBeanFactory.java:131-133 | Throws NoSuchBeanDefinition for unregistered names and NullPointerException for a null definition. Otherwise it is true exactly for PROTOTYPE definitions. |
| BeanFactories.MyBeanFactory.IsSingleton | src/main/java/org/example/framework/context/MyBeanFactory.java:143-145 | Throws NoSuchBeanDefinition for unregistered names and NullPointerException for a null definition. Otherwise it is true exactly for SINGLETON definitions. |
| BeanFactories.MyBeanFactory.IsTypeMatch | src/main/java/org/example/framework/context/MyBeanFactory.java:159-162 | Throws NoSuchBeanDefinition for unregistered names and NullPointerException for a null definition. Otherwise it is true exactly when the type is the definition's class or one of its supertypes. |
| BeanFactories.MyBeanFactory.CreateBean | src/main/java/org/example/framework/context/MyBeanFactory.java:187-203 | A null definition throws NullPointerException. A failed constructor choice becomes BeanCreationException. Otherwise a fresh object of the class is made with the chosen constructor. |
| BeanFactories.MyBeanFactory.GetBean | src/main/java/org/example/framework/context/MyBeanFactory.java:93-105 | A cached name gives the cached object without a change. An unknown name throws, and so does a null definition. A singleton is created and cached. A prototype is created and not cached. |
| BeanFactoryProps.ScopeQueriesAgree | src/main/java/org/example/framework/context/MyBeanFactory.java:131-145 | `isSingleton` and `isPrototype` throw for the same names and otherwise disagree. |
| BeanFactoryProps.ContainsBeanIsRegistered | src/main/java/org/example/framework/context/MyBeanFactory.java:36-46 | In a sound factory, `containsBean` is `containsBeanDefinition`, and a cached name is a singleton. |
| BeanFactoryProps.TypeOfRegistered | src/main/java/org/example/framework/context/MyBeanFactory.java:116-162 | A registered bean's type is its definition's class. It matches that class and every supertype. |
| BeanFactoryProps.UnknownName | src/main/java/org/example/framework/context/MyBeanFactory.java:116-174 | For an unknown name, every query throws NoSuchBeanDefinition. |
| BeanFactoryProps.NullDefinition | src/main/java/org/example/framework/context/MyBeanFactory.java:36-174 | A name registered with null counts as a bean but is not cached. Its definition looks up as null, and every query that reads the definition throws NullPointerException. |
| BeanFactoryProps.GetBeanTwice | src/main/java/org/example/framework/context/MyBeanFactory.java:93-105 | Two lookups: a singleton gives the identical object and is cached. A prototype gives two different objects and is never cached. |
| BeanFactoryProps.RegisterKeepsValid | src/main/java/org/example/framework/context/MyBeanDefinitionRegistry.java:19-23 | Registering more definitions keeps the cache consistent with the registry. |

## Left out

- Input and output errors: IOException from the streams is not modelled. Streams are byte sequences and logs that never fail.
- Character decoding: `new String(bytes, UTF_8)` in `readLine` is modelled as one character per byte. This is exact for ASCII only.
- Case mapping: `toUpperCase`, `toLowerCase`, `equalsIgnoreCase` and `Introspector.decapitalize` are modelled for ASCII letters only.
- Hash map order: the order in which the response's header map yields its names is a parameter of `SendHeaders`. It must list each key once (`IsKeyOrder`), and every contract holds for every such order.
- Clock and configuration: the Date value (`HttpDateUtil.now()`) and `ServerMetadata.SERVER_NAME` are parameters of `SendHeaders`. ServerMetadata is not part of this model.
- Threads, sockets, the endpoint, the connector, the socket processor and the protocol handler stubs are not modelled. None of them holds sequential logic to verify.
- The legacy parser `src/main/java/org/example/framework/was/protocol/http/Http1RequestParser.java` is superseded by the `http1` one and not modelled.
- RequestParserProps: there is no worked example of a full request with header lines, such as the one with Host and Connection in the parser's tests. The header loop is covered line by line by `HeaderLineStep` and `PutAllValues`, and a full parse only by `RequestWithoutHeaders`.
- The request's version stays the string token the parser passes. The response's version is the `HttpProtocolVersion` enum.
- `HttpResponse` and `HttpRequest` are plain records, since they only have getters. A request handed out by `Parse` carries a fresh `HttpHeader` object.
- HttpBodies.HttpBody: a body is a value, so the array aliasing of `getData()` and the new-object identity of each `empty()` call are not modelled. `getAsString` (charset decoding) is left out.
- Reflection: `newInstance`, `isAssignableFrom` and annotations are modelled as data.
  - A class is its name, simple name, supertypes and declared constructors.
  - Instantiation is an allocator that numbers its objects.
- BeanFactories.MyBeanFactory.CreateBean: only the IllegalStateException of the constructor choice becomes BeanCreationException, and a null definition gives NullPointerException. Exceptions thrown by a constructor itself are not modelled.
- `injector.inject` and `resolveConstructorArgs` are not modelled. Field injection and argument lookup are reflective, and constructor arguments do not influence which constructor is chosen.
- `getBean(Class)` is not modelled. It calls `registry.getBeanDefinitions()`, which `MyBeanDefinitionRegistry` does not provide.
- `getAliases` is not modelled, since it always returns an empty array.
- Content-Length that is not a number gives NumberFormatException, modelled as its own error. A length whose `(int)` cast is negative gives NegativeArraySizeException, also its own error. Lengths below Integer.MIN_VALUE can wrap to a size of zero or more and are then read (see Findings).

## Findings

`parse` is modelled as written: `ParseBody`, `BodyPhase`, `ParseSpec` and `Parse` go through `BodyReadAsWritten`. `BodyRead` is the corrected read, and `BodyReadAgreesFromIntMin` shows the two differ only below Integer.MIN_VALUE.

| source | as written | input that shows it | evidently intended | confidence | as-written member | corrected member |
|---|---|---|---|---|---|---|
| src/main/java/org/example/framework/was/protocol/http/http1/Http1RequestParser.java:134 | `new byte[(int) contentLength]` truncates the long to 32 bits, so a very negative Content-Length can wrap to a small positive size | Content-Length -4294967295 wraps to 1, and one byte is read as the body | every negative length is refused, as NegativeArraySizeException refuses -1 | not executed | RequestParser.BodyReadAsWritten, RequestParserProps.NegativeLengthReadsOneByte | RequestParser.BodyRead |
