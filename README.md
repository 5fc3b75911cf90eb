# whoami: the synthetic content stream and the request logic of its HTTP servers

whoami is a small Go HTTP service that reports on the host and the request it receives. This
project models the parts of it that compute something and proves what they compute.

- **The `/data` payload** (`Content`, `ContentProperties`). The reader is a seekable byte stream
  whose contents are never stored. Each byte is computed from the read position alone:
  - the marker `|` goes at offset 0;
  - the alphabet `-ABCDEFGHIJKLMNOPQRSTUVWXYZ` is cycled with period 27 at every other offset;
  - the last byte of a read that reaches `size - 1` is overwritten with the marker.

  `ContentReader` is a class with `size` and `current` fields. Its `Read` method fills an
  `array<byte>` in place and is proved against the pure function `ReadStep`. Its `Seek` method
  is proved against `SeekOutcome`, with Go's int64 wrap-around written out.

  The lemmas cover:
  - what one read delivers;
  - what any sequence of reads delivers (`Drain`), and that the result depends on the chunking;
  - what a consumer that reads with one buffer until EOF receives (`ReadToEof`): the whole
    payload, or the payload cut one byte short when the capacity divides `size - 1`;
  - how `Seek` moves the cursor.
- **The size of `/data`** (`InternalHttpServer.ResolveSize`): the `size` and `unit` query
  parameters become a byte count or a 400 error. This uses:
  - the units `KB` to `TB`, defined as `1 << (10 * iota)` and proved equal to 1024^1 … 1024^4;
  - int64 wrap-around on both `*= -1` and `*= unit`.
- **The settable health status** of the two servers, written as classes with `Get` and `Post`
  methods. Each is proved against a pure outcome function:
  - `InternalHttpServer.HealthState` for `/health`: accepts codes in [100, 599] and replies 202;
  - `HttpServer.HealthzState` for `/healthz`: accepts codes in [200, 599] and replies 204.
- **The access-log path filters** `SkipURLPath` and `Skipper`, the status query `GetStatus`, and
  the plain-text report of `WhoamiPlain`.

Shared modules:
- `Wrappers`: Option and Result.
- `GoInt`: int64 and its wrap-around.
- `Strconv`: a signed-decimal parser and printer standing in for `strconv.ParseInt`, `Atoi`
  and `%d`, with the round trip proved.
- `Strings`: `HasPrefix`, ASCII `ToLower`, `Join` and `Split`, with split-after-join proved.
- `Http`: reply codes and reply values.

Inputs that come from outside become parameters:
- the request body, or the read error in its place;
- the query parameters, as `Option<string>`, `None` when absent;
- the host and request data behind `WhoamiPlain`.

## Model

| member | source | states |
|---|---|---|
| Content.ReadStep | internal/httpserver/content.go:16-44 | A read is EOF exactly when the cursor is at or past size - 1. Otherwise it returns at most cap bytes and never runs past size, and at least one byte when cap > 0. When the read reaches size - 1 its last byte is the marker. |
| Content.ContentReader.constructor | internal/httpserver/content.go:10-13 | A fresh reader has the given size and its cursor at 0. |
| Content.ContentReader.Read | internal/httpserver/content.go:16-44 | Read returns what ReadStep describes for the old cursor and the buffer's length: EOF with no bytes, or exactly ReadStep's bytes in p[..n]. It leaves p[n..] untouched, advances the cursor by n, and keeps it non-negative. |
| Content.SeekOutcome | internal/httpserver/content.go:47-66 | Seek fails with an invalid whence exactly when whence is not Start, Current or End. A success is never negative. |
| Content.ContentReader.Seek | internal/httpserver/content.go:47-66 | Seek returns SeekOutcome of the old cursor. A success moves the cursor to the target with no upper clamp. A failure leaves the cursor where it was. |
| ContentProperties.ReadStepBytes | internal/httpserver/content.go:26-41 | A read from cursor cur yields the payload's bytes cur .. cur + n - 1. The one exception is a read that stops exactly at size - 1: it yields the payload up to size - 3 followed by the marker. |
| ContentProperties.CharsetAvoidsBoundary | internal/httpserver/content.go:8 | No alphabet entry is the marker. |
| ContentProperties.SingleReadIsWholeStream | internal/httpserver/content.go:16-43 | A fresh reader of size 2 or more, read with a buffer of at least size bytes, returns the whole payload, which begins and ends with the marker. The next read is EOF. |
| ContentProperties.ReadEndingAtLastIndex | internal/httpserver/content.go:19-41 | A read that ends with the cursor at size - 1 stamps offset size - 2, which for size >= 3 differs from the payload there. The next read is EOF, so offset size - 1 is never delivered. |
| ContentProperties.Drain | internal/httpserver/content.go:16-44 | Over any sequence of reads the cursor advances by exactly the number of bytes delivered and never passes size. |
| ContentProperties.DrainFromStart | internal/httpserver/content.go:16-44 | However a fresh reader is chunked, what it has delivered is determined by its length alone: a prefix of the payload, except that at size - 1 bytes the last byte delivered is the marker. |
| ContentProperties.ChunkingChangesOutput | internal/httpserver/content.go:33-41 | Size 5 read as 4 + 1 gives `\|AB\|`, while read at once it gives `\|ABC\|`. |
| ContentProperties.ReadToEofFromStart | internal/httpserver/content.go:16-44 | Reading a fresh reader to EOF with one buffer of capacity cap yields the whole payload. When cap divides size - 1 it yields instead size - 1 bytes ending in the marker. |
| ContentProperties.SeekArithmetic | internal/httpserver/content.go:48-65 | Without overflow, Seek targets offset, cursor + offset or size - 1 + offset, and fails exactly when the target is negative. |
| ContentProperties.SeekToEnd | internal/httpserver/content.go:19-56 | Seek(0, End) reports size - 1, and a read from there is EOF. |
| ContentProperties.SeekOverflowIsRejected | internal/httpserver/content.go:53-61 | MaxInt64 added to cursor 1 wraps negative and is rejected as an invalid offset. |
| ContentProperties.ReplayFromStart | internal/httpserver/content.go:16-66 | A full read, an EOF read, Seek(0, Start) and another full read: both full reads deliver the same whole payload. |
| ContentProperties.ReadRange | internal/httpserver/content.go:16-66 | Seeking to first and reading count bytes delivers the payload's offsets from first, cut at size, when the read does not stop at size - 1. |
| InternalHttpServer.SizeUnitIsPowerOf1024 | internal/httpserver/httpserver.go:26-33 | The unit 1 << (10 * iota) equals 1024^iota. |
| InternalHttpServer.SizeUnits | internal/httpserver/httpserver.go:26-33 | KB = 1024, and MB, GB and TB are each 1024 times the previous unit. TB fits in an int64. |
| InternalHttpServer.UnitFactor | internal/httpserver/httpserver.go:321-333 | Every unit factor is at least 1. Unknown units and "b" give 1. |
| InternalHttpServer.ApplyUnit | internal/httpserver/httpserver.go:321-333 | The scaled count agrees with count times factor modulo 2^64, and equals it when that fits in an int64. |
| InternalHttpServer.SizeParameter | internal/httpserver/httpserver.go:301-319 | The size step fails with InvalidSize exactly when the parameter is present and does not parse as an int64. It fails with ZeroSize exactly when it parses to 0. Otherwise it yields the int64 wrap of the magnitude, or 1 when the parameter is absent. |
| InternalHttpServer.ResolveSize | internal/httpserver/httpserver.go:299-333 | The resolution fails exactly when the size step fails, and with the same error. |
| InternalHttpServer.ResolveSizeValue | internal/httpserver/httpserver.go:299-333 | A size that parses to a nonzero value, or no size, is accepted. The count agrees with magnitude times unit modulo 2^64, and equals it when it fits. |
| InternalHttpServer.ResolveSizeIgnoresSign | internal/httpserver/httpserver.go:312-314 | A size of -v resolves like v, for every int64 but the minimum. |
| InternalHttpServer.UnitIsCaseInsensitive | internal/httpserver/httpserver.go:321-322 | A unit resolves like its lower-case form. |
| InternalHttpServer.ResolveSizeDefaults | internal/httpserver/httpserver.go:301-333 | With no parameters the count is 1, and a unit applies even without a size: KB alone gives 1024. |
| InternalHttpServer.ResolveSizeUnitExamples | internal/httpserver/httpserver.go:312-333 | -2 with "Mb" gives 2 MiB. An unknown unit leaves 3 unchanged. |
| InternalHttpServer.ResolveSizeWrapsToZero | internal/httpserver/httpserver.go:312-333 | 2^24 TB wraps to 0 after the zero check has passed. |
| InternalHttpServer.ResolveSizeKeepsMinimum | internal/httpserver/httpserver.go:312-314 | The most negative size stays negative after `*= -1`. |
| InternalHttpServer.SkipURLPath | internal/httpserver/httpserver.go:189-197 | True exactly when some entry of the exclude list is a prefix of the path. An empty list gives false. |
| InternalHttpServer.HealthBodyCarriesStatus | internal/httpserver/httpserver.go:269-271 | The GET body `{"status":N}` holds the status in decimal between the key and the closing brace, and parses back to it. |
| InternalHttpServer.HealthPost | internal/httpserver/httpserver.go:237-267 | The POST outcome is one of three: a 500 exactly when the body cannot be read; a 202 exactly when it holds an integer in [100, 599]; a 400 exactly in every other case, namely an empty body, a non-integer or an integer out of range. Only a 202 changes the status, to the posted code. |
| InternalHttpServer.HealthPostFormatted | internal/httpserver/httpserver.go:252-264 | Posting the decimal form of any code in [100, 599] is accepted and sets that code. |
| InternalHttpServer.HealthState.constructor | internal/httpserver/httpserver.go:35 | The status starts at 200. |
| InternalHttpServer.HealthState.Get | internal/httpserver/httpserver.go:269-271 | GET replies with the status as the code and `{"status":N}` as the body. |
| InternalHttpServer.HealthState.Post | internal/httpserver/httpserver.go:237-267 | POST replies with HealthPost's reply and leaves HealthPost's status. The status stays in [100, 599]. |
| InternalHttpServer.HealthState.Handle | internal/httpserver/httpserver.go:235-272 | POST goes to HealthPost. Every other method reads the status and changes nothing. |
| InternalHttpServer.PostThenGet | internal/httpserver/httpserver.go:235-272 | A fresh server answers 200. After a POST of a code in [100, 599], which is answered 202, it answers that code. |
| HttpServer.Skipper | httpserver/httpserver.go:76-83 | True exactly when some entry of logURLExcludes is a prefix of the route path. |
| HttpServer.HealthzBodyCarriesStatus | httpserver/httpserver.go:102-104 | The GET body `{"status":"N"}` holds the status in decimal between the quotes, and parses back to it. |
| HttpServer.HealthzPost | httpserver/httpserver.go:106-118 | The POST outcome is one of two: a 204 exactly when the body holds an integer in [200, 599], and a 400 otherwise. Each rejection keeps the status and carries the message for its case. |
| HttpServer.HealthzPostFormatted | httpserver/httpserver.go:112-117 | Posting the decimal form of any code in [200, 599] is accepted and sets that code. |
| HttpServer.HealthzState.constructor | httpserver/httpserver.go:25 | The status starts at 200. |
| HttpServer.HealthzState.Get | httpserver/httpserver.go:102-104 | GET replies with the status as the code and `{"status":"N"}` as the body. |
| HttpServer.HealthzState.Post | httpserver/httpserver.go:106-118 | POST replies with HealthzPost's reply and leaves HealthzPost's status. The status stays in [200, 599]. |
| HttpServer.PostThenGet | httpserver/httpserver.go:102-118 | A fresh server answers 200, and a rejected POST is a 400. After an accepted POST of a code it answers that code. |
| Handlers.GetStatus | httpserverb/handlers/handlers.go:89-99 | The result is always in [200, 599]. It is 200 for an empty query, the value itself for an integer in [200, 599], and 400 for anything else. |
| Handlers.GetStatusOfCode | httpserverb/handlers/handlers.go:89-99 | The decimal form of c gives c when c is in [200, 599], and 400 otherwise. |
| Handlers.WhoamiPlain | httpserverb/handlers/handlers.go:112-127 | The reply code is getStatus of the query. |
| Handlers.PlainLinesAreLabelled | httpserverb/handlers/handlers.go:117-127 | There are nine lines, and line i is label i, then ": ", then value i, in the fixed order from Hostname to RequestID. |
| Handlers.WhoamiPlainLines | httpserverb/handlers/handlers.go:117-127 | When no value holds a newline, splitting the body at "\n" gives back exactly the nine lines, so the body has no trailing newline. |
| Handlers.WhoamiPlainAddresses | httpserverb/handlers/handlers.go:118 | For a non-empty address list in which no address holds a comma, splitting the IP value at "," gives back the list. |
| Strconv.ParseInt | internal/httpserver/httpserver.go:304 | The parse accepts exactly the optionally signed decimals (`[+-]?[0-9]+`) within the int64 range, with the value they denote. The empty string is rejected. |
| Strconv.ParseIntFormat | internal/httpserver/httpserver.go:252 | Parsing an int64's decimal form gives the int64 back. |
| Strings.SplitJoin | httpserverb/handlers/handlers.go:117 | Splitting a join recovers the parts when no part contains the separator. |

## Left out

- Content.ContentReader: a reader of size MinInt64 is excluded by the constructor's precondition. In Go, `size - 1` wraps to MaxInt64 there, and the reader runs until its cursor overflows. `InternalHttpServer.ResolveSizeKeepsMinimum` shows that `/data` can build such a reader.
- Content.ContentReader.Seek: Go returns `0` next to an error. The model returns only the error, since the value is meaningless.
- `http.ServeContent`, `io.Copy` and range requests are library code. `ContentProperties.ReadToEof` and `ContentProperties.Drain` model only the way they drive `Read`.
- Strconv.ParseInt: the error values of `strconv.ParseInt` and `Atoi` are reduced to `None`, and the text of a parse error is the opaque `ParseErrorText`.
- Strings.ToLower: only ASCII letters are lowered. Go's Unicode case mapping, for example the Kelvin sign lowering to `k`, is not modelled.
- InternalHttpServer.HealthState.Get: a status in [100, 199] is written with `WriteHeader`. net/http's treatment of informational codes is not modelled.
- The health status is a package variable shared by concurrent requests without synchronisation. The model has a single owner and runs sequentially.
- Not modelled: server construction, TLS and mTLS loading, the middleware, request-ID generation, access-log printing, the delay middleware and `time.Sleep`, Prometheus metrics, routing, configuration, loggers, the upload handler, and `WhoamiJSON`'s JSON encoding.
- Not modelled: host data gathering (`getRequestInfo`: hostname, interface addresses and headers). Its result is the `Handlers.JSONResponse` parameter.
