# JiraNotes local HTTP server — a Dafny model

JiraNotes is a macOS menu-bar app. It keeps one JSON note per Jira ticket
in a folder the user picks, and serves those notes to a Safari extension
over a tiny hand-written HTTP/1.1 server on `127.0.0.1:18427`. This project
models the part of that server that is protocol logic. Nothing in it touches
a socket.

- **Request parser** (`SimpleHTTPServer.parseRequest`). The raw bytes of one
  receive are decoded as UTF-8. Undecodable bytes give the fallback request
  `GET /`. The text is cut at every empty line (`"\r\n\r\n"`): the first
  piece is the head and the second piece, if there is one, is the body. The
  first line of the head is split at spaces into method and target, with
  `GET` and `/` as defaults. The target is cut at its first `?` into path
  and query. The query is split at `&` and `=`, and only its values are
  percent-decoded (section 2.1 of RFC 3986).
  (`Request.Parse`, and the step-by-step methods `Request.ParseRequest` and
  `Request.ParseQuery`.)
- **Response serialiser** (the byte-building part of `send`):
  - the status line (section 4 of RFC 9112);
  - then the handler's header fields in order;
  - then three CORS fields, `Content-Length` (section 8.6 of RFC 9110) and
    `Connection: close`;
  - then one empty line and the body.

  (`Response.Send` against the specification `Response.Wire`.)
- **Response constructors** `okJSON`, `okJSONText`, `bad` and `notFound`.
- **Router**, the `onRequest` closure of `startServer`. The notes folder is
  a store of files (`map` from file name to bytes). The folder itself is an
  `Option`. The outcome of the atomic file write is a parameter chosen by the
  environment: `Written(report)` or `WriteFailed(reason)`.
  (`Router.Route`, and the class `Router.NoteServer`, whose `Receive` method
  handles one received chunk and updates the store in place.)

Supporting modules:

- `Utf8`: an RFC 3629 encoder and a strict decoder, proved to be inverse in
  both directions.
- `Percent`: `removingPercentEncoding`, plus the browser's
  `encodeURIComponent`, with which the extension builds its query strings.
  A round trip connects the two.
- `Decimal`: the `Content-Length` numeral and its value.
- `Seqs`: the Foundation and Swift string splitting that the parser uses.
  `components(separatedBy:)` keeps empty pieces. `split` omits them.

## Behaviour worth knowing

- The path is never percent-decoded: `path = pq[0]` is used as it is
  (JiraNotes/SimpleRequest.swift:150), and so is `Request.PathOf`. Only
  query values are decoded.
- `notFound` sends the body `Not Found`, 9 bytes of `text/plain`
  (JiraNotes/SimpleRequest.swift:39-43, `Response.NotFoundShape`).
- A query pair is cut by `split(separator: "=", maxSplits: 1)`
  (JiraNotes/SimpleRequest.swift:154), which omits empty pieces, so leading
  `=` characters are skipped: `==k=v` sets `k` to `v`, and `k=` and `=v` are
  dropped (`Request.KeyValueShape`, `Request.KeyValueOf`).
- The body is only the text between the first and the second empty line
  (`parts[1]`, JiraNotes/SimpleRequest.swift:141). Text after a second
  `"\r\n\r\n"` is dropped, and `Request.ParseBody` states this. The
  extension sends `JSON.stringify` output, which never contains a raw CR or
  LF, so in practice this does not lose data.

## Model

| member | source | states |
|---|---|---|
| Utf8.Encode | JiraNotes/SimpleRequest.swift:29 | `Data(s.utf8)`: UTF-8 bytes; at least one byte per character, empty exactly for the empty string |
| Utf8.Decode | JiraNotes/SimpleRequest.swift:135-137 | `String(data:encoding: .utf8)` (also behind `bodyString`, :11): strict UTF-8 decoding, `None` on malformed input; its partners are `Utf8.DecodeEncode` and `Utf8.EncodeDecode` |
| Utf8.DecodeFirstEncodeChar | JiraNotes/SimpleRequest.swift:11 | decoding the encoding of one scalar value, whatever follows, gives that value and its byte count |
| Utf8.EncodeCharDecodeFirst | JiraNotes/JiraNotesApp.swift:151-152 | a well-formed leading sequence is exactly the encoding of the value it decodes to |
| Utf8.DecodeEncode | JiraNotes/SimpleRequest.swift:11 | decoding the UTF-8 of any string gives the string back, so `bodyString` of a body built from text is that text |
| Utf8.EncodeDecode | JiraNotes/JiraNotesApp.swift:150-153 | bytes that decode re-encode to themselves, so `/load` returns a stored file's bytes unchanged |
| Utf8.EncodeAscii | JiraNotes/SimpleRequest.swift:124 | an ASCII header text encodes one byte per character, equal to the character's code |
| Utf8.EncodeAvoidsAscii | JiraNotes/SimpleRequest.swift:124 | a text without some ASCII character (such as CR) has no byte of that value in its UTF-8 |
| Seqs.FindFrom | JiraNotes/SimpleRequest.swift:139 | the first occurrence of a separator at or after a position, or none: the search behind `components(separatedBy:)` |
| Seqs.Components | JiraNotes/SimpleRequest.swift:139 | `components(separatedBy:)`: at least one piece, and no piece contains the separator |
| Seqs.Join | JiraNotes/SimpleRequest.swift:124 | `joined(separator:)`; its partners are `Seqs.JoinComponents` and `Seqs.JoinWithBlankLine` |
| Seqs.JoinComponents | JiraNotes/SimpleRequest.swift:139 | joining the pieces with the separator rebuilds the text |
| Seqs.ComponentsNone | JiraNotes/SimpleRequest.swift:139 | a text without the separator is a single piece |
| Seqs.ComponentsCount | JiraNotes/SimpleRequest.swift:141 | there is more than one piece exactly when the separator occurs |
| Seqs.FirstComponent | JiraNotes/SimpleRequest.swift:140 | the first piece is the text before the first separator |
| Seqs.SecondComponent | JiraNotes/SimpleRequest.swift:141 | the second piece lies between the first and the second separator, or runs to the end |
| Seqs.Tokens | JiraNotes/SimpleRequest.swift:145 | `split(separator:)` with empty pieces omitted: no piece is empty or holds the separator |
| Seqs.TokensOfJoin | JiraNotes/SimpleRequest.swift:145 | splitting words joined by single separators gives the words back |
| Seqs.TokensSplit | JiraNotes/SimpleRequest.swift:145 | splitting at any one separator gives the tokens of the text before it followed by the tokens of the text after it |
| Seqs.TokensSkipSeparators | JiraNotes/SimpleRequest.swift:145 | a leading or trailing separator is skipped and two adjacent separators split like one, so repeated spaces in the request line (and repeated `&` at :153) make no empty piece |
| Seqs.FirstIndex | JiraNotes/SimpleRequest.swift:149 | position of the first `?` (or the length): everything before it is free of `?` |
| Seqs.JoinWithBlankLine | JiraNotes/SimpleRequest.swift:121-124 | joining the lines plus two empty strings with CRLF is each line followed by CRLF, then one more CRLF |
| Seqs.FirstEmptyLine | JiraNotes/SimpleRequest.swift:121-125 | in a block of non-empty CR-free lines each ending in CRLF and followed by CRLF, the first `"\r\n\r\n"` is the one ending the block |
| Decimal.Digits | JiraNotes/SimpleRequest.swift:119 | the decimal numeral of `resp.body.count`: digits only, no leading zero |
| Decimal.ValueDigits | JiraNotes/SimpleRequest.swift:119 | the numeral reads back as the number |
| Decimal.DigitsInjective | JiraNotes/SimpleRequest.swift:119 | two body lengths with the same numeral are equal |
| Percent.PercentDecode | JiraNotes/SimpleRequest.swift:156 | `removingPercentEncoding`: every `%` must start two hex digits and the decoded bytes must be UTF-8, else `None`; stated by `Percent.DecodeBytesFails` and `Percent.PercentDecodeBytes`, with `Percent.PercentDecodePlain` and `Percent.PercentRoundTrip` as partners |
| Percent.PercentDecodePlain | JiraNotes/SimpleRequest.swift:156 | a value without `%` decodes to itself |
| Percent.DecodeBytesFails | JiraNotes/SimpleRequest.swift:156 | the escapes fail to decode if and only if some `%` is not followed by two hexadecimal digits (of either case) |
| Percent.PercentDecodeBytes | JiraNotes/SimpleRequest.swift:156 | `removingPercentEncoding` gives `t` if and only if the escapes decode to the UTF-8 bytes of `t`; so it is `nil`, and `?? kv[1]` keeps the raw text, exactly when an escape is bad or the bytes are not UTF-8 |
| Percent.LowerCaseEscapes | JiraNotes/SimpleRequest.swift:156 | `%c3%a9` and `%C3%A9` both decode to the bytes 0xC3 0xA9, and `%c3%a9` to `é` |
| Percent.EncodeBytes | JiraNotes/SimpleRequest.swift:156 | the `encodeURIComponent` text the extension's `content.js` (line 73) sends, which `removingPercentEncoding` later decodes, holds only unreserved characters and `%` triplets |
| Percent.PercentEncode | JiraNotes/SimpleRequest.swift:156 | the extension's `encodeURIComponent` (`content.js`, line 73) whose output that line decodes: only unreserved characters and `%`, empty exactly for the empty string |
| Percent.DecodeEncodeBytes | JiraNotes/SimpleRequest.swift:156 | decoding the `%` form of any bytes gives the bytes back |
| Percent.PercentRoundTrip | JiraNotes/SimpleRequest.swift:156 | `removingPercentEncoding` of `encodeURIComponent(s)` is `s`, for every string |
| Request.LeadingCount | JiraNotes/SimpleRequest.swift:154 | the run of leading `=` characters that `split` skips |
| Request.KeyValue | JiraNotes/SimpleRequest.swift:154-155 | a pair that splits in two has a non-empty key without `=` and a non-empty value |
| Request.KeyValueShape | JiraNotes/SimpleRequest.swift:154-155 | a pair that splits is some `=` characters, the key, `=`, then the value |
| Request.KeyValueOf | JiraNotes/SimpleRequest.swift:154-155 | conversely, every such text splits into exactly that key and value |
| Request.DecodedOrRaw | JiraNotes/SimpleRequest.swift:156 | `removingPercentEncoding ?? raw`: the decoded value, or the raw text when decoding fails; stated by `Request.QueryLastWins` |
| Request.QueryOf | JiraNotes/SimpleRequest.swift:151-158 | every key of the query dictionary is non-empty and `=`-free |
| Request.QueryKeys | JiraNotes/SimpleRequest.swift:153-157 | a key is in the dictionary if and only if some retained pair sets it |
| Request.QueryKeySource | JiraNotes/SimpleRequest.swift:153-157 | names a pair that sets any key in the dictionary |
| Request.QueryKeyKept | JiraNotes/SimpleRequest.swift:153-157 | a key set by any pair is in the dictionary |
| Request.QueryStep | JiraNotes/SimpleRequest.swift:156 | one more pair adds only its own key and leaves other entries alone |
| Request.QueryLastWins | JiraNotes/SimpleRequest.swift:156 | with duplicate keys the last pair gives the value: its percent-decoding, or the raw text when decoding fails |
| Request.Request.BodyString | JiraNotes/SimpleRequest.swift:11 | `bodyString`: the strict UTF-8 decoding of the body, missing when there is no body or it is not UTF-8; the `/save` guard and the stored text; stated by `Request.ParseBodyString` |
| Request.PathOf | JiraNotes/SimpleRequest.swift:149-150 | the path holds no `?` |
| Request.TargetWithoutQuery | JiraNotes/SimpleRequest.swift:149-152 | a target without `?` is all path, not decoded, with an empty query |
| Request.QueryMapOf | JiraNotes/SimpleRequest.swift:149-158 | the query dictionary of a target: empty without `?`, else built from the text after the first `?`; stated by `Request.TargetWithoutQuery` and `Request.TargetWithQuery` |
| Request.Parse | JiraNotes/SimpleRequest.swift:134-162 | the parsed method is a non-empty word without spaces; the path has no `?` |
| Request.ParseQuery | JiraNotes/SimpleRequest.swift:151-158 | the dictionary loop builds exactly the dictionary of the `&`-separated pairs |
| Request.ParseRequest | JiraNotes/SimpleRequest.swift:134-162 | the imperative rendering of `parseRequest`, step by step as the source runs, returns exactly the request that the functional specification `Parse` gives (the two are kept apart on purpose: one is the program, the other its specification) |
| Request.ParseUndecodable | JiraNotes/SimpleRequest.swift:135-137 | bytes that are not UTF-8 give `GET /` with an empty query and no body |
| Request.ParseEmptyFirstLine | JiraNotes/SimpleRequest.swift:144-147 | an empty input or an empty first line gives `GET /` with an empty query |
| Request.ParseNoBody | JiraNotes/SimpleRequest.swift:139-141 | the body is absent if and only if the text holds no `"\r\n\r\n"` |
| Request.ParseBody | JiraNotes/SimpleRequest.swift:139-141 | the body is exactly the text between the first and the second `"\r\n\r\n"`, or to the end |
| Request.ParseBodyString | JiraNotes/SimpleRequest.swift:11 | `bodyString` is missing exactly when the body is, and otherwise encodes back to the body |
| Request.HeadFirstLine | JiraNotes/SimpleRequest.swift:140-144 | the first line of the head is the text before the first CRLF of the whole input |
| Request.ParseRequestLine | JiraNotes/SimpleRequest.swift:144-147 | method and target are the first and second space-separated words of the first line, `GET` and `/` when missing |
| Request.KeyUntouched | JiraNotes/SimpleRequest.swift:154-156 | a pair that does not set a key leaves that key's value as it was |
| Request.QueryOfEncoded | JiraNotes/SimpleRequest.swift:153-157 | percent-encoded `key=value` pairs build the dictionary of the fields, with later fields winning |
| Request.QueryRoundTrip | JiraNotes/SimpleRequest.swift:153-157 | a query string the extension writes parses back to its fields |
| Request.TargetWithQuery | JiraNotes/SimpleRequest.swift:149-157 | `path?query` splits back into the path and the fields' dictionary |
| Request.WordsOfRequestLine | JiraNotes/SimpleRequest.swift:145 | a request line `M T HTTP/1.1` splits into its three words |
| Request.ParseRequestText | JiraNotes/SimpleRequest.swift:134-162 | a request a client writes parses to its method, target and body |
| Request.SplitRequestText | JiraNotes/SimpleRequest.swift:139-144 | a client's request text cuts at its empty line into the head (whose first line is the request line) and the body |
| Request.ParseClientRequest | JiraNotes/SimpleRequest.swift:134-162 | a client request for `path?query` with a body parses to that method, the path, the query's dictionary and the body's bytes |
| Response.OkJSON | JiraNotes/SimpleRequest.swift:19-24 | `okJSON`: `200 OK`, `application/json`, the serialised bytes as body; well formed by `Response.JsonShapesWellFormed` |
| Response.OkJSONText | JiraNotes/SimpleRequest.swift:26-30 | `okJSONText`: stated by `Response.OkJSONTextShape` |
| Response.Bad | JiraNotes/SimpleRequest.swift:32-37 | `bad`: stated by `Response.BadShape` |
| Response.NotFound | JiraNotes/SimpleRequest.swift:39-43 | `notFound`: stated by `Response.NotFoundShape` |
| Response.Wire | JiraNotes/SimpleRequest.swift:104-125 | the bytes `send` hands to the connection: the UTF-8 header block, then the body; `Response.Send` computes it, and `Response.WireFraming` and `Response.ContentLengthAgrees` state its framing |
| Response.FieldLines | JiraNotes/SimpleRequest.swift:109-111 | one `k: v` line per handler header |
| Response.HeaderLines | JiraNotes/SimpleRequest.swift:105-120 | the status line, the handler's lines, five fixed lines: `|headers| + 6` lines |
| Response.Send | JiraNotes/SimpleRequest.swift:104-125 | the header loop and the appends build exactly the wire bytes `Wire(resp)` |
| Response.HeadLayout | JiraNotes/SimpleRequest.swift:105-124 | the head is `HTTP/1.1 <status>`, the handler fields in order, the three CORS fields, `Content-Length`, `Connection: close`, each followed by CRLF, then one CRLF |
| Response.CorsText | JiraNotes/SimpleRequest.swift:114-116 | the three CORS lines, each followed by CRLF, are exactly the text of the three fields |
| Response.HeadBytes | JiraNotes/SimpleRequest.swift:121-124 | the header block's bytes are each line's UTF-8 followed by bytes 13, 10, then 13, 10 |
| Response.EncodeTerminated | JiraNotes/SimpleRequest.swift:124 | encoding the CRLF-terminated lines is terminating the encoded lines with bytes 13, 10 |
| Response.HeaderLinesClean | JiraNotes/SimpleRequest.swift:105-120 | every header line is non-empty and free of CR when the fields are |
| Response.CorsClean | JiraNotes/SimpleRequest.swift:114-116 | the CORS lines are non-empty and free of CR |
| Response.TailClean | JiraNotes/SimpleRequest.swift:119-120 | the `Content-Length` line and `Connection: close` are non-empty and free of CR |
| Response.WireFraming | JiraNotes/SimpleRequest.swift:121-125 | the first `"\r\n\r\n"` of the wire bytes ends the header block, and exactly the body follows it |
| Response.ContentLengthAgrees | JiraNotes/SimpleRequest.swift:119 | the `Content-Length` line's value is the number of bytes after the header block |
| Response.JsonShapesWellFormed | JiraNotes/SimpleRequest.swift:19-37 | the JSON response shapes have CR- and LF-free status and fields |
| Response.TextShapesWellFormed | JiraNotes/SimpleRequest.swift:39-43 | the plain-text response shapes have CR- and LF-free status and fields |
| Response.OkJSONTextShape | JiraNotes/SimpleRequest.swift:26-30 | `okJSONText(s)` is `200 OK`, `application/json`, and its body decodes to `s` |
| Response.BadShape | JiraNotes/SimpleRequest.swift:32-37 | `bad(m)` is `400 Bad Request`, `application/json`, body `{"error":"` + m + `"}` without escaping |
| Response.NotFoundShape | JiraNotes/SimpleRequest.swift:39-43 | `notFound()` has status `404 Not Found`, the one field `Content-Type: text/plain`, a 9-byte body that decodes to `Not Found`, and is well formed. |
| Router.Route | JiraNotes/JiraNotesApp.swift:135-184 | `onRequest`: the response and the store afterwards; stated by `Router.RouteShape`, `Router.RouteStore`, `Router.RouteFraming` and the per-arm lemmas below |
| Router.EndpointOf | JiraNotes/JiraNotesApp.swift:137-182 | the arm of the `switch` a method and path reach; stated in both directions by `Router.EndpointCases` |
| Router.Load | JiraNotes/JiraNotesApp.swift:143-155 | the `/load` arm; stated by `Router.RouteLoad`, `Router.LoadShape` and `Router.LoadSaved` |
| Router.Save | JiraNotes/JiraNotesApp.swift:156-175 | the `/save` arm; stated by `Router.RouteSaveMissing`, `Router.RouteSaveWritten`, `Router.RouteSaveFailed` and `Router.SaveShape` |
| Router.EndpointCases | JiraNotes/JiraNotesApp.swift:137-182 | which arm of the switch a method and path reach, in both directions: exact matches for the four routes, OPTIONS on any path, the default for everything else |
| Router.NoteFile | JiraNotes/JiraNotesApp.swift:150 | the note's file name `"\(tid).json"`, the same at :169 for the write; stated by `Router.NoteFileInjective` |
| Router.NoteFileInjective | JiraNotes/JiraNotesApp.swift:150 | two ticket ids have the same note-file name `<id>.json` only if they are the same id (names compared exactly) |
| Router.RoutePingChoose | JiraNotes/JiraNotesApp.swift:138-142 | `GET /ping` and `POST /choose` are exactly `okJSON` of the bytes of `{"ok":true}`, with the store unchanged |
| Router.RouteLoad | JiraNotes/JiraNotesApp.swift:143-155 | `GET /load` answers 200 JSON with the stored bytes when the id, the folder and a UTF-8 file exist, else `{}`; the store is unchanged |
| Router.RouteSaveMissing | JiraNotes/JiraNotesApp.swift:157-161 | a save without ticket id, folder or UTF-8 body is exactly `bad("missing params")`, with the store unchanged |
| Router.RouteSaveWritten | JiraNotes/JiraNotesApp.swift:162-172 | a written save stores exactly the body's bytes under `<id>.json`, keeps every other file, and answers with the write's report |
| Router.RouteSaveFailed | JiraNotes/JiraNotesApp.swift:173-174 | a save whose write throws is exactly `bad("write failed: " + reason)`, with the store unchanged |
| Router.RouteOptions | JiraNotes/JiraNotesApp.swift:176-180 | OPTIONS on any path is `204 No Content`, one `Content-Type: text/plain` field, an empty body |
| Router.RouteUnmatched | JiraNotes/JiraNotesApp.swift:181-182 | every other method and path, matched exactly, is exactly `notFound()`, with the store unchanged |
| Router.RouteStore | JiraNotes/JiraNotesApp.swift:137-183 | the store after any request is the store with the request's own write applied (`WriteOf`): none unless a written save, and then only the ticket's file |
| Router.ApplyCommute | JiraNotes/JiraNotesApp.swift:166-170 | writes to different files can be applied in either order |
| Router.ApplyOverwrite | JiraNotes/JiraNotesApp.swift:170 | a write hides any earlier write to the same file |
| Router.RouteShape | JiraNotes/JiraNotesApp.swift:137-183 | every routed response is JSON with 200 or 400, or plain text with 204 or 404 |
| Router.SaveShape | JiraNotes/JiraNotesApp.swift:156-175 | the `/save` arm answers JSON with `200 OK` or `400 Bad Request` |
| Router.LoadShape | JiraNotes/JiraNotesApp.swift:143-155 | the `/load` arm always answers JSON with `200 OK` |
| Router.ShapedFraming | JiraNotes/SimpleRequest.swift:104-125 | a response of any of those four shapes is well formed and well framed on the wire |
| Router.LoadSaved | JiraNotes/JiraNotesApp.swift:150-153 | a load whose ticket file holds the UTF-8 of a text answers `okJSONText` of that text |
| Router.RouteIsLoad | JiraNotes/JiraNotesApp.swift:143 | `GET /load` reaches the load arm and leaves the store unchanged |
| Router.RouteIsSave | JiraNotes/JiraNotesApp.swift:156 | `POST /save` reaches the save arm |
| Router.RouteFraming | JiraNotes/JiraNotesApp.swift:137-183 | every routed response is well framed on the wire: header block, then exactly its body |
| Router.SaveThenLoad | JiraNotes/JiraNotesApp.swift:150-172 | after a written save, a load of the same ticket id (the same note-file name) is `okJSONText` of the saved text, and the bytes after its header block on the wire are the saved body |
| Router.RoutesCommute | JiraNotes/JiraNotesApp.swift:157-172 | requests for ticket ids with different note-file names leave the same files in either order |
| Router.LastSaveWins | JiraNotes/JiraNotesApp.swift:171 | a written save overrides whatever an earlier request for the same ticket left |
| Router.ClientTicketRequest | JiraNotes/SimpleRequest.swift:134-162 | a request the extension's `content.js` (lines 73-81) writes for `?ticketId=<encodeURIComponent(id)>` parses to that id |
| Router.ClientSaveThenLoad | JiraNotes/JiraNotesApp.swift:143-172 | the extension's (`content.js`, lines 70-82) save, then its load, stores the note's bytes and gets them back as the reply body |
| Router.TicketExchange | JiraNotes/JiraNotesApp.swift:143-172 | for parsed save and load requests of one ticket, the save stores the note's bytes and the load's wire reply carries them after its header block |
| Router.NoteServer.constructor | JiraNotes/JiraNotesApp.swift:134-135 | a server holding the chosen folder and its files |
| Router.NoteServer.Receive | JiraNotes/SimpleRequest.swift:90-93 | an empty chunk gets no answer; otherwise the reply is the wire bytes of the routed parsed request, and the store becomes the routed store |

## Left out

- Sockets, the listener, the receive loop and connection handling
  (`start`, `stop`, `receive`, `connection.send`). These are network I/O
  and concurrency. `NoteServer.Receive` models one received chunk. The
  64 KiB limit of one receive, and requests split across receives, are
  not modelled.
- `okJSON`'s `JSONSerialization` output. This is a foreign library with an
  unspecified key order. `/ping` and `/choose` are fixed to `{"ok":true}`.
  A successful `/save` answers with whatever report the write outcome
  carries.
- The file system. The folder is a map from file name to bytes, and the
  atomic write is an outcome chosen by the environment. The following are
  not modelled:
  - security-scoped access;
  - `resolvingSymlinksInPath`;
  - `createDirectory`;
  - read errors other than a missing file;
  - what a ticket id containing `/` or `..` would reach;
  - how the volume compares file names. The store compares names
    exactly. The default macOS volume compares them without regard to
    case or Unicode normalization, so ids that differ only in case (or in
    normalization) share one file in the program. `Router.NoteFileInjective`,
    `Router.RoutesCommute` and `Router.SaveThenLoad` are facts about the
    store's names. The extension upper-cases every id before it sends it, so
    its own requests never differ only in case.
- The `chooseDir` side effect of `/choose`, and all UI, menus, alerts and
  restart glue in JiraNotesApp.swift. Bookmark.swift is not part of this
  model.
- The `[weak self]` guard (`notFound` when the delegate is gone). The
  delegate lives as long as the app does.
- The `?? notFound()` used when no handler is installed. `startServer`
  always installs one.
- Swift `String` works on grapheme clusters. The model works on Unicode
  scalars: a CR LF pair is one character in Swift. The splitting here gives
  the same pieces for the ASCII separators used, except where a separator
  forms one grapheme cluster with a neighbouring character (a combining
  mark after it, a prepended character before it), which defeats the split
  in Swift and is not captured here. Routing is unaffected, because every
  route literal is ASCII.
- Request.QueryOf, Request.QueryKeys, Request.QueryLastWins: keys are
  compared as sequences of Unicode scalars, not up to canonical
  equivalence as Swift's `String` keys are. A precomposed `é` and `e`
  followed by U+0301 are one dictionary key in Swift, so the later pair
  overwrites the earlier one, but two keys here. The only key the
  routes look up, `ticketId`, is ASCII, and no other scalar sequence is
  canonically equivalent to it, so which pair sets it is the same in both.
- A leading byte-order mark, which Foundation's UTF-8 decoding may strip,
  is kept as a character here.
- `Request.Parse`: states structural facts about every result; the exact
  relation to the input is given piecewise by the `Parse…` lemmas.
