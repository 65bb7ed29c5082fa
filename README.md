# Contact-form message store: a Dafny model

The application is a small web site with a contact form. Its HTTP server
serves three fixed pages and static files. The form's payload reaches a TCP
listener, which hands it to `save_to_db`. That function decodes the
URL-encoded payload, builds a dictionary from it, stamps it with the current
time under `date`, and inserts it into the `messages` collection of a
MongoDB database.

This project models the sequential core of `main.py` and proves what it
promises:

- `strings.dfy`, module `Strings`: Python's `str.split` on one character and
  its inverse, `str.join`.
- `unquote.dfy`, module `Unquote`: `urllib.parse.unquote_plus`, that is the
  percent-decoding of section 2.1 of RFC 3986 with the `+` rule of the
  application/x-www-form-urlencoded format (section 5.1 of the WHATWG URL
  Standard). Its partner is `FormEncode`, the way a browser encodes an ASCII
  form field.
- `formdata.dfy`, module `FormData`: the parse in `save_to_db`, which
  decodes, splits on `&`, splits each piece on `=` and calls `dict()`.
  `Serialize` is its partner, the payload a browser posts.
- `timestamp.dfy`, module `Timestamp`: `strftime("%Y-%m-%d %H:%M:%S.%f")`
  for a clock reading that is passed in. Its partner `ReadDate` reads the
  fields back.
- `database.dfy`, module `Database`: the document `save_to_db` builds. A
  `Store` class stands for the `messages` collection. Its `SaveToDb` method
  appends exactly one document when the payload parses and the insert is
  accepted, and appends nothing otherwise.
- `router.dfy`, module `Router`: the branch `do_GET` takes, with the MIME
  type default of `send_static`.
- `socketserver.dfy`, module `SocketServer`: `CHUNK_SIZE` and the body of the
  listener loop. A connection gets one `recv(CHUNK_SIZE)`, and `save_to_db`
  runs only when that read returned bytes. The loop runs over a finite
  sequence of connections.
- `results.dfy`, module `Results`: `Option` and `Result`.

The code splits the whole payload on `&` **after** decoding it. An encoded
`%26` or `%3D` therefore acts as a separator, just like a literal `&` or
`=`. The model keeps this behaviour, and `ParseRejectsEncodedEquals` and
`ParseSplitsEncodedAmpersand` state it.

Each piece is split on every `=`, not only the first, and `dict()` accepts
only two-part elements, so `a=b=c` is rejected: `ParseSucceedsIff` says a
payload parses exactly when every decoded piece holds exactly one `=`.

`ParseError` carries what `dict()`'s `ValueError` reports: the index of the
first bad piece and its number of parts.

## Model

| member | source | states |
|---|---|---|
| Strings.Split | main.py:86 | `str.split` on one character: at least one part, no part holds the separator, and joining the parts with it gives the text back |
| Strings.SplitJoin | main.py:86 | splitting a join of separator-free parts gives those parts back |
| Strings.SplitCount | main.py:86 | the number of parts is the number of separators plus one (`"".split("&")` is `[""]`) |
| Unquote.PercentDecode | main.py:85 | decoding never lengthens the text, and text without `%` is unchanged |
| Unquote.UnquotePlus | main.py:85 | `+` becomes a space before `%HH` is decoded; the result is never longer, and without `%` it is just the `+` replacement |
| Unquote.PercentDecodeEscape | main.py:85 | a `%` followed by two hexadecimal digits, upper- or lower-case, becomes the one character with that code, and decoding continues after it |
| Unquote.PercentDecodeNoEscape | main.py:85 | a `%` not followed by two hexadecimal digits stays as it is: text without a well-formed escape is its own decoding |
| Unquote.UnquotePlusEscape | main.py:85 | the escape rule holds for `unquote_plus` too: `%hh` at the front decodes to its character, either case |
| Unquote.UnquotePlusNoEscape | main.py:85 | `unquote_plus` of text without a well-formed escape only turns `+` into spaces; malformed `%` sequences survive |
| Unquote.UnquotePlusPlain | main.py:85 | text with neither `%` nor `+` decodes to itself |
| Unquote.FormEncode | main.py:85 | a browser's encoding of a field never contains `&` or `=` |
| Unquote.UnquotePlusFormEncode | main.py:85 | `unquote_plus` undoes a browser's form encoding of any ASCII text |
| FormData.Pieces | main.py:85-86 | the decoded payload split on `&`: at least one piece, and joined with `&` they give the decoded payload |
| FormData.Pairs | main.py:86 | the list given to `dict()`: it succeeds exactly when every piece has exactly two `=`-parts, and then each piece is `key=value` with no `=` in either half; otherwise the error names the first bad piece and its part count |
| FormData.DictOf | main.py:86 | `dict(pairs)` has exactly the pairs' keys |
| FormData.DictOfLast | main.py:86 | in `dict(pairs)` each key keeps the value of its last occurrence |
| FormData.Parse | main.py:85-86 | a parse error points at a decoded piece that is not a `key=value` pair |
| FormData.ParseSucceedsIff | main.py:85-86 | the payload parses if and only if every decoded `&`-piece holds exactly one `=` |
| FormData.ParseKeys | main.py:86 | on success the keys are exactly the pieces' field names |
| FormData.ParseLastWins | main.py:86 | a duplicated field name keeps the value of its last piece |
| FormData.ParseSerialize | main.py:85-86 | round trip: the payload a browser posts for separator-free ASCII fields parses back to those fields |
| FormData.ParseRejectsEncodedEquals | main.py:85-86 | decoding before splitting: a field containing `=`, posted as `%3D`, makes the whole submission fail (`a=x%3Dy`) |
| FormData.ParseSplitsEncodedAmpersand | main.py:85-86 | decoding before splitting: a value holding `&k=v`, posted as `%26k%3Dv`, is stored as a separate field `k` |
| FormData.ParseEmpty | main.py:86 | the empty payload fails: its only piece, `""`, has one part |
| FormData.ParseDuplicateName | main.py:86 | `k=v1&k=v2` stores `k` as `v2` and nothing else |
| FormData.ParseSingleField | main.py:86 | `k=v` stores exactly that field; an empty name or value is accepted (`=b`, `a=`) |
| Timestamp.Digits | main.py:87 | a zero-padded field has exactly its width, and all of it is digits |
| Timestamp.DigitsRoundTrip | main.py:87 | a number below 10^width is written without loss |
| Timestamp.FormatDate | main.py:87 | the formatted date is 26 characters: `-` at 4 and 7, a space at 10, `:` at 13 and 16, `.` at 19, digits elsewhere; each slice is its field |
| Timestamp.ReadFormatDate | main.py:87 | reading the formatted date gives back the clock reading, to the microsecond |
| Database.RecordOf | main.py:85-87 | the document is built exactly when the payload parses, and it always carries a well-formed `date` |
| Database.RecordOfFields | main.py:85-87 | the document fails exactly when parsing fails, with the same error; otherwise it has the parsed keys plus `date`, keeps every other field, and its `date` is well formed, encodes the clock reading and replaces any client `date` |
| Database.RecordsDifferOnlyInDate | main.py:85-87 | one payload saved at two clock readings gives documents with the same keys, equal except at `date`, and equal iff the readings are |
| Database.Store.constructor | main.py:81-83 | an empty collection |
| Database.Store.SaveToDb | main.py:80-93 | a parse failure or a refused insert is reported and the store is unchanged; a successful insert appends exactly the document RecordOf builds; every stored document keeps a well-formed `date` |
| Router.Route | main.py:22-33 | `/` and only `/` is the index, `/message` and only it the form page; any other path is the static file `path[1:]` exactly when that file exists, and otherwise not found |
| Router.ContentType | main.py:61 | the guessed MIME type when there is a non-empty one, else `text/plain` |
| Router.DoGet | main.py:22-33 | the status is 200 or 404, 404 exactly when no page or file matches, and then the body is `error.html` as `text/html` |
| Router.FixedPages | main.py:22-27 | `/` serves `index.html` and `/message` serves `message.html`, both 200 `text/html`, whatever files exist |
| Router.OtherPaths | main.py:28-33 | any other path serves the file `path[1:]` with its guessed type when it exists, else `error.html` with 404 |
| Router.ServesFileByUrl | main.py:28-31 | an existing file `f` other than `""` and `message` is served at `/f` with 200 |
| SocketServer.ChunkSize | main.py:13 | a read returns at most 1024 bytes |
| SocketServer.Decode | main.py:107-108 | `data.decode()` read one character per byte: the same length, each character the code of its byte |
| SocketServer.DecodeEncode | main.py:107-108 | the bytes written for a text with codes below 256 are decoded back to that text |
| SocketServer.Recv | main.py:105 | one read returns a prefix of what the peer sent, of at most CHUNK_SIZE (1024) bytes, and all of it when it fits |
| SocketServer.Dispatch | main.py:105-108 | a payload goes to `save_to_db` if and only if the peer sent bytes, and it is the first min(sent, 1024) bytes |
| SocketServer.ServeConnection | main.py:103-108 | serving a connection calls `save_to_db` exactly when the read is non-empty, and adds exactly what that save stores |
| SocketServer.RunSocketServer | main.py:102-108 | over a run of connections the store gains the documents of each connection in order, and `save_to_db` runs once per non-empty read |
| SocketServer.StoredAppend | main.py:102-108 | connections are served independently: a run's documents are those of its parts, concatenated |
| SocketServer.StoredAtMostDispatches | main.py:106-108 | at most one document per dispatched connection, and at most one dispatch per connection |
| SocketServer.OnlyFirstChunkStored | main.py:105 | bytes past the first 1024 never reach the store |
| SocketServer.ShortSubmissionStored | main.py:105-108 | a well-formed ASCII payload of at most 1024 bytes, sent raw, is stored as exactly one document when the insert is accepted |

## Left out

- HTTP serving, `do_POST`'s forwarding with `sendall` and its reply (main.py:35-50, 68-77): these are I/O. `do_POST` always answers 302 with `Location: /`. As written, it both forwards the body to the listener and calls `save_to_db` itself, so with the listener running one POST would store two documents.
- Socket setup, `accept` and closing (main.py:96-101, 109-113): these are I/O. The loop is modelled over a finite sequence of connections instead of `while True`. An exception that ends the listener is not modelled.
- `recv` returning fewer bytes than are available and than CHUNK_SIZE (a short read): Recv takes all the available bytes up to CHUNK_SIZE.
- The `multiprocessing` supervisor (main.py:116-123): its point is concurrency.
- Opening and closing `MongoClient` and choosing the database and collection (main.py:81-83, 93): the collection is the `records` sequence of a Store. Whether `insert_one` succeeds is an input (`insertAccepted`), and the `_id` it adds to the document is not modelled.
- `datetime.now()` (main.py:87): the clock reading is a parameter.
- `Path.exists`, reading files and the `mimetypes` table (main.py:30, 56-65): they are the parameters `fileExists` and `guessType`, and the file contents are not modelled.
- UTF-8: `unquote_plus` turns `%HH` into the character with code HH, and socket bytes are read one character per byte. Reassembling multi-byte UTF-8 sequences, `errors='replace'`, and the exception a strict `data.decode()` raises on invalid UTF-8 are not modelled.
- Timestamp.FormatDate: writes `%Y` as four zero-padded digits. Some C libraries leave years below 1000 unpadded.
- The order of the document's fields: the Python dict and the MongoDB document keep insertion order (the fields as submitted, `date` last unless the client sent one), while a Dafny `map` has no order.
- Logging and `print` (main.py:88, 91, 104, 107).
