# Collaborative document server: request validation, configuration and the test client's reader

This project models in Dafny the string-level logic around a real-time
collaborative editing server (written in Go). The modelled parts are:

- **Handlers** (`handlers.dfy`). The server takes a document ID from a WebSocket
  URL path `/ws/<id>`. It strips the prefix, trims whitespace, and accepts
  1 to 100 bytes of ASCII letters, digits, `-` and `_`. Any other input gets a
  `ValidationError` naming the field and the reason. The handlers module also
  holds the origin allow-list that the WebSocket upgrader consults. The list
  starts as the two local origins. It can be replaced by a comma-separated
  configuration string, and a request passes if it has no origin or its origin
  is listed. Last, the root handler sends `/` on to `/doc/default` with status
  307 and answers 404 for any other path.
- **TestUtil** (`testutil.dfy`). The test client's `ReadNextContent` reads
  frames until one carries content. It skips `user_count` presence messages. It
  returns the `content` of a content message and the raw text of any other
  structured message. For a frame that is not a structured message, it falls
  back to the older newline-batched format: presence lines starting with
  `USER_COUNT:` are dropped and the first remaining line is the value.
- **ServerMain** (`main.dfy`). Start-up reads settings from the environment
  with defaults. A setting that is unset or empty takes its default. The port
  gets a leading `:` when it lacks one.
- **Strings** (`strings.dfy`). The parts of Go's `strings` and `unicode`
  packages these rely on: `HasPrefix`, `TrimPrefix`, `TrimSpace` with
  `unicode.IsSpace`, `Split` with its inverse `Join`, and the UTF-8 byte length
  that Go's `len` returns.

A Go string is modelled as the sequence of Unicode code points it encodes.
`Strings.ByteLen` is its byte length. `IsValidDocumentID` tests the byte length
as the source does, and its contract shows that this equals a bound of 1 to 100
characters. Every allowed character is one byte, so the two bounds agree.

The global allow-list variable is modelled as the field `allowedOrigins` of an
`OriginPolicy` object. `SetAllowedOrigins` rebuilds it in a loop, as the source
does. The connection the test client reads from is modelled as a sequence of
frames. A frame is already tagged as `Structured` (it decoded as a hub message)
or `Unstructured`. A read past the last frame is the read error that fails the
test.

## Model

| member | source | states |
|---|---|---|
| `Handlers.IsAlphanumericOrHyphenUnderscore` | internal/server/handlers.go:129-135 | an accepted character is ASCII, is not whitespace, and is none of space, `@`, `/`, `.` or NUL |
| `Handlers.AllAllowed` | internal/server/handlers.go:120-126 | the rune scan succeeds exactly when every character of the ID is allowed |
| `Handlers.IsValidDocumentID` | internal/server/handlers.go:115-127 | the byte-length test (1 to 100) plus the character test holds iff the ID has 1 to 100 characters, all allowed |
| `Handlers.ValidationError.Error` | internal/server/handlers.go:143-145 | the message is the field, one space, then the reason, and nothing else |
| `Handlers.ExtractDocumentID` | internal/server/handlers.go:97-112 | on failure the ID is empty, the field is `documentID` and the reason is one of the two messages; the call succeeds iff the trimmed rest of the path is a valid ID, and then returns that rest; the format reason is given iff that rest is non-blank |
| `Handlers.ExtractRequired` | internal/server/handlers.go:98-102 | the error is "required in URL path" exactly when what follows the prefix is all whitespace |
| `Handlers.ExtractBlank` | internal/server/handlers.go:98-102 | a prefix followed by nothing but whitespace fails with "required in URL path" |
| `Handlers.ExtractWithoutPrefix` | internal/server/handlers.go:98 | a path that lacks the prefix is read whole, with the same outcome as the prefix followed by that path |
| `Handlers.ExtractRoundTrip` | internal/server/handlers.go:97-112 | for every valid ID `v`, the path `prefix + v` gives back `v` with no error |
| `Handlers.ExtractIgnoresSurroundingSpace` | internal/server/handlers.go:98 | whitespace before and after a valid ID is dropped and the ID is returned unchanged |
| `Handlers.TrimLeftOfSpaces` | internal/server/handlers.go:98 | leading whitespace before a non-space is removed entirely |
| `Handlers.TrimRightOfSpaces` | internal/server/handlers.go:98 | trailing whitespace after a non-space is removed entirely |
| `Handlers.TrimAll` | internal/server/handlers.go:27-28 | there is one trimmed entry per piece, in order, each the piece with its surrounding whitespace removed |
| `Handlers.NonEmpty` | internal/server/handlers.go:28-30 | the filter keeps at most as many entries as it is given, and a string is kept iff it was given and is non-empty |
| `Handlers.TrimmedWellFormed` | internal/server/handlers.go:27-30 | every kept entry is non-empty, has no whitespace at either end, and holds no character that no piece holds |
| `Handlers.ParseOrigins` | internal/server/handlers.go:26-31 | the configured list has at most one entry per comma-separated piece |
| `Handlers.ParsedOriginsWellFormed` | internal/server/handlers.go:26-31 | a configured origin is never empty, never has surrounding whitespace and never holds a comma |
| `Handlers.TrimmedMembers` | internal/server/handlers.go:27-30 | a string is kept iff it is non-empty and some piece trims to it |
| `Handlers.ConfiguredMembers` | internal/server/handlers.go:26-31 | an origin is configured iff it is non-empty and some comma-separated piece of the configuration trims to it |
| `Handlers.TrimmedStep` | internal/server/handlers.go:27-30 | one more piece appends its trimmed text to the list when that is non-empty, and leaves the list as it was otherwise |
| `Handlers.CleanKept` | internal/server/handlers.go:27-30 | entries that are non-empty and already trimmed pass through unchanged, in order |
| `Handlers.ParseEmpty` | internal/server/handlers.go:26-31 | parsing the empty string gives the empty list |
| `Handlers.ParseOriginsRoundTrip` | internal/server/handlers.go:22-32 | a non-empty list of clean, comma-free origins written comma-separated is read back as the same list |
| `Handlers.Listed` | internal/server/handlers.go:46-50 | the search over the list finds the origin iff it is in the list |
| `Handlers.OriginPolicy.constructor` | internal/server/handlers.go:15-20 | the list starts as `http://localhost:8080` and `http://127.0.0.1:8080` |
| `Handlers.OriginPolicy.SetAllowedOrigins` | internal/server/handlers.go:22-32 | an empty configuration leaves the list as it was; any other replaces it by the trimmed, non-empty comma-separated pieces in order |
| `Handlers.OriginPolicy.CheckOrigin` | internal/server/handlers.go:40-54 | a request passes iff its origin is empty or equals a listed entry exactly |
| `Handlers.DefaultPolicyAccepts` | internal/server/handlers.go:15-20 | with the start-up list only the empty origin and the two local origins pass |
| `Handlers.ConfiguredPolicyAccepts` | internal/server/handlers.go:22-54 | after a non-empty configuration, a non-empty origin passes iff some configured piece trims to it |
| `Handlers.HandleRoot` | internal/server/handlers.go:57-63 | exactly the path `/` is redirected, to `/doc/default` with status 307; every other path gets 404 |
| `Handlers.ValidIdExamples` | internal/server/handlers_test.go:183-204 | the single characters `a`, `A`, `0`, `-`, `_` and 100 `a`s are accepted; 101 `a`s are rejected |
| `Handlers.MixedIdValid` | internal/server/handlers_test.go:124-128 | `My_Test-Doc-123` is accepted |
| `Handlers.InvalidIdExamples` | internal/server/handlers_test.go:129-168 | the empty ID and IDs with a space, `@`, `/`, `.`, NUL bytes or non-ASCII characters are rejected |
| `Handlers.ExtractValidExample` | internal/server/handlers_test.go:48 | `/ws/test-doc` yields `test-doc` with no error |
| `Handlers.ExtractBlankExample` | internal/server/handlers_test.go:75 | `/ws/   ` fails with "required in URL path" |
| `Handlers.ExtractEmptyExample` | internal/server/handlers_test.go:74 | `/ws/` fails with "required in URL path" |
| `Handlers.ExtractSlashExample` | internal/server/handlers_test.go:77 | `/ws/doc/123` fails with the format reason |
| `TestUtil.FirstNonSentinel` | internal/server/testutil/testutil.go:47-51 | the value found is a part that does not start with `USER_COUNT:` and every part before it does; nothing is found iff every part does |
| `TestUtil.LegacyContent` | internal/server/testutil/testutil.go:47-52 | a value from the older format is a whole line: it holds no newline and does not start with `USER_COUNT:` |
| `TestUtil.FrameYield` | internal/server/testutil/testutil.go:35-52 | a structured frame yields nothing iff it is a `user_count` message, and otherwise its content for a `content` message and its raw text for any other type; a value from a text frame is a whole non-presence line |
| `TestUtil.DecodeLegacy` | internal/server/testutil/testutil.go:46-52 | the loop over the lines returns the first non-presence line, and reports none when there is none |
| `TestUtil.ReadNextContent` | internal/server/testutil/testutil.go:25-54 | the value comes from the earliest frame that yields one, every earlier frame yielded nothing, and the read fails iff no frame yields a value |
| `TestUtil.UserCountSkipped` | internal/server/testutil/testutil.go:37-39 | a `user_count` message never yields a value |
| `TestUtil.ContentVerbatim` | internal/server/testutil/testutil.go:40-42 | a `content` message yields its content unchanged, the empty string included |
| `TestUtil.OtherTypeRaw` | internal/server/testutil/testutil.go:43 | a message of any other type yields the frame's raw text |
| `TestUtil.LegacySkipsSentinels` | internal/server/testutil/testutil.go:46-52 | presence lines followed by a content line yield that line, whatever follows |
| `TestUtil.FirstNonSentinelAfter` | internal/server/testutil/testutil.go:48-50 | the search passes over leading presence lines to the first other one |
| `TestUtil.LinesWithoutNewline` | internal/server/testutil/testutil.go:47 | lines that hold no newline still hold none once put together in one list |
| `TestUtil.AllSentinelsYieldNothing` | internal/server/testutil/testutil.go:46-53 | a text frame made only of presence lines yields nothing, so the reader goes on |
| `TestUtil.LegacyExample` | internal/server/testutil/testutil.go:46-52 | `USER_COUNT:3` then `hello` on the next line yields `hello` |
| `ServerMain.Getenv` | cmd/server/main.go:43 | a set variable reads as its value and an unset one as the empty string |
| `ServerMain.GetEnv` | cmd/server/main.go:42-47 | a set, non-empty variable gives its value; an unset or empty one gives the fallback |
| `ServerMain.UnsetLikeEmpty` | cmd/server/main.go:42-47 | an unset variable and one set to the empty string both give the fallback |
| `ServerMain.NormalizePort` | cmd/server/main.go:14-17 | the address starts with `:`; a port with a leading `:` is kept, any other gets exactly one `:` in front |
| `ServerMain.NormalizePortIdempotent` | cmd/server/main.go:15-17 | normalising twice is the same as normalising once |
| `ServerMain.NormalizePortKeepsPort` | cmd/server/main.go:15-17 | the address is `:` followed by the port without its own leading `:` |
| `ServerMain.LoadConfig` | cmd/server/main.go:14-22 | the port starts with `:` and is `:8080` when PORT is unset or empty; logging is on iff LOG_ENABLED is unset, empty or `true`; the static directory is STATIC_DIR when that is set and non-empty, and `static` otherwise; the origins string is ALLOWED_ORIGINS or empty |
| `ServerMain.ConfiguredPort` | cmd/server/main.go:14-17 | a configured port keeps its `:` or gets one |
| `Strings.HasPrefixIff` | cmd/server/main.go:15 | `HasPrefix` (Go's `strings.HasPrefix`, also used at `internal/server/testutil/testutil.go:49`) holds iff the string is the prefix followed by something |
| `Strings.Latin1Spaces` | internal/server/handlers.go:98 | below U+0100, `IsSpace` (Go's `unicode.IsSpace`) holds for exactly tab, newline, vertical tab, form feed, carriage return, space, U+0085 and U+00A0, and every ASCII space is at most U+0020 |
| `Strings.TrimPrefix` | internal/server/handlers.go:98 | when the prefix is present, prefix plus result is the input; otherwise the input is unchanged |
| `Strings.TrimSpace` | internal/server/handlers.go:98 | the result neither starts nor ends with whitespace; input without whitespace at the ends is unchanged |
| `Strings.TrimSpaceEmpty` | internal/server/handlers.go:98-102 | the result is empty iff the input is all whitespace |
| `Strings.TrimLeftRemovesSpaces` | internal/server/handlers.go:98 | everything removed from the front is whitespace |
| `Strings.TrimRightRemovesSpaces` | internal/server/handlers.go:98 | everything removed from the back is whitespace |
| `Strings.TrimSpaceWindow` | internal/server/handlers.go:98 | the result is a contiguous window of the input and everything outside it is whitespace |
| `Strings.Split` | internal/server/handlers.go:27 | there is at least one part, no part holds the separator, and joining the parts gives back the input |
| `Strings.SplitJoin` | internal/server/testutil/testutil.go:47 | splitting separator-free parts joined by the separator gives back the parts |
| `Strings.ByteLen` | internal/server/handlers.go:116 | the byte length is at least the number of characters, and equal to it iff the string is ASCII |

## Left out

- The hub package (the coordinator, the per-connection client, `Register`, `ClientCountForDocument`, the message type) is not part of this model. It is a separate package that this model does not cover, and its fan-out and presence behaviour is only observed over real sockets.
- `handleWebSocket` and `handleDoc`, and all of `internal/server/server.go` (route registration, `http.Server` set-up, `Run`, `Shutdown`), are left out. They are HTTP and WebSocket wiring.
- The goroutines (the client pumps, the hub loop, the signal handler in `cmd/server/main.go`) are left out, as concurrency.
- Read deadlines and sleeps are left out, as timing. A read that errors, for any reason, is modelled as running past the last frame.
- JSON decoding is not modelled. Which frames decode as a hub message is an input to the model, given by the `Frame` tag.
- WebSocket dialling, reading and writing are not modelled. Neither are `MustConnect`, `SendMessage`, `AssertClientCount`, the wait helpers, or log output.
- The source keeps the allow-list in one process-wide variable (`internal/server/handlers.go:13`); the model gives that state to one `OriginPolicy` object.
- `Frame` leaves out the message's count field, which `ReadNextContent` never reads.
- `os.Getenv` becomes a map from variable names to values. A name missing from the map is an unset variable.
- Strings that are not valid UTF-8 cannot be written as code-point sequences, so inputs with invalid bytes are outside the model. The source rejects them as document IDs in any case.
- Strings.IsSpace: stands for `unicode.IsSpace`, written out from its documented set (the six ASCII spaces, U+0085, U+00A0 and the White_Space code points above Latin-1); the `unicode` package's tables are not part of this model.
- Strings.Split: models `strings.Split` only for the one-character separators the source uses (`,` and `\n`).
