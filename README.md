# kasaya supervisor — a verified model

kasaya keeps one local shadowsocks proxy running on top of a pool of upstream
servers that it reads from a subscription feed. This project models its two
sequential cores in Dafny and proves properties of them.

- **The subscription parser** (`providers/booking.go`). The feed is URL-safe
  base64 (section 5 of RFC 4648) of newline-separated `ssr://` lines. Each
  line is URL-safe base64 of `host:port:protocol:method:obfs:password?params`.
  The password is itself standard, padded base64 (section 4 of RFC 4648).
  `processServer` turns one line into a `Server` record. The feed stage of
  `GetServerList` decodes the feed and runs the line loop.
- **The pool and its failover** (`controllers/sslocal.go`). The controller
  keeps an ordered pool `ss`. `Initialize` and `periodicallyUpdate` replace
  the pool wholesale. `selectServer` reads its head. `Run` drops the head
  when a proxy session ends in error. `checkGoogleAccessible` kills a proxy
  whose health check fails.

The Go library behaviour the parser depends on is modelled as well:

- `GoStrings`: `strings.Index`, `Split` and `Replace`.
- `Base64`: the decoder of `encoding/base64`, both the unpadded `RawStdEncoding`
  and the padded `StdEncoding`. As in Go, it skips `\r` and `\n`, does not
  check the unused trailing bits, and keeps the bytes it decoded before an
  error.
- `Strconv`: `strconv.Atoi` on a 64-bit platform, and `strconv.Itoa`.

Strings are byte sequences. A nil slice is the empty sequence.

The modules are `Wrappers` (an `Option` type), `GoStrings`, `Base64`, `Strconv`, `Provider` (the `Server`
record), `Booking` (the parser) and `Controller` (the supervisor).

Where the design and the code differ, the model follows the code:

- A line that fails its outer base64 decoding aborts the whole fetch. It is
  not skipped (`providers/booking.go:60-63`).
- A malformed line is not skipped either. Go panics on it: fewer than two
  fields; or a valid port with fewer than six fields or no `?` in field 5.
  The model makes this an explicit `Panicked` outcome that ends the feed
  stage as `FeedPanicked`.
- The password is decoded with the padded alphabet, and the decoding error is
  ignored (`providers/booking.go:99`). A password published without padding
  therefore loses its last partial group. `Booking.TwoBytePasswordLost`
  shows "pw" becoming the empty password.
- Removing every `ssr://` can form a new one from the pieces around a removed
  occurrence (`Booking.SchemeCanReform`). Such a line still fails to decode,
  because `:` is not a base64 byte (`Booking.ForeignByteFails`).
- No server list is sorted by latency.
- `periodicallyUpdate` can replace the pool while a session runs. A failed
  session then drops the head of the *new* list, not the server that failed.
  If the new list is empty, `c.ss[1:]` panics (`Controller.RefreshDuringSession`).
- `c.ch` is never sent to. After a session that ends without error, `Run`
  blocks for good (phase `Blocked`).

The run loop's position is a field `phase` of the controller class, so that a
session can begin, a refresh can happen, and then the session can end.

## Model

| member | source | states |
|---|---|---|
| Booking.UrlToStd | providers/booking.go:45-46 | the text handed to the decoder has the length of the input, maps `_` to `/` and `-` to `+` position by position, and holds no `_` or `-` |
| Booking.UrlRoundTrip | providers/booking.go:87-88 | mapping publisher base64 back to the standard alphabet restores it |
| Booking.LineText | providers/booking.go:86-88 | the text handed to the line decoder, every `ssr://` removed and the alphabet mapped, is no longer than the line and holds no `_` or `-` |
| Booking.ProcessServer | providers/booking.go:85-111 | `processServer`: a decoding error exactly when the stripped and mapped line does not decode; every parsed server has address 127.0.0.1, port 1080, timeout 5000, 5 workers, no plugin, and a 64-bit server port |
| Booking.ProcessFields | providers/booking.go:93-110 | the field stage never reports a decoding error; it skips exactly when there are at least two fields and field 1 is no `Atoi` integer; it panics exactly when there are under two fields, or the port is valid and there are under six fields or no `?` in field 5; a parsed server has the local defaults, host field 0, the port of field 1 and method field 3 |
| Booking.FieldsRecord | providers/booking.go:94-110 | fields with a valid port and a `?` in field 5 make the server of host, port, method and the padded decoding of the password before the `?` |
| Booking.SkipRule | providers/booking.go:93-97 | a line is skipped exactly when it decodes, has at least two fields, and field 1 is not an `Atoi` integer; field 5 is not consulted |
| Booking.PanicRule | providers/booking.go:93-98 | a line panics exactly when it decodes and has under two fields, or has a valid port and under six fields or no `?` in field 5 |
| Booking.ForeignByteFails | providers/booking.go:86-91 | a line whose text still holds a byte outside the alphabet and newlines after the replacements is a decoding error |
| Booking.SchemeCanReform | providers/booking.go:86 | removing every `ssr://` from `ssssr://r://` leaves `ssr://` |
| Booking.ProcessEncodedLine | providers/booking.go:85-111 | round trip: the `ssr://` line of a well-formed entry parses to its host, port, method and password with the local defaults; an unpadded password comes back cut to its whole 3-byte groups |
| Booking.EntryRecord | providers/booking.go:93-110 | the fields of a well-formed entry's text make the entry's server; an unpadded password comes back cut to its whole 3-byte groups |
| Booking.TwoBytePasswordLost | providers/booking.go:98-99 | the two-byte password "pw", published unpadded, parses to the empty password |
| Booking.ParseFeed | providers/booking.go:44-68 | the feed loop as written computes `Feed`: the alphabet mapping, the whole-feed decode, the split on `\n` and the line loop |
| Booking.AbortSticks | providers/booking.go:60-63 | once a line has ended the loop, later lines change nothing |
| Booking.LoopResult | providers/booking.go:56-68 | the loop succeeds exactly when no line is fatal, and then returns the servers of the parsed lines in input order |
| Booking.LoopError | providers/booking.go:60-63 | the first fatal line decides the result: an error for a decoding failure, a panic otherwise |
| Booking.AcceptedBound | providers/booking.go:56-67 | the loop yields at most one server per non-empty line |
| Booking.AcceptedFrom | providers/booking.go:64-67 | every returned server is what `processServer` made of one of the lines |
| Booking.FeedOkShape | providers/booking.go:44-68 | a successful feed stage has no fatal line, returns the accepted servers in order, at most one per non-empty line, each with the local defaults |
| Booking.FeedError | providers/booking.go:47-50 | a feed that does not decode is an error; otherwise the first fatal line decides between error and panic |
| Booking.AcceptedAppend | providers/booking.go:67 | appending lines appends their accepted servers, in order |
| Booking.LoopAllParsed | providers/booking.go:56-68 | lines that all parse yield exactly their servers, in order |
| Booking.ParseEncodedLines | providers/booking.go:56-68 | the lines of well-formed entries yield the entries' servers, in order |
| Booking.FeedRoundTrip | providers/booking.go:44-68 | round trip: the feed a publisher serves for well-formed entries yields exactly their servers, in order |
| Booking.LinesRoundTrip | providers/booking.go:51-68 | splitting the decoded feed of well-formed entries and running the loop yields exactly their servers, in order |
| Booking.NoLines | providers/booking.go:51-58 | an empty decoded feed is one empty line, which the loop skips, so the result is the empty list |
| Booking.EntryFields | providers/booking.go:93 | the fields of an entry's text are its five leading fields, then the pieces of the password part |
| Booking.PasswordField | providers/booking.go:98 | field 5 runs past the password, and its first `?` ends the password |
| Booking.LineTextOfEncoded | providers/booking.go:86-88 | stripping and mapping a publisher's line gives back the base64 text of its entry |
| Booking.EncodedLineShape | providers/booking.go:51 | a publisher's line is neither empty nor holds a line feed |
| Booking.EncodeLinesAt | providers/booking.go:56 | line i of a publisher's feed is entry i's line |
| Booking.EntryServersAt | providers/booking.go:64-67 | server i of the expected list is the one entry i describes |
| Booking.FeedDecodes | providers/booking.go:44-50 | a publisher's feed decodes to its lines joined by `\n` |
| Booking.FeedSplits | providers/booking.go:51 | splitting the decoded feed gives the publisher's lines back |
| Booking.NoSchemeWithoutColon | providers/booking.go:86 | text without `:` holds no `ssr://` |
| Booking.SplitHead | providers/booking.go:93 | the first piece of a split reaches past a prefix free of the separator |
| Booking.ItoaNoColon | providers/booking.go:94 | the decimal text of a port holds no `:` |
| Booking.LoopNext | providers/booking.go:56-68 | the loop after one more line is one more step |
| Booking.PasswordText | providers/booking.go:99 | published password text holds only base64 bytes and `=` |
| Booking.StdToUrl | providers/booking.go:87-88 | the URL-safe alphabet maps `/` to `_` and `+` to `-` position by position |
| Base64.RawRoundTrip | providers/booking.go:47 | the unpadded decoder reads back what the unpadded encoder writes, for every byte string |
| Base64.PaddedRoundTrip | providers/booking.go:99 | the padded decoder reads back what the padded encoder writes, for every byte string |
| Base64.PaddedDecodeOfRaw | providers/booking.go:99 | the padded decoder on unpadded text gives the whole 3-byte groups and reports an error exactly when bytes are lost |
| Base64.PaddedDecodeOfShort | providers/booking.go:99 | a one- or two-byte input encoded without padding decodes, with padding, to nothing and an error |
| Base64.RawAccepts | providers/booking.go:47 | the unpadded decoder succeeds exactly when the text holds only alphabet bytes and newlines and its count of alphabet bytes is not 1 modulo 4 |
| Base64.RawRejectsForeign | providers/booking.go:89 | text with a byte outside the alphabet and newlines does not decode |
| Base64.RawOnClean | providers/booking.go:89 | text of alphabet bytes and newlines decodes unless it has 1 modulo 4 alphabet bytes |
| Base64.DecodeGroup | providers/booking.go:89 | decoding one group consumes at least one byte of a non-empty input and no more than there is |
| Base64.Padding | providers/booking.go:99 | a padded group consumes at least its `=` and no more than there is |
| Base64.ReadDigits | providers/booking.go:47 | a group of four alphabet bytes decodes to the three bytes it encodes |
| Base64.ReadTail | providers/booking.go:47 | a final group of two or three alphabet bytes decodes without padding and is an error with it |
| Base64.ReadPaddedTail | providers/booking.go:99 | a final group with its `=` padding decodes with the padded decoder |
| Base64.DecodeStep | providers/booking.go:47 | decoding is group by group |
| Base64.Decode | providers/booking.go:47 | `DecodeString` of either variant (`RawStdDecode` unpadded, as here and at line 89; `StdDecode` padded, as at line 99), group by group, skipping `\r` and `\n` and keeping the bytes of finished groups on an error, never yields more than three bytes per four input bytes |
| Base64.GroupBound | providers/booking.go:47 | one group yields at most three bytes per four characters, counting the digits already read |
| Base64.WholeGroup | providers/booking.go:47 | four alphabet bytes decode to the three bytes they encode, and decoding goes on after them |
| Base64.RawTail | providers/booking.go:47 | a final group of two or three alphabet bytes decodes, unpadded, to the one or two bytes it encodes |
| Base64.PaddedTail | providers/booking.go:99 | a final group of two or three alphabet bytes with its `=` padding decodes, padded, to the one or two bytes it encodes |
| Base64.EncodeRaw | providers/booking.go:47 | the unpadded encoder writes only alphabet bytes |
| Base64.EncodePadded | providers/booking.go:99 | the padded encoder writes only alphabet bytes and `=` |
| Base64.CharOf | providers/booking.go:47 | the alphabet byte of a digit is an alphabet byte with that digit |
| Base64.WholeGroups | providers/booking.go:99 | the whole-group prefix is a prefix with a length divisible by 3, less than 3 short of the input |
| Base64.Assemble | providers/booking.go:47 | 2, 3 or 4 digits assemble into 1, 2 or 3 bytes |
| Base64.GroupOnClean | providers/booking.go:89 | on text of alphabet bytes and newlines, a group with enough digits ahead succeeds and takes exactly the digits it lacks; otherwise it runs to the end and fails only on a single leftover digit |
| Base64.GroupOnForeign | providers/booking.go:89 | on text holding a foreign byte, a group fails or leaves a foreign byte after it |
| Strconv.Atoi | providers/booking.go:94 | `Atoi` accepts only an optional sign followed by decimal digits, and only 64-bit values |
| Strconv.AtoiItoa | providers/booking.go:94 | `Atoi` reads back `Itoa` of every 64-bit integer |
| Strconv.AtoiRejectsNonDigit | providers/booking.go:94-97 | text with a non-digit past the optional sign is no integer, so its line is skipped |
| Strconv.Decimal | providers/booking.go:94 | the decimal digits of a number are digits whose value is that number |
| Strconv.Itoa | providers/booking.go:94 | the decimal text of an integer starts with `-` exactly for negatives and never with `+` |
| GoStrings.IndexByte | providers/booking.go:98 | `strings.Index` with a one-byte needle: -1 exactly when the byte is absent, else its first position |
| GoStrings.Split | providers/booking.go:51 | `strings.Split` returns at least one piece, so the `len(rss) == 0` branch is dead, and no piece holds the separator |
| GoStrings.JoinSplit | providers/booking.go:93 | joining the pieces of a split gives the text back |
| GoStrings.SplitJoin | providers/booking.go:51 | splitting joined parts without the separator gives the parts back |
| GoStrings.SplitJoinPrefix | providers/booking.go:93 | splitting a join whose last part may hold the separator gives the other parts, then the last part's pieces |
| GoStrings.SplitFirst | providers/booking.go:93 | the piece before the first separator comes first |
| GoStrings.ReplaceAbsent | providers/booking.go:86 | `strings.Replace` leaves text with no occurrence unchanged |
| GoStrings.ReplaceAll | providers/booking.go:86 | `strings.Replace(s, old, new, -1)` with a replacement no longer than the pattern never lengthens the text |
| GoStrings.ReplaceByte | providers/booking.go:87-88 | replacing one byte by another maps the text position by position |
| GoStrings.ReplaceAtStart | providers/booking.go:86 | an occurrence at the start is replaced and the scan goes on after it |
| GoStrings.JoinCons | providers/booking.go:51 | joining a part in front of a non-empty list puts a separator between |
| Controller.SSLocalProxyController.constructor | controllers/sslocal.go:29-31 | a new controller has an empty pool and an idle run loop |
| Controller.SSLocalProxyController.Initialize | controllers/sslocal.go:33-43 | the pool becomes the provider's list, or empty when the fetch failed |
| Controller.SSLocalProxyController.SelectServer | controllers/sslocal.go:66-74 | nothing exactly when the pool is empty, else the pool's head; the pool is only read |
| Controller.SSLocalProxyController.BeginSession | controllers/sslocal.go:47-54 | a session starts exactly when the pool is non-empty, with its head; the pool is unchanged |
| Controller.SSLocalProxyController.EndSession | controllers/sslocal.go:54-62 | on success the loop blocks; on error the head is dropped, or the loop panics on an empty pool |
| Controller.SSLocalProxyController.Run | controllers/sslocal.go:45-64 | the run loop as written computes `RunTurns` |
| Controller.SSLocalProxyController.RefreshPool | controllers/sslocal.go:104-111 | a successful fetch replaces the pool, a failed one leaves the controller unchanged |
| Controller.SSLocalProxyController.PeriodicallyUpdate | controllers/sslocal.go:101-114 | after a run of fetches the pool is `LastList` of them, and the run loop is undisturbed |
| Controller.EmptyPoolWaits | controllers/sslocal.go:48-53 | with an empty pool a turn starts no session and changes nothing |
| Controller.SessionEnd | controllers/sslocal.go:54-62 | a failed session drops exactly the pool's head and keeps the order of the rest; a successful one keeps the pool and blocks |
| Controller.KillFailsOver | controllers/sslocal.go:96-98 | a proxy killed by the monitor fails over to the next server |
| Controller.RunOutcome | controllers/sslocal.go:45-64 | closed form of the run loop: it walks down the pool one failed launch at a time and blocks with the first server whose launch succeeds, or stops idle at the end of the pool or the launches; it never panics |
| Controller.LeadingFailures | controllers/sslocal.go:55-60 | the count of launches that fail before the first that succeeds |
| Controller.RefillAfterWait | controllers/sslocal.go:47-53 | a run loop waiting on an empty pool starts nothing, and once a refresh brings a non-empty list its next turn starts a session with that list's head |
| Controller.RefreshDuringSession | controllers/sslocal.go:54-62 | a refresh during a failing session makes it drop the new list's head, and panic if the new list is empty |
| Controller.FailedFetchesKeep | controllers/sslocal.go:104-108 | when every fetch fails the pool keeps its contents |
| Controller.LastFetchWins | controllers/sslocal.go:109-111 | the last successful fetch decides the pool, whatever came before |
| Controller.MonitorDecision | controllers/sslocal.go:118-163 | the first round that is not a passing check decides: a stop ends without a kill, a failure at any stage kills, and with none the monitor keeps checking |
| Controller.PassedRounds | controllers/sslocal.go:118-163 | the count of passing checks before the first other round |
| Controller.CheckGoogleAccessible | controllers/sslocal.go:116-165 | the monitor loop as written computes `Monitor`, kills exactly once when it kills and never otherwise, and a kill names a failed stage |

## Left out

- The HTTP fetch of the feed and its timeout (`providers/booking.go:27-43`): network I/O. The model starts from the fetched body.
- The ping fan-out and `PingSpeed` (`providers/booking.go:70-82`, `113-123`): network, floating point and an unsynchronised append from goroutines. `ParseFeed` stops at the list of parsed servers, and the controller takes whatever list the provider returns.
- `checkServerGoogleWebsiteAccessible` (`providers/booking.go:125-134`): network code that nothing calls.
- `setupLocalProxy`'s removal and writing of the configuration file, `json.Marshal`, and starting and waiting for the proxy process (`controllers/sslocal.go:76-99`): filesystem and process control. They become the `Launch` input.
- The SOCKS5 dial, HTTP request and body read of the monitor (`controllers/sslocal.go:123-160`): network. Only the stage at which a check fails is kept, as the `Probe` input.
- Locks, goroutines, the `c.ch` and `tempCh` channels, and every sleep: each pool operation is one atomic step. Interleavings are written out as sequences of steps.
- A panic inside the provider kills the whole process. The controller's `Fetch` input has no panic case; the parser reports it as `FeedPanicked`.
- `main.go`: flag parsing and start-up. Logging throughout.
- Controller.SSLocalProxyController.Run: a turn that finds the pool empty ends the modelled loop. The real loop sleeps and retries until a refresh refills the pool; that interleaving is stated step by step in `Controller.RefillAfterWait`: the empty pool starts nothing, and after a refresh the next turn starts a session with the new list's head.
- Controller.SSLocalProxyController.PeriodicallyUpdate: the one-minute pause between rounds is not modelled.
- Controller.CheckGoogleAccessible: the five-second and one-minute pauses are not modelled, and neither is the deferred close of each response body.
- Base64: the 8- and 4-byte fast paths of Go's decoder are not modelled separately. They produce the same result as decoding group by group.
