# A verified model of the evcp web server's core

evcp is an event-driven HTTP server with a management module. This Dafny project models
the parts of it in which the bytes are taken apart and put together, and proves what they
are for. `dafny verify dfyconfig.toml` checks everything.

Source files that work by changing things in place (the two head parsers, the reader, the
response buffer, the decoders, the session store, base64, the address counter, the result
table, the timer) are modelled in that form: classes with fields, arrays and loops. Each
such method is proved equal to a specification function, and the theorems are lemmas about
that function. Pointers are offsets into a buffer, with -1 for a null pointer.

## The modules

| modules | source | content |
|---|---|---|
| `Bytes`, `RequestLine`, `UriFacts`, `RequestReading`, `RequestGrammar`, `UriMeaning` | `src/core/request.cpp` | the request-line machine of 22 states, a reading by longest runs, the exact language, and the meaning of the URI offsets and flags |
| `HeaderLine`, `HeaderReading`, `HeaderGrammar`, `HeaderRetry` | `src/core/request.cpp` | the header-line machine of 8 states, in the same three layers, and what repeated calls do after an invalid line |
| `Head`, `HeadGrammar` | `src/core/connection.cpp` | the head phases of `conn_read` over successive reads; fragmentation independence; whole heads and their header maps |
| `Request` | `src/core/request.cpp`, `src/core/connection.cpp` | the same three as objects that update their fields in place |
| `HeaderPrinting`, `OutputProtocol`, `Response` | `src/core/connection.cpp` | printing a header block and reading it back; the fill/drain/refill protocol; the response object that performs it |
| `Forms`, `Cookies` | `src/core/connection.cpp` | urlencoded pairs and cookies, printed and decoded |
| `Sessions` | `src/core/sp_session.cpp` | the session store and its hexadecimal ids |
| `Base64` | `src/core/base64.cpp`, `src/modules/mgr/mgr_acc.cpp` | section 4 of RFC 4648, and Basic credentials |
| `IpRange` | `src/modules/mgr/mgr_ip.cpp` | the address-range odometer |
| `ResultTable` | `src/core/mydb.cpp` | the growing table of query results |
| `Timer` | `src/core/sp_timer.cpp` | the pass over the timer list, and runs of such passes |

## The main results

- **Fragmentation does not matter.** `Head.FragmentationIndependence`: from any state a
  connection can be in, successive reads of any pieces end with the answer, fields,
  offsets and header map of one read of all the bytes.
- **A head is passed on exactly when it matches.** `HeadGrammar.HeadIsRead`,
  `HeadGrammar.HeadIsMatched`: a request line, header lines and a blank line give the
  fields of the line and, for every name, the value of the last line that is kept under it.
- **The request-line parser accepts an exactly described language.**
  `RequestGrammar.ExactLanguage` is an equivalence and also gives every field.
  `HeaderGrammar.ExactHeaderLine` does the same for header lines.
- **One bit is enough to keep `/..` out.** `UriMeaning.NoDotSegmentsPass`, and
  `Head.NoDotSegmentsAreRead` for every request that is passed on.
- **Printing and parsing are inverse**: `HeaderPrinting.PrintedHeadersAreRead`,
  `Cookies.SetIsDecoded`, `Base64.RoundTrip` (with `Base64.EncodeIsStandard` and
  `Base64.DecodeIsStandard` for the alphabet and the positions), and, with the exact condition under which they
  hold, `Forms.DecodeUndoesEncoding`, `Base64.CanonicalExactly`,
  `Base64.CredentialsRecovered` and `Sessions.SessionIdentity`.
- **Output**: every run counts exactly the header block and the file
  (`OutputProtocol.SafeRuns`) and ends if the file does not shrink
  (`OutputProtocol.ProductiveRunsEnd`); the peer gets
  the right bytes if and only if no write was short (`OutputProtocol.FaithfulDelivery`).
  What the system calls answer decides what happens (`OutputProtocol.WritesAddUp`,
  `OutputProtocol.ReadsAddUp`).
- **State**: `Sessions.LiveIsRegisteredAndNotKilled`, `IpRange.EndsOnTheEnd`,
  `ResultTable.FetchedAreTheRows`, `Timer.PassExactly`, `Timer.Conservation`.

Some properties hold only under a condition that the source does not check. They are
stated as equivalences:

- `write` is always handed the start of the buffer, also after a short write
  (`src/core/connection.cpp:979`). The counts stay right, the delivered bytes do not:
  `OutputProtocol.FaithfulDelivery`.
- A session id is found again only if it fits 32 bits and prints with an even number of
  digits: `Sessions.SessionIdentity`.
- The outcome of saving the header row of a query is ignored. If it fails, fetching does
  not deliver the rows: `ResultTable.FetchedAreTheRows`. What it delivers instead is made of
  the end of one row and the beginning of the next, shifted by the cells that were copied
  of the header: `ResultTable.FetchedWithoutHeader`. If none was copied, these are all rows but
  the first: `ResultTable.FirstRowIsMissing`.
- A '+' in a value stands for a space, but in the first place of a value the decoder takes
  it literally: `Forms.DecodeUndoesEncoding`, with the input in `Forms.PlusIsKept`.
- The address loop increments before it stores, so the first address of a range is not
  stored; and if the range is given backwards it still counts up, to the address in
  `IpRange.Stop`: `IpRange.EndsOnTheEnd`.
- An invalid header line is reported without moving on, and the reader asks again.
  `HeaderRetry.InvalidRepeatsExactly`, and `Head.InvalidHeaderRepeats` for every state a
  connection can be in: all further calls answer the same if and only if it is not the case
  that the line was begun in an earlier read with part of "HTTP/", is completed to such a
  line, and reads as a header line from where this read began. In that case the first call
  passes over the line and the second answers OK for its rest, with a name that ends before
  it starts (`HeaderRetry.SecondCall`; an input is in `HeaderRetry.ExceptionHappens`). The
  model of the reader stops at the first such answer.

Where the code differs from its own comments or from the RFC, the model follows the code:
the first byte of a header name is taken whatever it is, even a ':'; lines that start with
"HTTP/" are passed over; the HTTP version numbers are kept in sixteen bits, so that a
request may have version 9 without being a simple request; a request line without a path
needs a SP after the authority.

## Model

| member | source | states |
|---|---|---|
| RequestLine.StepLocal | src/core/request.cpp:149-689 | one turn of the loop depends on no byte beyond its own |
| RequestLine.RunResumes | src/core/request.cpp:147-150 | parsing on after AGAIN gives what parsing everything at once gives; any other answer is final |
| RequestLine.RunBounds | src/core/request.cpp:696-711 | an accepted line moves `pos` forward and not past `last` |
| RequestLine.RunStarted | src/core/request.cpp:155-180 | inside the method its start is a known earlier offset |
| RequestLine.RequestEndMarksThePhase | src/core/request.cpp:680-711 | `request_end` is unset as long as the answer is AGAIN and set once it is OK, so the reader may use it to choose the parser |
| UriFacts.FirstStop | src/core/request.cpp:406-545 | the first byte of the path that ends the tracking of the extension: `?`, `#` or a `%` outside a query |
| UriFacts.Extension | src/core/request.cpp:465-516 | `uri_ext`: one past the last '.' since the last '/', or unset |
| UriFacts.PathStep | src/core/request.cpp:406-545 | the incrementally updated flags and offsets are those a declarative reading of the path so far gives, byte by byte |
| UriFacts.PathRun | src/core/request.cpp:406-545 | the same for a whole stretch of path bytes |
| RequestReading.TruncateEachDigit | src/core/request.cpp:619-663 | truncating the version number to sixteen bits after every digit equals truncating the decimal number once |
| RequestReading.NumberStep | src/core/request.cpp:619-663 | the digit loop computes the decimal value mod 2^16 |
| RequestReading.RunEnd | src/core/request.cpp:548-566 | CR? LF ends the line in each of the states that accept it |
| RequestReading.RunAfterMinor | src/core/request.cpp:643-678 | after the minor digits come spaces and the end |
| RequestReading.RunHttp | src/core/request.cpp:568-607 | the four states after 'H' accept exactly "TTP/" |
| RequestReading.RunVersion | src/core/request.cpp:548-678 | spaces and then a version or the end of an HTTP/0.9 line |
| RequestReading.RunPath | src/core/request.cpp:406-545 | a path is the longest run of target bytes, then the byte that ends it decides |
| RequestReading.RunColonSlashes | src/core/request.cpp:306-342 | after the scheme exactly "://" goes on |
| RequestReading.RunHost | src/core/request.cpp:344-404 | host, port and what may follow |
| RequestReading.MachineReadsLine | src/core/request.cpp:118-712 | on every buffer the byte-by-byte machine gives the answer of a reading by longest runs, and on OK its fields and position |
| RequestLine.StepCode | src/core/request.cpp:149-689 | only the end of the line refuses a method for HTTP/0.9 |
| RequestReading.RunScheme | src/core/request.cpp:282-404 | scheme, host and port are read up to where the path begins, or would begin |
| RequestReading.LiteralStep | src/core/request.cpp:568-607 | a fixed word is compared byte by byte, and may turn out short |
| Bytes.ClassesByText | src/core/request.cpp:162-404 | the byte classes of the request line, by the characters they hold |
| Bytes.SmallClassesByText | src/core/request.cpp:158-160 | the byte classes of the header lines, by the characters they hold |
| Bytes.HexValueExactly | src/core/connection.cpp:804-821 | the tests for hexadecimal digits read exactly 0-9, A-F and a-f, each as its place |
| RequestGrammar.ReadsMatch | src/core/request.cpp:118-712 | every line that the layout predicate describes is accepted, with exactly the fields of the layout |
| RequestGrammar.ReadIsMatched | src/core/request.cpp:118-712 | every accepted line has such a layout |
| RequestGrammar.ExactLanguage | src/core/request.cpp:118-712 | the parser answers OK, consuming through the LF and leaving these fields, if and only if the line is (CR or LF)* method SP+ target, ended as HTTP/0.9 (GET only) or by SP+ "HTTP/" major "." minor SP*, then CR? LF |
| UriMeaning.OffsetsInOrder | src/core/request.cpp:285-287 | on OK request_start <= method_end < uri_start < uri_end <= request_end < pos, and the byte at uri_start is '/' in all four ways it is set |
| UriMeaning.ArgsFollowTheFirstQuestionMark | src/core/request.cpp:406-545 | a set `args_start` is one past the first '?' of the URI, and without flags it is set whenever there is a '?' |
| UriMeaning.ExtensionFollowsTheLastDot | src/core/request.cpp:465-516 | without flags `uri_ext` is set if and only if the last path segment has a '.', and follows the last one |
| UriMeaning.SlashDotSetsAFlag | src/core/request.cpp:406-463 | "/." and "//" in the path always set a flag |
| UriMeaning.FlagsByBytes | src/core/request.cpp:406-545 | any '#' makes the URI complex, and a '%' before every '?' makes it quoted unless it is complex |
| UriMeaning.FlagsHaveReasons | src/core/request.cpp:406-545 | a quoted URI has a '%' before every '?' and '#'; a complex one has a '#', or a '.' or '/' after a '/' |
| UriMeaning.ScanFindsLoadedStretches | src/core/connection.cpp:217-231 | the run-counting scan rejects if and only if some stretch of '/', '.' and '\\' holds more than two of '/' and '.' |
| UriMeaning.NoDotSegmentsPass | src/core/connection.cpp:217-231 | a request with `quoted_uri` unset that is not refused has no "/.." before its query |
| HeaderLine.RunResumes | src/core/request.cpp:742-746 | parsing a header line on after AGAIN gives what parsing it at once gives |
| HeaderLine.RunAdvances | src/core/request.cpp:936-950 | OK and HEADER_DONE move `pos` strictly forward and return to the first state |
| HeaderLine.RunStaysInside | src/core/request.cpp:784-950 | the saved offsets never point past what was received |
| HeaderReading.RunIgnored | src/core/request.cpp:826-905 | a line that begins with "HTTP/" is passed over up to its LF |
| HeaderReading.RunPassesIgnored | src/core/request.cpp:826-905 | any number of such lines is passed over |
| HeaderReading.RunValue | src/core/request.cpp:863-894 | the value ends before its trailing spaces, however many inner spaces it has |
| HeaderReading.MachineReadsHeader | src/core/request.cpp:714-951 | on every buffer the header machine gives the answer of a reading by longest runs, and on OK and HEADER_DONE its fields and position |
| HeaderRetry.RunKeepsBegun | src/core/request.cpp:929-932 | a saved state inside a name knows its first byte, and what was received of the name is not "HTTP/" |
| HeaderRetry.AlikeAnswers | src/core/request.cpp:714-951 | whether a call answers INVALID_HEADER depends only on the bytes, the saved state and, inside a name, its start |
| HeaderRetry.SecondCall | src/core/request.cpp:826-839 | after a resumed "HTTP/" line was passed over and the next line is invalid, a repeated call takes its rest for a header line whose name ends before it starts, if it reads as one, and else answers INVALID_HEADER |
| HeaderRetry.NextCall | src/core/connection.cpp:264-288 | the next call answers INVALID_HEADER again if and only if that exception does not apply |
| HeaderRetry.InvalidRepeatsExactly | src/core/connection.cpp:264-288 | all further calls answer INVALID_HEADER if and only if that exception does not apply |
| HeaderRetry.ExceptionHappens | src/core/request.cpp:826-839 | an input of ten bytes in two reads for which it applies |
| HeaderGrammar.MatchIsRead | src/core/request.cpp:784-894 | every line that the cut predicate describes is answered OK with these slices |
| HeaderGrammar.ReadIsMatched | src/core/request.cpp:784-894 | every line answered OK has such a cut |
| HeaderGrammar.ExactHeaderLine | src/core/request.cpp:714-951 | OK if and only if, past ignored lines, there stands a name, ':' and a value cut free of spaces at both ends, then CR* LF; exactly that line is consumed; `invalid_header` is set exactly for a name with a byte outside the alphabet |
| HeaderGrammar.RingHoldsTheLastBytes | src/core/request.cpp:751-812 | `lowcase_header` holds the last min(k,32) of k name bytes, in lower case, at their index mod 32 |
| HeaderGrammar.LowcaseDescribesTheName | src/core/request.cpp:936-943 | if `invalid_header` is 0 after OK, `lowcase_index` is k mod 32 and the ring describes the name |
| HeaderLine.LowcaseByText | src/core/request.cpp:732-740 | the alphabet of header names: letters, counted in lower case, digits and '-' |
| Request.UsualBit | src/core/request.cpp:32-52 | the bitmap marks all bytes but NUL, LF, CR, SP, '#', '%', '+', '.', '/' and '?' |
| Request.Lowcase | src/core/request.cpp:732-741 | the table maps letters to lower case, digits and '-' to themselves and all else to 0 |
| Request.MethodChain | src/core/request.cpp:184-272 | the comparisons by length recognise exactly the fourteen method names |
| Request.ShortMethods | src/core/request.cpp:174-220 | the method names of up to four letters and their codes, literally |
| Request.LongMethods | src/core/request.cpp:222-270 | the other method names and their codes, literally |
| Request.LineParser.RecogniseMethod | src/core/request.cpp:184-272 | sets `method` to the code of the token between request_start and pos, and leaves it alone for an unknown one |
| Request.LineParser.Turn | src/core/request.cpp:149-689 | one turn of the loop changes the fields exactly as the machine's step |
| Request.LineParser.CloseLine | src/core/request.cpp:696-711 | what happens at `done`: request_end, the version number, and the refusal of HTTP/0.9 for other methods than GET |
| Request.LineParser.ScanLine | src/core/request.cpp:147-689 | the loop stops where the machine stops, with its fields |
| Request.LineParser.Parse | src/core/request.cpp:118-712 | one call of `sp_parse_request_line` answers what the machine does and leaves its fields; an error leaves `pos` and `state` alone, unless the line was read to its end |
| Request.HeaderParser.PutLowcase | src/core/request.cpp:793-803 | stores one byte in the ring and moves the index on, mod 32 |
| Request.HeaderParser.ScanHeader | src/core/request.cpp:746-933 | the loop stops where the machine stops, with its fields |
| Request.HeaderParser.Parse | src/core/request.cpp:714-951 | one call of `sp_parse_header_line`: what each of its four answers saves and what it leaves alone |
| Request.Request.RejectsDots | src/core/connection.cpp:217-231 | the scan of a complex URI |
| Request.Request.SaveHeader | src/core/connection.cpp:271-286 | the pair goes into the map, cut at NUL, if both parts are shorter than SMALLBUF, and is dropped otherwise |
| Request.Request.ReadRequestLine | src/core/connection.cpp:192-262 | the request-line phase: wait, refuse or go on |
| Request.Request.ReadHead | src/core/connection.cpp:264-288 | the header loop collects the lines up to the blank one |
| Request.Request.ConnRead | src/core/connection.cpp:123-288 | one read does to the object what `Head.Feed` does to its value, and keeps the invariant while it waits |
| Head.FeedKeepsInv | src/core/connection.cpp:192-288 | between two reads everything received is consumed and the request line is that of one parse from the start |
| Head.LinePhaseContinues | src/core/connection.cpp:192-195 | resuming the request line equals parsing it from the start |
| Head.HeadersResume | src/core/connection.cpp:264-288 | the header loop, cut at any byte, resumes to the same block |
| Head.FeedSplit | src/core/connection.cpp:192-288 | two reads are as good as one read of both pieces |
| Head.FragmentationIndependence | src/core/connection.cpp:192-288 | every way of cutting the bytes into reads ends in the same answer, method, version, offsets and header map |
| Head.CutsDoNotMatter | src/core/connection.cpp:192-288 | from a new connection on, two ways of cutting the same bytes end alike |
| Head.NoDotSegmentsAreRead | src/core/connection.cpp:192-231 | however it arrived, a request that is passed on with `quoted_uri` unset has no "/.." before its query |
| Head.InvalidHeaderRepeats | src/core/connection.cpp:264-288 | in every state a connection can be in, once the header loop gets INVALID_HEADER all its further calls get it too, if and only if the line is not the exception named in `HeaderRetry.InvalidRepeatsExactly` |
| HeadGrammar.CStringSpells | src/core/connection.cpp:275-281 | what is kept of a name or value is its bytes up to the first NUL |
| HeadGrammar.LinesAreRead | src/core/connection.cpp:264-288 | successive header lines and the blank line are read to the end of the block |
| HeadGrammar.LastIsHeld | src/core/connection.cpp:281-281 | of several lines kept under one name the last one counts |
| HeadGrammar.HeadIsRead | src/core/connection.cpp:192-288 | a head that matches is passed on, unless its path is refused, with its fields, `pos` after the blank line, and a map that holds exactly the names of the lines with both parts under 1024 bytes, each with the value of its last such line |
| HeadGrammar.HeadInPiecesIsRead | src/core/connection.cpp:192-288 | the same for every way the head arrives |
| HeadGrammar.HeadIsMatched | src/core/connection.cpp:192-288 | every head that is passed on matches |
| HeadGrammar.RefusedExactly | src/core/connection.cpp:193-231 | a new connection is refused exactly for a request line that is not accepted or for its path |
| HeaderPrinting.PrintAppends | src/core/connection.cpp:901-907 | one more entry extends the printed block at its end |
| HeaderPrinting.EntryMatches | src/core/connection.cpp:902-905 | a printed entry is a header line whose slices are its name and value |
| HeaderPrinting.EntryIsRead | src/core/connection.cpp:264-288 | the header loop takes a printed entry into the map and stops right behind it |
| HeaderPrinting.BlankLineIsRead | src/core/connection.cpp:908-908 | the final CR LF ends the block |
| HeaderPrinting.StatusLineIsSkipped | src/core/connection.cpp:857-887 | a status line is passed over without a trace in the map |
| HeaderPrinting.PrintedHeadersAreRead | src/core/connection.cpp:889-910 | the header loop, run on what `conn_compile_resp` prints for a map in any order, returns exactly that map and stops after the blank line |
| HeaderPrinting.ResponseIsRead | src/core/connection.cpp:889-910 | what is read back is the response's own map, with the charset at the end of its Content-Type and nowhere else |
| OutputProtocol.StepKeepsInv | src/core/connection.cpp:474-528 | every step keeps sent <= len <= size, fread <= fsize, and the position in the stream |
| OutputProtocol.RunKeepsInv | src/core/connection.cpp:936-993 | so does every run |
| OutputProtocol.SafeRuns | src/core/connection.cpp:936-993 | over every run the offsets are in order, and a normal close happens only when the counted bytes are header and file |
| OutputProtocol.ProductiveRunsEnd | src/core/connection.cpp:474-528 | if the file does not shrink, a run, also of an empty file, has at most a number of steps given by what is left to read and to send |
| OutputProtocol.NeverStuck | src/core/connection.cpp:936-993 | until it is closed there is always a next step |
| OutputProtocol.EmptyReadSpins | src/core/connection.cpp:484-526 | a read of nothing with room in the buffer changes nothing: on a file that shrank the loop spins |
| OutputProtocol.WritesAddUp | src/core/connection.cpp:942-990 | when every write sends something, as much is sent as the answers say together, but not more than there is, and the call leaves exactly when that is everything |
| OutputProtocol.FailedWriteCloses | src/core/connection.cpp:980-983 | the first write that fails or sends nothing closes the connection, what was sent before it stays counted |
| OutputProtocol.ReadsAddUp | src/core/connection.cpp:484-525 | as much is read as the answers say together, but not more than fits and the file still has, and exactly then the buffer is drained |
| OutputProtocol.FailedReadCloses | src/core/connection.cpp:489-494 | a read that fails closes the connection |
| OutputProtocol.WholeWritesDeliver | src/core/connection.cpp:979-988 | with whole-buffer writes the peer gets the rest of header and file |
| OutputProtocol.ShortWriteShows | src/core/connection.cpp:979-988 | after any short write there are contents for which the peer gets wrong bytes |
| OutputProtocol.FaithfulDelivery | src/core/connection.cpp:979-988 | a normally ended run delivers header and file, whatever they contain, if and only if none of its writes was short |
| Response.Response.FillResp | src/core/connection.cpp:919-934 | appends the bytes, growing the buffer by just what is missing and one byte if needed, and changes nothing when that fails |
| Response.Response.CompileResp | src/core/connection.cpp:889-910 | prints status line, every header once and the blank line, the charset being added to Content-Type; does nothing the second time |
| Response.Response.SendFile | src/core/connection.cpp:474-528 | one call performs the run of the protocol that the answers of read() give, the first call after printing the header block |
| Response.Response.FillFromFile | src/core/connection.cpp:484-526 | the read loop performs the steps that the answers of read() give, until the buffer is to be drained |
| Response.Response.CountRead | src/core/connection.cpp:495-525 | how a read is accounted for and when it stops the loop |
| Response.Response.Respond | src/core/connection.cpp:936-993 | the write loop performs exactly the steps that the answers of write() give, and the delivered bytes are those of the run |
| Response.Response.DrainOnce | src/core/connection.cpp:978-990 | one write: how much it moved, or its failure, is what write() answered |
| Response.Response.Turn | src/core/connection.cpp:944-955 | everything sent: refill or close |
| Forms.ReadHttpValues | src/core/connection.cpp:766-855 | the in-place decoder computes the state machine's map, on every input |
| Forms.FeedSign | src/core/connection.cpp:795-837 | a plain or an escaped byte adds the byte it stands for; a '+' adds a space, or itself in the first place |
| Forms.FeedPair | src/core/connection.cpp:786-846 | a written pair is taken in as key and value |
| Forms.FeedItem | src/core/connection.cpp:787-846 | any item between two '&': a pair, a key without '=', which gets an empty value, or nothing |
| Forms.DecodeTakes | src/core/connection.cpp:766-851 | for all lists of pairs the decoder returns the last value of every key as it takes it |
| Forms.LastIsHeld | src/core/connection.cpp:798-798 | of several pairs with one key the last one wins |
| Forms.DecodeUndoesEncoding | src/core/connection.cpp:766-851 | the decoder returns the last value of every key as it was meant, however its bytes were written, if and only if none of these last values is written with a '+' in the first place |
| Forms.EscapedBytesComeBack | src/core/connection.cpp:803-831 | any bytes, each written as '%' and its two hexadecimal digits in either case, come back |
| Forms.SlashIsDecoded | src/core/connection.cpp:806-821 | "k=%2F" is decoded to "/" |
| Forms.DecodeStopsAt | src/core/connection.cpp:785-785 | a CR, LF or space ends the text, whatever follows |
| Forms.UnfinishedEscapeLosesTheItem | src/core/connection.cpp:850-851 | if the text ends within an escape, its last item is lost |
| Forms.BrokenEscape | src/core/connection.cpp:803-816 | a '%' that no digit follows is kept, and put before every byte up to and including the next '&' |
| Forms.HalfEscape | src/core/connection.cpp:818-829 | a '%' and one digit are left out |
| Forms.PlusIsKept | src/core/connection.cpp:832-837 | "k=+" is decoded to "+" and not to a space |
| Cookies.DecodeCookies | src/core/connection.cpp:350-432 | the in-place decoder computes the state machine's cookies, on every text |
| Cookies.SetIsDecoded | src/core/connection.cpp:1277-1284 | decoding what `cookieSet` prints gives exactly that name with the value, expires "0" and path "/" |
| Cookies.PairIsDecoded | src/core/connection.cpp:350-432 | the bare pair a browser sends back gives the cookie without attributes |
| Cookies.EmptyValueIsDropped | src/core/connection.cpp:372-377 | an empty value followed by ';' yields no cookie, whatever follows |
| Cookies.DelIsDecodedAsNothing | src/core/connection.cpp:1286-1293 | decoding what `cookieDel` prints, or `cookieSet` with an empty value, yields no cookie |
| Cookies.LastCookieIsKept | src/core/connection.cpp:350-432 | of several cookies in a text the last is kept, with the last of each attribute in the whole text |
| Cookies.EqualsRepeatsTheKey | src/core/connection.cpp:378-419 | an '=' right after a ';' repeats the key before it |
| Cookies.FlagDropsAll | src/core/connection.cpp:397-397 | an item without '=' before the end makes the decoder give up the whole text |
| Cookies.NameAloneDropsAll | src/core/connection.cpp:362-362 | so does a first name without '=' |
| Cookies.EmptyAttributeEnds | src/core/connection.cpp:401-406 | an attribute with an empty value ends the decoding with what was read before it |
| Cookies.EmptyCookieDropsAll | src/core/connection.cpp:392-395 | a later cookie without a value leaves nothing |
| Cookies.SetTextIs | src/core/connection.cpp:1280-1281 | the text of `cookieSet`, literally |
| Cookies.DelTextIs | src/core/connection.cpp:1289-1292 | the text of `cookieDel`, literally |
| Cookies.PointerIsAssigned | src/core/connection.cpp:385-418 | in every reachable state that writes through the attribute pointer, or comes back to one, it has been assigned |
| Sessions.HexUndone | src/core/sp_session.cpp:43-43 | reading the printed digits gives the number back |
| Sessions.HexLength | src/core/sp_session.cpp:71-73 | exactly which ids print with an even number of digits |
| Sessions.ParseId | src/core/sp_session.cpp:71-88 | the loop over pairs of digits computes the number they spell, and accepts exactly 2, 4, 6 or 8 hexadecimal digits |
| Sessions.PairShifts | src/core/sp_session.cpp:87-87 | adding a pair shifted by its place is one step of base-256 notation |
| Sessions.Sessions.SessionRegister | src/core/sp_session.cpp:32-57 | stores a new session under the first drawn id that is not live, and sets its cookie |
| Sessions.Sessions.SessionCheck | src/core/sp_session.cpp:59-100 | succeeds if and only if the value is readable and names a live session; only adds null entries; touches no other session |
| Sessions.Sessions.SessionKill | src/core/sp_session.cpp:107-110 | removes exactly that id |
| Sessions.LiveIsRegisteredAndNotKilled | src/core/sp_session.cpp:38-110 | over every run, every session is stored under its own id and is live exactly from its registration to its kill |
| Sessions.RegistrationsNeverReplace | src/core/sp_session.cpp:38-41 | no registration replaces a live session |
| Sessions.PrintedIsRead | src/core/sp_session.cpp:43-88 | a printed id is read back if and only if it fits 32 bits and has an even number of digits |
| Sessions.SessionIdentity | src/core/sp_session.cpp:43-96 | printing, setting, decoding and checking find the session again if and only if its id fits 32 bits and prints with an even number of digits |
| Sessions.SessionIdentityFromBrowser | src/core/sp_session.cpp:67-96 | the same for the bare pair of a Cookie header |
| Base64.Char | src/core/base64.cpp:31-34 | the alphabet, which `find` undoes |
| Base64.CharOfFind | src/core/base64.cpp:31-39 | `is_base64` accepts exactly the bytes that `find` and the alphabet take back to themselves |
| Base64.FindIsPosition | src/core/base64.cpp:31-39 | the tests and the search are about the alphabet A-Z, a-z, 0-9, '+', '/' in this order |
| Base64.SameValue | src/core/base64.cpp:98-100 | the shifts and masks of the decoder only move a value from base 64 to base 256 |
| Base64.EncodeIsStandard | src/core/base64.cpp:41-82 | the encoding is the one of section 4 of RFC 4648: four characters of the alphabet with the value of three bytes, and a padded end; and nothing else is |
| Base64.DecodeIsStandard | src/core/base64.cpp:84-123 | the decoder gives exactly the bytes with the value of the characters before the first one outside the alphabet |
| Base64.ManIsEncoded | src/core/base64.cpp:41-82 | "Man" is encoded as "TWFu" |
| Base64.BlockDecodes | src/core/base64.cpp:98-106 | the shifts and masks of the decoder undo those of the encoder, on all three bytes |
| Base64.BlockEncodes | src/core/base64.cpp:51-58 | and the encoder's those of the decoder, on all four values |
| Base64.TailEncodes | src/core/base64.cpp:63-80 | a short last group is encoded back exactly if its unused bits are zero |
| Base64.Base64Encode | src/core/base64.cpp:41-82 | the loop over the staging buffers computes the standard's encoding |
| Base64.Base64Decode | src/core/base64.cpp:84-123 | the loop over the staging buffers gives what the characters before the first one outside the alphabet stand for |
| Base64.DecodeTail | src/core/base64.cpp:108-120 | the unused places, which become 255, do not matter for the bytes that are kept |
| Base64.EncodeLength | src/core/base64.cpp:41-82 | the encoding has 4 * ceil(n / 3) characters |
| Base64.DecodeReadsTheCleanPrefix | src/core/base64.cpp:92-95 | the decoder gives floor(3n / 4) bytes for a prefix of n alphabet characters and ignores everything after it |
| Base64.RoundTrip | src/core/base64.cpp:41-123 | decoding undoes encoding, for every byte string |
| Base64.JoinedEncodings | src/core/base64.cpp:41-123 | encodings may be joined at multiples of three bytes |
| Base64.CanonicalExactly | src/core/base64.cpp:41-123 | encoding undoes decoding if and only if the text is padded to whole blocks and its unused bits are zero |
| Base64.CredentialsRecovered | src/modules/mgr/mgr_acc.cpp:119-128 | user and password come out of the Authorization header exactly when the user has no ':' |
| IpRange.NextIsOneMore | src/modules/mgr/mgr_ip.cpp:221-223 | the carry step adds one to the base-256 value, and wraps only at the very last address |
| IpRange.Increment | src/modules/mgr/mgr_ip.cpp:221-223 | the inner loop performs the carry in place |
| IpRange.StopIsLeast | src/modules/mgr/mgr_ip.cpp:219-219 | the componentwise exit test is first passed at `Stop`, for arbitrary addresses |
| IpRange.EndsOnTheEnd | src/modules/mgr/mgr_ip.cpp:219-219 | the loop stops on the end address if and only if the start is not above it |
| IpRange.CountIsExact | src/modules/mgr/mgr_ip.cpp:219-229 | the stored addresses are exactly those above the start and up to the stop, each once, and as many as the distance |
| IpRange.CountUp | src/modules/mgr/mgr_ip.cpp:219-230 | the loop ends without wrapping, at `Stop`, having stored these addresses in order |
| IpRange.AddRange | src/modules/mgr/mgr_ip.cpp:204-234 | a form with other than four components, or one outside 0..255, is sent back and stores nothing |
| ResultTable.EveryRowGrows | src/core/mydb.cpp:130-132 | the growth test, in its odd units, makes the table grow for every row |
| ResultTable.SaveKeeps | src/core/mydb.cpp:127-174 | saving keeps all rows so far |
| ResultTable.PackedSave | src/core/mydb.cpp:127-174 | without failures tblpos, rows * cols and tblsz coincide, and the new row is the row given |
| ResultTable.NothingIsWasted | src/core/mydb.cpp:127-174 | the same for a whole query |
| ResultTable.SaveCounts | src/core/mydb.cpp:127-174 | a row more is counted exactly when memory suffices, also for its last cell, and no cell is lost |
| ResultTable.FetchedAreTheRows | src/core/mydb.cpp:219-240 | the fetches deliver exactly the rows that found memory, in order, if and only if the header was saved or there is no such row |
| ResultTable.Straddles | src/core/mydb.cpp:102-110 | behind m foreign cells, a row of the table is the end of one row and the beginning of the next |
| ResultTable.FetchedWithoutHeader | src/core/mydb.cpp:219-240 | when the header was not saved, fetching delivers such rows, shifted by what was copied of it |
| ResultTable.FirstRowIsMissing | src/core/mydb.cpp:219-240 | when nothing was copied of it, these are all saved rows but the first |
| ResultTable.Result.Grow | src/core/mydb.cpp:132-157 | a larger table with the same cells, and NULL behind them |
| ResultTable.Result.SaveRow | src/core/mydb.cpp:127-174 | one row saved, or what could be copied of it, in every case of allocation failure |
| ResultTable.Result.FetchRow | src/core/mydb.cpp:96-117 | the next data row in place, or NULL after the last |
| ResultTable.Result.NumRows | src/core/mydb.cpp:114-117 | the number of rows that fetching delivers |
| ResultTable.Result.FreeResult | src/core/mydb.cpp:262-272 | every stored string is freed, and none twice, also after failures |
| ResultTable.FetchAll | src/core/mydb.cpp:96-117 | fetching until NULL gives the rows in order |
| ResultTable.DbQuery | src/core/mydb.cpp:206-240 | the saves of one query, up to the first failing row |
| Timer.Timer.Visit | src/core/sp_timer.cpp:95-106 | one entry: tested once, called if due, then re-armed in place or erased |
| Timer.Timer.Pass | src/core/sp_timer.cpp:94-109 | the descending loop with its erasures performs the pass |
| Timer.Timer.SetAction | src/core/sp_timer.cpp:114-126 | appends the entry, due after the offset |
| Timer.EachEntryOnce | src/core/sp_timer.cpp:94-109 | each entry is tested exactly once, at a clock reading of its own that alone decides about it, and what is kept keeps its order |
| Timer.PassExactly | src/core/sp_timer.cpp:94-109 | on any clock: at which reading each entry is tested, what is called and in which order, what stays and in which place, and that a called periodic entry is re-armed a whole period after the reading that follows its call |
| Timer.SlowAction | src/core/sp_timer.cpp:98-101 | an action due at 100 that takes until 103 is due again at 113 with a period of 10 |
| Timer.DueAreCalled | src/core/sp_timer.cpp:95-97 | what was due when the pass began is called; what is not due by its end stays |
| Timer.LeftAreLater | src/core/sp_timer.cpp:99-104 | nothing that is left, re-armed entries included, was due when the pass began |
| Timer.QuietExactly | src/core/sp_timer.cpp:94-109 | a pass calls nothing if and only if no entry is due at its turn |
| Timer.SecondPassIsQuiet | src/core/sp_timer.cpp:94-109 | a second pass before the clock moves calls and changes nothing |
| Timer.StillClock | src/core/sp_timer.cpp:94-109 | on a clock that stands still the pass is a filter: the due ones fire, one-shots go, periodic ones move to now + Freq |
| Timer.Conservation | src/core/sp_timer.cpp:94-126 | over every run of additions and passes, a one-shot is in the list or was called, as often as it was added, and a periodic task stays in the list |
| Timer.CalledAtMostOnce | src/core/sp_timer.cpp:99-104 | a one-shot added once is called at most once and then is gone |

## Left out

- Sockets, libevent, OpenSSL and the SSL branches of `conn_read` and `conn_respond`: foreign calls; a read or a write is a count that the environment chooses.
- Request.Request.ConnRead: the request buffer's `realloc`; offsets do not move, so that only `pos` is rebased has no counterpart.
- POST bodies and `Content-Length`: the body is parsed from whatever has arrived.
- Request.Request.ReadRequestLine: the copy of the request line into a scratch buffer of fixed size (`src/core/connection.cpp:205-207`); only the parsed offsets are modelled.
- Request.Request.ReadHead: leaves the loop at the first invalid header line; what the source's further calls answer is stated in `HeaderRetry`.
- The `Request` class of the source has one `state` field for both parsers, which are never active at once; the model gives each parser its own, in an object of its own.
- Head.FragmentationIndependence: the fields that HEADER_DONE does not save (`lowcase_index`) are not among the compared results; a head ends with the first invalid header line, after which the source calls the parser again; what those calls answer, which can depend on the cuts, is stated by `Head.InvalidHeaderRepeats`.
- Forms.DecodeUndoesEncoding: a key does not begin with a space, which is written as '+'; after a '&' the decoder takes a first '+' of a key literally. It does not decode '%' in a key, so the other bytes of a key stand for themselves.
- Cookies.DecodeCookies: one Cookie header at a time; that `cookieGet` adds an empty cookie for an unknown name is not modelled.
- Sessions.Sessions.SessionRegister: the random numbers are a parameter, a list of draws of which one is free, so that the loop ends; the login name and the address that are copied into the session are left out.
- Sessions.Sessions.SessionCheck: excludes the same values as Sessions.ParseId.
- Sessions.ParseId: values of 512 bytes and more whose halved length wraps to 4 or less in the byte counter are excluded; there the source shifts by undefined amounts.
- Response.Response.CompileResp: assumes that growing the buffer succeeds; the source ignores the answer. A failing `FillResp` is covered by its own contract. The status line is printed whole; the source's constant texts have no NUL.
- HeaderPrinting.PrintedHeadersAreRead: the status line is any line that begins with "HTTP/" and has one LF, at its end; the table of status texts is left out. The header map is listed in any order, `std::map`'s included.
- The completion path of a finished request (`sp_finish_request`), handlers and redirects: control flow between callbacks.
- IpRange.AddRange: the components come as numbers; splitting at '.' and `atoi` are left out, as is the SQL that stores an address.
- ResultTable.DbQuery: one statement with a result, without NULL columns; SQLite itself, and null result pointers, are left out. Sizes are unbounded integers.
- ResultTable.Cell: a freed string is marked; its memory is not reused.
- Timer.Timer.Pass: actions do not touch the list (they would wait for its lock forever); the clock is any sequence of readings; times are unbounded integers; `free` of a one-shot's parameters happens with its removal and has no state of its own.
- The timer's mutex, which is released by a thread that does not hold it: no exclusion can be proved of it.
- The list and add pages of the management module, XML and XSLT, curl, logging, child processes, the MIME table, configuration, statistics and the shell scripts: libraries, output or plain lookups.
