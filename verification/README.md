# The byte transformers of the CGI library, the Base64 codec and the slice rewriter

This project models three pieces of C code and proves what they are for.

- **`app/WEB_CGI/cgi-enc/cgic.c`**, the CGI library: the put-back stream and the streaming boundary
  search under it, the `multipart/form-data` parser (section 5.1.1 of RFC 2046, section 4 of RFC 7578),
  the urlencoded parser (section 17.13.4.1 of HTML 4.01), newline normalisation with truncation, the
  accessors over the shared find cursor, cookies (section 4.2.1 of RFC 6265), and saving and restoring
  a request.
- **`app/protocol_lib/rtsp/b64.c`**, Base64 (section 4 of RFC 4648, section 6.8 of RFC 2045): the
  wrapping encoder with its size arithmetic and the tolerant decoder.
- **`riplayer/mp4/mp4_common.cpp`**: `CalcSliceLen`, which replaces start codes by lengths in the
  frame that it is still scanning.

The code is modelled in its own form: classes with the C fields for the stream, the output pointers,
the form cursor and the file that is read, loops over arrays where the C code writes into buffers. Each
method is proved against a function of its input, and the laws are proved about these functions.
A pointer into a C string that only moves forward is the rest of the string. `dafny verify
dfyconfig.toml` checks everything.

## How the files hang together

| file | content |
|---|---|
| `CStrings.dfy`, `Entries.dfy` | C strings, `<ctype.h>`, scanning; the form entry |
| `VirtualStream.dfy` | the ring buffer over the request body |
| `BoundarySearch.dfy` | the search loop as a function of ring and body, and when it is a leftmost search |
| `Delimiters.dfy`, `HeaderLines.dfy`, `Multipart.dfy` | `afterNextBoundary`, the header parser, the multipart parser |
| `MultipartOutputs.dfy`, `MultipartRoundTrip.dfy`, `MultipartLaws.dfy` | what the parser can return, the round trip, unusual headers and cut submissions |
| `ContentTypes.dfy` | the boundary taken from the content type |
| `UrlEncoded.dfy` | the urlencoded parser and all legal encodings |
| `FormValues.dfy`, `FormEntries.dfy` | values of entries, and access to entries by name |
| `Cookies.dfy`, `CookieLaws.dfy` | looking up and listing cookies |
| `Environment.dfy`, `EnvironmentLaws.dfy` | the saved form of a request |
| `Base64.dfy`, `Base64Laws.dfy` | the codec and its laws |
| `SliceLengths.dfy` | the start-code rewriter |

## What turned out false of the code, and exactly when it holds

- The ring is a queue, so an un-read is exact only if the ring holds nothing but copies of the un-read
  character (`UnreadIsExactIff`). The inner search always un-reads onto an empty ring. The opening
  search does so exactly if no match fails beyond the leading dashes before the search is over
  (`RunDisciplinedIff`); otherwise it can walk past a boundary (`FirstSearchCanMiss`).
- The guard of `mpRead` against reading beyond the declared length fails: a read goes beyond it by as
  much as `offset` lags behind after un-reads (`OverreadIff`, `ReadBeyondDeclared`).
- A printed part comes back exactly if it is `Legal`: the parser drops colons in header values and white
  space in front of them, cuts values at 399 characters, and ends quoted texts at any quote
  (`MultipartRoundTripIff`).
- The urlencoded parser returns C strings, so a pair comes back exactly if it holds no NUL
  (`FormRoundTripIff`).
- A cookie lookup compares beyond the end of the header exactly if no cookie has the name and the header
  ends in the bare name (`LookupInvertsPrinting`). The listing loses its terminating null exactly if
  there is a bare name at the end and no equals sign in any value (`ListingInvertsPrinting`).
- A save looks files up by name, so an entry comes back at its place exactly if its value holds no NUL
  and the file saved with it is its own (`EntryBackIff`, `SaveRestore`, `SaveRestoreIff`,
  `SharedNameLosesFile`).
- The encoder's size is exact unless it, or the text size rounded up to a line, cannot be represented, or
  an empty text is in lines (`EncodedSizeIff`, `EmptyInLines`).
- A CRLF follows a full last line if the buffer is larger (`EmittedText`, `TrailingBreakIff`). If the
  buffer ends between the two, the encoder writes past it (`OverrunIff`, `OverrunOfFive`).
- The slice rewriter takes four bytes off for three start codes, however many there are. The frame can
  be read back exactly if there are one or three (`RewritingPreservesSlicesIff`).

## Model

| member | source | states |
|---|---|---|
| CStrings.StrEqNcIff | app/WEB_CGI/cgi-enc/cgic.c:2341-2362 | equality up to case is equality of the texts in lower case |
| CStrings.CStrFacts | app/WEB_CGI/cgi-enc/cgic.c:1039 | a C string ends before the first NUL |
| VirtualStream.MpStream.constructor | app/WEB_CGI/cgi-enc/cgic.c:443-445 | a zeroed stream queues nothing and stands at the start of the body, whatever its length |
| VirtualStream.MpStream.TakeQueued | app/WEB_CGI/cgi-enc/cgic.c:347-356 | serves the oldest queued characters, up to the length asked for |
| VirtualStream.MpStream.MpRead | app/WEB_CGI/cgi-enc/cgic.c:343-382 | for every body, also one longer than declared: serves the ring and then as much of the body as `offset` allows; result, position and `offset` as in the code; `offset` never runs ahead of the logical position |
| VirtualStream.MpStream.Read | app/WEB_CGI/cgi-enc/cgic.c:343-382 | on a body no longer than declared, no byte is refused: the first min(len, available) characters of ring and body are returned and the rest is kept |
| VirtualStream.OverreadIff | app/WEB_CGI/cgi-enc/cgic.c:357-361 | a read goes beyond the declared length by at most the lag of `offset`, and does so if and only if `offset` lags, the body is longer than declared, and more is wanted than was declared |
| VirtualStream.ReadBeyondDeclared | app/WEB_CGI/cgi-enc/cgic.c:357-366 | one un-read and one read of three characters take one character more than the two declared, and `offset` passes the declared length |
| VirtualStream.MpStream.MpPutBack | app/WEB_CGI/cgi-enc/cgic.c:384-392 | queues the data behind what the ring holds and takes its length off `offset` |
| VirtualStream.MpStream.Unread | app/WEB_CGI/cgi-enc/cgic.c:384-392 | on an empty ring an un-read puts the character in front of everything still to be read |
| VirtualStream.RingPop | app/WEB_CGI/cgi-enc/cgic.c:348-352 | the wrapping read position takes the first element of the queue |
| VirtualStream.RingPush | app/WEB_CGI/cgi-enc/cgic.c:387-391 | the wrapping write position appends to the queue as long as it is not full |
| VirtualStream.ReadSplit | app/WEB_CGI/cgi-enc/cgic.c:346-366 | reading from the ring and then from the body reads their concatenation |
| VirtualStream.UnreadIsExactIff | app/WEB_CGI/cgi-enc/cgic.c:384-392 | un-reading restores the stream if and only if the ring holds only copies of the character |
| BoundarySearch.FirstIndex | app/WEB_CGI/cgi-enc/cgic.c:394-406 | the position of the leftmost occurrence, and none before it |
| BoundarySearch.DisciplinedIsLeftmost | app/WEB_CGI/cgi-enc/cgic.c:714-747 | if every un-read finds the ring empty, the search emits exactly what precedes the leftmost occurrence and leaves exactly what follows it |
| BoundarySearch.UniqueHeadIsDisciplined | app/WEB_CGI/cgi-enc/cgic.c:709-747 | a pattern whose first character does not recur, like one that begins with CR, is searched with every un-read onto an empty ring |
| BoundarySearch.RunDisciplinedIff | app/WEB_CGI/cgi-enc/cgic.c:709-747 | with a run of dashes in front, every un-read finds the ring empty if and only if no match fails beyond the run before the search is over |
| BoundarySearch.LateFailureRequeues | app/WEB_CGI/cgi-enc/cgic.c:729-741 | after a failure beyond the run the search un-reads onto a ring that is not empty |
| BoundarySearch.FirstSearchCanMiss | app/WEB_CGI/cgi-enc/cgic.c:709-747 | the pattern `--ab` is missed in `--a--ab` |
| Delimiters.InnerSearchIsLeftmost | app/WEB_CGI/cgi-enc/cgic.c:709-747 | with up to one queued character, the search for CRLF and a boundary is a leftmost search of ring and body |
| Delimiters.OpeningSearchIsLeftmost | app/WEB_CGI/cgi-enc/cgic.c:709-747 | the search for the opening boundary is disciplined if and only if no late failure happens, and then leftmost |
| Delimiters.SearchLoop | app/WEB_CGI/cgi-enc/cgic.c:714-747 | the loop computes the search function, ends with an empty ring, and terminates although it reads un-read bytes again |
| Delimiters.SearchOne | app/WEB_CGI/cgi-enc/cgic.c:715-746 | one round emits at most one character, keeps what the whole search finds, and decreases the measure |
| Delimiters.UnreadMatch | app/WEB_CGI/cgi-enc/cgic.c:737-741 | all of a failed match but its first character goes back, without filling the ring |
| Delimiters.PassTwo | app/WEB_CGI/cgi-enc/cgic.c:748-761 | two characters behind the boundary are skipped unless the first is a dash, then both are put back |
| Delimiters.AfterNextBoundary | app/WEB_CGI/cgi-enc/cgic.c:685-797 | if the boundary occurs and two characters follow it, success, the body before its leftmost occurrence, and the stream behind it or at the dashes; otherwise cgiParseIO and no body |
| HeaderLines.ReadHeaderLine | app/WEB_CGI/cgi-enc/cgic.c:906-965 | reads one header line as specified, and every un-read finds the ring empty |
| HeaderLines.SkipLineFeed | app/WEB_CGI/cgi-enc/cgic.c:922-931 | skips the line feed behind a carriage return, and nothing else |
| HeaderLines.SkipWhiteSpace | app/WEB_CGI/cgi-enc/cgic.c:934-941 | skips white space behind a colon and un-reads the next character exactly |
| HeaderLines.ReadArgument | app/WEB_CGI/cgi-enc/cgic.c:840-902 | reads one parameter: name, equals sign, quoted or unquoted text |
| HeaderLines.DecomposeValue | app/WEB_CGI/cgi-enc/cgic.c:799-904 | the main text and the asked-for parameters; an unknown parameter is skipped or ends in a write through null |
| Multipart.ReadPartHeader | app/WEB_CGI/cgi-enc/cgic.c:483-510 | folds the header lines of a part into disposition, names and type |
| Multipart.ReadAtEnd | app/WEB_CGI/cgi-enc/cgic.c:472-482 | looks two characters ahead and restores the stream |
| Multipart.ReadPart | app/WEB_CGI/cgi-enc/cgic.c:472-589 | one part: header, and the body up to the next boundary |
| Multipart.NextStep | app/WEB_CGI/cgi-enc/cgic.c:457-590 | one round of the loop adds its part in front of what is parsed later |
| Multipart.ParseParts | app/WEB_CGI/cgi-enc/cgic.c:457-591 | the loop returns the parts behind the opening boundary in order |
| Multipart.ParsePostMultipartInput | app/WEB_CGI/cgi-enc/cgic.c:436-591 | for every input up to the declared length, returns the entries of the specification in order |
| MultipartOutputs.HeaderLineValuePlain | app/WEB_CGI/cgi-enc/cgic.c:934-951 | a header value never holds a colon or a line break |
| MultipartOutputs.EntriesArePossible | app/WEB_CGI/cgi-enc/cgic.c:436-591 | whatever the input, texts of entries fit their buffers and are free of colons, line breaks and NUL, lengths are those of the bodies, exactly the entries with a file name have a file, and no body holds the delimiter |
| MultipartRoundTrip.PrintedField | app/WEB_CGI/cgi-enc/cgic.c:906-965 | a printed header field is read back without white space in front and up to 399 characters |
| MultipartRoundTrip.DispositionRead | app/WEB_CGI/cgi-enc/cgic.c:799-904 | a printed disposition is decomposed into its names, up to a quote in them |
| MultipartRoundTrip.DispositionReadIff | app/WEB_CGI/cgi-enc/cgic.c:491-501 | the names come back if and only if the disposition fits and they hold no quote |
| MultipartRoundTrip.TypeReadIff | app/WEB_CGI/cgi-enc/cgic.c:502-509 | a content type comes back if and only if it has no white space in front and no semicolon |
| MultipartRoundTrip.BodyUpToDelimiter | app/WEB_CGI/cgi-enc/cgic.c:685-797 | the leftmost delimiter behind a body without it is the one printed there |
| MultipartRoundTrip.PartRead | app/WEB_CGI/cgi-enc/cgic.c:472-589 | one printed part is consumed exactly, and equals the part if and only if that is legal |
| MultipartRoundTrip.PartsIff | app/WEB_CGI/cgi-enc/cgic.c:457-591 | the printed parts come back in order if and only if all are legal |
| MultipartRoundTrip.PreamblePassed | app/WEB_CGI/cgi-enc/cgic.c:449-456 | the opening search passes over any preamble in which the start of the boundary, its dashes and the next character, does not occur |
| MultipartRoundTrip.DashFree | app/WEB_CGI/cgi-enc/cgic.c:449-456 | every preamble without dashes is one |
| MultipartRoundTrip.MultipartRoundTripIff | app/WEB_CGI/cgi-enc/cgic.c:436-591 | for every list of parts in the form of RFC 2046, with preamble and epilogue, the entries have the names, file names, types, bodies and lengths of the parts, in order, if and only if every part is legal |
| MultipartRoundTrip.BlankTypeCanComeBack | app/WEB_CGI/cgi-enc/cgic.c:934-941 | a part whose content type is nothing but white space is not legal, and yet comes back with a suitable epilogue |
| MultipartRoundTrip.PartWithTail | app/WEB_CGI/cgi-enc/cgic.c:472-589 | a printed part in front of anything is consumed up to and with its boundary |
| MultipartLaws.HeaderLineIs | app/WEB_CGI/cgi-enc/cgic.c:906-965 | any line with a colon behind its name, ended by CRLF, LF or CR: the name without white space, the value without white space in front and without colons and the white space behind them, both cut at 399 characters |
| MultipartLaws.SpacedArgument | app/WEB_CGI/cgi-enc/cgic.c:840-902 | white space may stand around the name of a parameter and its equals sign |
| MultipartLaws.UnquotedText | app/WEB_CGI/cgi-enc/cgic.c:830-835 | an unquoted text goes up to the semicolon |
| MultipartLaws.IndexIs | app/WEB_CGI/cgi-enc/cgic.c:869-878 | a parameter counts for the first name that it equals up to case |
| MultipartLaws.MalformedParameter | app/WEB_CGI/cgi-enc/cgic.c:861-864 | a piece without an equals sign ends the parameters |
| MultipartLaws.TypeBeforeSemicolon | app/WEB_CGI/cgi-enc/cgic.c:502-509 | of a content type only what comes before the first semicolon is kept |
| MultipartLaws.AnyCase | app/WEB_CGI/cgi-enc/cgic.c:491-509 | the case of the letters of a field name does not matter |
| MultipartLaws.OtherField | app/WEB_CGI/cgi-enc/cgic.c:483-510 | any other header field is passed over |
| MultipartLaws.OtherDisposition | app/WEB_CGI/cgi-enc/cgic.c:511-514 | a part that is not form data is no entry, and its body stays in the stream |
| MultipartLaws.CutSubmission | app/WEB_CGI/cgi-enc/cgic.c:530-541 | a submission that ends before the boundary behind a part is cgiParseIO, with only the earlier parts as entries |
| MultipartLaws.CutBehindBoundary | app/WEB_CGI/cgi-enc/cgic.c:750-754 | without two characters behind the boundary the part is lost as well |
| MultipartLaws.NoBoundary | app/WEB_CGI/cgi-enc/cgic.c:449-453 | a submission without any boundary is empty rather than an error |
| MultipartLaws.UnknownParameterCrashes | app/WEB_CGI/cgi-enc/cgic.c:899-902 | a part with a parameter other than name and filename ends in a write through null |
| ContentTypes.ParseContentType | app/WEB_CGI/cgi-enc/cgic.c:144-186 | the media type and the boundary of a content type of any length; the boundary fits its later buffer |
| ContentTypes.ExtractedBoundaryFits | app/WEB_CGI/cgi-enc/cgic.c:693-699 | an extracted boundary holds no white space and leaves room for the line break and the dashes |
| ContentTypes.AnnouncedBoundaryIff | app/WEB_CGI/cgi-enc/cgic.c:144-186 | a boundary is taken over from behind whatever other parameters and with its keyword in any case, if and only if it is free of white space and the header fits |
| ContentTypes.SubmissionRoundTripIff | app/WEB_CGI/cgi-enc/cgic.c:144-234 | a submission announced and printed for a boundary is parsed back if and only if its parts are legal |
| UrlEncoded.UnescapeOne | app/WEB_CGI/cgi-enc/cgic.c:1094-1115 | one step of the escape automaton writes at most one character |
| UrlEncoded.UnescapeChars | app/WEB_CGI/cgi-enc/cgic.c:1083-1120 | the C string of the unescaped text, within the buffer of the input's length |
| UrlEncoded.ScanTo | app/WEB_CGI/cgi-enc/cgic.c:996-1004 | the text up to a separator, whether there is one, and what follows it |
| UrlEncoded.ParsePair | app/WEB_CGI/cgi-enc/cgic.c:990-1076 | one round of the outer loop puts its pair in front of what is parsed later |
| UrlEncoded.ParseFormInput | app/WEB_CGI/cgi-enc/cgic.c:984-1079 | for every input, the pairs of the specification in order |
| UrlEncoded.TokensUnescape | app/WEB_CGI/cgi-enc/cgic.c:1083-1120 | any mix of literals, plus signs and escapes in either case unescapes to its meaning |
| UrlEncoded.PairParses | app/WEB_CGI/cgi-enc/cgic.c:984-1079 | a printed pair is split off exactly |
| UrlEncoded.FormRoundTripIff | app/WEB_CGI/cgi-enc/cgic.c:984-1149 | for every list of pairs and every legal encoding of them, and any last piece without an equals sign, the parser returns the list if and only if no text holds a NUL |
| UrlEncoded.FieldsComeBack | app/WEB_CGI/cgi-enc/cgic.c:1037-1076 | field by field: name, value, length, and empty file name, content type and file |
| UrlEncoded.CutEscape | app/WEB_CGI/cgi-enc/cgic.c:1093-1117 | an escape that the text ends in is dropped |
| UrlEncoded.HexTable | app/WEB_CGI/cgi-enc/cgic.c:1122-1149 | the value of every hexadecimal digit in either case, and zero for any other character |
| UrlEncoded.Canonical | app/WEB_CGI/cgi-enc/cgic.c:1122-1149 | every text has a legal encoding |
| FormValues.PendingIs | app/WEB_CGI/cgi-enc/cgic.c:1463-1491 | counting a burst of newlines as it is read gives what the whole burst becomes |
| FormValues.FormEntryString | app/WEB_CGI/cgi-enc/cgic.c:1439-1517 | the longest prefix of the normal form that fits, a NUL, and nothing else written; truncated iff the normal form is longer, empty iff it is empty, success otherwise |
| FormValues.PutFeeds | app/WEB_CGI/cgi-enc/cgic.c:1479-1488 | the line feeds of a burst, cut off where the buffer is full |
| FormValues.NormalisingTwice | app/WEB_CGI/cgi-enc/cgic.c:1457-1491 | normalising twice is normalising once, in the stricter of the two ways |
| FormValues.LineEndsAreNormalised | app/WEB_CGI/cgi-enc/cgic.c:1457-1462 | lines joined by LF, CR, CRLF or LFCR come out joined by LF, empty lines included |
| FormValues.BurstsAreCounted | app/WEB_CGI/cgi-enc/cgic.c:1457-1491 | a burst of CR and LF in whatever pattern becomes as many line feeds as there are of the more frequent one, or none |
| FormValues.SpaceNeededIsEnough | app/WEB_CGI/cgi-enc/cgic.c:1427-1437 | a buffer of the size asked for is never too small, and a value comes out empty only if it is empty |
| FormEntries.MatchingAt | app/WEB_CGI/cgi-enc/cgic.c:2392-2401 | every entry with the name, and no other, is found, in list order |
| FormEntries.Form.FindFirst | app/WEB_CGI/cgi-enc/cgic.c:2386-2390 | the first entry with the name, and the cursor behind it |
| FormEntries.Form.FindNext | app/WEB_CGI/cgi-enc/cgic.c:2392-2401 | the next of the matching entries in list order |
| FormEntries.Form.FormString | app/WEB_CGI/cgi-enc/cgic.c:1202-1211 | the normal form of the first entry with the name, or the empty string |
| FormEntries.Form.FormStringSpaceNeeded | app/WEB_CGI/cgi-enc/cgic.c:1427-1437 | the length of the first value and its NUL |
| FormEntries.Form.CountMatching | app/WEB_CGI/cgi-enc/cgic.c:1372-1377 | the first pass counts the matching entries |
| FormEntries.Form.FormStringMultiple | app/WEB_CGI/cgi-enc/cgic.c:1363-1425 | the normal forms of exactly the matching entries in list order, in the slots the first pass counted, and a terminating null |
| FormEntries.NormalText | app/WEB_CGI/cgi-enc/cgic.c:1397-1406 | the buffer of one value is never too small |
| FormEntries.Form.FormSelectMultiple | app/WEB_CGI/cgi-enc/cgic.c:1659-1697 | the marks of the matching entries, success iff some entry hits, invalid and hitting entries add up to the matching ones, and the rest of the array is untouched |
| FormEntries.Mark | app/WEB_CGI/cgi-enc/cgic.c:1676-1687 | marks the first choice that equals the value, if there is one |
| FormEntries.MarksIff | app/WEB_CGI/cgi-enc/cgic.c:1659-1697 | a choice is marked iff it is the first matching choice of some entry; nothing hits iff no value is a choice |
| FormEntries.HitsAre | app/WEB_CGI/cgi-enc/cgic.c:1677-1687 | the hits are exactly the entries whose value is one of the choices |
| FormEntries.SeenBefore | app/WEB_CGI/cgi-enc/cgic.c:2487-2493 | whether an earlier entry has the same name |
| FormEntries.CountNames | app/WEB_CGI/cgi-enc/cgic.c:2483-2497 | the first pass counts the distinct names |
| FormEntries.FormEntryNames | app/WEB_CGI/cgi-enc/cgic.c:2478-2536 | the second pass fills exactly the slots that the first one counted |
| FormEntries.Names | app/WEB_CGI/cgi-enc/cgic.c:2478-2536 | a name is listed iff some entry has it |
| FormEntries.NamesInOrder | app/WEB_CGI/cgi-enc/cgic.c:2478-2536 | names come in the order of their first entries, each once |
| Cookies.Locate | app/WEB_CGI/cgi-enc/cgic.c:1733-1792 | for every header, what the search function finds, or that the lookup leaves the header |
| Cookies.CopyValue | app/WEB_CGI/cgi-enc/cgic.c:1750-1770 | what fits of a value, truncated iff it does not fit |
| Cookies.CookieString | app/WEB_CGI/cgi-enc/cgic.c:1728-1799 | for every header and name: the value as far as it fits, truncated iff it does not; not found iff absent, with an empty string; or the lookup leaves the header |
| Cookies.NextName | app/WEB_CGI/cgi-enc/cgic.c:2446-2472 | one name, and the header behind its value |
| Cookies.SlotsSuffice | app/WEB_CGI/cgi-enc/cgic.c:2427-2442 | the names never outnumber the slots of the array |
| Cookies.CookieNames | app/WEB_CGI/cgi-enc/cgic.c:2421-2476 | for every header, the names in order and null in the remaining slots |
| CookieLaws.FindStep | app/WEB_CGI/cgi-enc/cgic.c:1734-1791 | a cookie is taken iff its name is exactly the one looked up, never a prefix |
| CookieLaws.LookupInvertsPrinting | app/WEB_CGI/cgi-enc/cgic.c:1728-1799 | a lookup finds the whole value of the first cookie with exactly that name; it overruns the header iff there is none and the header ends in the bare name |
| CookieLaws.ListingInvertsPrinting | app/WEB_CGI/cgi-enc/cgic.c:2421-2476 | the listing returns all names in order; a terminating null is left iff there is no bare name or some value holds an equals sign |
| Environment.WriteFile | app/WEB_CGI/cgi-enc/cgic.c:2049-2071 | the file of the first entry with the same name, copied a buffer at a time, or a zero flag |
| Environment.WriteEntry | app/WEB_CGI/cgi-enc/cgic.c:2032-2072 | attr, value, file name, content type, length, and the file of the first entry of the name, in this order |
| Environment.WriteEnvironment | app/WEB_CGI/cgi-enc/cgic.c:1955-2075 | the saved form of the request |
| Environment.InFile.ReadInt | app/WEB_CGI/cgi-enc/cgic.c:2334-2339 | four bytes, least significant first |
| Environment.InFile.ReadString | app/WEB_CGI/cgi-enc/cgic.c:2317-2332 | a length and so many bytes, as a C string |
| Environment.InFile.ReadContents | app/WEB_CGI/cgi-enc/cgic.c:2241-2263 | so many bytes a buffer at a time, or an error if the file ends before |
| Environment.InFile.ReadEntry | app/WEB_CGI/cgi-enc/cgic.c:2194-2287 | one entry, the end of the list, or an error |
| Environment.InFile.ReadEntries | app/WEB_CGI/cgi-enc/cgic.c:2193-2290 | the entries up to the end of the list |
| Environment.ReadEnvironment | app/WEB_CGI/cgi-enc/cgic.c:2105-2315 | for every file, the restored request or the error |
| EnvironmentLaws.IntBack | app/WEB_CGI/cgi-enc/cgic.c:2094-2099 | every int is read back |
| EnvironmentLaws.StringBack | app/WEB_CGI/cgi-enc/cgic.c:2085-2092 | a string is read back up to its first NUL, and exactly consumed |
| EnvironmentLaws.LittleEndian | app/WEB_CGI/cgi-enc/cgic.c:2094-2099 | an int is saved as the four bytes of its two's complement, least significant first |
| EnvironmentLaws.FileBegins | app/WEB_CGI/cgi-enc/cgic.c:1953-1966 | the file begins with the version behind its length |
| EnvironmentLaws.VariablesInOrder | app/WEB_CGI/cgi-enc/cgic.c:1966-2026 | the variables follow in the order of the code |
| EnvironmentLaws.OtherVersion | app/WEB_CGI/cgi-enc/cgic.c:2120-2124 | a file of another version is refused |
| EnvironmentLaws.CutInVariables | app/WEB_CGI/cgi-enc/cgic.c:2117-2192 | a file that ends before or within the variables is an I/O error |
| EnvironmentLaws.CutInEntry | app/WEB_CGI/cgi-enc/cgic.c:2203-2223 | a file that ends behind the name of an entry is a memory error |
| EnvironmentLaws.CutInFile | app/WEB_CGI/cgi-enc/cgic.c:2241-2255 | a file that ends within an uploaded file is an I/O error |
| EnvironmentLaws.EntryBackIff | app/WEB_CGI/cgi-enc/cgic.c:2032-2071 | an entry comes back with the reader at what follows it iff its value holds no NUL and the saved file is its own |
| EnvironmentLaws.SaveRestore | app/WEB_CGI/cgi-enc/cgic.c:1955-2290 | restoring what was saved gives back all variables, the content length and all entries with their files, if every entry is kept |
| EnvironmentLaws.SaveRestoreIff | app/WEB_CGI/cgi-enc/cgic.c:1955-2290 | and only then, as long as different files under one name have one size |
| EnvironmentLaws.UniqueNamesAreKept | app/WEB_CGI/cgi-enc/cgic.c:1298-1324 | an entry behind no other entry of its name is saved with its own file |
| EnvironmentLaws.SharedNameLosesFile | app/WEB_CGI/cgi-enc/cgic.c:2049 | an upload behind a field of the same name is not restored |
| EnvironmentLaws.ShortLeftoverGoesUnnoticed | app/WEB_CGI/cgi-enc/cgic.c:2203-2207 | a few bytes left of a larger file at the end are taken for the end of the list |
| Base64.EncodedSizeIff | app/protocol_lib/rtsp/b64.c:153-162 | in the arithmetic of size_t the computed size is that of the wrapped text if and only if it and the rounded-up text size can be represented and an empty text is not in lines |
| Base64.EmptyInLines | app/protocol_lib/rtsp/b64.c:158-162 | for an empty text in lines the computed size wraps around |
| Base64.LastLineFullIff | app/protocol_lib/rtsp/b64.c:226-231 | whether the last line is full, in terms of the two sizes alone |
| Base64.TrailingBreakIff | app/protocol_lib/rtsp/b64.c:226-231 | when a CRLF ends the output, in terms of the sizes alone |
| Base64.OverrunIff | app/protocol_lib/rtsp/b64.c:226-231 | the encoder writes past the buffer if and only if the text does not fit, or a full last line leaves room for one more character |
| Base64.OverrunOfFive | app/protocol_lib/rtsp/b64.c:153-231 | three bytes in lines of four need a buffer of four, and overrun one of five |
| Base64.Cursor.PutTail | app/protocol_lib/rtsp/b64.c:234-258 | one or two last bytes as a padded quantum |
| Base64.EncodeInto | app/protocol_lib/rtsp/b64.c:171-258 | the loop writes the emitted text and nothing behind it, and overruns if and only if that is longer than the buffer; the line-length assertions hold |
| Base64.EncodeQuantum | app/protocol_lib/rtsp/b64.c:175-232 | one round keeps what has been written and what is to come equal to the whole output |
| Base64.EmittedText | app/protocol_lib/rtsp/b64.c:226-231 | what is written into a buffer that is large enough is the wrapped text, with CRLF behind it iff the last line is full and the buffer is larger |
| Base64.B64Encode | app/protocol_lib/rtsp/b64.c:146-262 | size, status, buffer and overrun for every input and every buffer |
| Base64.LineLength | app/protocol_lib/rtsp/b64.c:418-440 | which line length each flag chooses |
| Base64.AppB64Encode2 | app/protocol_lib/rtsp/b64.c:401-445 | size, status, buffer and overrun for the line length that the flags choose |
| Base64.Scan | app/protocol_lib/rtsp/b64.c:307-381 | the loop computes the decoder function; output and index bounds hold for every input |
| Base64.ScanOne | app/protocol_lib/rtsp/b64.c:308-380 | one round computes one step of the decoder, within the bounds |
| Base64.B64Decode | app/protocol_lib/rtsp/b64.c:267-385 | size, status, position of a bad character and buffer for every input; the output never exceeds the bound |
| Base64Laws.AlphabetIs | app/protocol_lib/rtsp/b64.c:94 | value i is written as the character at i of the alphabet of RFC 4648 |
| Base64Laws.DataIs | app/protocol_lib/rtsp/b64.c:96-137 | exactly the characters of the alphabet are data, and the equals sign is padding |
| Base64Laws.PaddingIs | app/protocol_lib/rtsp/b64.c:234-257 | one byte behind the last group ends the text in two equals signs, and two in one |
| Base64Laws.BitGroups | app/protocol_lib/rtsp/b64.c:191-198 | four characters carry the 24 bits of three bytes, most significant first |
| Base64Laws.TablesInverse | app/protocol_lib/rtsp/b64.c:94-137 | the two tables invert each other |
| Base64Laws.SextetsBack | app/protocol_lib/rtsp/b64.c:191-198 | the shifts of the decoder undo those of the encoder |
| Base64Laws.TripleBack | app/protocol_lib/rtsp/b64.c:357-375 | the shifts of the encoder undo those of the decoder |
| Base64Laws.TextDecodes | app/protocol_lib/rtsp/b64.c:267-385 | decoding the encoded text returns the bytes, and padding completes it |
| Base64Laws.JunkIsIgnored | app/protocol_lib/rtsp/b64.c:320-346 | decoding a text equals decoding its data characters, unless the flags stop at one of the others |
| Base64Laws.StopsIff | app/protocol_lib/rtsp/b64.c:320-345 | which characters are rejected under which flags |
| Base64Laws.FirstBadCharacter | app/protocol_lib/rtsp/b64.c:307-346 | the first rejected character ends the decoder and is reported |
| Base64Laws.MaxDecodedIs | app/protocol_lib/rtsp/b64.c:275-277 | the bound is three bytes for every four characters, rounded up |
| Base64Laws.StopOnNothing | app/protocol_lib/rtsp/b64.c:447-456 | the default flags stop at no character |
| Base64Laws.Base64RoundTrip | app/protocol_lib/rtsp/b64.c:146-385 | for every input, line length, buffer size and set of flags, decoding the encoder's output returns the input |
| Base64Laws.EncodeAndDecode | app/protocol_lib/rtsp/b64.c:401-481 | what one buffer holds after encoding, decoded into another, is the input, and nothing behind it has been touched |
| Base64Laws.WrapLayout | app/protocol_lib/rtsp/b64.c:226-231 | every line but the last has exactly the line length and a CRLF, and no CRLF ends the text |
| Base64Laws.EncodedIsCanonical | app/protocol_lib/rtsp/b64.c:146-262 | the encoder writes canonical texts |
| Base64Laws.CanonicalIffReencodes | app/protocol_lib/rtsp/b64.c:146-385 | a text is what its decoded bytes encode to if and only if it is canonical |
| SliceLengths.SwapStoresBigEndian | riplayer/mp4/mp4_common.cpp:34-40 | a swapped word in memory reads as the word in big-endian order |
| SliceLengths.BigEndianIs | riplayer/mp4/mp4_common.cpp:34-40 | what four bytes in big-endian order mean |
| SliceLengths.StoreIs | riplayer/mp4/mp4_common.cpp:285-290 | what four bytes of a stored word mean |
| SliceLengths.StartCodeIs | riplayer/mp4/mp4_common.cpp:298 | a start code is 00 00 00 01 |
| SliceLengths.ConvertSliceLen | riplayer/mp4/mp4_common.cpp:285-290 | four bytes of the frame become the length, and no other byte changes |
| SliceLengths.CodesAreApart | riplayer/mp4/mp4_common.cpp:296-308 | start codes never overlap |
| SliceLengths.ScanSeesOriginal | riplayer/mp4/mp4_common.cpp:296-308 | the scan sees the original bytes although earlier codes have been replaced |
| SliceLengths.ReplaceOne | riplayer/mp4/mp4_common.cpp:301-305 | replacing a code disturbs neither the slices before it nor the bytes behind it |
| SliceLengths.Scan | riplayer/mp4/mp4_common.cpp:294-308 | the scan finds all start codes and replaces all but the last |
| SliceLengths.ScanOne | riplayer/mp4/mp4_common.cpp:298-307 | one position of the scan records a start code and replaces the one before it |
| SliceLengths.Advance | riplayer/mp4/mp4_common.cpp:296-308 | a position holds a start code iff it is the next in the list of all of them |
| SliceLengths.SumLast | riplayer/mp4/mp4_common.cpp:317-321 | the sum of the earlier lengths and the computed last length |
| SliceLengths.LastSlice | riplayer/mp4/mp4_common.cpp:310-323 | the last code is replaced by the computed length |
| SliceLengths.PutLast | riplayer/mp4/mp4_common.cpp:312-322 | stores the last length and replaces the last start code |
| SliceLengths.CalcSliceLen | riplayer/mp4/mp4_common.cpp:292-328 | count, lengths and rewritten frame; the frame reads back as the same slices iff there are one or three |
| SliceLengths.LastLengthIff | riplayer/mp4/mp4_common.cpp:321 | the computed last length is right iff there are one or three start codes |
| SliceLengths.RewritingPreservesSlicesIff | riplayer/mp4/mp4_common.cpp:292-328 | walking the rewritten frame by its lengths yields the same slices up to the very end iff there are one or three |

## Left out

- Real I/O: `cgiIn` is a text and a position, a temporary file is its contents, the saved request is a text. Failures of `malloc`, `fopen`, `fread`, `fwrite` and of temporary files, and the growing of output buffers, are not modelled.
- Multipart.ParsePostMultipartInput: requires a request body no longer than declared. What `MpRead` does with a longer one is stated for single reads only; once `offset` has passed the declared length, the code asks for a negative number of characters.
- VirtualStream.MpStream.MpRead: requires that `offset` has not passed the declared length, for that reason.
- Header parameters that nobody asked for: the code writes through a null pointer (cgic.c:900-902). The parser function then returns `Crashed`, and nothing is said about what follows.
- `ValidBoundary` in the multipart methods is what `main` guarantees (`ContentTypes.ExtractedBoundaryFits`).
- MultipartRoundTrip.MultipartRoundTripIff: content types that are nothing but white space are excluded. The parser skips all white space behind a colon, line breaks included, so such a type swallows the end of the header and part of the body; whether the parts come back then depends on the epilogue (`BlankTypeCanComeBack`).
- MultipartRoundTrip.PreamblePassed: for preambles in which the start of the boundary occurs, `Delimiters.OpeningSearchIsLeftmost` says exactly when every un-read of the opening search is exact; the search can find the boundary in other cases too, by luck.
- MultipartRoundTrip.PartRead, MultipartRoundTrip.PartsIff, ContentTypes.SubmissionRoundTripIff: the same restrictions.
- EnvironmentLaws.SaveRestoreIff: the other direction is stated for files of one size under one name; with other sizes the reader goes on inside a file, and `ShortLeftoverGoesUnnoticed` shows that the request can then come back by accident. `SaveRestore` and `EntryBackIff` have no such condition.
- Cookies.CookieString: says nothing of what a lookup does after it has left the header. `Find` returns `Overrun` then, and `LookupInvertsPrinting` says which headers these are among printed ones.
- Base64.B64Encode: says nothing of the buffer after an overrun. The call for the last quantum passes a false buffer length (b64.c:253); the model writes the quantum of four characters.
- Line lengths that are no multiple of four: the encoder asserts against them.
- SliceLengths.CalcSliceLen: frames begin with a start code, as the caller checks, are longer than four bytes and hold at most five start codes, the size of `auiPos`; others lead to undefined behaviour. The bound `MAX_FRAMEHEAD_READ` in the loop header has no effect, because the comma operator discards it. Memory is little-endian.
- Urlencoded escapes with characters above 127 read outside the hexadecimal table; the model takes them for zero.
- A restored entry without a file has an uninitialised file name (cgic.c:2274); the model takes it for no file. Negative string lengths in a saved file are taken for read errors.
- Characters are Dafny characters rather than bytes, except in Base64 and the slice rewriter; the round trips hold for every byte string among others. `isspace`, `isalpha` and `tolower` are those of the "C" locale.
- Parsing of GET requests and the choice of a parser in `main`: thin wrappers around the parsers here.
- Number, file-name and radio-button accessors, HTML escaping, HTTP headers, error texts: easy or library-bound.
- `Swap16`, `Swap64` and the file functions of `mp4_common.cpp`; the rest of the repository (user interface, devices, SDP and URL scanning, page dispatcher).
