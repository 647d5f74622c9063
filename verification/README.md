# Fastcgi Container: a verified model

Fastcgi Container is a FastCGI application container in C++. This project models its hard cores in Dafny and
proves what each of them is for, over all inputs or all runs:

- **Byte store.** A request body is a view of a vector or of a file seen through one movable mmap window. Reads,
  writes and searches through the window are those of the plain byte sequence (`Bytes`, `MMapFile`, `FileBuffer`,
  `DataBuffer`).
- **Stored requests.** The length-prefixed format, its two writers and its reader: the writers produce the same
  bytes, and reading them restores the request (`Wire`, `RequestFormat`, `RequestStore`).
- **Wire codecs.** Percent-encoding and query strings (`UrlCodec`, `DataBuffer`), base64 with its wrapping 32-bit
  accumulator (`Base64`), multipart forms (`Multipart`, `MultipartForm`).
- **Page compiler.** The emitted text, as C++ reads it, is a program that does what the page means, with the exact
  condition (`CppText`, `PageTarget`, `PageReader`, `PageMeaning`).
- **Concurrency.** The bounded thread pool and the file-backed retry cache as step systems under every interleaving
  (`ThreadPool`, `FileCache`).
- **Component loader.** The re-entrant load with cycle detection is a topological sort (`ComponentSet`).
- **Composition.** Views over a real mapped file, and parsed forms that are stored and restored (`StoredForm`).
- **Configuration variables and responses.** The replace loop against recursive expansion (`Config`), and the
  send-headers-once protocol (`Response`).

Code that updates objects or loops in the source is a class or a method with loop invariants here, proved against a
specification function; the laws are lemmas about those functions. The step systems are datatypes with a transition
relation and history fields.

Some properties one might expect are false of the code. For each there is an input that shows it and a theorem with
the exact condition:

- The handler text that the page compiler writes is read by a C++ lexer as the program of the page exactly if no
  markup holds a backslash, no block outside the handler holds an opener, the code of every block ends in code
  (outside comments, literals and preprocessing lines), and included names are plain (`CompilationPreservesMeaning`;
  `<%//%>a` is accepted and never writes the "a"). Programs are compared lexeme by lexeme, with literals by what they
  denote and comments as a space; a comment that swallows no more than an empty print statement counts as a difference.
- Decoding a body window by window is right exactly if no escape straddles two windows (`ChunkedDecodeIff`,
  `ParseViewAgrees`, `CutEscapeIsNotDecoded`).
- A request is read back from its stored form exactly if the new buffer can hold the views of its files; an empty view
  in front of the body may not (`ReadsBackExactly`, `EmptyFileIsRefused`). Files that the multipart parser found in
  a body always can (`ParsedFormIsRestored`).
- A run of the cache keeps to the retry limit exactly if no save queues a request when the count it goes by and the
  counts that were dropped with the request's active entries reach the limit (`LimitHoldsExactly`). Only a second save
  in one handling goes by a short count, and for every limit there is a run where it exceeds the limit
  (`TwoSavesExceedTheLimit`).
- A part of a form written with LF alone as line end is read whole exactly if its content holds no CR LF CR LF and does
  not end with CR (`LfReadsExactly`).
- The configuration loop gives the full expansion of a value exactly if that expansion holds no reference itself
  (`ExpansionExactly`; `$${a}` with `{b}` for `a` is resolved further). If every loose dollar sign is directly followed
  by a character other than `{`, the loop is full expansion in every outcome, and it goes on for ever exactly if the
  value comes to a cyclic reference before a missing name (`LoopNeverEndsExactly`).

`write` sends no body for HEAD, but `sendError` does (library/request.cpp:448-456); the model follows the code.

## Model

| member | source | states |
|---|---|---|
| ThreadPool.MoveKeepsInv | include/details/thread_pool.h:68-178 | every locked section, notification or worker move keeps the conservation and wake-up invariants |
| ThreadPool.Conservation | include/details/thread_pool.h:96-113 | in every run the queue respects its limit, taken then queued tasks are the accepted ones in FIFO order, accepted = queued + busy + good + bad, busy is within the workers and 0 once all have exited |
| ThreadPool.ExactlyOnce | include/details/thread_pool.h:137-178 | each task is, as often as it was accepted, queued, in one worker's hands or finished, and the counters are the reported finishes by outcome |
| ThreadPool.NeverAllAsleep | include/details/thread_pool.h:96-166 | no lost wake-up: with a non-empty queue and no notification pending, some worker is neither asleep nor gone |
| ThreadPool.EveryTaskHasAnAwakeWorker | include/details/thread_pool.h:155-166 | while any worker sleeps and nothing is left to notify, there are as many workers on their way to the queue as tasks in it |
| ThreadPool.PushedExactlyWhenOpen | include/details/thread_pool.h:96-113 | in every run an offered task goes to the end of the queue and of the accepted ones if and only if the pool is started and the queue not full; else both stay, and the caller notifies in either case |
| ThreadPool.HistoryIsTheMoves | include/details/thread_pool.h:68-178 | the accepted tasks are exactly those offered while the pool was started and not full, in order; the returned and thrown ones those whose handling ended so; the pool is started if it was started last; only starts of a stopped pool spawn workers, as many as it was made for |
| ThreadPool.LookTakesTheOldest | include/details/thread_pool.h:155-169 | a worker that looks takes the oldest task, waits if there is none, or leaves a stopped pool, and no other worker changes |
| ThreadPool.OldestCanBeTaken | include/details/thread_pool.h:137-178 | no dead end: from every reachable state of a started pool with threads and a queued task, at most two moves of workers and notifications already owed take the oldest task |
| ComponentSet.ComponentSet.Find | library/componentset.cpp:73-85 | from any re-entrant state: missing exactly for unknown names, found means loaded with the order kept, a cyclic error means a cycle is reachable from the outermost lookup |
| ComponentSet.ComponentSet.SendOnLoad | library/componentset.cpp:114-132 | loads after all its lookups, keeps the stack a topological order, reports a cycle only along the chain of active calls |
| ComponentSet.ComponentSet.SendOnLoadToComponents | library/componentset.cpp:107-112 | fails exactly when a cycle is reachable; otherwise each component is in the stack once, after everything it looked up |
| ComponentSet.PathDescends | library/componentset.cpp:114-132 | along any dependency path positions in the loading stack strictly decrease |
| ComponentSet.LoadedMeansAcyclic | library/componentset.cpp:114-132 | no cycle is reachable from a loaded component |
| ComponentSet.FindIdle | library/componentset.cpp:73-85 | a lookup on an idle set fails exactly when it reaches a cycle |
| CppText.VerbatimExactly | page-compiler/page_reader.cpp:296-299 | a text put between quotes as it is denotes itself exactly if it holds no quote, backslash or line end |
| CppText.CodeThen | page-compiler/page_reader.cpp:117-132 | code that ends in code is read by itself, whatever the reader writes behind it |
| CppText.NoTextReadsAsCut | page-compiler/page_reader.cpp:117-132 | no text at all is read as code that is cut off in a comment, a literal or a preprocessing line and then goes on |
| PageTarget.LiteralSpelled | page-compiler/page_reader.cpp:134-147 | the literal written for a line of markup denotes it if and only if the line has no backslash, also when it swallows what follows |
| PageTarget.PrintsText | page-compiler/page_reader.cpp:134-147 | the characters written one by one are the text of print statements, a new one after each newline |
| PageTarget.ProgramReads | page-compiler/page_reader.cpp:56-185 | the text of a handler's pieces is read as the program they stand for if and only if every piece fits |
| PageTarget.ProgramExecutes | page-compiler/page_reader.cpp:56-185 | executing the program of the pieces, lexeme by lexeme, does what each piece does by itself, in order |
| PageTarget.PrintsRun | page-compiler/page_reader.cpp:134-147 | the print statements write the markup, character by character |
| PageTarget.StatementTexts | page-compiler/page_reader.cpp:27-30 | the statements for markup, an expression and an include, word for word |
| PageReader.TokensLossless | page-compiler/page_reader.cpp:249-289 | the tokens of a page, joined, are the page |
| PageReader.TokensExactly | page-compiler/page_reader.cpp:249-289 | a page is cut so that each token is the longest of the nine fixed tokens the rest starts with, or one character if it starts with none, and there is no other such cutting |
| PageReader.OpenersListed | page-compiler/page_reader.cpp:66-116 | the seven openers are exactly these, each with its kind of block |
| PageReader.AttributesRoundTrip | page-compiler/page_reader.cpp:188-246 | attributes in either kind of quotes, with any spaces between, are read back in order, qualified by the directive |
| PageReader.DirectiveRoundTrip | page-compiler/page_reader.cpp:188-246 | the same for a whole directive with its name |
| PageReader.DirectiveExactly | page-compiler/page_reader.cpp:188-246 | conversely, every directive that is read without an error is written so |
| PageReader.Reader.NextToken | page-compiler/page_reader.cpp:249-289 | the token at a position is the first of the tokens of the rest, which `TokensExactly` lists |
| PageReader.Reader.ParseAttributes | page-compiler/page_reader.cpp:188-246 | the loop handles exactly the attributes of the directive, up to the first error |
| PageReader.Reader.WriteToken | page-compiler/page_reader.cpp:133-175 | a token goes to the stream of its state |
| PageReader.Reader.CloseBlock | page-compiler/page_reader.cpp:117-132 | closing a block ends its statement or applies its directive |
| PageReader.Reader.OpenBlock | page-compiler/page_reader.cpp:66-116 | an opener starts its block, or goes to the handler inside another block |
| PageReader.Reader.Parse | page-compiler/page_reader.cpp:56-185 | the token loop leaves the compiled page or the first error |
| PageMeaning.ReadingIsThePage | page-compiler/page_reader.cpp:56-185 | splitting a page into markup and blocks loses nothing |
| PageMeaning.PageAsWritten | page-compiler/page_reader.cpp:56-289 | every page of markup without `<%` and of blocks under any of the seven openers, whose code has no `<%` and `%>` and does not lengthen the opener, is read as that markup and those blocks |
| PageMeaning.OneBlock | page-compiler/page_reader.cpp:56-289 | a block in front of any text at all is read as that block, and the rest as by itself |
| PageMeaning.WrittenPageMeans | page-compiler/page_reader.cpp:56-289 | so what is compiled for such a page, and what serving it does, is what its author wrote |
| PageMeaning.NoCRExactly | page-compiler/page_reader.cpp:134-147 | exactly the carriage returns of the markup are left out |
| PageMeaning.CompileReads | page-compiler/page_reader.cpp:56-185 | the ten-state machine computes the block-by-block translation |
| PageMeaning.ItemsHandled | page-compiler/page_reader.cpp:292-320 | a list of attributes adds its includes to the handler and its lines to the declarations in order, and keeps the first value of every other name |
| PageMeaning.ReadingAdded | page-compiler/page_reader.cpp:56-185 | every stream of the page gets exactly what the blocks and directives say, in order |
| PageMeaning.PiecesMean | page-compiler/page_reader.cpp:56-185 | the pieces of the handler write the markup without CR and include and execute the code, by itself, at their place |
| PageMeaning.PiecesFit | page-compiler/page_reader.cpp:56-185 | every piece fits exactly if the author kept to four rules that can be checked on the page |
| PageMeaning.CompilationPreservesMeaning | page-compiler/page_reader.cpp:56-185 | for every accepted page the appended handler text is read as the page's program exactly when no markup has a backslash, no outside block an opener, all code ends in code and included names are plain; then executing what the compiler reads is the page's meaning; all seven streams hold what the page says |
| PageMeaning.RejectsExactlyUnclosed | page-compiler/page_reader.cpp:180-184 | a page whose directives apply is rejected exactly when it ends inside a block |
| PageMeaning.BackslashLosesMeaning | page-compiler/page_reader.cpp:144-145 | a page with a backslash in markup, and nothing else wrong, that is accepted and not read as its program |
| PageMeaning.StrayLosesMeaning | page-compiler/page_reader.cpp:70-71 | a page with an opener in a function block, and nothing else wrong, that is accepted and not read as its program |
| PageMeaning.OpenCodeLosesMeaning | page-compiler/page_reader.cpp:127-129 | so is every page whose one block ends in a comment, a literal or a preprocessing line |
| PageMeaning.CommentSwallowsMarkup | page-compiler/page_reader.cpp:127-129 | `<%//%>a` is accepted and means to write "a", and executing what the compiler reads never writes it |
| PageMeaning.PathLosesMeaning | page-compiler/page_reader.cpp:296-299 | so is every page that includes a path with a quote, a backslash or a line end, however the directive is written |
| FileCache.NextSafe | request-cache/file_cache.cpp:171-344 | every step of arrival, save, queueing, release, restart and drop keeps one owner for each cache name |
| FileCache.NextCounted | request-cache/file_cache.cpp:241-290 | every step keeps the retry counts right |
| FileCache.RunSafe | request-cache/file_cache.cpp:171-344 | ownership and counts hold at every point of every run |
| FileCache.OneOwnerPerName | request-cache/file_cache.cpp:200-227 | each name in the cache directory has exactly one owner |
| FileCache.WaitingFilesAreSafe | request-cache/file_cache.cpp:200-290 | a waiting task names an existing file with the whole saved request, which no holder or save can unlink and no other task shares |
| FileCache.RestartRestoresTheRequest | request-cache/file_cache.cpp:307-344 | the request that is handled again carries what was saved |
| FileCache.RetryCountsInRange | request-cache/file_cache.cpp:241-290 | waiting counts stay in 1..max and active counts in 0..max |
| FileCache.RerunsBounded | request-cache/file_cache.cpp:241-290 | in every run a request is re-run at most as often as the limit and the counts dropped for it allow; with at most one save in each of its own handlings at most max times |
| FileCache.CountsAddUp | request-cache/file_cache.cpp:229-290 | the count a save goes by and the counts erased for the request before its lookup add up to its re-runs so far |
| FileCache.ShortCountTakesASecondSave | request-cache/file_cache.cpp:252-272 | a save goes by a short count only in a request that was saved twice in one handling, and a stored request's save that finds no entry is a later one of its handling |
| FileCache.LimitHoldsExactly | request-cache/file_cache.cpp:241-290 | a run keeps to the limit throughout if and only if no save queues a request when the count it goes by and the counts erased before its lookup reach the limit |
| FileCache.ReleasedInDueOrder | request-cache/file_cache.cpp:307-344 | a task leaves the queue no earlier than due and not before one due sooner |
| FileCache.ReleasedOnTime | request-cache/file_cache.cpp:235-325 | every release is of the request an earlier step put back, at or after the time of that step plus the delay it asked for; of all requests put back and not released yet it is the one with the least such sum and, among equal ones, put back first |
| FileCache.QueuedOnce | request-cache/file_cache.cpp:235-290 | no name is ever queued twice in a run |
| FileCache.WaitsUntilReleased | request-cache/file_cache.cpp:235-325 | a queued name stays in the queue until a step releases it |
| FileCache.FirstCanBeRestarted | request-cache/file_cache.cpp:307-344 | no dead end: every run with a waiting request can go on so that the first one is handled again with what was saved |
| FileCache.TwoSavesExceedTheLimit | request-cache/file_cache.cpp:241-290 | for every limit, a run from an empty cache that re-runs a request once more than allowed, by saving it twice in one handling |
| FileCache.InsertKeeps | request-cache/file_cache.cpp:235-239 | insertion keeps the queue in due order with distinct keys |
| Bytes.Find | include/fastcgi3/range.h:91-102 | the least position of a match, or the end |
| MMapFile.CheckWindow | library/mmap_file.cpp:72-85 | the window is the least page multiple not below the request, ten pages for none |
| MMapFile.MMapFile.MapRange | library/mmap_file.cpp:172-193 | the pointer leads to the asked offset with the whole range mapped; a mapped range is not remapped, and a new mapping starts at the page of the offset and ends with the range |
| MMapFile.MMapFile.At | library/mmap_file.cpp:125-133 | the file byte at the offset, or out of range exactly past the end |
| MMapFile.MMapFile.AtRange | library/mmap_file.cpp:135-193 | out of range exactly if the start or the range leaves the file; else a pointer to the whole range, where only an empty one at a page's start can fail to map, after which nothing can be mapped any more |
| MMapFile.MMapFile.AtSegment | library/mmap_file.cpp:145-152 | the pointer and the length up to the end of the segment or of the file |
| MMapFile.MMapFile.Resize | library/mmap_file.cpp:115-123 | the file is cut or grown with zeros and the mapping is the first window again |
| FileBuffer.FileBuffer.Read | library/file_buffer.cpp:55-74 | the chunked read is the slice of the file, or out of range, also when position and length wrap |
| FileBuffer.FileBuffer.Write | library/file_buffer.cpp:76-95 | the chunked write puts the data in place and leaves every other byte; out of range changes nothing, unless the sum wraps, when the file is written to its end |
| FileBuffer.FileBuffer.Find | library/file_buffer.cpp:97-132 | windowed search returns the first occurrence in the range, also across windows, or the end; only the empty pattern in an empty range can fail, and a failed mapping leaves the buffer unusable |
| FileBuffer.LookDecides | library/file_buffer.cpp:107-129 | a look past the window by the pattern's length decides every match that starts in the window |
| DataBuffer.ChunksPartition | library/data_buffer.cpp:270-336 | the chunks of any view are non-empty and concatenate to its bytes; a view in memory is one chunk |
| DataBuffer.SegmentIterator.Next | library/data_buffer.cpp:318-336 | the iterator moves to the next chunk |
| DataBuffer.ToString | library/data_buffer.cpp:270-278 | the gathered chunks are the bytes of the view |
| DataBuffer.UrlDecodeView | library/util.cpp:120-128 | a view is decoded chunk by chunk |
| DataBuffer.ChunkedDecode | library/util.cpp:120-128 | if no chunk but the last has a percent sign in its last two bytes, chunked decoding is decoding the whole |
| DataBuffer.ChunkedDecodeIff | library/util.cpp:120-128 | on well-formed text chunked decoding is right exactly when no escape is cut |
| DataBuffer.StraddlingEscape | library/util.cpp:120-128 | in every view of well-formed text an escape that straddles two windows makes decoding go wrong |
| DataBuffer.CutEscapeIsNotDecoded | library/util.cpp:120-169 | for every window there is a body whose escape straddles it, and neither decoding nor parsing gives what the plain forms give |
| DataBuffer.ParseBuffer | library/util.cpp:152-169 | the loop over a view reads its fields in order |
| DataBuffer.ParseViewAgrees | library/util.cpp:130-169 | the chunked parser equals the plain one if no field is cut, and on well-formed text only then |
| DataBuffer.FlatIsWhole | library/util.cpp:152-169 | in memory no field is ever cut |
| UrlCodec.DecodeEncode | library/util.cpp:55-117 | decoding an encoding gives back every byte string |
| UrlCodec.DecodeSpelled | library/util.cpp:85-110 | whichever way a client writes a byte string - bytes as themselves, a space as `+`, any byte as `%XX` with digits in either case - decoding gives that string, whatever follows |
| UrlCodec.DecodeCutOff | library/util.cpp:91-103 | a percent sign with fewer than two bytes behind it stands for itself |
| UrlCodec.EncodeExactly | library/util.cpp:55-83 | encoding goes byte by byte: letters, digits and nine listed marks stay, every other byte is an escape with upper-case digits |
| UrlCodec.EncodedIsClean | library/util.cpp:55-83 | encoded text holds only literals and percent signs, no delimiter |
| UrlCodec.UrlEncode | library/util.cpp:55-83 | the loop computes the encoding |
| UrlCodec.UrlDecode | library/util.cpp:85-110 | the loop appends the decoding |
| UrlCodec.Parse | library/util.cpp:130-150 | the loop reads the fields in order |
| UrlCodec.QueryRoundTrip | library/util.cpp:130-150 | parsing the rendering of any list of pairs returns the pairs with a non-empty key |
| UrlCodec.QuerySpelled | library/util.cpp:130-150 | whatever way its keys and values are written, with or without an equals sign and with further ones in the value, a query gives its pairs in order but for those with an empty key |
| UrlCodec.WithKeysAll | library/util.cpp:130-150 | with no empty key that is the list itself |
| Base64.GuardIsExact | library/util.cpp:357-364 | the size guard admits exactly the lengths whose padded length does not overflow |
| Base64.Base64Encode | library/util.cpp:357-382 | the accumulator loop fills the padded result in bounds with the block encoding of section 4 of RFC 4648 |
| Base64.PendingIsGroups | library/util.cpp:357-382 | the bit-by-bit sextets are those of the three-byte blocks |
| Base64.EncodeStep | library/util.cpp:366-378 | each byte emits the right sextets although the accumulator wraps at 32 bits |
| Base64.DecodeStep | library/util.cpp:388-404 | each letter emits the right byte although the accumulator wraps |
| Base64.Base64Decode | library/util.cpp:385-407 | the loop computes the decoding, skipping space and padding and refusing other bytes |
| Base64.DecodeEncode | library/util.cpp:357-407 | decoding an encoding gives back every byte string |
| Base64.LetterOf | library/util.cpp:343-343 | the letter of a sextet is the one at that place of the listed alphabet |
| Base64.ValueOf | library/util.cpp:345-354 | exactly the letters of the alphabet have a value, their place in it |
| Base64.BlockEncoded | library/util.cpp:366-376 | each three bytes are a 24-bit number whose four digits to the base 64 are the letters at its place |
| Base64.LastEncoded | library/util.cpp:362-381 | one or two bytes that are left are written as their bits and zero bits, and padding fills up the block |
| Base64.SpacingIgnored | library/util.cpp:391-395 | a text with the letters of an encoding is decoded whatever white space and padding it holds |
| Base64.RejectsExactlyForeign | library/util.cpp:391-398 | a text is refused if and only if it holds a byte that is neither a letter, white space nor padding |
| Wire.IntRoundTrip | library/request.cpp:766-771 | a 64-bit number survives its eight little-endian bytes |
| Wire.LittleEndianAt | library/request.cpp:766-771 | byte by byte, the lowest comes first |
| Wire.PutExactly | library/data_buffer.cpp:84-90 | a write changes exactly the bytes it covers inside the buffer |
| Wire.ReadStrAt | library/request.cpp:868-875 | a written string is read back, with the position behind it |
| Wire.ReadStrPadded | library/request.cpp:861-875 | at the end of the buffer a string is read as if zero bytes followed, and refused exactly for its length |
| RequestFormat.EncodeSize | library/request.cpp:818-833 | the size computed in advance is the size of the encoding |
| RequestFormat.RoundTrip | library/request.cpp:725-994 | reading the bytes of a request into a fresh one restores headers, cookies, variables, body, files and arguments; a value with CR, LF or NUL comes back percent-encoded |
| RequestFormat.RequestRestored | library/request.cpp:725-994 | headers, cookies, variables and body bytes come back as they were, and as many arguments under the same names in order: a value without CR, LF and NUL as it was, any other as a text without them that urldecode turns into the original |
| RequestFormat.InsertExactly | library/request.cpp:877-926 | reading an entry puts it in its place in the order of names, and drops it exactly if there is one of the same name |
| RequestFormat.InsertFileExactly | library/request.cpp:940-961 | the same for files |
| RequestFormat.FilesRestored | library/request.cpp:836-961 | every file comes back with its name, remote name, type and content |
| RequestFormat.ReadsBackExactly | library/request.cpp:836-994 | for every request with maps in order and files inside the body or empty in front of it, its bytes are read back if and only if the new buffer can hold the views; otherwise they are refused as out of range |
| RequestFormat.ForwardLosesEmptyFile | library/request_thread_pool.cpp:142-150 | after a forward that shortens a variable of an attached request, a file with the view (0, 0) makes its stored form unreadable |
| RequestFormat.EmptyFileIsRefused | library/request.cpp:844-957 | for every window there is an attached request that is read back as it stands and is refused after a forward to `/` |
| RequestFormat.SecondTrip | library/request.cpp:725-994 | storing and reading a restored request again is the identity |
| RequestFormat.MovedContent | library/request.cpp:941-961 | a file's offset from the body's start leads to the same bytes in the new buffer |
| RequestStore.SerializeString | library/request.cpp:773-780 | length and bytes are appended to what is written, none cut off |
| RequestStore.SerializeBuffer | library/request.cpp:782-790 | the body is appended chunk by chunk after its length |
| RequestStore.SerializeFiles | library/request.cpp:835-848 | the file section is appended, offsets taken from the body's start |
| RequestStore.Request.SerializeEnv | library/request.cpp:724-764 | the buffer is sized for the maps and the rest, and holds the maps |
| RequestStore.Request.Serialize | library/request.cpp:818-833 | the buffer is exactly the encoding: the last position is its size |
| RequestStore.Request.Attach | library/request.cpp:629-671 | fails exactly if some read of the stream is short; else the body is what the reads gave, and for a cached POST the buffer is byte for byte what `serialize` would write |
| RequestStore.Request.AppendTail | library/request.cpp:665-671 | files and arguments are appended behind the body in place, completing the encoding |
| RequestStore.ReceiveBody | library/request.cpp:641-648 | every byte of the buffer: the front as it was, and each segment overwritten by what its read gave |
| RequestStore.FullReads | library/request.cpp:641-648 | as many bytes come as were asked for exactly if every read is full, and then they are what the segments hold |
| RequestStore.ParsePairs | library/request.cpp:877-926 | the loop over a section reads its entries within the checked size |
| RequestStore.ParseFiles | library/request.cpp:940-961 | the loop reads the file entries; a view beyond the buffer is refused |
| RequestStore.Request.Parse | library/request.cpp:986-994 | on any bytes and any request: maps keep what they hold, new entries and arguments are added, or the same error is reported |
| RequestStore.ParseIntoCleared | library/request.cpp:986-1013 | into a cleared request that is the format's reading |
| RequestStore.Request.Restore | library/request.cpp:996-1013 | the same for any request: what it held is dropped |
| RequestStore.StoreAndRestore | library/request.cpp:818-994 | a stored request read into a fresh object has the same fields, the same body bytes, and its arguments restored value by value |
| Multipart.TrimN | library/data_buffer.cpp:147-160 | the view stays inside; the end never wraps, which holds at every call |
| Multipart.Trim | include/fastcgi3/range.h:67-77 | the view without surrounding white space |
| Multipart.Split | library/data_buffer.cpp:162-181 | both parts lie in the buffer, an unfound delimiter leaves (0, 0), and the rest is shorter |
| Multipart.SplitText | library/data_buffer.cpp:162-181 | the parts are the text before the first occurrence of the delimiter and the text behind it |
| Multipart.ParseLine | library/parser.cpp:165-180 | the loop takes name, file name and type from a header line as its text says |
| Multipart.NextHeader | library/parser.cpp:192-211 | a header line is joined with the folded lines after it |
| Multipart.Request.ParsePart | library/parser.cpp:182-228 | a part adds a file, an argument or nothing |
| Multipart.Request.ParseMultipart | library/parser.cpp:230-258 | the loop ends on every input and adds all parts, or finds the message malformed |
| MultipartForm.MultipartRoundTrip | library/parser.cpp:165-258 | parsing a rendered form gives exactly its arguments in order and its files, with headers folded or not and lines that end with CR LF or LF |
| MultipartForm.ArgsInOrder | library/parser.cpp:213-227 | the arguments received are those of the parts, in order |
| MultipartForm.FirstFileWins | library/parser.cpp:220-222 | each name holds the first file sent under it, and no others are held |
| MultipartForm.DispositionNames | library/parser.cpp:165-180 | the parameters of a header, in any order and with any white space, give the part its name, file name and type |
| MultipartForm.HeadersFold | library/parser.cpp:189-211 | headers are read one by one in order, each joined with the lines folded onto it |
| MultipartForm.UsualHeaderSays | library/parser.cpp:165-180 | the disposition line that browsers write is read as the names it was written for |
| MultipartForm.ContentTypeSpelled | library/parser.cpp:165-180 | the type is found under `content_type` in whatever case |
| MultipartForm.TrimmedExactly | include/fastcgi3/range.h:67-77 | exactly the white space at both ends is trimmed |
| MultipartForm.LfReadsExactly | library/parser.cpp:182-250 | a part written with LF alone is read whole if and only if its content holds no CR LF CR LF and does not end with CR |
| MultipartForm.StripExactly | library/parser.cpp:234-249 | a piece in front of a delimiter is accepted if and only if line ends frame it, and they are taken off |
| MultipartForm.MalformedExactly | library/parser.cpp:230-258 | a message is malformed if and only if, before the end mark, some piece in front of a delimiter is neither empty nor framed |
| MultipartForm.FirstBlank | library/parser.cpp:186-188 | the blank line is found where the headers end |
| MultipartForm.FreeFramed | library/parser.cpp:233-234 | a delimiter that is in no header line and not in the content is nowhere in the part |
| MultipartForm.FilesInside | library/parser.cpp:182-258 | on every input the files added lie inside the message or are the view (0, 0), and none is replaced |
| StoredForm.ChunkAt | library/data_buffer.cpp:306-316 | the chunk taken through the mapping of a file is the one that iterating over the view delivers |
| StoredForm.Gather | library/data_buffer.cpp:270-278 | the chunks of a file view, taken through the mapping, are its bytes |
| StoredForm.ParsedFilesFit | library/parser.cpp:182-258 | the files found in a body can be stored, even with the view (0, 0), where attach puts the body |
| StoredForm.ParsedFormIsRestored | library/request.cpp:649-671 | every request whose files were parsed from its body is restored from its stored form |
| Config.ResolveVariables | library/config.cpp:232-241 | on every value for which it ends, the replace loop gives the outcome of its rounds |
| Config.SearchExactly | library/config.cpp:89-89 | the search finds the leftmost `${name}`, a name being a letter followed by letters, digits and hyphens, and finds none only if there is none |
| Config.LoopIsRounds | library/config.cpp:232-251 | as long as settled characters make no reference, each search finds the leftmost written reference and replaces exactly it |
| Config.ExpansionExactly | library/config.cpp:232-251 | whatever the loose characters, the loop gives the full expansion if and only if that holds no reference itself |
| Config.ExpansionIsReached | library/config.cpp:232-251 | if recursive expansion ends, so does the loop, with the same text or the same missing name |
| Config.LoopIsExpansion | library/config.cpp:232-251 | if the loop ends, recursive expansion ends with the same outcome |
| Config.AcyclicResolves | library/config.cpp:232-251 | without cyclic references the loop ends and equals full expansion |
| Config.LoopNeverEndsExactly | library/config.cpp:232-241 | the loop goes on for ever if and only if the value comes to a cyclic reference before a missing name |
| Config.LooseDollarMakesReference | library/config.cpp:232-241 | `$${a}`, where a replacement completes a new reference: no number of rounds gives the expansion |
| Response.Request.SetStatus | library/request.cpp:427-435 | sets the status, or fails and changes nothing once headers are sent |
| Response.Request.SetHeader | library/request.cpp:459-466 | sets the header, or fails and changes nothing once headers are sent |
| Response.Request.SetCookie | library/request.cpp:401-413 | sets the cookie, or fails and changes nothing once headers are sent |
| Response.Request.SendHeaders | library/request.cpp:685-708 | writes the block of the current settings once |
| Response.Request.WriteBlock | library/request.cpp:691-704 | the loops write each header, each cookie and a blank line |
| Response.Request.Write | library/request.cpp:543-550 | sends headers first and no body for HEAD |
| Response.Request.SendError | library/request.cpp:437-457 | discards headers and cookies and sends the error page, or fails once headers are sent |
| Response.ResponseShape | library/request.cpp:401-708 | whatever is called, the output is empty or one header block of the settings at the first send followed by body bytes, with one Status entry (section 6.3.3 of RFC 3875) |
| Response.SentIsFinal | library/request.cpp:401-466 | once the headers are out every setter fails without effect, and only writes add to the output |
| Response.LastSettingWins | library/request.cpp:401-466 | status, headers and cookies at the first send are the last ones set, names without regard to case |
| Response.SetHoldsOnce | library/request.cpp:685-689 | setting an entry leaves one for that name |
| Response.AnswerIsDelimited | library/request.cpp:685-708 | if no header or cookie holds a line end, the first blank line of the output is the end of the block and the body follows it |
| Response.AnswerIsRead | library/request.cpp:685-708 | then, line by line, a reader finds `name: value` for each header sent and `Set-Cookie:` for each cookie, and no more |
| Response.ErrorAnswer | library/request.cpp:437-457 | an error answer is word for word the same whatever was set before: a content type, the status and the page |
| Response.PlainAnswer | library/request.cpp:543-708 | a request that sets nothing is answered with status 200, a blank line and, except for HEAD, what it writes |
| Response.DecimalIsNumeral | library/request.cpp:685-689 | the status is written as its decimal numeral without leading zeros |
| Response.NamesIgnoreCase | library/request.cpp:459-466 | header names are the same exactly if they differ only in the case of letters |
| Response.LexExactly | library/request.cpp:691-704 | headers and cookies stand in dictionary order of their names |

## Left out

- Sockets, FCGX calls, the monitor port, daemonising and signals: plumbing without state of its own.
- XML and XPath reading, `dlopen`, loggers, MD5, UUID and dates: foreign calls. Cache keys are assumed fresh.
- `std::regex` in filters and constraints; in the configuration only the one fixed pattern is modelled, as a leftmost search.
- `CodeWriter`: the compiler theorem ends at the page's streams.
- PageReader.Reader.Parse: a page that includes another page is an error in the model, where the source reads that file; it has no check for cyclic inclusion.
- Numeric and universal escapes, raw string literals, digit separators, trigraphs and line splices outside literals, line comments and preprocessing lines: the lexer reads C++ without them, so a literal with such an escape has no denotation, and a raw string is read as an ordinary one.
- A component's own failures in `onLoad`: it is reduced to its lookups, and a missing component is tolerated.
- ThreadPool.MoveKeepsInv: tasks whose copying or assignment throws are not modelled; pushing and popping always succeed.
- The pool and the cache are step systems over values instead of classes, because their claims are about interleavings; a `save` is several steps, one for each locked section or file operation.
- mmap, ftruncate and allocation failures, and clones of a mapped file while another clone resizes it: operations succeed and there is one mapping.
- `FileBuffer::trim`: it tests the index instead of the byte at the right end (library/file_buffer.cpp:142), so the multipart theorem is about bodies in memory.
- RequestFormat.RoundTrip: an encoding is at most 2^63 - 1 bytes, the longest string; file views meet the condition of `ReadsBackExactly`.
- RequestStore.Request.Attach: a read gives at most what was asked for and never an error code; reading the environment and interpreting the body (query, multipart, plain) is an arbitrary function of the body; the body view is taken again after the buffer grew instead of sharing it.
- UrlCodec.DecodeSpelled: an escape whose digits are not hexadecimal is decoded to some byte by the source's arithmetic; the model does the same and says nothing about it.
- Little-endian byte order and signed `char`, as on x86-64, are assumed.
- MultipartForm.MultipartRoundTrip: parameter values have no semicolon, headers without kept parameters may hold anything else, and nothing precedes the first delimiter, which the parser refuses unless it is framed by line ends (`MalformedExactly`). With LF alone the content meets the condition of `LfReadsExactly`. The part type is never set from `Content-Type`, since the parser looks for `CONTENT_TYPE=`.
- A folded first header line is joined from index 0 of the buffer; the model does this too, but says nothing more about it.
- Config.AcyclicResolves: every loose `$` is directly followed by a character other than `{`; for other text only a value that expands has the exact condition (`ExpansionExactly`).
- `getBoundary`, `parseCookies`, `normalizeInputHeaderName`, `normalizeOutputHeaderName`: easy members. Header names reach the response model normalised, and cookies as their finished text.
- Writing a response from a stream buffer is the same as writing its bytes and is not modelled apart.
- `HttpRequest`, `HttpResponse`, `Servlet`, sessions, `HandlerSet` and statistics: thin wrappers or easy members.
