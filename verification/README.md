# Verification of the algorithmic cores

A Dafny model of the parts of a personal code collection that compute something, with
proofs of what those parts promise.  `dafny verify dfyconfig.toml` checks the whole project.

| module | repository file | what is modelled |
|---|---|---|
| `Groups`, `Base64`, `Base64Bits`, `Base64Laws` | `cpp/email_with_curl/main.cpp` | the Base64 encoder and decoder, against the 24-bit groups of section 4 of RFC 4648 |
| `Mail`, `Attachment`, `Message`, `Receiver`, `Delivery`, `MailReader` | `cpp/email_with_curl/main.cpp` | the line queue, the reader callback, the chunk loop, `main`, and the path of an attachment through all of them to a mail reader that follows section 5.1 of RFC 2046 |
| `Barrier`, `BarrierOrder` | `cpp/barrier_with_condition_variable.cpp` | the condition-variable barrier and its `main`, for n threads, as a transition system |
| `FeedOutput`, `FeedLaws`, `FeedRuns` | `python/sftp_mp3.py` | the incremental splitter of terminal output |
| `PlayerList` | `python/sftp_mp3.py` | cursor, scroll offset and marks of the track list |
| `Digits`, `Printers` | `cpp/remove_non_digit_chars`, `cpp/sockets/server` | three digit parsers, and the interval and port printers whose output they read |
| `Gzip`, `GzipBytes`, `GzipLaws`, `Options` | `php/mcxindia_BhavCopyCommoditywiseArchive.php` | the gzip member splitter, against section 2.3 of RFC 1952 |
| `Windows` | `pascal/meniu.pas` | the window-number allocator |
| `MachineInt` | the C and C++ files | the widths of their integers and the conversions between them |
| `Equilibrium` | `cpp/sum_elements_array_before_and_after` | the equilibrium index over wrapping 64-bit sums |

Code that updates variables is modelled by methods and classes with the same
variables, branches and constants.  Each method is proved against a specification
function, and the lemmas are about those functions.  What a specification function
computes is then told by laws that do not name its parts: bits and table positions,
bytes at offsets, header lines, keys and messages written out.  Where the program writes the
same block twice (the full and the tail case of both Base64 loops, the two string
fields of a gzip header), the block is one method here.

Machine arithmetic is explicit: `unsigned int`, `size_t`, `long`, `short` and
`unsigned char` wrap, and signed overflow, which is undefined, is a precondition.
`main.cpp` of the mail program passed through a blog that changed its punctuation:
`in_len–`, `i – 1` and `‘=’` are read as `in_len--`, `i - 1` and `'='`.

Where a promise fails, the model keeps the code as it is and states exactly when
the promise holds:

- an attachment is delivered exactly up to 3221223750 bytes; past 2^32 - 8 encoded
  characters the chunk loop never leaves, and between the two limits it queues too much;
- the decoder gives back what the encoder made exactly up to 1610612733 bytes: from 2^31
  characters on its `int in_len` is negative and overflows, from 2^32 on it is too small;
- the encoder gives back what the decoder read exactly for canonical strings of fewer than
  2^31 characters;
- a mail reader that is given only the stream finds main's parts exactly when no line of
  the message text starts like the delimiter that the header announces, and then the file;
- feeding terminal output in two calls instead of one shows exactly as follows.  Where no
  CR LF is cut: never without a carriage return in the text so far; with one, when the
  text after the last one and the second chunk complete a logged line, or hold a line feed
  and no further carriage return.  Where a CR LF is cut: without a carriage return before
  it, when the line it ends is not logged like an empty line; with one, unless the second
  chunk holds a further carriage return and neither an empty line nor a line that chunk
  completes before it is logged.  A stream in many chunks never shows that it was cut
  exactly when every boundary is hidden in this sense;
- `max_lines` bounds the log exactly when it is positive (`del lines[:-0]` deletes nothing);
- the parsers with a `short int` index read every string of n characters exactly when n <= 32768;
- a gzip member is recovered exactly when it has a body, its flags are even or 31, and
  its extra field, if any, has the length that happens to be in the XFL and OS bytes;
- gzip content is returned exactly when it is shorter than 2^32 bytes;
- the port writer prints the numeral of every port except 0, for which it prints nothing.

## Model

| member | source | states |
|---|---|---|
| Base64.SymbolIsTable | cpp/email_with_curl/main.cpp:26-29 | every 6-bit value indexes the 64-character table, the character is an alphabet character, and searching it gives the value back |
| Base64.FindIsTableSearch | cpp/email_with_curl/main.cpp:26-32 | is_base64 holds exactly for the characters the table search finds; each is found at its own place, all others give npos cast to 255 |
| Base64.SplitIsSextets | cpp/email_with_curl/main.cpp:47-52 | the four mask-and-shift bytes are the four 6-bit values of the 24-bit group |
| Base64.JoinIsOctets | cpp/email_with_curl/main.cpp:110-112 | the three mask-and-shift bytes are the three octets of the 24-bit group |
| Base64.UnusedSlotsDoNotShow | cpp/email_with_curl/main.cpp:122-142 | whatever bytes fill the unused slots of a short group, the octets it emits are those of the group with zeros there |
| Base64.EmitSymbols | cpp/email_with_curl/main.cpp:69-79 | filling the four-byte buffer and appending its first n + 1 symbols appends the reference encoding of the n octets held |
| Base64.EmitOctets | cpp/email_with_curl/main.cpp:129-142 | looking up, joining and appending n - 1 bytes appends the reference decoding of the n symbols held, whatever the other slots hold |
| Base64.Base64Encode | cpp/email_with_curl/main.cpp:33-87 | the byte-by-byte encoder computes the 24-bit-group encoding with padding, for every input |
| Base64.Base64Decode | cpp/email_with_curl/main.cpp:88-145 | the byte-by-byte decoder, with in_len a wrapped int, computes the 24-bit-group decoding of the longest alphabet-only prefix of what it reads: the whole string, or its first size mod 2^32 characters when those low 32 bits fit an int |
| Base64Bits.EncodeBits | cpp/email_with_curl/main.cpp:26-87 | for every byte string, the positions of the symbols in the table, six bits each, are the bits of the bytes and then zeros; the other characters of the encoding are equal signs, up to whole groups of four |
| Base64Bits.DecodeBits | cpp/email_with_curl/main.cpp:26-145 | for every string, the bits of the decoded bytes are the first 8 * floor(3k/4) bits of the table positions of its k leading alphabet characters |
| Base64Bits.TableLaw | cpp/email_with_curl/main.cpp:26-29 | the table is A to Z, a to z, 0 to 9, plus and slash |
| Base64Bits.BitsDetermine | cpp/email_with_curl/main.cpp:108-119 | byte strings with the same bits are equal, so the bit laws leave no choice |
| Base64Bits.TestVectors | cpp/email_with_curl/main.cpp:33-87 | the encodings of f, fo and foo in section 10 of RFC 4648 |
| Base64Laws.DecodeEncode | cpp/email_with_curl/main.cpp:33-145 | the reference decoding of the reference encoding of any byte string gives it back |
| Base64Laws.ProgramRoundTrip | cpp/email_with_curl/main.cpp:88-145 | decoding the encoding of b is a run without overflow and gives b back if and only if b has at most 1610612733 bytes |
| Base64Laws.LongRoundTripExample | cpp/email_with_curl/main.cpp:90-97 | one that fails: from the 2^32 characters of 3221225472 bytes nothing is decoded |
| Base64Laws.EncodeInjective | cpp/email_with_curl/main.cpp:33-87 | different byte strings have different encodings |
| Base64Laws.DecodeLength | cpp/email_with_curl/main.cpp:97-143 | the reference decoding of any input has floor(3k/4) bytes, k its longest alphabet-only prefix, and only that prefix matters |
| Base64Laws.ProgramDecodeLength | cpp/email_with_curl/main.cpp:88-145 | a defined run of the decoder returns floor(3k/4) bytes, k the longest alphabet-only prefix cut to what in_len lets it read |
| Base64Laws.EncodeIsCanonical | cpp/email_with_curl/main.cpp:62-85 | every encoding is canonical: whole groups, at most two pad characters at the end, unused bits zero |
| Base64Laws.EncodeDecode | cpp/email_with_curl/main.cpp:33-145 | for the reference functions, encoding the decoding of a string gives the string back if and only if it is canonical (sections 3.5 and 4 of RFC 4648) |
| Base64Laws.ProgramInverse | cpp/email_with_curl/main.cpp:33-145 | decoding a string is a run without overflow whose result encodes to that string if and only if the string is canonical and has fewer than 2^31 characters |
| Base64Laws.LongInverseExample | cpp/email_with_curl/main.cpp:88-97 | canonical strings that are lost: of 2^32 alphabet characters nothing is read |
| Mail.CurlEmail.AddField | cpp/email_with_curl/main.cpp:208-211 | queues one line, key, colon, blank, value, CR LF, after the lines queued so far |
| Mail.CurlEmail.AddEmptyField | cpp/email_with_curl/main.cpp:212-215 | queues the line CR LF |
| Mail.CurlEmail.AddData | cpp/email_with_curl/main.cpp:234-237 | queues the data and CR LF as one line |
| Mail.PayloadSource | cpp/email_with_curl/main.cpp:181-203 | hands over the next line up to its first NUL and advances by one line; returns 0 and changes nothing when the wrapped request size is 0 or the queue is exhausted; bytes past the line stay as they were |
| Mail.Drain | cpp/email_with_curl/main.cpp:181-203 | calling the reader until it returns 0 yields the queued lines in order up to the first that reads as empty |
| Mail.StreamLaws | cpp/email_with_curl/main.cpp:193-202 | a line leaves up to its first NUL, and a line that starts with one, or an empty line, ends the stream |
| Attachment.StreamIsQueue | cpp/email_with_curl/main.cpp:193-202 | for a queue without empty lines, everything queued arrives if and only if no line holds a NUL, so 0 then means end of data only |
| Attachment.QueueChunks | cpp/email_with_curl/main.cpp:350-360 | the chunk loop queues the pieces of its rounds, in order, whenever it leaves at all |
| Attachment.LoopEndsExactly | cpp/email_with_curl/main.cpp:351-352 | the unsigned loop variable reaches n characters if and only if n <= 2^32 - 8 |
| Attachment.PieceIsSlice | cpp/email_with_curl/main.cpp:354-359 | until the variable wraps, round j queues characters 15000j to 15000(j + 1), clipped at the end |
| Attachment.RoundLaws | cpp/email_with_curl/main.cpp:351-359 | in every round, wrapped or not, the index is 15000j modulo 2^32 and the characters from there on, up to 15000, are queued |
| Attachment.ChunksPastLimit | cpp/email_with_curl/main.cpp:351-360 | above 286331 * 15000 characters a loop that leaves has queued more than the content |
| Attachment.ChunkingExact | cpp/email_with_curl/main.cpp:350-360 | the pieces concatenate to the content if and only if it has at most 286331 * 15000 characters |
| Attachment.BodyOfEncoding | cpp/email_with_curl/main.cpp:234-237 | the queued lines of an encoding drain unchanged, and removing their CR LF gives the pieces |
| Attachment.DeliveredExactly | cpp/email_with_curl/main.cpp:344-360 | the whole file is encoded and the drained lines without CR LF are that encoding if and only if the file has at most 3221223750 bytes |
| Attachment.LongFileExamples | cpp/email_with_curl/main.cpp:344-360 | two files that are not delivered: one byte over the limit the loop leaves having queued too much, at 3221225467 bytes it never leaves |
| Attachment.PieceDecodes | cpp/email_with_curl/main.cpp:348-359 | every piece decodes on its own, to its own 11250 bytes of the file |
| Attachment.AttachFile | cpp/email_with_curl/main.cpp:344-360 | encoding with the size cast to unsigned int and queueing the chunks appends exactly the lines of the loop's rounds |
| Attachment.DeliverFile | cpp/email_with_curl/main.cpp:344-364 | the drained message is the header lines, a body, and the closing line; the body without CR LF is the encoding of the file and decodes to it |
| Delivery.NoDashInBody | cpp/email_with_curl/main.cpp:358-363 | a body that strips to an encoding holds no dash, so no boundary delimiter can start inside it |
| MailReader.SendMessage | cpp/email_with_curl/main.cpp:306-366 | for any texts without NUL and any file up to the limit, the drained stream is the header lines of main, an attachment that strips and decodes to the file, and the closing delimiter; a mail reader given only the stream finds the boundary in the header, the parts of main if and only if no line of the text starts with the delimiter announced, and then the file |
| MailReader.AttachmentRead | cpp/email_with_curl/main.cpp:312-363 | the same for any stream of this form: header, boundary and encoding are looked up in it |
| MailReader.AnnouncedBoundary | cpp/email_with_curl/main.cpp:318-321 | the header announces the boundary up to its first quote, which is all of it when it has none |
| MailReader.TopWritten | cpp/email_with_curl/main.cpp:312-317 | the first five lines of the message are To, From, Subject, Date and MIME-Version with their values, the seventh is empty |
| MailReader.BoundaryWritten | cpp/email_with_curl/main.cpp:319 | the sixth line is the content type with the boundary of the delimiter lines in quotes |
| MailReader.TextPartWritten | cpp/email_with_curl/main.cpp:322-327 | the text part has its content type, an empty line after its header, then the lines of the text and two empty ones |
| MailReader.TextEncodingWritten | cpp/email_with_curl/main.cpp:323 | the text part announces 7bit |
| MailReader.EncodingWritten | cpp/email_with_curl/main.cpp:335 | the attachment announces base64, and an empty line ends its header |
| MailReader.FileNameWritten | cpp/email_with_curl/main.cpp:334-336 | the attachment names the file in its content type and its disposition |
| Delivery.AttachmentFound | cpp/email_with_curl/main.cpp:312-363 | cutting the stream at line ends and at the lines that start like the delimiter lines of main gives exactly preamble, text part, attachment part and nothing more if and only if no line of the text starts like that; then the body of the second part decodes to the file |
| Delivery.MainTextIsSafe | cpp/email_with_curl/main.cpp:325 | the text of main has no such line, whatever the boundary |
| Barrier.Safety | cpp/barrier_with_condition_variable.cpp:50-56 | in every reachable state of n threads, c counts the threads that have executed c++, at most one thread is inside shared_mtx, and a thread whose wait returned implies that all have arrived |
| Barrier.CountStable | cpp/barrier_with_condition_variable.cpp:52-55 | c never decreases nor exceeds n, so the awaited condition stays true |
| Barrier.NoWakeupIsLost | cpp/barrier_with_condition_variable.cpp:52-55 | a thread asleep after c has reached n implies that the holder of shared_mtx is about to notify |
| Barrier.StepInv | cpp/barrier_with_condition_variable.cpp:35-71 | every step of a worker, of main, and every spurious wakeup keeps the invariant: lock ownership, the count, start and join order, no lost wakeup |
| Barrier.DeadlockFree | cpp/barrier_with_condition_variable.cpp:35-71 | a reachable state has no step but a spurious wakeup if and only if the program has terminated: main done, all threads finished, both locks free |
| Barrier.StepDecreases | cpp/barrier_with_condition_variable.cpp:42-71 | a measure decreases on every step; a spurious wakeup adds two to it |
| Barrier.RunsAreBounded | cpp/barrier_with_condition_variable.cpp:42-71 | a run of n threads takes at most 2n^2 + 19n + 6 steps, plus three for each spurious wakeup |
| Barrier.EveryRunCanEnd | cpp/barrier_with_condition_variable.cpp:61-71 | after any run the program can still terminate without a spurious wakeup |
| BarrierOrder.ProgramOrder | cpp/barrier_with_condition_variable.cpp:42-59 | over any run to the end, every worker passes its places in program order, with only waiting, waking up and testing again repeated |
| BarrierOrder.MainOrder | cpp/barrier_with_condition_variable.cpp:61-71 | over any run to the end, main logs, starts the threads one by one, joins them one by one, and logs |
| BarrierOrder.StartedAndJoined | cpp/barrier_with_condition_variable.cpp:65-68 | exactly the threads started so far have left their first place, and those joined so far have finished |
| BarrierOrder.LocksHeld | cpp/barrier_with_condition_variable.cpp:35-56 | which lock a thread holds, by its place, in every reachable state; the second log is written under both |
| BarrierOrder.StepLaws | cpp/barrier_with_condition_variable.cpp:51-56 | what each step of a worker does to the count and the two locks |
| BarrierOrder.WhenEnabled | cpp/barrier_with_condition_variable.cpp:35-71 | who may step, in every state |
| BarrierOrder.NotifyWakes | cpp/barrier_with_condition_variable.cpp:53 | notify_all wakes every sleeper, and no other step of a worker moves another one |
| FeedOutput.OutputLog.FeedOutput | python/sftp_mp3.py:312-356 | one call leaves the log, the kept text and the live status of the split of its text; a raw line never holds a carriage return |
| FeedRuns.LiveByInput | python/sftp_mp3.py:343-356 | the live status of a call by its text: with a carriage return what follows the last one, if not blank; else the unfinished line, if it is a progress line; else the last progress line completed, or the status before |
| FeedRuns.LastProgress | python/sftp_mp3.py:334-338 | the live status after completed lines is the text of the last one that is a progress line, or unchanged |
| FeedRuns.LoggedLines | python/sftp_mp3.py:334-340 | the texts logged are those of the completed lines that are not blank and no progress lines, in order |
| FeedLaws.SplitIsPartition | python/sftp_mp3.py:324-351 | the text is the completed lines, a lost stretch, and the kept rest; nothing is lost without a carriage return, otherwise exactly the line it is in up to the last one; the rest never holds a carriage return |
| FeedLaws.ChunkingIndependent | python/sftp_mp3.py:321-342 | when the first part leaves no carriage return, feeding two parts keeps and logs the same as feeding them at once |
| FeedLaws.IndependentExactly | python/sftp_mp3.py:321-351 | for every pending text and any two chunks, feeding them in one call keeps and logs the same as in two if and only if a condition on the three texts holds; it covers boundaries inside a CR LF, with and without an earlier carriage return |
| FeedLaws.CutAfterProgress | python/sftp_mp3.py:321-351 | an input where the split shows whatever is logged: a progress line and a CR LF cut in two |
| FeedLaws.CutLosesLine | python/sftp_mp3.py:321-351 | any logged line is lost when its CR LF is cut in two and empty lines are not logged |
| FeedRuns.ChunkingExactly | python/sftp_mp3.py:312-356 | for a stream in any chunks, after every chunk the kept text and the texts logged are those of one call on the stream so far, if and only if every boundary is hidden |
| FeedLaws.RawsByInput | python/sftp_mp3.py:324-351 | a call completes exactly the lines ended by a line feed before the first carriage return |
| FeedRuns.LastLines | python/sftp_mp3.py:340-342 | with a positive limit the log is the last max_lines of the old log and the new texts |
| FeedRuns.LimitHoldsExactly | python/sftp_mp3.py:341-342 | the limit bounds the log of every stream if and only if it is positive |
| FeedRuns.NoPositiveLimit | python/sftp_mp3.py:341-342 | with a limit m of 0 or less, n texts leave the last max(0, k + (1 + m)n) of the old k lines and the new ones |
| FeedRuns.EveryRun | python/sftp_mp3.py:312-356 | after any sequence of calls the kept text holds no carriage return and the log is the last max_lines of all texts ever logged |
| FeedRuns.AnyChunking | python/sftp_mp3.py:321-342 | when every boundary is hidden, by the condition of IndependentExactly on the stream before it and the chunk after it, the log and the kept text are those of the whole stream, for any limit |
| FeedRuns.WholePairsAreHidden | python/sftp_mp3.py:321-342 | chunks in which carriage returns stand only in whole CR LF pairs hide every boundary |
| FeedRuns.CutInsidePairShows | python/sftp_mp3.py:321-351 | a cut inside such a pair shows, when its line is logged and empty lines are not |
| FeedRuns.LiveIsLastProgress | python/sftp_mp3.py:335-338 | the live status after the completed lines is the last progress line, or unchanged if there is none |
| FeedRuns.PlayOutput | python/sftp_mp3.py:397-425 | the reading loop of a player leaves the last 500 texts of everything read, and the live status of all calls in turn |
| PlayerList.PlayerUI.EnsureVisible | python/sftp_mp3.py:185-189 | afterwards the cursor is on screen, and no closer offset shows it |
| PlayerList.PlayerUI.SortedMarks | python/sftp_mp3.py:534-535 | the marks in strictly increasing order, each once |
| PlayerList.PlayerUI.NamesToPlay | python/sftp_mp3.py:533-537 | the marked tracks, or all when none is marked, by strictly increasing position |
| PlayerList.PlayerUI.HandleKey | python/sftp_mp3.py:507-552 | each key makes of the state, and hands to the player, what CursorLaws, ListLaws and PlayLaws say; cursor and marks stay inside the list |
| PlayerList.CursorLaws | python/sftp_mp3.py:509-552 | key by key, where the cursor goes, at the ends of the list too |
| PlayerList.ListLaws | python/sftp_mp3.py:524-552 | which keys change the list, the marks and the offset, and how |
| PlayerList.PlayLaws | python/sftp_mp3.py:530-537 | the play key plays the track under the cursor, the key a the marked tracks, or all, in list order; no other key plays any |
| PlayerList.ScrollLaw | python/sftp_mp3.py:185-189 | a draw keeps the offset when the cursor is on screen, and else puts it on the first or last row |
| PlayerList.PlayerUI.Run | python/sftp_mp3.py:499-552 | over any keys, screen heights and reloads, up to the first quit key, each round starts from the state the one before has left, draws it and applies its key; the object ends in the last state |
| PlayerList.TraceLaws | python/sftp_mp3.py:499-552 | round by round: the draw scrolls as little as it can and shows the cursor, and the key acts on the state drawn |
| PlayerList.FinalState | python/sftp_mp3.py:499-552 | the object ends in the state that the last round has left |
| Digits.DigitValueConcat | cpp/remove_non_digit_chars/main.cpp:31-44 | the digit value of two parts is the first times a power of ten plus the second |
| Digits.DigitLaws | cpp/remove_non_digit_chars/main.cpp:55-70 | one more character: each digit makes the value ten times as large and adds 0 to 9, any other character leaves it alone |
| Digits.SignLaws | cpp/remove_non_digit_chars/main.cpp:58-72 | a minus sign in front negates, no other first character does |
| Digits.AddWraps | cpp/remove_non_digit_chars/main.cpp:37 | adding digit times a wrapped power of ten in unsigned arithmetic is the exact sum, reduced to a long |
| MachineInt.ConversionsWrap | cpp/remove_non_digit_chars/main.cpp:31-37 | conversions to long, int and short are in range and congruent modulo 2^64, 2^32 and 2^16 |
| Digits.RemoveNonDigitCharsV1 | cpp/remove_non_digit_chars/main.cpp:23-47 | right to left with wrapping powers, v1 returns the signed digit value reduced to a long, of the characters its short index reaches |
| Digits.RemoveNonDigitCharsV2 | cpp/remove_non_digit_chars/main.cpp:49-74 | v2 returns the signed digit value of the characters its short index reaches, when that value fits |
| Digits.RemoveNonDigitCharsV3 | cpp/remove_non_digit_chars/main.cpp:75-104 | v3 returns the signed digit value of the whole string, when it fits |
| Digits.ThreeParsersAgree | cpp/remove_non_digit_chars/main.cpp:23-104 | up to 32768 characters and a value below 2^63, all three specifications are the signed value of the whole string |
| Digits.ShortIndexSuffices | cpp/remove_non_digit_chars/main.cpp:31-64 | v1 and v2 read every string of n characters right if and only if n <= 32768 |
| Digits.ReadLaws | cpp/remove_non_digit_chars/main.cpp:29-64 | how many characters v1 and v2 read of any length, with their index reduced to a short int |
| Printers.DecimalMeans | cpp/remove_non_digit_chars/Timer.cpp:38-44 | a decimal numeral consists of digits, has no leading zero, and reads back as its number |
| Printers.Timer.Stop | cpp/remove_non_digit_chars/Timer.cpp:21-36 | subtraction with borrow yields the floor quotient and remainder of the elapsed nanoseconds, whichever time is later, and the exact difference when time did not go back |
| Printers.Timer.GetInterval | cpp/remove_non_digit_chars/Timer.cpp:38-44 | for an interval that Stop leaves, the text is a numeral without leading zeros that reads as the seconds, a point, and nine digits that read as the nanoseconds; all its digits together read as the total number of nanoseconds |
| Printers.IntervalReadsBack | cpp/remove_non_digit_chars/Timer.cpp:38-44 | the specified text has that form, and its signed digit value is the total number of nanoseconds |
| Printers.SpellsLaw | cpp/remove_non_digit_chars/Timer.cpp:38-44 | that form, character by character |
| Printers.ReadInterval | cpp/remove_non_digit_chars/Timer.cpp:16-44 | the text printed after start and stop, handed to each of the three parsers, gives the elapsed nanoseconds, when these fit a long |
| Printers.PortWriter.PortToCharArray | cpp/sockets/server/src/ServerSocket.cpp:151-159 | the returned C string holds digits only, without leading zeros, and reads as the port; it is the decimal numeral if and only if the port is not 0; writes stay inside slots 21 to 30, and earlier contents of the static buffer do not show |
| Printers.PortReadsBack | cpp/sockets/server/src/ServerSocket.cpp:151-159 | the printed text of every port, 0 included, reads back as the port |
| Gzip.ReadExtra | php/mcxindia_BhavCopyCommoditywiseArchive.php:51-70 | the call gives up if and only if the flag is set and the length at offset 8 leaves no eight bytes; otherwise the cursor moves past two bytes and that length |
| Gzip.ReadString | php/mcxindia_BhavCopyCommoditywiseArchive.php:74-92 | the call gives up if and only if the flag is set and no zero byte comes before the last eight; otherwise the bytes passed are the text, which has no zero byte, and its zero |
| Gzip.GzDecode | php/mcxindia_BhavCopyCommoditywiseArchive.php:25-188 | result, file name and error message are those of the staged parse, decompression and footer comparison, on every path; EarlyOutcomes, FieldOutcomes, RestOutcomes and BodyOutcomes tell them from the bytes |
| GzipBytes.EarlyOutcomes | php/mcxindia_BhavCopyCommoditywiseArchive.php:27-66 | null and the message for a wrong start and for the flags rejected, with the file name unchanged; false for an extra field that does not fit |
| GzipBytes.FieldOutcomes | php/mcxindia_BhavCopyCommoditywiseArchive.php:72-113 | false with an empty file name when the name does not end, with the name when the comment does not; else both are the bytes up to their zeros |
| GzipBytes.HoldsMeans | php/mcxindia_BhavCopyCommoditywiseArchive.php:79-91 | what it means that the bytes hold a field: a text without zeros and its zero, and eight more bytes |
| GzipBytes.RestOutcomes | php/mcxindia_BhavCopyCommoditywiseArchive.php:115-134 | false when the header checksum does not fit, false and its message when it differs from the bytes before it |
| GzipBytes.BodyOutcomes | php/mcxindia_BhavCopyCommoditywiseArchive.php:136-187 | null without a body, the message for another method, the two footer messages exactly by which of checksum and length differ, and content only when both agree, with the message unchanged |
| GzipBytes.MessageLaws | php/mcxindia_BhavCopyCommoditywiseArchive.php:25-188 | content never changes the message; the first two messages come with null exactly under their guards, the others with false |
| GzipLaws.PartsTile | php/mcxindia_BhavCopyCommoditywiseArchive.php:51-157 | for any bytes and flags, when a member is split, header fields, a non-empty body and the eight-byte footer tile the input |
| GzipLaws.FieldOf | php/mcxindia_BhavCopyCommoditywiseArchive.php:79-91 | a string field at its place in the layout is read back whole |
| GzipLaws.RecoveredExactly | php/mcxindia_BhavCopyCommoditywiseArchive.php:28-157 | name, comment, body and footer of a member laid out per section 2.3 of RFC 1952 are recovered if and only if its flags are even or 31, its body is not empty, and an extra field has the length found in XFL and OS |
| GzipBytes.WrittenOut | php/mcxindia_BhavCopyCommoditywiseArchive.php:28-157 | a member written byte by byte, with name, comment and header checksum under flags 8, 16 and 2 as wanted, is split into these parts |
| GzipBytes.ExtraWrittenOut | php/mcxindia_BhavCopyCommoditywiseArchive.php:51-70 | one with an extra field under flag 4 is split into its parts if and only if XFL and OS hold its length |
| GzipLaws.ExtraFieldExample | php/mcxindia_BhavCopyCommoditywiseArchive.php:51-70 | a member that is not recovered: with a one-byte extra field and OS 3 the call gives up |
| GzipLaws.SplitRebuilds | php/mcxindia_BhavCopyCommoditywiseArchive.php:28-157 | building a member from the parts of any split without the FEXTRA flag gives the input back, byte for byte |
| GzipLaws.SplitExactly | php/mcxindia_BhavCopyCommoditywiseArchive.php:28-157 | bytes without the FEXTRA flag are split if and only if they are the layout of a well-formed member with a body and accepted flags |
| GzipLaws.ReturnedExactly | php/mcxindia_BhavCopyCommoditywiseArchive.php:129-187 | content is returned for an input if and only if it is split, its method is 8, the body inflates to the content, and the last eight bytes are its checksum and length |
| GzipLaws.DecodedExactly | php/mcxindia_BhavCopyCommoditywiseArchive.php:158-187 | for a recovered member of a conforming compressor the content is returned if and only if it is shorter than 2^32 bytes; the file name is set either way |
| GzipLaws.LongContentExample | php/mcxindia_BhavCopyCommoditywiseArchive.php:158-187 | a recovered member of 2^32 bytes whose content is refused |
| GzipLaws.FlagTestExactly | php/mcxindia_BhavCopyCommoditywiseArchive.php:36-40 | the flag test rejects reserved bits, as its message says, exactly for the flags stated |
| GzipLaws.FlagTestExamples | php/mcxindia_BhavCopyCommoditywiseArchive.php:36-40 | two inputs where it does not: FTEXT alone is rejected, a reserved bit alone is accepted |
| Windows.SomeNumberFree | pascal/meniu.pas:139-150 | while fewer than maxWindows numbers are taken, one in 1..maxWindows is free |
| Windows.Application.GetWindowNumber | pascal/meniu.pas:139-150 | takes the least free number, or returns wnnonumber and takes nothing when none is free |
| Windows.Application.PutWindowNumber | pascal/meniu.pas:152-155 | frees a number in range, ignores any other |
| Windows.Application.Open | pascal/meniu.pas:120-129 | while Open is enabled a new window gets the least free number, never wnnonumber; numbers stay distinct, counted and recorded, and Open is disabled exactly when all are taken |
| Windows.Application.Close | pascal/meniu.pas:131-137 | closing any open window frees exactly its number, enables Open, and keeps the invariant |
| Windows.Run | pascal/meniu.pas:113-155 | every sequence of opens and closes keeps the invariant, and takes the open windows from one event to the next as EventLaws says |
| Windows.EventLaws | pascal/meniu.pas:113-155 | an open adds the least free number at the end, or nothing when all are taken; a close removes exactly that window |
| Equilibrium.SumBound | cpp/sum_elements_array_before_and_after/src/main.c:98-117 | partial sums of k ints stay within k * 2^31, so at most 2^31 - 1 of them stay within 2^62 |
| Equilibrium.UnsignedComparison | cpp/sum_elements_array_before_and_after/src/find_index.c:30 | comparing the two sums as unsigned agrees with comparing them as integers |
| Equilibrium.MatchesMeans | cpp/sum_elements_array_before_and_after/src/find_index.c:24-36 | for any claimed total, the test compares the sum before the element with the total less that sum and the element |
| Equilibrium.MatchesIsBalanced | cpp/sum_elements_array_before_and_after/src/find_index.c:24-39 | with the true total, the running test holds exactly where the sums before and after are equal |
| Equilibrium.FindIndex | cpp/sum_elements_array_before_and_after/src/find_index.c:9-43 | for any claimed total, the least position where the sum before equals the total minus the sum through it, or -1 |
| Equilibrium.ReadIntegers | cpp/sum_elements_array_before_and_after/src/main.c:97-117 | the reading loop stores the input and its exact sum, without overflow |
| Equilibrium.Run | cpp/sum_elements_array_before_and_after/src/main.c:76-130 | the exit code, and with exit code 0 the least index whose elements before and after have equal sums, or -1 if there is none |

## Left out

- Base64.Base64Decode: runs in which in_len is negative and overflows, which is undefined.
- Mail.PayloadSource: queues of 2^31 or more lines, whose count does not fit the int lines_read, and buffers shorter than the line, which the source leaves to its caller.
- Attachment.QueueChunks: runs of the chunk loop that never leave; LoopEndsExactly says for which lengths those are.
- Delivery.SendMessage: the recipients handed to libcurl; a file that does not open is an empty file, which queues the same lines. The boundary is any text, since its dashes have lost their form in the file. Its receiver results want single lines in the header fields.
- Digits.RemoveNonDigitCharsV1: the one negative value whose negation overflows a long.
- Digits.RemoveNonDigitCharsV2: values of 2^63 and more, where signed arithmetic overflows; the same holds for v3.
- Printers.PortWriter.PortToCharArray: negative ports, which index the digit table with a negative remainder.
- Printers.Timer.Stop: clocks whose second fields differ by more than a long holds.
- Gzip.GzDecode: the bytes of the extra field and the modification time, which the source reads and never uses; crc32 and gzinflate are parameters. The magic number is modelled as the bytes 0x1f 0x8b, since the string in the file has lost its backslashes.
- Windows.Application.Close: the freeing of the window inside twindow.close, and drawing.
- FeedOutput.OutputLog.FeedOutput: removing escape sequences, trimming and the progress-line pattern are parameters. The live status is not independent of chunking, since kept text is trimmed on both sides and complete lines on one.
- Barrier: sleeping times, timestamps and log text; thread identities beyond an index; exceptions.
- PlayerList: drawing, the status line and the playing of a track; the names handed to it are a result.
- add_cc and set_recipients of the mail program; add_to, add_from and add_subject, which only call add_field, are written as those calls.
- The last flush of kept text when a player ends (python/sftp_mp3.py:456-459).
- libcurl, sockets, databases, web pages, shell scripts, cluster configuration, bit setters, pins and the other Pascal programs.
- Conformance of 15000-character lines to the line length of section 6.8 of RFC 2045.
