# Verified models of the hiredis client core, its containers, and the yaul file cache

yaul receives log lines and writes them to files or pushes them to a Redis server through the bundled
hiredis client. This project models the parts of it whose correctness is least obvious and proves what they
are there for:

* the **reply reader** of `hiredis/hiredis.c`, a resumable push parser with an explicit task stack whose
  reply objects are linked into their parent array before they are complete;
* the **command formatters** of the same file and the **argument scanner** of `hiredis/async.c`, a printer
  and a second parser for the same wire format;
* the **asynchronous callback machine** of `hiredis/async.c`, with callbacks that call back into the API;
* three **chained hash tables** on real heap nodes: the prime-sized one of `hashtable/hashtable.c` with both
  of its ways to grow, its iterator, the in-place rehash that `hashtable/hashtable_powers.c` shares with it,
  and the power-of-two table of `hiredis/dict.c`;
* the **cache of open log files** of `yaul.c`, which sits on the first of these tables;
* the **dynamic strings** of `hiredis/sds.c`: buffers edited in place, the quoter and the splitters.

## How the model is built

| files | contents |
|---|---|
| `Bytes.dfy`, `Options.dfy` | bytes, decimal notation and its inverse |
| `Sds.dfy`, `SdsBuffer.dfy` | dynamic strings as contents and spare room; the same as one array edited in place |
| `Resp.dfy` | the reply grammar of the Redis serialization protocol as a plain recursive descent (`Decode`), and the printer |
| `Continuation.dfy` | what a recursive descent stopped in the middle still has to do |
| `Reader.dfy` | the push parser as a class with its buffer, cursor, task stack and heap objects |
| `WireFormat.dfy` | the same grammar and the formatted commands byte by byte, with the bytes of the protocol as numbers |
| `Command.dfy`, `Arguments.dfy` | formatters and templates; the argument scanner |
| `Templates.dfy` | what a template means, told by how it is written from words, values and conversions |
| `Async.dfy`, `AsyncRuns.dfy`, `AsyncEndings.dfy` | the callback machine as functions on states; what every run of it keeps; how every event changes or ends a context |
| `AsyncContext.dfy` | the machine as an object with a linked callback list |
| `Chains.dfy` | chains as sequences: what a table means and what growing does to that meaning |
| `Hashtable.dfy`, `HashtableItr.dfy`, `Dict.dfy` | the tables and iterators on heap nodes |
| `FileCache.dfy` | the file cache |
| `Quoting.dfy`, `QuotedLines.dfy`, `Splitting.dfy` | quoting and splitting of quoted lines; lines told by how they are written; splitting at a separator |

Imperative code is modelled by classes and loops. Every method is tied to a function of its inputs or of the
old state, and the promises are proved of that function. The main results are these.

1. **Chunking does not matter.** Whatever bytes are fed in whatever chunks, with requests for replies
   anywhere in between, the reader returns exactly what the recursive grammar says of the whole stream, and
   ends in the error the grammar says (`DecodeChunks`). Printed replies come back exactly when they are
   encodable (`RoundTrip`): no CR LF inside a status or error text, complete arrays, at most eight levels.
   `WireFormat.dfy` pins the grammar to the bytes of the protocol.
2. **A formatted command is the array of its arguments**, for argument vectors and for templates, in a
   buffer of exactly the precomputed length; the scanner of `async.c` finds the same arguments. A template
   means its words with every value put in where it was asked for (`TemplateMeaning`), and a misspelt
   conversion anywhere refuses it (`FormatMisspelt`).
3. **Callbacks run in order and exactly once.** In every run of calls and events the i-th reply goes to the
   i-th accepted command as soon as it has arrived, NULL replies come last and only from the one teardown, and
   no output byte is lost. For every living context and every event it is stated exactly whether the context
   goes on and with what, ends cleanly, in error or because the user freed it, or fails an assertion
   (`EventFate`).
4. **Growing a table keeps its meaning.** The rehash inside the enlarged bucket array, which splices entries
   between chains it is still walking, ends, loses nothing and places every entry; what each plan does to
   the order of the values of one key is stated exactly.
5. **Iterating with deletions visits every entry exactly once**, for both kinds of table and any decisions.
6. **A quoted list is read back exactly when no byte of it is printed as a hexadecimal escape.** Every line
   of arguments, quoted or not, is split into exactly those arguments, or refused for its quotes
   (`SplitWritten`, `SplitRefused`).

Where code and documentation disagree the model follows the code:

* `redisAsyncDisconnect` is documented to let the replies of all pending commands arrive first
  (`hiredis/README.md:294-304`). The code starts the disconnect as soon as the output buffer is empty and no
  reply is at hand (`hiredis/async.c:371`), and then an assertion that no callback is pending fails
  (`hiredis/async.c:289`). A failed assertion ends a run here; `DisconnectAborts` says exactly when it
  happens, `ProcessingAborts` says it for any living context, and `DisconnectAbortsInSomeRun` gives a run.
* `hashtable/hashtable.h:91-95` says that growing reverses the order of entries with the same key. That holds
  for the new bucket array; inside the enlarged old one only the keys that change buckets are reversed
  (`RelocateMeaning`), and `OrderKept` gives a key that is not.
* `sdssplitargs` does not decode the `\xHH` escapes that `sdscatrepr` prints, so the round trip promised in
  the comment at `hiredis/sds.c:407-418` has an exact domain (`QuotingRoundTrip`).
* The disconnect callback is documented to get `REDIS_OK` when the user asked for the disconnect
  (`hiredis/README.md:250-252`). When the server closes the connection before it has answered the last
  command, a disconnect by the user is reported as an error. `DisconnectReportedAsError` gives that run and
  `DisconnectNotified` the exact condition.
* The comment at `hiredis/hiredis.c:449` speaks of nesting deeper than 7; eight nested arrays are accepted.

## Model

| member | source | states |
|---|---|---|
| Bytes.LongLongOfDecInt | hiredis/hiredis.c:288-313 | reading back a printed integer gives that integer, for every integer |
| SdsBuffers.SdsBuffer.constructor | hiredis/sds.c:44-61 | a new string holds its initial bytes, a terminator and no spare room |
| SdsBuffers.SdsBuffer.MakeRoomFor | hiredis/sds.c:88-106 | the contents stay, and afterwards there is room for the bytes asked for; a reallocation doubles the needed size |
| SdsBuffers.SdsBuffer.CatLen | hiredis/sds.c:127-139 | the bytes are appended, the terminator follows them, and the spare room is what is left |
| SdsBuffers.SdsBuffer.Range | hiredis/sds.c:219-248 | for all positions, negative ones included, the array ends up holding the stretch that the specification keeps, and nothing is allocated |
| SdsBuffers.SdsBuffer.MoveDown | hiredis/sds.c:243 | moving a stretch to the front of the same array copies it unharmed although source and target may overlap |
| SdsBuffers.FromLongLong | hiredis/sds.c:364-377 | writing digits backwards into 32 bytes never runs out of room and gives the decimal notation |
| SdsStrings.MakeRoomFor | hiredis/sds.c:88-106 | room is made without touching the contents; a string with too little room gets twice the size that is needed, any other stays as it is |
| SdsStrings.CatLen | hiredis/sds.c:127-139 | the contents are the old ones followed by the new ones; after growing, half of the buffer is spare |
| SdsStrings.Range | hiredis/sds.c:219-248 | for all positions the bytes that stay are those between the two ends, once negative positions are counted from the end and raised to 0, cut at the length; the room of the others becomes spare |
| SdsStrings.RangeKeeps | hiredis/sds.c:219-248 | any part of a string is kept when its ends are asked for, each counted from either end; positions beyond the string mean its ends, even a last position before its start |
| SdsStrings.RangeEmpties | hiredis/sds.c:219-248 | nothing is kept when the first position lies behind the last one or behind the string |
| Resp.FindCrLf | hiredis/hiredis.c:260-283 | the first CR LF pair, or none |
| Resp.SplitLineOfText | hiredis/hiredis.c:315-328 | a text sent as a line is read back whole if and only if it contains no CR LF pair; a CR at its end is harmless |
| Resp.SplitLineExtend | hiredis/hiredis.c:315-328 | more bytes never change a line already found |
| Resp.ParseItem | hiredis/hiredis.c:507-554 | a finished item consumes at least one byte |
| Resp.ParseItems | hiredis/hiredis.c:330-353 | an announced number of items is read, no more and no fewer |
| Resp.DecodeExtend | hiredis/hiredis.c:585-665 | more bytes never change the replies already decoded, and a protocol error is final |
| Resp.ParseUndoesEncode | hiredis/hiredis.c:355-505 | an encodable reply followed by any bytes is read back, and exactly its own bytes are consumed |
| Resp.ParsedIsEncodable | hiredis/hiredis.c:442-505 | whatever the bytes were, a parsed reply has complete arrays, at most eight levels of nesting and no CR LF in its texts |
| Resp.RoundTrip | hiredis/hiredis.c:330-554 | printing and reading a reply gives it back whatever follows it, if and only if it is encodable |
| Resp.DecodeUndoesEncodeAll | hiredis/hiredis.c:617-665 | a stream of printed replies decodes to exactly those replies, followed by what the rest of the stream says |
| Continuation.TypeByteContinues | hiredis/hiredis.c:507-536 | consuming a type byte changes no outcome; an unknown one is an error whatever follows |
| Continuation.ItemReaches | hiredis/hiredis.c:355-440 | an item without children is finished by its own bytes, whatever follows |
| Continuation.DeepArrayFails | hiredis/hiredis.c:450-454 | an array inside eight others is refused before its header is read |
| Continuation.HeaderContinues | hiredis/hiredis.c:456-497 | opening an array with items is the same as descending into it |
| Continuation.FullReaches | hiredis/hiredis.c:342-343 | filling the last slot of an array finishes the array |
| Continuation.NextContinues | hiredis/hiredis.c:344-351 | filling any other slot leads to the next item of the same array |
| Continuation.FollowsMore | hiredis/hiredis.c:585-615 | feeding bytes is the same as having had them from the start |
| ReplyReader.RedisReply.Array | hiredis/hiredis.c:129-152 | a new array object has one empty slot per announced item |
| ReplyReader.RedisReader.SeekNewline | hiredis/hiredis.c:260-283 | the loop over the buffer finds the first CR LF pair, although it may look at the terminator behind the last byte |
| ReplyReader.RedisReader.ReadLongLong | hiredis/hiredis.c:288-313 | the value of the line, or -1 when it holds anything but digits behind its sign |
| ReplyReader.RedisReader.ReadBytes | hiredis/hiredis.c:249-257 | the cursor moves over the bytes or, when too few are left, not at all |
| ReplyReader.RedisReader.ReadLine | hiredis/hiredis.c:315-328 | the line at the cursor, which moves behind its CR LF, or no line and no move |
| ReplyReader.RedisReader.Link | hiredis/hiredis.c:119-123 | a new object goes into the current slot of the innermost open array and changes nothing else of the stack |
| ReplyReader.RedisReader.CreateString | hiredis/hiredis.c:97-127 | the object is complete, in its place, and every other part of the reader is as before |
| ReplyReader.RedisReader.CreateInteger | hiredis/hiredis.c:154-169 | the object is complete, in its place, and every other part of the reader is as before |
| ReplyReader.RedisReader.CreateNil | hiredis/hiredis.c:171-184 | the object is complete, in its place, and every other part of the reader is as before |
| ReplyReader.RedisReader.PopTask | hiredis/hiredis.c:342-343 | popping a full array makes it a complete item of the array around it |
| ReplyReader.RedisReader.NextSlot | hiredis/hiredis.c:344-351 | the next slot is inside the array and every slot before it is complete |
| ReplyReader.RedisReader.MoveToNextTask | hiredis/hiredis.c:330-353 | after an item the stack stands at the next empty slot of the innermost unfinished array, or the root is complete; the outcome of the descent is unchanged and no assertion on parent types or indices fails |
| ReplyReader.RedisReader.SetError | hiredis/hiredis.c:186-210 | an error drops the reply, the buffer and the whole task stack |
| ReplyReader.RedisReader.ProcessLineItem | hiredis/hiredis.c:355-387 | one step of the recursive descent, or nothing consumed for want of a line |
| ReplyReader.RedisReader.ProcessBulkItem | hiredis/hiredis.c:389-440 | one step of the recursive descent, or nothing consumed unless the whole bulk is there; any negative length is nil |
| ReplyReader.RedisReader.OpenArray | hiredis/hiredis.c:476-497 | the array is linked into its parent and its first slot becomes the current one, one level deeper |
| ReplyReader.RedisReader.ProcessMultiBulkItem | hiredis/hiredis.c:442-505 | one step of the recursive descent; the ninth level fails for good, and only -1 is nil |
| ReplyReader.RedisReader.ReadType | hiredis/hiredis.c:511-539 | the type byte decides the kind of the item, or the protocol is broken, or nothing is consumed |
| ReplyReader.RedisReader.ProcessItem | hiredis/hiredis.c:507-554 | a successful step consumes bytes and keeps the outcome of the descent; a failed one is either out of bytes or a protocol error, never anything else |
| ReplyReader.RedisReader.constructor | hiredis/hiredis.c:556-575 | a new reader has decoded nothing and accepts any stream |
| ReplyReader.RedisReader.Append | hiredis/hiredis.c:592-612 | the unread bytes are the old ones followed by the chunk, also when a large empty buffer is replaced |
| ReplyReader.RedisReader.Feed | hiredis/hiredis.c:585-615 | feeding keeps the reader in step with the stream; after an error it is refused and the error stands |
| ReplyReader.RedisReader.ProcessItems | hiredis/hiredis.c:641-644 | the loop ends with a complete reply that comes next in the stream, or with proof that there is none yet, or with the error of the stream |
| ReplyReader.RedisReader.Discard | hiredis/hiredis.c:650-656 | dropping 1024 or more consumed bytes changes nothing that is still to be read |
| ReplyReader.RedisReader.Emit | hiredis/hiredis.c:658-663 | the reply handed out has no empty slot and shares no object with the reader |
| ReplyReader.RedisReader.GetReply | hiredis/hiredis.c:617-665 | returns the next reply of the stream as soon as its bytes are there; without one, everything fed decodes to what was returned so far; errors are sticky |
| ReplyReader.RedisReader.EmittedIsDecoded | hiredis/hiredis.c:617-665 | what was returned is always a prefix of what the stream says |
| ReplyReader.DrainedReadersAgree | hiredis/hiredis.c:585-665 | two drained readers that were fed the same bytes agree on replies and error, however the bytes were cut and however often they were asked |
| ReplyReader.DecodeChunks | hiredis/hiredis.c:585-665 | for every list of chunks and every pattern of polls the replies and the final status are those of the recursive grammar on the concatenation |
| ReplyReader.ReadBack | hiredis/hiredis.c:330-665 | the printed form of a list of encodable replies, cut anywhere, is read back as that list without error |
| WireFormats.TextItem | hiredis/hiredis.c:514-520 | byte 43, a text without CR LF and 13, 10 is that status; with byte 45 it is that error |
| WireFormats.IntegerItem | hiredis/hiredis.c:288-313 | byte 58, an optional 43 or 45 and digits is the place-value sum with its sign; with anything but a CR behind the digits it is -1 |
| WireFormats.BulkItem | hiredis/hiredis.c:389-440 | byte 36, digits, 13, 10, as many bytes as the digits say and any two more is that bulk string |
| WireFormats.NilItems | hiredis/hiredis.c:389-505 | byte 36 with any negative length is nil; byte 42 with -1 is nil, and with another negative count an array without items |
| WireFormats.NilBytes | hiredis/hiredis.c:398-402 | the two nils that servers send, [36, 45, 49, 13, 10] and [42, 45, 49, 13, 10], are nil |
| WireFormats.ArrayItem | hiredis/hiredis.c:442-505 | byte 42, digits, 13, 10 and as many items is the array of these items, at every level below 8 |
| WireFormats.OtherBytes | hiredis/hiredis.c:514-532 | no byte but 36, 42, 43, 45 and 58 introduces an item |
| WireFormats.NestingLimit | hiredis/hiredis.c:449-454 | any number of array headers before a status decodes to the nested arrays if there are at most 8 of them, and fails for good otherwise |
| WireFormats.DecIsDecimal | hiredis/hiredis.c:881-883 | the printed lengths are digits of that value without leading zeros |
| WireFormats.WireBytes | hiredis/hiredis.c:881-889 | a command is byte 42 and the number of arguments, then for each argument byte 36, its length, 13, 10, its bytes, 13, 10 |
| Commands.ReadBackCommand | hiredis/hiredis.c:939-971 | a reader of replies gets back the array of exactly the arguments, whatever bytes they hold |
| Commands.WireIsInjective | hiredis/hiredis.c:939-971 | different argument vectors never have the same wire form, not even with more bytes behind them |
| Commands.IntLen | hiredis/hiredis.c:668-679 | the number of characters of the decimal notation, sign included |
| Commands.BulkLen | hiredis/hiredis.c:682-684 | the number of bytes of a bulk string with that many bytes of data |
| Commands.PutBulk | hiredis/hiredis.c:880-889 | an argument is written behind what is there, and the position moves by exactly its length on the wire |
| Commands.Write | hiredis/hiredis.c:875-893 | the command and its terminator fill a buffer of the precomputed length: the final position is the total length |
| Commands.FormatCommandArgv | hiredis/hiredis.c:939-971 | the length computed first is the length written, and the bytes are the wire form of the arguments |
| Commands.CollectIsArguments | hiredis/hiredis.c:705-726 | collecting a template piece by piece, with the touched flag, gives its maximal runs of text |
| Commands.ArgumentCountIsFixed | hiredis/hiredis.c:727-852 | interpolated spaces, CR LF, `$` or empty values never change the number of arguments, nor whether the template is refused |
| Commands.ScanConversion | hiredis/hiredis.c:760-834 | the scan that skips flags, width, precision and size finds the end of a printf conversion, or that there is none |
| Commands.TakeElement | hiredis/hiredis.c:727-852 | an interpolation adds its text to the current argument, takes one value and moves behind itself; a conversion longer than its buffer takes its value, prints nothing and is left after two bytes |
| Commands.FormatCommand | hiredis/hiredis.c:686-911 | a template formats to the same bytes as the argument vector of its space-separated arguments with the values put in, printf conversions included; exactly a malformed conversion gives -1 and no command |
| Templates.ConversionRecognised | hiredis/hiredis.c:760-834 | any flags, width, precision, size and specifier written as printf wants them are recognised as one conversion of exactly these bytes |
| Templates.TemplateMeaning | hiredis/hiredis.c:710-852 | a template of words separated by spaces, each word of literal bytes, `%s`, `%b`, `%%` and conversions, has exactly these words as arguments, with every value in the place where it was asked for; a percent sign at the very end is text, and a conversion of 14 bytes or more leaves its own bytes behind |
| Templates.FormatWords | hiredis/hiredis.c:686-911 | formatting such a template yields the command of these arguments, and values that are not asked for do no harm |
| Templates.FormatMisspelt | hiredis/hiredis.c:779-832 | modifiers that are followed by no letter of a conversion, or a size that is followed by no integer letter, give -1 and no command, whatever stands before and behind |
| ArgumentScanner.StrChr | hiredis/async.c:516-523 | the first occurrence before the end of the C string, or none |
| ArgumentScanner.NextArgument | hiredis/async.c:514-527 | on a formatted command: the next argument and its length, or NULL behind the last, even when arguments contain `$`, CR or NUL |
| ArgumentScanner.Scan | hiredis/async.c:514-527 | repeated calls find exactly the arguments, in order, and then NULL |
| ArgumentScanner.NameComparison | hiredis/async.c:550-583 | comparing the bytes at a name with a word and CR LF holds for exactly the names of that word: the word in any case, or a longer name in which CR LF follows it |
| ArgumentScanner.TakenAsRegular | hiredis/async.c:545-583 | the tests on the formatted bytes single out exactly the commands that are not SUBSCRIBE, UNSUBSCRIBE or MONITOR |
| ArgumentScanner.RegularCommands | hiredis/async.c:545-583 | a command is not regular if and only if its name is subscribe and an argument follows, or unsubscribe or monitor: the letters in either case, one p in front of them or none, and nothing or CR LF behind them |
| AsyncMachine.Drained | hiredis/async.c:231-233 | the teardown loop ends with nothing pending, because callbacks of a closing context can only set flags |
| AsyncMachine.TornDown | hiredis/async.c:225-267 | one teardown: nothing stays pending, nothing is accepted or written, and the disconnect callback runs once if the context was connected |
| AsyncMachine.Hangup | hiredis/async.c:281-299 | a disconnect always ends the life of the context, by teardown or by the failed assertion |
| AsyncMachine.Acts | hiredis/async.c:215-222 | whatever a callback calls, it can only append commands or set the closing flags, and nothing is appended once one is set |
| AsyncMachine.DeliveredWhileClosing | hiredis/async.c:541 | a callback run while closing shortens the list by one |
| AsyncRuns.DrainedGivesNulls | hiredis/async.c:231-233 | the teardown gives every pending callback exactly one NULL reply, in order |
| AsyncRuns.DeliveredKeepsCore | hiredis/async.c:395-408 | giving the next reply to the first pending callback keeps the order of callbacks, of replies and of output |
| AsyncRuns.TornDownKeepsInv | hiredis/async.c:225-267 | a teardown from any living, closing state is the only one and keeps the invariant |
| AsyncRuns.HangupKeepsInv | hiredis/async.c:281-299 | a disconnect keeps the invariant, cleanly or by the failed assertion |
| AsyncRuns.ProcessedKeepsInv | hiredis/async.c:361-437 | processing all replies at hand keeps the invariant, whatever the callbacks call |
| AsyncRuns.StepKeepsInv | hiredis/async.c:225-593 | every API call and every event keeps the invariant |
| AsyncRuns.ConsumedInOrder | hiredis/async.c:180-213 | in every run the callbacks consumed followed by those pending are those of the accepted commands, in order |
| AsyncRuns.RepliesInOrder | hiredis/async.c:361-437 | in every run a command gets no other reply than the one at its own place of the stream; NULL replies form a suffix and come only from the teardown |
| AsyncRuns.RepliesDelivered | hiredis/async.c:361-437 | no reply is held back: a living context has given every reply that has arrived to its command, and in every run as many replies were handed out as there are both replies and commands, unless the last of them made its callback free the context |
| AsyncRuns.ActsIsAsked | hiredis/async.c:215-222 | exactly what the calls of a callback change: the commands issued before the first closing call are appended, and each closing flag is set if it was asked for |
| AsyncRuns.FreedMeansAllConsumed | hiredis/async.c:225-267 | once the context is freed, which happens at most once, every accepted command has had its callback exactly once |
| AsyncRuns.DisconnectNotified | hiredis/async.c:255-263 | in every run the disconnect callback runs exactly once, when a connected context is torn down, with REDIS_OK exactly when the context was freed by the user or no error occurred |
| AsyncEndings.DisconnectReportedAsError | hiredis/async.c:255-263 | a run of a command, a disconnect by the user and an end of file: the disconnect is reported as an error, unless the abandoned callback frees the context |
| AsyncRuns.OutputConserved | hiredis/hiredis.c:1107-1134 | in every run with any partial writes, the bytes written followed by the output buffer are the accepted commands one after the other |
| AsyncEndings.ProcessingOutcome | hiredis/async.c:361-437 | processing the replies at hand frees the context if a callback that gets one asks for it, ends it in error for an error reply without a callback and for a protocol error, fails an assertion for any other reply without a callback, disconnects when the context is closing and nothing is left to write, and otherwise leaves exactly the callbacks, commands and flags foreseen |
| AsyncEndings.EventFate | hiredis/async.c:225-593 | for every living context of every run and every event: whether it goes on, ends cleanly, in error or freed, or fails an assertion; exactly how it has changed if it goes on; which commands it has accepted meanwhile; and whether it is connected. An ended context never changes again |
| AsyncEndings.NoIdleDisconnect | hiredis/async.c:371-374 | a connected context that lives on after reading is not both disconnecting and without output |
| AsyncEndings.DisconnectFromCallback | hiredis/async.c:361-437 | a run in which the callback of the only command disconnects: the context is torn down and the user is told REDIS_OK |
| AsyncEndings.ProcessingAborts | hiredis/async.c:361-437 | for every living context and all callbacks: processing the replies at hand ends in a failed assertion if and only if no callback that gets one asks to free the context, and the replies do not match the callbacks foreseen, with too few of them only when the context is closing and nothing is left to write |
| AsyncEndings.DisconnectAborts | hiredis/async.c:371-374 | the case of a disconnecting context: the pending callbacks alone decide, as no command is added |
| AsyncEndings.ForeseenWhenClosing | hiredis/async.c:541 | the list of callbacks of a closing context does not grow while replies are processed |
| AsyncEndings.DisconnectAbortsInSomeRun | hiredis/async.c:281-299 | a run of four events in which the clean disconnect fails its assertion |
| AsyncContexts.CallbackList.Push | hiredis/async.c:180-197 | the linked list has the new callback at its end |
| AsyncContexts.CallbackList.Shift | hiredis/async.c:199-213 | the first callback comes off the list, and an emptied list is ready for the next push |
| AsyncContexts.RedisAsyncContext.constructor | hiredis/async.c:104-136 | a new context is the initial state of the machine, in objects of its own |
| AsyncContexts.RedisAsyncContext.Issue | hiredis/async.c:531-593 | a regular command is registered and its bytes are appended, exactly when the context is not closing; a refused one leaves no trace |
| AsyncContexts.RedisAsyncContext.Free | hiredis/async.c:273-278 | the object does what the machine does: inside a callback only the flag is set, outside the context is torn down |
| AsyncContexts.RedisAsyncContext.Disconnect | hiredis/async.c:307-312 | the object does what the machine does: it hangs up at once only outside callbacks and with nothing pending |
| AsyncContexts.RedisAsyncContext.RunCallback | hiredis/async.c:215-222 | the object does what the machine does for any sequence of calls that the callback makes |
| AsyncContexts.RedisAsyncContext.TearDown | hiredis/async.c:225-267 | the loop over the linked list ends and is the teardown of the machine |
| AsyncContexts.RedisAsyncContext.HangUp | hiredis/async.c:281-299 | the object does what the machine does |
| AsyncContexts.RedisAsyncContext.NextReply | hiredis/hiredis.c:1138-1144 | the replies taken from the reader are the replies of the stream, one by one, and a failure is the protocol error of the stream |
| AsyncContexts.RedisAsyncContext.Dispatch | hiredis/async.c:380-435 | one reply: to the first pending callback, or the hang-up of a refused connection, or the failed assertion |
| AsyncContexts.RedisAsyncContext.ProcessCallbacks | hiredis/async.c:361-437 | the loop over replies is that of the machine |
| AsyncContexts.RedisAsyncContext.HandleConnect | hiredis/async.c:442-459 | the outcome of the socket test decides between connected, still connecting, and hung up; commands issued by the connect callback are accepted first, also on failure |
| AsyncContexts.RedisAsyncContext.HandleRead | hiredis/async.c:464-483 | the readable event of the machine |
| AsyncContexts.RedisAsyncContext.HandleWrite | hiredis/async.c:485-510 | the writable event of the machine |
| AsyncContexts.RedisAsyncContext.BufferWrite | hiredis/hiredis.c:1107-1134 | the bytes taken by the socket leave the front of the buffer, and done is reported exactly when nothing is left |
| AsyncContexts.RedisAsyncContext.Handle | hiredis/async.c:273-593 | every call and event does to the object what a step does to the machine |
| AsyncContexts.RunAll | hiredis/async.c:104-593 | from its creation on, through any calls and events up to the one that ends it, the object is in the state of the run of the machine, so every theorem on runs holds of it |
| Chains.RehashReverses | hashtable/hashtable.c:86-95 | every new chain is the reverse of the entries bound for it |
| Chains.RehashKeepsEntries | hashtable/hashtable.c:86-95 | moving entries to a new table loses and doubles none |
| Chains.RehashPlaces | hashtable/hashtable.c:86-95 | moving entries to a new table puts each into the bucket of its hash |
| Chains.MovedIsHalfPlaced | hashtable/hashtable.c:107-121 | during the rehash in place every entry is in its new bucket, or in its old one at a place still to be walked |
| Chains.RelocatePlaces | hashtable/hashtable.c:107-121 | the rehash in place ends with every entry in the bucket of its hash, none lost and none doubled |
| Chains.RelocateOrder | hashtable/hashtable.c:107-121 | the rehash in place keeps the order of the values of a key that stays in its bucket and reverses it for one that moves |
| Chains.DoublingSplitsChains | hashtable/hashtable_powers.c:90-104 | when the array doubles, the rehash in place splits every chain in one pass: entries that stay keep their order, the others stand reversed in the image of their bucket in the new half, and no entry is walked over twice |
| Hashtables.Push | hashtable/hashtable.c:156-157 | a free entry becomes the head of one chain, and every other chain is untouched |
| Hashtables.Unlink | hashtable/hashtable_itr.c:105-112 | an entry leaves its chain at the head or in the middle, and every other chain is untouched |
| Hashtables.Transfer | hashtable/hashtable.c:85-97 | the new bucket array holds exactly the transferred entries in the order of the specification |
| Hashtables.SpliceBucket | hashtable/hashtable_powers.c:91-104 | the walk over one bucket ends although it moves entries into chains still to be walked |
| Hashtables.Splice | hashtable/hashtable_powers.c:90-104 | the rehash inside the enlarged array does on the heap what the specification does on sequences |
| Hashtables.Enlarge | hashtable/hashtable_powers.c:82-89 | the buckets keep their chains and the new ones are empty |
| Hashtables.RehashMeaning | hashtable/hashtable.h:91-95 | growing into a new table keeps every binding and exactly reverses the values of every key |
| Hashtables.RelocateMeaning | hashtable/hashtable.c:99-122 | growing in place keeps every binding and reverses the values of exactly the keys that change buckets |
| Hashtables.OrderKept | hashtable/hashtable.h:91-95 | a doubled key with hash value 0 keeps its order when 7 buckets grow to 23 in place, against the documented reversal |
| Hashtables.GrowFresh | hashtable/hashtable.c:82-98 | the first plan on the heap |
| Hashtables.GrowInPlace | hashtable/hashtable_powers.c:80-105 | the second plan on the heap, for any larger size, doubling included |
| Hashtables.LoadFactor | hashtable/hashtable.c:51 | one more entry exceeds the load limit exactly when at least 65 percent of the size are taken |
| Hashtables.SizesAreListed | hashtable/hashtable.c:14-22 | every size of a table is one of the 28 listed primes |
| Hashtables.Hashtable.Create | hashtable/hashtable.c:28-53 | an empty table with count 0 of the least listed prime above the wanted size; refused exactly beyond 2^30 |
| Hashtables.Hashtable.Expand | hashtable/hashtable.c:70-126 | entries and count stay; the table grows to the next prime unless the last one is in use or memory is exhausted, and then nothing changes; the values of every key are reordered as the plan says |
| Hashtables.Hashtable.Insert | hashtable/hashtable.c:136-159 | the new value is found first and all others are kept; the count is exact; the table grows exactly when at least 65 percent are taken, a larger size is left and memory is not exhausted, and so never more than 65 percent, rounded up, are taken otherwise |
| Hashtables.Hashtable.Search | hashtable/hashtable.c:162-177 | the first value of the key, or NULL exactly when there is none |
| Hashtables.Hashtable.Remove | hashtable/hashtable.c:180-211 | the first value of the key is returned and taken out; every other binding is kept and the count is exact |
| HashtableIterators.HashtableItr.constructor | hashtable/hashtable_itr.c:11-35 | the iterator stands before all entries, or at the end exactly when there are none |
| HashtableIterators.HashtableItr.Advance | hashtable/hashtable_itr.c:53-88 | exactly the current entry is passed, the predecessor is the true one, and the result tells whether an entry follows |
| HashtableIterators.HashtableItr.Remove | hashtable/hashtable_itr.c:98-124 | exactly the current entry leaves the table, nothing is skipped, and the predecessor is the true one afterwards |
| HashtableIterators.HashtableItr.Find | hashtable/hashtable_itr.c:127-154 | stands at the entry that a search would find, with its true predecessor, or stays as it was |
| HashtableIterators.RemoveByIterator | hashtable/hashtable_itr.c:98-154 | searching with an iterator and removing through it leaves the very chains that removal by key leaves |
| HashtableIterators.KeptIsSpared | hashtable/hashtable_itr.c:98-124 | what an iteration with deletions leaves is every element that was not condemned, behind as many others as were spared before it, and nothing else |
| HashtableIterators.Sweep | hashtable/hashtable_itr.c:11-124 | an iteration with any mix of advancing and removing, decided step by step, visits every entry once, entries with equal keys and values included, and leaves exactly the others, in order, with an exact count |
| Dicts.MaskIsModulo | hiredis/dict.c:118 | masking a hash with the size minus one is its remainder by the size, for every power of two |
| Dicts.NextPower | hiredis/dict.c:306-315 | the least power of two that is at least 4 and at least the wanted size |
| Dicts.Dict.constructor | hiredis/dict.c:65-85 | a new dictionary has no bucket array and binds nothing |
| Dicts.Dict.MoveBucket | hiredis/dict.c:111-124 | one old bucket is moved entry by entry, and the count goes down by exactly its length |
| Dicts.Dict.MoveAll | hiredis/dict.c:103-126 | the loop may stop before the last bucket, and the count is 0 when it does; every entry has moved |
| Dicts.Dict.Expand | hiredis/dict.c:88-132 | fails exactly when the wanted size is below the number of entries; otherwise every key keeps its entry in a table of the next power of two |
| Dicts.Dict.KeyIndex | hiredis/dict.c:320-337 | afterwards there is room for one more entry, in a table of size 4 at first and of twice the size when it was full; -1 exactly for a key that has one, else the bucket for the key |
| Dicts.Dict.Add | hiredis/dict.c:135-154 | fails exactly when the key has an entry; otherwise the key gets the value and no other key is affected; the size is 4 at first and doubles when the table was full |
| Dicts.Dict.Replace | hiredis/dict.c:160-179 | afterwards the key has the value and every other key its old one; tells whether the key is new |
| Dicts.Dict.Delete | hiredis/dict.c:182-210 | succeeds exactly when the key has an entry, which is gone afterwards; no other key is affected |
| Dicts.Dict.Find | hiredis/dict.c:243-256 | the entry of the key, or NULL exactly when there is none |
| Dicts.Dict.IsFiniteMap | hiredis/dict.c:135-154 | the dictionary is a finite map whose number of keys is the entry count |
| Dicts.Perform | hiredis/dict.c:88-256 | from its creation on, after any sequence of additions, replacements and deletions, the dictionary is the finite map that the operations describe |
| Dicts.DictIterator.Next | hiredis/dict.c:268-286 | returns the next entry in order, or NULL exactly when there is none left, although the entry returned last may be gone |
| Dicts.DeleteReturned | hiredis/dict.c:182-210 | deleting the entry just returned takes out exactly that one and leaves what is still to come |
| Dicts.DeleteDuring | hiredis/dict.c:258-286 | an iteration that deletes any of the entries just returned, decided step by step, returns every entry exactly once and leaves exactly the others |
| FileCaches.FileCache.constructor | yaul.c:297-338 | an empty cache satisfies the invariant |
| FileCaches.FileCache.Start | yaul.c:246 | the table created for the configured number of files makes an empty cache; refused exactly beyond 2^30 |
| FileCaches.FileCache.VictimExists | yaul.c:93-103 | with more than one open file there is one that may be closed, so the random choice can end |
| FileCaches.FileCache.CloseRandomFile | yaul.c:85-110 | with more than one open file exactly the one drawn is closed, which is not the one used last; every other stays bound to its file |
| FileCaches.FileCache.Enter | yaul.c:317-325 | a newly opened file is bound to its name and becomes the last one used |
| FileCaches.FileCache.OpenLogfile | yaul.c:297-338 | returns an open file that was opened for that name, the cached one if there is one, and then nothing else changes; a new file costs no other one while fewer than the limit or at most one are open, and exactly the one drawn otherwise; the file used before stays in the cache; there are never more files than the limit, or than 2; names stay distinct, and the counters are exact |
| FileCaches.InsertNew | yaul.c:323 | with distinct keys an insertion binds the new key and keeps all other bindings, whether or not the table grows |
| FileCaches.EntryAt | yaul.c:96-101 | stepping an iterator reaches the entry at that position |
| Quoting.CatRepr | hiredis/sds.c:379-405 | the quoted form is appended byte by byte |
| Quoting.ReadToken | hiredis/sds.c:434-497 | the character loop reads one argument, or reports a closing quote that is missing or not followed by a space |
| Quoting.SplitArgs | hiredis/sds.c:419-502 | the loops over the line give the arguments of the specification, or an error and no arguments |
| Quoting.SplitQuoted | hiredis/sds.c:379-502 | for every list of strings, splitting the joined quoted forms gives the strings with each byte replaced by what its escape is read as |
| Quoting.QuotingRoundTrip | hiredis/sds.c:379-502 | splitting the joined quoted forms gives the list back if and only if no string contains a byte that is printed as a hexadecimal escape |
| QuotedLines.SplitWritten | hiredis/sds.c:419-497 | a line of arguments, each of bytes outside quotes and perhaps a last part in quotes, with white space between them, is split into exactly these arguments, escapes replaced by the bytes they mean; a NUL byte ends the line |
| QuotedLines.SplitRefused | hiredis/sds.c:453-460 | a line is refused when a quote is never closed, or when its closing quote is followed by anything but white space, whatever comes before |
| QuotedLines.SplitWords | hiredis/sds.c:463-479 | words joined by blanks, tabs and line ends, with more of them in front and behind, are split into exactly these words |
| QuotedLines.ReprIsSpelt | hiredis/sds.c:379-405 | between two quotes every byte is spelt as itself, as its two-byte escape, or as `\x` and the two lower-case hexadecimal digits whose value it is |
| QuotedLines.RereadIsSpelt | hiredis/sds.c:440-452 | a byte comes back from its spelling as itself, or as an x and its two hexadecimal digits |
| Splitting.FirstMatch | hiredis/sds.c:318-331 | the first occurrence of the separator from a position on, or none |
| Splitting.SplitJoins | hiredis/sds.c:290-344 | from any position on: joining the tokens with the separator gives the string back, and no token contains the separator |
| Splitting.SplitIsLeftmost | hiredis/sds.c:290-344 | the tokens are the only ones whose cuts are the leftmost non-overlapping occurrences |
| Splitting.SplitLen | hiredis/sds.c:290-344 | one pass over the bytes gives those tokens, NULL exactly for an empty separator, and every token is stored within the array |

## Left out

* Machine integers: counts, lengths and values are unbounded, so `long long` and `int` overflow in
  `readLongLong`, `intlen` and the total length, truncation of long counts to `int`, wrap-around of
  `tablelength << 1` and the `LONG_MAX` branch of `_dictNextPower` are not modelled.
* Failing allocations, except those of the bucket array in `hashtable_expand`.
* Error texts: an error is the offending type byte or the nesting error.
* Custom reply functions and `privdata` of the reader; releasing memory (`freeReplyObject`,
  `redisReaderFree`, `free`) is not modelled, an object no longer referred to is simply left alone.
* The reader and the asynchronous context hold their buffers as values of `SdsStrings`; that the operations in
  place do the same is proved separately in `SdsBuffers`.
* Commands.FormatCommand: the text that printf makes of a value is a parameter. Templates that end
  inside a conversion, before its conversion character (`hiredis/hiredis.c:779`), are not covered. C strings are taken without
  their terminator and may hold any byte in the model.
* Templates.FormatWords: leaves out conversions of 14 bytes or more with a space flag behind their second byte;
  what is left of them is split at that space, as `Commands.FormatCommand` says.
* Publish/subscribe and MONITOR in `hiredis/async.c`: contexts issue regular commands only. Freeing the
  context from the connect or disconnect callback, event-loop hooks, and everything in `hiredis/net.c`;
  the results of reading, writing and the socket test are parameters of the events.
* AsyncContexts.RedisAsyncContext.Issue: does not model SUBSCRIBE, UNSUBSCRIBE and MONITOR, because with them
  the callback of a reply can be stale or missing and exactly-once does not hold.
* AsyncContexts.RedisAsyncContext.HandleConnect: a connect found in progress may still succeed in the model,
  although the socket test closes the descriptor before it reports so (`hiredis/net.c:185-189`); the model has
  more runs than the code, and what is proved of all of them holds of those of the code.
* The commands that the connect callback issues are the `greetings` of an event; it makes no other calls.
* Hash functions are arbitrary functions of the key, without the bit mixing of `hashtable.c:57-67`; keys are
  equal when their values are. The load factor is 0.65 rounded up, without the error of `float`.
* The zeroing of the enlarged bucket array at `hashtable/hashtable.c:106` passes a slot's value and a byte
  count; the model has the zeroing of `hashtable/hashtable_powers.c:87-89`.
* `hashtable_destroy`, `hashtable_change` and the rest of `hashtable_powers.c`, which repeats `hashtable.c`.
* The value field of a `dictEntry` is an object of its own, so that chains can be compared as values; key and
  value duplication hooks and `_dictClear` are not modelled.
* `realloc` gives a new array with the same contents.
* In the file cache: SIGHUP and failed opens (both leave the last file referring to a released entry),
  flushing, and the termination of the random loop, which is only probable.
* FileCaches.FileCache.CloseRandomFile: the random loop is modelled by the position at which it ends, because
  it ends only with probability one.
* The other sds functions (trimming, comparing, case mapping, formatted printing) and the socket side of the
  synchronous client: they would add only easy members.
