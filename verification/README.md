# Verification of Agoo's algorithms

Agoo is an HTTP, WebSocket and GraphQL server written in C. Beneath its sockets and Ruby glue are algorithms that can be
stated and proved on their own. This project models them in Dafny, as the C code does them, and proves what they are for:

* **Ring queue** (`RingMemory`, `RingQueue`, `Queue`): the loads and stores of pushers and poppers as interleaved steps;
  first in, first out over every run.
* **Log ring** (`LogRing`, `LogFlush`, over `RingMemory`): the same cursors with entries filled and read in place; lines come out whole,
  in order, and what flush and close leave behind.
* **GraphQL evaluation** (`GqlEval`): selections, fragments and the resolver under the depth cap, over an abstract
  application; inlining fragments preserves the result.
* **JSON in and out** (`TextBuffer`, `Json`, `JsonPrinter`, `JsonParse`, `JsonReader`, `JsonRoundTrip`): the growable text,
  the printer, the recursive-descent parser, and when parsing undoes printing.
* **Selections in and out** (`SdlText`, `SdlPrinter`, `SdlParse`, `SdlReader`, `SdlRoundTrip`, `SdlExact`): the same for
  selection sets.
* **Types** (`TypeTable`): the table of GraphQL types and the interning of list and non-null types.
* **SHA-1** (`Sha1Spec`, `Sha1`): the in-place transform, the chunked update and the padding against FIPS 180-4.
* **Dates** (`Calendar`, `Sectime`, `TimeText`): seconds to dates against the proleptic Gregorian calendar, and the text of
  times.
* **WebSocket frames** (`WebSocket`): against RFC 6455, and what the read loop makes of a buffer of them.
* **Pipelined responses** (`Responses`, `ResponseList`): what reaches the wire, and in which order.
* **Push** (`FanOut`, `UpgradedList`): exactly-once fan-out to the connection loops and reference counts of upgraded
  connections.
* **Page cache** (`PageCache`, with `Chains`): a hash table that skips comparing short keys, against a map.

Code that changes things in place is a class or a method proved against a specification function; threads are state
machines over their atomic steps. `Bytes` holds the bytes and C strings, `Parsing` the result of a parser, `Wrappers` an
option type. `dafny verify dfyconfig.toml` checks the whole project.

## Where the code falls short of the natural claim

Each of these is proved, with the exact condition under which the claim holds, and the code is modelled as it stands.

* SHA-1 counts bits right only below 2^29 bytes: `len << 3` is a 64-bit product, so the comparison at `ext/agoo/sha1.c:83`
  always carries from there on, on top of `len >> 29` (`Sha1.BumpExact`, `Sha1.PaddedExact`).
* Dates in the three years after each multiple of 400 use the leap table, so from 1 March on they are one table day behind:
  2001-03-01 comes out as 2001-02-29 (`Sectime.ShownExact`). A time within the second before 1970 loses its sign in its
  text (`TimeText.RoundTrip`).
* In JSON an empty string reads back as the text from its closing quote on, INT64_MIN as a string, and a key of 256 bytes
  or more, or with a quote, not as itself; every other value of the model comes back
  (`JsonRoundTrip.RoundTrip`).
* In SDL a string is never unescaped, an empty one and INT64_MAX are not read back, a token spelled null, true or false
  becomes that word, and a spread of a name that starts with "on" an inline fragment; every other selection of
  the model comes back (`SdlExact.RoundTrip`).
* A WebSocket frame without mask and payload is not recognised until more arrives (`WebSocket.Completes`). A ping or pong
  with anything behind it stops all reading for good (`WebSocket.Stuck`, `WebSocket.Drains`).
* An upgraded connection is never destroyed once a reference to it is lost: by `env`, by a write whose `to_s` raises, by a
  message for a handler without `on_message`, or by a handler that raises. Nor is it destroyed when its last reference goes
  by a plain decrement: in `pending`, `open?` or a refused write (`FanOut.LastHolder`, `FanOut.NeverDestroyed`).
* The log's flush may return while the writer still holds a line, or with lines in the ring when a whole ring of lines came
  by during its test or the log was closed, and a line whose call began before close may stay in the ring for ever
  (`LogFlush.EmptyExact`, `FlushExact`, `FlushHolding`, `FlushBehind`, `FlushClosed`, `LogRing.CloseExact`).
* A selection set whose fragments all fall away is not a set any more when they are inlined, and its object is coerced
  (`GqlEval.DocInlining`).
* The page cache confuses short keys of equal length and hash, which takes bytes outside a range of 77, such as "az" and
  "b-" (`PageCache.AlphabetExact`, `PageCache.Confused`).

## Model

| member | source | states |
|---|---|---|
| RingQueue.Fifo | ext/agoo/queue.c:77-161 | For every interleaving of the atomic loads and stores of any number of pushers and poppers (locked, or one caller at a time) the items returned, then the one in a popper's hands, then the committed slots are the items pushed, in order; at most size - 1 are held; with every popper outside, the head slot is empty |
| RingQueue.Exclusion | ext/agoo/queue.c:77-161 | In every run at most one pusher and one popper are past their locks |
| RingQueue.ReachableThreads | ext/agoo/queue.c:86-159 | In every reachable state a pop returns the oldest item not returned yet, lines 125-131 are never entered, a pop gives up only on an empty ring, and a push writes only a slot no item is waiting in |
| RingQueue.RunInv | ext/agoo/queue.c:77-161 | Every run keeps the invariant and the size of the ring |
| RingQueue.StepInv | ext/agoo/queue.c:77-161 | Every step of every thread keeps the invariant behind the three theorems above |
| RingQueue.PushActionInv | ext/agoo/queue.c:77-102 | Each load or store of a push keeps every committed item and the order |
| RingQueue.PopActionInv | ext/agoo/queue.c:113-161 | Each load or store of a pop keeps the account of items, wherever the pusher stands |
| RingQueue.UninterruptedPush | ext/agoo/queue.c:77-102 | Eight steps without interruption are the whole push of RingMemory.Pushed |
| RingQueue.UninterruptedPop | ext/agoo/queue.c:113-161 | Nine steps without interruption are the whole pop of RingMemory.Popped, in all three branches |
| RingMemory.Pushed | ext/agoo/queue.c:77-97 | A push onto a ring with room appends its item to the committed items |
| RingMemory.Popped | ext/agoo/queue.c:113-159 | A pop takes the first committed item and keeps the head slot empty; on an empty ring it changes nothing and gives NULL |
| RingMemory.SpareSlots | ext/agoo/queue.c:89 | Writing the tail slot of a ring with room, or the head slot, leaves every committed item alone |
| RingMemory.CommitTail | ext/agoo/queue.c:90-95 | Moving the tail cursor, with its wrap, commits exactly the item in its slot |
| RingMemory.ReleaseHead | ext/agoo/queue.c:132-156 | Moving the head cursor, with its wrap, takes out exactly the oldest item |
| Queue.Queue.constructor | ext/agoo/queue.c:35-57 | The array and cursors after initialisation hold no item; the size is at least 4 |
| Queue.Queue.Push | ext/agoo/queue.c:77-102 | The array after the call holds the items before and the new one last |
| Queue.Queue.Pop | ext/agoo/queue.c:113-161 | The call returns the oldest item and leaves the others, or NULL from an empty queue |
| Queue.Queue.Empty | ext/agoo/queue.c:165-176 | True exactly when no item is committed |
| Queue.Queue.Count | ext/agoo/queue.c:206-210 | The count reads items + 1 modulo the size, so 0 for a full ring |
| LogRing.Untorn | ext/agoo/log.c:117-147 | For every interleaving of any number of loggers and the writer, field by field, the lines written are the lines committed, whole and in order, up to the one in hand and at most 1023 in the ring; the flag that would write a line twice is never set |
| LogRing.StepInv | ext/agoo/log.c:504-544 | Every step of every thread keeps the invariant behind the theorem above |
| LogRing.CallActionOk | ext/agoo/log.c:471-502 | Each field a logger fills in place leaves the committed lines and the writer's line alone, and the store of the tail commits the whole line |
| LogRing.WriteStepAccounts | ext/agoo/log.c:312-340 | Each step of the writer keeps the account of lines |
| LogFlush.EmptyExact | ext/agoo/log.c:76-88 | The empty test of the flush, three loads with any steps of the others between them, finds the ring empty if and only if the lines in the ring at the first load and those committed until the last are a multiple of its 1024 slots |
| LogFlush.FlushExact | ext/agoo/log.c:342-356 | When a flush ends by that test, and less than a whole ring of lines came by, nothing was committed meanwhile, the ring is empty, and every line is written if and only if the writer is not at work on one |
| LogFlush.FlushHolding | ext/agoo/log.c:76-88 | A run in which the test finds the ring empty while the writer holds a line that is not written |
| LogFlush.FlushBehind | ext/agoo/log.c:76-88 | A run in which 1024 lines are logged between the loads and the test finds the ring empty with the last of them in it |
| LogFlush.FlushClosed | ext/agoo/log.c:342-356 | A run in which the flush returns because the log is closed, with a line committed and nothing written |
| LogFlush.RunCounts | ext/agoo/log.c:117-147 | Every run keeps the tail at the number of lines committed, modulo the slots, and takes back neither a commit nor a line taken |
| LogRing.WriterDrains | ext/agoo/log.c:315-340 | After close the writer on its own puts out every line left, within a bound, and stops |
| LogRing.CloseExact | ext/agoo/log.c:382-389 | After close every schedule that ends has written all lines ever committed if and only if no call was between its test of `done` and its commit |
| GqlEval.Inlining | ext/agoo/gqleval.c:273-317 | If evaluation succeeds at a depth, replacing every fragment that applies by its selections succeeds at this and every smaller depth with the same members in the same order |
| GqlEval.FlattenFields | ext/agoo/gqleval.c:291-308 | After that replacement only fields are left |
| GqlEval.Shallower | ext/agoo/gqleval.c:277-309 | What succeeds at one depth succeeds with the same members at every smaller depth |
| GqlEval.ShallowerResolve | ext/agoo/rgraphql.c:433-579 | The same for the resolver, through lists and nested objects |
| GqlEval.EvalEachConcat | ext/agoo/gqleval.c:282-315 | Evaluating two selection lists one after the other is evaluating their concatenation |
| GqlEval.SelfReaching | ext/agoo/gqleval.c:291-308 | A selection that reaches itself through included spreads and inline fragments alone never succeeds, at any depth |
| GqlEval.OpensDeeper | ext/agoo/gqleval.c:291-308 | A success succeeds one level deeper on everything it includes |
| GqlEval.EvalLoop | ext/agoo/gqleval.c:273-317 | The loop over selections terminates on the depth left below the cap, stops at the first failure, and appends exactly the members of the evaluation |
| GqlEval.EvalOne | ext/agoo/gqleval.c:283-314 | One selection: inline, every fragment of the name in document order, or the resolver |
| GqlEval.FragInclude | ext/agoo/gqleval.c:189-256 | True exactly when the type condition holds and no skip or include directive vetoes it, literally or through a variable |
| GqlEval.VarValueIs | ext/agoo/gqleval.c:169-186 | The value of the first variable of the name among the operation's, else of the first among the document's, else none |
| GqlEval.DocInlining | ext/agoo/gqleval.c:328-381 | A whole operation that succeeds gives the same result with its fragments inlined if and only if something is still selected; with nothing selected the resolver coerces the object instead |
| TextBuffer.Escape | ext/agoo/text.c:177-231 | The escaped text has exactly the size json_size computes |
| TextBuffer.EscapeConcat | ext/agoo/text.c:199-230 | Escaping works byte by byte: the escape of a concatenation is the concatenation of the escapes |
| TextBuffer.PlainSize | ext/agoo/text.c:196-197 | The size equals the length exactly when no byte needs an escape, and then the text is its own escape |
| TextBuffer.PrefixSize | ext/agoo/text.c:33-42 | The escape of a prefix and the next byte fit in what was sized for the whole |
| TextBuffer.Buffer.constructor | ext/agoo/text.c:80-93 | An empty text with room for the length asked, 8 at least |
| TextBuffer.Buffer.Create | ext/agoo/text.c:46-60 | A text holding the string |
| TextBuffer.Buffer.Reserve | ext/agoo/text.c:115-124 | Growing keeps the contents and makes the room needed |
| TextBuffer.Buffer.Append | ext/agoo/text.c:108-129 | The span of the string, or all of it up to its NUL when the length is not positive, comes behind the contents; the text stays terminated and within its allocation |
| TextBuffer.Buffer.AppendChar | ext/agoo/text.c:132-150 | One byte comes behind the contents |
| TextBuffer.Buffer.Prepend | ext/agoo/text.c:153-174 | The span comes in front of the contents, NUL moved along |
| TextBuffer.Buffer.AppendJson | ext/agoo/text.c:177-236 | The escaped string comes behind the contents, in exactly the bytes sized for it |
| TextBuffer.Buffer.WriteAll | ext/agoo/text.c:199-230 | The escaping loop writes the escape of the string and stays within the room |
| TextBuffer.Buffer.Size | ext/agoo/text.c:33-42 | The loop adds up the widths |
| JsonPrinter.ValueJson | ext/agoo/gqlvalue.c:1235-1248 | Printing a value into a text appends exactly the text of the value |
| JsonPrinter.IntToText | ext/agoo/gqlvalue.c:34-41 | Appends the decimal digits and sign |
| JsonPrinter.StringToText | ext/agoo/gqlvalue.c:85-98 | Appends the escaped C string between quotes |
| JsonPrinter.ListToJson | ext/agoo/gqlvalue.c:598-628 | Appends the bracketed items with padding clipped at 256 bytes |
| JsonPrinter.ObjectToJson | ext/agoo/gqlvalue.c:686-723 | Appends the braced members, keys as they stand |
| JsonReader.Reader.ParseVal | ext/agoo/gqljson.c:396-459 | The cursor parser and the grammar agree on the value, on failure and on the text left |
| JsonReader.Reader.ParseNumber | ext/agoo/gqljson.c:29-133 | The digit loop with its switch to a string past 64 bits agrees with the grammar |
| JsonReader.Reader.ParseStr | ext/agoo/gqljson.c:268-286 | The quote is found with escapes skipped, and the string agrees with the grammar |
| JsonReader.Reader.ParseEscapes | ext/agoo/gqljson.c:201-265 | The unescaping loop agrees with the grammar |
| JsonReader.Reader.ReadHexCode | ext/agoo/gqljson.c:136-160 | Four hex digits, most significant first |
| JsonReader.Reader.ReadCodePoint | ext/agoo/gqljson.c:163-198 | The UTF-8 bytes of a code point or surrogate pair |
| JsonReader.Reader.ParseObj | ext/agoo/gqljson.c:297-355 | The member loop agrees with the grammar |
| JsonReader.Reader.ParseObjKey | ext/agoo/gqljson.c:310-331 | A key under 256 bytes up to the first quote, then a colon |
| JsonReader.Reader.ParseArray | ext/agoo/gqljson.c:358-393 | The item loop agrees with the grammar |
| JsonReader.Reader.SkipJWhite | ext/agoo/doc.c:77-83 | Moves to the first byte that is not white |
| JsonRoundTrip.RoundTrip | ext/agoo/gqljson.c:396-459 | Parsing what was printed gives the value back, integers re-kinded by size, and uses up the text, if and only if the value holds no INT64_MIN, no empty string and no key of 256 bytes or more or with a quote |
| JsonRoundTrip.PrintExact | ext/agoo/gqljson.c:297-459 | The same for a value at any depth and indent with any text behind it |
| JsonRoundTrip.ParsePrint | ext/agoo/gqljson.c:297-459 | When the keys fit, parsing consumes exactly the printed text, even of a value that does not come back |
| JsonRoundTrip.StringBack | ext/agoo/gqljson.c:201-286 | Every non-empty NUL-free string comes back from its escaped form |
| JsonRoundTrip.EmptyStringBack | ext/agoo/gqlvalue.c:1040-1046 | The empty string never comes back: length 0 takes everything from the quote on |
| JsonRoundTrip.ParseDecimal | ext/agoo/gqljson.c:42-120 | Every integer above INT64_MIN comes back with its sign |
| JsonRoundTrip.ParseLeast | ext/agoo/gqljson.c:51-110 | INT64_MIN comes back as a string of its digits |
| JsonRoundTrip.NotBack | ext/agoo/gqljson.c:297-459 | A value with a key that does not fit, however deep in lists and objects, never comes back |
| JsonRoundTrip.BadKey | ext/agoo/gqljson.c:310-331 | A key of 256 bytes or more, or with a quote, is never read as it is |
| SdlPrinter.SelSdl | ext/agoo/graphql.c:1492-1565 | Printing a selection into a text appends exactly the text of the selection |
| SdlPrinter.ValueSdl | ext/agoo/gqlvalue.c:1251-1264 | Printing a value appends exactly its SDL text |
| SdlPrinter.Args | ext/agoo/graphql.c:1528-1548 | The argument loop appends the arguments with commas between |
| SdlReader.Doc.SkipSpace | ext/agoo/doc.c:61-75 | Moves past white space, commas and comments |
| SdlReader.Doc.ReadToken | ext/agoo/doc.c:114-121 | Moves past one token and tells its length |
| SdlReader.Doc.ReadNameText | ext/agoo/sdl.c:82-101 | A token of 1 to 255 bytes, or failure |
| SdlReader.Doc.ReadNum | ext/agoo/doc.c:236-330 | The sign, digit and size rules of integers agree with the grammar |
| SdlReader.Doc.ReadStr | ext/agoo/doc.c:142-171 | The closing quote rule agrees with the grammar |
| SdlReader.Doc.ReadVal | ext/agoo/doc.c:332-474 | The value reader and the grammar agree on the value, failure and the text left |
| SdlReader.Doc.MakeSelArg | ext/agoo/sdl.c:1005-1060 | One literal argument agrees with the grammar |
| SdlReader.Doc.MakeSelInline | ext/agoo/sdl.c:1172-1249 | Spread or inline fragment by the two letters behind the dots |
| SdlReader.Doc.MakeSel | ext/agoo/sdl.c:1252-1345 | The selection reader and the grammar agree on the selection, failure and the text left |
| SdlExact.RoundTrip | ext/agoo/sdl.c:1252-1345 | Reading the printed text of a selection rebuilds it, integers re-kinded, and stops at its end, if and only if nothing in it, however deep, is an integer of INT64_MAX or more in size, an empty string or one that needs an escape, a token spelled null, true or false, or a spread of a name that starts with "on" |
| SdlExact.SelExact | ext/agoo/sdl.c:1252-1345 | The same at any depth with more selections, a closing brace or nothing behind it |
| SdlExact.SelNotBack | ext/agoo/sdl.c:1252-1345 | A selection with a bad leaf anywhere never comes back |
| SdlRoundTrip.SelsBack | ext/agoo/sdl.c:1328-1343 | A printed set of selections comes back up to its brace |
| SdlRoundTrip.ArgsBack | ext/agoo/sdl.c:1311-1324 | Printed arguments come back up to their parenthesis |
| SdlExact.ValueExact | ext/agoo/doc.c:332-474 | A printed value with two bytes behind it comes back, and they are left, if and only if no leaf of it is bad |
| SdlExact.ArgsNotBack | ext/agoo/sdl.c:1311-1324 | Arguments with a bad leaf never come back |
| SdlRoundTrip.NumberExact | ext/agoo/doc.c:236-330 | An integer comes back if and only if it is smaller than INT64_MAX in size; any other is refused |
| SdlExact.StringExact | ext/agoo/doc.c:142-171 | A string comes back if and only if it prints without an escape; the empty one reads as what lies behind the byte that follows it, so only if that is nothing and the byte no quote |
| SdlExact.TokenExact | ext/agoo/doc.c:332-474 | A token comes back if and only if it is not spelled null, true or false |
| SdlExact.SpreadExact | ext/agoo/sdl.c:1172-1249 | A spread comes back if and only if its name does not start with "on" |
| TypeTable.Table.Get | ext/agoo/graphql.c:261-277 | Finds what the map holds for the name; a name with hash 0 is never found |
| TypeTable.Table.Set | ext/agoo/graphql.c:305-330 | Maps the name to the type and nothing else, and refuses exactly the names with hash 0 |
| TypeTable.Table.Remove | ext/agoo/graphql.c:333-355 | Unmaps the name and nothing else |
| TypeTable.Table.Create | ext/agoo/graphql.c:361-384 | A new object under a new name; every type stays spelled by its base chain, with its base in the table |
| TypeTable.Table.AssureType | ext/agoo/graphql.c:463-476 | The type of the name, the old one if there is one |
| TypeTable.Table.AssureList | ext/agoo/graphql.c:858-873 | The one list type of the base, although all bracketed names share a hash; no type found before is lost |
| TypeTable.Table.AssureNonNull | ext/agoo/graphql.c:876-891 | The one non-null type of the base |
| TypeTable.Table.ReadType | ext/agoo/sdl.c:203-240 | The type is spelled as it was read, found under that spelling, and the same object whenever the spelling was known before |
| TypeTable.BadName | ext/agoo/graphql.c:56-68 | A name with any byte outside letters, digits and underscore hashes to BAD_NAME |
| TypeTable.OneShape | ext/agoo/graphql.c:858-891 | The name of a type decides whether it is a list or non-null and what its base is called |
| Sha1.Sha1 | ext/agoo/sha1.c:101-148 | The digest is the standard's for every message under 2^29 bytes; for any length it is the standard's function of the padded message with the code's count in the length field |
| Sha1.PaddedExact | ext/agoo/sha1.c:78-86 | The length field is right if and only if the message is under 2^29 bytes |
| Sha1.BumpExact | ext/agoo/sha1.c:83-86 | The count after an update is the number of bits modulo 2^64 if and only if the length is under 2^29 or the low word really carries |
| Sha1.Chunks | ext/agoo/sha1.c:78-99 | Two updates under 2^29 bytes each leave what one update with both leaves, if and only if the one counts right |
| Sha1.AbsorbMore | ext/agoo/sha1.c:87-98 | The hashed blocks and the pending bytes depend only on all the bytes taken, not on how they were cut |
| Sha1.Pad | ext/agoo/sha1.c:121-124 | The padding loop ends after exactly the zeros the standard asks for |
| Sha1.FinalCount | ext/agoo/sha1.c:118-120 | The two count words come out as eight bytes, most significant first |
| Sha1.WriteDigest | ext/agoo/sha1.c:126-147 | The five hash words come out as twenty bytes, most significant first |
| Sha1.Ctx.Transform | ext/agoo/sha1.c:33-76 | Eighty rounds with rotated registers and a sixteen-word schedule in the block compress as section 6.1.2 of FIPS 180-4 does; the block is left with the last sixteen schedule words |
| Sha1.Ctx.Update | ext/agoo/sha1.c:78-99 | Takes the bytes into blocks and pending bytes, although blocks transformed in place are overwritten |
| Sha1.Ctx.Count | ext/agoo/sha1.c:81-86 | The two-word count as the code carries it; the pending length always comes out right |
| Sha1.R | ext/agoo/sha1.c:26-30 | One macro leaves the registers, read rotated, as one standard round does |
| Sha1.Blk | ext/agoo/sha1.c:23-24 | The word for a round, swapped or scheduled, is the standard's, and the sixteen-word ring stays right |
| Sha1.LaterWords | ext/agoo/sha1.c:24 | The ring indexes 13, 8, 2 and 0 ahead are the schedule words 3, 8, 14 and 16 behind |
| Sha1.SwapIsBig | ext/agoo/sha1.c:22-23 | The two-rotation swap of a little-endian load is the big-endian word |
| Sha1.Choose | ext/agoo/sha1.c:26-27 | The choice function as the macros write it is the standard's |
| Sha1.Majority | ext/agoo/sha1.c:29 | So is the majority function |
| Sectime.Time.Sectime | ext/agoo/sectime.c:51-136 | For every 64-bit time whose sum does not overflow, the fields are those of Shown: year, time of day, and month and day by the table the code picks |
| Sectime.ShownExact | ext/agoo/sectime.c:69-117 | The date is the calendar's if and only if the year is not 1, 2 or 3 past a multiple of 400 or the day is before 1 March; otherwise it is one table day behind |
| Sectime.CutYears | ext/agoo/sectime.c:69-112 | The branches cut the year, what is left of the seconds, and the table, right for the leap rule of the code |
| Sectime.Cycle | ext/agoo/sectime.c:61-68 | Whole 400-year cycles put back give the year, day of year and time of day of the calendar |
| Sectime.CycleDays | ext/agoo/sectime.c:14-17 | The cycle constants are the days before each year of a 400-year cycle |
| Sectime.Tables | ext/agoo/sectime.c:19-47 | Both tables are the calendar's month ends |
| Sectime.Time.Month | ext/agoo/sectime.c:114-127 | The search finds the month of the day and what is left of the seconds in it |
| Sectime.Time.Normalize | ext/agoo/sectime.c:61-68 | Times before the year 0 come into range by whole cycles |
| Calendar.DateOf | ext/agoo/sectime.c:51-136 | The reference: the calendar date of a second, valid and with that many seconds |
| Calendar.DateIs | ext/agoo/sectime.c:51-136 | The reference is unique: no other valid date has that many seconds |
| TimeText.RoundTrip | ext/agoo/gqlvalue.c:1524-1545 | A 64-bit nanosecond time comes back from its text if and only if it is not within the second before 1970 and not on 2 March or later in 2001 to 2003 |
| TimeText.ParseFormat | ext/agoo/gqlvalue.c:255-462 | A formatted date and fraction parse to timegm of the fields, the fraction counted away from zero |
| TimeText.InRange | ext/agoo/gqlvalue.c:1465-1478 | The year of every 64-bit nanosecond time has four digits |
| TimeText.ToText | ext/agoo/gqlvalue.c:1465-1478 | The text printed is that of the date shown and the size of the fraction |
| TimeText.TimeParse | ext/agoo/gqlvalue.c:255-462 | The parser step by step agrees with its grammar, zones as the code takes them, an hour that is no number giving 0 |
| TimeText.ParseNanos | ext/agoo/gqlvalue.c:408-461 | The fraction loops agree with the grammar |
| TimeText.ReadDigits | ext/agoo/gqlvalue.c:219-232 | Exactly so many digits, added up |
| WebSocket.DecodeEncode | ext/agoo/websocket.c:82-124 | Decoding a frame with or without mask, in any length form, with anything behind it, gives the payload (sections 5.2 and 5.3 of RFC 6455) |
| WebSocket.CalcLenOnPrefix | ext/agoo/websocket.c:128-164 | On what has arrived of a frame and anything behind it the length is 0 before 3, 5 or 11 bytes and the frame's length from then on |
| WebSocket.Completes | ext/agoo/websocket.c:140-163 | A frame is recognised by its own last byte if and only if it has a mask or a payload |
| WebSocket.ReadFrames | ext/agoo/con.c:769-845 | On a buffer of whole frames the read loop queues the data frames in front as messages, in order and with their payloads; then a last frame with neither mask nor payload stays, whatever it is; it takes a ping or pong that is the last frame, keeps one that is not together with all behind it, and closes on any other frame |
| WebSocket.Drains | ext/agoo/con.c:769-845 | The loop uses up the buffer and keeps the connection if and only if all frames but the last are data frames, and the last is one, a ping or a pong, and has a mask or a payload |
| WebSocket.Stuck | ext/agoo/con.c:794-805 | Once a ping or pong has something behind it nothing is read any more, whatever arrives |
| WebSocket.ReadReceived | ext/agoo/con.c:769-845 | The loop over the buffer agrees with that on messages, pongs, outcome and what is left |
| WebSocket.MaskedBack | ext/agoo/websocket.c:105-115 | Masking twice with a key is nothing |
| WebSocket.Expand | ext/agoo/websocket.c:57-79 | The text becomes the unmasked frame of its contents in the least length form |
| WebSocket.Decode | ext/agoo/websocket.c:82-124 | The payload, unmasked in place, ends up at the front with a NUL behind it; what followed the frame is untouched |
| WebSocket.Unmask | ext/agoo/websocket.c:113-115 | The loop masks the payload and nothing else |
| WebSocket.CalcLength | ext/agoo/websocket.c:128-164 | The code computes CalcLen of the bytes received |
| WebSocket.EightBytes | ext/agoo/websocket.c:74-76 | The shift loop writes the length in eight bytes, most significant first |
| Responses.InOrder | ext/agoo/con.c:666-738 | In every run of appends, early hints, final messages and partial writes the bytes on the wire are a prefix of the messages given, response after response in request order, and all of them when no response is left |
| Responses.RunInv | ext/agoo/con.c:132-168 | Every step keeps the wire, the head's progress and each response's messages in agreement with what was asked |
| Responses.StepInv | ext/agoo/con.c:666-738 | One step keeps the account of the wire |
| Responses.StepAgrees | ext/agoo/res.c:62-138 | One step keeps each response holding exactly the messages given up to its first final one |
| Responses.WirePrefix | ext/agoo/con.c:666-738 | The wire is a prefix of what the responses hold |
| ResponseList.Con.Append | ext/agoo/con.c:132-141 | The response goes last; head and tail pointers stay right |
| ResponseList.Con.Prepend | ext/agoo/con.c:144-152 | The response goes first; head and tail pointers stay right |
| ResponseList.Con.Pop | ext/agoo/con.c:155-168 | The first response comes out, or NULL from an empty list |
| ResponseList.Con.HttpWrite | ext/agoo/con.c:666-738 | Pop, partial send, next message and prepend together are one write step of the machine; it asks to close exactly after a closing response |
| ResponseList.Res.MessagePush | ext/agoo/res.c:62-80 | The message goes last and ends the response; after the end it is dropped |
| ResponseList.Res.AddEarly | ext/agoo/res.c:96-109 | The hints go last; after the end they are dropped |
| ResponseList.Res.MessageNext | ext/agoo/res.c:124-138 | The first message goes and the next shows |
| FanOut.ExactlyOnce | ext/agoo/server.c:377-387 | In every interleaving a connection still attached has been given exactly the publications that reach it among those its loop has acted on, each by the subscriptions acted on before it, in that order and nothing twice; of each publisher the loop has acted on a prefix of what it published, and on all of it once everything drained |
| FanOut.InOrder | ext/agoo/con.c:1004-1101 | When one publisher makes all changes to the subscriptions of a connection, or there are none, the connection has been given a prefix of what that publisher published for it, in order, and exactly all of it once everything drained |
| FanOut.Commute | ext/agoo/con.c:1081-1094 | What such a publisher publishes is delivered by its own order alone |
| FanOut.ReferenceSafety | ext/agoo/upgraded.c:38-55 | In every run the count of an upgraded connection is the number of its holders and of the references lost, it is destroyed at most once, and never while anything holds it or a reference to it was lost |
| FanOut.LastHolder | ext/agoo/upgraded.c:38-55 | When the last holder goes the object is destroyed if and only if no reference was ever lost and the step is no plain decrement |
| FanOut.Leak | ext/agoo/rupgraded.c:165-174 | A run in which the connection goes while the application asks for the pending count and nobody destroys the object |
| FanOut.LeakEnv | ext/agoo/rupgraded.c:286-294 | A run in which the application asks for the environment, the connection goes, and nobody destroys the object |
| FanOut.LeakRequest | ext/agoo/rserver.c:734-738 | A run in which a request is dropped without a hook, or its handler raises, the connection goes, and nobody destroys the object |
| FanOut.NeverDestroyed | ext/agoo/upgraded.c:38-55 | Once a reference is lost the object is never destroyed, whatever happens afterwards |
| FanOut.StepRef | ext/agoo/upgraded.c:38-55 | Every step changes the count as it changes holders and lost references |
| FanOut.StepOrderInv | ext/agoo/con.c:1035-1101 | Every step keeps what arrived at each loop in agreement with what each publisher sent there, and what was delivered with what was acted on |
| FanOut.ArrivedNext | ext/agoo/server.c:377-387 | Only a push adds to what has arrived at a loop |
| FanOut.StepDelivered | ext/agoo/con.c:1004-1101 | Acting on a publication delivers it to the attached connections of the loop with a covering pattern and changes the patterns of its own connection, and no step does otherwise |
| UpgradedList.Server.AddUpgraded | ext/agoo/server.c:337-348 | The object goes first in the doubly linked list |
| UpgradedList.Server.Destroy | ext/agoo/upgraded.c:14-36 | The object is unlinked wherever it stands; the rest of the list is as before |
| UpgradedList.Server.Release | ext/agoo/upgraded.c:39-45 | One reference less, and unlinked exactly if it was the last |
| UpgradedList.Server.ReleaseCon | ext/agoo/upgraded.c:48-55 | The same with the connection cut first |
| UpgradedList.Server.Publish | ext/agoo/server.c:377-387 | Every loop's queue gets the publication once, and the count grows by one for each copy |
| UpgradedList.Server.Dup | ext/agoo/pub.c:95-116 | A copy holds a reference of its own |
| PageCache.AlphabetExact | ext/agoo/page.c:149-163 | Skipping the comparison of keys of up to nine bytes is safe on an alphabet of consecutive bytes if and only if it has no more than 77 |
| PageCache.ShortInjective | ext/agoo/page.c:149-163 | On such an alphabet equal hashes of equally long short keys mean equal keys, with no wrap in 64 bits |
| PageCache.HashIsPoly | ext/agoo/page.c:149-163 | The wrapped hash is the base-77 number modulo 2^64 |
| PageCache.MatchesIs | ext/agoo/page.c:209-213 | The test on a slot finds exactly the keys of the same length and hash and, beyond nine bytes, the same C string |
| PageCache.IdExact | ext/agoo/page.c:209-213 | On NUL-free keys whose short ones use only bytes 0x2D to 0x79 that is exactly the key, so the table is a map on them |
| PageCache.Confused | ext/agoo/page.c:209-213 | "b-" finds what is stored under "az" |
| PageCache.Cache.Get | ext/agoo/page.c:201-234 | Gives what the map holds, for every key |
| PageCache.Cache.Set | ext/agoo/page.c:279-313 | Maps the key, and the keys the test cannot tell from it, to the value and nothing else, and gives back what was there; a key over 1024 bytes changes nothing |
| PageCache.Cache.Remove | ext/agoo/page.c:741-764 | Unmaps the C string of the path, and the keys the test cannot tell from it, and nothing else |
| PageCache.SameIs | ext/agoo/page.c:210 | On keys of one length strncmp is equality of the C strings |
| PageCache.StoredIs | ext/agoo/page.c:303-308 | The copy of a key that is stored is the same C string |

## Left out

- RingQueue.Fifo: steps are sequentially consistent, as the C atomics default to; wakeup pipes, `wait_state` and the sleep
  lengths are not modelled, and a pop may give up at any test that finds the queue empty.
- Queue.Queue.Push: asks for room; waiting for room is a step of `RingQueue`.
- LogRing.Untorn: the text of a line is one field wherever it is stored, and the writer reads an entry once, not once for each
  sink; rotation, the sinks, the direct write before the writer starts, and the free of the ring after close are not modelled.
- LogFlush.FlushExact: the flush is one round of its loop; its time limit and `fflush` are not modelled.
- GqlEval.Inlining: the resolver is deterministic and without effect; introspection fields fail in the model, and argument
  conversion is part of the abstract call. Directives on fields are not consulted, as in the code.
- GqlEval.EvalLoop: the object a resolver fills is appended when it is complete, not before it is filled.
- JsonReader.Reader.ParseNumber: numbers with a fraction or exponent are a separate outcome without a value.
- JsonPrinter.ValueJson: an indent whose padding runs past the 256 bytes of the constant reads outside it in C; not modelled.
- JsonRoundTrip.RoundTrip: values stay within the 256 bytes of padding, and NULL string pointers and floats are not values
  of the model.
- SdlExact.RoundTrip: selections without variables and directives, whose inline fragments name a type.
- SdlReader.Doc.ReadVal: variables, fractions and block strings are a separate outcome without a value, and so is a list the
  reader would loop in for ever without reading anything.
- SdlReader.Doc.ReadNum: past 19 digits the C accumulator may overflow; the model refuses the number.
- SdlReader.Doc.MakeSel: directives on selections are a separate outcome without a value, and arguments are literals.
- SdlReader.Doc.SkipSpace: a comment that nothing ends runs to the end of the document, not past it.
- TypeTable.Table.ReadType: a type object is a value with an address; later changes to its kind and contents, and types set
  or removed from outside while list types still point at them, are not part of the interning theorem.
- TypeTable.Table.Create: only for a name that is not in the table; filling in an undefined type and refusing a defined one
  (`ext/agoo/graphql.c:385-399`) change or report the object and leave the table as it is.
- TypeTable.Table.AssureType: names as `read_name` gives them, under 256 bytes and of token bytes.
- Sha1.Sha1: messages under 2^61 bytes, the standard's own limit.
- Sectime.Time.Sectime: the sum at `ext/agoo/sectime.c:61` must not overflow.
- TimeText.TimeParse: results beyond 64 bits do not wrap. `timegm` is the calendar function it documents.
- WebSocket.Decode: called on a whole frame; reading a partly received one (`ext/agoo/con.c:817-840`) is not modelled.
- WebSocket.ReadFrames: for a connection with a handler and no GraphQL subscription; a message that has only partly arrived
  is an outcome of its own, without a value.
- Responses.InOrder: a write is one step with any number of bytes sent; the returns on EAGAIN and on errors, after which the
  popped response is lost, are left out, and so is a push to a response already destroyed and used again.
- ResponseList.Con.HttpWrite: called with a message at the head, as the loop does, and with a send that succeeds.
- ResponseList.Res.AddEarly: the text of the hints is a parameter.
- FanOut.ExactlyOnce: whether a pattern covers a subject is abstract; connections are attached from the start, each with some
  patterns. The queues are those of `RingQueue`, here as sequences.
- FanOut.StepDelivered: acting on a subscribe or unsubscribe whose connection has gone reads through a NULL pointer in C
  (`ext/agoo/con.c:1083`, `ext/agoo/con.c:1089`); the machine passes over it.
- FanOut.ReferenceSafety: a lock and what it guards are one step; the text of a message is not counted.
- PageCache.Cache.Set: running out of memory is not modelled, here and everywhere.
- HTTP request framing, TLS, sockets, file reads, page contents, header rules and mime types.
- Subject patterns: how a subscription matches a subject.
- Hook matching, URL parsing, base64, UUIDs, floats and the remaining value conversions.
- The rest of the SDL grammar: schema definitions, operations, fragment definitions and variables.
