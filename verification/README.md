# Data structures and protocols of json-c and libevent, verified

A Dafny model of the parts of this repository that carry real algorithms: the byte
queue, the DNS codec and its request queues, common timeouts, rate limiting, the tag
codec and the RC4 generator of libevent 2.0.22, and the tokener, printer, object tree
and hash table of json-c 0.11. `dafny verify dfyconfig.toml` checks all of it.

Code that changes things step by step is modelled by classes and methods with loops;
each method is tied to a function of the values before and after, and the lemmas are
about those functions. Linked structures (chains of an evbuffer, requests and servers on
circular lists, json objects) live in explicit memories, maps from addresses to records,
so that contracts can also say that nothing leaks, nothing freed is used, and the memory
of others does not change. Machine sizes are those of a 64-bit build; wrap-around and
truncation are written out where they matter.

| module | models |
|---|---|
| EvBuffers, EvBufferSearch, EvBufferRuns | the byte queue as a chain list, searching and line reading, whole runs on two buffers |
| DnsNames, DnsTrails | names with label compression (section 4.1.4 of RFC 1035), encoder and decoder, and what the decoder makes of any packet |
| Rings, Nameservers, DnsRequests | circular lists, the round-robin picker, inflight and waiting requests |
| Json, JsonMachine, JsonTokener, JsonChunks, JsonEscapes, JsonSpelling, JsonSplits | values, the tokener byte by byte, the tokener as written, resuming, escapes, where a text may be cut |
| JsonBlanks, JsonReading, JsonGrammar | white space and comments, and the syntax the tokener reads, with its meaning |
| JsonErrors, JsonBroken | where a text stops being one, and with which error |
| JsonPrint, JsonLayout, JsonRoundTrip, PrintBufs | printing into a growing buffer, how printed text is laid out, and reading back |
| JsonOwnership, JsonOwnedParse | reference counts of the object tree, and who owns what during a parse |
| LinkHash, ArrayLists, Int64Parse | hash table, growing array, saturating integer parser |
| Timeouts | event queues, per-duration lists and their timers; the heap is a set with a first element |
| TokenBucket, RateLimits | token arithmetic, bufferevents and groups that wait for tokens |
| Tagging | tagged records |
| Arc4 | RC4 state and bounded draws |
| Bytes, Wrappers | bytes, machine sizes and the memory functions of C; optional values |

Where the code departs from what its comments or callers expect, the model follows the
code and a contract says what happens:

- evbuffer_prepend counts only the bytes that fitted in front of the first chain, and a
  request too large to allocate fails with that part already added (EvBuffers.EvBuffer.Prepend
  and, on a new buffer, FailedPrependAdds).
- A comment closed by `**/` stays open (JsonBlanks.StarsStaySilent; CommentEnds says what
  closes a comment), and the C string `[1/*` parses to 1 (JsonRoundTrip.InnerValueAccepted).
  JsonChunks.SuccessIsWhole says exactly when a success returns such an inner value.
- The surrogate tests of the tokener ignore the bits above 15, so some pairs do not come
  out as their code point; JsonEscapes.PairDecoded gives the exact condition and
  JsonRoundTrip.MaskedPair an input.
- A pair cut by the end of a piece becomes two replacements (JsonRoundTrip.BrokenPair);
  JsonSplits.SplitExactly says exactly where a text may be cut. A piece that ends just
  before the digits of the second half leaves a digit count of four, from which the code
  would shift by a negative amount; that state is outside the machine.
- The update of a token bucket is exact for limits up to the maximum; above it, TokenBucket.RefillExact
  says exactly when it still is, and RateLimits.Bufferevent.OverfullGrows shows a run where it is not. Such
  an update can even take the last token of a direction that nothing suspends: TokenBucket.StaysPositive
  says exactly when, and RateLimits.Bufferevent.OverfullSinks shows it.
- lh_table_resize to a size that its entries overload lets the new table grow on the way and then
  records the size asked for; LinkHash.LhTable.Resize says exactly when. Insertions only ever double.
- A group whose smallest share is zero is released with an empty bucket (RateLimits.Group.Refill
  and EmptyBucketReleased).
- The comment on top of event_tagging.c describes nibbles and tag bits from the highest
  down; the code writes the lowest first.

## Model

| member | source | states |
|---|---|---|
| EvBuffers.EvBuffer.constructor | libevent-2.0.22-stable/buffer.c:348-361 | A new buffer holds nothing and its pointers are those of an empty list. |
| EvBuffers.Arena.ChainNew | libevent-2.0.22-stable/buffer.c:154-189 | A chain for at least the size asked for: 1024 bytes doubled as often as needed, header included, or just what is needed from half the limit on; NULL exactly when the request is larger than a chain can be. |
| EvBuffers.FreeAllChains | libevent-2.0.22-stable/buffer.c:237-246 | Freeing a list releases exactly its chains and touches no other memory. |
| EvBuffers.EvBuffer.ChainInsert | libevent-2.0.22-stable/buffer.c:290-319 | A chain goes to the end of the list in place of trailing empty ones; `last` and `last_with_datap` address the right links afterwards, and the replaced chains are freed. |
| EvBuffers.EvBuffer.FreeTrailingEmpty | libevent-2.0.22-stable/buffer.c:272-284 | Trailing chains without data go, nothing with data does, and the address that will hold the next chain is returned. |
| EvBuffers.EvBuffer.AdvanceLastWithData | libevent-2.0.22-stable/buffer.c:653-667 | `last_with_datap` ends on the link to the last chain with data. |
| EvBuffers.EvBuffer.Add | libevent-2.0.22-stable/buffer.c:1543-1634 | Appends the data, or fails and changes nothing; when it fails, exactly; the callback counter counts what was added; memory of others is untouched. |
| EvBuffers.EvBuffer.Prepend | libevent-2.0.22-stable/buffer.c:1636-1717 | Prepends the data when it succeeds. A request too large to allocate fails with the part that fitted already in front, and the callback counter counts only that part: both are stated as the code has them. |
| EvBuffers.EvBuffer.FailedPrependAdds | libevent-2.0.22-stable/buffer.c:1636-1717 | A new buffer, one byte and then a request above the limit: -1, and the buffer has grown. |
| EvBuffers.EvBuffer.Drain | libevent-2.0.22-stable/buffer.c:958-1027 | Drops the first len bytes (all, if fewer), keeps the list invariant when whole chains go, and counts what was dropped. |
| EvBuffers.EvBuffer.Copyout | libevent-2.0.22-stable/buffer.c:1043-1091 | Copies the first bytes, across chains, and removes none. |
| EvBuffers.EvBuffer.Remove | libevent-2.0.22-stable/buffer.c:1029-1041 | Copies out and drops the same bytes; the count passes through an int. |
| EvBuffers.AsInt32Is | libevent-2.0.22-stable/buffer.c:1029-1041 | The conversion of the count to an int of 32 bits. |
| EvBuffers.EvBuffer.AddBuffer | libevent-2.0.22-stable/buffer.c:866-910 | All bytes of the other buffer move behind this one's, as chains, none copied or lost, or nothing changes. |
| EvBuffers.EvBuffer.PrependBuffer | libevent-2.0.22-stable/buffer.c:912-956 | The same in front. |
| EvBuffers.EvBuffer.RemoveBuffer | libevent-2.0.22-stable/buffer.c:1093-1181 | The first n bytes move to the other buffer's end: whole chains relinked, the rest copied; both lists stay well formed and disjoint. |
| EvBuffers.EvBuffer.Pullup | libevent-2.0.22-stable/buffer.c:1183-1293 | The contents do not change; the returned chain is the first and holds the n bytes asked for in one piece; NULL exactly when there are not that many. |
| EvBuffers.QueueEnds | libevent-2.0.22-stable/evbuffer-internal.h:84-97 | What the list invariant says of `first`, `last` and the cached length: empty together, no empty chain unless it is the only one, the last one ends the list. |
| EvBuffers.MoveQueue | libevent-2.0.22-stable/buffer.c:1123-1154 | Relinking the first k chains of one list behind another splits the bytes at the right place and leaves two well-formed lists and all other memory. |
| EvBuffers.PulledQueue | libevent-2.0.22-stable/buffer.c:1236-1286 | The list made of the pulled-up chain and what is left of the others holds the same bytes. |
| EvBufferRuns.RunCalls | libevent-2.0.22-stable/buffer.c:820-1293 | Any run of additions, drains, removals, copies, searches, line reads, pull-ups and moves on two buffers does to their contents what it does to two byte sequences, and every call answers as these do: the return code, the bytes taken, copied or, by a pull-up, in one piece in front, the position found, the line. Foreign memory stays as it is and no chain leaks. |
| EvBufferRuns.PipeKeepsOrder | libevent-2.0.22-stable/buffer.c:1093-1181 | Bytes added to one buffer, moved to another and taken there, as blocks or lines, come out in order, none lost or doubled, whatever else looks at them. |
| EvBufferSearch.SetPtr | libevent-2.0.22-stable/buffer.c:2449-2497 | A position moved or set addresses the byte at that offset, for every fragmentation; a move past the end is refused. |
| EvBufferSearch.PtrMemcmp | libevent-2.0.22-stable/buffer.c:2500-2534 | Comparing across chains is comparing the flattened bytes: the sign is that of the first byte that differs, and -1 stands for bytes that are not there. |
| EvBufferSearch.SearchRange | libevent-2.0.22-stable/buffer.c:2542-2605 | The first occurrence at or after start that ends by end, and a valid position; -1 exactly when there is none. The end may be a position without a chain. |
| EvBufferSearch.FindEolChar | libevent-2.0.22-stable/buffer.c:1327-1352 | The first CR or LF of a piece. |
| EvBufferSearch.SpanEol | libevent-2.0.22-stable/buffer.c:1376-1413 | The longest run of CR and LF at a position, across chains. |
| EvBufferSearch.SearchEol | libevent-2.0.22-stable/buffer.c:1425-1498 | The first line ending of the chosen style, its length, and a valid position on it; -1 and length 0 exactly if there is none or the start has no chain. |
| EvBufferSearch.SearchCrlf | libevent-2.0.22-stable/buffer.c:1449-1479 | The first LF, together with a CR before it if there is one, and a valid position; -1 and length 0 exactly if there is none or the start has no chain. |
| EvBufferSearch.Readln | libevent-2.0.22-stable/buffer.c:1500-1537 | The contents split into line, terminator and rest, the terminator being the first of its style, and the counter counts both as removed; without one, nothing changes. |
| LinkHash.LhTable.constructor | json-c-0.11/linkhash.c:57-77 | A new table is the empty map. |
| LinkHash.LhTable.LookupEntry | json-c-0.11/linkhash.c:158-174 | Probing past tombstones and around the end finds the slot of a key exactly if the key is present. |
| LinkHash.LhTable.Insert | json-c-0.11/linkhash.c:124-155 | A new key goes to the end of the list; the table doubles exactly if 100 times the entries are at least 66 times the size, which keeps contents and order, and the size stays otherwise. |
| LinkHash.LhTable.Resize | json-c-0.11/linkhash.c:91-109 | Every entry is inserted into the new table, in list order. The result is a sound table exactly if none of these insertions resizes that table again, which is so exactly if one entry less than there are is below the load limit of the new size. |
| LinkHash.LhTable.DeleteEntry | json-c-0.11/linkhash.c:194-220 | -2 in front of the table and -1 for a slot without an entry, nothing changed; otherwise one entry leaves the map, a tombstone stays, the others keep their order, and the entry handed to the free function is the deleted one. |
| LinkHash.LhTable.Delete | json-c-0.11/linkhash.c:223-228 | -1 exactly for an absent key. |
| LinkHash.LhTable.ObjectAdd | json-c-0.11/json_object.c:374-391 | A known key keeps its place and gets the new value, the old one is released; a new key goes to the end. |
| LinkHash.LhTable.Traverse | json-c-0.11/linkhash.c:91-109 | Following the list from its head meets exactly the live entries in first-insertion order. |
| LinkHash.FoundAfterAdded | json-c-0.11/json_object.c:374-391 | A lookup after an addition finds the value added, and for other keys what it found before. |
| LinkHash.AddedOrder | json-c-0.11/json_object.c:374-391 | Additions keep the order of first insertion. |
| LinkHash.FoundAfterRemoved | json-c-0.11/linkhash.c:194-228 | A lookup after a deletion fails for that key and is unchanged for others. |
| LinkHash.Run | json-c-0.11/linkhash.c:124-228 | Any run of additions, deletions and lookups agrees with an insertion-ordered map throughout, in its entries and in every answer: the value displaced, whether the key was there, and its value, NULL included. |
| DnsNames.NameParse | libevent-2.0.22-stable/evdns.c:943-997 | The decoder terminates on every packet, copies labels with dots, follows at most `length` pointers and ends behind the first pointer; it fails exactly when the walk over the packet does or the name does not fit. |
| DnsTrails.ReadsTrail | libevent-2.0.22-stable/evdns.c:943-997 | For every packet, whatever it holds, the decoder reads exactly what stands along the way from the index over labels and pointers to a zero; it fails exactly if that way leaves the packet or has no end, so the limit on pointers rejects only loops. |
| DnsNames.LabelTable.GetPos | libevent-2.0.22-stable/evdns.c:1545-1554 | -1 exactly if no entry equals the suffix; otherwise the position of the first entry that does. |
| DnsNames.FindFirst | libevent-2.0.22-stable/evdns.c:1545-1554 | The same of the function the encoding is stated with: -1 exactly without an entry, otherwise what the first one says. |
| DnsNames.LabelTable.Add | libevent-2.0.22-stable/evdns.c:1557-1570 | The entry is remembered unless the table is full. |
| DnsNames.FullTable | libevent-2.0.22-stable/evdns.c:1557-1570 | 128 entries fill a table; what comes then is forgotten. |
| DnsNames.DnsnameToLabels | libevent-2.0.22-stable/evdns.c:1585-1651 | The return value and the bytes written, for every name and table; exactly the suffixes spelled out enter the table; the closing zero is written without a check. |
| DnsNames.EncodedCompressed | libevent-2.0.22-stable/evdns.c:1585-1651 | A name is written as the labels in front of its longest suffix, at a label boundary, that the table knows, and two pointer bytes to where the table has it; without one, as all its labels and a zero. |
| DnsNames.NewEntriesAre | libevent-2.0.22-stable/evdns.c:1608-1612 | Exactly the suffixes that were spelled out are remembered, each at the index where it stands. |
| DnsNames.NewEntriesOrder | libevent-2.0.22-stable/evdns.c:1608-1612 | They enter the table from the longest to the shortest. |
| DnsNames.OutcomeIs | libevent-2.0.22-stable/evdns.c:1585-1651 | The result is the index behind that encoding, if its labels have fewer than 64 bytes and it fits, and the error otherwise; the zero behind the last label may stand at the end of the buffer. |
| DnsNames.PointerExact | libevent-2.0.22-stable/evdns.c:1600-1606 | A pointer leads back to its position exactly if that is below 2^14. |
| DnsNames.EncodedDecodes | libevent-2.0.22-stable/evdns.c:943-997 | An encoding whose pointers lead back into a sound part of the packet decodes to its name and ends where the encoding ends, within the jump limit (section 4.1.4 of RFC 1035). |
| DnsNames.NewEntriesSound | libevent-2.0.22-stable/evdns.c:1557-1570 | Every entry added while a name is written decodes to the suffix it stores. |
| DnsNames.NameAppended | libevent-2.0.22-stable/evdns.c:1585-1651 | After one more name the whole table is still sound, and the name decodes at its start. |
| DnsNames.WritePacket | libevent-2.0.22-stable/evdns.c:1585-1651 | Any list of names and other bytes written with one table: the items lie one behind the other from 0 to the result; every name is compressed as EncodedCompressed says with the table of what stands before it, decodes from its start to itself and ends where its encoding ended, and other bytes stand as given. The result is the end of the last item, or the error of the first one that does not fit or is no name. |
| DnsNames.ReadName | libevent-2.0.22-stable/evdns.c:943-997 | On such a packet the decoder returns the very name exactly if its labels are proper. |
| Int64Parse.ParseInt64 | json-c-0.11/json_util.c:179-264 | The value clamped to 64 bits, for every optional minus and digits, with a correct sscanf and with any that is right in range and not zero out of range. |
| Int64Parse.Recheck | json-c-0.11/json_util.c:205-247 | The comparison of printed digits succeeds exactly when the scanned number is the one in the text. |
| Int64Parse.DigitsValue | json-c-0.11/json_util.c:205-220 | Digits without leading zeros are the printed form of their value. |
| PrintBufs.PrintBuf.Extend | json-c-0.11/printbuf.c:58-77 | The contents stay. Room that does not suffice becomes the larger of twice the old and what is asked for and 8 bytes more. |
| PrintBufs.PrintBuf.MemAppend | json-c-0.11/printbuf.c:79-89 | Appends, and keeps a NUL behind the contents. |
| PrintBufs.PrintBuf.MemSet | json-c-0.11/printbuf.c:91-109 | Overwrites or extends with a byte; a gap before a later offset is whatever was there. |
| ArrayLists.ArrayList.Expand | json-c-0.11/arraylist.c:60-72 | Keeps the contents; unused room is NULL. Unless it is larger than what is asked for, it becomes the larger of that and twice the old. |
| ArrayLists.ArrayList.PutIdx | json-c-0.11/arraylist.c:74-82 | Stores at an index, freeing what was there; a store past the end leaves NULLs between. |
| ArrayLists.ArrayList.Add | json-c-0.11/arraylist.c:84-88 | Appends. |
| ArrayLists.ArrayList.GetIdx | json-c-0.11/arraylist.c:53-58 | The element, or NULL past the end. |
| Json.EntriesAdd | json-c-0.11/json_object.c:374-391 | The members of an object value change as the entries of the hash table do. |
| JsonMachine.MicroKeeps | json-c-0.11/json_tokener.c:257-760 | Every case of the switch keeps the states of the stack well formed, reports success only at the top, and repeats on a byte only while it makes progress. |
| JsonMachine.Redo | json-c-0.11/json_tokener.c:257-760 | One byte is always consumed or ends the parse: the switch is never repeated for ever. |
| JsonMachine.FeedConcat | json-c-0.11/json_tokener.c:257-760 | Feeding a text is feeding its parts. |
| JsonMachine.RunFrom | json-c-0.11/json_tokener.c:241-787 | Only what follows the read position matters. |
| JsonMachine.SpacesAre | json-c-0.11/json_tokener.c:265 | White space is the six bytes of isspace in the C locale. |
| JsonMachine.NumberCharsAre | json-c-0.11/json_object.c:43 | The characters of a number, as the source lists them. |
| JsonTokener.ObjIrrelevant | json-c-0.11/json_tokener.c:335-340 | A finished value is used on the same byte or never. |
| JsonTokener.FourthOn | json-c-0.11/json_tokener.c:468-565 | What the fourth digit of an escape leads to: a character, a replacement, or waiting for the other half of a pair. |
| JsonTokener.Tokener.EatSpace | json-c-0.11/json_tokener.c:262-276 | The white-space loop does what the machine does byte by byte. |
| JsonTokener.Tokener.StartValue | json-c-0.11/json_tokener.c:278-333 | Which value a byte begins. |
| JsonTokener.Tokener.FinishValue | json-c-0.11/json_tokener.c:335-340 | A finished value goes to the level below. |
| JsonTokener.Tokener.Word | json-c-0.11/json_tokener.c:342-357 | null, true and false in any case, with the read-ahead by one byte the code has. |
| JsonTokener.Tokener.BlockComment | json-c-0.11/json_tokener.c:371-384 | The copying loop of a block comment is the machine's run over the same bytes. |
| JsonTokener.Tokener.LineComment | json-c-0.11/json_tokener.c:386-400 | The same for a line comment. |
| JsonTokener.Tokener.Text | json-c-0.11/json_tokener.c:412-435 | The same for strings and, at lines 690-713, field names. |
| JsonTokener.Tokener.EscapeLetter | json-c-0.11/json_tokener.c:437-466 | The one-letter escapes, and the start of a numeric one. |
| JsonTokener.Tokener.Unicode | json-c-0.11/json_tokener.c:468-566 | The nested loops over escape digits, with surrogate pairs looked for two bytes ahead, are the machine's run over the same bytes. |
| JsonTokener.Tokener.NumberText | json-c-0.11/json_tokener.c:593-625 | The number loop, and the conversion of what it collected. |
| JsonTokener.Tokener.ArrayCase | json-c-0.11/json_tokener.c:627-667 | The array states, with the depth limit and strict mode. |
| JsonTokener.Tokener.ObjectCase | json-c-0.11/json_tokener.c:669-758 | The object states but the field name. |
| JsonTokener.Tokener.ParseEx | json-c-0.11/json_tokener.c:241-787 | Value, error, position and the state left behind are those of the machine's run, for every text and every state a parse can be resumed in. |
| JsonTokener.Tokener.Reset | json-c-0.11/json_tokener.c:123-143 | Every level is as new and the error is success; the offset stays. |
| JsonChunks.ContinueIff | json-c-0.11/json_tokener.c:219-235 | A piece reports `continue` exactly when the machine did not stop in it and no value is complete at the top. |
| JsonChunks.TwoPieces | json-c-0.11/json_tokener.c:219-235 | Resuming after a piece that reported `continue` equals feeding both pieces at once, where the first does not end inside a surrogate pair; JsonSplits.SplitExactly shows that this is exact. |
| JsonChunks.AllPieces | json-c-0.11/json_tokener.c:219-235 | The same for any number of pieces. |
| JsonChunks.SuccessIsWhole | json-c-0.11/json_tokener.c:763-787 | A success returns an inner value exactly if the text is fed up to a comment behind a complete value inside a container and a NUL stands there; any other success has no level open. |
| JsonChunks.WholeWithoutNul | json-c-0.11/json_tokener.c:763-787 | A text without NUL that succeeds has been read as a whole value. |
| JsonChunks.ContinueGoesOn | json-c-0.11/json_tokener.c:219-235 | After `continue` the tokener can be fed again exactly if the text did not end just before the digits of the second half of a surrogate pair. |
| JsonChunks.ParsePieces | json-c-0.11/json_tokener.c:241-787 | Calling the tokener piece by piece ends in the state, value and error of the whole text. |
| JsonEscapes.FourDigits | json-c-0.11/json_tokener.c:468-566 | Four hex digits stand for their number, and become its UTF-8 bytes, a replacement, or a pending high surrogate. |
| JsonEscapes.HexExactly | json-c-0.11/json_tokener.c:473-475 | The hex digits are exactly the bytes of 0123456789abcdefABCDEF, byte k with the value k, or k - 6 for the capitals. |
| JsonEscapes.EscapeReads | json-c-0.11/json_tokener.c:468-492 | Any four digits of that table, read in an escape, are taken as the number whose nibbles they spell, small or capital. |
| JsonEscapes.PairDecoded | json-c-0.11/json_tokener.c:494-533 | A pair becomes the code point it encodes; exactly if its low sixteen bits do not look like a surrogate, as the masks test bits 10 to 15 only. |
| JsonEscapes.SplitPair | json-c-0.11/json_tokener.c:500-515 | A pair whose first half was read before the end of a piece becomes two replacement characters. |
| JsonEscapes.Utf8Reads | json-c-0.11/json_tokener.c:485-560 | The bytes written for a code point are well-formed UTF-8 of just that code point. |
| JsonSpelling.EscapedChar | json-c-0.11/json_tokener.c:468-492 | The text of a string of one escape, however its digits are spelled, parses to the well-formed UTF-8 of that number, unless it is a surrogate. |
| JsonSpelling.EscapedPair | json-c-0.11/json_tokener.c:494-533 | The text with the two UTF-16 escapes of a code point from 0x10000 on parses to its UTF-8, exactly if its low sixteen bits do not look like a surrogate. |
| JsonEscapes.AnyPieces | json-c-0.11/json_tokener.c:219-235 | For texts without an escape of a high surrogate every way of cutting them gives the same result. |
| JsonSplits.SplitExactly | json-c-0.11/json_tokener.c:468-566 | A text may be cut behind a piece that reported `continue` with exactly the results of the whole, whatever follows, if and only if the piece does not end inside a surrogate pair; with the same error, value, offset and, short of an error, tokener, if and only if it does not, or the digits after the first half already rule out a second. |
| JsonBlanks.CommentEnds | json-c-0.11/json_tokener.c:371-410 | A block comment without NUL is closed by the first slash behind an odd run of stars, taken as long as it is, and by nothing before it; up to there all of it is copied. |
| JsonBlanks.StarsStaySilent | json-c-0.11/json_tokener.c:402-410 | A comment is closed by stars and a slash exactly if the number of stars is odd, so `**/` does not close one. |
| JsonBlanks.LineEnds | json-c-0.11/json_tokener.c:386-400 | A line comment is closed by the first newline and by nothing before it. |
| JsonBlanks.FeedBlank | json-c-0.11/json_tokener.c:262-410 | White space and comments of both kinds, any number of them, leave the tokener as it was but for its scratch text. |
| JsonReading.WordsAre | json-c-0.11/json_tokener.c:52-54 | The words are null, true and false, each letter in either case. |
| JsonGrammar.ReadSyntax | json-c-0.11/json_tokener.c:257-760 | A value written with any blanks, comments, quotes, letter case, escapes and numbers, in any context, is read as what it means, or found too deep exactly when its containers nest too deeply. |
| JsonGrammar.Accepts | json-c-0.11/json_tokener.c:241-787 | Every text of that syntax, as a C string, parses to its meaning, a repeated key keeping its place and taking the last value, if it fits the depth limit, and gives the depth error if not. |
| JsonErrors.ViablePrefix | json-c-0.11/json_tokener.c:627-758 | Behind every text that can still become a value within the depth limit, a byte is consumed exactly if it can go on with it; any other byte, or the end of the text, is an error at its own offset: which one, for every place in an array or object and in strict mode; blanks, comments and what a number before it still takes are the business of FeedBlank and ReadSyntax. |
| JsonErrors.BeginsOr | json-c-0.11/json_tokener.c:278-333 | A value begins with exactly a bracket, a quote, a digit or minus, or one of n, t and f; any other byte is unexpected. |
| JsonBroken.BrokenValue | json-c-0.11/json_tokener.c:342-625 | In any context, inside a word, a number, or an escape of quoted text, a byte is consumed exactly if it can go on with it; any other byte, or the end of the text, is an error at its own offset, one further for a NUL among the digits of an escape, and which error is stated. |
| JsonPrint.EscapeStr | json-c-0.11/json_object.c:90-131 | Copying in runs gives the escaped text. |
| JsonRoundTrip.EscapesAre | json-c-0.11/json_object.c:90-131 | The printed form of each byte: eight have a letter behind a backslash, the other ones below 32 have \u00 and two small hex digits, and the rest stand for themselves. |
| JsonPrint.PrintObject | json-c-0.11/json_object.c:293-337 | The members in order with the separators and indentation of the flags. |
| JsonPrint.PrintArray | json-c-0.11/json_object.c:682-722 | The same for arrays. |
| JsonPrint.PrintJson | json-c-0.11/json_object.c:432-475 | The printed form of every value, appended to the buffer. |
| JsonPrint.ToJsonString | json-c-0.11/json_object.c:260-281 | The whole printed form. |
| JsonLayout.Layout | json-c-0.11/json_object.c:283-337 | In front of every byte outside quoted text stand exactly these blanks: if pretty, a newline and two spaces for each open bracket where an element or closing bracket stands; if spaced, one space there and behind each colon. Array printing is at lines 682-722. |
| JsonLayout.Stripped | json-c-0.11/json_object.c:283-337 | Without the blanks outside quoted text every format gives the plain form, and every bracket is closed. |
| JsonLayout.Compact | json-c-0.11/json_object.c:283-337 | With neither flag no blank stands outside quoted text. |
| JsonLayout.NoControls | json-c-0.11/json_object.c:90-131 | No byte below 32 is printed, but newlines if pretty. |
| JsonRoundTrip.FeedText | json-c-0.11/json_object.c:90-131 | Reading an escaped text gives back its bytes. |
| JsonRoundTrip.PrintedText | json-c-0.11/json_object.c:260-722 | A printed value, in every format, is a text of the syntax of JsonGrammar with that value for its meaning. |
| JsonRoundTrip.DecimalReads | json-c-0.11/json_util.c:179-264 | The printed form of a 64-bit number reads back as that number. |
| JsonRoundTrip.ParseValue | json-c-0.11/json_tokener.c:257-760 | Reading a printed value, in any context and for plain, spaced and pretty flags, gives the value, or the depth error exactly when it nests too deeply. |
| JsonRoundTrip.RoundTrip | json-c-0.11/json_tokener.c:241-787 | A printed value parses back to itself, with the same key order, exactly if it fits the depth limit. |
| JsonRoundTrip.PrintAndParse | json-c-0.11/json_object.c:260-281 | The same of the two functions themselves. |
| JsonRoundTrip.InnerValueAccepted | json-c-0.11/json_tokener.c:761-787 | The C string `[1/*` is accepted, with value 1. |
| JsonRoundTrip.BrokenPair | json-c-0.11/json_tokener.c:494-566 | The string "\ud834\udd1e" is U+1D11E; cut between the escapes it is two replacement characters. |
| JsonRoundTrip.MaskedPair | json-c-0.11/json_tokener.c:494-566 | The string "\ud836\udc00", U+1D800, is read as one replacement character. |
| JsonOwnership.Objects.Get | json-c-0.11/json_object.c:136-142 | One more reference. |
| JsonOwnership.Objects.Put | json-c-0.11/json_object.c:144-158 | The last reference to a tree frees every cell of it, names included, and nothing else; any other only counts down. |
| JsonOwnership.Objects.DeleteEntries | json-c-0.11/json_object.c:340-350 | Deleting a container releases each entry once. |
| JsonOwnership.Objects.SwapValue | json-c-0.11/json_object.c:386-390 | The displaced value of a key is released and only it. |
| JsonOwnership.Objects.Lookup | json-c-0.11/json_object.c:381-385 | The entry of a name. |
| JsonOwnership.HoldsFrame | json-c-0.11/json_object.c:144-158 | A tree does not notice changes outside its own cells. |
| JsonOwnership.EntryReady | json-c-0.11/json_object.c:340-350 | Before an entry of a dying container is released its cells are all there, because none is shared. |
| JsonOwnedParse.Owner.ResetLevel | json-c-0.11/json_tokener.c:123-131 | A level releases its object and frees its field name. |
| JsonOwnedParse.Owner.ShareTop | json-c-0.11/json_tokener.c:335-340 | Taking a reference and resetting the level hands the object over whole. |
| JsonOwnedParse.Owner.AddElement | json-c-0.11/json_object.c:766-770 | The container takes over the element. |
| JsonOwnedParse.Owner.AddMember | json-c-0.11/json_tokener.c:735-741 | The container takes over the value, a value displaced by the same key is freed, and so is the field name. |
| JsonOwnedParse.EffectOf | json-c-0.11/json_tokener.c:257-760 | Which objects and names each case creates, moves or frees: exactly this, and levels own nothing before their value begins. |
| JsonOwnedParse.Parser.Execute | json-c-0.11/json_tokener.c:257-760 | Every case keeps the balance: each live cell is owned exactly once, by a level or by obj. |
| JsonOwnedParse.Parser.ParseEx | json-c-0.11/json_tokener.c:241-787 | After success the live cells are exactly those of the value returned, each with count one; after an error the levels own all that is live. |
| JsonOwnedParse.Parser.Reset | json-c-0.11/json_tokener.c:133-143 | Afterwards no object and no field name of the parse is live. |
| JsonOwnedParse.Parser.Release | json-c-0.11/json_object.c:144-158 | When the caller puts the value, nothing is left. |
| TokenBucket.CfgNew | libevent-2.0.22-stable/bufferevent_ratelim.c:141-172 | A configuration exists exactly for rates between one and the burst, and bursts a ssize_t can hold; it has the rates and bursts given. |
| TokenBucket.UpdatedIs | libevent-2.0.22-stable/bufferevent_ratelim.c:72-110 | Within the maxima an update adds the rate for each tick since the last one, up to the maximum, and counts those ticks as used up; ticks that seem to lie in the past count for nothing. |
| TokenBucket.RefillExact | libevent-2.0.22-stable/bufferevent_ratelim.c:72-110 | The update by division is min(maximum, limit + n rate) exactly if the limit is not over the maximum or n rate reaches 2^64 less the excess. |
| TokenBucket.StaysPositive | libevent-2.0.22-stable/bufferevent_ratelim.c:72-110 | A positive limit is positive after the update, exactly unless it is over the maximum and limit + n rate lies beyond SSIZE_MAX and at most at 2^64. |
| TokenBucket.TicksPassed | libevent-2.0.22-stable/bufferevent_ratelim.c:72-95 | Skipped updates never make a later one count more ticks than went by, the 32-bit wrap included. |
| TokenBucket.PassesAtMost | libevent-2.0.22-stable/bufferevent_ratelim.c:72-110 | Up to any transfer, no more bytes than the bucket held and the ticks put in. |
| TokenBucket.WindowBound | libevent-2.0.22-stable/bufferevent_ratelim.c:199-260 | In every window of T ticks at most maximum + rate T bytes pass. |
| RateLimits.PassOne | libevent-2.0.22-stable/bufferevent_ratelim.c:199-310 | One use of a limited bufferevent, in a group or not: it passes no more than the updated bucket holds, and the bucket holds that much less afterwards. |
| RateLimits.PassAlong | libevent-2.0.22-stable/bufferevent_ratelim.c:199-310 | Over any run of asking what may pass and passing no more, reads and writes mixed, each direction passes at most maximum + rate T bytes in every window of T ticks. |
| TokenBucket.AfterTicks | libevent-2.0.22-stable/bufferevent_ratelim.c:72-110 | A deficit is paid back tick by tick, up to the maximum. |
| RateLimits.Bufferevent.Suspend | libevent-2.0.22-stable/bufferevent.c:65-75 | The backend runs a direction exactly when the user enabled it and no reason to suspend it is left; reasons other than tokens leave the limits in order. |
| RateLimits.Bufferevent.Unsuspend | libevent-2.0.22-stable/bufferevent.c:77-87 | The same when a reason goes. |
| RateLimits.Bufferevent.Enable | libevent-2.0.22-stable/bufferevent.c:406-427 | The same when the user enables. |
| RateLimits.Bufferevent.Disable | libevent-2.0.22-stable/bufferevent.c:497-510 | The same when the user disables. |
| RateLimits.Bufferevent.DecrementLimit | libevent-2.0.22-stable/bufferevent_ratelim.c:899-954 | A direction that loses its last token is suspended with the refill timer pending, one that gets tokens back by hand is released, any other stays as it is, and so does the other direction; the limits stay within their maxima exactly if this one does. |
| RateLimits.Bufferevent.OverfullGrows | libevent-2.0.22-stable/bufferevent_ratelim.c:899-954 | A bucket refilled by hand to 21 of 10 has 22 after the next tick. |
| RateLimits.Bufferevent.UpdateBuckets | libevent-2.0.22-stable/bufferevent_ratelim.c:112-123 | A direction without tokens waits after an update if it did before; one with tokens keeps some, exactly unless its bucket is over the maximum in the way TokenBucket.StaysPositive says. |
| RateLimits.Bufferevent.OverfullSinks | libevent-2.0.22-stable/bufferevent_ratelim.c:899-954 | With rate and maximum 2^62, one token more by hand makes the next tick leave none, and nothing waits. |
| RateLimits.Bufferevent.DecrementOwn | libevent-2.0.22-stable/bufferevent_ratelim.c:274-310 | The same after a transfer: this direction waits exactly if it has no tokens, and the other stays as it is. |
| RateLimits.Bufferevent.Refill | libevent-2.0.22-stable/bufferevent_ratelim.c:395-441 | The refill callback releases a direction exactly if it has tokens again and stays pending exactly while one has none; a direction without tokens still waits afterwards, exactly unless it did not wait before and the update took the last token of an overfull bucket. |
| RateLimits.Bufferevent.SetRateLimit | libevent-2.0.22-stable/bufferevent_ratelim.c:558-635 | Setting, changing and removing a configuration keeps all of that. |
| RateLimits.UpdateKeeps | libevent-2.0.22-stable/bufferevent_ratelim.c:72-110 | An update of a bucket within its maximum never takes tokens and never exceeds the maximum, so it never takes the last token. |
| RateLimits.GetMax | libevent-2.0.22-stable/bufferevent_ratelim.c:199-260 | What may pass now: the smaller of the own and the shared limit, never negative, and nothing while the group waits; that a direction without tokens waits survives exactly under the condition of UpdateBuckets. |
| RateLimits.DecrementBuckets | libevent-2.0.22-stable/bufferevent_ratelim.c:274-348 | Transfers are charged to both buckets, and both suspensions follow. |
| RateLimits.HoldBack | libevent-2.0.22-stable/bufferevent_ratelim.c:222-230 | A member whose lock was taken when its group stopped is stopped on its next use. |
| RateLimits.Group.constructor | libevent-2.0.22-stable/bufferevent_ratelim.c:637-666 | A new group runs, has no members and one tick of tokens, and its smallest share is 64, clipped to a tick of either rate. |
| RateLimits.Group.SuspendMembers | libevent-2.0.22-stable/bufferevent_ratelim.c:351-375 | Every member not locked elsewhere gets the group's reason to wait. |
| RateLimits.Group.UnsuspendMembers | libevent-2.0.22-stable/bufferevent_ratelim.c:443-504 | Going around once from a random member reaches everyone; what was locked is remembered as pending. |
| RateLimits.Group.Refill | libevent-2.0.22-stable/bufferevent_ratelim.c:527-556 | Who is released, and that an empty bucket still holds the group back, exactly unless the smallest share is zero and the bucket exactly empty, or the group ran and the update took the last token of an overfull bucket. |
| RateLimits.Group.EmptyBucketReleased | libevent-2.0.22-stable/bufferevent_ratelim.c:527-556 | A group with smallest share zero, charged and refilled to exactly zero, runs again with nothing in its bucket. |
| RateLimits.Group.DecrementShared | libevent-2.0.22-stable/bufferevent_ratelim.c:274-310 | The group bucket is charged and the group stops when it is empty. |
| RateLimits.Group.Decrement | libevent-2.0.22-stable/bufferevent_ratelim.c:956-994 | The manual change of a group's bucket: a group that loses its last token is suspended, one that gets tokens back is released, any other stays as it is, and so does the other direction. |
| RateLimits.Group.SetMinShare | libevent-2.0.22-stable/bufferevent_ratelim.c:699-719 | The share is clipped to what a tick brings. |
| RateLimits.Group.AddMember | libevent-2.0.22-stable/bufferevent_ratelim.c:731-776 | A bufferevent leaves its old group and joins the new one, and waits for it in exactly the directions in which the group waits. |
| RateLimits.Group.RemoveMember | libevent-2.0.22-stable/bufferevent_ratelim.c:778-806 | A bufferevent that leaves is no longer held back by the group. |
| Timeouts.AtLeastMicros | libevent-2.0.22-stable/event.c:2560-2588 | Comparing packed times with equal magic bits compares the times. |
| Timeouts.EventBase.PlaceFor | libevent-2.0.22-stable/event.c:2560-2588 | The place that keeps a duration's list in order. |
| Timeouts.EventBase.InsertTimeout | libevent-2.0.22-stable/event.c:2590-2630 | The event waits in the list of its duration or in the heap, and counters agree with flags. |
| Timeouts.EventBase.RemoveTimeout | libevent-2.0.22-stable/event.c:2520-2557 | It waits no longer; all lists stay in order. |
| Timeouts.EventBase.Schedule | libevent-2.0.22-stable/event.c:1144-1152 | The timer of a list is set to its head. |
| Timeouts.EventBase.Add | libevent-2.0.22-stable/event.c:2044-2192 | After event_add the event waits for the time asked for, or as before if the add failed, and its whole record is stated: the interval of a persistent event is stored, an I/O event becomes inserted, an event that was active for its timeout is not any more, and nothing else changes; every list with events has its timer armed no later than its head. |
| Timeouts.EventBase.Del | libevent-2.0.22-stable/event.c:2214-2286 | The event neither waits nor is active. |
| Timeouts.EventBase.Activate | libevent-2.0.22-stable/event.c:2306-2345 | The event is active with its result recorded. |
| Timeouts.EventBase.TimeoutProcess | libevent-2.0.22-stable/event.c:2493-2517 | Exactly the events of the heap that are due become active, with the timeout for their result, and no list loses its timer. |
| Timeouts.EventBase.CommonCallback | libevent-2.0.22-stable/event.c:1156-1177 | Exactly the due events of the list are activated and the timer is set to the next. |
| Timeouts.EventBase.PersistClosure | libevent-2.0.22-stable/event.c:1256-1307 | A persistent event with an interval waits again one interval after it was due, or after now if that is past; its whole record is stated, whether or not its I/O could be added. |
| Timeouts.EventBase.LetFire | libevent-2.0.22-stable/event.c:1144-1177 | From any state a due event of the user becomes active: in the heap by itself, in a list through the callback of the list's timer. |
| Timeouts.EventBase.PersistRound | libevent-2.0.22-stable/event.c:1256-1307 | Added with an interval, fired and run, a persistent event waits for its first deadline plus the interval, or for now plus the interval if that is past, in a list or in the heap. |
| Timeouts.NextRunIs | libevent-2.0.22-stable/event.c:1275-1298 | Which time that is. |
| Timeouts.EventBase.BeginCallback | libevent-2.0.22-stable/event.c:1329-1345 | A non-persistent event leaves all queues before its callback runs. |
| Timeouts.EventBase.EndCallback | libevent-2.0.22-stable/event.c:1369-1376 | When a callback of the user is over no event is running, and every list with events is still armed: the event that ran was no timer of a list. |
| Timeouts.EventBase.NewEvent | libevent-2.0.22-stable/event.c:1736-1805 | A new event waits nowhere and is not active; what all others wait for is unchanged. |
| Timeouts.EventBase.InitCommon | libevent-2.0.22-stable/event.c:1181-1253 | A duration, microseconds carried over, that has a list gets that list again and nothing changes; otherwise a new list with a timer goes behind the others, unless there are 256. No two lists are ever for one duration, and the magic number leads back to the list. |
| Timeouts.EventBase.Correct | libevent-2.0.22-stable/event.c:2440-2490 | When the clock runs backwards every waiting event moves back by as much, orders and timers included. |
| Timeouts.ShiftAll | libevent-2.0.22-stable/event.c:2440-2490 | Moving all times by the same amount keeps every order. |
| Timeouts.EventBase.DueIsServed | libevent-2.0.22-stable/event.c:1144-1177 | From the time an event of a list is due, the timer of its list is active, running, or in the heap and due. |
| Timeouts.CountedChange | libevent-2.0.22-stable/event.c:2520-2630 | The event counters are the numbers of events with the flag. |
| Rings.InsertTail | libevent-2.0.22-stable/evdns.c:2670-2684 | The new node becomes the last of a circular list. |
| Rings.RemoveNode | libevent-2.0.22-stable/evdns.c:2632-2645 | The node leaves, the rest stays linked in order, the head moves on if it was the node. |
| Nameservers.ServerRing.Pick | libevent-2.0.22-stable/evdns.c:1320-1353 | The first server that is up, from the head on, within one lap; any server if none is up; the head goes one further. |
| Nameservers.ServerRing.Picks | libevent-2.0.22-stable/evdns.c:1320-1353 | Any number of picks goes around the good servers in turn. |
| Nameservers.PickedNext | libevent-2.0.22-stable/evdns.c:1320-1353 | Whoever picks one by one gets, at the n-th pick, the n-th good server in turn. |
| Nameservers.FairShares | libevent-2.0.22-stable/evdns.c:1320-1353 | Over any number of picks the shares of two good servers differ by at most one. |
| Nameservers.Shares | libevent-2.0.22-stable/evdns.c:1320-1353 | The exact share of each place. |
| Nameservers.GoodsChange | libevent-2.0.22-stable/evdns.c:556-635 | Marking one server changes the number of good ones by one. |
| Nameservers.ServerRing.Add | libevent-2.0.22-stable/evdns.c:2519-2530 | A new server joins the ring, up, and is counted. |
| Nameservers.ServerRing.Failed | libevent-2.0.22-stable/evdns.c:556-580 | A server goes down and is no longer counted. |
| Nameservers.ServerRing.Up | libevent-2.0.22-stable/evdns.c:616-635 | A server comes up and is counted. |
| DnsRequests.RequestQueues.Accounting | libevent-2.0.22-stable/evdns.c:2632-2684 | Counters are list lengths; an inflight request has a server and hangs in the bucket of its id, a waiting one has none. |
| DnsRequests.RequestQueues.Submit | libevent-2.0.22-stable/evdns.c:2773-2788 | With room one server is picked, the next in turn, and the ring turns; if there is one the request goes out to it under the id given, else, and without room, it waits behind the others with none. |
| DnsRequests.RequestQueues.SubmitProbe | libevent-2.0.22-stable/evdns.c:2292-2317 | A probe is inflight whatever the limit. With room a server is picked and the ring turns, as for any request, although the probe goes to its own server; without room the ring stays. |
| DnsRequests.RequestQueues.Pump | libevent-2.0.22-stable/evdns.c:733-759 | Waiting requests go out in order while there is room and a server, the k-th with the k-th id and the k-th server in turn, and otherwise as they were. |
| DnsRequests.RequestQueues.Finish | libevent-2.0.22-stable/evdns.c:647-697 | The request is gone from its list; the others keep their order and their fields, but for the first ones waiting, which go out as in Pump while there is room and a server. |
| DnsRequests.RequestQueues.FindFromTransId | libevent-2.0.22-stable/evdns.c:478-493 | The request with that id in its bucket, if any. |
| DnsRequests.RequestQueues.NameserverFailed | libevent-2.0.22-stable/evdns.c:585-612 | Requests of the failed server that were not sent yet move to good ones, if any is left; nothing else changes. |
| DnsRequests.RequestQueues.SetMaxInflight | libevent-2.0.22-stable/evdns.c:3329-3358 | The same requests, each in its bucket of the new table. |
| DnsRequests.RequestQueues.Suspend | libevent-2.0.22-stable/evdns.c:2373-2436 | All inflight requests wait ahead of those that waited before, in reverse order, with counts, id and server reset, and no server is left. |
| Tagging.EncodeInt | libevent-2.0.22-stable/event_tagging.c:115-148 | Count, nibbles from the lowest up, and a zero nibble to fill the byte. |
| Tagging.IntBytes | libevent-2.0.22-stable/event_tagging.c:115-148 | The bytes themselves: the digit count less one and the lowest hexadecimal digit, then two digits a byte, the lower one in the high half. |
| Tagging.DecodeInt | libevent-2.0.22-stable/event_tagging.c:306-364 | What it reads, or that it fails, for every buffer. |
| Tagging.IntRoundTrip | libevent-2.0.22-stable/event_tagging.c:306-364 | An encoded integer decodes to itself, with anything around it. |
| Tagging.EncodeTag | libevent-2.0.22-stable/event_tagging.c:171-192 | Seven bits a byte, lowest first. |
| Tagging.TagBytesAre | libevent-2.0.22-stable/event_tagging.c:171-192 | The bytes themselves: byte k has bits 7 k to 7 k + 6, and its high bit says that more follow; there are as many as needed. |
| Tagging.DecodeTag | libevent-2.0.22-stable/event_tagging.c:194-233 | What it reads, within five bytes. |
| Tagging.TagRoundTrip | libevent-2.0.22-stable/event_tagging.c:171-233 | An encoded tag decodes to itself and its length. |
| Tagging.HeaderOf | libevent-2.0.22-stable/event_tagging.c:386-471 | The header of a written record gives tag, payload length and start, and the three add up to the record. |
| Tagging.PayloadOf | libevent-2.0.22-stable/event_tagging.c:475-525 | The payload of a written integer or time decodes to it. |
| Tagging.Stream.Write | libevent-2.0.22-stable/event_tagging.c:247-304 | The record on the wire is tag, length and payload. |
| Tagging.Stream.WriteAll | libevent-2.0.22-stable/event_tagging.c:247-304 | A list of records lies on the wire one record behind the other, in order, each encoded as Write does, behind what was there. |
| Tagging.Stream.PeekLength | libevent-2.0.22-stable/event_tagging.c:392-408 | The length of the whole record. |
| Tagging.Stream.UnmarshalHeader | libevent-2.0.22-stable/event_tagging.c:428-442 | The header is drained as far as it is there, whether or not the payload is; the payload length is returned exactly if header and payload are all there. |
| Tagging.Stream.Unmarshal | libevent-2.0.22-stable/event_tagging.c:457-471 | The payload moves to the other buffer; without a whole record only what there is of the header is drained. |
| Tagging.Stream.UnmarshalInt | libevent-2.0.22-stable/event_tagging.c:475-525 | The integer and the payload drained; another tag is all that is drained then, and of a record that is not whole only the header; an integer longer than its payload is an error, a shorter one is not. |
| Tagging.Stream.UnmarshalTimeval | libevent-2.0.22-stable/event_tagging.c:570-596 | Both words, for the right tag and a payload that holds them; the payload is drained in any case, if it is all there, and otherwise the header as far as it is. |
| Tagging.Stream.ReadOne | libevent-2.0.22-stable/event_tagging.c:386-596 | Peeking tells the tag and the record's length; reading gives the record and consumes exactly its bytes. |
| Tagging.Stream.ReadAll | libevent-2.0.22-stable/event_tagging.c:386-596 | A written list of records, followed by anything, reads back as the same list and leaves just what followed. |
| Arc4.Stream.Init | libevent-2.0.22-stable/arc4random.c:95-104 | The identity table. |
| Arc4.Stream.AddRandom | libevent-2.0.22-stable/arc4random.c:106-121 | 256 rounds with the data repeated, then j becomes i. |
| Arc4.Stream.GetByte | libevent-2.0.22-stable/arc4random.c:423-436 | One round and the byte at the sum of the swapped entries. |
| Arc4.RoundIs | libevent-2.0.22-stable/arc4random.c:423-436 | What a round does: i one further, j by the entry at i and the byte mixed in, these two entries exchanged, all others kept, and the output at the sum of the two. |
| Arc4.FirstWord | libevent-2.0.22-stable/arc4random.c:438-449 | A table just initialised gives 0x0205070D. |
| Arc4.Stream.GetWord | libevent-2.0.22-stable/arc4random.c:438-449 | Four bytes, the first on top. |
| Arc4.Stream.Stir | libevent-2.0.22-stable/arc4random.c:371-409 | Seeds mixed in, 3072 bytes thrown away, the counter renewed; without a good seed, ever, only the seeds. |
| Arc4.Stream.Random | libevent-2.0.22-stable/arc4random.c:486-497 | The next word of the generator and its next state: stirred first when the count runs out, before the first use and in a new process, and otherwise four bytes of the running keystream. |
| Arc4.RunKeeps | libevent-2.0.22-stable/arc4random.c:95-121 | After any run of draws and mix-ins the table is a permutation of 0..255. |
| Arc4.Onto | libevent-2.0.22-stable/arc4random.c:95-104 | A permutation has every byte. |
| Arc4.Reversible | libevent-2.0.22-stable/arc4random.c:423-436 | Every round can be undone. |
| Arc4.NeverMerge | libevent-2.0.22-stable/arc4random.c:423-436 | Two different states stay different however many bytes are drawn. |
| Arc4.RejectBelow | libevent-2.0.22-stable/arc4random.c:526-536 | The 32-bit computation is 2^32 modulo the bound, and below 2^31. |
| Arc4.Stream.Uniform | libevent-2.0.22-stable/arc4random.c:520-554 | Words are drawn one after the other as the generator gives them; the result is the first that is not rejected, modulo the bound. |
| Arc4.WordsAreKeystream | libevent-2.0.22-stable/arc4random.c:423-518 | In the process that stirred it, and as long as its count lasts, the generator's words are its keystream, four bytes each, none skipped. |
| Arc4.ExactlyUniform | libevent-2.0.22-stable/arc4random.c:520-554 | Every result has the same number of accepted words, and more than half of all words are accepted. |

## Left out

- Sockets, files, iovecs, sendfile, mmap, IOCP, poll backends, OpenSSL, filters and pairs: input and output.
- evbuffer expand, reserve, commit and read, reference and file chains, pinning, locks, freezing calls, callbacks: the list invariant does not survive mixing spare chains with evbuffer_add.
- Failing allocation: malloc is taken to succeed; only the limit on the size of a chain is modelled.
- EvBuffers.EvBuffer.AddBuffer: asks that the two lengths add up to no more than SIZE_MAX, and so do PrependBuffer and RemoveBuffer; the source adds them unchecked.
- EvBufferRuns.RunCalls: buffers that are not frozen, and runs whose bytes, all together, fit one chain, so that no allocation limit is met; the single operations are proved beyond that.
- EvBuffers.EvBuffer.ChainInsert: an empty chain only into an empty list, as the operations modelled here call it.
- LinkHash.LhTable.Insert: only for an absent key, as json_object_object_add calls it; the statistics counters and int widths of the table are not modelled.
- Widths of int sizes in printbuf and arraylist; array_list_sort, which calls qsort.
- Floating point: parsing and printing of doubles are parameters, and values with doubles take no part in the round trip.
- sscanf itself: a parameter with the contract stated in Int64Parse; inside the tokener it is the correct one.
- JsonGrammar.Accepts: the syntax has no numbers that sscanf cuts short and no escapes of single surrogates, which are those of the machine; Int64Parse and JsonEscapes.SplitPair speak of them.
- JsonRoundTrip.RoundTrip: not for doubles, nor for objects whose keys repeat or contain NUL, which the printed form cannot show.
- JsonChunks.AllPieces: excludes pieces that end inside a surrogate pair; JsonSplits.SplitExactly shows why.
- Locale and signed char in isspace and isdigit; NUL among the digits of an escape is read as the end of the text only.
- Int64Parse.ParseInt64: leading spaces and characters behind the digits; for a text such as 1-2 the tokener here takes the longest decimal prefix, as a correct sscanf does.
- JsonOwnership.Objects.Put: trees whose inner objects nobody else refers to; an object that outlives its container is not modelled.
- JsonOwnedParse.Parser.ParseEx: one parse at a time on its own heap; arrays and hash tables are sequences of entries here, their slots are those of ArrayLists and LinkHash, and the control flow is that of JsonMachine.
- User data, custom serialisers and json_object_set_serializer.
- DnsNames.WritePacket: offsets below 2^14, as pointers hold no more; PointerExact shows what happens above.
- DnsNames.NameParse: a packet is given with 63 bytes behind it, since the copy of a label is not checked against the length.
- DNS replies, hosts and resolv.conf, getaddrinfo, search lists, server side, timers and back-off of servers; what a transmission returns and transaction ids are inputs.
- DnsRequests.RequestQueues.Suspend: excludes outstanding probes, which the source cancels while it walks the ring of servers.
- No claim is made that ids are unique or that inflight stays below the limit: probes and searches bypass both.
- Timeouts: the order of active events of one priority, the layout of the heap, signals and I/O registration (evmap is a parameter), notification of another thread, and ncalls.
- Timeouts.EventBase.PersistClosure: under the source's own assertion that the event and its interval have the same magic.
- Group totals, bufferevent_rate_limit_group_set_cfg and the clock behind the ticks; a backend whose enable fails.
- Tagging.DecodeTag: tags of more than five bytes, which the encoder never writes and the decoder would read beyond what it made contiguous.
- Tagging.Stream.Write: payloads from 2^31 bytes on, which no reader can take back, and seconds beyond 32 bits.
- Tagging.Stream.UnmarshalHeader: lengths from 2^31 on, which the int result cannot show.
- evtag_consume, evtag_unmarshal_fixed and evtag_unmarshal_string: thin over UnmarshalHeader.
- Arc4.Stream.Uniform: the rejection loop has a bound on its tries, since it may go on for ever; seeding and the process id are inputs, the same for every word of a draw, and arc4random_buf is not modelled.
