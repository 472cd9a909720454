# ScratchIRCd in Dafny

A model of the hard logic of ScratchIRCd, a single-threaded IRC daemon, and proofs of what
that logic promises. Each file models one component; `dafny verify dfyconfig.toml` checks them
all.

| file | component |
|---|---|
| `Text.dfy`, `Arithmetic.dfy` | bytes, C strings, the case foldings; division laws, positions around a ring |
| `OutputQueue.dfy` | bounded output queue, direct sends and TLS write retries |
| `InputFraming.dfy`, `FairDispatch.dfy` | cutting reads into lines; budgets and the rotating cursor |
| `TagRelay.dfy` | client-only tag de-duplication by open addressing, label tags |
| `LabeledResponse.dfy` | IRCv3 labeled responses, batch and time tags |
| `Glob.dfy`, `GeobanGlob.dfy`, `Cidr.dfy` | the three glob matchers, CIDR matching and network masks |
| `Sasl.dfy` | base64 and the SASL PLAIN receiver |
| `TokenBucket.dfy`, `AuthLimit.dfy` | command budgets; fixed windows for password work |
| `LogQueue.dfy` | durable channel-log queue |
| `HashTable.dfy`, `ConnectionIndex.dfy` | case-mapped hash table; connections per address |
| `Persist.dfy` | mask lists, access decisions, saving and restoring a channel |

Objects the daemon updates in place are classes with the same fields, its loops are loops, and
each method is proved against a specification function or relation. The main results are then
lemmas about those, over every input or every run.

Sockets, TLS, the clock, memory allocation and the database appear as free choices (`:= *`), as
parameters such as `memory`, `working` and `now`, or as answers in an arbitrary script, so that a
result can say what those answers force. `NULL` arguments are not modelled. Integers are unbounded unless the width
matters; where it does (capacity doubling, refill products, hashes, serial numbers, shifts, the
suppression counter) the wrap-around is written out.

## Where the code promises less than it seems to

These natural statements hold only under a condition. Each is proved with its exact condition, and
each has an input or a run in which it fails.

- A budget or window stamp of 0 also means "never used". A clock that reads 0 therefore finds
  every budget full: `TokenBucket.FreshBoundExact`, `TokenBucket.BudgetBoundsExact` and
  `AuthLimit.BoundsExact` show that the rate bounds hold on all runs if and only if the first
  reading is after the epoch.
- The output stream is the accepted messages in order, plus a part of at most one other, if and
  only if nothing is sent behind a message that was cut short (`OutputQueue.OrderlyExact`). A
  failed direct send returns -1 without marking the client, so the order is kept only by a caller
  that sends nothing after a -1, or once the client has overflowed (`OutputQueue.Client.SendRaw`,
  `OutputQueue.SentBehindCut`). `OutputQueue.TwoCutShort` is a run in which two messages are cut.
- A pending TLS retry is within the queued length if and only if the queue is not empty
  (`OutputQueue.Client.RetryContract`). With an empty queue the client has overflowed and nothing
  is ever written again; `OutputQueue.RetryWithoutQueue` is a run that gets there.
- An overlong tagged line is answered and skipped when it arrives whole, but ends the connection
  when enough of it arrives without its line end. `InputFraming.CutSafe` gives the length at which
  the outcome starts to depend on how the bytes were cut into reads, and `InputFraming.WholeSkipped`
  and `InputFraming.CutRejected` run one such line both ways.
- A client that sends acceptable lines only is still disconnected when a read fills its buffer and
  no pass reaches it before the next read (`InputFraming.FullBufferEnds`). A pass reaches a client
  if and only if those before it leave some of the budget (`FairDispatch.ReachedExactly`); with 16
  busy clients in front it does not (`FairDispatch.BusyPass`).
- Flushing the due rows of all channels keeps the order within a channel if and only if no row was
  queued with an earlier time than one before it: `LogQueue.DueOrderExact`.
- A save leaves the database as it was unless it commits, but a `COMMIT` that fails and leaves its
  transaction open makes every later save fail: `Persist.Store.SaveChannel`.

A labeled batch is also preceded by any suppressed lines sent before the first reply, so the
opening line need not be the first line of the answer (`LabeledResponse.Shaped`). The guide says
that labels are limited to 64 decoded bytes; the code also limits the encoded text to 128 bytes,
and the model follows the code.

## Model

| member | source | states |
|---|---|---|
| `OutputQueue.Client.Conservation` | src/client.c:54-198 | in every reachable state the wire followed by the queue is what the record of sends says; as long as nothing was sent behind a cut message it is the accepted messages in order plus at most a prefix of one refused message, which is always so without a transport failure; after a lasting failure the wire stays a prefix of such a stream |
| `OutputQueue.OrderlyExact` | src/client.c:180-198 | byte by byte, the stream is the accepted messages in order and a part of at most one other exactly when nothing follows a cut |
| `OutputQueue.CutAppend` | src/client.c:180-198 | a send keeps that order exactly when nothing was cut before or it adds nothing |
| `OutputQueue.SentBehindCut` | src/client.c:189-193 | once a message was cut and the client has not overflowed, the next send that gets a byte through breaks the order |
| `OutputQueue.TwoCutShort` | src/client.c:189-193 | a run of two sends that leaves a client, not overflowed, with a part of each message on the wire |
| `OutputQueue.RetryWithoutQueue` | src/client.c:116-122 | a run that ends with a pending retry, an empty queue and an overflow |
| `OutputQueue.Client.RetryContract` | src/client.c:94-122 | a pending retry repeats the bytes the transport was left with, and is within the queue exactly when the queue is not empty |
| `OutputQueue.OnePartialMessage` | src/client.c:180-198 | a record in which nothing follows a cut carries the accepted messages and a prefix of at most one more |
| `OutputQueue.AllWhole` | src/client.c:180-198 | when nothing was cut the stream is the concatenation of the accepted messages |
| `OutputQueue.GrownCapacity` | src/client.c:62-70 | doubling with wrap-around ends at a capacity that is enough, and within the limit or the first capacity of 4096, so the refusal after growing is never reached |
| `OutputQueue.Client.SetOutputLimit` | src/client.c:46-50 | a limit below the queued length marks an overflow and nothing else changes |
| `OutputQueue.Client.QueueAppend` | src/client.c:54-79 | refuses exactly the data beyond limit minus queued length, or beyond the buffer without memory, and otherwise the queue is the old one followed by the data |
| `OutputQueue.Client.MakeRoom` | src/client.c:60-74 | sliding and growing keep the queue and make enough room, exactly unless memory is needed and missing |
| `OutputQueue.Client.TransportWrite` | src/client.c:81-134 | written bytes are the prefix of the data the transport took; a TLS write that had to wait is pending and is the one to be repeated; the guard for a short retry is dead |
| `OutputQueue.Client.FlushOutput` | src/client.c:136-159 | moves bytes from the head of the queue to the wire in order, within the flush budget or one whole retry; asks a ready transport until the queue is empty, the budget is used or an answer is not a write, where every write moves something and the first all it took; returns 1 exactly when the queue is empty and -1 exactly for a failure |
| `OutputQueue.Client.FlushOnce` | src/client.c:142-153 | one round keeps wire plus queue unchanged and sends a pending retry in full |
| `OutputQueue.Client.SendDirect` | src/client.c:185-195 | direct writes end as the transport's answers say, with a prefix of the message on the wire, and a write that waits covers the head of the rest |
| `OutputQueue.Client.SendRaw` | src/client.c:180-198 | every send keeps the books; behind a queue it is accepted exactly when it fits, and otherwise as the answers to its direct writes and the room for the rest say; it is refused only by an overflow or a transport failure, contributes nothing after an overflow, and keeps the order if no send was refused before or the client has overflowed |
| `InputFraming.Client.Independent` | src/server.c:403-502 | in every reachable state the consumed lines are a prefix of the lines of the received stream, and once no complete line waits the events are a function of the received bytes alone, whatever the reads and budgets were |
| `InputFraming.EventsOfStream` | src/server.c:403-467 | the lines of the consumed bytes are a prefix of the lines of the stream, and all of them once no complete line is buffered |
| `InputFraming.LinesConcat` | src/server.c:403-467 | the lines of a concatenation are those of the first part, with its tail glued to the second |
| `InputFraming.LinesSpell` | src/server.c:403-467 | the lines with their ends and the tail are the stream |
| `InputFraming.LinesWhole` | src/server.c:403-467 | no line has a line end inside |
| `InputFraming.JudgeExact` | src/server.c:419-449 | a raw line is dispatched exactly when, a final carriage return aside, it is not empty, free of zeros and carriage returns and well-sized; it is blank, too long or a violation exactly as the two limits and the first byte say |
| `InputFraming.FitsExactly` | src/server.c:391-401 | the size check admits exactly plain lines of at most 510 bytes and tagged ones of at most 4094 bytes of tags and 510 of message |
| `InputFraming.CutSafe` | src/server.c:456-464 | an acceptable line is safe under every cut exactly when it is within the partial-line limit; only tagged lines can exceed it |
| `InputFraming.NeverCompleted` | src/server.c:456-464 | an overlong partial line cannot become a command or a blank line, whatever follows |
| `InputFraming.OverlongJudged` | src/server.c:391-401 | a tagged line of 5000 bytes is skipped when whole, and its first 4608 bytes are an overlong partial line |
| `InputFraming.WholeSkipped` | src/server.c:426-438 | a client that reads that line whole ends with it consumed, one too-long answer and an empty buffer |
| `InputFraming.CutRejected` | src/server.c:456-464 | a client that reads its first 4608 bytes ends with them refused, nothing answered and nothing consumed |
| `InputFraming.FullBufferEnds` | src/server.c:473 | a client whose stream of acceptable lines fills the buffer is disconnected by the next read, whatever it would yield |
| `InputFraming.AdmittedTags` | src/server.c:391-401 | the tag data of a dispatched line has at most 4094 bytes and no space, line break or zero |
| `InputFraming.Client.Read` | src/server.c:469-502 | appends what the socket yields as far as it fits, notes a TLS read that has to wait, and gives up exactly on a full buffer, the end or an error |
| `InputFraming.Client.HandleLine` | src/server.c:419-449 | a framed, non-empty line is dispatched without its carriage return when it is well-sized, answered as too long when it is tagged, and otherwise refused; blank lines are skipped |
| `InputFraming.Client.CutLines` | src/server.c:409-450 | takes exactly the smaller of both budgets and the complete lines, in order |
| `InputFraming.Client.AfterLines` | src/server.c:456-466 | refuses exactly an overlong partial line, never so for a stream of acceptable lines; pending says whether a complete line is left |
| `InputFraming.Client.ProcessBufferedLines` | src/server.c:403-467 | cuts as many lines as the budgets allow, then refuses exactly an overlong partial line; never ends the connection of a stream of acceptable lines by itself, with a positive budget leaves room in the buffer, and keeps the books when a command ends the connection |
| `FairDispatch.Server.Drain` | src/server.c:504-558 | visits consecutive clients from the cursor up to where their demand meets the budget, gives each its full share except perhaps the last, conserves the number of lines, and reports pending work exactly: without it no dispatchable line is left, with it one is left or the budget is used up |
| `FairDispatch.ReachedExactly` | src/server.c:517 | a client is reached exactly when those before it leave some of the budget |
| `FairDispatch.BusyPass` | src/server.c:517-545 | with more than 16 busy clients exactly 16 are visited and the others are untouched |
| `FairDispatch.Server.Visit` | src/server.c:522-544 | one client is served the smallest of its share, the budget and its lines, at least one if it has any |
| `FairDispatch.Server.Turn` | src/server.c:796-926 | one turn visits all clients or at least 16 from the cursor on, serves each of them that has a line to dispatch, and moves the cursor behind them |
| `FairDispatch.Server.Run` | src/server.c:504-558 | whatever arrives, every one of n clients that has a line to dispatch has been served within n/16 turns, rounded up; every line that arrived is waiting or served throughout |
| `FairDispatch.TurnedTogether` | src/server.c:516-548 | consecutive stretches around the ring add up |
| `TagRelay.BeginCommand` | src/ircv3.c:68-134 | for tag data of at most 4094 bytes the relayed text is the join of the client-only tokens that no later token of the same key replaces, in order, and the label is that of the last label tag |
| `TagRelay.LimitsNeverHit` | src/ircv3.c:83-128 | at most 2047 tokens and never more text than the output holds, so neither cap drops anything |
| `TagRelay.KeptIsLastPerKey` | src/ircv3.c:109-128 | a token is relayed exactly when it is client-only and the last of its key |
| `TagRelay.KeptDistinct` | src/ircv3.c:109-128 | no key is relayed twice |
| `TagRelay.RelayReadBack` | src/ircv3.c:83-128 | cutting the relayed text into tokens gives back exactly the surviving tokens |
| `TagRelay.TagKeyHash` | src/ircv3.c:43-51 | FNV-1a of the key, in 64 bits, depends on the key only |
| `TagRelay.TagSlotFor` | src/ircv3.c:53-66 | probing terminates at the slot of the key or at the first free one after it |
| `TagRelay.TableStore` | src/ircv3.c:101-105 | entering a token keeps the probing invariant and makes it the last of its key |
| `TagRelay.TableLookup` | src/ircv3.c:118-119 | the slot found for a token holds that token exactly when it is the last of its key |
| `TagRelay.CollectTokens` | src/ircv3.c:83-107 | the tokens of the section, a table of the last token per key and the last label |
| `TagRelay.RelayTokens` | src/ircv3.c:111-128 | the join of the survivors |
| `TagRelay.DecodedValueLength` | src/ircv3.c:29-41 | the length of the value after unescaping |
| `TagRelay.EscapeDecode` | src/ircv3.c:29-41 | decoding undoes escaping |
| `TagRelay.ReadLabel` | src/ircv3.c:93-99 | a label is usable exactly within both limits, and a bad one clears an earlier one |
| `TagRelay.LabelExactly` | src/ircv3.c:93-99 | a text is the label of a command exactly when it is the value of its last label tag, at most 128 bytes long and at most 64 decoded |
| `TagRelay.LabelsOfText` | src/ircv3.c:29-41 | every text of 1 to 64 characters, escaped, is read as a label |
| `LabeledResponse.Client.HandleCommand` | src/irc.c:80-82 | a labeled command is answered by one ACK that carries its label when nothing unsuppressed was attempted, otherwise by suppressed lines, one opening BATCH with the label, lines that carry its identifier, have a batch tag of their own or are suppressed, and one close of the same identifier; each act hands over exactly its part of the answer; the relayed client tags are the surviving tokens |
| `LabeledResponse.EntriesExplained` | src/client.c:285-314 | every quiet entry of a labeled command is a line said while suppressed, every reply or line with its own batch tag was said unsuppressed, and the opening stands with the first of them |
| `LabeledResponse.SaidOnce` | src/client.c:301-338 | every line that fits is handed over exactly once, except the first reply when its opening could not be sent, and none is handed over twice |
| `LabeledResponse.ToldShaped` | src/client.c:285-314 | what the acts hand over has the shape of an answer |
| `LabeledResponse.OpenedOnce` | src/client.c:287-302 | an answer opens at most one batch, in one place, and closes that batch with its last line |
| `LabeledResponse.AttemptedExactly` | src/client.c:285-287 | something is attempted exactly when some line is said at suppression depth zero |
| `LabeledResponse.Client.PerformAll` | src/ircv3.c:130-140 | whatever a command does, each act hands over exactly its part, and at most one batch is opened, exactly when something unsuppressed is said |
| `LabeledResponse.Client.SendLine` | src/client.c:273-314 | the first unsuppressed line opens the batch; a line goes out unchanged, with its own batch tag or with the tag of this batch |
| `LabeledResponse.Client.OpenBatch` | src/client.c:287-302 | a new serial number, and an opening line that always fits, is tagged with the label and starts the batch of that number |
| `LabeledResponse.Client.ReplyLine` | src/client.c:306-313 | a line inside the batch keeps a batch tag of its own and otherwise gets the tag of this batch |
| `LabeledResponse.Client.Transmit` | src/client.c:316-339 | a line gets a time tag exactly when wanted, absent and fitting, and is handed on exactly when it fits; the later size checks are dead |
| `LabeledResponse.Client.Begin` | src/client.c:356-368 | a non-empty label starts a fresh response, an empty one changes nothing |
| `LabeledResponse.Client.End` | src/client.c:370-392 | closes the batch or acknowledges, always with a line that fits, and leaves the client idle |
| `LabeledResponse.Client.SetSuppressed` | src/client.c:394-401 | the counter wraps upwards and stops at zero downwards |
| `LabeledResponse.SuppressUndone` | src/client.c:394-401 | suppressing and releasing undo each other short of a wrap, and nothing goes below zero |
| `LabeledResponse.LineHasTag` | src/client.c:216-238 | true exactly when some tag of the section has the wanted key |
| `LabeledResponse.PrependKeeps` | src/client.c:240-250 | a prepended tag is the first tag, all others follow unchanged, and the message is the same |
| `LabeledResponse.OutgoingDelivered` | src/client.c:316-331 | what goes out has the tags and the message of the line, apart from a time tag in front |
| `LabeledResponse.TimeTagExactly` | src/client.c:316-331 | a time tag is put in front exactly when wanted, absent and fitting; otherwise the line is unchanged |
| `LabeledResponse.FitsExactly` | src/client.c:200-214 | the size check admits exactly lines without breaks of at most 510 bytes behind at most 8189 bytes of tags |
| `LabeledResponse.ComposedFit` | src/client.c:294-299 | opening, closing and acknowledgement always fit |
| `LabeledResponse.OpeningRead` | src/client.c:294-298 | the opening line read back has the label as its only tag and says BATCH, plus and the identifier, and the batch type |
| `LabeledResponse.AckRead` | src/client.c:382-384 | the acknowledgement read back has the label as its only tag and says ACK |
| `LabeledResponse.ClosingRead` | src/client.c:378-380 | the closing line read back has no tag and says BATCH, minus and the identifier |
| `LabeledResponse.ReplyCarries` | src/client.c:306-313 | a reply carries the identifier of the batch and says what was to be said |
| `LabeledResponse.LabelIsText` | src/ircv3.c:93-99 | a label read from an admitted section can stand in a tag |
| `LabeledResponse.Serials.Advance` | src/client.c:289-290 | the 64-bit serial number counts up and skips zero |
| `LabeledResponse.AfterClosed` | src/client.c:289-290 | the serial number after n batches, in closed form |
| `LabeledResponse.HexRead` | src/client.c:291-293 | the hexadecimal text of a serial number is read back as that number |
| `LabeledResponse.IdsRepeatExactly` | src/client.c:289-293 | two batches have one identifier exactly when a whole cycle of serial numbers lies between them |
| `LabeledResponse.Session` | src/irc.c:80-82 | over any run of commands of any clients each client's log grows by its own answers one after the other, every client is idle between commands, and the batches opened are named by the shared serial numbers in turn, so their names differ up to a whole cycle |
| `LabeledResponse.InTurnDistinct` | src/client.c:289-293 | serial numbers in turn give distinct names up to a whole cycle |
| `Glob.IrcMaskMatch` | src/channel_policy.c:24-36 | terminates and is true exactly when the pattern matches under RFC 1459 folding |
| `Glob.WildcardMatch` | src/ban_db.c:81-102 | terminates and is true exactly when the pattern matches under ASCII folding |
| `Glob.ForgetEarlierStar` | src/channel_policy.c:29 | once a later star is reached the earlier one can be forgotten |
| `Glob.SkipPlacement` | src/channel_policy.c:31 | a mismatch rules out the current placement of the segment and no other |
| `GeobanGlob.GlobMatchCi` | src/geoban_db.c:286-313 | terminates and is true exactly when the tokens of the pattern fit the text |
| `GeobanGlob.ClassMatch` | src/geoban_db.c:263-284 | -1 exactly for an unterminated class, otherwise membership with negation, and a cursor that does not depend on the character |
| `GeobanGlob.UnclosedNeverFits` | src/geoban_db.c:263-284 | a pattern with an unterminated class matches nothing |
| `GeobanGlob.PlainPatterns` | src/geoban_db.c:286-313 | without `[` and backslash the meaning is the plain glob relation |
| `GeobanGlob.AgreeOnPlainPatterns` | src/ban_db.c:81-102 | on every such pattern each matcher decides its own relation and the answers are the same |
| `GeobanGlob.SpellingsAreRead` | src/geoban_db.c:263-313 | every list of tokens without an unterminated class has a pattern that is read as those tokens |
| `GeobanGlob.WrittenIsRead` | src/geoban_db.c:263-313 | a pattern is read as the pieces it was written in, whichever characters are escaped, however ranges and single members mix, whichever sign negates a class and whether it is closed |
| `GeobanGlob.EveryPattern` | src/geoban_db.c:263-313 | every pattern is written in such pieces, so its meaning is theirs |
| `GeobanGlob.OrdinaryRange` | src/geoban_db.c:271-276 | an unescaped range between brackets is read as that range |
| `Cidr.CidrMatch` | src/ban_db.c:147-157 | true exactly when the families agree, the prefix is in range and the top prefix bits are equal as numbers |
| `Cidr.WithinBitwise` | src/ban_db.c:147-157 | an address lies in a network exactly when both have the same length and agree on the first prefix bits, one by one |
| `Cidr.TopBitsCompared` | src/ban_db.c:149-155 | whole bytes and the masked remainder decide equality of the top bits |
| `Cidr.MaskClears` | src/ban_db.c:153-154 | masking with shifted ones clears the low bits, for every word size |
| `Cidr.MaskV6` | src/geoip.c:104-115 | masking the partial byte and zeroing the rest in place leaves the lowest address of the network |
| `Cidr.NetworkOf` | src/geoip.c:76-120 | the lowest address of the network, with the prefix adjustment for mapped IPv4 records in every case, or none; it agrees with the address on the prefix |
| `Cidr.MappedAgree` | src/geoip.c:90-92 | an IPv4 record with 96 bits more has the network it has without them, and the mapped IPv6 address has that network behind the mapping |
| `Cidr.SameNetwork` | src/geoip.c:84-119 | a network matches an address exactly when it is the network of that address |
| `Cidr.MatchNetwork` | src/ban_db.c:147-157 | the network computed from an address matches that address always, and another exactly when it is of the same family and has that network |
| `Base64.EncodeDecode` | src/commands/authenticate.c:129 | decoding an encoded message gives it back, with a zero byte per padding letter |
| `Base64.EncodePadding` | src/commands/authenticate.c:122-127 | padding stands at the end only and counts the missing bytes |
| `Base64.GroupIsNumber` | src/commands/authenticate.c:129 | four letters spell three bytes as one number, most significant bits first |
| `Base64.DecodedSpelling` | src/commands/authenticate.c:122-129 | every text of letters with at most two padding letters behind them decodes, and is the encoding of what it decodes to but for spare bits of the last letter |
| `Sasl.RoundTrip` | src/commands/authenticate.c:169-237 | every complete set of fields whose encoding is at most 800 letters, sent in frames at the start or after any refusal or abort, logs in exactly when the identities agree and the verifier accepts account and password, and is otherwise refused |
| `Sasl.AbortRestarts` | src/commands/authenticate.c:186-192 | until someone is logged in an abort is answered, drops what was collected and lets PLAIN be asked for again |
| `Sasl.LongFrameRefused` | src/commands/authenticate.c:211-215 | a frame over 400 bytes is answered as too long and drops what was collected |
| `Sasl.FullFrameCollected` | src/commands/authenticate.c:224-236 | a full frame that fits is collected and not answered |
| `Sasl.NothingElse` | src/commands/authenticate.c:177-204 | who is logged in stays so; without the capability, or for another mechanism, there is only a refusal |
| `Sasl.LoginOnlyVerified` | src/commands/authenticate.c:139-167 | in every state, a login means that the completed payload names the account, the identities agree and the verifier accepted that account with the password sent |
| `Sasl.LoginMeansVerified` | src/commands/authenticate.c:169-237 | over every run of commands, a login means that since the last accepted PLAIN only full frames and a final one came, and that the verifier accepted the credentials they spell |
| `Sasl.Waiting` | src/commands/authenticate.c:194-235 | a receiver that waits for data holds exactly the frames sent since the last accepted PLAIN |
| `Sasl.DeliverFrames` | src/commands/authenticate.c:211-236 | frames within the limit are decoded as the text they were cut from |
| `Sasl.OverlongRefused` | src/commands/authenticate.c:50-58 | an encoding over the limit is answered with the too-long error and never logs anyone in |
| `Sasl.DataFrame` | src/commands/authenticate.c:186-222 | no data frame is mistaken for the final, the abort or the mechanism frame |
| `Sasl.ParseFieldsComplete` | src/commands/authenticate.c:75-103 | every message of the PLAIN shape is accepted with its own fields |
| `Sasl.ParseFields` | src/commands/authenticate.c:81-96 | nothing but a message of the PLAIN shape is accepted |
| `Sasl.EqualFoldExact` | src/commands/authenticate.c:139 | identities agree exactly when they are the same letter by letter, case aside |
| `Sasl.CredentialsRecovered` | src/commands/authenticate.c:117-138 | the encoded form of such a message yields its fields |
| `Sasl.CredentialsSpelled` | src/commands/authenticate.c:105-137 | nothing but the encoding of a complete PLAIN message of at most 600 bytes is understood, spare bits of the last letter aside |
| `Sasl.PlainFields` | src/commands/authenticate.c:75-103 | the three searches for a zero byte compute the parse |
| `Sasl.CountPadding` | src/commands/authenticate.c:122-123 | the number of trailing padding letters |
| `Sasl.DecodePayload` | src/commands/authenticate.c:117-138 | what is made of a collected payload |
| `Sasl.Client.AppendFrame` | src/commands/authenticate.c:50-73 | appends exactly while the total stays within the limit and memory lasts |
| `Sasl.Client.FinishPlain` | src/commands/authenticate.c:105-167 | the verdict on the collected payload, with the buffer cleared |
| `Sasl.Client.Authenticate` | src/commands/authenticate.c:169-237 | one step of the receiver in every state, abort and error cases included |
| `TokenBucket.RateBound` | src/commands/dispatch.c:167-178 | from any stamped budget on, under any clock, admitted cost is at most the tokens in hand plus rate times the growth of the stamp |
| `TokenBucket.RefillExact` | src/commands/dispatch.c:189-196 | in every case: a budget never used is filled, a clock that has not moved on adds nothing, and otherwise exactly what the elapsed time has earned is added, up to the burst, short of a wrapped product |
| `TokenBucket.ChargedExactly` | src/commands/dispatch.c:170-178 | while the clock stands still the tokens fall by exactly what is admitted |
| `TokenBucket.WaitingHelps` | src/commands/dispatch.c:189-206 | whoever waits until the burst is earned again is admitted |
| `TokenBucket.FreshBoundExact` | src/commands/dispatch.c:170-178 | a new budget is bounded on every run exactly when the first reading is after the epoch |
| `TokenBucket.ServerRateBound` | src/commands/dispatch.c:198-207 | from any stamped server budget on, all clients together stay within the tokens in hand plus 40 per second of stamp growth |
| `TokenBucket.ServerBoundFromStart` | src/commands/dispatch.c:198-207 | from a server that has charged nobody on they stay within 200 plus 40 per second after the first charged request |
| `TokenBucket.ClientRateBound` | src/commands/dispatch.c:198-207 | from any stamped client budget on, the client stays within the tokens in hand plus 4 per second, whatever the others do |
| `TokenBucket.ClientBoundFromStart` | src/commands/dispatch.c:198-207 | a client not charged before stays within 20 plus 4 per second after its first charged request, whatever the server and the others did before |
| `TokenBucket.BudgetBoundsExact` | src/commands/dispatch.c:189-207 | while neither server nor client has been charged, both bounds hold on every run exactly when the first charged request comes after the epoch |
| `TokenBucket.UnchargedIgnored` | src/commands/dispatch.c:200 | operators and free commands leave every budget alone |
| `TokenBucket.BothOrNeither` | src/commands/dispatch.c:202-206 | a request is charged to both budgets, exactly its cost below their refills, exactly when both refills cover it, and otherwise to neither |
| `TokenBucket.PaidExactly` | src/commands/dispatch.c:198-207 | over every run while the clock stands still the tokens of the server fall by exactly what all clients pay and those of each client by exactly what it pays |
| `TokenBucket.Client.GeneralFloodAllow` | src/commands/dispatch.c:167-187 | charges the flood budget as specified and disconnects at the third violation of a window |
| `TokenBucket.RefillWeighted` | src/commands/dispatch.c:189-196 | refills by elapsed time, capped at the burst, and ignores a clock that stepped back |
| `TokenBucket.Client.CommandExpensiveAllow` | src/commands/dispatch.c:198-207 | refills both budgets, admits exactly when both cover the cost, then leaves both exactly the cost lower, and otherwise just refilled |
| `AuthLimit.FixedWindowBounds` | include/auth_limit.h:36-110 | on every run under a clock past the epoch, a second admits at most its limit, an address window less than twice its limit, and a minute at most twice its limit, or less than twice without address limits |
| `AuthLimit.RefusedOnlyWhenSpent` | include/auth_limit.h:36-110 | on every such run an address is refused only if this second, the last minute or the last window length of the address has admitted its whole limit, or if the table is full of others |
| `AuthLimit.MinuteAttained` | include/auth_limit.h:54-60 | a run that admits twice the limit in a minute, because a refused call started the window |
| `AuthLimit.MinuteAloneAttained` | include/auth_limit.h:54-60 | a run without address limits that admits one less than twice the limit in a minute |
| `AuthLimit.AddressAttained` | include/auth_limit.h:72-107 | a run that admits one less than twice the limit of an address |
| `AuthLimit.BoundsExact` | include/auth_limit.h:37-86 | those bounds hold on every run exactly when the clock does not start at the epoch |
| `AuthLimit.StretchBound` | include/auth_limit.h:36-110 | spaced admissions bound every stretch of the window length, wherever it begins |
| `AuthLimit.AddressTracked` | include/auth_limit.h:72-107 | the history of an address agrees with its slot, even when the slot was taken over in between |
| `AuthLimit.DistinctKept` | include/auth_limit.h:73-95 | no address ever holds two slots |
| `AuthLimit.LiveNeverEvicted` | include/auth_limit.h:84-95 | a live counter of another address survives every call |
| `AuthLimit.RefusalCountsNothing` | include/auth_limit.h:43-104 | a refused call counts nothing and at most restarts a server window that is over |
| `AuthLimit.RefusedExactly` | include/auth_limit.h:27-105 | work is refused exactly without an address, for a window that is running and spent, or when the table is full of live counters of others |
| `AuthLimit.AdmittedExactly` | include/auth_limit.h:43-110 | an admitted call is counted once in every limited window, a running one or a new one, and in the slot of its address or else the first that is not taken; nothing else changes |
| `AuthLimit.Server.FindPlace` | include/auth_limit.h:73-95 | the slot of the address, else the first vacant one, else none |
| `AuthLimit.Server.ConsumeWork` | include/auth_limit.h:16-111 | one call updates the windows and the table as specified |
| `LogQueue.Store.NothingLost` | src/channel_log.c:282-423 | in every reachable state an accepted row is queued or written, exactly once if nothing failed, and in the order of its channel if the clock kept order |
| `LogQueue.DeleteExact` | src/chanserv_db_logging.c:295-311 | the delete behind a batch removes exactly the rows of the batch |
| `LogQueue.FetchedAppend` | src/channel_log.c:339-368 | two batches in a row are the one batch of both limits |
| `LogQueue.FetchedUnique` | src/chanserv_db_logging.c:238-293 | a query with its limit has one answer, rows and order |
| `LogQueue.BatchesInOrder` | src/chanserv_db_logging.c:249-278 | a batch keeps the order within every channel, given an orderly clock for the due query |
| `LogQueue.DueOrderExact` | src/chanserv_db_logging.c:277-278 | due batches are in order for all cutoffs and limits exactly when the clock was |
| `LogQueue.Store.Enqueue` | src/channel_log.c:282-302 | nothing where logging is off, refused exactly when the queue is full or the database fails, otherwise the row is durable and counted |
| `LogQueue.Store.Fetch` | src/chanserv_db_logging.c:238-293 | the first rows of the query in its order, all of them if they fit |
| `LogQueue.Store.WriteRows` | src/channel_log.c:351-357 | rows are appended in order until one fails, which is exactly when a write does |
| `LogQueue.Store.WriteRow` | src/channel_log.c:304-325 | a failed write may still have reached the file |
| `LogQueue.Store.DeleteBatch` | src/channel_log.c:358-363 | removes the batch, or nothing when the delete fails, and keeps the counter equal to the number of rows; the saturating branch is dead |
| `LogQueue.Store.FlushBatch` | src/channel_log.c:346-364 | a round moves exactly the fetched rows to the log, finds nothing only when nothing matches, and fails exactly when some call does, with every row still queued |
| `LogQueue.Store.Drain` | src/channel_log.c:339-368 | the loop of bounded rounds does what one query of the whole budget does |
| `LogQueue.Store.FlushChannel` | src/channel_log.c:328-371 | moves exactly the rows one query with the whole budget as its limit would give, in rounds of at most 128; fails exactly for a zero budget or a call that fails, with the rounds before it done |
| `LogQueue.Store.FlushQueued` | src/channel_log.c:387-423 | the same for the due rows of all channels, oldest first |
| `HashTable.FoldsAgree` | src/hash.c:13-25 | the opposite folds of the two files identify the same bytes, which are those 32 apart from `A` to `^` |
| `HashTable.SameNameSameKey` | src/channel_policy.c:13-22 | two names fold alike for the mask matcher exactly when they are one key |
| `HashTable.HashCi` | src/hash.c:27-35 | the hash depends on the fold class only |
| `HashTable.KeyEqualCi` | src/hash.c:37-46 | equality of fold classes |
| `HashTable.Table.Get` | src/hash.c:83-98 | the value the map gives the fold class |
| `HashTable.Table.Set` | src/hash.c:100-131 | updates the map at the fold class, fails only for want of memory on a new key, and keeps one entry per class in its own bucket |
| `HashTable.Table.Remove` | src/hash.c:133-156 | removes the fold class from the map and returns its value |
| `ConnectionIndex.AddressFoldsToItself` | src/server.c:73-79 | folding leaves canonical addresses alone |
| `ConnectionIndex.Server.CountAdd` | src/server.c:81-99 | one more for the address, or no change |
| `ConnectionIndex.Server.CountRemove` | src/server.c:101-113 | one fewer, and no record with zero |
| `ConnectionIndex.Server.Accept` | src/server.c:354-361 | a client is live exactly when counted, which a countable address is given memory; the index stays exact |
| `ConnectionIndex.Server.Disconnect` | src/server.c:776-781 | swap removal keeps the index exact |
| `ConnectionIndex.Server.MoveIdentity` | src/server.c:115-130 | an address change keeps the index exact or changes nothing, and succeeds for the same address and, given memory, for any countable one |
| `ConnectionIndex.Server.LimitReached` | src/server.c:146-159 | equals a count over the live clients without the excluded one |
| `ConnectionIndex.CountSwapRemove` | src/server.c:776-781 | swap removal changes the counts by the removed client only |
| `Persist.RoundTrip` | src/chanserv_persist.c:319-380 | after a save a restore succeeds exactly when no list is over the limit and no mask is empty, and returns the same fields with every list reversed |
| `Persist.RoundTripKeepsAccess` | src/chanserv_persist.c:228-380 | for lists the server built every ban, protected-ban and invite-exception answer is unchanged, and a second round trip restores the order |
| `Persist.OthersUnchanged` | src/chanserv_persist.c:259-271 | saving one channel changes nothing about a restore of another |
| `Persist.SaveExact` | src/chanserv_persist.c:228-276 | exactly when a save goes through, and the tables it leaves |
| `Persist.GoodSaves` | src/chanserv_persist.c:228-276 | lists the server built itself are saved exactly when no mask has a line break in it |
| `Persist.SaveMasksExact` | src/chanserv_persist.c:201-226 | a list is inserted exactly when its masks fit and are distinct and new, in its own order |
| `Persist.LoadList` | src/chanserv_persist.c:285-317 | loading the rows of a list puts it in front, reversed, or fails as a whole |
| `Persist.SameDecisions` | src/channel_policy.c:64-77 | access decisions do not depend on list order |
| `Persist.AddKept` | src/channel.c:190-214 | adding keeps lists duplicate-free and within 100 masks |
| `Persist.AddExact` | src/channel.c:190-214 | in every case: improper masks and full lists are refused, a known mask keeps its place and can only gain its flag, a new one goes to the head, and no other entry changes |
| `Persist.RemoveKept` | src/channel.c:220-234 | removing keeps them so and leaves the mask nowhere |
| `Persist.RemoveExact` | src/channel.c:220-234 | exactly the mask is taken out, and every other entry, its flag and the order stay |
| `Persist.MaskList.AddAuthorized` | src/channel.c:190-214 | a known mask may gain its flag, a new one goes to the head, a full list refuses, and so does a lack of memory for a new one |
| `Persist.MaskList.RemoveMask` | src/channel.c:220-234 | removes the mask and reports whether it was there |
| `Persist.MatchesClient` | src/channel_policy.c:38-62 | true exactly when some (authorized) mask matches the full identity of the client |
| `Persist.FormattedWhole` | src/channel_policy.c:40-42 | the buffer never cuts an identity |
| `Persist.Decide` | src/channel_policy.c:64-77 | the three access decisions |
| `Persist.Channel.AddRows` | src/chanserv_persist.c:285-317 | adds the rows one by one as specified, or reports failure |
| `Persist.Store.InsertMasks` | src/chanserv_persist.c:201-226 | inserts a list as specified |
| `Persist.Store.SaveChannel` | src/chanserv_persist.c:228-283 | commits the whole new state or leaves the database as it was; a COMMIT that leaves its transaction open stops all later saves |
| `Persist.Store.RestoreChannel` | src/chanserv_persist.c:319-380 | the channel is as the connection sees the database, or cleared, or untouched when the name or the database is unusable |
| `Persist.SaveThenRestore` | src/chanserv_persist.c:228-380 | a channel object that can be saved comes back in another object with its lists reversed; one that cannot changes neither |

## Left out

- Sockets, `poll`, OpenSSL, resolvers, mail, GeoIP lookups and Argon2: only their outcomes appear.
- Server notices, numeric replies and the command handlers that only check permissions and format text.
- SQLite schema checks, statement handling and column decoding.
- FairDispatch.Server.Drain: no client is disconnected in the middle of a pass, where swap removal can revisit one client and skip another.
- FairDispatch.Server.Turn: no client joins or leaves during a turn.
- Sasl.DecodePayload: takes `EVP_DecodeBlock` to be standard base64 and does not model its trimming of surrounding white space.
- Cidr.CidrMatch: starts from the bytes and the prefix number; reading them with `inet_pton` and `strtoul` is not modelled.
- Cidr.NetworkOf: the textual result of `inet_ntop` and its buffer size are not modelled.
- ConnectionIndex.Server.CountAdd: the conversion to canonical address text is a parameter, taken to yield address characters and to be idempotent.
- Persist.Store.RestoreChannel: a lack of memory while restoring counts as a failed statement.
- HashTable.Table.Set: chains are sequences, not linked nodes.
- Persist.MaskList.AddAuthorized: the linked list is a sequence.
- LogQueue.Store.Fetch: rows that cannot be decoded count as a failed fetch.
- MODE broadcast, ChanServ mode locks, colour stripping, ban durations, configuration parsing and WHOWAS.
