# Verified models of the system's protocols and algorithms

This project models the parts of the system that carry real algorithms or protocols and proves
what they promise. Each source file's code is written in its own form: objects and static tables
are classes whose methods update fields and arrays, loops are loops. Every such method is proved
equal to a specification function, and the theorems are about those functions, for all inputs.

| file | models |
|---|---|
| `ItemOrganizer.dfy` | the desktop's grid allocator |
| `Checksum.dfy`, `InetAddress.dfy`, `Ping.dfy` | Internet checksum, dotted quads over the library's `strtol`, ARP and the echo request |
| `ShellParser.dfy`, `ShellLanguage.dfy` | the command parser, the automaton it equals, the printer it undoes |
| `CommandLine.dfy` | the route of arguments from the shell to the started program |
| `TerminalStream.dfy`, `TerminalLaws.dfy` | the terminal byte stream, its encoder and decoder |
| `TerminalProgram.dfy`, `GhshDecoder.dfy` | the two terminal programs |
| `TerminalEffects.dfy` | the bytes of the client library and what each sequence does to the terminal |
| `TerminalSession.dfy` | two encoded streams at work on one terminal |
| `TerminalClient.dfy`, `TerminalDuplex.dfy` | the client library and both directions together |
| `ExitHandlers.dfy` | `__cxa_atexit` and `__cxa_finalize` under re-entrancy |
| `Pipeline.dfy`, `ProgramLookup.dfy`, `LineEditor.dfy` | the shell's pipelines, program lookup and line editor |
| `WaveReader.dfy` | the RIFF/WAVE chunk reader |
| `Arithmetic.dfy`, `Ascii.dfy` | shared arithmetic facts, characters, decimal numbers |

`dafny verify dfyconfig.toml` checks everything.

## What the proofs show about the code

- Cells of the desktop grid are told apart by a key that two different cells can share
  (`AliasedCells`), so an item can be moved off a cell that nobody else occupies.
  `FreeCellIsGivenUpIff` says when, `FreeCellExample` shows a case. An item in the last column of
  a background whose width is an exact multiple of the cell size lies outside it (`InsideIff`,
  `LastColumnOutside`). Organizing is still idempotent in every case.
- The library's `strtol` does not put the end pointer back when no digit follows, unlike
  section 7.22.1.4 of N1548, so `parseIp` accepts texts such as `+.-. .+` (`DigitlessAddress`).
  `StandardDiffersIff` says which texts are treated differently; the standard would refuse all of
  them. The model follows the code.
- A byte equal to the parser's end marker -1 ends the command line early
  (`EndMarkerHides`); the whole line is seen exactly when there is none (`WholeInputSeenIff`).
- A program whose arguments fit the library's buffer does not receive what the shell parsed when
  an argument has a quote, a backslash, a separator or a terminator, or the last one is empty,
  because the library cleans arguments a second time (`ReceivedIff`, `QuoteIsLost`).
- A terminal command with a negative number is not decoded as that command
  (`DecodedIffNonNegative`, `NegativeMove`). The parameter array of a new stream is not
  initialised; `FirstCommandUnderstoodIff` says for each command which entries must hold zero for
  the first one to do what it means. For `GetSize`, `Remove` and `SetEcho(false)`, among others,
  none must; with a 7 in the array `SetEcho(true)` turns the echo off (`EchoMisunderstood`).
  Whatever else the arrays hold does no harm (`OutputRoutines`). A leading semicolon does not
  count as an empty first parameter (`LeadingSemicolon`). A colour setting with more than four
  counted fields makes the handler read behind its array (`OverReadIff`, `FiveColorsOverRead`).
- A query loses typed keys exactly when the queue of 64 cannot hold them (`QueryKeepsKeysIff`,
  `LostKey`), misses its reply exactly when a typed key decodes to the escape character
  (`QueryExactIff`, `StrayEscMissesReply`), and waits for ever exactly when no escape key stands behind complete
  keys in the input (`EscComesIff`, `EscNeverComesIff`, `CutKeyHidesEsc`).
- A handler registered while the last finalization runs is not called unless a handler finalizes
  again (`LateHandlerUncalled`, `AllCalledIff`, `AllCalledWhenClosedUp`). None is left over
  whatever handlers do exactly when the table is full or nothing is pending
  (`AlwaysAllCalledIff`).
- A handler that finalizes another object can break the reverse order (`OrderBrokenByOneObject`).
  The order is kept whatever handlers do exactly when the table is grouped: apart from the topmost
  pending handler, above each pending handler of an object there are only pending ones of that
  object (`OrderKeptIffGrouped`). On other tables it is kept by handlers that finalize everything
  or nothing (`ReverseUnderReentry`).
- A pipeline that fails to start can leave up to three descriptors open (`LeftCount`,
  `ThreeLeftOpen`).

## Model

| member | source | states |
|---|---|---|
| ItemOrganizer.Organizer.Organize | applications/desktop/src/item_organizer.cpp:26-92 | the in-place run over items, bounds and table gives every item the bounds of the declarative specification: own cell for the first item of a key, r-th free slot for the r-th other item, own cell when slots run out; an item that collides with no earlier one ends at the nearest cell |
| ItemOrganizer.Organizer.SnapAndClaim | applications/desktop/src/item_organizer.cpp:43-70 | after the first loop all items are snapped, the table marks exactly the keys in use, the list holds exactly the items whose key an earlier item has, in order |
| ItemOrganizer.Organizer.PlaceNext | applications/desktop/src/item_organizer.cpp:72-85 | first fit over the table gives the item of rank r the r-th free slot, or leaves it when none is left, and touches no other item |
| ItemOrganizer.EndsNearest | applications/desktop/src/item_organizer.cpp:43-60 | an item that collides with no earlier one keeps its size and ends at the cell of the grid nearest to it along both axes, the right or lower one of two equally near |
| ItemOrganizer.EndsAtFirstFit | applications/desktop/src/item_organizer.cpp:72-85 | an item that collides ends on the first slot, row by row, that is no item's cell and was not given away before, or on its own cell when there is none |
| ItemOrganizer.LastIndexMeaning | applications/desktop/src/item_organizer.cpp:37-38 | how far the computed grid goes: to the edge on an exact fit, otherwise to the last cell that lies inside with the one behind it cut |
| ItemOrganizer.OrganizeIsIdempotent | applications/desktop/src/item_organizer.cpp:43-85 | organizing organized items changes nothing, for every list of items, overcrowded or not |
| ItemOrganizer.DistinctIffSlotsSuffice | applications/desktop/src/item_organizer.cpp:62-85 | all items end on distinct keys exactly when the free slots suffice for the items that lost their cell |
| ItemOrganizer.AllItemsApart | applications/desktop/src/item_organizer.cpp:62-85 | with at most maxX*maxY items no two end in the same cell or at the same place |
| ItemOrganizer.EnoughSlots | applications/desktop/src/item_organizer.cpp:72-85 | pigeonhole: at most m items never need more free slots than there are |
| ItemOrganizer.KeyInTable | applications/desktop/src/item_organizer.cpp:40-68 | every key of a grid cell indexes the table, although the stride is smaller than a row of the table |
| ItemOrganizer.AliasedCells | applications/desktop/src/item_organizer.cpp:54-68 | two different cells share a key exactly when one is in column maxX and the other starts the next row, or the grid has no other column |
| ItemOrganizer.FreeCellIsGivenUpIff | applications/desktop/src/item_organizer.cpp:62-85 | in every list an item alone on its cell is moved off it exactly when an earlier item is on a cell with the same key and a slot is free for it |
| ItemOrganizer.FreeCellExample | applications/desktop/src/item_organizer.cpp:62-85 | two items on different cells of a background of two by two cells, of which the second is moved |
| ItemOrganizer.InsideIff | applications/desktop/src/item_organizer.cpp:37-60 | a grid cell lies fully inside the background unless it is in the last column or row of an exact fit |
| ItemOrganizer.LastColumnOutside | applications/desktop/src/item_organizer.cpp:37-60 | an item that keeps its cell right of the background |
| ItemOrganizer.ReplacedInside | applications/desktop/src/item_organizer.cpp:75-81 | every re-placed item lies fully inside the background |
| ItemOrganizer.LastIndexNonNegativeIff | applications/desktop/src/item_organizer.cpp:37-40 | when the computed grid is not negative, which the table's size needs |
| Checksum.Checksum16 | applications/ping/src/ping.cpp:176-194 | for every buffer, odd length included, the accumulator loop and the carry loop return the complement of the folded word sum modulo 2^32 |
| Checksum.AddWords | applications/ping/src/ping.cpp:178-184 | the loop adds all whole words modulo 2^32 |
| Checksum.OddTail | applications/ping/src/ping.cpp:185-188 | an odd last byte is padded with a zero behind it on big-endian machines and in front of it on little-endian ones |
| Checksum.FoldClosedForm | applications/ping/src/ping.cpp:189-192 | folding carries ends in the representative of the sum modulo 65535, zero only for zero |
| Checksum.NoOverflow | applications/ping/src/ping.cpp:178-184 | up to 65537 words never overflow the 32-bit accumulator |
| Checksum.StoredChecksumVerifies | applications/ping/src/ping.cpp:366-369 | the checksum stored in a zeroed word makes the checksum of the whole zero |
| Checksum.ByteOrderIndependence | applications/ping/src/ping.cpp:176-194 | byte-swapped words give the byte-swapped checksum |
| Checksum.StoredChecksumIsPortable | applications/ping/src/ping.cpp:366-379 | at the level of bytes: machines of both byte orders store the same checksum bytes and both accept them |
| Checksum.ValidIff | applications/ping/src/ping.cpp:176-194 | a block passes exactly when its word sum is a positive multiple of 65535 |
| Checksum.SingleWordDamage | applications/ping/src/ping.cpp:176-194 | which changes of one word of a valid block go unnoticed, exactly |
| InetAddress.StrtolLoop | libc/src/stdlib/strtol.c:27-89 | the library's loop for base 10: spaces, sign, digits up to overflow of the 64-bit long, end pointer |
| InetAddress.DigitsRead | libc/src/stdlib/strtol.c:62-84 | the digits read are a run with the value returned, or the value is clamped because the next digit would overflow |
| InetAddress.ParseIp | applications/ping/src/ping.cpp:138-168 | the cursor loop computes the specified parse |
| InetAddress.ParseIff | applications/ping/src/ping.cpp:138-168 | a text is accepted exactly when it is four dotted fields of spaces, sign and digits with values 0 to 255, and the address is made of them |
| InetAddress.StandardDiffersIff | applications/ping/src/ping.cpp:148-150 | for every text: what the standard's `strtol` would accept the library's accepts alike, and they disagree on exactly the dotted fields of which one has no digit |
| InetAddress.DigitlessAddress | applications/ping/src/ping.cpp:138-168 | `+.-. .+` is accepted as 0.0.0.0 and the standard would refuse it |
| InetAddress.ParseOfFormat | applications/ping/src/ping.cpp:129-168 | parsing a formatted address returns it, for every 32-bit address, and the text fits the 32-byte buffers |
| InetAddress.AddressOfNumbers | applications/ping/src/ping.cpp:129-168 | printing and parsing take the first number for the most significant byte |
| InetAddress.CanonicalForm | applications/ping/src/ping.cpp:129-168 | every accepted text has a canonical form that parses to the same address |
| Ping.NetworkOrderOnEveryMachine | applications/ping/src/ping.cpp:101-127 | swapping on little-endian machines and storing natively gives big-endian bytes on both, and reading undoes it |
| Ping.Node.BuildArp | applications/ping/src/ping.cpp:219-263 | the stores into the packet buffer produce the ethernet header and ARP packet field by field |
| Ping.ArpBytes | applications/ping/src/ping.cpp:219-263 | every byte of a built ARP frame at its place |
| Ping.ArpAddressing | applications/ping/src/ping.cpp:219-285 | requests go to the broadcast address, answers to the asker, in the Ethernet header and in the packet |
| Ping.DecodeOfBuild | applications/ping/src/ping.cpp:219-309 | decoding a built packet gives back its fields, whatever padding follows |
| Ping.Agreement | applications/ping/src/ping.cpp:265-309 | a node answers a request exactly when it owns the wanted address, and the asker reads that node's hardware address from the answer |
| Ping.BystandersIgnoreReplies | applications/ping/src/ping.cpp:287-309 | another node accepts that answer only with the asker's address and target, and never answers it |
| Ping.FramesAgree | applications/ping/src/ping.cpp:196-309 | what the driver is handed for a request and for its answer, padded, resolves the target on the other side |
| Ping.AnsweredIff | applications/ping/src/ping.cpp:265-285 | which frames are answered, by their bytes |
| Ping.ResolvedIff | applications/ping/src/ping.cpp:287-309 | which frames resolve the target, by their bytes |
| Ping.Node.HandleArpRequest | applications/ping/src/ping.cpp:265-285 | which frames are answered, with what, and that nothing else is sent |
| Ping.Node.TryParseArpReply | applications/ping/src/ping.cpp:287-309 | which frames resolve the target and to what |
| Ping.Node.ResolveTargetMac | applications/ping/src/ping.cpp:311-346 | over every sequence of reads: success only with the first reply from the target to this node within 400 reads, otherwise a time-out; the frames sent are exactly the specified ones |
| Ping.AtMostFive | applications/ping/src/ping.cpp:320-343 | every run sends at most five requests |
| Ping.SilentTarget | applications/ping/src/ping.cpp:311-346 | with nothing received a run sends exactly five requests |
| Ping.RequestIsAnswered | applications/ping/src/ping.cpp:322-326 | a request for this node is answered and nothing else is sent for it, be it time for an own request or not |
| Ping.Node.SendIcmpEcho | applications/ping/src/ping.cpp:348-382 | the frame handed to the driver is the specified echo request |
| Ping.EchoVerifies | applications/ping/src/ping.cpp:348-382 | both checksums of the frame verify on machines of both byte orders, and the frame does not depend on the sender's |
| Ping.EchoFields | applications/ping/src/ping.cpp:353-379 | the values a receiver reads at the fixed places of the frame |
| Ping.EchoBytes | applications/ping/src/ping.cpp:348-379 | every byte of the echo frame besides the checksums, addresses and payload included |
| Ping.Node.TryHandleIcmpReply | applications/ping/src/ping.cpp:384-416 | exactly which frames are taken for the reply, longer IP headers included |
| Ping.EchoAgreement | applications/ping/src/ping.cpp:348-416 | a peer's echo message is taken for the reply exactly when it is a reply with the awaited sequence number from the target to this node |
| Ping.EchoReplyIff | applications/ping/src/ping.cpp:384-416 | behind an IP header of any length the message is found where it begins, and every field has to be right |
| ShellParser.Parser.Step | applications/gsh/src/parser.cpp:37-47 | the character and position after a step, at the end of the input too |
| ShellParser.Parser.PipeExpression | applications/gsh/src/parser.cpp:63-114 | terminates, computes the specified pipeline, consumes the effective input on success; no character other than a pipe or the end can follow a call |
| ShellParser.Parser.ProgramCall | applications/gsh/src/parser.cpp:119-146 | fails exactly on an empty program name, otherwise reads the call and stops behind it |
| ShellParser.Parser.Argument | applications/gsh/src/parser.cpp:151-228 | the quote and escape loop reads the specified argument, or nothing in front of a pipe or the end |
| ShellParser.Parser.Consumed | applications/gsh/src/parser.cpp:63-114 | with nothing left the position is behind the whole effective input |
| ShellGrammar.ReadArgument | applications/gsh/src/parser.cpp:168-228 | an argument that does not start at a pipe or blank consumes at least one character and ends at a pipe, a blank or the end |
| ShellGrammar.ReadCall | applications/gsh/src/parser.cpp:76-99 | behind a call there is a pipe or nothing, so the unexpected-character branch is unreachable |
| ShellGrammar.EndMarkerHides | applications/gsh/src/parser.cpp:37-47 | what the parser sees ends in front of the first byte equal to the end marker, whatever follows |
| ShellGrammar.WholeInputSeenIff | applications/gsh/src/parser.cpp:37-47 | the whole input is seen exactly when no byte equals the end marker |
| ShellAutomaton.ParserIsAutomaton | applications/gsh/src/parser.cpp:63-228 | the recursive-descent parser equals a one-pass automaton on every text |
| ShellAutomaton.ParseFailsIff | applications/gsh/src/parser.cpp:68-146 | parsing fails exactly when some stage between unquoted, unescaped pipes is whitespace only; otherwise there is one call per stage |
| ShellPrinter.ParseOfPrint | applications/gsh/src/parser.cpp:63-228 | parsing a printed pipeline gives the same calls, for arbitrary arguments in quotes or behind backslashes and every layout |
| CommandLine.ConcatenateArguments | applications/gsh/src/gosh.cpp:424-438 | the arguments joined by unit separators |
| CommandLine.CleanArgument | libc/src/stdlib/parseargs.c:118-145 | the in-place clean-up drops unescaped quotes and backslashes |
| CommandLine.SplitOfJoined | libc/src/stdlib/parseargs.c:66-116 | splitting undoes joining except for an empty last argument |
| CommandLine.ReceivedIff | libc/src/stdlib/parseargs.c:57-150 | a program whose arguments fit the 1024-byte buffer receives exactly the shell's arguments if and only if none has a separator, terminator, quote or backslash and the last is not empty |
| CommandLine.QuoteIsLost | libc/src/stdlib/parseargs.c:118-145 | an argument that is one quote arrives as an empty one |
| CommandLine.CleaningUndoesQuoting | libc/src/stdlib/parseargs.c:118-145 | the library's clean-up undoes the same quoting the shell's parser undoes |
| CommandLine.QuotedTwiceArrives | libc/src/stdlib/parseargs.c:57-150 | hence arguments quoted once more arrive as they are, empty ones included |
| CommandRoute.TypedArgumentsArriveIff | applications/gsh/src/gosh.cpp:424-475 | from the typed line through parser, joining and splitting to the started program: when the meant arguments, if they fit the buffer, arrive |
| TerminalStream.CollectMeaning | applications/terminal/src/terminal.cpp:385-403 | for every string of digits and semicolons: count and parameters are those of its fields without an empty first one, missing and empty ones zero, excess ones dropped |
| TerminalStream.DecodeSequence | applications/terminal/src/terminal.cpp:333-426 | an encoded sequence with non-negative numbers is dispatched with exactly its kind, count, parameters and final character |
| TerminalStream.RunStaysClean | applications/terminal/src/terminal.cpp:417-423 | outside a sequence count and parameters are zero, on every run |
| TerminalLaws.DecodeOfEncode | applications/libterminal/src/terminal.cpp:36-61 | any sequence of commands and escape-free text is decoded as exactly those commands and that text |
| TerminalLaws.PlainTextVerbatim | applications/terminal/src/terminal.cpp:336-365 | text without tabs and carriage returns is written as it is, in the stream's colour |
| TerminalLaws.DecodedIffNonNegative | applications/libterminal/src/terminal.cpp:159-170 | a command is decoded as itself exactly when none of its numbers is negative |
| TerminalLaws.NegativeMove | applications/libterminal/src/terminal.cpp:288-292 | moving up by -1 arrives as an unknown sequence and the text `1A` |
| TerminalSession.FirstCommandUnderstoodIff | applications/terminal/src/terminal.cpp:304-318 | for each command and any contents of the uninitialised array: the handler does what the first command means exactly when the entries it depends on hold zero |
| TerminalSession.EchoMisunderstood | applications/terminal/src/terminal.cpp:304-318 | with a 7 in the array the first command to turn the echo on turns it off |
| TerminalSession.OverReadIff | applications/terminal/src/terminal.cpp:453-456 | which strings of digits and semicolons make a colour setting read behind the array |
| TerminalSession.FiveColorsOverRead | applications/terminal/src/terminal.cpp:453-456 | a colour setting with five numbers does |
| TerminalSession.StreamByte | applications/terminal/src/terminal.cpp:333-426 | each byte of an encoded stream brings about exactly its own part: a character, a command with its last byte, or nothing yet; from every array whose contents do not matter to the first command |
| TerminalSession.OutputRoutines | applications/terminal/src/terminal.cpp:299-331 | one terminal, two statuses with uninitialised arrays that do not matter to the first commands: however two encoded streams are cut into reads and interleaved, the terminal ends as if the texts and the meanings of the commands had been performed, each when its last byte came; every moment of the run included |
| TerminalSession.EachInOrder | applications/terminal/src/terminal.cpp:299-331 | what the terminal does is one line of deeds, each with the screen of its own time, in which the deeds of each stream are what its items mean, item by item |
| TerminalSession.AloneInOrder | applications/terminal/src/terminal.cpp:299-331 | a stream that has the terminal for itself is carried out item by item, whatever becomes of the screen meanwhile |
| TerminalEffects.WireFormat | applications/libterminal/src/terminal.cpp:36-380 | the bytes of every command of the client library |
| TerminalEffects.TextEffect | applications/terminal/src/terminal.cpp:336-365 | what each byte outside a sequence shows: itself, red from the error stream, four blanks for a tab, nothing for a carriage return |
| TerminalEffects.OtherEscape | applications/terminal/src/terminal.cpp:366-379 | an escape character in front of any other byte swallows it |
| TerminalEffects.CommandEffect | applications/terminal/src/terminal.cpp:428-563 | for each command, from its bytes: what becomes of mode, echo, controlled process, the shell's input and the screen |
| TerminalEffects.ColorEffect | applications/terminal/src/terminal.cpp:453-472 | which colour a number sets, and which set none |
| TerminalEffects.ColorsInOrder | applications/terminal/src/terminal.cpp:453-472 | several colours are set in order |
| TerminalEffects.NoEffectVt100 | applications/terminal/src/terminal.cpp:428-520 | all other sequences do nothing |
| TerminalEffects.NoEffectGhostterm | applications/terminal/src/terminal.cpp:522-563 | all other sequences of the second kind do nothing |
| TerminalProgram.HandledAsMeant | applications/terminal/src/terminal.cpp:428-563 | the handlers do what the client means by each command, argument order and sign included |
| TerminalProgram.StreamStatus.Parameter | applications/terminal/src/terminal.cpp:385-403 | one digit or semicolon, in the shared status, in place |
| TerminalProgram.Program.ProcessOutput | applications/terminal/src/terminal.cpp:333-426 | one byte changes status and terminal exactly as the automaton and the handlers specify |
| TerminalProgram.Program.ProcessSequenceVt100 | applications/terminal/src/terminal.cpp:428-520 | every case of the handler, the loop over colour parameters and the cursor reply included |
| TerminalProgram.Program.ProcessSequenceGhostterm | applications/terminal/src/terminal.cpp:522-563 | every case of the handler, the size reply included |
| TerminalProgram.Program.WriteTermkeyToShell | applications/terminal/src/terminal.cpp:170-177 | the three bytes of a key, for every int |
| GhshDecoder.Decoder.ProcessOutput | applications/ghsh/src/ghsh.cpp:400-477 | the second decoder makes the same step and dispatches the same events |
| GhshDecoder.Decoder.OutputRoutine | applications/ghsh/src/ghsh.cpp:479-509 | however the stream is cut into reads, the events are those of the whole stream from the memory the array held |
| TerminalClient.Client.ReadUnbuffered | applications/libterminal/src/terminal.cpp:65-86 | one key, a 16-bit one included, and the end of the input |
| TerminalClient.Client.BufferChar | applications/libterminal/src/terminal.cpp:91-115 | the key is appended, or dropped when 64 are buffered |
| TerminalClient.Client.ReadAndBufferUntilEsc | applications/libterminal/src/terminal.cpp:120-129 | all keys up to the escape key are buffered in order, and the input is behind it |
| TerminalClient.Client.GetChar | applications/libterminal/src/terminal.cpp:134-154 | the first buffered key, the rest shifted down, or the next key of the input |
| TerminalClient.Client.ReadEscapedParameters | applications/libterminal/src/terminal.cpp:175-208 | the parameters filled in place, the key that ended them, the input behind it |
| TerminalClient.Client.GetCursor | applications/libterminal/src/terminal.cpp:213-246 | the request sent, the answer, the queue and the remaining input |
| TerminalClient.Client.GetSize | applications/libterminal/src/terminal.cpp:251-284 | the same for the size |
| TerminalDuplex.ReadKeyOfBytes | applications/terminal/src/terminal.cpp:170-177 | reading a key undoes writing it |
| TerminalDuplex.KeyOfBytes | applications/libterminal/src/terminal.cpp:65-86 | the low byte of a 16-bit key comes first |
| TerminalDuplex.TermkeyIsMasked | applications/terminal/src/terminal.cpp:170-177 | of every int written as a key the client reads the low 16 bits |
| TerminalDuplex.EscComesIff | applications/libterminal/src/terminal.cpp:120-129 | the wait for a reply ends exactly on inputs with an escape key, plain or 16-bit, behind complete keys, and has then collected just those keys; on all others no read ever yields one |
| TerminalDuplex.DecodersAgree | applications/libterminal/src/terminal.cpp:175-208 | client and both terminals find the same parameters and final character in every string of digits and semicolons |
| TerminalDuplex.QueryOfReply | applications/libterminal/src/terminal.cpp:213-284 | behind any stray keys the client reads exactly the reply's numbers, collects the strays and stops behind the reply |
| TerminalDuplex.QueryExactIff | applications/libterminal/src/terminal.cpp:120-129 | the reply is found behind the strays exactly when none of them is an escape key |
| TerminalDuplex.StrayEscMissesReply | applications/libterminal/src/terminal.cpp:213-246 | with the escape key typed ahead the query fails and the rest of the reply is left as typed keys |
| TerminalDuplex.OtherReply | applications/libterminal/src/terminal.cpp:213-284 | a reply of another kind is no answer, and is consumed |
| TerminalDuplex.QueryKeepsKeysIff | applications/libterminal/src/terminal.cpp:91-154 | no key is lost, duplicated or reordered exactly when the queue can hold the strays; otherwise just the last ones are lost |
| TerminalDuplex.LostKey | applications/libterminal/src/terminal.cpp:91-115 | of 65 keys typed ahead of a reply the last is lost |
| TerminalDuplex.GetCharsTakePending | applications/libterminal/src/terminal.cpp:134-154 | any number of successive reads return the pending keys in order, the queue's before the input's |
| TerminalDuplex.TerminalAnswersQuery | applications/terminal/src/terminal.cpp:490-499 | the encoded query makes the terminal send its cursor and change nothing else |
| TerminalDuplex.FullDuplex | applications/libterminal/src/terminal.cpp:213-246 | there and back between typed keys: the terminal's cursor arrives, and all keys come in order |
| TerminalDuplex.FullDuplexSize | applications/libterminal/src/terminal.cpp:251-284 | the same for the size: the terminal's columns arrive as the width and its rows as the height |
| Decimal.ValueOfPrint | applications/libterminal/src/terminal.cpp:36-44 | reading a printed number digit by digit gives the number |
| Decimal.PrefixValue | applications/terminal/src/terminal.cpp:392-398 | no intermediate parameter value exceeds the number sent, so numbers that fit an int never overflow it |
| ExitHandlers.Registry.CxaAtexit | libc/src/itanium_cxx_abi_support.c:37-48 | registered at the end of the table, or refused when null or full |
| ExitHandlers.TableOfRegistrations | libc/src/itanium_cxx_abi_support.c:37-48 | after any registrations the table holds function, argument and object of those with a function, in order, as far as there is room |
| ExitHandlers.RegisteredIsCalled | libc/src/itanium_cxx_abi_support.c:37-66 | finalizing everything then calls exactly these functions with these arguments, last one first |
| ExitHandlers.Registry.CxaFinalize | libc/src/itanium_cxx_abi_support.c:50-66 | terminates for all handler behaviours and leaves table and calls as specified |
| ExitHandlers.Registry.CallHandler | libc/src/itanium_cxx_abi_support.c:63-64 | a handler's registrations and nested finalizations, in order |
| ExitHandlers.RunConsistent | libc/src/itanium_cxx_abi_support.c:55-65 | in every run, re-entrant ones included, no handler is called twice, a slot is marked exactly when its handler was called, and each handler is called with the argument registered for it |
| ExitHandlers.FinalizeCovers | libc/src/itanium_cxx_abi_support.c:50-66 | after a finalization every selected handler registered before it has been called, re-entrancy or not |
| ExitHandlers.FinalizeInReverse | libc/src/itanium_cxx_abi_support.c:55-65 | with handlers that do not finalize: exactly the pending selected handlers, each once, in reverse order of registration |
| ExitHandlers.PendingSlots | libc/src/itanium_cxx_abi_support.c:57-62 | the pending slots are exactly the uncalled ones of the object, or of all objects |
| ExitHandlers.AllCalledIff | libc/src/itanium_cxx_abi_support.c:55-65 | with handlers that do not finalize: the last finalization leaves no handler uncalled exactly when the table is full or no handler it calls, given the table at its turn, registers one |
| ExitHandlers.LateHandlerUncalled | libc/src/itanium_cxx_abi_support.c:55-65 | a registry of one handler that registers another, which is never called |
| ExitHandlers.AllCalledWhenClosedUp | libc/src/itanium_cxx_abi_support.c:50-66 | whatever handlers finalize in turn, if behind all they register they finalize its object or everything, the last finalization leaves none uncalled |
| ExitHandlers.AlwaysAllCalledIff | libc/src/itanium_cxx_abi_support.c:50-66 | none is left uncalled whatever handlers register and finalize exactly when the table is full or nothing is pending |
| ExitHandlers.RunKeepsSchedule | libc/src/itanium_cxx_abi_support.c:50-66 | in every run, however nested, calls made and calls to come form the same plan, if the pending slots are nested by object, or the handlers finalize everything or nothing |
| ExitHandlers.OrderKeptIffGrouped | libc/src/itanium_cxx_abi_support.c:50-66 | for every consistent table: the last finalization calls the pending handlers in reverse order of registration whatever handlers register and finalize, exactly when the table is grouped by object below its topmost pending slot |
| ExitHandlers.ReverseUnderReentry | libc/src/itanium_cxx_abi_support.c:50-66 | on every table handlers that finalize everything or nothing keep that order |
| ExitHandlers.OrderBrokenByOneObject | libc/src/itanium_cxx_abi_support.c:50-66 | a handler that finalizes another object makes an earlier handler run before a later one |
| ExitHandlers.ObjectThenGlobal | libc/src/itanium_cxx_abi_support.c:50-66 | finalizing an object and then everything, with handlers that may register: each handler registered before the second is called once, the object's first, and when some are left over |
| Pipeline.Shell.ProcessExpression | applications/gsh/src/gosh.cpp:406-535 | which processes are started, on which files, with which arguments and streams: the shell's at both ends, pipes of their own in between, errors to the shell's; success: the last process joined; failure: nothing joined, exactly the leaked ends left open; the descriptors are as before exactly for a builtin, a successful run, or a first call that fails without a pipe |
| Pipeline.Shell.StartCall | applications/gsh/src/gosh.cpp:416-525 | one round: pipe, standard streams, spawn, closing of the ends handed over |
| Pipeline.WiredToTheNext | applications/gsh/src/gosh.cpp:456-466 | the output of process i goes to process j exactly when j is the next one |
| Pipeline.Leaked | applications/gsh/src/gosh.cpp:443-525 | at most three descriptors stay open |
| Pipeline.LeftCount | applications/gsh/src/gosh.cpp:443-525 | how many descriptors a failing run leaves behind, and when none |
| Pipeline.ThreeLeftOpen | applications/gsh/src/gosh.cpp:443-525 | a run of three programs of which the second cannot be started leaves three |
| ProgramLookup.FindProgram | applications/gsh/src/gosh.cpp:239-311 | terminates with one recursion at most and returns the specified file |
| ProgramLookup.SearchPath | applications/gsh/src/gosh.cpp:273-301 | the loop over the PATH finds the first existing candidate in its directories |
| ProgramLookup.FoundIsFirst | applications/gsh/src/gosh.cpp:239-311 | the answer is the first existing candidate, or the name with the extension when none exists |
| ProgramLookup.CandidatesAre | applications/gsh/src/gosh.cpp:239-311 | the candidates name by name: current directory, bare name, three fixed directories, those of the PATH with an empty one for the current, and once more with the extension |
| ProgramLookup.PathUsed | applications/gsh/src/gosh.cpp:273-277 | the default PATH is used without one and with an empty one |
| ProgramLookup.DirectoriesSplitPath | applications/gsh/src/gosh.cpp:279-301 | the directories are the PATH cut at its colons |
| LineEditor.Autocomplete | applications/gsh/src/gosh.cpp:36-81 | the completions, in the order of the directory, in all three slash cases |
| LineEditor.CompletionsIff | applications/gsh/src/gosh.cpp:62-77 | exactly the listed entries that begin as typed |
| LineEditor.CompletionsExtend | applications/gsh/src/gosh.cpp:41-75 | every completion begins with the typed word |
| LineEditor.ReadInputLine | applications/gsh/src/gosh.cpp:83-220 | over every key sequence line and caret are a zipper's two halves, the caret inside the line, and the line is accepted exactly on enter |
| LineEditor.HandleKey | applications/gsh/src/gosh.cpp:99-216 | what each key does to both halves |
| LineEditor.TabOnlyExtends | applications/gsh/src/gosh.cpp:130-161 | completion leaves the text behind the caret alone and only extends the text in front of it |
| LineEditor.TabCompletes | applications/gsh/src/gosh.cpp:130-161 | a word is completed exactly when one entry of the directory it names begins like its last part, to that entry, with a slash behind a directory |
| LineEditor.TabFindsNothing | applications/gsh/src/gosh.cpp:130-161 | with no such entry or directory nothing changes |
| LineEditor.SearchOfPath | applications/gsh/src/gosh.cpp:41-57 | which directory a word with slashes names, from the root or the current directory |
| LineEditor.TypedAppears | applications/gsh/src/gosh.cpp:201-216 | typed characters appear in front of the caret, in order |
| LineEditor.TypedLine | applications/gsh/src/gosh.cpp:83-220 | a line typed and entered is the line read |
| LineEditor.TypedThenErased | applications/gsh/src/gosh.cpp:99-216 | behind any key sequence, typing a text and erasing as many characters restores line and caret |
| WaveReader.SoundFile.ReadFully | applications/startupsound/src/startupsound.cpp:57-69 | all bytes or failure at the end of the file, whatever single reads deliver |
| WaveReader.SoundFile.SkipBytes | applications/startupsound/src/startupsound.cpp:71-84 | the same for skipping |
| WaveReader.SoundFile.SkipPadding | applications/startupsound/src/startupsound.cpp:86-94 | one byte behind an odd chunk |
| WaveReader.SoundFile.ReadFmt | applications/startupsound/src/startupsound.cpp:136-157 | when a format chunk is read and when it is supported |
| WaveReader.SoundFile.LoadLoginSound | applications/startupsound/src/startupsound.cpp:96-189 | terminates and returns the specified result for every schedule of short reads |
| WaveReader.LoadOfFile | applications/startupsound/src/startupsound.cpp:96-189 | from every well-formed file the first data chunk is loaded |
| WaveReader.LoadIff | applications/startupsound/src/startupsound.cpp:96-189 | loading succeeds exactly on header, chunks with padding, supported formats with at least one, and a complete data chunk, with that chunk's bytes |
| WaveReader.SupportedIff | applications/startupsound/src/startupsound.cpp:148-155 | which formats, written field by field, are supported |
| WaveReader.LittleEndian | applications/startupsound/src/startupsound.cpp:120-127 | numbers are read least significant byte first |

## Left out

- System calls, pipes, processes and files: they appear as nondeterministic parameters (which reads deliver what, which pipes and spawns succeed, which descriptors are given out, which paths exist).
- Integer widths: coordinates, parameters and lengths are unbounded except where the width matters (the checksum's accumulator and words, 32-bit addresses, `LONG_MAX`, chunk sizes); `Decimal.PrefixValue` shows why decoded numbers that fit need no more. `LONG_MAX` is that of x86_64.
- TerminalSession.FirstCommandUnderstoodIff: contents of the uninitialised array that overflow an `int` when digits are added to them are treated as unbounded numbers.
- TerminalSession.OutputRoutines: what the screen's size and cursor are when a byte is processed is a parameter of each byte.
- ItemOrganizer.Organizer.Organize: backgrounds smaller than a cell but not empty are excluded, because the code's table has no valid size for them; `LastIndexNonNegativeIff` says when. An item listed twice gets the bounds of its last entry.
- TerminalProgram.Program.ProcessOutput: a colour sequence with more than four counted parameters is excluded, because the handler then reads behind its array; `OverReadIff` says which strings those are. Screen effects, flushes and locks are not modelled; writes to the shell are complete.
- TerminalProgram.Program.ProcessSequenceVt100: excludes the same colour sequences.
- TerminalClient.Client.ReadAndBufferUntilEsc: requires that an escape key comes, because the loop does not end otherwise. Locks and a failed allocation of the queue are not modelled; the overlapping copy in `getChar` is taken to move towards lower addresses.
- The terminals' input loops (keyboard layouts, line buffering) and process control.
- InetAddress.ParseIp: null pointers are not modelled, texts have no terminator inside.
- Ping.Node.ResolveTargetMac: a frame shorter than its length field claims is excluded, and the driver's frame size is a parameter of at least 42 bytes. Sleeping and logging are not modelled.
- The loop that awaits the echo reply (the same shape as the ARP loop), the subnet test and `main`.
- ExitHandlers.AllCalledIff: exact for handlers that do not finalize; for single ones that do there is the sufficient condition of `AllCalledWhenClosedUp`, and for all together the exact one of `AlwaysAllCalledIff`.
- ExitHandlers.Registry.CxaFinalize: a handler is a finite sequence of registry calls chosen when it starts; what else it does, and handlers that never return, are not modelled. The wrapper table of `atexit` is not modelled.
- Pipeline.Shell.ProcessExpression: whether a single call is a builtin command is a parameter; error messages are not modelled, nor are the processes after they started.
- CommandLine.ReceivedIff: arguments that do not fit the 1024-byte buffer are excluded, because the library then writes behind it. The splitting loops of `parseargs` are modelled on values.
- LineEditor.ReadInputLine: cursor positions and output on the screen are not modelled.
- WaveReader.SoundFile.LoadLoginSound: a failing read counts as the end of the file; opening, closing, memory exhaustion and the streaming to the driver are not modelled, and the driver's sample rate is a parameter because its header is not part of this model.
- Message texts of the parser, `which`, `cd` and the other builtin commands.
