# QWFWD in Dafny

QWFWD is a proxy between QuakeWorld or Quake 3 clients and servers. This project models the
parts of it that carry state or arithmetic and proves what they are meant to do. Every
operation that the program performs in place is a method of a class or over an array, proved
against a function on values; the properties over all inputs and all runs are lemmas about
those functions.

**The Huffman codec** (`src/huff.c`). `WeightTree` sees the adaptive tree as the sequence of its
nodes in weight-list order; `Frequencies`, `PathCode`, `Optimality` and `StaticTree` prove the
sibling property, the logarithmic code length and that the tree is optimal. `TreeStore`,
`TreeMoves` and `TreeGrowth` say when linked nodes, weight list, leader cells and free list
represent such a tree; `HuffTree` is the program's memory with its swaps, the recursive
increment and the growth of the tree. `Bits`, `Lockstep`, `Coding` and `Packets` prove that
decoding undoes encoding, `Codec` is the bit-level program, and `LostMessage` proves that for
every table of counts the fixed-tree pair of operations loses some message.

**Commands** (`src/cmd.c`, `src/token.c`). `CommandBuffer` is the double-ended text buffer,
`Tokenizer` the two tokenizers, `Script` the abstract machine that executes a text line by line,
where every line may insert text in front of the buffer and append lines behind it, with its
termination measure and the order of execution that a text stands for; `Interpreter` is the loop
that refines it, and `AliasTable` the alias list with its hash chains.

**The proxy** (`src/peer.c`, `src/svc.c`, `src/clc.c`). `Challenges`, `Peers` and `Proxy` are the
state machine over client datagrams, server datagrams, reminders and ends of frame; `PeerList`
and `Server` do the same in place, sockets opened and closed included. `Serving` says, over all
runs, what clients and servers can rely on: answers, admission, relaying and time limits. `Info` and `Numbers` are
the info strings (`src/info.c`). `Connect` is the QW connect packet, printed by one proxy and read
by the next, `ConnectQ3` the Q3 packet, which goes through the adaptive codec on the way, and
`Chaining` the `prx` chain that is cut hop by hop.

**Bans** (`src/ban.c`). `Bans` is the filter list, `BanList` the array that holds it, `BanFile` the
way of the printed commands through command buffer, tokenizer and address parser, and `Banning`
says which addresses the commands ban, by the bytes of the addresses.

Addresses, clock readings, random numbers, name resolution and new sockets are inputs of a step;
packets sent are its results. Characters are Dafny characters, in packets those below 255, bytes
are numbers below 256, and pointers into the tree are indexes with -1 for null. A fatal error of
the program is a result (`ok == false`) where it can happen, and a branch proved unreachable where
it cannot.

Five properties that one might expect do not hold of the code; the lemmas say exactly when they
do, and each has a concrete case in which it fails:

- Decompressing undoes compressing, except for a message of 8255 bytes whose coded form is no
  shorter: it grows to 8256 bytes, which `Huff_DecompressPacket` leaves alone. Every table has
  such a message (`Packets.DecompressUndoesCompress`, `LostMessage.EveryTableLosesOne`).
- A value that was set is found again, unless the key is empty or holds control characters, which
  are dropped when the pair is written (`Info.SetThenValue`, `Info.EmptyKeyHidden`).
- Setting a key keeps keys unique, unless the key holds control characters, for the old pair is
  looked for with them (`Info.SetUnique`, `Info.ControlKeyDoubles`).
- A Q3 connect packet delivers the userinfo with the challenge, unless that has 1024 characters or
  more: then its end, where the challenge stands, is cut off (`Chaining.DeliveredIs`,
  `Chaining.ChallengeLost`).
- The printed ban list is read back as it was, unless it does not fit the command buffer, or a
  safe 255.255.255.255 comes to stand before a ban, which then takes its slot for a free one
  (`BanFile.Reload`, `BanFile.SafeLost`).

The comments in `src/huff.c` call the adaptive pair of operations "CompressPacket" and
"DecompressPacket" and `src/cmd.c` copies overlapping memory with `memcpy` at line 101; the model
follows the code's own names and treats that copy as `memmove`.

## Model

| member | source | states |
|---|---|---|
| WeightTree.IncrementInv | src/huff.c:249-315 | Incrementing an entry that is ready for it, with all the swaps on the way to the root and the flipped last three entries, ends in a tree with the sibling property, and leaves every entry behind the starting point as it was |
| WeightTree.AddReferenceInv | src/huff.c:324-432 | A reference keeps the sibling property: siblings adjacent, parents before children, inner weights the sums of their children, list sorted, only the not-yet-transmitted leaf of weight zero, and the list ending in parent, sibling and that leaf |
| WeightTree.RaiseReady | src/huff.c:249-314 | One level of the recursion leaves a tree in which exactly the parent of the entry moved is still owed its increment, so that the recursion can go on there |
| WeightTree.TreeSize | src/huff.c:336-340 | A tree over bytes has at most 513 nodes, and at most 511 while some byte has no leaf |
| Frequencies.AddReferenceCount | src/huff.c:324-432 | A reference adds one to the leaf weight of its byte and to the root and changes no other leaf weight; exactly the byte referenced gains a leaf |
| Frequencies.SiblingPropertyAlways | src/huff.c:324-432 | For every byte sequence: the tree after referencing it has the sibling property, a byte has a leaf if and only if it occurred, each leaf weighs as many occurrences as its byte had, and the root weighs the length |
| PathCode.WalkCode | src/huff.c:482-542 | Reading along the path bits of a position, at any bit offset, leads the tree walk to that position |
| PathCode.CodeWalk | src/huff.c:514-542 | Conversely the bits that a walk reads are the path of the leaf where it ends |
| PathCode.PrefixFree | src/huff.c:482-505 | No leaf's path is a prefix of another leaf's |
| PathCode.CodeIsLogarithmic | src/huff.c:482-505 | A leaf with a path of k bits forces a root weight of at least Fib(k+1), so the recursion depth is logarithmic in the bytes seen |
| PathCode.EscapeIsLogarithmic | src/huff.c:551-572 | The same bound for the not-yet-transmitted leaf |
| Optimality.NoShorterLengths | src/huff.c:730-754 | No code lengths that satisfy Kraft's inequality spend fewer bits than a tree with the sibling property |
| Optimality.NoShorterTree | src/huff.c:730-754 | Any tree with the sibling property has minimal weighted path length among all binary trees over the same leaves, the zero-weight leaf included |
| Lockstep.DecodeEncode | src/huff.c:597-694 | For any coder whose reading inverts its writing in equal states, decoding by number of bytes gives back the message, by keeping both states equal before each byte |
| Lockstep.UntilEncode | src/huff.c:764-863 | The same when the end of the message is known by its bit position |
| Coding.AdaptiveInverse | src/huff.c:551-579 | Fetching a byte from the bits that Huff_EmitByteDynamic wrote gives that byte and the bit position behind it, for referenced and new bytes alike, in every tree that references can build |
| Coding.StaticInverse | src/huff.c:701-722 | The same for the path code with a fixed tree in which every byte has a leaf, and each fetch consumes at least one bit |
| Coding.AdaptiveRoundTrip | src/huff.c:597-694 | Decoding the adaptive bits of any message gives the message and stops right behind it |
| Coding.FirstBits | src/huff.c:551-579 | The first byte goes out as its eight bits, highest first; when it comes again it costs a one, and another byte costs a zero and its own eight bits |
| Coding.EmitLength | src/huff.c:551-579 | While fewer than 10946 bytes have been seen, a byte costs at most 27 bits |
| Coding.EncodedSize | src/huff.c:619-625 | A message of up to 10946 bytes costs at most 27 bits a byte |
| Coding.AdaptiveStaysInside | src/huff.c:667-689 | Whatever the bits, the decoder reads no further than 34 bits beyond the byte at which it stops |
| Coding.StaticRoundTrip | src/huff.c:782-787 | Decoding the static bits of any message up to their end gives the message |
| Coding.StaticStaysInside | src/huff.c:851-857 | Whatever the bits, the static decoder reads no further than 255 bits beyond the announced end |
| Packets.DecryptUndoesEncrypt | src/huff.c:597-694 | Whenever the encoded form fits, Huff_DecryptPacket can read it in any memory that received the bytes which Huff_EncryptPacket left, and whatever the two leave has the old `cursize` and the old bytes up to it; holds for every message the encoder takes, at every offset |
| Packets.EncryptedForm | src/huff.c:597-630 | For every message that fits there is such an encrypted form |
| Packets.CompressedForm | src/huff.c:764-811 | For every message that fits there is a compressed form, raw or coded |
| Packets.LongMessageIsCut | src/huff.c:608-665 | A message of 8256 bytes or more is sent as it is; decrypting it always shortens it, except that one of exactly 8256 bytes keeps its length if and only if the length read from its first two bytes, cut to the memory, is 8256 |
| Packets.DecryptStaysInside | src/huff.c:640-694 | For arbitrary received bytes, five bytes of memory behind the message suffice for decryption to stay inside it |
| Packets.EncryptAlwaysFits | src/huff.c:599-625 | The encoded form of up to 2445 bytes always fits the scratch buffer |
| Packets.EncryptShortFits | src/huff.c:599-628 | The encoded form of up to 1079 bytes takes at most 2036 bytes, whatever the bytes: codes are short while few bytes were seen, and a byte is escaped only once |
| Packets.OneByteOnWire | src/huff.c:597-630 | The packet of a single byte has four bytes: the length, high byte first, the bits of the byte, each output byte filled from its lowest bit, and a last byte |
| Coding.AdaptiveSize | src/huff.c:551-579 | The size behind that: up to 1597 bytes cost at most 12 to 15 bits each, by how many came before, and eight more for each distinct byte |
| Packets.PadCount | src/huff.c:792-804 | The pad count stored in front of the coded form lies in 1..8, so it is never read as the raw mark 0x80 |
| Packets.DecompressUndoesCompress | src/huff.c:764-863 | After Huff_CompressPacket succeeded, Huff_DecompressPacket succeeds, and it restores length and bytes if and only if the message is not one of 8255 bytes whose coded form is no shorter |
| Packets.CompressedLength | src/huff.c:792-811 | A compressed message is one byte longer than the coded form, or than the message if that is not longer than the coded form; the fatal error if and only if a coded form would exceed `maxsize` |
| Packets.DecryptedLength | src/huff.c:655-664 | A decrypted message has the length announced, cut to the memory |
| Packets.DecompressStaysInside | src/huff.c:821-863 | For arbitrary received bytes, 32 bytes of memory behind the message suffice for decompression to stay inside it |
| LostMessage.SomeMessageIsLost | src/huff.c:764-863 | In every tree that codes all bytes some leaf has a code of at most eight bits and some a code of eight to sixteen, by Kraft's equality over its 257 leaves; 8255 copies of the two bytes, mixed to about eight bits a byte, in a buffer for 8256 bytes, are compressed and decompressed without a fatal error, and no such run brings the message back |
| LostMessage.EveryTableLosesOne | src/huff.c:730-863 | So for every table of positive counts the tree of Huff_Init loses a message |
| LostMessage.OwnKraft | src/huff.c:730-754 | The path lengths of all leaves use up Kraft's sum exactly |
| HuffTree.HuffTree.constructor | src/huff.c:108-123 | The prepared memory represents the tree with the lone not-yet-transmitted leaf |
| HuffTree.HuffTree.GetNode | src/huff.c:132-147 | A cell that no block and no free-list entry uses, from the free list or from the untouched rest; the pool of cells stays accounted for |
| HuffTree.HuffTree.DeleteNode | src/huff.c:238-242 | The cell given back heads the free list; the pool stays accounted for |
| HuffTree.HuffTree.Swap | src/huff.c:154-190 | The memory represents the tree with the two positions exchanged, also when the two are siblings |
| HuffTree.HuffTree.SwapTrees | src/huff.c:197-231 | The weight list is the old one with the two nodes exchanged, also when they are neighbours, and all links are mutual |
| HuffTree.HuffTree.TradeWithLeader | src/huff.c:258-271 | The node has traded places in tree and list with its block leader, except that the parent as leader trades only in the list |
| HuffTree.HuffTree.ChangeBlock | src/huff.c:273-298 | The node has left its block, which keeps a leader or gives its cell back, weighs one more, and has joined or founded its new block |
| HuffTree.HuffTree.IncrementFreq | src/huff.c:249-315 | The memory, started on a represented tree that owes one increment, ends representing the incremented tree, leaders, free list and all |
| HuffTree.HuffTree.LinkInner | src/huff.c:342-372 | The new inner node stands in the list before the not-yet-transmitted leaf, in the block of weight one or founding it |
| HuffTree.HuffTree.LinkLeaf | src/huff.c:373-401 | The new leaf follows and shares the cell of the inner node: the other branches are never reached |
| HuffTree.HuffTree.Graft | src/huff.c:402-428 | The inner node has replaced the not-yet-transmitted leaf, which is its left child and the new leaf its right |
| HuffTree.HuffTree.AddRef | src/huff.c:324-432 | Started on memory that represents a tree, Huff_AddReference ends with memory that represents that tree with the byte referenced |
| HuffTree.BlockLeaders | src/huff.c:258-298 | Between references each node's cell holds the heaviest-end node of its weight, and two nodes share a cell if and only if they weigh the same |
| HuffTree.FreeCells | src/huff.c:132-147 | Between references every cell ever handed out is on the free list or in use by a node, never both |
| HuffTree.NeverExhausted | src/huff.c:336-341 | Neither the 768 nodes nor the 768 cells are ever exhausted |
| Codec.Codec.EmitBit | src/huff.c:449-458 | The bits written so far are the old ones and the new one, in a buffer whose unwritten bits of the current byte are zero |
| Codec.Codec.GetBit | src/huff.c:467-475 | The bit at the position, and the position moved on by one |
| Codec.Codec.EmitPathToByte | src/huff.c:482-505 | The path bits of the node, and then the step to the child if one is given, are appended to the output |
| Codec.Codec.GetByteFromTree | src/huff.c:514-542 | The walk over the linked nodes ends on the leaf, symbol and bit position that the walk over the tree value determines; the null checks never fire |
| Codec.Codec.EmitByteDynamic | src/huff.c:551-579 | Exactly the emitted bits of the byte in the represented tree are appended |
| Codec.Codec.EncryptPacket | src/huff.c:597-630 | Header, adaptive bits, new `cursize`, and memory outside the encoded form unchanged |
| Codec.Codec.DecryptPacket | src/huff.c:640-694 | The decoded bytes are in the message, followed by a zero if the stream ended early, with the announced length |
| Codec.Codec.EmitByte | src/huff.c:701-706 | The path bits of the byte are appended at the given bit count, and the count moves behind them |
| Codec.Codec.GetByte | src/huff.c:713-722 | The byte whose path starts at the bit count, and the count behind it |
| Codec.Codec.CompressPacket | src/huff.c:764-811 | Raw or coded form as the sizes demand, with mark or pad count; the fatal error if and only if the coded form exceeds `maxsize` |
| Codec.Codec.DecompressPacket | src/huff.c:821-863 | The expanded message, or the raw bytes moved down by one; the fatal error if and only if the message outgrows the scratch buffer or `maxsize` |
| StaticTree.Init | src/huff.c:730-754 | For any table the memory represents the tree that the table's references build in order |
| StaticTree.TreeCounts | src/huff.c:740-748 | Each leaf weighs the table's count, negative counts as zero, and a byte has a leaf if and only if its count is positive |
| StaticTree.TreeInOrder | src/huff.c:740-748 | The tree is that of the message which holds each byte as often as the table says, in the order of the bytes |
| StaticTree.TreeKnowsAll | src/huff.c:740-748 | Every byte can be coded if and only if all counts are positive |
| StaticTree.CodedLength | src/huff.c:782-792 | The coded length of a message is the sum over the leaves of occurrences times path length |
| StaticTree.MinimalForTable | src/huff.c:730-754 | For any table of positive counts, no binary tree over the 256 bytes and the zero-weight escape has a smaller weighted path length than the tree of Huff_Init |
| StaticTree.BestForItsTable | src/huff.c:730-754 | A message with the frequencies of the table takes no more bits with the tree of Huff_Init than with any binary tree over the 257 leaves |
| Tokenizer.Lexer.ComParse | src/token.c:16-83 | Token text and end position are those of the token grammar: comments skipped, quotes, over-long tokens cut, all in the fixed token buffer |
| Tokenizer.Lexer.TokenizeString | src/cmd.c:637-685 | The argument list is that of the token grammar, with its limits on number and room |
| Tokenizer.LineOfWords | src/cmd.c:637-685 | Any line of plain words with spaces between them is tokenized into exactly these words |
| Tokenizer.FirstWords | src/cmd.c:637-685 | Of any line of plain words the first are taken, at most 80 and with their terminators at most 1530 characters, and the next would break one of the limits |
| Tokenizer.NewlineEnds | src/cmd.c:655-659 | What stands behind the newline does not count |
| Tokenizer.CommentSkipped | src/token.c:33-49 | Parsing goes on where a comment ends, at the newline, and takes the token behind that |
| Tokenizer.CommentEnds | src/token.c:41-46 | A comment at the end of a line adds no argument |
| Tokenizer.LongWord | src/token.c:72-83 | Of a word of 1024 characters or more the first 1023 are taken |
| Tokenizer.OpenQuote | src/token.c:51-70 | The end of the text closes a quoted argument too, of which at most 1023 characters are taken |
| CommandBuffer.Cbuf.AddText | src/cmd.c:76-105 | The contents are followed by the text exactly when that fits, otherwise unchanged, whichever layout the array has |
| CommandBuffer.Cbuf.InsertText | src/cmd.c:116-147 | The contents are preceded by the text and a newline exactly when that fits, otherwise unchanged, whichever layout the array has |
| Script.LinesConcat | src/cmd.c:164-195 | Splitting text that ends a line, followed by other text, is splitting the two one after the other: a newline always breaks and resets the quotes |
| Script.FirstPiece | src/cmd.c:170-202 | A text falls into a first piece, the newline or the semicolon behind an even number of quotes that ends it, and the rest; the piece holds no newline and no semicolon behind an even number of quotes; of 1024 characters or more a blank line is left, of fewer all but a carriage return at the end |
| Script.SemicolonSplits | src/cmd.c:178-180 | A semicolon with closed quotes before it separates two lines |
| Script.NewlineSplits | src/cmd.c:174-176 | A newline does, inside quotes too |
| Script.QuotedSemicolonStays | src/cmd.c:178-183 | A semicolon inside quotes stays in its line |
| Script.CarriageReturnDropped | src/cmd.c:190-191 | A carriage return in front of the newline is dropped |
| Script.LongLineBlank | src/cmd.c:193-197 | Of a line of 1024 characters or more nothing is left |
| Script.FunctionFirst | src/cmd.c:885-895 | A line of one word, in any case, calls the function of that name whatever variables and aliases there are, and does to the buffer what that function does |
| Script.VariableNext | src/cmd.c:897-899 | A variable comes before an alias of the same name, and it and unknown words leave the buffer alone |
| Script.AliasLast | src/cmd.c:901-910 | Only then an alias: its value, its line end and two more stand in front of the rest |
| Script.NextCost | src/cmd.c:154-225 | Whatever a line inserts and appends, by an alias or by its function, executing it brings the buffer nearer to empty, as long as lines lead only to lines of lower rank |
| Script.RunEmpties | src/cmd.c:154-225 | Where `wait` is not a command one run of the machine empties the buffer, also when lines put other lines in front of it and behind it; and so does going on after every wait |
| Script.Resume | src/cmd.c:154-225 | Resuming after a wait gives the same commands in the same order, and the same dropped text, as not having waited |
| Script.StopsAtWait | src/cmd.c:218-224 | A run that leaves text behind has just executed a wait |
| Script.StepsOfRun | src/cmd.c:154-225 | A run is any number of its steps followed by the run of the text that they leave |
| Script.NextMeaning | src/cmd.c:154-225 | One line executed, with what it inserts put in front and what it appends put behind, keeps the order of execution that the text stands for |
| Script.Rotate | src/cmd.c:76-147 | The lines at the front, with all that they insert, come before the rest, and all that they append comes after it |
| Script.MeaningConcat | src/cmd.c:164-195 | Lines that append nothing are executed, with what they insert, before the lines behind them |
| Script.RunMeaning | src/cmd.c:154-225 | As long as nothing overflows the buffer, the commands executed are those that the text stands for, in this order: inserted lines before the remainder, appended lines after it, whatever command puts them there |
| Script.AliasOrder | src/cmd.c:901-910 | A line that calls an alias stands for the lines of the alias |
| Interpreter.Interpreter.TakeLine | src/cmd.c:164-215 | The first line by the quote-aware split, blank if over-long, and the buffer without it |
| Interpreter.Interpreter.ExecuteString | src/cmd.c:869-913 | A function is preferred to a variable and that to an alias, all found without regard to case; an alias puts its value and line ends in front of the buffer, a function inserts and appends what its line makes it |
| Interpreter.Interpreter.Perform | src/cmd.c:76-147 | Insertions and appendages one after the other, each dropped if it does not fit, change the buffer as the abstract edits change the text |
| Interpreter.Interpreter.Execute | src/cmd.c:154-225 | The loop ends, and lines executed and text left are those of the abstract machine over plain text, for all commands that insert or append lines |
| AliasTable.ComputeKey | src/cmd.c:375-386 | The hash, below 32, as a function of the name |
| AliasTable.SameKey | src/cmd.c:375-386 | ASCII names that differ only in case have the same key |
| AliasTable.Table.constructor | src/cmd.c:396-397 | The empty table, with 32 empty chains |
| AliasTable.Table.Search | src/cmd.c:431-441 | The search of one hash chain finds what a search of the whole list finds |
| AliasTable.Table.Define | src/cmd.c:407-463 | List and chains stay two indexes over one set; the alias is overwritten or put in front, its value the rest of the line, whatever characters it holds, cut to the buffer |
| AliasTable.Table.Unlist | src/cmd.c:490-509 | The node is unlinked from the list; the search always finds it, so the message about a broken list is never reached |
| AliasTable.Table.Delete | src/cmd.c:465-511 | List and chains stay two indexes over one set, without the alias; the result tells whether it was there |
| AliasTable.Table.UnaliasAll | src/cmd.c:535-549 | Both indexes are empty |
| AliasTable.JoinArgs | src/cmd.c:453-460 | Cutting at every step of the loop is cutting the whole joined line once |
| AliasTable.JoinedBack | src/cmd.c:453-460 | The value of an alias falls apart into the arguments that it was defined with |
| AliasTable.JoinedLength | src/cmd.c:453-460 | There is exactly one blank between two arguments |
| AliasTable.DefinedUnique | src/cmd.c:431-451 | Names stay unique up to case |
| AliasTable.LookupDefined | src/cmd.c:407-463 | The value defined last is found under the name in any case, other names keep theirs |
| AliasTable.LookupDeleted | src/cmd.c:465-511 | A deleted name is gone, other names keep their values, names stay unique |
| AliasTable.DefinedMap | src/cmd.c:407-463 | Seen as a map without regard to case, defining updates the map at the name |
| Info.ValueWrite | src/info.c:24-72 | On a written list of pairs the scan finds the value of the first pair with the key, cut to the buffer |
| Info.RemoveWrite | src/info.c:74-121 | On a written list of pairs removing takes exactly the first pair with the key out |
| Info.SetWrite | src/info.c:123-186 | On a written list of pairs setting gives the written list without the old pair and, if accepted, with the new one at the end |
| Info.SetThenValue | src/info.c:24-72 | Setting a key in a string and asking for it: the accepted value, rid of control characters and cut to the buffer, is found if and only if the key is neither empty nor holds control characters, or nothing is left of the value |
| Info.SetThenOther | src/info.c:123-186 | Every other key keeps the value that is found under it, whether the new value is accepted or not |
| Info.EmptyKeyHidden | src/info.c:29 | A concrete case: the empty key is accepted, and nothing is found under it |
| Info.SetGet | src/info.c:123-186 | The same over lists of pairs, for a key without control characters: keys stay unique, the first pair with the key holds the value, all other keys keep theirs |
| Info.SetUnique | src/info.c:165-185 | For any key: keys stay unique if and only if an accepted key, rid of control characters, is not among the other keys |
| Info.ControlKeyDoubles | src/info.c:165-185 | A concrete key with a control character after which two pairs have the same key |
| Info.SetKeeps | src/info.c:123-186 | The string stays well formed and shorter than `maxsize` |
| Info.AllOrNothing | src/info.c:146-170 | Replacing a non-empty value within the key and value limits either changes nothing or is accepted, and it is accepted if and only if the new string fits |
| Info.Refusals | src/info.c:130-145 | Keys and values with a backslash or a quote, and with the limit those of 64 characters or more, change nothing |
| Info.AcceptedInNumbers | src/info.c:146-170 | All others are taken if and only if the string with the pair, in place of an old one, stays shorter than `maxsize` |
| Info.ValidateWrite | src/info.c:7-22 | A written list of pairs passes ValidateUserInfo if and only if no key and no value is empty |
| Info.InfoString.ValidateUserInfo | src/info.c:7-22 | The scan over the buffer gives the verdict of the function on the string: sound, unsound, or running on behind the end |
| Info.InfoString.ValueForKey | src/info.c:24-72 | The scan over the buffer, character by character, gives the value function of the string |
| Info.InfoString.RemoveKey | src/info.c:74-121 | The buffer, after the tail was moved down, holds the string without the key |
| Info.InfoString.SetValueForStarKey | src/info.c:123-186 | The buffer holds the string with the key set, or as it was |
| Info.InfoString.SetValueForKey | src/info.c:193-202 | The same, and keys with a star are refused |
| Numbers.AtoiPrinted | src/ban.c:175-303 | Reading back a printed whole number gives the number, negative ones too (printed at lines 288 and 303, read at 175) |
| Numbers.AtoiReads | src/svc.c:276 | Blanks in front and a sign are read over, and what follows the digits does not count |
| Connect.PacketCarries | src/clc.c:7-20 | Printed into a connect packet, read by MSG_ReadString and taken apart by the tokenizer, a request arrives as it was: version, port number, challenge and the quoted userinfo, for all int numbers and all userinfo without quotes, NUL and 255 |
| ConnectQ3.PacketArrives | src/svc.c:430-454 | A Q3 connect packet, encrypted from byte 12 on at one proxy, is recognised by its first word and decrypted in the memory of the next, and the userinfo that is read and tokenized there is the one printed, cut to 1024 characters |
| ConnectQ3.PacketFits | src/clc.c:102-127 | Every userinfo that can be sent is encrypted within the 2048 bytes of the packet |
| ConnectQ3.PacketSent | src/clc.c:102-127 | For every such userinfo there is a packet and its encrypted form |
| Chaining.ChallengeSet | src/clc.c:112-116 | The challenge is always accepted into the userinfo of up to 1023 characters, all other keys keep their values, and the length changes by no more than the challenge takes up |
| Chaining.DeliveredIs | src/clc.c:102-127 | A packet of either protocol delivers a good userinfo, with Q3 the challenge in it, if and only if that is shorter than 1024 characters; it is then good again |
| Chaining.ChallengeLost | src/clc.c:112-119 | A good Q3 userinfo of 1023 characters without a challenge arrives at the next proxy without the challenge |
| Chaining.LongUserinfo | src/clc.c:107-119 | Such a userinfo exists: one key with a value of 1020 characters |
| Chaining.NextStop | src/svc.c:246-290 | One proxy and its packet: the host of the first stop is connected to, at the number named or else at 27500 with QW and 27960 with Q3, and what arrives there can travel on, with all other keys and, with Q3, the challenge in it |
| Chaining.StopIsHop | src/svc.c:271-281 | A host with or without a number behind a colon, in the chain, names that host and number, or the default number of the protocol |
| Chaining.BadNumberRefused | src/svc.c:283-287 | A number below one is refused |
| Chaining.PassOn | src/svc.c:246-290 | In place in the userinfo buffer: target and forwarded userinfo of one proxy |
| Chaining.OneHop | src/svc.c:246-290 | A proxy that gets a chain of hops connects to the first and forwards the userinfo with the rest of the chain and its mark |
| Chaining.ChainInOrder | src/svc.c:246-290 | For any number of hosts within the limits, with or without port numbers, and either protocol, each proxy going by the connect packet of the one before: as many connects reach exactly these hosts in order, at these numbers or 27500 or 27960, the last server sees no `prx`, every other key except the mark and the Q3 challenge keeps its value, and a Q3 challenge is the one of the last packet |
| Challenges.Table.GetChallenge | src/svc.c:70-134 | The static table is that of the table function, and the number sent is the one stored |
| Challenges.Table.CheckChallenge | src/svc.c:51-68 | True if and only if the address has a slot and the number is the stored one |
| Challenges.GrantedGood | src/svc.c:70-134 | Used slots keep distinct addresses, and every stored number is the last one sent to its address |
| Challenges.AlwaysGood | src/svc.c:70-134 | The same over any run of requests |
| Challenges.Survives | src/svc.c:86-110 | With time not running backwards, an entry survives at least as many new addresses as there were older slots |
| Peers.AdmittedKeeps | src/peer.c:34-91 | Admitting or reusing a peer keeps distinct addresses and sockets, falling userids, the limit on peers, and open sockets equal to the peers' sockets |
| Peers.ClosedKept | src/peer.c:168-182 | Closing, one after the other, the sockets of the peers to be dropped leaves open exactly the sockets of the peers that stay, because sockets are distinct |
| PeerList.PeerList.Find | src/peer.c:10-21 | The first node of the linked list with the address, or null |
| PeerList.PeerList.Count | src/peer.c:367-378 | The length of the linked list |
| PeerList.PeerList.Push | src/peer.c:83-88 | The linked list with the new peer in front |
| PeerList.PeerList.Free | src/peer.c:94-129 | The linked list without that node, the order of the others kept, and the node's socket closed unless it is zero |
| PeerList.PeerList.CheckTimeout | src/peer.c:131-166 | Exactly the peers silent for 15 seconds are marked for dropping, and exactly the connected Q3 peers that are due get a keep-alive probe, in order |
| PeerList.PeerList.CheckDrop | src/peer.c:168-182 | The linked list without exactly the marked peers, although nodes are freed during the walk; their sockets are closed one by one |
| Proxy.StepGood | src/peer.c:184-414 | Every datagram and tick keeps: distinct client addresses, falling userids, at most `maxclients` peers, open sockets exactly those of the peers, distinct challenge slots |
| Proxy.AlwaysGood | src/peer.c:184-414 | The same over every run from the start |
| Proxy.RelaysAreSafe | src/peer.c:277-347 | In every run: what a client sent goes unchanged only to the server of the one connected peer with its address; what a server sent reaches only the client of the peer on whose socket it came and whose server it is |
| Proxy.NothingStale | src/peer.c:409-414 | After each frame no peer is marked for dropping and none had reached the time limit |
| Serving.ClientIsRelayed | src/peer.c:288-313 | In every run a datagram of a connected client goes once to its server, unchanged, or three times when a QW client leaves, who is then dropped; the peer is heard now, and nothing else changes |
| Serving.ServerIsRelayed | src/peer.c:320-352 | In every run what the server of a connected client sends goes to the client unchanged |
| Serving.ServerIsHeard | src/clc.c:23-214 | In every run texts of a server and the farewell of a Q3 server reach the client, the farewell drops the peer, a challenge is answered with the connect packet while the client waits, and a connection reply connects it |
| Serving.ServerIsReminded | src/peer.c:355-363 | A server that is waited for is asked again after more than two seconds, and no other |
| Serving.FrameKeeps | src/peer.c:131-182 | In every run a frame drops exactly the peers that are marked or were silent for 15 seconds or more; the others stay as they are, but for the time of the last probe |
| Serving.FrameAddsNone | src/peer.c:131-182 | No peer comes from anywhere else |
| Serving.FrameProbes | src/peer.c:146-157 | Exactly the connected Q3 servers are probed whose clients were silent for more than a second and whose last probe is more than a twentieth of a second ago |
| Serving.HeardIsKept | src/peer.c:309-313 | In every run a client whose datagram was relayed at t still has its peer, with the same server and socket, after frames less than 15 seconds later, unless it left, its server said farewell, it connected anew, or the clock ran backwards |
| Serving.BannedIsQuiet | src/peer.c:254-256 | What is banned is not heard |
| Serving.ChallengeIsAnswered | src/svc.c:70-134 | A client is sent one number, which is kept for it: the challenge of its server if it is a connected Q3 client, else the number it had, else a random one |
| Serving.NewClientIsAdmitted | src/svc.c:184-325 | A new client that presents its number and names its stops gets a peer of its own, waiting for the server named, on its own socket, while there is room |
| Serving.OldClientIsAdmitted | src/svc.c:184-325 | A client that has a peer keeps socket and number; with QW the peer waits again, with Q3 it stays as it is and the client is told when it may go on |
| Serving.RefusalIsTold | src/svc.c:51-64 | Without a number, with another one, another version, an unsound userinfo, no `prx` key or no room the client is told so and nothing changes |
| Serving.NowhereToGo | src/peer.c:41-50 | If the name leads nowhere nothing happens |
| Serving.NoSocket | src/peer.c:62-67 | Nor if there is no socket for a new client |
| Serving.HandshakeCompletes | src/svc.c:184-325 | A new client that presents its number, and whose server then sends a challenge and accepts the connect packet, is connected to that server, with either protocol |
| Proxy.HandshakeFirst | src/clc.c:47-60 | In every run a connected QW peer has received a connection reply from its present server since its client last connected |
| Proxy.AlwaysRemembers | src/svc.c:70-134 | In every run the stored challenges are the numbers last sent to their addresses |
| Proxy.AdmittedByChallenge | src/svc.c:184-303 | In every run a client is connected only on presenting the number last sent to its address, with a userinfo that passes ValidateUserInfo, while there is room |
| Proxy.ScreenedByHop | src/svc.c:246-295 | A client with a good chain is led to its first host, at the number named or the default one; in the connect packet of its protocol, whatever the numbers in it, the other stops and all other keys but the mark and the Q3 challenge arrive, and a Q3 challenge is the one set |
| Proxy.AlwaysOnTerms | src/peer.c:34-91 | In every run each peer has the server, number, protocol and userinfo of the request that last admitted its client |
| Proxy.RequestOnTerms | src/clc.c:7-20 | In every run a connect packet goes out on the socket of one peer, to the server that its client asked for when it was last admitted, with the userinfo forwarded then |
| Proxy.RequestDelivers | src/clc.c:102-127 | If the client then named a chain of hosts, that server is the first, at its number, and the packet, QW or Q3, delivers the other stops and all other keys |
| Proxy.NextAccepts | src/svc.c:136-217 | What arrives passes the checks of version, userinfo and challenge at a proxy that gave out that challenge |
| Server.Server.SendChallenge | src/svc.c:70-134 | The program state after the request and the reply are those of the abstract step |
| Server.Server.CheckRequest | src/svc.c:136-182 | Version, userinfo and challenge of a request are checked as by the abstract predicate, with the numbers from the arguments or the userinfo |
| Server.Server.ConnectClient | src/svc.c:184-325 | The same for a connect request, with the userinfo edited in place and the peer list relinked |
| Server.Server.NewPeer | src/peer.c:34-91 | A peer is admitted if and only if its client has one already or there is room and a socket; the state is the abstract one |
| Server.Server.ForwardData | src/peer.c:277-311 | State and sends of the abstract relay, three copies when a QW client leaves |
| Server.Server.HearServer | src/peer.c:320-352 | State and sends of the abstract step for a datagram on a peer's socket |
| Server.Server.RespondQW | src/clc.c:23-100 | Peer state and replies of the QW handler for each out-of-band message, by the state of the peer |
| Server.Server.RespondQ3 | src/clc.c:129-214 | The same for the Q3 handler |
| Server.Server.Respond | src/clc.c:217-227 | The handler is chosen by protocol; state and replies are those of the abstract answer |
| Server.Server.RemindServer | src/peer.c:355-363 | State and sends of the abstract reminder |
| Server.Server.EndFrame | src/peer.c:409-414 | State of the abstract end of frame, the sockets closed as the peers are freed, and the keep-alive probes sent |
| Server.Server.Handle | src/peer.c:184-414 | Every input does to the program state, and sends, what the abstract step does, so that the results over all runs apply to it |
| Bans.AlwaysTidy | src/ban.c:142-227 | Over every run of addip, removeip, banremove and expiry from the empty list: no target twice, addresses within their masks, and 255.255.255.255, which marks a free slot, only ever last |
| Bans.PutUnique | src/ban.c:170-195 | In an arbitrary list, reached or not, adding keeps targets unique if and only if no slot of 255.255.255.255 stands before the target's own slot |
| Bans.WithoutKeeps | src/ban.c:391-397 | Removing keeps the list well formed |
| Bans.CleanedKeeps | src/ban.c:488-504 | Expiry keeps the list well formed |
| Bans.RemovedBans | src/ban.c:391-397 | An address was banned if and only if it still is or the filter removed was a ban on it |
| Banning.AlwaysCovered | src/ban.c:66-87 | In every run an address is banned if and only if it agrees with some ban in all bytes of that ban that are not zero; safe filters ban nothing |
| Banning.BanBans | src/ban.c:142-196 | `addip q ban`, or just `addip q`, bans for good exactly the addresses that agree with q in its bytes that are not zero, besides those banned by the filters that it does not replace |
| Banning.SafeBansNothing | src/ban.c:159-160 | `addip q safe` bans nothing and lifts the ban that it replaces |
| Banning.BanExpires | src/ban.c:166-176 | A number is the second at which the filter expires, with a plus sign counted from now |
| Banning.BadTime | src/ban.c:166-176 | What is no number, with or without a plus sign, is no time: the ban is for good |
| Banning.AddRefused | src/ban.c:151-163 | A malformed address, 0.0.0.0 and other kinds change nothing |
| Banning.AddOverflows | src/ban.c:182-190 | Nor does a new address when 1024 filters are there and none is for 255.255.255.255 |
| Banning.ShortAddress | src/ban.c:95-135 | Bytes of an address that are not given are zero |
| Banning.RemoveIs | src/ban.c:203-227 | `removeip q` removes exactly the filter for q |
| Banning.BanRemoveIs | src/ban.c:455-486 | `banremove` removes exactly the ban of that number, and no safe filter |
| Banning.CleanIs | src/ban.c:488-504 | The clean-up removes exactly the filters whose time is not zero and has come |
| Banning.CleanBans | src/ban.c:488-504 | After it an address is banned if and only if a ban for good or for later covers it |
| Bans.PutAllRebuilds | src/ban.c:170-195 | Putting the filters of a list into an empty one rebuilds it if and only if 255.255.255.255 stands nowhere but last |
| BanFile.DotsBack | src/ban.c:95-135 | An address that was printed is read back |
| BanFile.CommandTokens | src/ban.c:263-307 | The tokenizer takes a printed command apart into its four arguments |
| BanFile.TextRuns | src/ban.c:263-307 | Executing the printed text in front of any other text executes exactly the printed commands before that text is reached |
| BanFile.SafeFirstKeeps | src/ban.c:278-304 | The order of printing keeps all filters and no target twice |
| BanFile.Reload | src/ban.c:510-523 | Writing a list that commands made and executing it from an empty one, in front of any rest of the buffer, rebuilds it, safe filters first, if and only if the list is empty, or text, newline and rest together fit the command buffer and a 255.255.255.255 stands nowhere but last |
| BanFile.ReloadBans | src/ban.c:510-523 | Whenever the text fits, every address keeps its answer: at most a safe 255.255.255.255 is lost |
| BanFile.SafeLost | src/ban.c:170-195 | Two commands make the list of the ban 1.2.3.4 and the safe 255.255.255.255; executing its written text from an empty list leaves only the ban |
| BanList.BanList.CheckBanned | src/ban.c:66-87 | True if and only if some ban matches the address |
| BanList.BanList.ReadFilter | src/ban.c:95-135 | The quad and mask of the address text, or none if malformed |
| BanList.BanList.Add | src/ban.c:142-196 | The array holds the list after the command, unchanged on every error |
| BanList.BanList.Remove | src/ban.c:203-227 | The array holds the list without the filter, order kept; the result is true if and only if there was one for that address and mask |
| BanList.BanList.BanRemoveId | src/ban.c:455-486 | The array holds the list without the ban of that number, unchanged if there is none or it is a safe one, and `writeip` is to be appended exactly if a ban was removed |
| BanList.BanList.RemoveAt | src/ban.c:391-397 | The filters behind have moved down by one |
| BanList.BanList.Clean | src/ban.c:488-504 | The array holds exactly the filters that have not expired, in order |
| BanList.BanList.Write | src/ban.c:263-307 | The text is that of the safe filters and then the bans, each in the order of the list |

## Left out

- WeightTree and HuffTree: the program keeps header fields, nodes, cells and leaf pointers in one array of pointers; the model keeps them in five fields and three arrays with indexes, so aliasing between the regions cannot be expressed. The field `tree[4]`, which is set once and never read, is omitted.
- Codec: the bytes of the scratch buffers that the program leaves uninitialised are arbitrary in the model too, so the unused bits of the last byte of an encrypted or compressed message are left open.
- Codec.Codec.EncryptPacket: requires that the encoded form fits the scratch buffer and the message's memory, which the program does not check; likewise the other three packet operations require that their reads and writes stay inside memory, and `DecryptStaysInside` and `DecompressStaysInside` say how much spare memory always suffices.
- Packets.DecryptUndoesEncrypt: is stated for messages the encoder takes; `LongMessageIsCut` says what becomes of the longer ones.
- Packets.DecompressUndoesCompress: requires memory for as many bytes behind the message as lie before its end, because the raw form is moved together with them, and it is about a tree in which every byte has a leaf.
- StaticTree.Init: the built-in table of counts is not written out; all results hold for every table. The byte-order passes over the table are the identity on little-endian machines, and the statistics counters of Huff_CompressPacket are omitted.
- Interpreter.Interpreter.Execute: what the function of a line does to the buffer is one fixed sequence of insertions and appended whole lines for that line, as is the expansion of `$` variables; every append in src/ban.c (lines 451 to 485) is of whole lines. That a command changes what later lines mean (`alias`, `set`) is not modelled here, and neither are Cmd_ExpandString, the conditions of Cmd_If_f, file reading and Cmd_StuffCmds.
- Script.NextCost: lines that lead back to themselves, through an alias or a file, make the program loop and are excluded by the rank of each line.
- AliasTable.Table.Define: is about ASCII names, on which `toupper` in the key and `stricmp` agree; freeing of nodes and values is not modelled, and neither are the listing branch and the messages.
- Tokenizer: strings end where the C string ends, so a NUL character inside a line is not modelled; Cmd_Args is omitted.
- Info.InfoString.RemoveKey: its two local buffers of 1024 characters are not modelled; for strings below that size they cannot overflow. Info_Print and the case in which key and value together exceed the program's 1024-character buffer appear only as the cut that `snprintf` makes.
- Chaining.ChainInOrder: hosts are non-empty, without `@`, colon, backslash, quote or control characters, and port numbers, where they are given, are ints of at least 1 (`HopsInOrder` is about hops of any other form that name such a number); the chain fits the 256 characters that the program reads; the userinfo is sound and holds no quote, NUL or 255; and with Q3 it leaves room, on top of what it holds, for the mark and one challenge of 11 characters, which suffices for any number of hops and is more than a shorter challenge needs.
- Server.Server.Handle: datagrams arrive already classified (challenge request, connect, rcon, data, out-of-band kinds), so byte-level parsing in src/msg.c, `select`, sockets and stdin are not modelled; what ValidateUserInfo finds where it reads on behind the end, name resolution, the white list and bans of the target are inputs. The texts of notices are one `Notice`.
- Peers: a peer's display name and colours are omitted.
- Numbers: `atoi` is modelled for numbers that fit an int; fractions and exponents that `sscanf` with %lf would accept in the time of `addip` are not modelled, and filter times are whole seconds that print in at most 310 characters.
- BanFile.Reload: the file system is left out, so the text written is the text executed; `addip` is a known command that leaves the buffer alone, and expansion of variables leaves the printed lines, which hold no `$`, as they are.
- SV_ListIP_f, SV_BanList_f and SV_Cmd_Banip_f are argument checking and printing around the operations modelled; what SV_Cmd_Banip_f appends to the buffer is an effect of `Script`.
- src/query.c, src/cvar.c, src/whitelist.c, src/msg.c, src/net.c, src/fs.c, src/sys.c and src/main.c are not modelled.
- Dropping is not final within a frame: a connection reply can make a peer that is to be dropped connected again before the drop pass, so no such claim is made.
