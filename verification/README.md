# Proofs about EYN-OS user programs

A Dafny model of the algorithms inside the command-line and desktop programs of EYN-OS, with proofs.
Each program that changes state step by step is modelled as a class or as methods with loops and proved
against a specification written independently of it; the properties its documentation and the standards
promise are then proved of the specification, for all inputs and all runs.

| files | program | what is proved |
|---|---|---|
| Bits, HuffmanCode, HuffmanTree, SymbolDecoder, Crc32, BitReader, OutputWindow, InflateSpec, DynamicTrees, Inflater, GzipReader | extract | canonical Huffman tries, the resumable inflate machine against a recursive meaning of DEFLATE, the CRC and the trailer |
| DeflateWriter, DeflateStream, DeflateRefusals, GzipWriter, CrcDivision | extract | streams written block by block and bit by bit inflate to what they stand for, what is refused, the CRC as a remainder |
| TarNames, TarPax, TarModel, TarFiles, Tar | extract | block alignment, pending names, safe paths, and the meaning of an archive, plain or compressed |
| JsonGrammar, JsonSpecParser, JsonAgreement, JsonPrinting, JsonParser | jsonparse | accepts exactly the texts of RFC 8259, and prints a text determined by its tokens |
| SshPacket, SshTransport, SshTraffic, SshConversation, SshKeys | ssh | framing, one keystream over all packets, only authentic packets, sender and two receivers across key changes under any segmentation, HMAC and key derivation |
| Sha256Spec, Sha256Constants, Sha256 | sha256, ssh | streaming hash = digest of the padded message |
| EditModel, EditFlat, Editor | edit | in-place edits, their effect on the text as a whole, and exactly what undo restores |
| TetrisModel, TetrisLaws, Tetris | tetris | the invariant of every run, and the line-clearing loop |
| AudioModel, AudioAhead, AudioPlayer | view_backend_reis | resampling, streamed and from memory, and exactly when each is right |
| PackBits, Video | view_backend_reis, view_backend_reiv | run-length coding, and delta video that loops |
| Line | draw | the brush line |
| LoaderModel, LoadOrder, Loader | ldso | the dependency walk, its order, and symbol search |
| Options, Numbers, ByteNumbers | | shared small definitions |

`dafny verify dfyconfig.toml` checks the whole project.

## How the model stands to the code

- A file or socket is a sequence of bytes that arrives in pieces of any size; a device or output is a sequence
  that grows. How many buffers the sound device takes, how many bytes a read returns and whether a write
  succeeds are parameters.
- Where the code keeps a 32-bit or 64-bit number whose wrap-around can be reached, the model wraps too: TAR
  sizes and record lengths, the gzip length, packet sequence numbers, the audio error term, the hash length.
- Findings, each with its exact condition.
  - As many undos as edits restore the text for up to 33 edits (UndoRestoresText, and in place EditThenUndo), one
    more than half the stack suggests. For typing, the text is restored exactly while all entries are held
    (TypingRestoredIff), of which HeldIs gives the number; 34 edits can fail (ThirtyFourNotRestored).
  - Joining two lines that are too long together loses the second line (MergeOnFlat).
  - Undo of a line merge restores the text if and only if the merged line was empty (UndoOfMerge). After it an
    older entry may not fit the text; UndoMisfit says what the code then does.
  - A stream whose rate is above 48000 Hz may lose source frames: bytes that a chunk steps over but that are not
    buffered yet are not skipped later. It sounds right exactly when the stream keeps up (KeepsUpExactly), which
    depends on rate, frame size and file size; 192001 Hz does not (OddRateLosesAFrame).
  - From memory the 32-bit error term can wrap. Playback is right exactly when every step used has
    (position * rate mod 48000) + rate < 2^32 (MemoryExactly); at 4294967295 Hz it is not (HighestRateIsWrong).
  - A JSON text is reported as printed also when only the line break at the end did not fit the output (Run).
  - A long TAR name that does not fit clears the pending name, while a PAX path that does not fit ends the run.

## Model

| member | source | states |
|---|---|---|
| HuffmanCode.CanonicalOrder | packages/extract/extract_uelf.c:178-207 | The codes are the ones section 3.2.2 of RFC 1951 defines: those of one length are consecutive in symbol order, and shorter ones precede longer ones lexicographically. |
| HuffmanCode.PrefixFree | packages/extract/extract_uelf.c:158-207 | For lengths that are not over-subscribed no code is a prefix of another symbol's code, so codes are distinct. |
| HuffmanCode.UnusedIsKraftSlack | packages/extract/extract_uelf.c:169-176 | The counting recurrence that rejects over-subscribed lengths computes the Kraft sum: what it has left is 2^len less that sum. |
| HuffmanCode.CodeInRange | packages/extract/extract_uelf.c:178-190 | Every code lies in its length's run of codes, and the run fits in that many bits. |
| HuffmanCode.DecodeSymbolUnique | packages/extract/extract_uelf.c:258-277 | At most one code starts a bit string, so decoding is a function of the bits. |
| HuffmanTree.HuffBuild | packages/extract/extract_uelf.c:142-210 | Building succeeds exactly on lengths of at most 15 with at least one code and no over-subscription (when the array has room for every code, as all three alphabets' arrays do), and the array is then the trie of the canonical code: its capacity and duplicate-leaf exits are unreachable. |
| HuffmanTree.InsertPath | packages/extract/extract_uelf.c:193-203 | Following a code from the root creates only missing nodes, ends at the node of that code, and leaves every earlier path where it led. |
| HuffmanTree.InsertSymbol | packages/extract/extract_uelf.c:186-207 | A symbol is inserted under its canonical code whenever 15 nodes are left; the leaf is always free. |
| HuffmanTree.ReverseBits | packages/extract/extract_uelf.c:125-132 | The reversed number, least significant bit first, is the code most significant bit first. |
| HuffmanTree.InteriorHasNoSymbol | packages/extract/extract_uelf.c:142-210 | No interior node of a built trie carries a symbol. |
| SymbolDecoder.HuffDecodeSymbol | packages/extract/extract_uelf.c:258-277 | The walk returns the symbol whose code starts the remaining bits and consumes exactly that code; it fails exactly when no code starts them. |
| BitReader.Reader.PulledIsCeiling | packages/extract/extract_uelf.c:212-256 | Between calls exactly ceil(bits consumed / 8) bytes were pulled and fewer than eight bits are buffered, those of the last byte. |
| BitReader.Reader.PullInputByte | packages/extract/extract_uelf.c:212-224 | The next byte of the file in order, however the input buffer is refilled. |
| BitReader.Reader.FillBits | packages/extract/extract_uelf.c:226-234 | Filling loses no bit and succeeds exactly when that many bits are left. |
| BitReader.Reader.ReadBits | packages/extract/extract_uelf.c:236-250 | A read of up to 16 bits returns the value of the next bits, least significant first, removes exactly them, and fails exactly when they are not there or more than 16 are asked for. |
| BitReader.Reader.AlignToByte | packages/extract/extract_uelf.c:252-256 | Drops the rest of the current byte and leaves the buffer empty at the next byte boundary. |
| Crc32.Crc32UpdateByte | packages/extract/extract_uelf.c:116-123 | The bit-at-a-time loop equals one step of the table-driven CRC-32. |
| CrcDivision.CrcIsRemainder | packages/extract/extract_uelf.c:116-123 | The CRC-32 of any message is the complement of the remainder of long division by x^32 + x^26 + ... + 1, of the message with its first 32 bits complemented and 32 zeros after it. |
| OutputWindow.MirrorsNext | packages/extract/extract_uelf.c:279-284 | After a byte is emitted, slot (position - d) mod 32768 still holds the d-th most recent byte, for every d. |
| OutputWindow.Window.EmitByte | packages/extract/extract_uelf.c:279-284 | Window, CRC-32 register and length mod 2^32 stay those of everything emitted. |
| OutputWindow.Window.Fetch | packages/extract/extract_uelf.c:492-502 | The byte at distance d back, zero before the first output byte. |
| InflateSpec.MatchIsPeriodic | packages/extract/extract_uelf.c:492-502 | A match whose length exceeds its distance repeats the last bytes with the distance as period. |
| DynamicTrees.OrderIsTransmissionPlace | packages/extract/extract_uelf.c:304-330 | The order in which code-length lengths are transmitted is a permutation. |
| DynamicTrees.ReadCodeLengths | packages/extract/extract_uelf.c:338-379 | The run-length coded lengths are decoded as section 3.2.7 of RFC 1951 says; it fails exactly when they are malformed, also when a run crosses the total or repeats nothing. |
| DynamicTrees.BuildDynamicTrees | packages/extract/extract_uelf.c:304-409 | A dynamic header is accepted exactly when it describes codes, and then both tries hold them and the reader stands after it. |
| DynamicTrees.BuildFixedTrees | packages/extract/extract_uelf.c:286-302 | The fixed trees are always built and are the tries of the fixed codes. |
| DynamicTrees.FixedCodesDescribe | packages/extract/extract_uelf.c:286-302 | Both fixed codes are complete prefix codes. |
| Inflater.LengthTable | packages/extract/extract_uelf.c:460-475 | The length table equals the base and extra-bit rule of section 3.2.5 of RFC 1951. |
| Inflater.DistanceTable | packages/extract/extract_uelf.c:476-487 | The distance table equals the rule of section 3.2.5 of RFC 1951. |
| Inflater.MatchInRange | packages/extract/extract_uelf.c:550-575 | Every decoded match is 3 to 258 bytes at a distance of 1 to 32768, so the range checks never fire. |
| DeflateWriter.LengthsReadBack | packages/extract/extract_uelf.c:338-379 | Code lengths written as single lengths, repetitions (3 to 6) and runs of zeros (3 to 10, 11 to 138) under any prefix code are read back as the lengths that the runs stand for. |
| DeflateWriter.TokensReadBack | packages/extract/extract_uelf.c:533-577 | Literals and copies written under any prefix codes that have their symbols, lengths and distances in the bits of their binary form, are read back as the bytes they stand for. |
| DeflateStream.FixedCodesAsListed | packages/extract/extract_uelf.c:286-302 | The fixed code lengths give exactly the codes that section 3.2.6 of RFC 1951 lists. |
| DeflateStream.HeaderReadsBack | packages/extract/extract_uelf.c:304-409 | The header of a dynamic block, its counts and code lengths written field by field, is read back as the codes it describes. |
| DeflateStream.StreamReadsBack | packages/extract/extract_uelf.c:459-578 | A stream of stored, fixed and dynamic blocks written bit by bit inflates to the bytes its blocks stand for, and ends where the last block ends. |
| DeflateRefusals.ReservedKind | packages/extract/extract_uelf.c:411-457 | The fourth kind of block is refused. |
| DeflateRefusals.StoredExactly | packages/extract/extract_uelf.c:411-457 | A stored block is refused at its header exactly if the header is cut off or the two copies of the length are not bitwise complements. |
| DeflateRefusals.FirstRepeat | packages/extract/extract_uelf.c:338-379 | A repetition at the start is refused. |
| DeflateRefusals.Overrun | packages/extract/extract_uelf.c:338-379 | Runs that pass over the total are refused. |
| DeflateRefusals.HeaderExactly | packages/extract/extract_uelf.c:304-409 | A written header is accepted exactly if a block can end, the literal code is a prefix code, and so is the distance code unless it is empty. |
| DeflateRefusals.NoSuchLength | packages/extract/extract_uelf.c:550-575 | The length symbols 286 and 287 are refused. |
| DeflateRefusals.NoSuchDistance | packages/extract/extract_uelf.c:550-575 | The distance symbols 30 and 31, and a copy without distance codes, are refused. |
| Inflater.DecodeMatch | packages/extract/extract_uelf.c:550-575 | The rest of a match is read after its length symbol; it fails exactly when the match is malformed. |
| Inflater.GzipState.constructor | packages/extract/extract_uelf.c:607-612 | The bytes to come of a new machine are the whole recursive inflation of the compressed bits. |
| Inflater.GzipState.StartBlock | packages/extract/extract_uelf.c:411-457 | Starting a block leaves the output to come as it was and fails exactly when the stream is malformed there. |
| Inflater.GzipState.StoredByte | packages/extract/extract_uelf.c:504-524 | A stored byte is the next byte of the output to come. |
| Inflater.GzipState.CopyByte | packages/extract/extract_uelf.c:492-502 | A pending copy yields the next byte of the output to come. |
| Inflater.GzipState.HuffmanStep | packages/extract/extract_uelf.c:533-577 | One symbol of a compressed block emits the next byte, or changes only the state, or fails exactly on a malformed stream. |
| Inflater.GzipState.InflateNextByte | packages/extract/extract_uelf.c:459-578 | Each call yields the next byte of the recursive meaning of the stream (sections 3.2.3 to 3.2.7 of RFC 1951), or its end, or fails only when what is to come is malformed. |
| GzipReader.FinishTrailer | packages/extract/extract_uelf.c:580-605 | The trailer is accepted exactly when its CRC-32 and length mod 2^32 match everything emitted. |
| GzipReader.GzipRead | packages/extract/extract_uelf.c:646-672 | A read returns the next bytes of the stream, at most as many as asked, and -1 only at an error; when it marks the trailer done, the trailer matched. |
| GzipReader.ReadsConcatenate | packages/extract/extract_uelf.c:646-672 | For any sequence of requested lengths the results join up to the stream's bytes, cut at the total asked for. |
| GzipWriter.WrittenReadsBack | packages/extract/extract_uelf.c:580-672 | A file of such blocks with CRC-32 and length after them is delivered as what the blocks stand for and its trailer matches, whatever follows. |
| TarNames.ParseOctalU32 | packages/extract/extract_uelf.c:729-753 | Skips blanks, reads octal digits to the next blank mod 2^32, and fails on any other character. |
| TarNames.OctalRoundTrip | packages/extract/extract_uelf.c:729-753 | A size written as octal digits is read back. |
| TarNames.SanitizeRelativePath | packages/extract/extract_uelf.c:789-840 | The scanning loops compute the path of the kept components, or refuse an unsafe or too long one. |
| TarNames.PushComponent | packages/extract/extract_uelf.c:789-811 | One component is dropped, refused, or appended after a slash. |
| TarNames.SanitizedIsSafe | packages/extract/extract_uelf.c:813-840 | A sanitized path has no empty, ".", ".." or otherwise unsafe component, fits the buffer, and sanitizing it again changes nothing. |
| TarPax.ParsePaxPath | packages/extract/extract_uelf.c:916-971 | The record loop finds the last path record, or none, or rejects the payload. |
| TarPax.PaxRoundTrip | packages/extract/extract_uelf.c:916-971 | Records whose decimal length counts the whole record are read back: the last path among them is found, unless one does not fit. |
| TarModel.ArchiveRoundTrip | packages/extract/extract_uelf.c:1166-1353 | An archive made of headers, data and padding is read back as exactly those items. |
| TarModel.InterpretFrom | packages/extract/extract_uelf.c:1204-1353 | Extraction succeeds exactly when every item can be accepted, and each ordinary entry is written under the name in force where it stands. |
| TarModel.ExtractByNames | packages/extract/extract_uelf.c:1204-1353 | The same from the bytes of a whole archive: a pending name names the next ordinary entry and none after it, a later or too long one replaces or clears it, and other naming items leave it. |
| TarFiles.HeaderReadsBack | packages/extract/extract_uelf.c:755-787 | A header laid out field by field is read back: prefix and name joined by a slash, the octal size, the type. |
| TarFiles.WrittenIsUnder | packages/extract/extract_uelf.c:842-864 | Everything that is written, under whatever names, lies below the destination by components that are not empty, not dots and hold no separator or colon. |
| TarFiles.MembersReadBack | packages/extract/extract_uelf.c:1166-1353 | An archive of files and directories, with long names and attribute records where needed, is extracted to all of them at their paths below the destination. |
| Tar.Extractor.ReadExact | packages/extract/extract_uelf.c:682-690 | Exactly the requested bytes, for any sizes of the single reads, unless the archive ends first. |
| Tar.Extractor.ReadBlock | packages/extract/extract_uelf.c:708-720 | A block, a clean end, or an end inside a block. |
| Tar.Extractor.SkipTarPadding | packages/extract/extract_uelf.c:1056-1060 | Skips up to the next multiple of 512. |
| Tar.Extractor.ReadTextPayload | packages/extract/extract_uelf.c:973-1008 | Consumes the whole text and keeps it, or reports that it does not fit the path buffer. |
| Tar.Extractor.HandleNaming | packages/extract/extract_uelf.c:1205-1267 | A long name, a path record or a global header consumes its padded size and sets, clears or leaves the pending name; it fails exactly when it is broken or cut off. |
| Tar.Extractor.HandlePaxLocal | packages/extract/extract_uelf.c:1023-1054 | A path header sets the pending name or leaves it; one over 16384 bytes or malformed is refused. |
| Tar.Extractor.ExtractRegularFile | packages/extract/extract_uelf.c:1062-1093 | The file written is exactly the entry's data. |
| Tar.Extractor.HandleEntry | packages/extract/extract_uelf.c:1269-1352 | An ordinary entry consumes its padded size on every branch, uses up the pending name, and writes what its name and type say. |
| Tar.Extractor.HandleItem | packages/extract/extract_uelf.c:1196-1353 | Each item of size n consumes 512 * (1 + ceil(n / 512)) bytes on every branch, and what it does is the first step of the whole extraction. |
| Tar.Extractor.AfterZeroBlock | packages/extract/extract_uelf.c:1182-1192 | A second zero block or the end stops the run; another block becomes the next header. |
| Tar.Extractor.ExtractAll | packages/extract/extract_uelf.c:1166-1353 | The loop computes the meaning of the archive; everything read at its head is whole blocks. |
| Tar.ExtractArchive | packages/extract/extract_uelf.c:1166-1353 | An archive of valid items read in pieces of any size is extracted entry by entry, each under the name in force and below the destination. |
| Tar.Extractor.ReadInflated | packages/extract/extract_uelf.c:674-680 | A read through gzip_read of a sound stream gives the next bytes, as many as asked as far as there are any. |
| Tar.ExtractGzip | packages/extract/extract_uelf.c:646-1353 | A compressed file whose stream inflates and matches its trailer is extracted as the archive it inflates to. |
| Tar.ExtractMembers | packages/extract/extract_uelf.c:646-1353 | An archive of files and directories is extracted to all of them, read plainly in pieces of any size or inflated from blocks of any kinds. |
| JsonGrammar.LayoutKeepsTokens | packages/jsonparse/jsonparse_uelf.c:253-394 | Minifying and pretty-printing change white space only: the tokens, the nesting and the legality stay. |
| JsonGrammar.LayoutOfLayout | packages/jsonparse/jsonparse_uelf.c:253-394 | Printing what was printed, in either style, is printing the original. |
| JsonGrammar.CharacterClasses | packages/jsonparse/jsonparse_uelf.c:52-64 | The character classes by code points, as RFC 8259 lists them. |
| JsonPrinting.MinifiedIsTokens | packages/jsonparse/jsonparse_uelf.c:253-394 | Minified text is the tokens one after the other and nothing else. |
| JsonPrinting.IndentedValue | packages/jsonparse/jsonparse_uelf.c:98-394 | Indented text is a function of the tokens: items, members and the end of a container that is not empty stand on lines of their own after two spaces for each open container, a space follows a colon, and nothing else is added. |
| JsonAgreement.AcceptsExactlyJson | packages/jsonparse/jsonparse_uelf.c:253-425 | A text is accepted exactly when it is a JSON text of RFC 8259 with at most 128 nested non-empty containers. |
| JsonAgreement.DocumentSound | packages/jsonparse/jsonparse_uelf.c:416-425 | An accepted text is that of the value read, which is legal and not nested too deep. |
| JsonAgreement.DocumentComplete | packages/jsonparse/jsonparse_uelf.c:416-425 | Every such text is accepted, read as that value, with the cursor at its end. |
| JsonAgreement.PrintedIsAccepted | packages/jsonparse/jsonparse_uelf.c:253-425 | What is printed of a legal value is accepted again. |
| JsonAgreement.PrintingTwice | packages/jsonparse/jsonparse_uelf.c:416-425 | Printing an accepted text in one style and then another keeps the tokens and gives the same as printing it in the second style alone; so each style is idempotent and minify of pretty is minify. |
| JsonParser.Emitter.EmitSlice | packages/jsonparse/jsonparse_uelf.c:92-96 | Adds the text when output is enabled; it fails exactly when the output takes less, and then the front that fitted was written. |
| JsonParser.Emitter.EmitIndentLine | packages/jsonparse/jsonparse_uelf.c:98-102 | Adds a line break and two spaces a level when pretty, else nothing. |
| JsonParser.Parser.ParseString | packages/jsonparse/jsonparse_uelf.c:132-190 | Accepts exactly the strings with legal escapes and no control characters and shows them unchanged. |
| JsonParser.Parser.ParseNumber | packages/jsonparse/jsonparse_uelf.c:192-251 | Accepts exactly a number of section 6 of RFC 8259 at the cursor and shows it unchanged. |
| JsonParser.Parser.ParseArray | packages/jsonparse/jsonparse_uelf.c:253-312 | Agrees with the grammar on arrays, and shows the array laid out. |
| JsonParser.Parser.ParseObject | packages/jsonparse/jsonparse_uelf.c:314-394 | Agrees with the grammar on objects, and shows the object laid out. |
| JsonParser.Parser.ParseValue | packages/jsonparse/jsonparse_uelf.c:396-414 | Agrees with the grammar on values; the recursion terminates. |
| JsonParser.Parser.ParseDocument | packages/jsonparse/jsonparse_uelf.c:416-425 | Succeeds exactly on JSON texts whose layout the output takes, ends at the end of the text, and has shown the layout of the value read; when the output fails, the front of that layout. |
| JsonParser.Run | packages/jsonparse/jsonparse_uelf.c:557-600 | The validating pass decides the grammar and its first error is where the grammar fails; of a valid text the emitting pass writes its tokens, minified or indented as a function of the tokens alone, as much as the output takes, and succeeds exactly when all of it but the last line break fits. |
| SshPacket.PaddingLen | packages/ssh/ssh_uelf.c:878-881 | The padding is the least of at least four bytes that fills the last cipher block. |
| SshPacket.NextIsStable | packages/ssh/ssh_uelf.c:938-1030 | Once the front of the stream decides a packet, bytes that arrive later do not change it. |
| SshPacket.FullBufferDecides | packages/ssh/ssh_uelf.c:1854-1974 | A full 8192-byte buffer always decides. |
| SshPacket.WireRoundTrip | packages/ssh/ssh_uelf.c:875-936 | A framed packet, with or without keys, is read back with its payload, whatever follows it. |
| SshTraffic.PacketLayout | packages/ssh/ssh_uelf.c:875-895 | A packet is its length in four bytes, most significant first, the padding length, the payload and the padding, in whole blocks. |
| SshTraffic.WireIsTraffic | packages/ssh/ssh_uelf.c:875-936 | Seen as a whole, what is sent under one set of keys is all packets joined, byte j with byte j of the keystream, cut into packets with a MAC after each under the running 32-bit number; new keys start a keystream at its beginning. |
| SshTraffic.PlainExactly | packages/ssh/ssh_uelf.c:938-960 | Without keys a packet is taken exactly if the front of the stream is one. |
| SshTraffic.AuthenticExactly | packages/ssh/ssh_uelf.c:961-1030 | With keys a packet is taken exactly if the front of the stream decrypts to one in whole blocks and its MAC under the next number follows. |
| SshPacket.ConversationRoundTrip | packages/ssh/ssh_uelf.c:875-1030 | Any sequence of packets and key changes, under running sequence numbers and cipher positions, is read back as the payloads in order, whatever follows. |
| SshPacket.CutOffReceives | packages/ssh/ssh_uelf.c:938-1030 | A stream that is cut off anywhere gives the first of the payloads of the whole stream. |
| SshTransport.Sender.SendPacket | packages/ssh/ssh_uelf.c:875-936 | Sends exactly the packet's wire form and counts it; it fails exactly for payloads that are empty or over 4064 bytes, with no effect, or when the socket takes less than the packet, which is then cut off there and not counted. |
| SshTransport.Sender.InstallKeys | packages/ssh/ssh_uelf.c:371-423 | Keys for both directions are accepted exactly when both MACs are hmac-sha2-256 and all lengths fit; they restart the cipher stream and keep the sequence number. Refused keys change nothing. |
| SshTransport.ChoosePadding | packages/ssh/ssh_uelf.c:878-881 | The padding loop ends at the least padding. |
| SshTransport.Receiver.InstallKeys | packages/ssh/ssh_uelf.c:371-423 | The same for the receiving side, which also keeps the bytes received. |
| SshTransport.Receiver.Compact | packages/ssh/ssh_uelf.c:1823-1835 | Moving the buffer to the front keeps the unread bytes. |
| SshTransport.Receiver.FillOnce | packages/ssh/ssh_uelf.c:1837-1852 | Filling the buffer changes nothing of the stream as a whole. |
| SshTransport.Receiver.TcpRecvExact | packages/ssh/ssh_uelf.c:744-774 | The next bytes of the stream, first from the buffer and then from the network, in any segments; it fails only if the stream is too short or so many reads came back empty. |
| SshTransport.Receiver.NetRecv | packages/ssh/ssh_uelf.c:752-766 | A read delivers the next bytes in flight, at most what fits, after the bytes already there. |
| SshTransport.Receiver.RecvPacket | packages/ssh/ssh_uelf.c:938-1030 | A delivered packet is the one the front of the stream decides, with the sequence number and cipher position advanced by one packet; refused only when the stream is bad there; timed out only when the stream ends before that is decided or 800 reads came back empty. |
| SshTransport.Receiver.TryRecvPacket | packages/ssh/ssh_uelf.c:1854-1974 | Delivers exactly what the blocking receiver would; otherwise changes neither stream nor sequence number nor cipher position. It waits only while the buffer is not full and the packet has not arrived: a poll with nothing to show has used up a delivery, or the whole stream is too short. |
| SshConversation.SendAll | packages/ssh/ssh_uelf.c:875-936 | Sending item after item writes exactly the wire form of all of them, cut where the socket fails, and succeeds exactly when every item is acceptable and the socket takes everything; unless one is refused it is the traffic seen as a whole. |
| SshConversation.PollAll | packages/ssh/ssh_uelf.c:1854-1974 | For every stream and every segmentation the polled payloads are the first of those the stream holds, in order, and all of them after as many polls as there are deliveries and packets. |
| SshConversation.WaitForAll | packages/ssh/ssh_uelf.c:938-1030 | The same for the blocking receiver, which gets all payloads if the network stalls fewer than 800 times. |
| SshConversation.Converse | packages/ssh/ssh_uelf.c:875-1030 | Sender and receivers together, across key changes: both receivers get the first of the payloads sent, in order, for any socket and segmentation, and all of them if the socket takes everything and they wait long enough. |
| SshKeys.MpintIsCanonical | packages/ssh/ssh_uelf.c:270-299 | The secret is hashed as the mpint of its number. |
| SshKeys.MpintIsUnique | packages/ssh/ssh_uelf.c:270-299 | There is only one mpint of section 5 of RFC 4251 for a number. |
| SshKeys.HashStringField | packages/ssh/ssh_uelf.c:262-268 | Hashes the length and the bytes. |
| SshKeys.HashSharedSecretField | packages/ssh/ssh_uelf.c:270-299 | Skips leading zeros, puts a zero before a set first bit, and hashes the result as a string. |
| SshKeys.DeriveKey | packages/ssh/ssh_uelf.c:584-607 | For every length the derivation loop yields that prefix of K1, K2, ... of section 7.2 of RFC 4253. |
| SshKeys.DeriveBlock | packages/ssh/ssh_uelf.c:586-601 | Each block is the hash of the secret, the exchange hash, and the letter with the session identifier or all blocks before it. |
| SshKeys.KeysExtend | packages/ssh/ssh_uelf.c:584-607 | Longer requests extend shorter ones. |
| SshKeys.HmacSha256 | packages/ssh/ssh_uelf.c:301-341 | The HMAC of RFC 2104 over both pieces of data, long keys hashed first. |
| Sha256Spec.FoldBlock | packages/sha256/sha256_uelf.c:83-122 | A whole block more folds by one compression. |
| Sha256Spec.PadIsShortest | packages/sha256/sha256_uelf.c:158-178 | The padding keeps the message and is the shortest that makes whole blocks (section 5.1.1 of FIPS 180-4). |
| Sha256Spec.SumInAnyOrder | packages/ssh/ssh_uelf.c:162-166 | The two implementations' orders of adding up the schedule agree. |
| Sha256Constants.RoundConstants | packages/sha256/sha256_uelf.c:22-39 | Every round constant is the first 32 bits of the fractional part of the cube root of its prime. |
| Sha256Constants.Initial | packages/sha256/sha256_uelf.c:124-133 | The initial values are those of the square roots of the first eight primes. |
| Sha256.Context.Transform | packages/sha256/sha256_uelf.c:83-122 | The loops compute the compression function of section 6.2 of FIPS 180-4. |
| Sha256.ExpandWords | packages/ssh/ssh_uelf.c:154-166 | Either implementation's loop computes the message schedule. |
| Sha256.Context.Update | packages/sha256/sha256_uelf.c:137-156 | Adds the bytes to the message, for any split into calls. |
| Sha256.Context.Final | packages/sha256/sha256_uelf.c:158-184 | The digest of the whole padded message. |
| Sha256.Hash | packages/ssh/ssh_uelf.c:205-260 | For any splitting of a message both implementations give the digest of the whole, hence the same. |
| EditModel.UndoInverts | packages/edit/edit_uelf.c:712-762 | The entry of typing, breaking a line or deleting in a line takes it back. |
| EditModel.UndoOfMerge | packages/edit/edit_uelf.c:763-780 | Undo of a line merge restores the text if and only if the merged line was empty. |
| EditFlat.KeyOnFlat | packages/edit/edit_uelf.c:580-710 | With the lines joined by line breaks, typing inserts its character at the cursor, Enter a line break, Backspace and Delete remove the character or line break before or after it, the rest staying in order, and the cursor moves with it; a join that does not fit also loses the line after the line break. |
| EditFlat.MergeOnFlat | packages/edit/edit_uelf.c:635-710 | Joining two lines removes the line break between them if the line fits, and otherwise also the second line. |
| EditFlat.FlatDetermines | packages/edit/edit_uelf.c:580-710 | The joined text determines the lines as long as no line break is typed as a character. |
| EditModel.RunHolds | packages/edit/edit_uelf.c:544-570 | How many entries the stack holds after any run, also when it discards its older half on the way. |
| EditModel.HeldAtLeast | packages/edit/edit_uelf.c:544-570 | The last 33 entries are always held. |
| EditModel.RunUndone | packages/edit/edit_uelf.c:712-762 | While the entries of a run are held, as many undos restore the text before it. |
| EditModel.UndoRestoresHeld | packages/edit/edit_uelf.c:544-762 | After any run, as many undos take back exactly the edits whose entries are still held. |
| EditModel.UndoRestoresText | packages/edit/edit_uelf.c:544-762 | Up to 33 edits, and any number that fits the stack, are taken back exactly, and each undo meets an entry that fits the text. |
| EditModel.TypingRestoredIff | packages/edit/edit_uelf.c:544-762 | A run of typing is taken back if and only if all its entries are held. |
| EditModel.HeldIs | packages/edit/edit_uelf.c:544-570 | From n entries, k pushes leave n + k when that is at most 64 and else 33 + (n + k - 65) mod 32. |
| EditModel.ThirtyFourNotRestored | packages/edit/edit_uelf.c:544-762 | The bound of 33 is sharp: after 31 letters typed in an empty buffer, 34 more letters are not taken back by 34 undos. |
| Editor.Buffer.constructor | packages/edit/edit_uelf.c:435-445 | A new buffer is one empty line with nothing to undo. |
| Editor.Buffer.UndoPush | packages/edit/edit_uelf.c:544-570 | Pushes onto the stack, dropping the older half of a full one, and clears redo. |
| Editor.Buffer.InsertChar | packages/edit/edit_uelf.c:580-597 | Typing has the effect of the edit where the line has room, and none otherwise; the cursor goes one column on. |
| Editor.Buffer.InsertNewline | packages/edit/edit_uelf.c:599-633 | Breaks the line where the buffer has room for another line; the lines below move down unchanged, and the cursor goes to the start of the new line. |
| Editor.Buffer.DeleteCharBackward | packages/edit/edit_uelf.c:635-674 | Deletes before the cursor, or merges with the line above, or does nothing at the start; the cursor stands where the text was removed. |
| Editor.Buffer.DeleteCharForward | packages/edit/edit_uelf.c:676-710 | Deletes at the cursor, or merges the next line, or does nothing at the end. |
| Editor.Buffer.Undo | packages/edit/edit_uelf.c:712-793 | The in-place undo is the undo of the whole document, with the cursor at the edit; an entry that does not fit the text, as after the undo of a merge, has the effect the code gives it. |
| Editor.Buffer.Press | packages/edit/edit_uelf.c:580-710 | A key has the effect of the edit it stands for at the cursor, or none, and that effect on the lines joined; the cursor is left after it. |
| Editor.Buffer.PressAll | packages/edit/edit_uelf.c:580-710 | Keys in place make the run of their edits. |
| Editor.Buffer.UndoAll | packages/edit/edit_uelf.c:1483-1487 | Repeated undo in place is the repeated undo of the document. |
| Editor.Buffer.EditThenUndo | packages/edit/edit_uelf.c:544-793 | In place: any keys with cursor moves that make at most 33 edits and join no lines, followed by as many undos, restore every line. |
| TetrisModel.ClearRowsCounts | packages/tetris/tetris_uelf.c:154-180 | Clearing leaves no full row and removes ten cells for each row cleared. |
| TetrisModel.RemoveFullRow | packages/tetris/tetris_uelf.c:166-172 | Removing one full row and putting an empty one on top changes neither the final board nor the total of rows cleared. |
| TetrisModel.LockCounts | packages/tetris/tetris_uelf.c:144-152 | Locking fills four cells and completes at most four rows, so the score table index is in range. |
| TetrisModel.DropKeeps | packages/tetris/tetris_uelf.c:211-219 | A dropped piece lies over empty cells and cannot fall further. |
| TetrisModel.StepKeeps | packages/tetris/tetris_uelf.c:363-408 | Every event keeps the invariant, and only locking changes the balance of cells. |
| TetrisModel.EveryRun | packages/tetris/tetris_uelf.c:341-415 | After every sequence of events no row is full, the piece of a game not over lies on the board over empty cells, and filled cells = 4 * pieces locked - 10 * lines. |
| TetrisModel.QuarterTurn | packages/tetris/tetris_uelf.c:41-84 | Each rotation of a piece is the quarter turn of the one before. |
| TetrisModel.PieceConnected | packages/tetris/tetris_uelf.c:41-84 | The cells of every piece hang together. |
| TetrisLaws.MoveMeans | packages/tetris/tetris_uelf.c:359-390 | Left and right move the cells of the piece by a column where they are free; a turn goes on in place or else a column to the left or else to the right; nothing else changes. |
| TetrisLaws.FallMeans | packages/tetris/tetris_uelf.c:221-226 | The piece goes down a row where it is free, for a point when asked for, and otherwise comes to rest. |
| TetrisLaws.DropMeans | packages/tetris/tetris_uelf.c:211-219 | A hard drop goes straight down through free cells as far as they go, for two points a row. |
| TetrisLaws.LockedMeans | packages/tetris/tetris_uelf.c:144-152 | Locking fills exactly the cells of the piece with its number. |
| TetrisLaws.ClearMeans | packages/tetris/tetris_uelf.c:154-180 | A row that is not full sinks by the number of full rows below it, and empty rows come in at the top. |
| Tetris.Tetris.PieceCollides | packages/tetris/tetris_uelf.c:115-124 | True exactly when some cell of the piece is off the sides or the floor or on an occupied cell. |
| Tetris.Tetris.LockPiece | packages/tetris/tetris_uelf.c:144-152 | Writes the piece's cells and nothing else. |
| Tetris.Tetris.DropRowsAbove | packages/tetris/tetris_uelf.c:167-171 | The rows above a row move down by one under an empty row; those below stay. |
| Tetris.Tetris.ClearCompletedLines | packages/tetris/tetris_uelf.c:154-180 | The loop that examines an index again terminates, keeps exactly the rows that are not full, in order, below empty ones, and counts the others. |
| Tetris.Tetris.SpawnPiece | packages/tetris/tetris_uelf.c:126-135 | The next piece appears; the game is over exactly when it collides. |
| Tetris.Tetris.TryRotatePiece | packages/tetris/tetris_uelf.c:188-203 | Turns in place or one column aside, the first that fits. |
| Tetris.Tetris.HardDropPiece | packages/tetris/tetris_uelf.c:211-219 | Drops as far as possible for two points a row, and settles. |
| Tetris.Tetris.Key | packages/tetris/tetris_uelf.c:359-408 | Each key has the effect of its event, and none while paused or over except restart and pause. |
| Tetris.Tetris.NextFrame | packages/tetris/tetris_uelf.c:402-408 | The piece falls when the level's interval has passed. |
| Tetris.Play | packages/tetris/tetris_uelf.c:341-415 | Any sequence of events played in place ends in the state of the run of the model. |
| AudioModel.IndexInRange | packages/view_backend_reis/view_backend_reis_uelf.c:223-248 | For any rate every output frame is a frame of the source, so the clamp never fires. |
| AudioModel.IndexAtEnd | packages/view_backend_reis/view_backend_reis_uelf.c:239-243 | The output covers the source to its end. |
| AudioModel.IndexStep | packages/view_backend_reis/view_backend_reis_uelf.c:443-447 | Up to 48000 Hz n output frames step over at most n source frames. |
| AudioModel.EveryFrameIsHeard | packages/view_backend_reis/view_backend_reis_uelf.c:443-447 | Up to 48000 Hz no source frame is skipped. |
| AudioModel.SampleReadsBack | packages/view_backend_reis/view_backend_reis_uelf.c:422-440 | Samples are read back from two bytes in two's complement, low byte first, or from an unsigned byte around 128. |
| AudioModel.LoudnessWithin | packages/view_backend_reis/view_backend_reis_uelf.c:211-221 | Volume scales toward zero to within one step and stops at the ends of the range. |
| AudioModel.AdvanceExact | packages/view_backend_reis/view_backend_reis_uelf.c:443-447 | The 32-bit error step is exact if and only if error plus rate fits in 32 bits. |
| AudioModel.StreamedAsBuffered | packages/view_backend_reis/view_backend_reis_uelf.c:385-507 | A file that holds all its frames sounds the same streamed as from memory. |
| AudioModel.SoundsRightExactly | packages/view_backend_reis/view_backend_reis_uelf.c:385-507 | Output taken from given byte positions is right for every file of a size exactly when every position is a right one. |
| AudioAhead.AfterIff | packages/view_backend_reis/view_backend_reis_uelf.c:396-456 | After a chunk that started in step a stream is in step exactly when the bytes it stepped over were buffered or no frame is left. |
| AudioAhead.KeepsUpIff | packages/view_backend_reis/view_backend_reis_uelf.c:385-507 | From any state in step, the rest of the output comes from the right places exactly when that guard holds at every chunk but the last and every chunk fits the buffer. |
| AudioAhead.KeepsUpExactly | packages/view_backend_reis/view_backend_reis_uelf.c:385-507 | A stream of a given rate, frame size and file size sounds right for every file exactly when it keeps up. |
| AudioAhead.SlowKeepsUp | packages/view_backend_reis/view_backend_reis_uelf.c:396-456 | Every stream up to 48000 Hz keeps up. |
| AudioAhead.MultiplesKeepUp | packages/view_backend_reis/view_backend_reis_uelf.c:396-456 | So does every whole multiple of 48000 Hz whose chunks fit the read-ahead buffer. |
| AudioAhead.OddRateLosesAFrame | packages/view_backend_reis/view_backend_reis_uelf.c:450-456 | An 8-bit mono file of more than 196608 bytes at 192001 Hz does not keep up: after 48 chunks a frame is lost. |
| AudioAhead.RunningIff | packages/view_backend_reis/view_backend_reis_uelf.c:457-497 | The index that the 32-bit error term computes in a chunk is right exactly when every step before it has (position * rate mod 48000) + rate < 2^32; otherwise it is too small. |
| AudioAhead.MemoryExactly | packages/view_backend_reis/view_backend_reis_uelf.c:457-497 | Playback from memory sounds right for every file exactly when every step that is used fits in 32 bits. |
| AudioAhead.OrdinaryRateFits | packages/view_backend_reis/view_backend_reis_uelf.c:457-497 | Up to 2^32 - 48000 Hz every step fits. |
| AudioAhead.HighestRateIsWrong | packages/view_backend_reis/view_backend_reis_uelf.c:457-497 | At 4294967295 Hz, of 178957 frames, output frame 2 should be source frame 178956 and the code plays 89478. |
| AudioPlayer.Player.Refill | packages/view_backend_reis/view_backend_reis_uelf.c:406-415 | Refilling keeps the unused bytes and is short only at the end of the file. |
| AudioPlayer.Player.BufferedFrame | packages/view_backend_reis/view_backend_reis_uelf.c:422-440 | The frame at an offset of the read-ahead buffer is the source frame, or silence past the end. |
| AudioPlayer.Player.ConvertStreamed | packages/view_backend_reis/view_backend_reis_uelf.c:396-456 | A chunk at any rate: refused exactly when it does not fit the buffer; its frames are those at the places the state stands for; if the stream was in step it stays so exactly when the bytes stepped over were read or no frame is left. |
| AudioPlayer.Player.ConvertBuffered | packages/view_backend_reis/view_backend_reis_uelf.c:457-497 | A chunk from memory at any rate; its frames are the right ones exactly when every step it uses fits in 32 bits. |
| AudioPlayer.Player.PumpChunks | packages/view_backend_reis/view_backend_reis_uelf.c:385-507 | Sends exactly as many chunks as the device takes, up to the end, and gives up exactly at a chunk that does not fit; a refused chunk is converted again. |
| AudioPlayer.Player.PumpBulk | packages/view_backend_reis/view_backend_reis_uelf.c:347-383 | The bulk path of the device's own format sends exactly what the device takes of what is buffered, and with room always gets on while the file has frames. |
| AudioPlayer.Player.SentIsRight | packages/view_backend_reis/view_backend_reis_uelf.c:336-507 | While playback keeps up, or its steps fit, everything sent is the source resampled. |
| AudioPlayer.PumpAll | packages/view_backend_reis/view_backend_reis_uelf.c:336-507 | However often the device is full, what it was sent is the source resampled, as much of it as the device had room for. |
| AudioPlayer.Compare | packages/view_backend_reis/view_backend_reis_uelf.c:336-507 | A stream that keeps up and the player from memory send the same resampled frames; each sends as many as the device had room for, up to the whole output. |
| PackBits.UnpackEncoded | packages/view_backend_reiv/view_backend_reiv_uelf.c:174-203 | The expansion of any well-formed run list is recovered, whatever follows it. |
| PackBits.UnpackExactly | packages/view_backend_reiv/view_backend_reiv_uelf.c:174-203 | A stream unpacks to some bytes exactly when it starts with a well-formed run list for them. |
| PackBits.DecodeRun | packages/view_backend_reiv/view_backend_reiv_uelf.c:179-201 | One run is expanded in place when it is complete and fits. |
| PackBits.RleDecodePackbits | packages/view_backend_reiv/view_backend_reiv_uelf.c:174-203 | The in-place loop fills the whole output exactly when the stream unpacks to that length. |
| Video.Stream.Rewind | packages/view_backend_reiv/view_backend_reiv_uelf.c:322-349 | Back at the first frame with an all-zero previous frame. |
| Video.Stream.DecodeEntry | packages/view_backend_reiv/view_backend_reiv_uelf.c:422-447 | Delta, run-length and raw data are decoded as the flags say, against the previous frame. |
| Video.Stream.DecodeNext | packages/view_backend_reiv/view_backend_reiv_uelf.c:389-452 | The k-th frame is F(k mod frame count); the end is reported only of a file that does not loop, and failure exactly when that frame has no meaning. |
| Video.Show | packages/view_backend_reiv/view_backend_reiv_uelf.c:389-452 | A looping file whose frames decode is shown over and over, for any number of frames. |
| Video.CodedRoundTrip | packages/view_backend_reiv/view_backend_reiv_uelf.c:422-447 | A frame stored raw, packed, as a difference or as a packed difference decodes to itself. |
| Video.StoredFramesDecode | packages/view_backend_reiv/view_backend_reiv_uelf.c:389-452 | A file that stores given frames, one after the other in the first version and each coded its own way in the others, decodes to exactly those frames. |
| Line.NearestIs | packages/draw/draw_uelf.c:229-249 | Each minor coordinate is the only whole number within half a pixel of the ideal line, halves upward. |
| Line.WithinHalf | packages/draw/draw_uelf.c:229-249 | Every offset (a, b) satisfies 2 * abs(b * dx - a * dy) <= max(dx, dy). |
| Line.EndPoints | packages/draw/draw_uelf.c:229-249 | The line starts and ends at its end points. |
| Line.NextPoint | packages/draw/draw_uelf.c:240-248 | Each step moves every axis by at most one and at least one of them. |
| Line.NoOvershoot | packages/draw/draw_uelf.c:229-249 | No point passes the end on either axis. |
| Line.ErrorStep | packages/draw/draw_uelf.c:240-248 | The two tests of the error term choose exactly the next point and keep the term. |
| Line.OnlyLastIsEnd | packages/draw/draw_uelf.c:239 | The end is met at point max(dx, dy) and not before. |
| Line.Canvas.PaintBrush | packages/draw/draw_uelf.c:210-227 | Paints exactly the canvas pixels within the radius. |
| Line.Canvas.PaintLine | packages/draw/draw_uelf.c:229-249 | Terminates for all end points, visits exactly max(dx, dy) + 1 points, and paints exactly the pixels under the brush at one of them. |
| LoaderModel.VisitLoads | packages/ldso/ldso_uelf.c:408-425 | A successful load holds its path once and every new object's needed names stand for loaded objects. |
| LoaderModel.VisitInside | packages/ldso/ldso_uelf.c:408-425 | Loading stays inside any closed set around the path and succeeds when it has at most eight members, also on cycles. |
| LoaderModel.LoadExactly | packages/ldso/ldso_uelf.c:408-425 | Loading succeeds exactly when the program lies in a closed set of at most eight objects; the objects are then the smallest such set, without duplicates, the program first. |
| LoaderModel.ResolvesToFirst | packages/ldso/ldso_uelf.c:259-295 | A name without a slash stands for the first readable one of its places, and for nothing exactly if none is readable. |
| LoadOrder.LoadInOrder | packages/ldso/ldso_uelf.c:408-425 | Each object after the first is what the first needed name still standing outside stands for, taken from the latest object that has one. |
| LoadOrder.OrderIsUnique | packages/ldso/ldso_uelf.c:408-425 | Only one complete order has that property. |
| Loader.Loader.FindLoadedObject | packages/ldso/ldso_uelf.c:252-257 | Found exactly when the path is loaded. |
| Loader.Loader.LoadObject | packages/ldso/ldso_uelf.c:420-625 | The recursive registration terminates on cyclic graphs and loads in the order of the depth-first walk. |
| Loader.Loader.LoadNeededLibraries | packages/ldso/ldso_uelf.c:408-418 | The needed names are loaded in order up to the first failure. |
| Loader.Loader.ResolveSymbolAddr | packages/ldso/ldso_uelf.c:301-319 | The address of the first definition in the first object that has one, in load order; zero exactly when there is none or that address is zero. |
| Loader.LoadProgram | packages/ldso/ldso_uelf.c:420-625 | The whole load from an empty table: when it succeeds, the set of objects, and their order. |
| Loader.LoadAndResolve | packages/ldso/ldso_uelf.c:301-625 | The addresses found after a load are those of the first definitions in the only order in which the objects can be taken up. |

## Left out

- GzipState.Valid: holds until the first error only. The code does not remember an error between reads, so nothing is claimed of reads after one.
- The gzip header (extract_uelf.c:607-644): the machine starts at the first compressed byte; skipping the optional header fields would add only easy members.
- Read errors of files are modelled as the end of the file.
- Stored and compressed data: the 32-bit bit buffer is a number; shifting bits in is modelled as addition, which is the same on disjoint bits.
- Tar.Extractor.ExtractRegularFile: file system failures (creating directories, opening and writing streams, existing files) and the printed counts of files and directories are left out.
- Tar.ExtractGzip: the compressed stream is sound. Nothing is claimed of a stream that is malformed or does not match its trailer, since the code may read on after such an error.
- TarNames.EntryName, TarNames.JoinPaths: string copying in place is modelled on values.
- JSON: bytes are characters; UTF-8 validity, reading the file and the line and column of an error message. Output is a single growing text, whether by characters or slices.
- SSH: AES in counter mode is an abstract keystream and the packet MAC an abstract function of sequence number and packet; SshKeys shows what the MAC function is. The cipher library accepts the keys. A connection that is closed is the end of the stream. The exchange hash, key exchange, authentication and channels are left out, so which messages are awaited is a parameter.
- SshTransport.Receiver.RecvPacket: when it times out or refuses, bytes already taken from the socket are lost in the code and in the model; nothing is claimed of the stream afterwards except the counters.
- Sha256.Context: one class stands for both implementations, which differ in counting bytes or bits and in the order of one sum. Both table constants are the same list.
- Editor.Buffer: selections, redo, find, files and the title are left out. A key is one edit operation or a cursor movement: the program's Enter is a newline followed by the typed indentation, its Tab some typed spaces.
- Tetris: score, lines and coordinates are unbounded integers; drawing and timing are left out. A row is a value, so copying a row is one assignment.
- AudioPlayer.Player: frame counts are unbounded; a file whose output frame count passes 2^32 is not modelled. The bulk path may also send a last incomplete frame of a cut-off file, which is not counted as sent.
- Video.Stream: allocation succeeds, and seeking and opening again leave the same state. The data is shorter than 2^32 bytes. After a failed frame nothing is claimed.
- Line.Canvas: the canvas is a two-dimensional array instead of one with computed indices; coordinates do not overflow.
- Loader.Loader: ELF parsing, mapping and relocation are left out: a file is either loadable, with its needed names and symbols, or not. Paths are shorter than 256 characters, as the table stores them.
- The other programs of the repository (network clients, installers, small commands, view backends that repeat the audio and run-length code).
