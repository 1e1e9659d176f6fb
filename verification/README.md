# Verified model of rsync-rs

rsync-rs speaks the rsync wire protocol: a receiver describes the old version of a file by block checksums, a sender
answers with a delta, and both ends talk over byte streams in a lock-step session. This project models that core in
Dafny and proves what it promises, for protocols 30 and 31. `dafny verify dfyconfig.toml` checks everything.

What the modules say, in the order they build on each other:

- `Bytes`, `Varint`, `Ndx`: machine integers, and the integer codecs with their round trips on any continuation of the
  stream. `varlong` is exact from a width of 3 up and loses the largest numbers below; index coding is exact but for
  the least 32-bit number.
- `Rolling`, `Layout`, `MatchBlocks`, `Greedy`: the weak checksum as two sums modulo 2^16, the cutting of a file into
  blocks, the sliding-window search. The search computes the one greedy tiling of the source, exactly as long as no
  run of unmatched bytes reaches 2^32.
- `Tokens`, `DeltaEngine`, `Transfer`: operations to bytes to operations to file. The rebuilt file is the source if
  and only if every chosen block holds the bytes of its window and every literal fits 32 bits. Without checksum
  collisions and below 4 GiB that is always so.
- `Network`, `Session`, `SessionProofs`, `SessionTranscript`, `SessionBytes`, `SessionFrames`: sender and receiver as
  two programs with write buffers and FIFO channels. Buffers may also spill at any moment. Every interleaving ends;
  every message read is of the kind expected; no interleaving gets stuck if and only if every requested file can be
  read by the sender. What each side writes is read back from its bytes as the same messages by the other side's
  reads, also when the bytes go out in frames with log messages in between. `SessionTranscript` lists every message of
  a session.
- `FileTypes`, `FileOrder`, `FileSort`, `FileList`, `FileListProofs`, `FileListLeast`, `DeviceGate`, `HardLinks`,
  `FileExchange`: the file list. The byte-walking comparison is a lexicographic order; entries come back as they were
  sent; nothing shorter than what is sent for an entry reads as that entry; a list comes back exactly when the device
  numbers its reader takes are sent; index i names the same file at both ends; hard-link references survive the
  receiver's sort.
- `DeflateToken`, `CompressedDelta`: run coding of the compressed stream, and a file's delta over it. What is read is
  what was sent if and only if no literal lies between two block matches; then the file is rebuilt. Inserting one byte
  in the middle of a file of two blocks is enough to get such a literal.
- `Multiplex`, `Glob`, `Md4`, `DeleteWalk`: framing, wildcard matching against a declarative relation, MD4 padding,
  and the delete walk.
- `WireForms`: the bytes of every codec above, one by one. A round trip holds for any format that both sides share;
  these are the formats a peer expects.

Loops and objects of the program are methods and classes here, each proved against a function or predicate; the lemmas
are about those functions. Strong checksums, MD5, MD4 compression and DEFLATE are parameters: arbitrary functions, about
which nothing is assumed except where a lemma says so.

## Where the code does not do what its comments say

- `src/delta/deflate_token.rs:115-119` asks callers for matches without literals in between; the sender
  (`src/pipeline/sender.rs:211-227`) gives it literals in between. A delta survives the compressed stream exactly when
  it has no literal between two matches (`CompressedDelta.StreamOfOps`); otherwise a block is lost or sent twice, as
  for a byte inserted between two blocks (`CompressedDelta.InsertedByteIsWrong`, `DeflateToken.InteriorLiteral`).
- `src/pipeline/sender.rs:155-159` answers a file it cannot read with an empty reply "so the protocol stream stays
  aligned", but does not flush it. The receiver can wait for ever (`SessionProofs.NeverStuckIffReadable`).
- `src/flist/recv.rs:303-311` reads device numbers that `src/flist/send.rs:290-300` did not send when devices are not
  preserved. With varint flags, a small error number and fewer than two hard-link leaders behind the first such device
  the list comes back exactly when there are no such numbers (`DeviceGate.DeviceGate`). With byte flags an end marker
  can serve as the numbers 4 and 16 of a last entry, and the list is accepted with them (`DeviceGate.LastUngated`).
- `src/io/varint.rs:198` takes any least width, but widths 1 and 2 lose the numbers from 2^49 and 2^57 on
  (`Varint.VarlongRoundTrip`, `Varint.VarlongNarrowFails`).
- `src/io/multiplex.rs:264-269` says that only data bytes are returned. That is so exactly when no other frame with a
  payload has an unknown code or a header byte below the base (`Multiplex.DemuxFrames`, `Multiplex.UnknownIsData`).
- The second loop over stars in `src/filter/mod.rs:303-307` has nothing left to skip (`Glob.ScanStars`), and the first
  branch of the token reader, for a partly read literal (`src/delta/token.rs:100-106`), is never taken, as a literal
  is always read whole; the model leaves both out.
- A wildcard class that admits a slash, by naming it, by a range around it or by negation, matches one, although `?`
  and `*` do not. Without double stars a pattern keeps to its own depth exactly when no class does, or some class
  admits nothing (`Glob.OwnDepthOnly`, `Glob.ClassesTakeSlash`).

## Model

| member | source | states |
|---|---|---|
| `Bytes.IntRoundTrip` | src/io/varint.rs:42-52 | a fixed 32-bit integer is read back from any continuation of the stream |
| `Bytes.IntParses` | src/io/varint.rs:42-52 | whatever the reader accepts is the writing of what it returns |
| `Bytes.ShortintRoundTrip` | src/io/varint.rs:29-39 | a 16-bit integer is read back from any continuation |
| `WireForms.IntForm` | src/io/varint.rs:42-52 | an integer is four bytes of its two's complement, lowest first |
| `WireForms.ShortintForm` | src/io/varint.rs:29-39 | a 16-bit integer is two bytes, lowest first |
| `Varint.WriteVar` | src/io/varint.rs:109-142 | the in-place writer yields the marker encoding shared by varint and varlong |
| `Varint.VarRoundTrip` | src/io/varint.rs:95-142 | for any width the decoder inverts the encoder if and only if the encoding has at most six extra bytes |
| `Varint.VarLength` | src/io/varint.rs:109-142 | an encoding has at most n bytes exactly when the number is below the bound of n bytes |
| `Varint.VarintRoundTrip` | src/io/varint.rs:95-142 | every 32-bit number is read back, from 1 to 5 bytes, on any continuation |
| `Varint.VarintLength` | src/io/varint.rs:109-142 | the varint is the shortest: n bytes hold exactly the numbers below 2^(7n), for n up to 4 |
| `Varint.VarlongRoundTrip` | src/io/varint.rs:171-225 | a 64-bit number is read back at widths from 3 to 8, at width 1 exactly if its unsigned value is below 2^49, at width 2 exactly if below 2^57 |
| `Varint.VarintLeast` | src/io/varint.rs:95-107 | no bytes that read as a number are fewer than those written for it |
| `Varint.VarlongLeast` | src/io/varint.rs:171-195 | the same for 64-bit numbers at the widths in use |
| `Varint.VarlongNarrowFails` | src/io/varint.rs:7-12 | concrete numbers that widths 1 and 2 lose |
| `WireForms.VarForm` | src/io/varint.rs:109-142 | an encoding with e extra bytes is a marker of e leading ones over the top byte, then the bytes below, lowest first |
| `WireForms.VarintForm` | src/io/varint.rs:109-142 | the bytes of every 32-bit number, in its five sizes |
| `WireForms.LengthForm` | src/io/varint.rs:197-225 | the bytes of a file length below 2^37 |
| `WireForms.TimeForm` | src/io/varint.rs:197-225 | the bytes of a time below 2^38 |
| `Ndx.NdxRoundTrip` | src/io/varint.rs:268-378 | one index is read back and leaves the writer's state, for every index but the least, and for that one exactly when the difference is short |
| `Ndx.NdxRunRoundTrip` | src/io/varint.rs:250-378 | any run of indices is read back, and the reading state ends equal to the writing state |
| `Ndx.NdxState.WriteNdx` | src/io/varint.rs:329-378 | writing gives the bytes of the index and changes the write cells only |
| `Ndx.NdxState.Read` | src/io/varint.rs:268-325 | reading decodes one index and changes the read cells only |
| `Ndx.NdxForms` | src/io/varint.rs:329-378 | from any state -1 is a zero byte, and any other index one byte, three or five by its distance from the last of its sign, the negative ones behind 0xFF |
| `Ndx.FirstIndex` | src/io/varint.rs:251-254 | the first index of a connection goes out as n + 1 from 0 to 252, and behind 0xFF as one less than its absolute value from -2 to -254 |
| `Ndx.ReadFirst` | src/io/varint.rs:251-254 | a fresh reader takes a first byte b from 1 to 253 as the index b - 1 |
| `Rolling.Checksum1` | src/checksum/rolling.rs:10-50 | the unrolled loop computes the plain and weighted sums of signed bytes modulo 2^16 |
| `Rolling.RollingChecksum.Init` | src/checksum/rolling.rs:84-99 | the state agrees with the window although the accumulators are cut to 16 bits |
| `Rolling.RollingChecksum.Roll` | src/checksum/rolling.rs:102-112 | one byte leaves, one enters, and the state agrees with the new window |
| `Rolling.RollingChecksum.Value` | src/checksum/rolling.rs:114-116 | the value is the checksum of the current window, however it was reached |
| `Rolling.WeakSumStep` | src/checksum/rolling.rs:10-50 | the checksum of nothing is 0; one more byte is added as a signed number to the low half, and the new low half to the high one, each modulo 2^16 |
| `Layout.HeadDescribesFile` | src/util.rs:17-37 | count, block length and remainder cut the file exactly, if and only if it has at most (2^31 - 1) * 2^17 bytes |
| `Layout.HeadBlockLength` | src/util.rs:17-20 | blocks are 700 bytes below 7,010,000 bytes, then a ten-thousandth of the file, and 2^17 bytes from 1,310,720,000 on |
| `Layout.HeadBlockCount` | src/util.rs:22-37 | count and remainder are those of dividing by the block length, and below 1,310,720,000 bytes there are at most 10015 blocks |
| `WireForms.MillionBytes` | src/util.rs:17-37 | the sixteen bytes of the header for a basis of a million bytes |
| `WireForms.NoBasisForm` | src/pipeline/receiver.rs:398-404 | without a basis the header is zero but for the checksum length |
| `Layout.BlockBounds` | src/pipeline/sender.rs:358-401 | every block lies inside the file, and all but the last are full |
| `MatchBlocks.ComputeSumBufs` | src/pipeline/sender.rs:358-401 | the sums describe the basis block by block |
| `MatchBlocks.BuildTable` | src/delta/match_blocks.rs:96-112 | looking up a weak checksum gives all blocks that have it, in order |
| `MatchBlocks.CandidatesExact` | src/delta/match_blocks.rs:96-112 | a block is among the candidates exactly when its weak checksum is the one looked up |
| `MatchBlocks.FindHit` | src/delta/match_blocks.rs:176-200 | the lookup finds the first block of the window's length that agrees on weak and strong checksum, and misses none |
| `MatchBlocks.FindMatchesSeeded` | src/delta/match_blocks.rs:135-250 | the sliding loop gives the operations of the search specification |
| `Greedy.DeltaIsTheGreedyTiling` | src/delta/match_blocks.rs:161-247 | for every source, operations tile it in order, match first agreeing blocks and leave no window with a match inside a literal exactly when they are those of the search and no literal run reaches 2^32; below 4 GiB none does |
| `Greedy.UnchangedFileIsAllMatches` | src/delta/match_blocks.rs:161-247 | a file equal to its basis gives a match per full block and at most one short literal, with no assumption on collisions |
| `Tokens.TokenWriter.SendLiteral` | src/delta/token.rs:40-50 | literal bytes are accepted in order; what goes out are literals of exactly 32768 bytes, and less than that stays buffered |
| `Tokens.TokenWriter.FlushLiterals` | src/delta/token.rs:52-61 | buffered bytes go out as one literal, none if there are none, and nothing is lost |
| `Tokens.TokenWriter.SendBlockMatch` | src/delta/token.rs:63-68 | a block reference follows all literals accepted before it, the buffered ones as one literal |
| `Tokens.TokenWriter.Finish` | src/delta/token.rs:70-80 | the wire holds non-empty literals of at most 32768 bytes and references that say what was accepted, then the end marker |
| `Tokens.TokenReader.ReadToken` | src/delta/token.rs:98-124 | one token is read as the grammar says, or a stream error |
| `Tokens.TokenReader.ReadAll` | src/pipeline/receiver.rs:452-457 | the reading loop returns all tokens up to the end marker |
| `Tokens.TokensRoundTrip` | src/delta/token.rs:40-124 | tokens written are the tokens read, and the stream behind them is untouched |
| `Tokens.TokensParseOnlyWritings` | src/delta/token.rs:98-124 | an accepted stream is the writing of the tokens returned |
| `WireForms.TokenForm` | src/delta/token.rs:40-80 | a literal is its length and its bytes, a block reference the complement of its index, the end four zeros |
| `DeltaEngine.ApplyDelta` | src/pipeline/generator.rs:203-231 | applying tokens gives the file that their literal bytes and block references describe |
| `DeltaEngine.CopiedBytes` | src/pipeline/generator.rs:213-226 | a reference copies a block's length from its offset, of the last block the remainder, and never past the end of the basis |
| `DeltaEngine.SendOps` | src/pipeline/sender.rs:229-243 | the token writer accepts exactly what the operations say about the source |
| `DeltaEngine.DeltaRebuildsExactly` | src/delta/match_blocks.rs:135-250 | the rebuilt file is the source if and only if each chosen block holds its window's bytes and each literal fits 32 bits |
| `DeltaEngine.DeltaRebuilds` | src/delta/match_blocks.rs:135-250 | without colliding windows and below 4 GiB the rebuilt file is the source |
| `DeltaEngine.HeadRoundTrip` | src/delta/match_blocks.rs:28-44 | a header is read back as written |
| `WireForms.HeadForm` | src/delta/match_blocks.rs:37-44 | a header is count, block length, checksum length and remainder in this order |
| `WireForms.SumsForm` | src/delta/match_blocks.rs:78-85 | a block's entry is its weak checksum, lowest byte first, and then the strong one |
| `DeltaEngine.WriteSumBufs` | src/delta/match_blocks.rs:78-85 | block checksums are written one after the other |
| `DeltaEngine.ReadSumBufs` | src/delta/match_blocks.rs:46-75 | offsets and lengths are recomputed from the header while reading |
| `DeltaEngine.SumsRoundTrip` | src/delta/match_blocks.rs:46-85 | the sums of a basis are read back, offsets and lengths included |
| `Transfer.WriteRequest` | src/pipeline/receiver.rs:384-407 | the request holds the basis header and all its block checksums |
| `Transfer.WriteReply` | src/pipeline/sender.rs:228-258 | uncompressed, the reply echoes the header and says the delta of the source |
| `Transfer.ReadReply` | src/pipeline/receiver.rs:451-462 | uncompressed, any reply is applied to the basis, or an error exactly when its header or tokens cannot be read or its checksum is cut short |
| `Transfer.TransferFile` | src/pipeline/receiver.rs:384-462 | end to end over bytes, uncompressed: the receiver's file is the source exactly when the delta is faithful, in particular without collisions below 4 GiB |
| `SessionProofs.StepKeeps` | src/pipeline/sender.rs:67-277 | every step of every interleaving keeps what is in flight in tune with both programs |
| `SessionProofs.ReadsAreExpected` | src/pipeline/receiver.rs:373-463 | in every interleaving each message read is of the kind its reader expects |
| `SessionProofs.RunsEnd` | src/pipeline/sender.rs:67-277 | every interleaving is finite |
| `SessionProofs.NeverStuckIffReadable` | src/pipeline/sender.rs:162-190 | no interleaving gets stuck if and only if every requested file is readable |
| `SessionProofs.DoneLeavesNothing` | src/main.rs:1386-1397 | at the end nothing is unread or unsent but one end marker at protocol 31, and the files are the computed ones |
| `SessionProofs.OutcomeIsSource` | src/pipeline/receiver.rs:410-462 | a file of the session is the sender's exactly when its delta is faithful |
| `SessionProofs.SessionDelivers` | src/pipeline/receiver.rs:588-614 | every interleaving that can go no further has both sides done and each file right exactly when its delta is faithful |
| `SessionTranscript.ReceiverTranscript` | src/pipeline/receiver.rs:373-407 | the receiver writes index, transfer flag, header and sums of each file, and then four end markers, at protocol 31 five |
| `SessionTranscript.SenderTranscript` | src/pipeline/sender.rs:67-277 | the sender answers each file with its index, flag, header, delta and whole-file digest, zeros for a file it cannot read; then come three end markers, five statistics as a server, and one more end marker at protocol 31 |
| `SessionBytes.MsgRoundTrip` | src/pipeline/sender.rs:67-277 | the bytes of a message are read back as that message, with the reader's index cells following the writer's |
| `SessionBytes.FlagsForm` | src/protocol/constants.rs:141-141 | item flags are two bytes, the transfer flag the top bit of the second |
| `SessionBytes.SessionStreams` | src/pipeline/receiver.rs:373-463 | in a session the bytes of all that one side writes are read back, by the other side's reads in their order, as the same messages |
| `SessionBytes.SessionHasBytes` | src/pipeline/sender.rs:67-277 | every message of every session can be written |
| `SessionFrames.SendPieces` | src/io/multiplex.rs:235-260 | session bytes and log messages go out in turn, and the data of the frames is the session bytes |
| `SessionFrames.Carry` | src/io/multiplex.rs:235-346 | written in pieces with log messages in between and read with buffers of any sizes, the session bytes arrive and nothing else |
| `SessionFrames.FramedStreams` | src/main.rs:1290-1295 | whatever frames carry the bytes of both sides of a session, each side's reads get the other's messages from them |
| `SessionFrames.CarryRequests` | src/main.rs:669-727 | the receiver's bytes, framed and read back, are its messages for the sender |
| `SessionFrames.CarryAnswers` | src/main.rs:669-727 | the sender's bytes, framed and read back, are its messages for the receiver |
| `FileOrder.Walker.constructor` | src/flist/sort.rs:60-79 | the walker will produce the key of the entry |
| `FileOrder.Walker.Refill` | src/flist/sort.rs:84-128 | one refill takes the first of the remaining keys, and at the end leaves an item type |
| `FileOrder.FileCompare` | src/flist/sort.rs:27-48 | comparing byte by byte is comparing (type, byte) keys lexicographically, and says less exactly for what comes first by the bytes of directory text and name |
| `FileOrder.CompareByText` | src/flist/sort.rs:27-48 | one entry is less than another exactly when its directory text comes first bytewise, prefixes first, or is the same and its name comes first; equal exactly for equal texts |
| `FileOrder.TextsArePath` | src/flist/sort.rs:60-79 | these texts are the entry's path, with a slash behind a directory other than "." |
| `FileOrder.FilesByName` | src/flist/sort.rs:27-48 | files of one directory are in the order of their names: prefixes first, else by the lower byte where they first differ |
| `FileOrder.DirectoriesByByte` | src/flist/sort.rs:27-48 | entries whose directories first differ in a byte are in the order of that byte |
| `FileOrder.CompareIsTotalPreorder` | src/flist/sort.rs:27-48 | the comparison is reflexive, total, transitive, and equal exactly on equal keys |
| `FileOrder.WithinIsPrefix` | src/flist/sort.rs:60-128 | an entry lies in a directory's subtree exactly when the directory's key is a prefix of its key |
| `FileOrder.DirectoryFirst` | src/flist/sort.rs:20-26 | a directory comes before everything below it |
| `FileOrder.SubtreeContiguous` | src/flist/sort.rs:20-26 | in a sorted list a subtree is consecutive |
| `FileOrder.FilesBeforeSubdirectories` | src/flist/sort.rs:20-26 | files of a directory come before its subdirectories and all in them |
| `FileSort.SortIndexed` | src/flist/recv.rs:121-123 | a stable sorted order of all positions |
| `FileSort.FlistSort` | src/flist/sort.rs:9-12 | the list is stably sorted, and nothing in it comes before what stands before it by the bytes of directory text and name |
| `FileSort.SortedIsFixed` | src/flist/recv.rs:121-123 | sorting a sorted list is the identity, equal entries included |
| `FileSort.OrderHitsAll` | src/flist/recv.rs:125-129 | every old position has a new one |
| `FileListProofs.SentFlagsFacts` | src/flist/send.rs:197-230 | no entry's flag word is the end of the list, and the word says what is left out |
| `WireForms.FlagForm` | src/flist/send.rs:138-230 | the flag word as a number, and its bytes in all three forms |
| `WireForms.SharedIsLongest` | src/flist/send.rs:126-136 | the shared prefix of two names is the longest of at most 255 bytes |
| `FileListProofs.FlagsParse` | src/flist/recv.rs:49-68 | flag words are read back in the byte, two-byte and varint forms |
| `FileListProofs.NameParse` | src/flist/recv.rs:174-191 | the name is rebuilt from the shared prefix of the name before |
| `FileListProofs.PathSplits` | src/flist/recv.rs:193-198 | the last slash splits a path into the directory and name it was made of |
| `FileListProofs.OmittedIsKnown` | src/flist/send.rs:138-181 | each field left out by a flag is one the receiver has from the entry before, or one that is not preserved |
| `FileListProofs.EntryParse` | src/flist/send.rs:114-326 | one entry whose device numbers, if any are read, are sent is read back as itself on any continuation, hard-link followers from their leader |
| `WireForms.FirstFile` | src/flist/send.rs:114-326 | every byte of a first entry that is a plain file: flags, name, length, time, mode, owner, group |
| `WireForms.OtherParts` | src/flist/send.rs:232-326 | the bytes of a later name, of device numbers, of a link target and of a checksum, and which entries have them |
| `WireForms.FollowerForm` | src/flist/send.rs:243-257 | a later name of a hard-linked file is flags, name and the index of the first |
| `WireForms.NamesAreDropped` | src/flist/recv.rs:266-298 | a user name behind the user id and a group name behind the group id are read over |
| `WireForms.DeviceNumbersLinger` | src/flist/recv.rs:302-319 | an entry without device numbers takes those of the entry before, or zeros |
| `FileListProofs.EntriesParse` | src/flist/recv.rs:48-112 | a list of such entries is read back entry for entry |
| `FileListProofs.ListParse` | src/flist/send.rs:50-109 | such a list and its end marker are read back and consume exactly their bytes, with any flags and options |
| `WireForms.EndForm` | src/flist/send.rs:83-109 | the bytes that end a list, in all three forms, and of the empty lists of names |
| `FileListProofs.EntryConsumes` | src/flist/recv.rs:163-358 | every entry read uses up bytes, for all inputs |
| `FileListLeast.EntryLeast` | src/flist/send.rs:114-326 | whatever reads as an entry is as long as what is sent for it, and two bytes longer where device numbers are read but not sent |
| `DeviceGate.DeviceGate` | src/flist/recv.rs:303-311 | with varint flags and a one-byte error number, a list of any length comes back as sent if every device number read is sent, and does not if one is not and fewer than two leaders lie behind the first such device for each of them |
| `DeviceGate.DevicesCost` | src/flist/send.rs:290-300 | with any flags and positions, a list that comes back has paid two bytes for each device number not sent, from its end and from loose flag words behind the first of them |
| `DeviceGate.LastUngated` | src/flist/send.rs:83-92 | behind any well-formed entries and with any flags, a device entry without numbers comes back as sent exactly when the end marker serves as its numbers and they are 4 and 16; whenever the marker serves, the list is accepted with those numbers |
| `FileExchange.BuildFlags` | src/flist/send.rs:138-203 | the flags set one by one are the flags of the entry |
| `FileExchange.WriteFlags` | src/flist/send.rs:206-230 | the flag word is made different from the end marker and written in the form in use |
| `FileExchange.WriteName` | src/flist/send.rs:232-241 | what the name does not share is written, with its length in one byte or a long form |
| `FileExchange.SendFileEntry` | src/flist/send.rs:114-326 | the fields written one after the other are the bytes that the entry round trip reads back |
| `FileTypes.ModeTypes` | src/protocol/types.rs:21-29 | which file type each value of the mode's type bits stands for |
| `FileExchange.SendFileList` | src/flist/send.rs:59-109 | all entries in wire order, each against the one before, then the end of the list |
| `FileExchange.ReadRefersBack` | src/flist/recv.rs:204-239 | whatever bytes come in, a reference points to an earlier entry |
| `FileExchange.ReceiveFileList` | src/flist/recv.rs:35-144 | entries in stable sorted order with references moved along, or an error exactly when reading fails |
| `FileExchange.ReferencesFollow` | src/flist/recv.rs:119-140 | for any wire order each reference leads to the entry it led to, and distinct references stay distinct |
| `FileExchange.IndexAgreement` | src/flist/recv.rs:114-144 | a sorted list that comes back comes out with every entry at the index it was sent under |
| `FileExchange.ExchangeFileList` | src/main.rs:794-811 | sort, mark, send, receive, sort, adjust: whenever the list comes back both ends hold matching entries at every index; it does when all device numbers read are sent, and in the varint form only then, but for two leaders behind a device |
| `HardLinks.GroupByInode` | src/main.rs:1496-1505 | positions are grouped exactly by inode |
| `HardLinks.FileTable.MarkHardlinks` | src/main.rs:1486-1525 | whatever the order of the groups, each wire entry is marked as the specification says and others are untouched |
| `HardLinks.OneLeader` | src/main.rs:1507-1524 | in a group exactly one entry leads, it comes first, and all others refer to it |
| `HardLinks.MarksAreThePartition` | src/main.rs:1486-1525 | two entries stand for the same leader exactly when they are the same file |
| `HardLinks.OneFileOneLeader` | src/main.rs:1496-1525 | two entries stand for the same leader exactly when both are regular files with the same device and the same non-zero inode |
| `HardLinks.MarkedMembers` | src/main.rs:1496-1525 | an entry is marked exactly when it is a regular file with another name in the list, leads exactly when no other name comes before it, and else refers to the first of them |
| `HardLinks.MarkedIsWellFormed` | src/flist/recv.rs:204-239 | a marked list passes the receiver's range check, has leaders with the followers' metadata, and needs the same device numbers |
| `DeflateToken.DeflatedTokenWriter.CloseRun` | src/delta/deflate_token.rs:141-158 | a closed run is written relative or absolute with its count |
| `DeflateToken.DeflatedTokenWriter.EmitToken` | src/delta/deflate_token.rs:120-139 | a match extends the run or closes it and starts another |
| `DeflateToken.DeflatedTokenWriter.FlushPendingLiteral` | src/delta/deflate_token.rs:162-220 | a flush closes an open run and writes the payload in frames |
| `DeflateToken.DeflatedTokenWriter.Finish` | src/delta/deflate_token.rs:103-111 | what was written is the stream of all items given |
| `DeflateToken.DeflatedTokenReader.ReadToken` | src/delta/deflate_token.rs:297-433 | each call delivers the next item of the stream and keeps the rest |
| `DeflateToken.ReadRun` | src/delta/deflate_token.rs:381-399 | a run is read back whole and leaves the reader's token at the writer's run end, its count within 16 bits |
| `DeflateToken.ReadFrames` | src/delta/deflate_token.rs:207-216 | frames of at most 16383 bytes are read back as the bytes cut |
| `WireForms.RunForm` | src/delta/deflate_token.rs:141-158 | the bytes of every run: relative up to 63 behind the run before, else absolute, with a count if it has more than one block |
| `WireForms.ConsecutiveBlocks` | src/delta/deflate_token.rs:120-139 | up to 65536 consecutive blocks are one run, and the block after them closes it |
| `WireForms.ShortFrame` | src/delta/deflate_token.rs:207-216 | up to 16383 bytes are one frame, its length with the higher byte first |
| `WireForms.LongFrame` | src/delta/deflate_token.rs:207-216 | more bytes begin with a full frame |
| `DeflateToken.StreamIsFaithful` | src/delta/deflate_token.rs:104-158 | every stream can be read, and says what was sent if and only if no literal lies between two matches |
| `DeflateToken.InteriorLiteral` | src/delta/deflate_token.rs:122-134 | match 0, literal, match t is read with match 0 twice, or with match 1 lost |
| `CompressedDelta.SendCompressed` | src/pipeline/sender.rs:211-227 | the loop over the operations writes the stream of their items |
| `CompressedDelta.StreamOfOps` | src/pipeline/sender.rs:211-227 | the stream of any operations can be read, and says what they say if and only if no literal lies between two matches |
| `CompressedDelta.SendDelta` | src/pipeline/sender.rs:196-227 | search and compressed sending: the operations are the delta, and the stream says them if and only if no literal lies between two matches |
| `CompressedDelta.ReceiveCompressed` | src/pipeline/receiver.rs:422-450 | the reading loop gives what the stream's items unpack to, block bytes joining the dictionary |
| `CompressedDelta.CompressedDeltaRebuilds` | src/pipeline/receiver.rs:422-450 | whenever the uncompressed exchange rebuilds the source, and no literal lies between two matches, the file unpacked from the stream is the source |
| `CompressedDelta.NewDelta` | src/delta/match_blocks.rs:135-250 | for one byte inserted between two blocks of different bytes the search gives match, literal, match, whatever the strong checksum |
| `CompressedDelta.InsertedByteIsWrong` | src/delta/deflate_token.rs:115-139 | the compressed stream of that delta says something else |
| `Multiplex.DemuxFrames` | src/io/multiplex.rs:264-346 | with any header bytes, what is read of whole frames is the data frames' bytes in order exactly when no other non-empty frame is taken for data |
| `Multiplex.UnknownIsData` | src/io/multiplex.rs:292-302 | a frame of an unknown code, or with header byte 0, is delivered as data |
| `WireForms.FrameForm` | src/io/multiplex.rs:235-241 | a frame is its length in three bytes, its header byte and its payload, and data has the header byte 7 |
| `WireForms.SkippedHeaders` | src/io/multiplex.rs:264-319 | which of the 256 header bytes are skipped as messages; the payload behind any other is data |
| `Multiplex.MplexWriter.Write` | src/io/multiplex.rs:245-255 | one write is one frame of all its bytes up to 2^24 - 1, or raw bytes before multiplexing |
| `Multiplex.MplexWriter.WriteAll` | src/io/multiplex.rs:244-260 | all bytes are written, over as many frames as needed |
| `Multiplex.MplexWriter.WriteMsg` | src/io/multiplex.rs:235-241 | a message is one frame of its own |
| `Multiplex.MplexReader.Read` | src/io/multiplex.rs:322-346 | a read gives the next bytes of data, possibly fewer than asked, and none only when there are none |
| `Multiplex.MplexReader.ReadExactly` | src/io/multiplex.rs:322-346 | repeated reads give exactly the next n bytes if there are as many |
| `Multiplex.Deliver` | src/io/multiplex.rs:235-346 | for any writes, messages and buffer sizes the data read is the data written, and enough reads get all of it |
| `Multiplex.MultiplexStream.ReadData` | src/io/multiplex.rs:76-102 | exactly n bytes of data; on well-framed streams an error exactly when there are fewer |
| `Multiplex.MultiplexStream.WriteData` | src/io/multiplex.rs:107-120 | data goes out in non-empty frames, all but the last of 2^24 - 1 bytes |
| `Multiplex.FramesAreWellFramed` | src/io/multiplex.rs:140-161 | what the writers write is accepted by the strict header check |
| `Glob.ScanStars` | src/filter/mod.rs:284-307 | the scan takes the whole run of stars and is double exactly when there are two or more |
| `Glob.MatchCharClass` | src/filter/mod.rs:367-401 | membership in, and length of, the class at the front of a pattern |
| `Glob.AfterStars` | src/filter/mod.rs:309-336 | some stretch the stars may take lets the rest match |
| `Glob.WildMatch` | src/filter/mod.rs:276-363 | the matcher ends, and says yes exactly when the text can be cut into stretches its pieces stand for |
| `Glob.OwnDepthOnly` | src/filter/mod.rs:265-271 | without double stars a pattern matches only texts with its own number of slashes exactly when no class admits a slash or some class admits nothing |
| `Glob.ClassesTakeSlash` | src/filter/mod.rs:367-401 | a negated class and a range around the slash each match a slash |
| `Glob.SimplePieces` | src/filter/mod.rs:276-363 | `?` matches any byte but a slash, `*` any bytes without one, `**` anything |
| `Glob.BracketRange` | src/filter/mod.rs:367-401 | a range in brackets matches each byte of it, behind an exclamation mark each byte outside it |
| `Glob.BracketMembers` | src/filter/mod.rs:367-401 | bytes in brackets match any one of them, a closing bracket included if it comes first, also when the class is never closed |
| `Glob.PlainPattern` | src/filter/mod.rs:276-363 | a pattern without wildcards matches itself only |
| `Md4.Md4State.UpdateBlock` | src/checksum/md4.rs:141-149 | a block is compressed and the two-word counter is 8 times the bytes modulo 2^64 |
| `Md4.Md4State.FinalizeTail` | src/checksum/md4.rs:171-209 | the rest of the message and its padding are compressed, in one block or two |
| `Md4.FullPadding` | src/checksum/md4.rs:184-206 | with both words the padding is that of sections 3.1 and 3.2 of RFC 1320 |
| `Md4.Md4Classic` | src/checksum/md4.rs:227-246 | the digest is that of the state after the bare message when it fills its last block, of the empty message too, and else after the message padded with a zero high word |
| `Md4.ClassicIsStandard` | src/checksum/md4.rs:216-226 | the blocks are those of RFC 1320 exactly for unfilled last blocks and bit counts without a high word |
| `Md4.InitialDigest` | src/checksum/md4.rs:45-53 | the sixteen bytes of the state that nothing has gone into |
| `Md4.AbsorbOne` | src/checksum/md4.rs:141-149 | one block is compressed once |
| `DeleteWalk.KeepSet` | src/main.rs:561-580 | the keep-set is all listed paths with all directories above them |
| `DeleteWalk.KeepsIsClosed` | src/main.rs:572-580 | the keep-set is closed under parents |
| `DeleteWalk.Destination.Walk` | src/main.rs:586-632 | in any order of entries, a walk prunes what is not kept below its directory and counts topmost deletions |
| `DeleteWalk.Destination.DeleteExtraneous` | src/main.rs:553-636 | after a real walk a path is there exactly when it was and is kept; a dry walk changes nothing and counts the same |

## Left out

- DEFLATE, MD5, modern MD4 and the arithmetic of MD4 compression: unseen or opaque functions. In the compressed stream
  the bytes of a flush are one opaque, non-empty payload that may depend on all bytes before, so the sync trailer and
  the cutting of inflated output into pieces are not modelled.
- DeflateToken.ReadItems: a run count of zero, which the writer never sends, is a failure here; the program would
  count through all 2^32 values. Token sums that leave 32 bits are not wrapped.
- Strong checksums of block sums and of windows are one function, as at protocol 30 and above; the sender's search
  always uses MD5.
- UTF-8: names and paths are bytes. Slicing a name inside a character, which the program rejects by a panic
  (`src/flist/send.rs:135`), and lossy conversion are not modelled; nor are empty, absolute or `..` path components.
- Sizes: a basis above (2^31 - 1) * 2^17 bytes, whose block count does not fit 32 bits, is excluded from the transfer
  (`Layout.HeadDescribesFile` shows that this bound is exact); names, targets and lists are below 2^31.
- Names of users and groups in the file list are read and dropped, never sent; the item flags for a basis type or an
  extended name are never sent either. Protocols below 30 and their codecs.
- FileExchange.ReceiveFileList: the first index of a list is 0, as in every list the program makes.
- FileListProofs.EntryParse: entries whose device numbers are read are sent; `DeviceGate` has the others.
- FileListProofs.EntriesParse: as for one entry.
- FileListProofs.ListParse: as for one entry.
- DeviceGate.DeviceGate: varint flags, an error number of one byte, and no two hard-link leaders for each device
  behind the first whose numbers are not sent: a leader can be read back from a shorter flag word. With other flag
  words the receiver can take the end marker for device numbers, so that no condition on the gate alone is exact;
  `DeviceGate.LastUngated` has the exact one for a last entry, `DeviceGate.DevicesCost` a necessary one for any.
- FileExchange.ExchangeFileList: two names of one inode are assumed to have been stat'ed with equal metadata.
- FileExchange.ReferencesFollow: at most 2^31 entries; above, the program's 32-bit references wrap.
- Transfer.WriteReply: the uncompressed branch; the compressed one is `CompressedDelta.SendDelta`.
- Transfer.ReadReply: the uncompressed branch, of headers without negative lengths; the compressed one is
  `CompressedDelta.ReceiveCompressed`.
- Transfer.TransferFile: the uncompressed exchange.
- CompressedDelta.ReceiveCompressed: streams that can be read to their end, on which it stops; each payload is
  expanded at once, where the program expands it in pieces.
- DeflateToken.DeflatedTokenReader.ReadToken: the states for a payload being inflated, and the flag saved while it is,
  are folded into the delivery of one payload.
- Session: channels are unbounded; basis files stay fixed; the whole-file checksum is read but, as in the program, not
  compared; a request is for a file that is or is not readable, for the whole session. Messages are atomic there.
- SessionBytes.SessionStreams: request indices are below 2^31; the numbers behind statistics, and item flags but that
  of the transfer, are written and read but not compared.
- File-system calls, metadata, temporary files, renames, local mode, sockets, daemon, options, batch files,
  statistics, itemised output and logging: plumbing, or members that would only be easy.
- Multiplex: reads from the stream below may be short but do not fail; message texts are skipped.
- DeleteWalk.Destination.DeleteExtraneous: removals succeed, and paths are given as lists of names; splitting path
  text is not modelled.
- Glob: how a rule's text is split into flags and pattern, and which parts of a path it is tried on.
