# Decompression engine and chat rooms: a verified model

This project models the decompression engine under `external/unzip` and the chat-room membership
of `wonserver`, and proves what they are for. The loops of the C code are loops here, over an array, a
buffer object or a list that is updated in place, with invariants (the four decoding loops of
explode, and the two searches of `find_ecrec` through the end of the file, are one each). Every such
method is proved against a specification that knows nothing of tables, bit buffers, flag bits or
windows.

## The parts

**Huffman codes** (`Canonical`, `HuftTable`, `HuftCode`, `HuftWidth`, `HuftFrontier`, `HuftMake`,
`Huffman`). `Canonical` defines a prefix code by its length list alone, as section 3.2.2 of RFC 1951
does.
`HuftMake` is `huft_build`: counts, offsets and sorted values, then the nested loops with the table
stack, the bit-reversed code counted backwards, the filler entries and the end-of-block rule. The
proof keeps a frontier: the next code word, read the other way round. Tables on the stack contain
it, tables off the stack lie wholly below it, and every slot below it has been written. `Huffman`
concludes that walking the tables is canonical decoding, and that the return value is the Kraft
classification of the lengths. `HuftWidth` says how many bits a look-up asks for on its way to a
symbol, in terms of the lengths alone.

**Inflate** (`Rfc1951`, `Rfc1951Facts`, `Rfc1951Strict`, `BitReader`, `TableReader`, `Window`,
`Inflate`, `InflateBlocks`, `InflateValid`, `InflateSamples`). `Rfc1951` is the meaning of a deflate
stream, a function from bits to a growing history, and beside it how far a decoder has to look.
`InflateBlocks` has the decoder of stored, fixed and dynamic blocks; the main theorem is
`InflateBlocks.Refines`, established by `InflateBlocks.Inflater.Inflate` and brought to its final
form by `InflateBlocks.InflateCorrect` and `InflateValid.ValidInflated`. It says exactly which
members are accepted, what comes out, and how many bytes are taken; `InflateSamples` has a valid
stream that is refused and one that is accepted without being valid. `BitWriter` and `DeflateWriter`
are the other direction: blocks of all three kinds are written bit by bit from the tables of RFC 1951,
and whatever is written is inflated to what it was written for. `Window` is the circular buffer,
whose chunked, masked, `memcpy`-or-byte copy equals the copy of one byte at a time.

**Explode** (`OnesReader`, `Explode`, `ExplodeWriter`). The four decoding loops of the source differ in two
parameters; one loop is proved against one meaning, whose history is extended to the left by zeros
and whose input is extended to the right by ones. `ExplodeWriter` writes members, trees and all, and
proves that they explode to what was written.

**Unshrink** (`EagerReader`, `Lzw`, `LzwStrings`, `LzwWriter`, `OutBuf`, `Unshrink`). `Lzw` is a decoder with a
dictionary, including growing code sizes, partial clearing, entries that partial clearing has cut
off from their first character, and the end of the member. `Unshrink` keeps parent links with flag
bits in one array, and equals it. `LzwStrings` is LZW with a dictionary of strings, which has the
same output wherever it has one, and says which members without partial clears those are.
`LzwWriter` writes members from a list of strings and reads them back.

**Match** (`Match`, `MatchText`). What a file name pattern stands for, what the recursive matcher
accepts, and exactly when the two differ. `MatchText` says the same without a parser and without case
folding, in plain characters.

**CRC** (`Crc32`) and **flush** (`Flush`). The table-driven, unrolled CRC-32 is the bit-serial
register, with the polynomial, table and check value of CRC-32; it does not depend on how the data is
cut, and detects every burst of errors of at most 32 bits. Text conversion in `flush` carries one flag from buffer to buffer and equals converting the
whole text at once.

**Input** (`ZipInput`, `FindEcrec`). Buffered reading, seeking inside and outside the buffer, the
two calls that bracket one member, and the backward search for the end-of-central-directory record.

**Chat rooms** (`Room`, `RoomProtocol`). The calls, each atomic under the lock, then all
interleavings of any number of connections.

## Where the code differs from what it says

- `huft_build` returns 0, no table and a width of 0 for all-zero lengths
  (external/unzip/inflate.c:1118-1123), although the comment at external/unzip/inflate.c:1082
  promises 2. `Huffman.HuftBuild` follows the code.
- `*m` is not a strict limit on table width (external/unzip/inflate.c:1195), because the loop counts
  up before it compares. `HuftWidth.LimitExceeded` is an example; `HuftFrontier.ChooseWidth` says
  exactly when it is exceeded.
- `inflate` refuses some valid streams at the very end of a member: a look-up asks for a whole table's
  width (external/unzip/inflate.c:570, 602, 850), and NEEDBITS returns 1 if that is not there
  (external/unzip/inflate.c:498-499), although the code that is there is shorter. The refused stream
  is `InflateSamples.ShortRefused`; exactly when, `InflateBlocks.InflateCorrect`: if and only if
  `peek`, a function of the stream, passes the end. For the same reason `inflate` may take a byte or
  two behind the stream.
- The code length reader never looks at the operation byte (external/unzip/inflate.c:852-854), so a
  code with a single one-bit code word is read as its symbol whatever the bit.
  `Rfc1951Facts.LengthSymbolExact` says exactly when this departs from the canonical code;
  `Rfc1951Facts.LoneOne` is an instance.
- A repeat of the last length before there is one repeats a zero (external/unzip/inflate.c:848,
  858-867), and 287 or 288 literal/length codes are allowed (external/unzip/inflate.c:194, 814).
  `InflateSamples.LongAccepted` is a stream that is accepted without being valid;
  `Rfc1951Strict.StreamExactly` says exactly which are.
- An incomplete distance code is accepted (external/unzip/inflate.c:924-926), an incomplete literal
  code of more than one bit is not; no distances at all are refused if there is room for length
  symbols, even if none has a code (external/unzip/inflate.c:917).
- Two stars at the end of a pattern match at least one character (external/unzip/match.c:176-181
  tries what follows a star only while characters are left). `Match.TwoStars` is an example, and
  `Match.AgreeExactly` the exact condition; `Match.NothingFits` is a pattern that ends so and yet
  is read alike, because its set is empty.
- Reading up to EOF and then `undefer_input` leaves the position one byte too far if anything
  behind the member is in the buffer (external/unzip/fileio.c:385-402). `ZipInput.StoredMember` says
  exactly when, in terms of the member's end and the file's length. This does no harm, because
  seeking still works. `ZipInput.OneTooFar` is an instance.
- After a seek past the end of the file within its last block and a read there, the count of bytes
  left no longer agrees with the position in the buffer, and a later ZLSEEK into the same block
  inherits the error: `ZipInput.ReadBuf` and `ZipInput.ZlSeek` say exactly when;
  `ZipInput.WrongCount` is an instance.
- If the last block of a zipfile is at most 18 bytes long, `hold` has old contents when the search
  begins (external/unzip/process.c:765-793), and a signature may be found that is not there:
  `FindEcrec.StaleExample`, and exactly when, `FindEcrec.StaleExactly`.
- After a partial clear, `unshrink` may enter a code as the child of one that has just been freed, or
  of itself (external/unzip/unshrink.c:238-246). `Lzw.NewLeaf` says what such a code stands for, and
  `Lzw.NoString` that a code is without a string exactly if its chain of parents breaks off or goes
  round.
- READBITS reports the end of the file only if there was no byte left to be taken
  (external/unzip/unzpriv.h:1941-1943), so that a last code may be made up with zeros:
  `EagerReader.EndsWhen`. A member of one byte is output as that byte: `LzwStrings.OneByte`.
- A connection that joins a room twice stays in it when it is gone
  (wonserver/wonserver_room.cpp:116-140, 214-222): `RoomProtocol.JoinedTwice`, and exactly when,
  `RoomProtocol.StaysExactly`.

## Model

| member | source | states |
|---|---|---|
| Bits.LowIsMod | external/unzip/inflate.c:565-571 | masking with mask_bits is the remainder by a power of two |
| Bits.ShrIsDiv | external/unzip/inflate.c:502 | shifting the bit buffer is the quotient by a power of two |
| BitStream.MsbIsRev | external/unzip/inflate.c:1252-1255 | a code word read first bit highest is the buffer's low bits in reverse |
| Canonical.PrefixFree | external/unzip/inflate.c:1168-1261 | no two symbols of a length list have code words of which one begins with the other, over any bits |
| Canonical.SymbolIs | external/unzip/inflate.c:571-580 | the symbol at a position is the one whose code word is there, and takes exactly that code word's bits |
| Canonical.Consecutive | external/unzip/inflate.c:1158-1165 | codes of one length follow each other in the order of the symbols |
| Canonical.ShorterFirst | external/unzip/inflate.c:1168-1261 | shorter codes come before longer ones |
| Canonical.Example322 | external/unzip/inflate.c:1168-1261 | the code words of the example of section 3.2.2 of RFC 1951 |
| HuftCode.CountLengths | external/unzip/inflate.c:1113-1117 | the array counts every length from 0 to 16 |
| HuftCode.MinMax | external/unzip/inflate.c:1126-1138 | the shortest and the longest length that occur |
| HuftCode.FillOut | external/unzip/inflate.c:1141-1147 | refuses exactly the oversubscribed counts, otherwise gives what is missing at the longest length for the code to be complete |
| HuftCode.StartOffsets | external/unzip/inflate.c:1150-1155 | the offset of each length is the number of shorter codes |
| HuftCode.SortValues | external/unzip/inflate.c:1158-1165 | the values by length and then by number, so that the r-th code of a length is the symbol of that rank |
| HuftFrontier.ChooseWidth | external/unzip/inflate.c:1189-1205 | a width of at least one that stays within the longest code, ends at the end-of-block code if that is ahead, is the longest length where one table can do, exceeds the limit iff the shortest possible table does or has room to spare (and the end-of-block code does not cut it short), and is the function `TableWidth` of the counts |
| HuftWidth.LimitExceeded | external/unzip/inflate.c:1189-1205 | with one code of one bit, two of two bits and a limit of one bit, the first table has two |
| HuftWidth.WidthOpens | external/unzip/inflate.c:1184-1205 | the width of a table is determined by the prefix it is for, because the code it is made for is the first one that begins with that prefix |
| HuftFrontier.LinkShaped | external/unzip/inflate.c:1207-1229 | a link leads from a shallower table to the new one and stands for exactly the bits that lead there |
| HuftFrontier.LinkWritten | external/unzip/inflate.c:1208-1229 | opening and linking a table leaves no slot below the frontier unwritten |
| HuftFrontier.LinkStacked | external/unzip/inflate.c:1186-1229 | the new table is on the stack with the bit-reversed code as its prefix, and the other tables are where they were |
| HuftFrontier.Levels | external/unzip/inflate.c:1184-1229 | there are never more tables on the stack than the longest code has bits, so at most 16 |
| HuftFrontier.FillSlots | external/unzip/inflate.c:1247-1250 | every slot whose low bits are the code gets the entry, and no other slot changes |
| HuftFrontier.FillWritten | external/unzip/inflate.c:1247-1250 | once a code's slots are filled, everything below the next code word is written |
| HuftFrontier.BackIncrement | external/unzip/inflate.c:1252-1255 | the bit-reversed code becomes the bit-reversed successor |
| HuftFrontier.BackUp | external/unzip/inflate.c:1257-1259 | the stack is cut to exactly the tables that contain the next code word, and the tables taken off are finished |
| HuftMake.OpenTable | external/unzip/inflate.c:1186-1229 | keeps the invariant and makes the reach of the stack grow, with never more tables on the stack than the longest code has bits, at most 16 |
| HuftMake.EnterCode | external/unzip/inflate.c:1247-1259 | keeps the invariant while the frontier moves on by exactly the words of one code |
| HuftMake.AllWritten | external/unzip/inflate.c:1178-1261 | when the last code is in, every slot of every table has been written |
| HuftMake.BuildTables | external/unzip/inflate.c:1168-1265 | the loops end with tables that are complete, and with one table if the width allows it |
| HuftMake.WalkAsked | external/unzip/inflate.c:570-580 | a walk asks for exactly the bits that the widths of the tables on the way to its code word add up to |
| HuftTable.WalkRoot | external/unzip/inflate.c:571-580 | a walk from the root over any bits ends at the entry of the code word that the bits begin with, having dropped exactly its bits |
| Huffman.KraftRun | external/unzip/inflate.c:1141-1147 | the Kraft sum of a run of equal lengths |
| Huffman.KraftIs | external/unzip/inflate.c:1141-1147 | what is left of the patterns after the longest length is the distance of the Kraft sum from one |
| Huffman.HuftBuild | external/unzip/inflate.c:1070-1270 | for all lengths up to 16: 2, 1 or 0 as the Kraft sum exceeds one, is below one with a longest code over one bit, or neither; all-zero lengths give 0 and no table; otherwise every walk yields symbol s and drops its length iff the bits begin with the code word of s, ends at 99 iff they begin with none, and never asks for a bit beyond the end-of-block code; the bits asked for are those that `HuftWidth.Asked` says; one table for up to 256 codes if the width covers the longest |
| Rfc1951Facts.CodesFrame | external/unzip/inflate.c:613-641 | a stream whose distances stay within its output means the same whatever comes before |
| Rfc1951Facts.StreamFrame | external/unzip/inflate.c:1000-1040 | the same for a whole stream of blocks |
| Rfc1951Facts.StreamNear | external/unzip/inflate.c:571-614 | no decoding looks further than fourteen bits past the end of the stream |
| Rfc1951Facts.LengthSymbolExact | external/unzip/inflate.c:845-855 | code length symbols are read canonically iff not (a single one-bit code word and a one in the stream) |
| Rfc1951Facts.LoneOne | external/unzip/inflate.c:845-855 | an instance: a single one-bit code word and a one |
| Rfc1951Strict.StreamAgrees | external/unzip/inflate.c:832-931 | on a stream that is valid to the letter, the lenient meaning is the strict one |
| Rfc1951Strict.LengthsExactly | external/unzip/inflate.c:845-890 | the length lists are read alike unless the code is a single one-bit word or the first symbol repeats |
| Rfc1951Strict.DynamicExactly | external/unzip/inflate.c:772-949 | a dynamic block that is decoded is valid iff it has at most 286 literal/length codes, a complete code length code, no repeat before the first length, and codes that are complete or a single one-bit word (distances may be absent) |
| Rfc1951Strict.StreamExactly | external/unzip/inflate.c:1000-1040 | a stream that is decoded is valid iff all its dynamic blocks are so, and then its meaning is the same |
| BitReader.BitReader.NeedBits | external/unzip/inflate.c:498-499 | succeeds iff that many bits are left in the member; the buffer then holds exactly the bits that come next, and never more than the 32 it has room for |
| BitReader.BitReader.DumpBits | external/unzip/inflate.c:502 | moves the position on by that many bits and keeps the rest |
| BitReader.BitReader.ReadBits | external/unzip/inflate.c:803-812 | a plain field of the stream, first bit lowest |
| TableReader.LookUp | external/unzip/inflate.c:570-581 | the look-up loop finds the entry of the walk iff that is no invalid code and all the bits that the walk asks for are in the member; it drops the bits and takes the bytes that the walk says |
| TableReader.ReadSymbol | external/unzip/inflate.c:570-581 | with tables for a code: the canonical symbol and the position after its code word, iff there is a usable one there and the bits asked for do not pass the end of the member; for end of block these are its own |
| Window.CopyMatchBlock | external/unzip/inflate.c:625-630 | a copy no longer than its distance is a block copy |
| Window.CopyMatchAdd | external/unzip/inflate.c:617-641 | a copy in two parts is one copy |
| Window.CopyMatchFrame | external/unzip/inflate.c:617-641 | bytes that a copy never reaches back to do not matter |
| Window.CopyMatchAt | external/unzip/inflate.c:617-641 | every byte of a match is the one its distance before it |
| Window.BehindRange | external/unzip/inflate.c:624-630 | the bytes a distance back are at the masked index, or are the zeros of explode exactly if nothing was flushed and the source lies before the start |
| Window.Move | external/unzip/inflate.c:627 | memcpy as a snapshot copy |
| Window.Window.Put | external/unzip/inflate.c:581-589 | appends one byte to the history, flushing a full window |
| Window.Window.Flush | external/unzip/inflate.c:1033 | what has been flushed is then the whole output |
| Window.Window.CopyZeros | external/unzip/explode.c:298-303 | zero fill is the copy of what is before the start |
| Window.Window.CopyBlock | external/unzip/inflate.c:625-630 | the memcpy branch, overlapping or not, is the copy of one byte at a time |
| Window.Window.CopySlowly | external/unzip/inflate.c:632-635 | the byte loop, with the source running into what it writes |
| Window.Window.Copy | external/unzip/inflate.c:616-641 | for every length, every distance up to the window size and every position: flushed bytes and window together are the history after the naive copy |
| Inflate.LengthTables | external/unzip/inflate.c:437-443 | cplens and cplext are the lengths and extra bits of section 3.2.5 of RFC 1951 |
| Inflate.DistTables | external/unzip/inflate.c:444-451 | cpdist and cpdext are its distances and extra bits |
| Inflate.ReadMatch | external/unzip/inflate.c:596-614 | length and distance of the stream, iff it has them there and the look-up of the distance stays within the member |
| Inflate.ReadDistance | external/unzip/inflate.c:601-612 | the same for the distance alone |
| Inflate.InflateCodes | external/unzip/inflate.c:544-654 | 0 iff the block's codes mean something and no look-up passes the end of the member; then history and position are exactly theirs, and the bytes taken are those up to the position or as far as was looked |
| InflateBlocks.InflateStored | external/unzip/inflate.c:660-711 | the bytes of a stored block from the next byte boundary; 0 iff length and complement agree and the bytes are there |
| InflateBlocks.BorderInverse | external/unzip/inflate.c:435-436 | each code length symbol comes exactly once in the sending order |
| InflateBlocks.ReadCodeLengths | external/unzip/inflate.c:821-830 | the nineteen code lengths as sent, zeros for those that are not |
| InflateBlocks.ReadLengthSymbol | external/unzip/inflate.c:850-854 | one symbol of the code length code, iff as many bits as its longest code are left |
| InflateBlocks.ReadTreeLengths | external/unzip/inflate.c:845-890 | exactly nl + nd lengths, repeats across the boundary included, iff the run-length coded list has them and no look-up passes the end of the member |
| InflateBlocks.BuildLengthTable | external/unzip/inflate.c:832-843 | a single table, for exactly the codes that may be used |
| InflateBlocks.BuildTrees | external/unzip/inflate.c:901-937 | tables for both codes, for exactly those that may be used |
| InflateBlocks.InflateDynamic | external/unzip/inflate.c:772-949 | a block of section 3.2.7 of RFC 1951; 0 iff it means something and no look-up passes the end of the member |
| InflateBlocks.ReadTrees | external/unzip/inflate.c:821-937 | tables for both codes iff all lengths can be read and both codes may be used |
| InflateBlocks.FixedKraft | external/unzip/inflate.c:740-748 | the fixed literal code is complete, the distance code is not |
| InflateBlocks.BuildFixedTables | external/unzip/inflate.c:734-762 | tables for the codes of section 3.2.6 of RFC 1951 |
| InflateBlocks.Inflater.InflateFixed | external/unzip/inflate.c:722-768 | a block with those codes, 0 iff it means something and no look-up passes the end of the member; the tables are built once and stay right |
| InflateBlocks.Inflater.InflateBlock | external/unzip/inflate.c:953-996 | one block of any kind, 0 iff it means something and no look-up passes the end of the member, and whether it is the last |
| InflateBlocks.Inflater.Inflate | external/unzip/inflate.c:1000-1040 | 0 iff the stream means something and no look-up passes the end of the member; then the flushed output is that meaning, and the bytes taken are exactly those the stream is in, or those that were looked at if that is further; every loop ends |
| InflateBlocks.InflateCorrect | external/unzip/inflate.c:1000-1040 | for a stream whose distances stay within its output: 0 iff `peek` is within the member, for which fourteen bits after the stream suffice; then exactly that output, whatever the window held before, and exactly so many bytes taken |
| InflateValid.ValidInflated | external/unzip/inflate.c:1000-1040 | the same for every stream that is valid to the letter |
| InflateSamples.ShortRefused | external/unzip/inflate.c:845-855 | a valid stream of twelve bytes that is refused iff nothing follows it; if anything does, thirteen bytes are taken |
| InflateSamples.LongAccepted | external/unzip/inflate.c:803-819 | a stream with 287 literal/length codes, not valid, that is accepted |
| InflateSamples.FirstWidths | external/unzip/inflate.c:538-539 | a one-bit code among codes of all lengths asks for nine bits in the literal table and six in the distance table |
| BitWriter.PackHolds | external/unzip/inflate.c:498-502 | bits packed into bytes, lowest first, are the bits of those bytes |
| DeflateWriter.WordRead | external/unzip/inflate.c:570-580 | a code word that stands in the stream, highest bit first, is read as its symbol |
| DeflateWriter.FixedWords | external/unzip/inflate.c:734-748 | the canonical words of the fixed lengths are those of the table of section 3.2.6 |
| DeflateWriter.CopyRead | external/unzip/inflate.c:596-614 | length and distance codes with their extra bits, from the tables of section 3.2.5, are read as that length and distance |
| DeflateWriter.TokensRead | external/unzip/inflate.c:544-654 | any literals and copies, written in the codes of a block, are read back |
| DeflateWriter.OpsRead | external/unzip/inflate.c:845-890 | any list of lengths coded with 0 to 15, 16, 17 and 18 as in section 3.2.7 is read back as that list |
| DeflateWriter.CodeLengthsRead | external/unzip/inflate.c:821-830 | code length code lengths sent in the order 16, 17, 18, 0, 8, ... arrive at their symbols |
| DeflateWriter.DynamicRead | external/unzip/inflate.c:772-949 | a dynamic block written so is read back |
| DeflateWriter.PlainRead | external/unzip/inflate.c:660-711 | so is a stored one |
| DeflateWriter.StreamRead | external/unzip/inflate.c:1000-1040 | a stream of any blocks of the three kinds means what was written |
| DeflateWriter.WrittenInflates | external/unzip/inflate.c:1000-1040 | a member that begins with a stream written so is only ever inflated to what was written, and certainly if fourteen bits follow |
| DeflateWriter.PackedInflates | external/unzip/inflate.c:1000-1040 | the stream packed into bytes, and two more, is a member that is inflated to it |
| DeflateWriter.StoredInflates | external/unzip/inflate.c:660-711 | 01, the length and its complement, lowest byte first, and that many bytes: inflated to those bytes, taking no more |
| DeflateWriter.LiteralsInflate | external/unzip/inflate.c:722-768 | bits 1, 1, 0, the words of the bytes from the table of section 3.2.6, and seven zeros: inflated to those bytes |
| OnesReader.NotLowPeek | external/unzip/explode.c:238 | the complement of the buffer is the stream with every bit flipped |
| OnesReader.OnesReader.NeedBits | external/unzip/explode.c:169 | bits from the member, then ones for ever, however EOF is mixed into the buffer |
| OnesReader.OnesReader.ReadBits | external/unzip/explode.c:257-259 | a plain field of the stream so extended |
| Explode.Overshoot | external/unzip/explode.c:229-324 | the output is as long as asked but for less than one match |
| Explode.LookCode | external/unzip/explode.c:237-247 | with a complete code some symbol is always there and its entry is found |
| Explode.ReadLiteral | external/unzip/explode.c:237-248 | a coded literal, or eight plain bits |
| Explode.ReadMatch | external/unzip/explode.c:256-286 | low distance bits, coded distance, coded length and its extra bits, in this order |
| Explode.Compensate | external/unzip/explode.c:328-331 | the bytes counted as used are those that hold the bits read |
| Explode.ExplodeLoop | external/unzip/explode.c:205-333 | the loop gives the meaning of the stream after a window of zeros; 5 iff not all bytes were used |
| Explode.GetTree | external/unzip/explode.c:174-201 | exactly n lengths from the pairs, or 4 |
| Explode.TreeComplete | external/unzip/explode.c:762-767 | a tree that huft_build accepts is a complete code |
| Explode.BuildCode | external/unzip/explode.c:762-767 | tables for complete codes only |
| Explode.Explode | external/unzip/explode.c:719-852 | 0 or 5 iff the trees are complete codes and the stream means something, and then the flushed output is its meaning; bits 2 and 1 of the flags say whether literals are coded and distances go up to 8K |
| ExplodeWriter.Cplen2 | external/unzip/explode.c:125-129 | the lengths for plain literals are 2 to 65, written out |
| ExplodeWriter.Cplen3 | external/unzip/explode.c:130-134 | those for coded literals are 3 to 66 |
| ExplodeWriter.ExtraBits | external/unzip/explode.c:135-139 | eight extra bits for the last length code and none for the others |
| ExplodeWriter.Cpdist4 | external/unzip/explode.c:140-147 | the first 32 distances for six low bits, written out |
| ExplodeWriter.Cpdist4End | external/unzip/explode.c:140-147 | the other 32 |
| ExplodeWriter.Cpdist8 | external/unzip/explode.c:148-155 | the first 32 for seven low bits |
| ExplodeWriter.Cpdist8End | external/unzip/explode.c:148-155 | the other 32 |
| ExplodeWriter.TreeRead | external/unzip/explode.c:174-201 | length/count pairs are read back as the lengths they stand for |
| ExplodeWriter.PiecesRead | external/unzip/explode.c:205-333 | literals and matches that are written with flipped code words mean what they say |
| ExplodeWriter.WrittenExplodes | external/unzip/explode.c:719-852 | a member of trees and pieces explodes to what was written, by its flags, and returns 0 iff nothing follows |
| ExplodeWriter.PlainSample | external/unzip/explode.c:807-845 | a member with plain literals whose shortest match has two bytes: "aaa" |
| ExplodeWriter.CodedSample | external/unzip/explode.c:756-805 | one with coded literals, where it has three: "aaaa" |
| EagerReader.EagerReader.Refill | external/unzip/unzpriv.h:1941-1943 | fills as far as it goes; the end is reported iff not one byte could be added |
| EagerReader.EagerReader.ReadBits | external/unzip/unzpriv.h:1941-1945 | a field of the stream, with zeros after its end; the end is reported iff the field does not fit and there is no byte left to be taken |
| EagerReader.EndsWhen | external/unzip/unzpriv.h:1941-1945 | the end is not reported while the bits suffice, and is if fewer than eight are left |
| Unshrink.MarkNext | external/unzip/unshrink.c:281-287 | after each turn exactly the parents of the codes seen are marked |
| Unshrink.PartialClearCodes | external/unzip/unshrink.c:274-300 | a code is in use afterwards iff it was and was the parent of a code in use, with its link as before, and no flag is left, even where a link leads to a free code |
| Unshrink.ChildIsParent | external/unzip/unshrink.c:281-287 | marking by links is having an entry that extends one |
| Unshrink.RepClear | external/unzip/unshrink.c:274-300 | clearing the links is clearing the dictionary |
| Unshrink.RepAdd | external/unzip/unshrink.c:237-247 | a new link is a new entry, even if it leads to a code that is not in use |
| Lzw.StringFits | external/unzip/unshrink.c:199-206 | no string is as long as the stack, with a character to spare, whatever codes partial clearing has freed and used again |
| Lzw.NoString | external/unzip/unshrink.c:199-204 | a code has no string iff the way up from it breaks off at a code not in use or goes round in a circle |
| Lzw.NewLeaf | external/unzip/unshrink.c:237-247 | a new entry stands for the string it extends and one more character and leaves all strings as they are; as its own child it stands for nothing |
| Lzw.ClearKeeps | external/unzip/unshrink.c:274-300 | what partial clearing keeps stands for the same strings as before |
| LzwStrings.LinksSpell | external/unzip/unshrink.c:154-249 | from any point: wherever decoding with a dictionary of strings has a meaning, with partial clears and all, decoding with links has the same |
| LzwStrings.StringsDecode | external/unzip/unshrink.c:91-249 | the same for the whole member, the dictionary starting with the single characters |
| LzwStrings.OrderlyDecodes | external/unzip/unshrink.c:132-249 | a member without partial clears has a meaning with strings iff its first code is a character, every other is at most one past the last assigned, and neither the table nor 16 bits run out |
| LzwStrings.OrderlyUnshrunk | external/unzip/unshrink.c:132-249 | all those members decode, to what the dictionary of strings says |
| LzwStrings.OneByte | external/unzip/unzpriv.h:1941-1945 | an instance: a member of one byte is output as that byte |
| LzwStrings.FourBytes | external/unzip/unzpriv.h:1941-1943 | the buffer takes up four bytes at first, and after 27 bits are used three more |
| LzwWriter.MemberRead | external/unzip/unshrink.c:91-249 | codes from a list of strings that starts at 257 and ends at 8191, with 256 and 1 for a wider code, decode to those strings |
| LzwWriter.PlainMember | external/unzip/unshrink.c:91-249 | nine bits for each of up to 7936 bytes is a member that decodes to them |
| LzwWriter.ClearedMember | external/unzip/unshrink.c:168-180 | an instance with 256 and 2: a code that has been extended stays, the others are given out anew |
| Unshrink.Codes.Traverse | external/unzip/unshrink.c:199-204 | the way from a code to its root spells its string backwards, and ends |
| Unshrink.Codes.Translate | external/unzip/unshrink.c:186-206 | the string of a code in use, or the last string and its first character for a code that is not |
| Unshrink.FindFree | external/unzip/unshrink.c:237-241 | the first code after the last search that stands for nothing |
| Unshrink.Escape | external/unzip/unshrink.c:168-180 | a larger code size, a partial clear or nothing |
| Unshrink.OneCode | external/unzip/unshrink.c:182-247 | writes the code's string and adds the last string with its first character |
| Unshrink.Unshrink | external/unzip/unshrink.c:91-264 | for every member that decodes, with partial clears that free the code just read, first codes that are no character, and an end anywhere: the output of the dictionary decoder, and where decoding with a dictionary of strings has a meaning, that meaning (members that run the arrays out of bounds or output a code without a string are excluded) |
| OutBuf.Sink.Put | external/unzip/unshrink.c:218-230 | what was flushed and what is in the buffer is what was written, in order |
| Match.SetContains | external/unzip/match.c:203-218 | a list of characters and ranges, special characters quoted, contains exactly those |
| Match.ScanSet | external/unzip/match.c:203-218 | the scan of a bracket decides membership |
| Match.FindClose | external/unzip/match.c:193-202 | the first closing bracket that is not escaped |
| Match.HopelessStar | external/unzip/match.c:175-182 | giving up after a star loses no match further on |
| Match.RecMatch | external/unzip/match.c:148-232 | 1 iff the string is accepted; 2 only if no later suffix is accepted either |
| Match.AcceptsMeant | external/unzip/match.c:170-182 | what is accepted is what the pattern stands for, two or more stars at its end read as at least one character |
| Match.TwoStars | external/unzip/match.c:170-182 | `**` stands for the empty string but does not match it |
| Match.AgreeExactly | external/unzip/match.c:170-182 | the matcher and the pattern agree on all C strings iff not (two stars at the end, and everything but the stars fits some character other than zero) |
| Match.NothingFits | external/unzip/match.c:170-218 | `[!\001-\377]**` is refused and stands for nothing, so there matcher and pattern agree |
| Match.PossibleExactly | external/unzip/match.c:148-232 | a pattern stands for some C string iff everything in it but the stars fits some character other than zero: no open bracket, no final backslash, no empty set |
| Match.Match | external/unzip/match.c:107-144 | true iff the string is one the pattern stands for, with that reading of stars at its end |
| MatchText.SameIs | external/unzip/match.c:83 | folding letter case is taking "A" to "Z" and "a" to "z" for the same letters, and only if asked to |
| MatchText.TextParsed | external/unzip/match.c:160-232 | a pattern written with `?`, `*`, `[`, `!`, `-`, `]` and backslashes is read as it was written |
| MatchText.TextMatches | external/unzip/match.c:107-144 | a pattern that does not end in two stars matches exactly the strings that can be cut into pieces, anything for a star and one fitting character for every other part |
| MatchText.StarsMatch | external/unzip/match.c:170-182 | two or more stars at the end are read as `?*` |
| MatchText.PlainMatches | external/unzip/match.c:220-231 | a pattern without wildcards matches itself, and, if letter case is ignored, what differs from it in that alone |
| Crc32.CrcAppend | external/unzip/crc32.c:27-52 | the CRC of two pieces one after the other is that of both together |
| Crc32.FeedIsSteps | external/unzip/crctab.c:114-119 | bits that come into the register one by one may as well all be there at the start |
| Crc32.TableStep | external/unzip/crc32.c:20 | one look into the table is eight clocks of the bit-serial register |
| Crc32.CrcTable.MakeCrcTable | external/unzip/crctab.c:78-121 | the table of eight clocks of every byte |
| Crc32.CrcTable.Do8 | external/unzip/crc32.c:21-24 | eight bytes through the register, in order |
| Crc32.CrcTable.Crc32 | external/unzip/crc32.c:27-52 | the bit-serial CRC of the buffer, going on from the one given; 0 for a null buffer |
| Crc32.BurstDetected | external/unzip/crc32.c:27-52 | messages that differ only within 32 consecutive bits have different CRCs |
| Crc32.Terms | external/unzip/crctab.c:97-104 | the polynomial has the terms 0, 1, 2, 4, 5, 7, 8, 10, 11, 12, 16, 22, 23 and 26 |
| Crc32.StaticTable | external/unzip/crctab.c:132-160 | the table has the static table's entries at 0 and at the powers of two |
| Crc32.EntryXor | external/unzip/crctab.c:114-119 | all other entries follow from those |
| Crc32.CheckValue | external/unzip/crc32.c:27-52 | the CRC of "123456789" is cbf43926 |
| Flush.NativeCut | external/unzip/fileio.c:807-825 | where a text is cut does not matter if a CR before the cut is remembered |
| Flush.NativeTwice | external/unzip/fileio.c:807-825 | converting twice is converting once |
| Flush.NativeSize | external/unzip/fileio.c:602-605 | at most the length of an end of line for each byte, which is what the buffers have room for |
| Flush.NativeLines | external/unzip/fileio.c:807-825 | lines with any ends of line: every line as it is, but for `^Z`, and every end the local one |
| Flush.PlainText | external/unzip/fileio.c:807-825 | a text without ends of lines and `^Z` is left alone |
| Flush.Convert | external/unzip/fileio.c:807-825 | one buffer, by its own characters only |
| Flush.Output.FlushText | external/unzip/fileio.c:642-654 | appends what the buffer adds to the converted text, and remembers a CR |
| Flush.Output.Flush | external/unzip/fileio.c:575-871 | over any sequence of buffers: the checksum of all bytes, and all bytes converted, or as they are, or nothing when only testing |
| ZipInput.ZipInput.Refill | external/unzip/fileio.c:445-458 | the next block without a change of position |
| ZipInput.ZipInput.ReadBuf | external/unzip/fileio.c:435-468 | what a plain read would give; the count agrees with the position afterwards iff one had not sought past the end |
| ZipInput.ZipInput.ZlSeek | external/unzip/unzpriv.h:1893-1908 | the next byte is the one asked for, 51 iff that is in another block which begins past the end, 3 iff before the file; the count is right iff it was, or another block was read |
| ZipInput.ZipInput.DeferLeftoverInput | external/unzip/fileio.c:412-425 | inside the member, with what lies behind it set aside |
| ZipInput.ZipInput.NextByte | external/unzip/unzpriv.h:1937 | the bytes of the member in order, then EOF, which is counted |
| ZipInput.ZipInput.ReadByte | external/unzip/fileio.c:478-527 | the same when the buffer is used up |
| ZipInput.ZipInput.UndeferInput | external/unzip/fileio.c:385-402 | the exact position unless EOF was read, and then that many bytes further iff anything was set aside; one can seek in any case |
| ZipInput.SeekRead | external/unzip/process.c:649-658 | seeking and reading through the buffer is seeking and reading |
| ZipInput.Drain | external/unzip/extract.c:1282-1289 | NEXTBYTE until EOF, over any number of refills, gives the member's bytes |
| ZipInput.StoredMember | external/unzip/extract.c:1259-1296 | exactly the member's bytes come out, one can seek afterwards, and the position is the member's end or the file's if that comes first; it is one byte further iff the member is not empty, ends inside a block and inside the file, or is empty with bytes in the buffer |
| ZipInput.OneTooFar | external/unzip/fileio.c:385-402 | an instance: one byte of two |
| ZipInput.WrongCount | external/unzip/unzpriv.h:1893-1908 | an instance: a seek to five in a file of one byte, a read, and a seek back |
| FindEcrec.BlockSig | external/unzip/process.c:809-817 | a signature is seen in a block iff it is in the file there, with the bytes after the block in `hold` |
| FindEcrec.CopyHold | external/unzip/process.c:818-819 | copying three bytes up to a zero: exactly what is then in `hold`, and that it keeps all that a signature needs |
| FindEcrec.SearchBlock | external/unzip/process.c:803-820 | the last signature of one more block, if there is one |
| FindEcrec.Search | external/unzip/process.c:747-821 | the last signature of the whole stretch, found iff there is one, and no seek to before the file |
| FindEcrec.FindEcrec | external/unzip/process.c:734-876 | the record at that signature is what has been read; a signature within the search length and 22 bytes from the end is found, or a later one, and none that is less than 22 bytes from the end unless it begins before the last, partial block |
| FindEcrec.NeverMissed | external/unzip/process.c:765-820 | a signature within reach and 22 bytes from the end is found, or a later one |
| FindEcrec.FoundIsReal | external/unzip/process.c:765-793 | what is found is in the file, unless the tail was not read and it begins less than four bytes before the tail |
| FindEcrec.StaleExactly | external/unzip/process.c:765-819 | something is found that is not in the file iff the tail is too short to be read, the last one, two or three bytes of the last block begin a signature that the old bytes in `hold` complete, and the file has none there |
| FindEcrec.StaleExample | external/unzip/process.c:765-793 | such a file, with what an earlier search has left in `hold` on a block that begins with the other three bytes |
| FindEcrec.EmptyZipfile | external/unzip/process.c:749-763 | the empty zipfile, 22 bytes, is found at 0 and read whole |
| Room.Pigeonhole | wonserver/wonserver_room.cpp:95-114 | n names can only all be taken by n members |
| Room.UniqueNick | wonserver/wonserver_room.cpp:95-114 | the first of the names that nobody has |
| Room.Names | wonserver/wonserver_room.cpp:95-114 | "Player" for no name, then the name itself, then with " (2)" and so on behind it |
| Room.NamedSoon | wonserver/wonserver_room.cpp:95-114 | there are never more tries than members, and one |
| Room.Server.FindRoom | wonserver/wonserver_room.cpp:49-59 | the room of the port, made if need be, and nothing else changed |
| Room.Server.Join | wonserver/wonserver_room.cpp:116-140 | a new member with a new id and a free name, or 0 and no change iff there are 32 |
| Room.Server.PushRoster | wonserver/wonserver_room.cpp:142-186 | the others to the joiner and the joiner to the others |
| Room.Server.BroadcastChat | wonserver/wonserver_room.cpp:188-202 | the text once to every member |
| Room.Server.Leave | wonserver/wonserver_room.cpp:204-236 | the member on the socket is gone and the others are told |
| RoomProtocol.JoinKeeps | wonserver/wonserver_room.cpp:116-140 | joining keeps the invariant of all rooms, connections, views and lines |
| RoomProtocol.PushKeeps | wonserver/wonserverd_main.cpp:316-317 | so does pushing the roster, at any time after the join; every name that is shown is the member's |
| RoomProtocol.ChatKeeps | wonserver/wonserverd_main.cpp:323-324 | so does chat, from members and others |
| RoomProtocol.LeaveKeeps | wonserver/wonserverd_main.cpp:334 | so does leaving |
| RoomProtocol.RunSafe | wonserver/wonserverd_main.cpp:240-334 | the invariant holds at every moment of every interleaving, with socket numbers used again |
| RoomProtocol.RoomsInOrder | wonserver/wonserver_room.cpp:95-140 | at every moment at most 32 members, with different names, sockets and ids |
| RoomProtocol.Settled | wonserver/wonserver_room.cpp:142-236 | when no roster is still to be pushed, every member shows exactly the others, by id and name |
| RoomProtocol.SameLines | wonserver/wonserver_room.cpp:188-202 | members read the same lines in the same order from when both were in |
| RoomProtocol.JoinedTwice | wonserver/wonserver_room.cpp:116-140 | after two joins and one leave a connection is still a member |
| RoomProtocol.StaysExactly | wonserver/wonserver_room.cpp:204-236 | one who has left is still a member iff it was on the list twice |

## Left out

- InflateBlocks.Inflater.Inflate: of the return value only whether it is 0 is stated, not which error it is.
- Huffman.HuftBuild: tables are entries of one list of tables, named by index, instead of blocks of memory; the union in a table entry is two fields; running out of memory, `huft_free` and the table statistics are not modelled; the value left over in a filler entry is described only for a code with a single one-bit code word.
- Inflate.InflateCodes: a distance code of 30 or 31 is invalid, where the source reads beyond its lists of 30 (external/unzip/inflate.c:444-451).
- InflateBlocks.InflateDynamic: the test for too many lengths can never succeed with the workaround that is compiled in (external/unzip/inflate.c:194, 814) and has no branch here.
- Explode.ExplodeLoop: the four loops of the source are one loop with two parameters, and the tables of external/unzip/explode.c:125-155 are formulas, which `ExplodeWriter.Cplen2` and those after it compare with the lists.
- Unshrink.Unshrink: excludes members with a code of 8192 or more, with more codes than the table has room for, with codes of more than 16 bits, and those that output a code from which the chain of parents breaks off or goes round: the source indexes its arrays out of bounds, prints what happens to be in them, or does not end.
- EagerReader.EagerReader.ReadBits: the bit buffer has 32 bits.
- Match.Match: the locale of `ToLower` is ASCII; the DOS, Amiga, QDOS and VMS variants are not modelled; `iswild` is not modelled.
- Flush.Output.Flush: VMS text records, EBCDIC, write errors, a full disk and the message callback are not modelled; the small-memory variant that flushes in the middle of a buffer is not either.
- ZipInput.ZipInput.ReadBuf: read errors, in-memory archives and decryption are not modelled.
- FindEcrec.FindEcrec: the fields of the record are not taken apart, and the messages are left out; the search length is at most the file's length, as at both calls.
- Room.Server.Join: ids do not wrap around; the service is initialised; a password check comes before the call and is not modelled.
- RoomProtocol.RunSafe: sends succeed, and a connection that has joined does not join again; `RoomProtocol.JoinedTwice` shows that the source does not enforce the latter.
- Window.Window.Copy: the window size is a parameter, a power of two of at least 32768; the branches that write to a redirected buffer are not modelled.
- The copies of the bit buffer and of the window position that each inflate function makes of the globals and gives back are the fields of one reader and one window.
- The zlib half of inflate.c, unreduce.c, decryption, listing, option parsing, file dates, extra fields, symbolic links and prompts.
- The login and peer handshakes, the directory and master server replies, sockets, framing and threads of wonserver.
