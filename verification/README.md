# Verification of the kvdb write path

The repository is the write path of a LevelDB-style key-value store: records go to a
write-ahead log through a buffered file, guarded by a masked CRC-32C, and into an in-memory
table, a skip list of encoded entries allocated from an arena. This project models that
path and proves what it is for. `dafny verify dfyconfig.toml` checks all of it.

## What is modelled

| files | source | in short |
|---|---|---|
| `Crc32cSpec`, `Crc32cTables`, `Crc32c`, `Crc32cVector` | `Util/Crc32c.*` | the interleaved table code is the bit-serial CRC-32C; every table constant is right; bursts up to 32 bits are detected |
| `Links`, `Order`, `SkipList` | `DB/SkipList.h` | the heap structure with one pointer per level refines a sorted list of keys, consistent after every single pointer store |
| `Concurrent` | `DB/SkipList.h` | one writer and any number of readers, one atomic access a step: searches are linearizable and bounded, scans skip nothing, an insertion takes effect in one step and links the levels drawn |
| `Random`, `RandomCycle` | `Util/Random.h` | the generator's reduction is exact, and its states form one cycle through all of 1 .. 2^31 - 2 |
| `LogFormat`, `LogWriter` | `DB/log_writer.cc`, `DB/Log_format.h` | every byte of a record is where the format has it, and a reader written from the format gets back exactly the acknowledged records, whatever the write calls did |
| `File` | `Include/Env1.h` | file contents followed by the buffer are everything appended; at an error the file holds a prefix |
| `Fixed`, `Coding` | `Util/Coding.*` | fixed-width and variable-length integers, as loops over buffers, with their round trips |
| `Dbformat`, `Memtable` | `DB/Dbformat.*`, `DB/Memtable.cc` | the table is a multi-version map; exactly when the look-up as written answers right |
| `Arena` | `Util/Arena.*` | regions are apart and never reused; memory held is linear in memory asked for |
| `Comparator` | `Util/Comparator.cc`, `Include/Slice.h` | byte order, the slice comparison as written, shortened keys |
| `Wrappers`, `Sequences` | | an option type, and associativity of concatenation |

Bytes are `bv8`; checksums are `bv32`. Lengths, addresses and the integers of the coding
functions are naturals below 2^32 or 2^64: shifts and masks by powers of two are written as
divisions and remainders, and an or of disjoint bits as a sum whose precondition says that
they are disjoint (`Coding.Or`). Objects whose methods change fields are classes; loops in the source are loops
here, proved against functions of their inputs.

What the system decides is a parameter: the outcome of every `write` call is a script held
by the descriptor (`File.Descriptor`: a count, `EINTR` or an error; when the script is used
up every call writes everything, which is the assumption of eventual progress), the addresses of new blocks are given by the caller of the arena, the heights of
skip list nodes come from the generator, and the memory that happens to follow an entry is
an argument of `Memtable.Get`. The user's comparator is a parameter assumed to be a total
order in which different keys may compare equal.

## Where the code departs from its intent

The code is modelled as it is, with the condition under which it does what it should; only
where the text has no defined meaning is the evident intent modelled.

- `DB/log_writer.cc:36-81` never returns `s`. `LogWriter.Writer.AddRecord` returns it.
- `DB/log_writer.cc:52` ignores the status of the trailer's append. `AddRecord` states exactly
  when success is right: if and only if, before the call, the file's buffer has room for the
  trailer, as it has after every record, or the coming outcomes of `write` deliver a full
  buffer (`Writer.TrailerArrives`). When they do not and nothing fails later, it succeeds all
  the same (`Writer.FailsOnlyThere`); `LogWriter.LostTrailer` calls `AddRecord` in such a state.
- `DB/Memtable.cc:84` reads the tag where the length of the value is, and `DB/Dbformat.cc:7`
  returns the packed tag of a look-up as an `int`, so that a look-up at s searches at
  `Dbformat.Effective(s)`: the number among the first and the last 2^23 that has the low 24
  bits of s (`Dbformat.EffectiveIsCongruent`). `Dbformat.PackIsExact` shows that the tag is
  right exactly for the first and the last 2^23 sequence numbers; 2^23 itself becomes 2^56 -
  2^23 (`Dbformat.FirstWrongSequence`). `Memtable.Memtable.Get` is the code as written. With g
  the look-up at `Effective(s)` and h the one at s, `Memtable.GetIsRight` says exactly when its
  answer is right: nothing is to be found, and g is nothing or has two bytes or more; or h is a
  value of one byte and g has the same one; or h is a deletion and g is empty. For s in the
  range that is packed right this is: nothing is found, or a value of one byte, or a deletion
  without a value. `Memtable.WrongAnswers` shows four wrong answers through `Add` and `Get`.
  With the tag packed in full (`Dbformat.LookupKey.AsMeant`) and read where `Add` puts it
  (`Memtable.Memtable.GetAsMeant`) the answer is right for every s:
  `Memtable.RunThenGetAsMeant`.
- `Include/Slice.h:101-104` never returns 0: it is the byte order of exactly the slices that
  differ (`Comparator.SliceCompareIsLex`), and no order at all. `Util/Comparator.cc:28-30`
  drops even that result, so the byte comparator has no defined meaning;
  `Comparator.Lex` is the order it stands for.
- `Util/Coding.h:108`: `result & 128 == 0` is `result & 0`, so the one-byte path is dead.
  `Coding.GetVarint32Ptr` proves that taking it or not makes no difference.

## Model

| member | source | states |
|---|---|---|
| `Crc32c.Extend` | Util/Crc32c.cc:272-373 | For every seed, buffer, length and address alignment the result is the bit-at-a-time CRC-32C of the bytes, continued from the seed |
| `Crc32c.ExtendWith` | Util/Crc32c.cc:318-372 | The same for any five tables whose entries are the registers they stand for |
| `Crc32c.Strides` | Util/Crc32c.cc:328-362 | From the register after any prefix, the swath, rotation and fold loops yield the register after all but fewer than four bytes |
| `Crc32c.Step16` | Util/Crc32c.cc:289-306 | One 16-byte swath keeps the invariant that the four stride registers recombine to the bytewise register |
| `Crc32c.AdvanceSwath` | Util/Crc32c.cc:299-306 | Advancing four strides by one word each is feeding four words to their combination |
| `Crc32c.AdvanceWord` | Util/Crc32c.cc:346-354 | Feeding one word to the combination is advancing the oldest stride and making it the youngest |
| `Crc32c.Fold` | Util/Crc32c.cc:356-361 | The four partial registers are combined into the register they stand for |
| `Crc32c.Step4W` | Util/Crc32c.cc:309-316 | Four table look-ups clock a loaded word through the register 32 times |
| `Crc32c.Step4IsClock` | Util/Crc32c.cc:290-296 | Four stride table look-ups are 128 clocks of the register, with the next word added |
| `Crc32c.Step1IsRegister` | Util/Crc32c.cc:283-287 | One table look-up is eight message bits through the register |
| `Crc32c.Bytes` | Util/Crc32c.cc:322-326 | The bytewise loops before and after the strides compute the register of the bytes they pass |
| `Crc32c.RoundUp4` | Util/Crc32c.cc:249-257 | The least multiple of four at or above an address |
| `Crc32c.Value` | Util/Crc32c.h:20-20 | The CRC-32C of a buffer from its start |
| `Crc32c.MaskMeans` | Util/Crc32c.h:22-32 | The low 15 bits of the checksum move to the top, the other 17 to the bottom, and 0xa282ead8 is added |
| `Crc32c.UnmaskInvertsMask` | Util/Crc32c.h:29-38 | Unmasking a masked checksum gives it back, for every word |
| `Crc32c.MaskInvertsUnmask` | Util/Crc32c.h:29-38 | And masking an unmasked one: masking is a bijection |
| `Crc32cTables.SourceTablesAreCorrect` | Util/Crc32c.cc:16-239 | Each of the 1280 constants is the register it must be: eight clocks for the byte table, 128 clocks of a byte in its position for the stride tables |
| `Crc32cVector.TestBufferChecksum` | Util/Crc32c.cc:263-267 | The bit-serial CRC-32C of the source's test buffer is the constant the source expects |
| `Crc32cSpec.StepsAreLinear` | Util/Crc32c.cc:283-296 | Any number of register clocks distributes over exclusive or, which is why strides may be run apart |
| `Crc32cSpec.StepsInjective` | Util/Crc32c.cc:283-287 | No two register values merge, however long they are clocked |
| `Crc32cSpec.FoldedWord` | Util/Crc32c.cc:308-316 | Message bits may be added to the register up to 32 at once, before clocking |
| `Crc32cSpec.CrcAppend` | Util/Crc32c.h:14-17 | Extending the checksum of A by B gives the checksum of A followed by B |
| `Crc32cSpec.BurstsAreDetected` | Util/Crc32c.cc:283-287 | Different messages of one length that agree outside some 32 consecutive bits, anywhere, have different checksums from every seed |
| `Fixed.EncodeFixed32` | Util/Coding.h:40-60 | The four bytes are stored little-endian and no other byte of the buffer changes |
| `Fixed.EncodeFixed64` | Util/Coding.h:62-74 | The same for eight bytes |
| `Fixed.Fixed32Bytes` | Util/Coding.h:56-59 | The word with bytes b3, b2, b1, b0 from the highest down is stored as b0, b1, b2, b3 |
| `Fixed.Fixed64Digits` | Util/Coding.h:66-73 | Byte i is digit i of the number to base 256 |
| `Fixed.Fixed32RoundTrip` | Util/Coding.h:40-84 | Decoding an encoded 32-bit word gives it back, whatever follows |
| `Fixed.Fixed64RoundTrip` | Util/Coding.h:62-99 | Decoding an encoded 64-bit number gives it back, whatever follows |
| `Coding.EncodeVarint32` | Util/Coding.cc:6-33 | The five unrolled cases write exactly the code of the number at the pointer and return its end |
| `Coding.EncodeVarint64` | Util/Coding.cc:48-57 | The same for the loop |
| `Coding.VarintLength` | Util/Coding.cc:67-75 | The length of the code |
| `Coding.VarintMeans` | Util/Coding.cc:6-57 | The code is the number's groups of seven bits, the lowest first, with the top bit on every byte but the last |
| `Coding.VarintIsShortest` | Util/Coding.cc:6-57 | It has at most n bytes exactly for the numbers below 128^n |
| `Coding.Decode32Means` | Util/Coding.cc:79-96 | A number is read if and only if one of the first five bytes ends it, and it is the sum of the groups up to there, modulo 2^32 |
| `Coding.Decode64Means` | Util/Coding.cc:113-128 | The same for ten bytes and 2^64 |
| `Coding.RoundTrip32` | Util/Coding.cc:6-96 | A 32-bit number takes at most five bytes and is decoded to itself and exactly its own length, whatever bytes follow |
| `Coding.RoundTrip64` | Util/Coding.cc:48-128 | A 64-bit number takes at most ten bytes and is decoded likewise |
| `Coding.PrefixFree` | Util/Coding.cc:6-57 | No code is the beginning of another |
| `Coding.GetVarint32PtrFallBack` | Util/Coding.cc:79-96 | The decoding loop computes the first at most five groups modulo 2^32, on every input, and fails exactly when they do not end |
| `Coding.GetVarint64Ptr` | Util/Coding.cc:113-128 | The same for ten groups modulo 2^64 |
| `Coding.GroupFits` | Util/Coding.cc:82-94 | Or-ing a shifted group into the word touches no bit read before and loses only what the word cannot hold |
| `Coding.GetVarint32Ptr` | Util/Coding.h:104-114 | With or without its one-byte path the inlined decoder is the general one |
| `Coding.GetVarint32` | Util/Coding.cc:98-109 | A number is taken off the front of the input; the input is untouched when there is none |
| `Coding.GetVarint64` | Util/Coding.cc:130-140 | The same for 64 bits |
| `Random.Random.constructor` | Util/Random.h:11-16 | The seed is the low 31 bits, or 1 for the two bad ones |
| `Random.Random.Next` | Util/Random.h:17-37 | The new state is seed * 16807 mod 2^31 - 1 and again between 1 and 2^31 - 2 |
| `Random.Reduce` | Util/Random.h:26-35 | Adding the high part to the low part and subtracting at most once is the remainder; the sum fits 32 bits and is never the modulus |
| `Random.SuccessorInjective` | Util/Random.h:22-26 | No two states lead to the same one |
| `RandomCycle.Order` | Util/Random.h:18-26 | No smaller power of 16807 than the (2^31 - 2)-th is 1 modulo 2^31 - 1 |
| `RandomCycle.FullCycle` | Util/Random.h:21-25 | From every seed the generator cycles through every number in [1, M-1], each exactly once, and then is back at the seed |
| `SkipList.SkipList.constructor` | DB/SkipList.h:218-225 | An empty list of height 1, its header null on all twelve levels, its generator at 0x5eadbeef |
| `SkipList.SkipList.RandomHeight` | DB/SkipList.h:229-243 | One level, and one more for every draw in a row that is a multiple of four, up to twelve; no further draw is made |
| `SkipList.SkipList.LookAhead` | DB/SkipList.h:334-348 | One look ahead: the search moves on exactly when the next node on the level is before the target, and when it stops on level 0 the next node is the answer |
| `SkipList.SkipList.FindGreaterOrEqual` | DB/SkipList.h:327-350 | The first node whose key is not below the target, and in prev the last node below it on every level in use; it terminates |
| `SkipList.SkipList.RaiseTo` | DB/SkipList.h:258-267 | On new levels the header precedes the new node |
| `SkipList.SkipList.PrepareLevel` | DB/SkipList.h:273-274 | The store into the new node changes one pointer and keeps the list consistent |
| `SkipList.SkipList.PublishLevel` | DB/SkipList.h:275-276 | The store into the predecessor puts the node on one more level and keeps the list consistent |
| `SkipList.SkipList.LinkLevels` | DB/SkipList.h:271-277 | The new node is linked on all its levels, bottom first, and no other node's links change in number |
| `SkipList.SkipList.LinkAll` | DB/SkipList.h:271-277 | After all levels the list is whole again |
| `SkipList.SkipList.Insert` | DB/SkipList.h:246-280 | An absent key is put at its place in the sorted keys, and its node is linked on exactly as many levels as drawn; no other key, node or height changes, and the maximum height and the generator follow |
| `SkipList.SkipList.Contains` | DB/SkipList.h:359-366 | Membership up to the comparator |
| `SkipList.SkipList.NoneAfter` | DB/SkipList.h:359-366 | Only the first node not below a key can hold an equal one |
| `SkipList.SkipList.FindLast` | DB/SkipList.h:307-323 | The last node, the header of an empty list |
| `SkipList.Iterator.Next` | DB/SkipList.h:131-135 | The next key in order |
| `SkipList.Iterator.Seek` | DB/SkipList.h:146-150 | The first key not below the target, or the end |
| `SkipList.Iterator.SeekForFirst` | DB/SkipList.h:152-155 | The first key |
| `SkipList.Iterator.SeekForLast` | DB/SkipList.h:157-163 | The last key, or no position in an empty list |
| `SkipList.Scan` | DB/SkipList.h:131-155 | From the first position, Next enumerates exactly the keys of the list, in order |
| `Links.ThreadedPublish` | DB/SkipList.h:275-276 | Publishing a node on a level makes the pointers of all levels tell the new order, and no other |
| `Links.NextAfterGrowth` | DB/SkipList.h:271-277 | Which node follows which on every level, after a node has grown by one level |
| `Order.AfterLowerBound` | DB/SkipList.h:352-356 | In sorted keys exactly those before the lower bound are below the target |
| `Order.InsertionKeepsOrder` | DB/SkipList.h:246-277 | An absent key put at its lower bound keeps the keys sorted |
| `Concurrent.StepKeeps` | DB/SkipList.h:246-350 | Every single load, store or private step of writer or reader keeps the list well-formed, and no node is ever unlinked, moved or changed |
| `Concurrent.RunKeeps` | DB/SkipList.h:246-350 | So it holds in every state of every interleaving |
| `Concurrent.PointersTellTheOrder` | DB/SkipList.h:246-277 | In every state each level is a strictly increasing chain from the header to null, its nodes are on all levels below, and levels at or above max_height_ are empty |
| `Concurrent.LoadsAreSafe` | DB/SkipList.h:176-197 | No step touches a pointer that a node does not have, with any past or present max_height_ seen |
| `Concurrent.LoadFacts` | DB/SkipList.h:334-347 | A load from a linked node on a level it is linked on, whatever the writer is in the middle of |
| `Concurrent.SearchIsLinearizable` | DB/SkipList.h:327-350 | A finished search returns exactly the first node not below its target in the level-0 list at the instant of its last load |
| `Concurrent.SearchNeverMisses` | DB/SkipList.h:327-350 | No key at or above the target that was in the list at any earlier state lies before the result |
| `Concurrent.ContainsIsExact` | DB/SkipList.h:359-366 | Contains is membership at the instant of the last load |
| `Concurrent.InsertTakesEffectOnce` | DB/SkipList.h:246-280 | From the beginning of an Insert to its end exactly one step changes the keys, and it puts the new key in its place, in every interleaving |
| `Concurrent.InsertLinksAsDrawn` | DB/SkipList.h:246-280 | After a whole Insert, in every interleaving, the list has one node more, with as many pointers as the height drawn and linked on all those levels; no other node's levels change, and max_height_ is the greater of its old value and that height |
| `Concurrent.InsertIsBounded` | DB/SkipList.h:246-280 | An Insert ends within 50 steps and one for every node, whatever the readers do |
| `Concurrent.WriterCanStep` | DB/SkipList.h:246-280 | An Insert is never stuck; every absent key can be inserted and every height from 1 to 12 drawn |
| `Concurrent.SearchIsBounded` | DB/SkipList.h:307-350 | A search takes fewer steps than its levels, the nodes of the list, and the nodes inserted meanwhile |
| `Concurrent.ReaderCanStep` | DB/SkipList.h:131-163 | No reader is ever stuck, and a search may start from every height the list has had |
| `Concurrent.LastIsLinearizable` | DB/SkipList.h:307-323 | A finished FindLast returns the last node of the level-0 list at the instant of its last load |
| `Concurrent.SeekIsLinearizable` | DB/SkipList.h:146-150 | After Seek the iterator stands on the first node that was not below the target at the instant of the search's last load, past the end if there was none |
| `Concurrent.SeekForFirstIsAtomic` | DB/SkipList.h:152-155 | After SeekForFirst it stands on the node that was first at the instant of the load, if there was one |
| `Concurrent.SeekForLastIsLinearizable` | DB/SkipList.h:157-163 | After SeekForLast it stands on the node that was last at the instant of the search's last load, nowhere if the list was empty |
| `Concurrent.NextIsAtomic` | DB/SkipList.h:131-135 | Next moves from one position of the list to the one right after it at that instant, and never stays |
| `Concurrent.InsertIsAtomic` | DB/SkipList.h:269-277 | The keys change in one step only, the level-0 publication, which adds exactly the new key |
| `Concurrent.NextDoesNotSkip` | DB/SkipList.h:131-135 | One move of an iterator cannot jump over a node of the list |
| `Concurrent.ScanSkipsNothing` | DB/SkipList.h:131-135 | An iterator that passes a key which was in the list when it was before it has stood on that key's node |
| `File.Descriptor.Write` | Include/Env1.h:124-133 | The oracle for write: an error, an interruption, or any part of the data |
| `File.PosixWritableFile.WriteUnbuffered` | Include/Env1.h:120-136 | Everything is written whatever the partial writes and interruptions, or the file has gained a proper prefix and the call fails; the coming outcomes of write decide which, and with what status |
| `File.FirstErrorDecides` | Include/Env1.h:36-133 | The first error other than 4 (EINTR) that comes before the data is written makes the status: NotFound for 2 (ENOENT), IOError for any other |
| `File.NoErrorNoFailure` | Include/Env1.h:123-135 | With no such error everything is written |
| `File.PosixWritableFile.FlushBuffer` | Include/Env1.h:114-118 | The buffer is emptied, into the file as far as it goes |
| `File.PosixWritableFile.Append` | Include/Env1.h:46-81 | File contents followed by the buffer grow by exactly the data, or the file holds a proper prefix of that; data that fits the 65536 bytes of the buffer touches no file, and what is buffered, and the status, are exact in every case |
| `File.AppendAll` | Include/Env1.h:46-81 | The same over any run of appends up to the first error |
| `LogFormat.RoundTrip` | DB/log_writer.cc:36-113 | Reading the log of any sequence of records returns exactly that sequence |
| `LogFormat.EncodingIsInjective` | DB/log_writer.cc:36-113 | Different sequences of records make different logs |
| `LogFormat.RecordRead` | DB/log_writer.cc:44-80 | A complete record is read back from any position that matches the writer's, and the reader goes on right behind it |
| `LogFormat.RecordCut` | DB/log_writer.cc:44-80 | A record that is not all there is not read at all |
| `LogFormat.FragmentRead` | DB/log_writer.cc:84-113 | A fragment with its trailer is read back, its masked checksum included |
| `LogFormat.PhysicalLayout` | DB/log_writer.cc:90-105 | The fields of a header: length, type, payload, and a word that unmasks to the CRC-32C of the type byte followed by the payload |
| `LogFormat.RecordIsOnDisk` | DB/log_writer.cc:44-105 | The bytes of a record of any length from any offset, by position and in numbers: zeros up to the block's end when fewer than seven bytes are left, then each fragment with its masked checksum, length (low byte first), type 1, 2, 3 or 4, and payload |
| `LogFormat.TypesOnDisk` | DB/Log_format.h:8-17 | On an empty log byte 6 is 1 for up to 32761 bytes and 2 for more, and byte 32774 is then 4 up to 65522 bytes and 3 beyond |
| `LogFormat.Trailer` | DB/log_writer.cc:48-53 | As many zeros as are left of the block, when that is less than a header |
| `LogFormat.CutRecord` | DB/log_writer.cc:36-113 | A log that ends anywhere inside its last record yields exactly the records before it |
| `LogFormat.CutAnywhere` | DB/log_writer.cc:36-113 | A log cut at any byte yields exactly the records that are completely inside |
| `LogFormat.DamageIsDetected` | DB/log_writer.cc:97-99 | When a burst of at most 32 bits hits the type and payload of a fragment, a reader finds exactly the records before the one hit, whatever follows the damage |
| `LogFormat.BurstEndsLog` | DB/log_writer.cc:84-113 | The same for any fragment of any record of a log, by its number |
| `LogFormat.Reopened` | DB/log_writer.cc:27-29 | What a writer reopened by the length of the log writes is byte for byte what the first one would have written, also at the end of a full block |
| `LogFormat.BlockEndIsBlockStart` | DB/log_writer.cc:45-55 | The end of a full block and the start of an empty one are the same place |
| `LogFormat.EndIsAtLength` | DB/log_writer.cc:84-111 | The offset kept by the writer is congruent to the length of the log |
| `LogFormat.EncodedLength` | DB/log_writer.cc:44-80 | A record of n bytes takes n bytes, seven for each of at most ceil(n / 32761) + 1 fragments, and at most six of padding, before the first |
| `LogFormat.FragmentsFromStart` | DB/log_writer.cc:60-61 | From the start of a block it takes exactly ceil(n / 32761) fragments, one for an empty record |
| `LogWriter.Writer.constructor` | DB/log_writer.cc:22-29 | The offset is the length modulo the block size; both constructors, the first with length 0 |
| `LogWriter.Writer.InitTypeCrc` | DB/log_writer.cc:14-19 | The checksums of the five record types |
| `LogWriter.Writer.MakeHeader` | DB/log_writer.cc:90-105 | Header and payload are the framed fragment of the format |
| `LogWriter.Writer.EmitPhysicalRecord` | DB/log_writer.cc:84-113 | One fragment reaches the file whole, or a proper prefix of it and an error; the offset advances either way |
| `LogWriter.Writer.SkipTrailer` | DB/log_writer.cc:45-55 | The block is filled with zeros when no header fits; they are lost if and only if the buffer has no room for them and the outcomes of write do not deliver a full buffer |
| `LogWriter.Writer.AddFragment` | DB/log_writer.cc:44-79 | One turn of the loop writes exactly the next fragment of the format, never across a block |
| `LogWriter.Writer.Turn` | DB/log_writer.cc:44-80 | What is written and what is left always make up the whole record |
| `LogWriter.Writer.AddRecord` | DB/log_writer.cc:36-81 | It terminates; success means that the file ends with exactly the encoded record byte for byte as `LogFormat.OnDisk` has it, if and only if the trailer arrives, a condition on the state before the call; if it arrives, failure leaves a proper prefix; if it alone does not, the call still succeeds |
| `LogWriter.LogRecord` | DB/log_writer.cc:36-113 | On a log that holds a history, a record is recovered if and only if it was acknowledged, whatever the write calls did, and an acknowledged one is on disk byte for byte |
| `LogWriter.LogRecords` | DB/log_writer.cc:22-113 | After any run of records up to the first error, a reader finds the old records and exactly the acknowledged new ones |
| `LogWriter.Open` | DB/log_writer.cc:27-29 | A writer opened on a log by its length continues it |
| `LogWriter.LostTrailer` | DB/log_writer.cc:36-81 | A concrete state in which AddRecord reports success for every record and the file is wrong |
| `Dbformat.PackIsExact` | DB/Dbformat.cc:7-12 | The packed tag is the intended one if and only if the sequence number is among the first or the last 2^23 |
| `Dbformat.PackIsEffective` | DB/Dbformat.cc:7-12 | A packed tag is always the tag of some sequence number in range, with the same type |
| `Dbformat.EffectiveIsCongruent` | DB/Dbformat.cc:7-12 | Which number that is: the only one among the first and the last 2^23 with the same low 24 bits |
| `Dbformat.FirstWrongSequence` | DB/Dbformat.cc:7-12 | The first sequence number that is packed wrong |
| `Dbformat.TagOrder` | DB/Dbformat.cc:34-42 | Tags order by sequence number, then by type |
| `Dbformat.KeyRoundTrip` | DB/Dbformat.h:26-28 | An internal key gives back its user key and its tag |
| `Dbformat.KeyLayout` | DB/Dbformat.cc:11-23 | The bytes of an internal key: user key, type 0 or 1, seven bytes of sequence number, the lowest first |
| `Dbformat.AppendInternalKey` | DB/Dbformat.cc:19-23 | The internal key of the sequence number the packer stands for is appended |
| `Dbformat.CompareMeans` | DB/Dbformat.cc:26-45 | The comparison of encoded keys is user key ascending, sequence number descending, type descending, and equality of the three |
| `Dbformat.KeyOrderIsTotal` | DB/Dbformat.cc:26-45 | It is a total order for every user comparator that is one |
| `Dbformat.InternalKey.SetFrom` | DB/Dbformat.h:49-83 | The key's own string holds the encoding, and gives back the user key |
| `Dbformat.LookupKey.constructor` | DB/Dbformat.cc:57-82 | Length, user key and the tag as packed fill the front of a buffer that always has room for them: 200 bytes, or 15 more than the user key if that is more |
| `Dbformat.LookupKey.AsMeant` | DB/Dbformat.h:21-21 | The same with the tag of the sequence number asked for, over the whole range the packer asserts |
| `Dbformat.LookupKey.MemtableKey` | DB/Dbformat.h:103-105 | The slice a table search starts from |
| `Dbformat.LookupKey.InternalKeySlice` | DB/Dbformat.h:108-110 | The slice with the internal key |
| `Dbformat.LookupKey.UserKey` | DB/Dbformat.h:113-115 | The slice with the user key |
| `Memtable.PrefixedRoundTrip` | DB/Memtable.cc:11-16 | A length-prefixed slice is read back, whatever follows |
| `Memtable.EntryOrderIsTotal` | DB/Memtable.cc:19-24 | The order of encoded entries is total, so they may be keys of the skip list |
| `Memtable.OrderMeans` | DB/Memtable.cc:19-24 | Entries order by user key, then newer versions first |
| `Memtable.EncodeEntry` | DB/Memtable.cc:36-65 | The five parts fill a buffer of exactly the computed size |
| `Memtable.EntryLayout` | DB/Memtable.cc:36-65 | The bytes of an entry: length of the internal key, user key, type 0 or 1, sequence number from its lowest byte up, length of the value, value |
| `Memtable.Memtable.Add` | DB/Memtable.cc:27-69 | Exactly one version is added to the set of versions, and the table stays sorted |
| `Memtable.FirstNotBefore` | DB/Memtable.cc:71-83 | In a sorted table the first entry not before (key, s) decides the look-up: it is the newest visible version, or there is none |
| `Memtable.LooksUpOne` | DB/Memtable.cc:71-98 | A look-up has one answer |
| `Memtable.Memtable.FindEntry` | DB/Memtable.cc:71-83 | The entry of the newest version of the key that is visible at the sequence number in the look-up key's tag, if and only if there is one |
| `Memtable.Memtable.Get` | DB/Memtable.cc:71-98 | The code as written: what it returns for the version found, with arbitrary memory behind the entry |
| `Memtable.GetIsRight` | DB/Memtable.cc:71-98 | Exactly when that is the right answer at the sequence number asked for, with both slips, in terms of the version found and the one to be found; and what this comes to for the first and the last 2^23 sequence numbers |
| `Memtable.OneByteValuesAreRight` | DB/Dbformat.cc:7-12 | In tables of one-byte values, which the wrong tag offset spares, look-ups at s are right in all tables if and only if s is among the first or the last 2^23 |
| `Memtable.AddThenGet` | DB/Memtable.cc:27-98 | One addition and one look-up, through the code as written |
| `Memtable.WrongAnswers` | DB/Memtable.cc:27-98 | Four concrete wrong answers through Add and Get, for every comparator and whatever follows the entries |
| `Memtable.Memtable.GetAsMeant` | DB/Memtable.cc:71-98 | With the tag read where Add puts it: the value of the newest version visible at the look-up key's sequence number, not found if that is a deletion, and nothing if there is none |
| `Memtable.SequenceIsRight` | DB/Memtable.cc:71-98 | Look-ups at the packed sequence number are look-ups at the one asked for, in all tables, if and only if it is among the first or the last 2^23 |
| `Memtable.Run` | DB/Memtable.cc:27-69 | Any run of distinct additions leads to a table that holds exactly the versions added |
| `Memtable.RunThenGetAsMeant` | DB/Memtable.cc:27-98 | The multi-version map: after any run of distinct additions, a look-up for k at any s up to 2^56 - 1 returns what the newest version of k not after s says |
| `Memtable.RunThenGet` | DB/Memtable.cc:27-98 | After any such run, what the code as written returns, and for which look-up |
| `Arena.Arena.Allocate` | Util/Arena.cc:19-29 | A new region inside an owned block and apart from every earlier one; earlier ones stay; the region is the front of the current block's rest whenever that is enough |
| `Arena.Arena.AllocateFallback` | Util/Arena.cc:32-48 | The same from a new block: one of 4096 bytes that retires the current one, or one of its own for a request over 1024 |
| `Arena.Arena.AllocateAligned` | Util/Arena.cc:52-74 | The same at a multiple of eight |
| `Arena.Arena.AllocateNewBlock` | Util/Arena.cc:78-83 | The block is recorded and counted with its pointer |
| `Arena.LayoutCarve` | Util/Arena.cc:21-26 | Cutting a region from the free rest keeps all regions apart and owned |
| `Arena.LayoutNewBlock` | Util/Arena.cc:78-83 | A new block leaves every region where it is |
| `Arena.BalanceRetire` | Util/Arena.cc:39-47 | A retired block has at most 1030 unused bytes, at most 1023 if no aligned request was made |
| `Arena.UsageIsLinear` | Util/Arena.cc:19-83 | 3066 bytes in use for every 4104 held, up to one block and seven bytes for each aligned request |
| `Arena.Arena.MemoryUsage` | Util/Arena.h:28-30 | That bound for the reported usage |
| `Comparator.LexIsTotal` | Util/Comparator.cc:16-30 | Unsigned lexicographic order is a total order, so it may serve as the user's comparator |
| `Comparator.SliceCompareIsLex` | Include/Slice.h:97-106 | The comparison as written is that order for exactly the slices that differ |
| `Comparator.SliceCompareIsNoOrder` | Include/Slice.h:97-106 | It is no total order: the empty slice is less than itself |
| `Comparator.FindShortestSeparator` | Util/Comparator.cc:34-54 | The result is not below start, not longer, and below the limit whenever start is; it is cut behind the first difference exactly when that leaves room, and is start otherwise |
| `Comparator.FindShortSuccessor` | Util/Comparator.cc:56-67 | The result is not below the key, and no string not below the key is shorter; the first byte that is not 0xff is the one incremented |

## Left out

- Weak memory: `Concurrent` interleaves sequentially consistent accesses; only `max_height_` may be seen stale.
- Fairness: `Concurrent` bounds the steps of a search and of an Insert; that a thread gets to take its steps is the scheduler's affair.
- Probability and average cost of the skip list; `RandomHeight` is a function of the generator's states.
- `SkipList::FindLessThan` and `Iterator::Prev`: the one follows a possibly null pointer, the other passes a member function for its result, so neither has a settled meaning.
- The 32-bit truncation of sizes: keys and values of 2^32 - 8 bytes or more, which the four-byte lengths of the layout cannot hold, are excluded by preconditions; overflow of `size_t` is not modelled.
- `Memtable.Memtable.Add`: the entry is inserted as the contents of its buffer; that the arena never reuses the buffer is `Arena.Arena.Allocate`, and the two are not joined in one object.
- `SkipList.SkipList.Insert`: nodes are heap objects; that they come from the arena is not modelled.
- `Coding.PrefixFree`: stated for the code itself, not again for each decoder.
- `Arena.Arena.AllocateNewBlock`: the address of the block is an argument, assumed aligned and apart from blocks already held.
- `Comparator.FindShortestSeparator`: the shortened string is returned, where the code edits its argument; likewise `Comparator.FindShortSuccessor`.
- The log after a failed append: it is shown to hold exactly the acknowledged records; what later appends to the same writer do is not modelled.
- `Close`, `Sync` and the texts of `Status`; console output; reference counts; destructors.
- `InternalKey`: `DecodeFrom`, `Encode` and `Clear`, which only copy or clear the string.
- `InternalKeyComparator::FindShortestSeparator` and `FindShortSuccessor`, which only print, and the overload of `Compare` on `InternalKey`, which always returns 1.
- The hardware CRC and its detection, Snappy, and functions that are declared but not defined (`PutFixed32`, `PutLengthPrefixedSlice`, the constructor of `Memtable`, which is taken to make an empty table).
