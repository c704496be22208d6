# jak2-disassembler core in Dafny

This project models two parts of the Jak 2 disassembler.

**The object-file store** (`ObjectFileDB.cpp`) reads the game's DGO archives.
- An archive may be compressed. It then starts with the magic `oZlB` and the
  decompressed size. A run of chunks follows, each padded to a word boundary.
  A chunk holds either LZO1X data or, when its size word reaches
  `MAX_CHUNK_SIZE` (0x8000), exactly 0x8000 bytes stored as they are.
- A decompressed archive is a 64-byte header (an object count and a 60-byte
  NUL-terminated name that must be the file's base name). Then come the
  objects, each a 64-byte header (size and name) and its bytes, with nothing
  after the last one.
- Every object is filed under its name. An object whose size and CRC-32 match
  a variant already filed under that name counts as one more reference to it.
  Any other object becomes the next version of the name.
- The store also keeps the records of each archive, the order in which names
  were first seen, and four counters.
- A unique name is `name-v<version>`.
- The DGO listing prints each archive, in increasing order of name, with the
  records it held.

**The prologue analysis** (`Function/Function.cpp`) reads the first
instructions of a disassembled MIPS function:
- how much stack it allocates (`daddiu sp, sp, -x`);
- whether it saves `ra` (at 0) and `fp` (at 8, followed by `or fp, t9, r0`);
- how many GPRs it saves (`sq`, 16 bytes apart) and how many FPRs (`swc1`,
  4 bytes apart);
- where the stack-variable area lies.

It then rebuilds the frame the compiler lays out, with 8-, 16- and 4-byte
alignment, and requires it to match the allocation. A save of a register
other than the one the compiler's save table puts in that slot flags the
function as probable hand-written assembly and stops the analysis early.

## Structure

| File | Contents |
|---|---|
| `bytes.dfy` | Bytes, 32-bit words read little-endian, the error kinds, `Result` and `Option`. |
| `binary_reader.dfy` | A `BinaryReader` class: a bounds-checked forward cursor. |
| `decimal.dfy` | `std::to_string` of a non-negative number, and the inverse that parses it. |
| `names.dfy` | `std::string`'s `operator<`, an insertion sort by it, and the unique strictly increasing listing of a set of names. |
| `decompress.dfy` | The read side and the methods of decompression: the chunk loop as functions (`Inflate`), the methods over a reader and an output `array`, and an encoder (`Compress`) used to state the round trip. |
| `dgo_parser.dfy` | The container read side (`ParseDgo`), its encoder (`EncodeDgo`), the round trip in both directions, and the header-reading methods. |
| `object_file_db.dfy` | The store as a value (`Db`) with `AddObj`, `LoadDgo`, `LoadAll` and the listing as functions, and the invariant they keep. The `ObjectFileDB` class has the same fields, and its methods are proved to compute those functions. |
| `function_prologue.dfy` | The instruction shapes, the alignment helpers, the save tables, the analysis stage by stage as functions, and the lemmas about them. The `Function` class has the fields `analyze_prologue` updates, and each of its methods is proved against the matching stage function. |

Every `assert` of the source is an error path in the model:
- in the store it is an `Err(...)` result;
- in the prologue analysis it is the outcome `Aborted`.

So is a bounds-checked read past the end (`instructions.at`, a reader read or
fast-forward). On an error the source stops the program, so the model does
not describe the state it leaves.

## Model

| member | source | states |
|---|---|---|
| Bytes.U32RoundTrip | ObjectFileDB.cpp:94 | A word written little-endian anywhere in a buffer reads back as the same word. |
| Bytes.U32BytesOfAt | ObjectFileDB.cpp:94 | The four bytes a word was read from are that word's little-endian encoding. |
| Bytes.U32ZeroIffZeroBytes | ObjectFileDB.cpp:101-103 | A size word is zero exactly when its four bytes are zero, which is what the padding loop skips. |
| Reader.BinaryReader.ReadU32 | ObjectFileDB.cpp:94 | With four bytes left: returns the little-endian word at the cursor and advances by 4. Otherwise: fails and leaves the cursor where it was. |
| Reader.BinaryReader.ReadBytes | ObjectFileDB.cpp:131 | With n bytes left: returns exactly the n bytes at the cursor and advances by n. Otherwise: fails and does not move. |
| Reader.BinaryReader.Ffwd | ObjectFileDB.cpp:111 | Succeeds exactly when n bytes are left, and then advances by n. Otherwise: does not move. |
| Decimal.NatToString | ObjectFileDB.cpp:23 | Non-empty, digits only, and with no leading zero except for 0 itself. |
| Decimal.DecimalRoundTrip | ObjectFileDB.cpp:23 | Parsing the printed digits gives the number back. |
| Decimal.DecimalInjective | ObjectFileDB.cpp:23 | Different versions print differently. |
| Names.Less | ObjectFileDB.cpp:200 | `std::string` `operator<`: by character code, a proper prefix first. Its order properties are the next four lemmas. |
| Names.LessIrreflexive | ObjectFileDB.cpp:200 | No name sorts before itself. |
| Names.LessAsymmetric | ObjectFileDB.cpp:200 | Two names never each sort before the other. |
| Names.LessTransitive | ObjectFileDB.cpp:200 | The order that `std::sort` uses is transitive. |
| Names.LessTotal | ObjectFileDB.cpp:200 | Of two different names, one sorts before the other. |
| Names.Insert | ObjectFileDB.cpp:200 | Insertion adds exactly the new name: the multiset grows by it. |
| Names.InsertSorted | ObjectFileDB.cpp:200 | Inserting into a sorted sequence keeps it sorted. |
| Names.Sort | ObjectFileDB.cpp:200 | The result is sorted and is a permutation of the input. |
| Names.SortedKeys | ObjectFileDB.cpp:195-200 | The listing of a set of names is strictly increasing and holds exactly the set's names. |
| Names.StrictlySortedUnique | ObjectFileDB.cpp:195-200 | Two strictly increasing sequences with the same elements are equal. |
| Names.SortIsSortedKeys | ObjectFileDB.cpp:195-200 | Sorting a map's keys, in whatever order the map hands them out, gives the one strictly increasing listing of the key set. |
| Names.SortWithoutDuplicatesIsStrict | ObjectFileDB.cpp:200 | Sorting distinct names gives a strictly increasing sequence. |
| Decompress.DetectJak2 | ObjectFileDB.cpp:79-85 | True exactly when the data starts with the four bytes `oZlB`. |
| Decompress.NextChunk | ObjectFileDB.cpp:100-103 | On success the chunk body starts after the size word, within the input. |
| Decompress.SkippedWordsAreZero | ObjectFileDB.cpp:100-103 | The words the loop skips are zero, and the size word it stops at is not zero. |
| Decompress.ZeroWords | ObjectFileDB.cpp:100-103 | The converse: zero words and then a non-zero word are read as that chunk size, with its body right after. |
| Decompress.ChunkBody | ObjectFileDB.cpp:105-119 | A chunk never moves the input cursor back and never writes past the declared size. |
| Decompress.ChunkStep | ObjectFileDB.cpp:99-119 | One pass of the loop moves past at least a size word, and the output stays within the declared size. |
| Decompress.AlignUp4 | ObjectFileDB.cpp:123-125 | The cursor moves to the next multiple of 4, less than 4 bytes on. |
| Decompress.Inflate | ObjectFileDB.cpp:98-126 | On success the output has exactly the declared size. |
| Decompress.Decompressed | ObjectFileDB.cpp:87-127 | On success the archive is at least 8 bytes, and the output is as long as the size word at offset 4. |
| Decompress.Compress | ObjectFileDB.cpp:79-127 | An encoded archive starts with the magic and declares the total length of its chunks' output. |
| Decompress.CompressRoundTrip | ObjectFileDB.cpp:79-127 | Decompressing an encoded archive of well-formed chunks gives their outputs concatenated: the decoder's output for an LZO chunk, the stored bytes for a stored one. |
| Decompress.InflateChunks | ObjectFileDB.cpp:98-126 | From a word-aligned start, chunks laid out one after another decompress to the output so far followed by their pieces. |
| Decompress.StepFromLayout | ObjectFileDB.cpp:99-119 | A chunk laid out at the cursor is read in one step: its padding, its size word, its body and its output. |
| Decompress.CopyInto | ObjectFileDB.cpp:116 | The copy replaces the bytes at the offset with the source and leaves the rest unchanged. |
| Decompress.ReadChunkSize | ObjectFileDB.cpp:100-103 | The reader method returns what NextChunk computes, and leaves the cursor at the body. |
| Decompress.ReadChunkBody | ObjectFileDB.cpp:105-119 | The reader method writes exactly ChunkBody's output into the buffer and moves the cursor to ChunkBody's position, or fails with its error. |
| Decompress.AlignReader | ObjectFileDB.cpp:123-125 | Succeeds exactly when the next word boundary is within the buffer, and moves the cursor there. |
| Decompress.Decompress | ObjectFileDB.cpp:87-127 | The method returns exactly what Decompressed specifies. |
| DgoParser.FirstNul | ObjectFileDB.cpp:61-63 | The position of the first NUL byte, or None when there is none. |
| DgoParser.StringEmptyAfter | ObjectFileDB.cpp:60-68 | What the check accepts: a NUL in the field, and only zero bytes from it up to the size. AssertStringEmptyAfter computes it, and NameFieldRoundTrip and NameFieldOf tie it to valid names. |
| DgoParser.AssertStringEmptyAfter | ObjectFileDB.cpp:60-68 | Accepts exactly the fields in which every byte after the first NUL is zero. |
| DgoParser.NameFieldRoundTrip | ObjectFileDB.cpp:60-68 | The field of a valid name is accepted and reads back as that name. |
| DgoParser.NameFieldOf | ObjectFileDB.cpp:60-68 | The converse: an accepted 60-byte field is the encoding of the name it reads as. |
| DgoParser.ObjectAt | ObjectFileDB.cpp:139-144 | On success the object's bytes fit in the data, and the next object starts right after them. |
| DgoParser.ParseObjects | ObjectFileDB.cpp:138-148 | On success exactly `count` objects are appended to those already read. |
| DgoParser.ArchiveHeader | ObjectFileDB.cpp:130-135 | On success the result is the count word of the header. |
| DgoParser.ParseDgo | ObjectFileDB.cpp:130-148 | On success there are as many objects as the header's count. |
| DgoParser.DgoRoundTrip | ObjectFileDB.cpp:130-148 | Parsing an encoded container gives its objects back. |
| DgoParser.ParsedIsEncoded | ObjectFileDB.cpp:130-148 | Every container the parser accepts is exactly the encoding of the objects it returns. |
| DgoParser.ParsedHeader | ObjectFileDB.cpp:130-135 | An accepted header has a valid name and is exactly the header encoding of its count word and that name. |
| DgoParser.ReadArchiveHeader | ObjectFileDB.cpp:130-135 | The reader method computes ArchiveHeader and leaves the cursor after the header. |
| DgoParser.ReadObjectHeader | ObjectFileDB.cpp:139-141 | The reader method computes ObjectAt and leaves the cursor at the object's bytes, or fails with ObjectAt's error. |
| ObjectFileDb.ToUniqueName | ObjectFileDB.cpp:22-24 | The unique name starts with the name and is longer than the name plus the marker. |
| ObjectFileDb.UniqueNameInjective | ObjectFileDB.cpp:22-24 | Records with equal unique names have the same name and version. |
| ObjectFileDb.FindVariant | ObjectFileDB.cpp:163-171 | A found variant has the object's size and hash. |
| ObjectFileDb.FindVariantFirst | ObjectFileDB.cpp:163-171 | The variant found is the first that matches, and none is found exactly when none matches. |
| ObjectFileDb.AddObj | ObjectFileDB.cpp:154-188 | Files one object. It is specified by AddKeepsInv, MatchReusesVariant, NewObjectIsNextVersion and UniqueNamesDistinct. |
| ObjectFileDb.FiledPick | ObjectFileDB.cpp:138-145 | The multiset of all archive records does not depend on which archive is taken out first. |
| ObjectFileDb.FiledAppend | ObjectFileDB.cpp:167 | Appending a record to one archive adds exactly that record to the multiset of all archive records. |
| ObjectFileDb.FiledMember | ObjectFileDB.cpp:154-188 | A record in that multiset is held by some archive at some position. |
| ObjectFileDb.EmptyInv | ObjectFileDB.cpp:29 | The empty store satisfies the store invariant. |
| ObjectFileDb.AddKeepsInv | ObjectFileDB.cpp:154-188 | Adding an object keeps the whole invariant. Versions are numbered 0, 1, ... and hashed, and the variants of a name can be told apart. The order lists each held name once, and every archive record names a held variant. The unique counters count the variants and their bytes. The total counter counts all archive records. Each variant's reference count is how many archive records name it. |
| ObjectFileDb.AddKeepsShaped | ObjectFileDB.cpp:154-188 | The same for the shape part: versions, names, order, records and the unique counters. |
| ObjectFileDb.AddKeepsTallies | ObjectFileDB.cpp:154-188 | The same for the tallies: the total counter and every reference count still count the archive records. |
| ObjectFileDb.TalliesAfterExisting | ObjectFileDB.cpp:163-170 | A match adds one record, of that variant, and one to its count and to the total. So the tallies still hold. |
| ObjectFileDb.TalliesAfterNew | ObjectFileDB.cpp:173-187 | A new variant starts at 1 with its one record. No archive held it before, so the other counts are unchanged and the tallies still hold. |
| ObjectFileDb.AddExistingKeepsInv | ObjectFileDB.cpp:163-170 | A match keeps the store shaped. |
| ObjectFileDb.AddNewKeepsInv | ObjectFileDB.cpp:173-187 | A new variant, numbered after the earlier ones and counted once, keeps the store shaped. |
| ObjectFileDb.MatchReusesVariant | ObjectFileDB.cpp:163-170 | An object with the size and CRC-32 of a variant already held under its name is filed as that variant, even when its bytes differ. The first match found is that variant. The archive records it, its reference count goes up by one, its stored bytes stay, and there is no new version and no new unique bytes. |
| ObjectFileDb.NewObjectIsNextVersion | ObjectFileDB.cpp:173-187 | An object that matches no variant becomes the next version, and the archive records it. |
| ObjectFileDb.UniqueNamesDistinct | ObjectFileDB.cpp:183 | Different variants held by the store have different unique names. |
| ObjectFileDb.AddAllKeepsInv | ObjectFileDB.cpp:138-145 | Adding an archive's objects keeps the invariant. |
| ObjectFileDb.AddAllRecords | ObjectFileDB.cpp:138-145 | The archive's records grow by one per object, named as the objects in order. Other archives' records do not change, and the total counter grows by the number of objects. |
| ObjectFileDb.LoadObjects | ObjectFileDB.cpp:137-148 | The object loop and the end check. Specified by LoadObjectsIsAddParsed. |
| ObjectFileDb.LoadNext | ObjectFileDB.cpp:139-144 | One pass of the loop: read one object header and its bytes, file it, go on after it. |
| ObjectFileDb.LoadObjectsIsAddParsed | ObjectFileDB.cpp:137-148 | Reading and adding objects one at a time, as the loop does, gives the same result as parsing the container and then adding its objects. |
| ObjectFileDb.LoadDgo | ObjectFileDB.cpp:75-149 | One archive: count its bytes, decompress it if compressed, check its header, file its objects. Specified by LoadDgoObjects, LoadKeepsInv and the class method GetObjsFromDgo. |
| ObjectFileDb.LoadDgoObjects | ObjectFileDB.cpp:75-148 | Otherwise the load is the object loop after the file's bytes are counted. |
| ObjectFileDb.LoadKeepsInv | ObjectFileDB.cpp:75-149 | Loading an archive keeps the invariant. |
| ObjectFileDb.LoadAll | ObjectFileDB.cpp:29-35 | The archives in the given order, stopping at the first failure. Specified by LoadAllKeepsInv and LoadDgos. |
| ObjectFileDb.LoadAllKeepsInv | ObjectFileDB.cpp:29-35 | Loading a list of archives keeps the invariant. |
| ObjectFileDb.Sections | ObjectFileDB.cpp:202-208 | One section per archive name, in the given order. |
| ObjectFileDb.Listing | ObjectFileDB.cpp:193-211 | The header, then the sections in the one strictly increasing order of the archive names. GenerateDgoListing is proved to print it. |
| ObjectFileDb.ReadArchive | ObjectFileDB.cpp:79-128 | The archive as is, or decompressed when it starts with the magic. |
| ObjectFileDb.DgoNames | ObjectFileDB.cpp:195-198 | Each archive name of the map, exactly once. |
| ObjectFileDb.SectionText | ObjectFileDB.cpp:203-207 | The method builds exactly one archive's section. |
| ObjectFileDb.ObjectFileDB.constructor | ObjectFileDB.cpp:29 | A new store is empty. |
| ObjectFileDb.ObjectFileDB.AddObjFromDgo | ObjectFileDB.cpp:154-188 | The fields after the call are AddObj of the fields before. |
| ObjectFileDb.ObjectFileDB.AddNextObject | ObjectFileDB.cpp:138-145 | One pass of the loop removes exactly one object from the load still to do, or fails with the load's error. |
| ObjectFileDb.ObjectFileDB.AddObjects | ObjectFileDB.cpp:137-148 | The object loop and the end check: success exactly when LoadObjects succeeds, and then the fields are its store. |
| ObjectFileDb.ObjectFileDB.GetObjsFromDgo | ObjectFileDB.cpp:75-149 | Success exactly when LoadDgo succeeds, and then the fields are its store. On failure: LoadDgo's error. |
| ObjectFileDb.ObjectFileDB.LoadDgos | ObjectFileDB.cpp:29-35 | Success exactly when LoadAll succeeds, and then the fields are its store. On failure: the first failure's error. |
| ObjectFileDb.ObjectFileDB.GenerateDgoListing | ObjectFileDB.cpp:193-211 | The header, then one section per archive in increasing order of name, each listing that archive's records in order. |
| FunctionPrologue.Align16 | Function/Function.cpp:26-28 | `(x + 15) & ~15` on a uint32_t, with the wrap-around written out. Specified by Align16RoundsUp and AlignWraps. |
| FunctionPrologue.Align8 | Function/Function.cpp:30-32 | Likewise `(x + 7) & ~7`. |
| FunctionPrologue.Align4 | Function/Function.cpp:34-36 | Likewise `(x + 3) & ~3`. |
| FunctionPrologue.Align16RoundsUp | Function/Function.cpp:26-28 | Where no wrap-around happens: align16 gives the least multiple of 16 at or above its argument. |
| FunctionPrologue.Align8RoundsUp | Function/Function.cpp:30-32 | Likewise for align8 and multiples of 8. |
| FunctionPrologue.Align4RoundsUp | Function/Function.cpp:34-36 | Likewise for align4 and multiples of 4. |
| FunctionPrologue.AlignRoundsUp | Function/Function.cpp:26-36 | The three together: a multiple of m, at least x, and less than x + m. |
| FunctionPrologue.AlignWraps | Function/Function.cpp:26-36 | Within m of 2^32 the 32-bit addition wraps and the result is 0. |
| FunctionPrologue.AlignIdempotent | Function/Function.cpp:26-36 | Aligning twice is aligning once. |
| FunctionPrologue.AlignOfMultiple | Function/Function.cpp:26-36 | A multiple of m is left as it is. |
| FunctionPrologue.AlignMonotone | Function/Function.cpp:26-36 | Where nothing wraps, alignment keeps order. |
| FunctionPrologue.DivMonotone | Function/Function.cpp:26-36 | Rounding down to a multiple of 16, 8 or 4 keeps order. |
| FunctionPrologue.AlignIntRoundsUp | Function/Function.cpp:200-242 | On the int running total, through the conversions to uint32_t and back, alignment of a non-negative total below 2^31 - 16 rounds up to the next multiple of m. |
| FunctionPrologue.SlotRegistersAreTables | Function/Function.cpp:7-12 | The save-slot formula gives exactly the two tables: gp, s5 … s0 and f30, f28 … f20. |
| FunctionPrologue.ExpectedBackup | Function/Function.cpp:14-24 | get_expected_gpr_backup and get_expected_fpr_backup together. Specified by the five lemmas below. |
| FunctionPrologue.ExpectedBackupIsLookup | Function/Function.cpp:14-24 | The expected register is table entry total - 1 - n. It is None where either source assertion or the bounds-checked lookup fails. |
| FunctionPrologue.ExpectedBackupDefined | Function/Function.cpp:14-24 | For n >= 0 it is defined exactly when n < total <= table size. |
| FunctionPrologue.ExpectedBackupShift | Function/Function.cpp:14-24 | One more save moves every expected register one slot later. |
| FunctionPrologue.ExpectedBackupLast | Function/Function.cpp:14-24 | The last slot always expects the table's first register. |
| FunctionPrologue.ExpectedBackupsDistinct | Function/Function.cpp:14-24 | Different slots of one run expect different registers. |
| FunctionPrologue.Run | Function/Function.cpp:92-119 | A counted run ends before the end of the instructions. |
| FunctionPrologue.RunCounts | Function/Function.cpp:92-119 | A run is exactly the saves up to the first non-save. It is None exactly when saves continue to the end, where the bounds-checked read fails. |
| FunctionPrologue.BackupCheck | Function/Function.cpp:121-136 | A flagged save lies in the run. |
| FunctionPrologue.BackupCheckPass | Function/Function.cpp:121-136 | The check passes exactly when each save sits at base + stride × k and holds the register its slot expects. |
| FunctionPrologue.BackupCheckSuspect | Function/Function.cpp:123-134 | A flagged save has every save before it in order, sits at its own offset, and holds another register than its slot expects. |
| FunctionPrologue.WarningsTextAppend | Function/Function.cpp:101 | Appending warnings appends their text, so the warning text only grows at its end. |
| FunctionPrologue.RegsEndIff | Function/Function.cpp:199-218 | The RA and FP part of the frame check passes exactly when RA is at 0, and FP is at 8 and set from t9. It then ends at 8 with RA alone and at 16 with FP. |
| FunctionPrologue.SectionAtIff | Function/Function.cpp:228-240 | A save-section check passes exactly when a non-empty section starts at the first multiple of m at or after the running total. It then ends after the section's bytes. |
| FunctionPrologue.FrameEndIffLaidOut | Function/Function.cpp:197-245 | For sizes below the overflow bounds, the rebuilt frame equals the allocation exactly when the frame is the canonical layout (both directions). |
| FunctionPrologue.DecodedChangesNoLayout | Function/Function.cpp:252 | Setting `decoded` changes nothing about the layout. |
| FunctionPrologue.PassedRunRecorded | Function/Function.cpp:121-137 | A run that passed its check has each save recorded at its slot's offset with its slot's register. |
| FunctionPrologue.RecordedFits | Function/Function.cpp:122-155 | Recorded saves fit the 16-bit offsets and the table sizes, so that the layout lemma applies. |
| FunctionPrologue.Finish | Function/Function.cpp:247-252 | The end: the first block must reach the prologue's end, and it then starts there. |
| FunctionPrologue.StackVarBytes | Function/Function.cpp:182-195 | The stack-variable size is the distance from its start to the first save section, or to the end of the frame. |
| FunctionPrologue.Frame | Function/Function.cpp:170-245 | The frame stage. Specified by FrameFacts and FrameEndIffLaidOut. |
| FunctionPrologue.Fprs | Function/Function.cpp:140-168 | The FPR stage. Specified by FprsFacts and FprsFlags. |
| FunctionPrologue.Gprs | Function/Function.cpp:88-138 | The GPR stage. Specified by GprsFacts and GprsFlags. |
| FunctionPrologue.Backups | Function/Function.cpp:57-83 | The RA and FP saves, then the GPR stage. Specified by BackupsFacts and BackupsFlags. |
| FunctionPrologue.Analyze | Function/Function.cpp:45-255 | The whole analysis. Specified by AnalyzeStackUsage, AnalyzeDecoded and AnalyzeSuspected. |
| FunctionPrologue.FrameFacts | Function/Function.cpp:170-245 | The frame stage never flags. On a decode, the prologue spans 1 to the saves' end, only the stack-variable fields and `decoded` change, the stack variables are placed, and the frame is canonical. |
| FunctionPrologue.FrameAfterFprs | Function/Function.cpp:167-245 | The frame stage keeps the GPR and FPR saves recorded just before the prologue's end. |
| FunctionPrologue.FprsFacts | Function/Function.cpp:140-168 | After the FPR stage: the stack usage is kept, and on a decode the FPR saves are recorded just before the end, after the GPR saves. |
| FunctionPrologue.GprsFacts | Function/Function.cpp:88-138 | After the GPR stage: on a decode both runs of saves are recorded as read, the stack variables are placed and the frame is canonical. |
| FunctionPrologue.BackupsFacts | Function/Function.cpp:57-83 | The same facts from the RA and FP saves on. |
| FunctionPrologue.FprsFlags | Function/Function.cpp:150-163 | An FPR flag arises only after a scan. It names the first save k of the run that is in order, at base + 4 × k, and holds another register than slot k expects. The state is the input with `suspected_asm` set and exactly that save's warning appended; the blocks and `decoded` are unchanged. |
| FunctionPrologue.GprsFlags | Function/Function.cpp:88-163 | A flag after the GPR stage comes either from that save check, after the stop warning (stride 16), or from the FPR check after a clean, in-order GPR run. Either way it is the input plus exactly the stop warning and the flagged save's warning, with `suspected_asm` set. |
| FunctionPrologue.GprSuspectFlagged | Function/Function.cpp:121-135 | A GPR flag lies in the run and is the flag described above. |
| FunctionPrologue.FprsFlagsAfterGprs | Function/Function.cpp:137-163 | A flag from the FPR stage, after a GPR run that passed its check, is the flag described above. |
| FunctionPrologue.BackupsFlags | Function/Function.cpp:57-163 | The same flag, with the GPR saves starting after the RA save and the FP save with its `or`, where present. |
| FunctionPrologue.AnalyzeStackUsage | Function/Function.cpp:46-55 | Unless aborted, the stack usage is -imm of a `daddiu sp, sp, imm` at instruction 1, else 0. With none used, the analysis only sets the usage, trims the first block and sets `decoded`. |
| FunctionPrologue.AnalyzeDecoded | Function/Function.cpp:45-255 | A decode sets `decoded` and trims the first block. With stack used: the prologue spans 1 to the end of the saves, the stack variables are placed, the frame is the canonical one, and both runs of saves are recorded as read. |
| FunctionPrologue.AnalyzeSuspected | Function/Function.cpp:45-163 | A flag arises only with stack used. It is that flag, for GPR saves starting from instruction 2 on. |
| FunctionPrologue.Function.constructor | Function/Function.cpp:40 | The function's start word, end word and instructions are as given. |
| FunctionPrologue.Function.AnalyzePrologue | Function/Function.cpp:45-255 | The outcome is Analyze's outcome, and unless aborted the fields are Analyze's state. |
| FunctionPrologue.Function.AnalyzeSaves | Function/Function.cpp:57-83 | The method computes the Backups stage. |
| FunctionPrologue.Function.AnalyzeGprSaves | Function/Function.cpp:88-138 | The method computes the Gprs stage. |
| FunctionPrologue.Function.AnalyzeFprSaves | Function/Function.cpp:140-168 | The method computes the Fprs stage. |
| FunctionPrologue.Function.AnalyzeFrame | Function/Function.cpp:170-246 | The method computes the Frame stage. |
| FunctionPrologue.Function.PlaceStackVars | Function/Function.cpp:173-195 | The stack-variable area starts at 16, 8 or 0 and runs up to the first save section or the end of the frame. It fails where the sizes' assertions fail. |
| FunctionPrologue.Function.FinishPrologue | Function/Function.cpp:248-252 | The method computes Finish. |
| FunctionPrologue.Function.ScanGprSaves | Function/Function.cpp:88-119 | The scan loop finds Run's count, and the warning for a stop at a store of r0 or a0. |
| FunctionPrologue.Function.ScanFprSaves | Function/Function.cpp:140-148 | The scan loop finds Run's count. |
| FunctionPrologue.Function.CheckSaves | Function/Function.cpp:121-135 | The checking loop computes BackupCheck. |
| FunctionPrologue.Function.CheckFrame | Function/Function.cpp:197-245 | Passes exactly when the rebuilt frame equals the stack usage. |
| FunctionPrologue.Function.CheckRegs | Function/Function.cpp:199-218 | The running total after the RA and FP sections, or None where an offset is off. |
| FunctionPrologue.Function.CheckSection | Function/Function.cpp:228-240 | One save section of the running total, as SectionAt. |

## Left out

- The LZO1X decoder (`lzo1x_decompress`) is not part of this model: it is a function parameter. `lzo_init` is not modelled.
- The CRC-32 is a function parameter.
- File reading (`read_binary_file`), `base_name`, the timer and every `printf` are left out. An archive is given as its base name and its bytes.
- `util/BinaryReader.h`, `ObjectFileDB.h`, `Function.h` and `Disasm/InstructionMatching.h` are not part of this model.
- The reader's `read<DgoHeader>` is modelled as the 4-byte word followed by the 60-byte name field.
- The instruction matchers (`is_gpr_2_imm`, `is_no_link_gpr_store`, `is_no_link_fpr_store`, `is_gpr_3`) are modelled as shapes of an `Instruction` datatype. Decoding and disassembly are not part of this model.
- `Instruction::to_string` is a `show` parameter of the warning text, and `Prologue::to_string` is left out.
- `check_epilogue` (line 254 of Function/Function.cpp) is left out.
- The rest of ObjectFileDB.cpp after line 211 (linking, disassembly, output) is left out.
- Integers are unbounded, except for the uint32_t arithmetic of align16, align8 and align4 and the int conversions around them, which are explicit.
- The store's counters and `output_offset` do not wrap in the model: their widths are declared in ObjectFileDB.h, which is not part of this model, and archives are far below 4 GiB.
- After an `Err` or `Aborted` outcome the state is not described, because the source's failed assertion ends the program.
- Function.constructor: the source's defaults for the other fields come from Function.h and are not part of this model. The constructor states only the fields it sets.
- LoadDgo states the load as parse-then-add, while the source adds each object as it reads it. LoadObjectsIsAddParsed proves the two give the same store. They differ only in what an error leaves behind, which is not described.
- Decompress.ChunkBody: an LZO chunk whose output, or a stored chunk whose 0x8000 bytes, would run past the declared size fails with OutputOverflow. The source does not check this: `lzo1x_decompress` and the `memcpy` at line 116 of ObjectFileDB.cpp write past the buffer, which is undefined behaviour. Decompress.Decompress and Decompress.ReadChunkBody inherit this error path.
- DgoParser.StringEmptyAfter: a 60-byte name field with no NUL is rejected. The source's loop at line 62 of ObjectFileDB.cpp, like the name comparison at line 134, reads past the field, which is undefined behaviour. DgoParser.ArchiveHeader and DgoParser.ObjectAt therefore fail with MalformedHeader on such a field.
- Decompress.DetectJak2: a file shorter than 4 bytes is taken as not compressed. The source's loop at line 82 of ObjectFileDB.cpp indexes past the end of such a file, which is undefined behaviour. The archive header read that follows then fails with OutOfBounds.
- ObjectFileDb.AddObj: a new variant starts with reference count 1, its first sighting, as ObjectFileDb.ObjectFileDB.AddObjFromDgo does too. The field's initial value is declared in ObjectFileDB.h, which is not part of this model. The invariant states that each count equals the number of archive records that name the variant.
- FunctionPrologue.FrameEndIffLaidOut: the equivalence is stated below bounds on the sizes (FrameBounds). Above them the int running total could overflow, which the source does not guard against.
- The save tables are read through the slot formula SlotRegister. SlotRegistersAreTables proves the formula equals the tables.
