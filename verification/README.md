# ffprinter: a Dafny model of its data structures and files

ffprinter keeps databases of file fingerprints: trees of entries, indexes that answer substring queries on
names, ids and checksums, a binary database file, and a directory-like view of the open databases. The modules
here model the parts with the most state and arithmetic and state what they guarantee.

| part | modules |
|---|---|
| bitmaps | Block, BitSeq, Bitmap, BitmapSearch, BitmapGroups, BitmapShift |
| substring index | Strings, ExistMat, IndexSpec, PartMap, Layer2, PartLookup, IndexUpkeep, SubstringIndex, TransMap, ChildLookup |
| saving and loading | BufferedFile, Numbers, Records, Entries, Threading, ThreadOrder, SaveFile, LoadFile, TreeLoad, TreePairs, PrunedLoad, LoadTree, LoadDatabase, RoundTrip |
| logical paths | PathText, Directory, PathLaws, DirectoryInfo, LogicalPath, ChildByName, ChildById |
| fingerprints | Sectioning, Fingerprint |
| hash table | BitArith, HashLists, HashChains, HashTable, MergeOrder, HashSort |
| shared | Util, Lists, Codes, Arith |

Objects whose fields the program overwrites are classes (`SimpleBitmap`, `Column`, `Matrix`, `L2Arr`, `Writer`,
`Reader`, `Entry`, `DirInfo`, `Table`), loops are methods with invariants, and each method is tied to a function
on sequences and maps about which the lemmas speak. A block of a bitmap is a sequence of 64 bits, bit 0 the most
significant one. Strings are sequences of characters without their terminator.

The main results:

- the substring index returns exactly the naive answer in every state that adding and removing strings can reach
  (`SubstringIndex.Index.Lookup`);
- a database saved on one host and loaded on another comes back as the same tree of the same records, without the
  entries that fail to verify and what lies under them (`RoundTrip.SaveAndLoad`), with the exact condition under
  which section checksums survive (`Records.SurvivesIffCompact`) and the exact condition of the end-of-file test
  (`BufferedFile.EndTest`);
- a directory's path leads back to the directory (`LogicalPath.ThereAndBack`), in id mode exactly when the path is
  not elided (`Directory.IdPathIff`), by plain names exactly when they are the only ones of their kind
  (`PathLaws.NamePathIff`); paths compose (`PathLaws.Join`), and the strategies of the child searches do not matter to
  them (`ChildByName.FindChild`, `ChildById.FindChild`);
- sections tile the file and extracts are apart, and what is recorded of a file can be loaded again
  (`Sectioning.Tiling`, `Fingerprint.RecordedSurvivesIff`);
- the hash table finds what is in it over any run of additions and deletions, through every doubling
  (`HashTable.Table.Find`, `Add`, `Delete`), and its list sort is stable (`MergeOrder.StableSort`,
  `HashSort.Sort`).

Where the code falls short of its intent the model keeps the code, and a lemma says exactly how far the claim
holds:

- a forward group of zeros at the end of a map is too long (`BitmapGroups.ZeroGroupIsMaximal`,
  `ZeroGroupOvercount`);
- the lookup answers the empty needle with nothing (`SubstringIndex.EmptyNeedle`), and bounds past the longest string
  are not refused, as the comparison is unsigned (`PartMap.RangeErrorIff`, `PartLookup.BoundPastTheEnd`);
- the linking pass of save_file keeps the right entries but reorders them, exactly when a trap is followed by another
  entry (`ThreadOrder.PrunedIff`), and its code misses failures off the path of last children (`ThreadOrder.CodeIff`,
  `CodeTruthfulIff`); the loader makes the right tree all the same (`PrunedLoad.RestReads`);
- with a root that fails to verify save_file writes whatever list an earlier operation left there
  (`RoundTrip.WarningIff`);
- a seek from the end leaves the recorded position and the file apart (`BufferedFile.Writer.BufSeek`);
- the loader stores a section's checksum bytes by position, not by kind (`Records.SurvivesIffCompact`, `GapLoses`);
- trailing bytes of a file that fills its last buffer go unnoticed (`BufferedFile.EndTest`);
- a tag string longer than the buffer cannot be saved although the format allows it (`SaveFile.SaveRecord`);
- an elided path cannot be followed in id mode (`Directory.ElidedIsLost`), two slashes in a row start over at the top
  (`PathLaws.DoubleSlash`), and slashes at the end of a path lead elsewhere from the second on
  (`PathLaws.TrailingSlashesIff`);
- rotation of a bitmap by less than a block is wrong to the right for offsets longer than the map
  (`BitmapShift.WrappedRightIff`) and to the left for a full last block (`BitmapShift.WrappedLeftIff`);
- a file of exactly 100 GiB is refused (`Sectioning.ChooseSections`), and a file of one byte gets a section that
  verify_entry rejects (`Sectioning.VerifiedIff`, `Fingerprint.RecordedVerifiesIff`);
- of a file of several sections that ends early as many sections are recorded as were not read
  (`Fingerprint.ReadSections`); what then passes verify_entry, what loads, and what passes and does not load is told
  exactly (`Fingerprint.ShortVerifiesIff`, `ShortLoadsIff`, `EndInLastSection`).

## Model

| member | source | states |
|---|---|---|
| `Bitmap.SimpleBitmap.constructor` | lib/simple_bitmap.c:45-81 | A new map has the length asked for, or whole blocks up to the last one given; for the values 0 and 1 it denotes that many copies, with the cached counts right and the bits past the end zero (`Valid`, kept by every operation below); another value touches nothing. |
| `Bitmap.SimpleBitmap.Zero` | lib/simple_bitmap.c:83-115 | All bits 0. |
| `Bitmap.SimpleBitmap.Fill` | lib/simple_bitmap.c:83-162 | All bits the given value, edge bits still zero. |
| `Bitmap.SimpleBitmap.Read` | lib/simple_bitmap.c:850-903 | The bit at the index, or WRONG_INPUT past the end. |
| `Bitmap.SimpleBitmap.Write` | lib/simple_bitmap.c:905-971 | Exactly one bit of the sequence changes and the counts follow; WRONG_INPUT past the end changes nothing. |
| `Bitmap.CountBits` | lib/simple_bitmap.c:973-1053 | Counting block by block gives the number of set bits of the sequence; zeros and ones add up to the length. |
| `Bitmap.SimpleBitmap.CountZerosAndOnes` | lib/simple_bitmap.c:973-1053 | Re-establishes edge rule and counts for whatever the blocks hold, without changing the denoted bits. |
| `Bitmap.SimpleBitmap.Negate` | lib/simple_bitmap.c:469-524 | The complement, with the two counts exchanged. |
| `Bitmap.Combine` | lib/simple_bitmap.c:526-848 | and, or, xor bit by bit over the common length, also when the result is one of the operands; unequal lengths are refused only when asked for. |
| `Bitmap.CombinedAt` | lib/simple_bitmap.c:526-848 | Over maps of one length the operator bit by bit, for each of the three. |
| `Bitmap.Copy` | lib/simple_bitmap.c:1904-2033 | The target becomes the source resized to the target length with the default bit; a longer source needs permission to truncate. |
| `Bitmap.SimpleBitmap.Grow` | lib/simple_bitmap.c:2047-2152 | The old bits, then the default bit; growing to a size that is not larger is refused. |
| `Bitmap.SimpleBitmap.Shrink` | lib/simple_bitmap.c:2154-2239 | The prefix of the old bits; the blocks given up are zeroed. |
| `BitSeq.ShrinkUndoesGrow` | lib/simple_bitmap.c:2047-2239 | Shrinking to the old length after a grow gives the old bits. |
| `BitSeq.ResizeAt` | lib/simple_bitmap.c:2047-2239 | The old bits as far as they go, then the filling. |
| `Bitmap.SimpleBitmap.FfpGrow` | src/ffprinter.c:1004-1030 | Grows with zeros, in place when no further block is needed and in new memory otherwise; does nothing when long enough. |
| `BitmapSearch.FirstBitIndex` | lib/simple_bitmap.c:1055-1225 | The least index at or after the skip position that holds the value; SEARCH_FAIL exactly when there is none. |
| `BitmapSearch.FirstBitIndexBack` | lib/simple_bitmap.c:1471-1647 | The greatest index at or before the skip position that holds the value; SEARCH_FAIL exactly when there is none. |
| `BitmapSearch.NextOne` | src/ffp_database_function_template.h:129-132 | One turn of the loop over `number_of_ones`: the k-th search finds the k-th set bit. |
| `BitmapSearch.Enumerate` | src/ffp_database_function_template.h:129-132 | Searching `number_of_ones` times from one past the last result visits all set bits in ascending order. |
| `BitSeq.IndicesAreSet` | lib/simple_bitmap.c:1055-1141 | The enumeration holds exactly the indices of the set bits, ascending. |
| `BitmapGroups.FirstGroup` | lib/simple_bitmap.c:1227-1469 | The group starts at the first matching bit and extends right; zeros are counted into the unused bits of the last block. |
| `BitmapGroups.FirstGroupBack` | lib/simple_bitmap.c:1649-1902 | The group ends at the last matching bit at or before the skip position and is maximal to the left. |
| `BitmapGroups.OneGroupIsMaximal` | lib/simple_bitmap.c:1227-1347 | A forward group of ones is a maximal run. |
| `BitmapGroups.ZeroGroupIsMaximal` | lib/simple_bitmap.c:1349-1469 | A forward group of zeros is a maximal run exactly when the map fills its last block or some zero at or after the start of the search has a one after it. |
| `BitmapGroups.ZeroGroupOvercount` | lib/simple_bitmap.c:1443-1466 | Concrete input: four zeros in a map of length 4 are reported as 64. |
| `BitmapShift.Shift` | lib/simple_bitmap.c:178-467 | A zero-fill shift by any offset in either direction is the shift of the sequence, for every length. |
| `BitmapShift.ShiftTwice` | lib/simple_bitmap.c:178-467 | Two shifts in one direction are one shift by the sum. |
| `BitmapShift.ShiftedOut` | lib/simple_bitmap.c:178-467 | Shifting by the length or more leaves no bit. |
| `BitmapShift.ShiftedAt` | lib/simple_bitmap.c:178-467 | To the right a bit comes from before its place, to the left from after it, or it is zero. |
| `BitmapShift.RotatedAt` | lib/simple_bitmap.c:178-467 | A rotated bit moves as a shifted one and comes in again at the other end. |
| `BitmapShift.RotateRight` | lib/simple_bitmap.c:418-438 | For a map whose last block is partial and any offset below a block: the moved bits with the last ones pieced in, which is the rotation for offsets up to the length. |
| `BitmapShift.WrappedRightIff` | lib/simple_bitmap.c:418-438 | That is the rotation for every map of a length exactly when the offset is not longer than the map. |
| `BitmapShift.RotateLeft` | lib/simple_bitmap.c:440-461 | For the lengths and offsets that stay inside the blocks: the rotation to the left, or with a full last block the bits the code puts in the wrong places. |
| `BitmapShift.WrappedLeftIff` | lib/simple_bitmap.c:440-461 | It is the rotation for every map of such a length exactly when the last block is partial. |
| `BitmapShift.RotateBack` | lib/simple_bitmap.c:390-467 | Right then left by the same amount, and left then right, is the identity. |
| `Strings.MatchSubMinMax` | src/ffprinter.c:377-420 | Found exactly when the needle occurs with its start between the bounds, a negative bound meaning none. |
| `Strings.UnboundedIsContains` | src/ffprinter.c:377-420 | Without bounds the ranged match is the substring relation. |
| `ExistMat.Column.Find` | src/ffprinter_function_template.h:651-660 | The walk over a column finds the node of a character, or its last node, exactly when the character is in the column. |
| `ExistMat.Column.Mark` | src/ffprinter_function_template.h:624-698 | After the call the column maps the character to its old map with one bit more, and every other character as before. |
| `ExistMat.Column.Release` | src/ffprinter_function_template.h:736-787 | Clears the bit unless another string of the array shares the character, and takes the node out when no bit is left; LOGIC_ERROR when the character is missing. |
| `ExistMat.Matrix.Insert` | src/ffprinter_function_template.h:606-705 | Every position of the string is marked for its array and the maximum length follows; a string longer than the matrix is refused and changes nothing. |
| `ExistMat.Matrix.UpdateMaxLength` | src/ffprinter_function_template.h:789-807 | Deleting a string of maximum length lowers the maximum to the last column that is not empty; other lengths leave it. |
| `ExistMat.MarkedAt` | src/ffprinter_function_template.h:687-696 | Marking an array adds exactly that array to the map, which grows as needed. |
| `IndexSpec.ScanExact` | src/ffp_database_function_template.h:128-156 | The naive scan lists exactly the live records that match, each once, in order of array and slot. |
| `IndexSpec.UnmarkedHasNoHit` | src/ffp_database_function_template.h:170-352 | In a matrix that covers the live strings, an array that is no candidate holds no match. |
| `IndexSpec.CandidatesPrune` | src/ffp_database_function_template.h:59-156 | The candidate arrays prune the naive scan: no record is missed. |
| `IndexSpec.ScanSkips` | src/ffp_database_function_template.h:128-136 | Skipping unmarked arrays does not change the scan. |
| `IndexSpec.TooLongScansEmpty` | src/ffp_database_function_template.h:93-97 | A needle longer than every live string matches nothing. |
| `PartMap.AllPresent` | src/ffp_database_function_template.h:232-267 | A start position survives the first phase exactly when every needle character has a node in its column. |
| `PartMap.IntersectFrom` | src/ffp_database_function_template.h:277-337 | Copying, resizing and and-ing the maps of the columns gives their intersection, maps of different lengths read as zero-extended. |
| `PartMap.UnionStarts` | src/ffp_database_function_template.h:272-349 | Or-ing the intersections over the start positions gives the union of intersections. |
| `PartMap.PartMapRanged` | src/ffp_database_function_template.h:170-352 | Bit `a` of the result is set exactly when some start position between the bounds has every needle character marked for array `a`; bounds are refused as the unsigned comparison has it (`Refused`), over-long needles with their code. |
| `PartMap.RangeErrorIff` | src/ffp_database_function_template.h:214-228 | Bounds that leave no room for the needle are reported exactly when they do not slip through: the upper one past the longest string, the lower one with room or past it too. |
| `Layer2.L2Arr.Add` | src/ffprinter_function_template.h:330-413 | The new record takes the first free slot of the first array with room, an array being opened when all are full; nothing else changes. |
| `Layer2.L2Arr.Get` | src/ffprinter_function_template.h:463-499 | OK exactly for the index of a used slot, with its record. |
| `Layer2.L2Arr.Delete` | src/ffprinter_function_template.h:416-460 | Frees exactly the slot of the index; the codes tell a bad array from a free slot. |
| `PartLookup.FilterArray` | src/ffp_database_function_template.h:137-151 | The hits of one array are appended in slot order until the buffer is full. |
| `PartLookup.FilterMarked` | src/ffp_database_function_template.h:128-156 | Filtering the marked arrays gives the naive scan, or as much of it as fits. |
| `PartLookup.LookupPartRanged` | src/ffp_database_function_template.h:59-156 | Query and filter together: for all bounds that are not refused, also those past the longest string, the buffer holds the naive scan of all live records within them, cut at its size with BUFFER_FULL; every error path. |
| `PartLookup.NoRoom` | src/ffp_database_function_template.h:100-124 | What bounds without room mean: an upper one past the last start is no bound, under a lower one past it nothing matches. |
| `PartLookup.BoundPastTheEnd` | src/ffp_database_function_template.h:118-124 | Bounds -1 and 10 for `b` in the one string `abc`: without room, not refused, and the string is found. |
| `IndexUpkeep.InsertKeepsCovers` | src/ffprinter_function_template.h:606-705 | Inserting a live string keeps the index invariant. |
| `IndexUpkeep.DeleteKeepsCovers` | src/ffprinter_function_template.h:708-810 | Deleting one keeps it, whatever length the record carries. |
| `IndexUpkeep.InsertKeepsExact` | src/ffprinter_function_template.h:606-705 | Inserting keeps the strict invariant: no mark without a live string behind it. |
| `IndexUpkeep.DeleteKeepsExact` | src/ffprinter_function_template.h:708-810 | Deleting keeps the strict invariant when the record's length is that of its string. |
| `IndexUpkeep.SharesChar` | src/ffprinter_function_template.h:754-775 | The inner search tells whether another live record of the array has the character at the position. |
| `IndexUpkeep.DeletePositions` | src/ffprinter_function_template.h:736-787 | The loop releases exactly the string's positions, up to the recorded length. |
| `IndexUpkeep.DeleteFromMatrix` | src/ffprinter_function_template.h:708-810 | The matrix after a deletion; INDEX_OUT_OF_RANGE and FIND_FAIL leave it alone. |
| `SubstringIndex.Index.AddString` | src/ffp_database.c:1911-1924 | Adding a record and entering its string keeps the index valid and adds exactly that record; the record handed back is the one the pool has there, with the string and nothing filed under it, and no other record changes. |
| `SubstringIndex.Index.RemoveString` | src/ffprinter_function_template.h:889-897 | Deleting from the matrix and then from the pool keeps the index valid and removes exactly that record; no other record changes. |
| `SubstringIndex.Index.Lookup` | src/ffp_database_function_template.h:59-168 | In every reachable state the lookup returns the live records whose string contains the needle, each once, ascending, cut at the buffer size. |
| `SubstringIndex.TakenIsFound` | src/ffp_database_function_template.h:59-156 | A lookup with room puts the record that an addition handed back in the buffer exactly when its string contains the needle. |
| `SubstringIndex.ScanIsNaive` | src/ffp_database_function_template.h:59-156 | The scan without bounds is the naive result. |
| `SubstringIndex.NaiveResultUnique` | src/ffp_database_function_template.h:59-156 | There is only one list of all matches in that order, so the result is determined. |
| `SubstringIndex.EmptyNeedle` | src/ffp_database_function_template.h:59-156 | For the empty needle, which the lookup answers with nothing, the naive result is empty exactly when nothing is live. |
| `TransMap.MarkChain` | src/ffp_database.c:3282-3291 | Adds exactly the indices that the chain leads to; the map grows as needed. |
| `TransMap.TransMapToEntryMap` | src/ffp_database.c:3343-3385 | Bit `k` is set exactly when a live record of a marked array contains the needle and its chain leads to entry `k`. |
| `TransMap.NameTransMapToEntryMap` | src/ffp_database.c:3260-3297 | The same for names, added to what the entry map held, which this variant does not clear. |
| `TransMap.PrunedIsNaive` | src/ffp_database.c:3343-3385 | Composed with the map phase: the naive set over all records. |
| `ChildLookup.CollectChain` | src/ffp_database.c:1335-1348 | Walking the same-name chain collects the entries with the parent, in chain order, until the buffer is full. |
| `ChildLookup.CollectChildren` | src/ffp_database.c:1351-1363 | Scanning the child array collects the children with the name, or containing it. |
| `ChildLookup.CollectMarked` | src/ffp_database.c:1383-1417 | Going through the marked arrays collects every child whose name contains the text. |
| `ChildLookup.FindChildrenViaFileName` | src/ffp_database.c:1300-1439 | Exact-name children when the name exists in the database, else children whose name contains it, whichever strategy the costs select; at most as many as fit. |
| `ChildLookup.FindChildrenViaEntryIdPart` | src/ffp_database.c:1441-1589 | The entry with the id if it is a child, when the table has the id; else the children whose id contains the text, through the index or along the children; at most as many as fit. |
| `ChildLookup.KnownNames` | src/ffp_database.c:1330-1332 | The table knows a name exactly when some entry has it. |
| `ChildLookup.StrategiesAgree` | src/ffp_database.c:1300-1439 | Two strategies that list the same set list it with equal multiplicities and count. |
| `Threading.LinkEntryAfter` | src/ffprinter.c:778-801 | The list with one entry put in after a place, links in both directions consistent. |
| `Threading.LinkEntryForSaveFile` | src/ffp_file.c:1634-1689 | Whatever stale links the branch carries, the pass leaves a doubly linked list of its own: `Threaded`, with the tail and code the code returns, put in after the given tail. |
| `Threading.VerifiedIsPreorder` | src/ffp_file.c:1634-1689 | When every entry verifies, the list is the preorder, each entry once, and the tail is its last entry (so it is for `link_branch`, the same pass without verification). |
| `Threading.PreorderIffVerified` | src/ffp_file.c:1634-1689 | The list is the preorder exactly when every entry of the branch verifies. |
| `ThreadOrder.CodeIff` | src/ffp_file.c:1658-1688 | The code is OK exactly when every entry on the path of last children verifies. |
| `ThreadOrder.CodeTruthfulIff` | src/ffp_file.c:1658-1688 | The code tells rightly whether the whole branch was linked exactly when every entry verifies or one on the path of last children does not. |
| `ThreadOrder.KeptIsPruned` | src/ffp_file.c:1787-1791 | The entries linked are those of the preorder without the failing entries and what lies under them, each as often. |
| `ThreadOrder.PrunedIff` | src/ffp_file.c:1661-1682 | They are in that order exactly when no trap, a verified only child of a verified entry with a single failing child of its own, is followed by another of them. |
| `Threading.LinkedAreVerified` | src/ffp_file.c:1634-1689 | Only entries that verify are linked. |
| `Threading.FailureReorders` | src/ffp_file.c:1661-1667 | Such a branch: a trap whose entry is put behind a later one. |
| `Threading.FailureForgotten` | src/ffp_file.c:1675-1682 | A branch with a failure off the path of last children, which is not reported. |
| `BufferedFile.Writer.CopyPtrToBuf` | src/ffp_file.c:216-247 | The file image gets the item at the current position, reversed for a number on a little endian host; an item larger than the buffer is refused. |
| `BufferedFile.Writer.FlushBuf` | src/ffp_file.c:249-269 | Flushing writes the image out and changes neither image nor position. |
| `BufferedFile.Writer.BufSeek` | src/ffp_file.c:271-292 | Seeking flushes, keeps the content and moves to the place asked for from the start or the current place; from the end the counter goes the other way than the file and never tells its place again. |
| `BufferedFile.Reader.CopyBufToPtr` | src/ffp_file.c:114-214 | The next item of the remaining bytes through any number of refills; FILE_END when the last buffer runs out, FILE_END_TOO_SOON when the refill does not hold the rest. |
| `BufferedFile.Reader.AtEnd` | src/ffp_file.c:1622-1625 | What the last test of load_file looks at. |
| `BufferedFile.EndTest` | src/ffp_file.c:1622-1625 | That test accepts exactly when everything has been read, or the file is a whole number of buffers long and what is left lies in the last one. |
| `BufferedFile.WriteItems` | src/ffp_file.c:216-269 | A sequence of items becomes its encoding; where flushes fell leaves no trace. |
| `BufferedFile.ReadItems` | src/ffp_file.c:114-214 | Reading with the same sizes and kinds gives the items back, on either byte order and across any refills. |
| `BufferedFile.OverwriteTwice` | src/ffp_file.c:249-269 | Writing in two pieces is writing at once. |
| `Numbers.NumberOfBigEndian` | src/ffp_file.c:91-108 | A number comes back from its big endian bytes. |
| `Numbers.BigEndianAt` | src/ffp_file.c:91-108 | In the file the most significant byte comes first. |
| `Numbers.HostBytesAt` | src/ffp_file.c:91-108 | In memory a little endian host has the least significant byte first, a big endian one the most significant. |
| `Numbers.FileBytes` | src/ffp_file.c:233-242 | The bytes in the file do not depend on the byte order of the host. |
| `Numbers.HostReads` | src/ffp_file.c:137-146 | Reading reverses what the host needs reversed. |
| `Numbers.SignedRoundTrip` | src/ffp_file.c:1942-1973 | Signed values survive as two's complement. |
| `Numbers.UnsignedIsRemainder` | src/ffp_file.c:1942-1973 | What is stored for a signed value is its remainder by the power of two of the width. |
| `Numbers.BytesToHexStr` | src/ffprinter.c:272-281 | The text of an id. |
| `Numbers.HexInjective` | src/ffp_file.c:487-537 | Different ids have different texts, so tables keyed by either agree. |
| `Numbers.HexDigits` | src/ffprinter.c:272-281 | Each byte gives its two hexadecimal digits, the high one first. |
| `Records.TimeBack` | src/ffp_file.c:1905-1977 | A broken-down time comes back with its daylight saving flag reduced to its sign. |
| `Records.ChecksumsBack` | src/ffp_file.c:1126-1222 | File checksums come back in the slots of their kinds. |
| `Records.SectChecksumsBack` | src/ffp_file.c:1399-1495 | What a section's slots hold after the loader stored the bytes by position and the kinds by slot. |
| `Records.CompactSurvives` | src/ffp_file.c:1399-1495 | Section checksums that fill the first slots survive. |
| `Records.SurvivesIffCompact` | src/ffp_file.c:1468 | For checksums that are not all zero, survival holds exactly when the used slots are the first ones. |
| `Records.GapLoses` | src/ffp_file.c:1468 | The last used slot after a gap reads zeros. |
| `Records.ExtractsBack` | src/ffp_file.c:1256-1281 | Extracts come back when they meet the loader's range conditions, strict at the end of a whole file. |
| `Records.SectionBack` | src/ffp_file.c:1370-1573 | A section comes back up to its checksum slots. |
| `Records.FileDataBack` | src/ffp_file.c:1104-1573 | File data come back up to the section checksums. |
| `Records.RecordBack` | src/ffp_file.c:478-1575 | Decoding what was written for an entry gives the entry, up to daylight saving signs and section checksums. |
| `Records.RecordLayout` | src/ffp_file.c:1803-1878 | Where ids, kind, number of children, creator, name and bitmap of an entry are in the file. |
| `Records.LoadsIffSizesOk` | src/ffp_file.c:1300-1363 | File data that is storable otherwise loads exactly when the section sizes pass the tests; else FILE_BROKEN. |
| `Records.UnchangedRecord` | src/ffp_file.c:478-1575 | When nothing at all is lost. |
| `SaveFile.SaveRecord` | src/ffp_file.c:1799-2316 | One entry is written as its encoding; a tag string longer than the buffer gives BUFFER_NO_SPACE. |
| `SaveFile.SaveEntries` | src/ffp_file.c:1793-2320 | Following the links from the root writes exactly the threaded entries, in order, and counts them. |
| `SaveFile.CountPatched` | src/ffp_file.c:2332-2339 | Overwriting the dummy count changes those eight bytes only. |
| `SaveFile.FileLayout` | src/ffp_file.c:1756-1784 | The bytes in front: marker, version, number of branches, number of entries. |
| `SaveFile.PatchCount` | src/ffp_file.c:2332-2339 | Seek and overwrite on the file. |
| `SaveFile.SaveFile` | src/ffp_file.c:1756-2343 | The file is the encoding of header, count, entries and tail marker. |
| `LoadFile.LoadSectChecksums` | src/ffp_file.c:1399-1495 | Reads a section's checksums as the format function says, including the slot mix-up. |
| `LoadFile.LoadExtracts` | src/ffp_file.c:1225-1301 | Reads extracts with the loader's range checks. |
| `LoadFile.LoadFileData` | src/ffp_file.c:1104-1573 | Reads file data, every check and error code included. |
| `LoadFile.LoadBody` | src/ffp_file.c:544-1575 | Reads everything of an entry after its ids, against the pure parser. |
| `TreeLoad.BranchRead` | src/ffp_file.c:514-542 | Reading the preorder of a branch below an entry already read rebuilds the branch there and touches nothing else. |
| `TreeLoad.TreeRoundTrip` | src/ffp_file.c:514-542 | Preorder with parent ids rebuilds the same ordered tree with the same depths; every parent is found when its child is read and no id is taken for a duplicate. |
| `LoadTree.PutIntoChildrenArray` | src/ffp_database.c:2648-2679 | The entry becomes its parent's last child, one level deeper; all other links stay. |
| `LoadTree.LinkedForms` | src/ffp_database.c:2648-2679 | Linking in memory is attaching in the pure tree. |
| `LoadTree.ParseEntry` | src/ffp_file.c:462-1600 | An accepted record has a known parent and a new id. |
| `LoadTree.AddEntry` | src/ffp_file.c:514-637 | One new entry under its parent and in the table, with the id text and the name of its record, all others as they were. |
| `LoadTree.LoadEntries` | src/ffp_file.c:462-1600 | The loop builds one entry per record, linked to form the tree, exactly as far as the parser accepts the bytes. |
| `LoadDatabase.IsMarker` | src/ffp_file.c:392-397 | The marker loop accepts exactly the marker. |
| `LoadDatabase.HeaderOutcome` | src/ffp_file.c:384-445 | A wrong marker gives FILE_BROKEN, another version FILE_NOSUPPORT, and otherwise the two counts are read. |
| `LoadDatabase.LoadEnd` | src/ffp_file.c:1604-1625 | Tail marker and end test, with the trailing bytes the test lets through. |
| `LoadDatabase.LoadDatabaseFile` | src/ffp_file.c:384-1632 | The whole loader against the parser of the file format: codes, entries and tree. |
| `RoundTrip.FileBack` | src/ffp_file.c:1756-2343 | Parsing a saved file gives the records, the tree their parent ids describe, and no bytes left. |
| `RoundTrip.EntryOutcome` | src/ffp_file.c:478-1600 | Of a saved record the loader says FIND_FAIL for an unknown parent, FILE_BROKEN if it does not verify, DUPLICATE_ERROR for a known id, and takes it otherwise. |
| `TreePairs.PreorderAllPairs` | src/ffp_file.c:1793-1821 | The entries of a tree in preorder carry the id pairs of the tree in memory. |
| `TreeLoad.SwapBlocks` | src/ffp_file.c:514-542 | Two lists of entries of which none is the other's parent, sibling or duplicate may be read in either order. |
| `PrunedLoad.RestReads` | src/ffp_file.c:514-542 | Whatever order the linking pass left, the loader reaches the state that the pruned preorder gives. |
| `RoundTrip.LinkedRebuild` | src/ffp_file.c:1793-1821 | The linked list makes the pruned tree: all parents found, no duplicates, children in order, depths right. |
| `RoundTrip.Save` | src/ffp_file.c:1756-2343 | Threading and saving gives the encoding, in list order, of what then hangs off the root: the linked entries, or the list of an earlier operation when the root fails to verify. |
| `RoundTrip.WarningIff` | src/ffp_file.c:1786-1794 | What is written is what verifies with all above it, as the warning says, exactly when the root verifies or carries no earlier list. |
| `RoundTrip.NothingSaved` | src/ffp_file.c:1786-1799 | A root that fails and carries no list gives a file that loads as an empty database, whatever number of branches it states. |
| `RoundTrip.SaveAndLoad` | src/ffp_file.c:1756-2343 | Saving on one host and loading on another, whatever their byte orders and whichever entries below the root verify: the load is accepted and the tree without the failing entries and what lies under them stands in memory, with order, records, depths and parent flags; the same tree when all verify. Each entry is written with its own ids and number of children, and has the name again that it had. |
| `RoundTrip.NamesBack` | src/ffp_file.c:615-637 | An entry whose name agrees with its record has the same name after loading. |
| `PathText.GrabUntilSep` | src/ffprinter.c:152-229 | The token, its length in the source, and the codes; quotes and escapes as the scan takes them. |
| `PathText.GrabComponent` | src/ffprinter.c:152-229 | A component without quotes and separators is read back as written. |
| `PathText.GrabVerbatim` | src/ffprinter.c:152-229 | Text without quotes, separators and escapes is taken as it is, whatever follows. |
| `PathText.GrabQuoted` | src/ffprinter.c:152-229 | Quotes are dropped and what they hold is taken as it is, separators and all. |
| `PathText.GrabEscaped` | src/ffprinter.c:152-229 | A character after an escape is taken for itself, except in single quotes. |
| `PathText.GrabStops` | src/ffprinter.c:152-229 | The scan stops at a separator or at the end; only a trailing escape reads one character further. |
| `PathText.ReverseStrCpy` | src/ffprinter.c:59-74 | The buffer gets the reversed text with its terminator and keeps the rest. |
| `PathText.GrabClosed` | src/ffprinter.c:152-229 | A separator put after a text whose quotes are closed does not change the first token. |
| `Directory.PathRoundTrip` | src/ffp_directory.c:234-698 | Resolving the path of a place leads back to it from anywhere: in id mode for all unique ids, in file name mode when the names on the way are plain and unique among siblings, as long as the path is not elided. |
| `Directory.IdPathIff` | src/ffp_directory.c:234-698 | In id mode a path leads back exactly when it is not elided. |
| `Directory.ElidedIsLost` | src/ffp_directory.c:656-671 | In id mode an elided path is answered with NO_SUCH_LOGIC_DIR. |
| `Directory.DotDot` | src/ffp_directory.c:399-416 | ".." after a path leads one level up, out of the database at its root. |
| `PathLaws.Dot` | src/ffp_directory.c:396-398 | A dot leads to the current directory. |
| `PathLaws.DotAtEnd` | src/ffp_directory.c:396-398 | /. at the end of a path changes nothing. |
| `PathLaws.DotInFront` | src/ffp_directory.c:396-398 | ./ in front of a path changes nothing; alone it leads to the current directory. |
| `PathLaws.DownAndUp` | src/ffp_directory.c:399-475 | A plain name followed by two dots leads back whenever the name leads anywhere. |
| `PathLaws.TopIsTop` | src/ffp_directory.c:399-402 | Two dots at the top stay there. |
| `PathLaws.ElidedEnd` | src/ffp_directory.c:655-671 | What follows the dots of an elided path leads from the parent to the place, in either mode. |
| `PathLaws.DatabaseIff` | src/ffp_directory.c:316-345 | A text leads to the database of that name, or, if none has it, to the only one whose name contains it. |
| `PathLaws.CaseIgnored` | src/ffp_directory.c:453-462 | In id mode upper and lower case digits lead to the same child. |
| `PathLaws.NamePathIff` | src/ffp_directory.c:234-698 | In file name mode, with plain names and a path that is not elided: the path leads back exactly when each entry on the way is the only one of its name among its siblings, and is FOUND_DUPLICATE otherwise. |
| `PathLaws.Join` | src/ffp_directory.c:234-507 | Paths compose: resolving s/r is resolving r from where s leads, for every s with closed quotes that does not end in a slash. |
| `PathLaws.DoubleSlash` | src/ffp_directory.c:299-364 | After any such s that leads somewhere, s//q resolves like the absolute path /q, whatever s is. |
| `PathLaws.OnlySlashes` | src/ffp_directory.c:299-364 | Where n slashes lead: to the top for one; else FOUND_DUPLICATE, or with a single database to it and to the top by turns. |
| `PathLaws.TrailingSlashesIff` | src/ffp_directory.c:356-364 | The path of a place in a database followed by n slashes leads back exactly when n is at most 1, or the place is the root of the only database and n is odd. |
| `Directory.ClimbResolves` | src/ffp_directory.c:366-504 | Resolving component by component follows the tree downwards. |
| `Directory.LabelFinds` | src/ffp_directory.c:449-475 | The label of an entry, looked up among its parent's children, finds exactly the entry. |
| `DirectoryInfo.DirInfo.UpdatePointers` | src/ffp_directory.c:137-166 | The pointers become those of the place that the names stand for, or NO_SUCH_LOGIC_DIR. |
| `DirectoryInfo.DirInfo.IsPointingToDb` | src/ffp_directory.c:71-85 | True exactly for a database name with the zero id. |
| `DirectoryInfo.NamesRoundTrip` | src/ffp_directory.c:31-166 | The names of a place lead back to it. |
| `LogicalPath.WriteClimb` | src/ffp_directory.c:635-689 | Writing labels backwards up the parent chain and reversing the whole gives the labels from the top down, within both buffers. |
| `LogicalPath.DirToPath` | src/ffp_directory.c:509-698 | The buffer holds the path of the place, terminated; PATH_TOO_LONG cannot occur for names of legal length. |
| `LogicalPath.FindChildren` | src/ffp_database.c:1300-1589 | Number of candidates up to two, and the first, by name or by id text. |
| `ChildByName.SameChildren` | src/ffp_database.c:1300-1419 | The children the name search of the index is to find are the candidates of the directory. |
| `ChildByName.FindChild` | src/ffp_directory.c:449-475 | The step to a child by name, through whichever strategy the search takes, leads where `Directory.ChildOf` says, with its codes. |
| `ChildById.SameChildren` | src/ffp_database.c:1441-1589 | The children the id search is to find are the candidates of the directory, the root id in the table included. |
| `ChildById.FindChild` | src/ffp_directory.c:453-475 | The step to a child by id, the text in lower case, through whichever strategy, leads where `Directory.ChildOf` says, with its codes. |
| `LogicalPath.GoToDatabase` | src/ffp_directory.c:322-350 | Exact name, else the only name that contains the text, else the right code. |
| `LogicalPath.PathToDir` | src/ffp_directory.c:234-507 | Resolves the path as `Resolve` says, in place and also when source and target are the same object; names and entry pointer are right, the database pointer when `Trusted`. |
| `LogicalPath.ThereAndBack` | src/ffp_directory.c:234-698 | `dir_to_path` then `path_to_dir` from any directory: the same place, pointers included. |
| `Sectioning.IdealNum` | src/ffp_fingerprint.c:492-509 | The backward search finds the number of the lowest class above the size. |
| `Sectioning.NumFromClass` | src/ffp_fingerprint.c:492-509 | It finds none exactly for sizes from 100 GiB on. |
| `Sectioning.PlanCovers` | src/ffp_fingerprint.c:512-516 | Ceiling size and remainder cover the file exactly when one section fewer would not do. |
| `Sectioning.FewCover` | src/ffp_fingerprint.c:512-516 | This holds when the square of one section fewer is below the size. |
| `Sectioning.ChooseSections` | src/ffp_fingerprint.c:485-517 | LOGIC_ERROR exactly at 100 GiB; otherwise a suited number of sections of the ceiling size, the last with what is left, that cover the file; no smaller size would do. |
| `Sectioning.Tiling` | src/ffp_fingerprint.c:549-559 | Every byte of the file is in exactly one section. |
| `Sectioning.SectionsFollow` | src/ffp_fingerprint.c:549-559 | Sections follow each other without gap from the first byte to the last. |
| `Sectioning.VerifiedIff` | src/ffp_database.c:598-669 | verify_entry accepts the sections exactly when the last one has two bytes or more. |
| `Sectioning.ChooseExtracts` | src/ffp_fingerprint.c:740-760 | Five extracts of four bytes above 333 bytes, else as many single bytes as five percent allow, five at most. |
| `Sectioning.FirstTry` | src/ffp_fingerprint.c:740-753 | The first try leaks too much exactly for sizes up to 333. |
| `Sectioning.SampleIsModest` | src/ffp_fingerprint.c:740-760 | At most five percent, within the limits, with room between extracts; none at all exactly below 20 bytes. |
| `Sectioning.ExtractsApart` | src/ffp_fingerprint.c:764-786 | Extracts do not touch each other and end before the end of their file or section. |
| `Fingerprint.ReadBytes` | src/ffp_fingerprint.c:579-607 | Reading in pieces hashes exactly the bytes wanted that the file has. |
| `Fingerprint.ReadSections` | src/ffp_fingerprint.c:549-673 | Every byte goes into the file checksums once and into those of its own section. A file that ends after `have` bytes is cut at section have / norm + 1; the number of sections recorded for it is right exactly when there was one, or twice as many as that. |
| `Fingerprint.TakeExtracts` | src/ffp_fingerprint.c:762-786 | The extracts are the bytes at their positions. |
| `Fingerprint.FingerprintFile` | src/ffp_fingerprint.c:456-862 | The codes, and all that is recorded, under the plan of ceiling sizes, of a file of the size seen first, longer by now, or ended early: every slot holds the digest of its own kind of the bytes of the file, or of the section from its start to its end; sections follow each other from the first byte to the last; extracts are the bytes at their positions. |
| `Fingerprint.FileTold` | src/ffp_fingerprint.c:560-862 | Digests, bounds and extracts in the record of a whole file, in terms of its bytes alone. |
| `Fingerprint.ShortTold` | src/ffp_fingerprint.c:560-738 | The same for a file that ended early: sections reached hold digests of what was read of them, the others nothing. |
| `Fingerprint.RecordedVerifiesIff` | src/ffp_database.c:598-669 | The sections recorded of a whole file pass verify_entry exactly when the file has two bytes or more. |
| `Fingerprint.ShortVerifiesIff` | src/ffp_database.c:598-669 | Those of a file that ended early pass exactly when there was more than one, the first was read, more than half were, and a single one recorded has the size of the others. |
| `Fingerprint.ShortLoadsIff` | src/ffp_file.c:1300-1363 | They load exactly when there was more than one, the first was read, the last not begun, and a single one recorded has the size of the others; else FILE_BROKEN. |
| `Fingerprint.EndInLastSection` | src/ffp_file.c:1326-1333 | What passes verify_entry and still breaks the database file: exactly a file that ended in the last of several sections. |
| `Fingerprint.RecordedIsLoadable` | src/ffp_file.c:1040-1575 | What is recorded meets every condition of the loader. |
| `Fingerprint.RecordedSurvives` | src/ffp_file.c:1040-1575 | It comes back from the database file unchanged when the section checksums wanted are of the first kinds. |
| `Fingerprint.RecordedSurvivesIff` | src/ffp_file.c:1040-1575 | With digests that are never all zero, exactly then. |
| `BitArith.MaskAndShift` | lib/uthash.h:210-213 | Mask and shift with a power of two are remainder and quotient. |
| `BitArith.ShiftAndMaskIsCeil` | lib/uthash.h:693-695 | The ideal chain length is items over new buckets, rounded up. |
| `HashLists.PushFront` | lib/uthash.h:628-634 | An element becomes the head of its chain, links in both directions consistent. |
| `HashLists.Unhook` | lib/uthash.h:642-652 | An element leaves its chain. |
| `HashLists.FindInBkt` | lib/uthash.h:613-625 | The walk finds an element with the key exactly when the chain has one. |
| `HashLists.AppendTail` | lib/uthash.h:195-199 | An element becomes the tail of the list in order of addition. |
| `HashLists.Unthread` | lib/uthash.h:237-253 | An element leaves that list; head and tail follow. |
| `HashChains.MaskIsIndex` | lib/uthash.h:210-213 | The mask of the bucket computation is the remainder by the number of buckets, a power of two. |
| `HashChains.ToBkt` | lib/uthash.h:210-213 | The bucket of a hash value by its mask. |
| `HashChains.IndexedAdd` | lib/uthash.h:200-204 | Pushing an element on the chain of its index keeps the chains in step with the list, counts summing to the number of items. |
| `HashChains.IndexedRemove` | lib/uthash.h:254-256 | Removing it from both keeps them in step. |
| `HashChains.SpreadMove` | lib/uthash.h:701-714 | Moving one element to its new bucket keeps the redistribution invariant. |
| `HashChains.SpreadEnd` | lib/uthash.h:697-720 | When all chains are through, the doubled buckets are in step with the list. |
| `HashChains.ExcessStep` | lib/uthash.h:697-709 | Allowing chains one element more takes one off the excess of every longer chain. |
| `HashTable.MoveAll` | lib/uthash.h:696-716 | Redistribution in place: every element in the bucket of its new index, counts, multipliers and the number of items in over-long chains kept. |
| `HashTable.Table.Find` | lib/uthash.h:106-117 | The element with the key, or null exactly when no element has it. |
| `HashTable.Table.Add` | lib/uthash.h:185-208 | The element is added at the end and in its bucket; the first makes 32 buckets. Each addition takes one place of the bucket's room, and when there is none left doubles the table unless expansion is stopped. |
| `HashTable.Table.Delete` | lib/uthash.h:227-260 | The element is gone, the order of the others kept, its bucket has a place more; the table goes with its last element. |
| `HashTable.Table.Expand` | lib/uthash.h:683-729 | Twice the buckets, same elements in the same order. The ideal length is the least that holds all; a bucket up to it has room to the threshold, a longer one to the threshold times one more than the ideal lengths it holds; ineffective expansions and the stop flag follow from the elements in excess. |
| `HashTable.TenOfOneValue` | lib/uthash.h:635-709 | Ten elements of one hash value at ideal length 1: the bucket takes ninety-nine more before the next doubling. |
| `HashTable.MultForBounds` | lib/uthash.h:705-709 | The multiplier counts the whole ideal lengths in a longer bucket, and is 0 for the others. |
| `MergeOrder.StableSort` | lib/uthash.h:736-821 | For any total preorder the list sort sorts, permutes, and keeps ties in order. |
| `MergeOrder.MergeStable` | lib/uthash.h:771-812 | Merging keeps ties of the first run before those of the second. |
| `MergeOrder.PassRuns` | lib/uthash.h:751-815 | A pass turns sorted runs into sorted runs of twice the length. |
| `HashSort.MergeRuns` | lib/uthash.h:767-812 | The relinking loop puts out the merge of the two runs and leaves the rest of the list linked. |
| `HashSort.OnePass` | lib/uthash.h:747-816 | One pass over the list, and at most one merge exactly when two runs hold everything. |
| `HashSort.Sort` | lib/uthash.h:736-821 | The table's list is sorted in place with head, tail and links consistent; buckets are untouched, and the doubling passes end. |

## Left out

- Bitmap.SimpleBitmap.constructor: a constructor returns no code, so the refusal of a null map and of size 0 is not there.
- BitmapShift.Shift: whole-block rotation and shifts that fill with ones are left out; the read below `base` in the right block shift is not made.
- BitmapShift.RotateRight: a map whose last block is full, where the source shifts by a negative amount.
- BitmapShift.RotateLeft: lengths and offsets for which the source reads before its first block or shifts by the width of a block.
- PartMap.PartMapRanged: bounds that are not refused and whose upper one is past the last column, where the source reads beyond the columns, are excluded (`InMatrix`, also in `LookupPartRanged`). For the empty needle the source may read one column past the last; the model does not read it.
- Layer2.L2Arr.Add: memory is always there, and layer 2 grows by one array at a time, the growth constant of the source.
- SubstringIndex.Index.AddString: models the calls as the linking code makes them, which never set `str_len`; it stays 0, so deletion leaves marks behind. The index stays correct (`DeleteKeepsCovers`); without stale marks only where lengths are recorded (`DeleteKeepsExact`).
- The index of entry ids: unlinking an entry does not touch its matrix. The index of section SHA-512 sums: src/ffp_database.c:2565 enters its strings into the matrix of the file sums. Both are outside the theorem about the index.
- ChildLookup.FindChildrenViaFileName: the table under the exact lookup is a map from names to records here; the hash table itself is the subject of HashTable.
- TransMap.TransMapToEntryMap: one level of items stands for the chains of file data and sections.
- Threading.LinkEntryForSaveFile: verify_entry is a given set of accepted entries.
- LoadTree.LoadEntries: verify_entry is a parameter on records. An entry is linked when all of it has been read, not as soon as its parent id is; a load that fails in between is abandoned. Spare room in child arrays is not kept.
- LoadFile.LoadBody: strings are taken as read; linking into the name, size, checksum and date structures is left out, and the conversion of broken-down times to and from `time_t`.
- SaveFile.SaveFile: opening and closing the file, and failures of `fwrite`. Numbers always fit the buffer, so the codes of writing them are not looked at again.
- BufferedFile.Reader.CopyBufToPtr: a C file without read errors; after a failed read the reader is not used again.
- BufferedFile.Writer.BufSeek: to places within the file, where `fseek` does not fail.
- RoundTrip.Save: an earlier list of a root that fails to verify still holds live entries only, linked both ways.
- LogicalPath.FindChildren: searches the child array; `ChildByName.FindChild` and `ChildById.FindChild` show the strategies of the source to give the same. Its answer to the empty text, nothing, is kept.
- ChildLookup.FindChildrenViaEntryIdPart: excluded is a search map that has to grow within its last block, where the source passes on a pointer it never set (`Growable`).
- LogicalPath.PathToDir: says nothing of the database pointer of the result when a relative path starts from a directory whose own pointers have not been set; the source leaves the old one there.
- Directory.PathRoundTrip: in file name mode an elided path may or may not lead somewhere; no claim.
- Fingerprint.FingerprintFile: with sections and the file size wanted; without any section option the source reads an uninitialised count of bytes. The content does not change while it is read, and digest functions are parameters.
- Fingerprint.ShortVerifiesIff: the tests that verify_entry makes of sections, not those of the other fields.
- HashTable.Table.Add: hash values are unbounded numbers that depend on the key alone, counters do not wrap, and the bloom filter, off in this program, is not there.
- HashLists.Handle: the value an element holds beside its handle, and other handles of the same element.
- The date-time tree, recursive deletion, copying of entries, terminal commands, searching by score, section compaction and `hex_str_to_bytes`.
