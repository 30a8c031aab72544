# mnoGoSearch: the index and its helpers

This project models the inverted index of mnoGoSearch and the self-contained algorithms around it, and proves what
they promise. Methods follow the C functions loop by loop; each is proved against a function or a relation, and the
lemmas say what that reference means.

**The index** (`Coord`, `Rows`, `Packer`, `RowChoice`, `Sections`, `RowHeader`, `UrlScan`, `RowState`, `Unpacker`,
`RowReader`, `ReadBack`, `RowTheorems`). Coordinates are written in a variable-length code. All postings of one (word, section) are
packed into one row, in one of seven formats chosen from statistics of the url ids; a reader with fast and slow
scanners, a url limit and a mode without coordinates restores them. `ReadBack` is the reader's main loop as a function
on arbitrary bytes; the main theorem says for every group that what is read back is the group if and only if three
conditions on it hold, and small witnesses show an input that fails each of them. `RowChoice` says of the url ids alone
which format a group gets, whether that saves bytes, and whether its last document comes back.

**From documents to rows** (`Order`, `ForwardRecord`, `ColumnParser`, `Columns`, `Transpose`, `Conversion`,
`IndexSearch`). A document's words are distributed over 32 columns by hash, sorted and encoded; a conversion reads all
columns of all documents, sorts 256 caches and writes rows. The end-to-end method stores documents, converts the
records and searches the table: every document that has the word and is let through, with exactly its positions.

**Live updates** (`UrlList`, `LiveIndex`). A table with record states new, converted and deleted overlays the index.
Over every run of storing, deleting and converting the tables hold the latest version of every document. Whether a
search shows it depends on how url limits are merged; when it does is stated as an equivalence.

**Phrases and section lengths** (`Phrase`, `SectionLength`), both in place over arrays, and **the word cache**
(`MultiCache`, `MultiPack`, `MultiConvert`, `MultiRows`) with its packing and its conversion to rows: for every row it
is stated exactly when a search reads the documents' positions from it.

**The guarded allocator** (`Slots`, `PageMath`, `Arena`, `Machine`, `ProtectFree`, `Efence`): a class whose invariant
says that the slots tile the memory obtained, that every live buffer lies in its own slot before an inaccessible page, that unused
slots are counted right and never run out while the slot table itself grows, and that free neighbours are always
joined. `Machine` is the allocator as a value: it gives the state after every call, the address of the next buffer and
the calls that abort, and the methods are proved to follow it. `ProtectFree` is the promise of EF_PROTECT_FREE over
every run: memory that was freed is never handed out again.

**Self-contained algorithms**: `Base64`, `Calendar` and `HttpDate`, `Duration`, `Crc32`, `Segmenter`.

Conventions: bytes are integers below 256, and shifts and masks of bytes are written as division and remainder; only
the CRC uses bit vectors. `UdmSort` is a sort by a total order, `UdmBSearch` a binary search or membership in a sorted
list; `UdmStrHash32` is a parameter. Errors, aborts and reads outside an array are results (`Abort`, `Bad`,
`OutOfBounds`), not preconditions.

Where the code differs from what its comments promise, the model follows the code:

- A row's last record in a delta format is not returned when it is shorter than six bytes; a six-byte header is taken
  for the older one when the two bytes behind the marker are zero; a variable delta of 0x200000 or more is dropped. In
  each case, and only then, other documents are read back than were packed; a misread count of ranges that is negative
  makes reading undefined.
- Merging an excluding url list with the list of deleted documents first unites and then subtracts, so deleted documents
  are found again, or, when all urls of the limit are marked deleted, the whole index is skipped.
- The comment on phrase parts promises all occurrences; exactly those are missed between whose parts another entry
  stands.
- `UdmRealloc` looks the old address up after the new buffer was made, so an address that was freed before is accepted
  exactly when the next buffer gets it.
- Positions that are zero or repeated cut a packed C string short, while their number still goes out with it: a search
  takes the missing codes from the next document's record and misreads the rest of the row.
- With guard pages below and empty buffers allowed the free of a live empty buffer is refused when an earlier slot, that
  is not allocated, starts where the guard page of the buffer ends.
- The offset of a date in the form of ISO 8601 is ignored, while the other forms take it off.
- Three-byte differences are said to pay from six documents on; with six the row is as long as the simple one. Coded
  differences are said to pay from three documents on; they pay exactly if the codes are short enough.
- In a date without a weekday whose month field is 00 the month is -1 and passes the checks.
- A dictionary word of frequency 0 makes the segmenter read its result at index -1.
- The simple base64 decoder looks for the end of the text between groups only.

## Model

| member | source | states |
|---|---|---|
| Coord.TryPutIff | mnogosearch-sources/src/dbmode-blob.c:871-905 | what is written is read back as the value; nothing is written exactly when no byte string that fits the room is read as it |
| Coord.PutIsRfc3629 | mnogosearch-sources/src/dbmode-blob.c:871-905 | length, lead and continuation bytes follow the layout of RFC 3629 section 3, the shortest form is chosen, and only zero is coded with a zero byte |
| Coord.GetPut | mnogosearch-sources/src/dbmode-blob.c:625-682 | reading inverts writing for every value below 0x200000, wherever the code lies and whatever follows it |
| Coord.PutGet | mnogosearch-sources/src/dbmode-blob.c:625-682 | writing inverts reading on arbitrary bytes: only the shortest code of a value is accepted |
| Coord.GetQuickIsGet | mnogosearch-sources/src/dbmode-blob.c:688-734 | the getter without end check agrees with the checked one where four bytes can be read |
| Coord.CodesInjective | mnogosearch-sources/src/dbmode-blob.c:625-905 | a concatenation of codes parses in exactly one way |
| Coord.CodesHaveNoZero | mnogosearch-sources/src/dbmode-blob.c:871-905 | codes of non-zero values contain no zero byte, so the forward record can be delimited by zero bytes |
| Coord.ScanStep | mnogosearch-sources/src/dbmode-blob.c:625-734 | at the start of a run of codes every getter finds the first value and leaves the rest |
| Coord.CoordSum | mnogosearch-sources/src/dbmode-blob.c:740-779 | the summing scanner, in its unchecked and its checked part, returns the sum of exactly n values and the place behind them |
| Coord.CoordSkip | mnogosearch-sources/src/dbmode-blob.c:787-834 | the skipping scanner, with and without its four-bytes-at-a-time path, ends behind exactly n codes |
| Coord.CoordLen | mnogosearch-sources/src/dbmode-blob.c:837-855 | the number of codes of a string: its end is found as the first zero byte, which codes of non-zero values do not contain |
| Rows.ChosenFormatFits | mnogosearch-sources/src/dbmode-blob.c:1287-1417 | whichever format the statistics choose is wide enough for every url_id or difference of the group; only for the variable delta this is a condition, stated on the url ids |
| Rows.ChosenHeaderReadable | mnogosearch-sources/src/dbmode-blob.c:1287-1417 | of the formats the statistics choose only three can have a header that is misread: the single range and the three-byte delta for a first url_id that is a multiple of 65536, the multi range for such a number of ranges |
| Rows.RunIsConsecutive | mnogosearch-sources/src/dbmode-blob.c:1211-1284 | a range covers consecutive url ids and ends where the next one is not consecutive |
| Packer.OneWordStat | mnogosearch-sources/src/dbmode-blob.c:924-957 | the statistics of the leading (word, section) group: smallest and largest url_id, largest difference, count |
| Packer.PackDoc | mnogosearch-sources/src/dbmode-blob.c:1076-1100 | one record: url_id in the format's width, count, coordinates; nothing is appended when a part has no code |
| Packer.PackSimple | mnogosearch-sources/src/dbmode-blob.c:974-997 | the uncompressed row is the records of the group one after another |
| Packer.PackDeltaFixed | mnogosearch-sources/src/dbmode-blob.c:1103-1154 | marker, optional offset, and records with fixed-width differences |
| Packer.PackDeltaVariable | mnogosearch-sources/src/dbmode-blob.c:1157-1180 | marker and records with coded differences |
| Packer.PackSingleRange | mnogosearch-sources/src/dbmode-blob.c:1183-1208 | marker, first url_id and count, and records without url ids |
| Packer.AppendRanges | mnogosearch-sources/src/dbmode-blob.c:1211-1284 | the range list is the maximal runs of consecutive url ids, in order |
| Packer.PackRangeMulti | mnogosearch-sources/src/dbmode-blob.c:1211-1284 | marker, patched number of ranges and range list, and records without url ids |
| Packer.PackOneWord | mnogosearch-sources/src/dbmode-blob.c:1287-1417 | the packer selects the format from the statistics, writes that row, and reports the size of the group |
| RowChoice.FormatIff | mnogosearch-sources/src/dbmode-blob.c:1287-1417 | which groups get which format, said of their number, first url_id, gaps and spread: an equivalence for each format |
| RowChoice.SimpleIsShortest | mnogosearch-sources/src/dbmode-blob.c:1287-1417 | with compression on, where the uncompressed row is chosen no row of fixed-width differences that fits the group is shorter |
| RowChoice.ChosenSaves | mnogosearch-sources/src/dbmode-blob.c:1298-1396 | ranges and two-byte differences are shorter than the uncompressed row, three-byte ones are not longer and shorter exactly from seven documents on, coded ones are shorter exactly if six bytes and the codes are fewer than four bytes a document |
| RowChoice.ReturnedIs | mnogosearch-sources/src/dbmode-blob.c:1864-1902 | how many documents of a group come back, said of its url ids and the bytes of its last record |
| RowHeader.HeaderReadBack | mnogosearch-sources/src/dbmode-blob.c:1733-1802 | the header of a packed row is read back as meant if and only if the two bytes behind the marker are not both zero; otherwise it is taken for the older eight-byte header |
| UrlScan.UrlStepCorrect | mnogosearch-sources/src/dbmode-blob.c:1909-1987 | in every format one step of the reader yields the url_id of record k and leaves the state for record k + 1, also across documents that are skipped |
| RowState.GuardIsReturned | mnogosearch-sources/src/dbmode-blob.c:1864-1902 | the end guard lets through exactly the records that are returned: all, except a last record of a delta format that is shorter than six bytes |
| RowState.ExpectedGrows | mnogosearch-sources/src/dbmode-blob.c:1805-1848 | the expected section count of a row leaves room for every record it holds |
| Unpacker.UnpackRestQuick | mnogosearch-sources/src/dbmode-blob.c:1625-1675 | away from the end of the row coordinates are restored without range checks, inside the slots allocated |
| Unpacker.UnpackRestChecked | mnogosearch-sources/src/dbmode-blob.c:1625-1675 | near the end of the row the same with range checks |
| Unpacker.UnpackMinMaxLen | mnogosearch-sources/src/dbmode-blob.c:1682-1729 | last position, section length and count without storing the coordinates between, with and without saved section size |
| Unpacker.UnpackFull | mnogosearch-sources/src/dbmode-blob.c:2012-2084 | every coordinate of a document is stored and the section describes them |
| Unpacker.UnpackSection | mnogosearch-sources/src/dbmode-blob.c:2012-2084 | one document of a row becomes its section, with or without coordinates |
| RowReader.IsActive | mnogosearch-sources/src/dbmode-blob.c:1975-1987 | a document is unpacked exactly when the including or excluding list lets it through |
| RowReader.LoopStep | mnogosearch-sources/src/dbmode-blob.c:1902-2010 | what holds before every record of the main loop, in every format, and that it holds before the next |
| RowReader.Unpack | mnogosearch-sources/src/dbmode-blob.c:1851-2094 | for every packed row exactly the sections and coordinates of the returned documents that the limit lets through, in order, inside the arrays allocated from the row's length |
| ReadBack.ReadRowOf | mnogosearch-sources/src/dbmode-blob.c:1851-2094 | the reader as a function on arbitrary bytes gives, for a packed row in the domain of its format, the postings packed, but for a short last delta record |
| ReadBack.MisreadSingleRange | mnogosearch-sources/src/dbmode-blob.c:1733-1802 | a single range whose header is misread gives other documents |
| ReadBack.MisreadDelta3 | mnogosearch-sources/src/dbmode-blob.c:1733-1802 | a three-byte delta row whose header is misread gives other documents |
| ReadBack.StaysAstray | mnogosearch-sources/src/dbmode-blob.c:1909-1930 | a range table read two bytes too late goes wrong at the end of its first range at the latest, however well it fits before |
| ReadBack.MisreadRangeMulti | mnogosearch-sources/src/dbmode-blob.c:1733-1802 | a multi range whose header is misread gives other documents, whatever its entries hold; the count read is negative exactly when the lower half of the first url_id is 0x8000 or more, and then reading is undefined |
| ReadBack.BodyOfRebased | mnogosearch-sources/src/dbmode-blob.c:1157-1180 | the bytes of a variable delta row that lost records are those of a smaller group, with the url ids that the differences written add up to |
| RowTheorems.PackThenUnpack | mnogosearch-sources/src/dbmode-blob.c:924-2094 | in the domain, packing a group with the chosen format and reading the row back under a limit gives the sections of its returned postings, which are also what the reference reading of the row gives |
| RowTheorems.StoredSectionTells | mnogosearch-sources/src/dbmode-blob.c:1682-2084 | of every stored section: its first and last shown position are the smallest and largest, the coordinates it points to are the positions, the length is the last one if lengths are saved, and word number, section and order are the caller's |
| RowTheorems.KeptPicks | mnogosearch-sources/src/dbmode-blob.c:1975-1987 | a limit keeps exactly the documents on an including list, or off an excluding one, or all if it is empty, in order |
| RowTheorems.LiteralDeltaRows | mnogosearch-sources/src/dbmode-blob.c:1103-1180 | the bytes of the rows of documents 1, 3 and 5 as coded, two-byte and three-byte differences |
| RowTheorems.LiteralRangeRows | mnogosearch-sources/src/dbmode-blob.c:1183-1284 | the bytes of the rows of documents 1, 2 and 3 as one range, and of 1, 2 and 5 as two |
| RowTheorems.RoundTripIff | mnogosearch-sources/src/dbmode-blob.c:924-2094 | for every group: what is read back is the whole group if and only if its header is told from the older one, every variable delta has a code, and the last record is not a short delta record |
| RowTheorems.LostRecord | mnogosearch-sources/src/dbmode-blob.c:1157-1180 | a group with a variable delta that has no code gives fewer documents back |
| RowTheorems.NothingDroppedIff | mnogosearch-sources/src/dbmode-blob.c:1157-1180 | the variable delta loses no record if and only if every difference has a code |
| RowTheorems.ChosenRowIsLong | mnogosearch-sources/src/dbmode-blob.c:1738-1744 | every row with a marker that the packer chooses is longer than the ten bytes the reader asks for before it looks for one |
| RowTheorems.LimitPushdown | mnogosearch-sources/src/dbmode-blob.c:1902-2010 | reading a row under a limit equals reading all of it and then filtering by url_id, in the sections and in the coordinates they point to |
| RowTheorems.NoLimitKeepsAll | mnogosearch-sources/src/dbmode-blob.c:1902-2010 | an empty url list lets every document through, including or excluding |
| RowTheorems.UnpackTwice | mnogosearch-sources/src/dbmode-blob.c:1851-2084 | of two readings of a row, one with the limit and one without, the first gives what filtering the second by url_id gives |
| RowTheorems.HeaderOnlyRefinesFull | mnogosearch-sources/src/dbmode-blob.c:1682-2084 | without coordinates every section has the same url_id, smallest and largest position, length and count as with them |
| RowTheorems.UnreadableHeaderExists | mnogosearch-sources/src/dbmode-blob.c:1733-1802 | four documents from 65536 on: the single range that is written does not give them back |
| RowTheorems.LostLastRecordExists | mnogosearch-sources/src/dbmode-blob.c:1864-1902 | documents 1, 3 and 5 with one occurrence each: exactly the first two are read back |
| RowTheorems.DroppedRecordExists | mnogosearch-sources/src/dbmode-blob.c:1163-1174 | three documents from 3000000 on: the first difference has no code, and fewer than three documents are read back |
| Order.SortProperties | mnogosearch-sources/src/dbmode-blob.c:264-269 | sorting gives a sorted permutation |
| Order.SortedIsUnique | mnogosearch-sources/src/dbmode-blob.c:264-269 | where only equal entries tie the result does not depend on the sorting algorithm |
| ForwardRecord.EncodeColumn | mnogosearch-sources/src/dbmode-blob.c:1497-1599 | the encoder's loop over one sorted list writes the reference record |
| ForwardRecord.EncSection | mnogosearch-sources/src/dbmode-blob.c:1497-1599 | a section is written as the codes of its position differences, with the step to the section length if that is saved |
| ForwardRecord.LiteralColumn | mnogosearch-sources/src/dbmode-blob.c:1497-1599 | the bytes of a column of two words in two sections |
| ColumnParser.CacheSet.Add2 | mnogosearch-sources/src/dbmode-blob.c:223-246 | entries without url_id, section or coordinates are refused, any other goes to the cache of its word |
| ColumnParser.ParseSection | mnogosearch-sources/src/dbmode-blob.c:3056-3096 | one section of a column yields its number and exactly its codes, and goes to the caches unless the section is not indexed |
| ColumnParser.ParseColumn | mnogosearch-sources/src/dbmode-blob.c:3035-3096 | reading a column back adds exactly the visible entries of the words it was written from, in order |
| Columns.ColumnIsReady | mnogosearch-sources/src/dbmode-blob.c:2292-2308 | the sorted words of a hash class are strictly increasing and have a real section |
| Columns.GapsGiveBackPositions | mnogosearch-sources/src/dbmode-blob.c:1497-1599 | the running sums of a section's differences are its positions, then its length |
| Columns.EntriesSayTheColumn | mnogosearch-sources/src/dbmode-blob.c:1497-1599 | every entry of a column spells out exactly the positions of its word and section; every word has an entry; none has two |
| Transpose.Distribute | mnogosearch-sources/src/dbmode-blob.c:2387-2428 | each of the 32 lists receives exactly the words of its hash class, in order; words of section 0 go nowhere |
| Transpose.StoreWords | mnogosearch-sources/src/dbmode-blob.c:2363-2440 | no record for a document without words; otherwise the stored columns are the encodings of the sorted lists |
| Transpose.StoreDocuments | mnogosearch-sources/src/dbmode-blob.c:2363-2440 | one record, in order, for every document that has words |
| Transpose.ConvertOneColumn | mnogosearch-sources/src/dbmode-blob.c:3035-3096 | one column of all listed documents goes to the caches, nothing else |
| Transpose.WriteCache | mnogosearch-sources/src/dbmode-blob.c:3575-3649 | a sorted cache is written as one row per (word, section) |
| Conversion.ColumnLogProperties | mnogosearch-sources/src/dbmode-blob.c:3035-3096 | what the caches received is sound, complete for the listed documents, and holds no posting twice |
| Conversion.EveryPostingInExactlyOneRow | mnogosearch-sources/src/dbmode-blob.c:3850-3903 | one row per (word, section); every entry says exactly what one listed document says; every indexed word of a listed document has its entry in exactly one row |
| IndexSearch.Convert | mnogosearch-sources/src/dbmode-blob.c:3850-3903 | the full conversion writes the rows of all groups of all 32 columns |
| IndexSearch.FindWord | mnogosearch-sources/src/dbmode-blob.c:2607-2711 | a search of the converted table for a word in a section returns one posting per listed document that has it, with exactly its positions, narrowed by the limit; with compression on, if the group searched is in the domain of its format, all but the last one exactly where that record is a short difference |
| IndexSearch.IndexAndFind | mnogosearch-sources/src/dbmode-blob.c:2363-3903 | storing documents, converting the records and searching: every section returned has the smallest and largest position of the word in a listed document, all of them with coordinates, and that document's section length; every document sought is returned, except the one with the largest url_id where the last record is lost |
| UrlList.List.Join | mnogosearch-sources/src/urlidlist.c:53-75 | the urls the other list does not let through are squeezed out, and an emptied list is marked empty |
| UrlList.List.Merge | mnogosearch-sources/src/urlidlist.c:105-132 | the new list in every case of the merge |
| UrlList.MergeIsIntersectionIff | mnogosearch-sources/src/urlidlist.c:105-132 | merging two limits is intersecting them, except exactly when the narrowed list excludes, the other one has urls, and the other one excludes too or the narrowed one has urls |
| UrlList.ExcludingMerged | mnogosearch-sources/src/urlidlist.c:105-132 | two excluding lists: the merged one is emptied exactly when every url of the first is in the second, and otherwise lets through what the first does and all urls of the second |
| UrlList.RestrictKeepsOrder | mnogosearch-sources/src/urlidlist.c:53-75 | squeezing out keeps a list sorted, as the binary searches need it |
| UrlList.UnionIsSorted | mnogosearch-sources/src/urlidlist.c:78-91 | a union with a list that has urls is sorted, whatever the first list was |
| LiveIndex.Tables.DeleteWords | mnogosearch-sources/src/dbmode-blob.c:2097-2115 | exactly the document's new record goes and its converted record is marked deleted; the index does not change, and the invariant is kept |
| LiveIndex.Tables.Store | mnogosearch-sources/src/dbmode-blob.c:2363-2401 | the stored version of this document changes, no other |
| LiveIndex.IndexedPicks | mnogosearch-sources/src/dbmode-blob.c:2387-2416 | what is stored of a document are exactly its words in real sections, each as often as it has it, in order |
| LiveIndex.FoundPicks | mnogosearch-sources/src/dbmode-blob.c:2740-2771 | what is found are exactly the hits of the word, in order |
| LiveIndex.StoreAndSearch | mnogosearch-sources/src/dbmode-blob.c:2363-2771 | after a document was stored a search without a limit returns exactly its hits of the word in real sections, in order |
| LiveIndex.Tables.Convert | mnogosearch-sources/src/dbmode-blob.c:3850-3903 | a full conversion keeps every stored version; exactly the documents that are not listed disappear from searches |
| LiveIndex.Tables.Truncate | mnogosearch-sources/src/dbmode-blob.c:4015-4024 | both tables are empty and no version is left |
| LiveIndex.AtMostOneLive | mnogosearch-sources/src/dbmode-blob.c:2311-2358 | two records of one document are a deleted and a new one |
| LiveIndex.VisibleIsLatest | mnogosearch-sources/src/dbmode-blob.c:2311-2376 | the index minus deleted documents plus new records is the latest version of every document |
| LiveIndex.DeleteKeeps | mnogosearch-sources/src/dbmode-blob.c:2097-2115 | the state table's invariant survives a deletion |
| LiveIndex.InsertKeeps | mnogosearch-sources/src/dbmode-blob.c:2118-2150 | the invariant survives the insertion of a new record |
| LiveIndex.ConvertKeeps | mnogosearch-sources/src/dbmode-blob.c:4121-4130 | the invariant survives the clean-up after a full conversion |
| LiveIndex.Tables.LoadDeleted | mnogosearch-sources/src/dbmode-blob.c:2739-2760 | the excluding list is sorted and holds exactly the documents marked deleted |
| LiveIndex.Tables.FindInNew | mnogosearch-sources/src/dbmode-rawblob.c:47-141 | exactly the hits of new records that the limit lets through are added |
| LiveIndex.Tables.Search | mnogosearch-sources/src/dbmode-blob.c:2739-2771 | what a search with live updates returns of every document, and when that is the latest version of exactly the documents the limit allows |
| LiveIndex.SearchIsLatestIff | mnogosearch-sources/src/dbmode-blob.c:2739-2771 | a search shows the latest versions if and only if the limit includes or nothing is marked deleted, or the merged list was emptied and the index has no hit of an allowed document that is not deleted, or it was not and the index has no hit of a deleted document |
| LiveIndex.DeletedIsFound | mnogosearch-sources/src/urlidlist.c:105-132 | stored, converted, deleted: with an excluding limit the document is still found |
| LiveIndex.IndexIsSkipped | mnogosearch-sources/src/urlidlist.c:105-132 | two documents stored and converted, one deleted: a search that excludes the deleted one does not find the other |
| LiveIndex.CompleteListsShowAll | mnogosearch-sources/src/dbmode-blob.c:3850-3903 | when every conversion lists a document, what is shown of it is what was stored last |
| LiveIndex.Run | mnogosearch-sources/src/dbmode-blob.c:2311-2376 | over every run of storing, deleting, converting and truncating the tables show the version stored last, as far as conversions listed it |
| Phrase.MergeMultiWord | mnogosearch-sources/src/coords.c:48-105 | the overwriting loop leaves exactly the starts of the matching runs of the original list, and the tail of the array untouched |
| Phrase.Matches | mnogosearch-sources/src/coords.c:68-92 | the tests of one step decide whether the parts of one occurrence end there; none of the entries read was overwritten |
| Phrase.StartsSorted | mnogosearch-sources/src/coords.c:48-105 | the result is sorted as the list was |
| Phrase.ReportedIff | mnogosearch-sources/src/coords.c:48-105 | of any list, with parts numbered consecutively: an occurrence is reported if and only if its parts are neighbours in order |
| Phrase.SortedReportedIff | mnogosearch-sources/src/coords.c:48-105 | of a sorted list: if and only if no other entry stands between its first and last part |
| Phrase.AllReportedIff | mnogosearch-sources/src/coords.c:48-105 | all occurrences are reported if and only if no other entry stands between the parts of any |
| Phrase.ResultIsOccurrences | mnogosearch-sources/src/coords.c:48-105 | with consecutively numbered parts and one entry per position the result is exactly the set of phrase occurrences |
| Phrase.RepeatedWordIsMissed | mnogosearch-sources/src/coords.c:48-105 | with two parts at one position an occurrence can be missed |
| Phrase.ToSectionList | mnogosearch-sources/src/coords.c:112-169 | one section per run of a url and section, with its positions, smallest and largest position and length |
| Phrase.SectionsTellRuns | mnogosearch-sources/src/coords.c:112-169 | every section has the positions of one maximal run; if they do not fall its first and last are the smallest and largest |
| Phrase.ToCoords | mnogosearch-sources/src/coords.c:202-242 | the coordinates of all sections, one after another |
| Phrase.SectionsGiveBack | mnogosearch-sources/src/coords.c:112-242 | grouping coordinates into sections and listing them again gives the list back |
| SectionLength.CompactLengths | mnogosearch-sources/src/dbmode-single.c:380-411 | the two-pointer loop in place computes the compacted list |
| SectionLength.CompactedAre | mnogosearch-sources/src/dbmode-single.c:380-411 | on a grouped list exactly the last entry of every section goes, and every other entry gets its position as section length |
| SectionLength.CompactInvertsMarking | mnogosearch-sources/src/dbmode-single.c:380-411 | compacting inverts the storing of section lengths as last positions |
| MultiCache.AddSection | mnogosearch-sources/src/dbmode-multi.c:123-148 | the word's sorted list gets the position, no other word changes |
| MultiCache.AddUrl | mnogosearch-sources/src/dbmode-multi.c:150-173 | the same one level up |
| MultiCache.AddTable | mnogosearch-sources/src/dbmode-multi.c:175-199 | the same for the urls of a table |
| MultiCache.Cache.Add | mnogosearch-sources/src/dbmode-multi.c:201-227 | adding changes exactly one lookup, and over every run a lookup is the sorted multiset of the positions added, cut to 21 bits; keys stay distinct on every level |
| MultiCache.MaskedIsLowBits | mnogosearch-sources/src/dbmode-multi.c:126-126 | a position up to 0x1FFFFF keeps its value, of a larger one the low 21 bits are left |
| MultiCache.LookupIsCalled | mnogosearch-sources/src/dbmode-multi.c:123-227 | over every run with positions the indexer counts a lookup is the sorted multiset of the positions themselves |
| MultiPack.PutIntag | mnogosearch-sources/src/dbmode-multi.c:459-500 | the codes of the differences, or no string for an empty, falling or too widely spaced list |
| MultiPack.Unpack | mnogosearch-sources/src/dbmode-multi.c:351-384 | the running sums, the last one as section length if that is saved |
| MultiPack.SeenIsShown | mnogosearch-sources/src/dbmode-multi.c:351-384 | what a search sees are the sums of the differences, as many as a row shows, and with lengths saved the last sum as length beside each |
| MultiPack.PackedIsReadBackIff | mnogosearch-sources/src/dbmode-multi.c:351-500 | packed as a C string and read back a list comes back if and only if no position is zero or repeated; a prefix comes back always |
| MultiConvert.Convert | mnogosearch-sources/src/dbmode-single.c:549-571 | the blob cache holds one entry for every word in a section of a listed document, if url_id and section are not 0, and nothing else |
| MultiConvert.EntryCarriesIff | mnogosearch-sources/src/dbmode-single.c:563-567 | an entry carries exactly its positions if none is zero or repeated; otherwise it holds fewer codes than the count it announces |
| MultiConvert.ReadsBackIff | mnogosearch-sources/src/dbmode-single.c:537-571 | the same for the positions that were added to the cache, in any order |
| MultiConvert.BlobCache.Add | mnogosearch-sources/src/dbmode-blob.c:128-223 | entries without a url_id, section or count are refused, others are appended |
| MultiRows.ReadingTakes | mnogosearch-sources/src/dbmode-blob.c:1905-2084 | no reading of any bytes takes more of them than the records that say what was read |
| MultiRows.OnlyStrictIsSaid | mnogosearch-sources/src/dbmode-blob.c:1733-2084 | no row with a zero or repeated position is read as its documents with their positions, whatever its header is taken for |
| MultiRows.RowSaysIff | mnogosearch-sources/src/dbmode-blob.c:1076-1100 | what a search reads from a group's row is every document with its positions if and only if no position is zero or repeated, the url_ids are recoverable and no short last record is held back |
| MultiRows.RepeatedPositionMisleads | mnogosearch-sources/src/dbmode-blob.c:1076-1100 | position 5 twice in document 1 and position 7 in document 2: the row says positions 5 and 7 of document 1, and document 2 is gone |
| MultiRows.ConvertToBlob | mnogosearch-sources/src/dbmode-single.c:493-570 | one row per word and section; the rows hold every word of every listed document once, with the positions that were added, and each is read as these exactly under the condition |
| Slots.FindFit | mnogosearch-sources/src/efence.c:531-559 | the scan returns a smallest free slot that is large enough and the first two unused slots |
| Slots.AddRegion | mnogosearch-sources/src/efence.c:563-590 | new memory in an empty slot keeps the slots tiling exactly the memory obtained |
| Slots.Split | mnogosearch-sources/src/efence.c:614-622 | so does cutting a slot in two |
| Slots.Merge | mnogosearch-sources/src/efence.c:799-815 | and joining two neighbours |
| PageMath.RoundUpIsMultiple | mnogosearch-sources/src/efence.c:495-508 | the rounding idiom reaches the next multiple |
| Arena.LookupFindsOwner | mnogosearch-sources/src/efence.c:688-701 | a user address is that of one slot, or of an empty buffer behind its guard page and the slot that starts there |
| Arena.OneLiveOwner | mnogosearch-sources/src/efence.c:688-701 | no two live buffers have the same address |
| Arena.LookupSucceedsIff | mnogosearch-sources/src/efence.c:688-701 | the first slot with an address is a live buffer if and only if there is one and no earlier slot that is not allocated has its address |
| Arena.ShadowedIff | mnogosearch-sources/src/efence.c:646-701 | a live buffer is hidden from its own address if and only if its guard page lies below it, it is empty, and an earlier slot that is not allocated starts behind it with that address |
| Arena.LiveBuffersAreSafe | mnogosearch-sources/src/efence.c:448-469 | live buffers lie apart, accessible, never among freed memory, and end at the start of an inaccessible page (or begin behind one) |
| Arena.AddressInOwnSlotIff | mnogosearch-sources/src/efence.c:646-672 | a buffer's address lies in its own slot except for an empty buffer behind its guard page, whose address is the next slot's |
| Arena.BumpSystem | mnogosearch-sources/src/efence.c:582-586 | a system that hands out rising page-aligned addresses meets the assumptions on memory creation |
| Machine.ScanSupplies | mnogosearch-sources/src/efence.c:526-591 | the scan finds the first of the smallest free slots that are large enough, or the first empty slot takes a new chunk |
| Machine.ChunkSizeIs | mnogosearch-sources/src/efence.c:563-570 | new memory is the smallest multiple of a page that holds the buffer and ten megabytes |
| Machine.AcceptedIff | mnogosearch-sources/src/efence.c:740-774 | exactly the addresses of live buffers are accepted that no earlier slot hides |
| Machine.LiveBufferIsRefused | mnogosearch-sources/src/efence.c:470-774 | a run of seven calls with guard pages below and empty buffers allowed: six are carried out, the seventh frees the live buffer that the fifth returned and is refused |
| Machine.FirstBufferFreed | mnogosearch-sources/src/efence.c:740-824 | freeing the first buffer of a fresh arena restores the fresh arena exactly |
| Machine.FreedAddressIsReallocated | mnogosearch-sources/src/efence.c:826-871 | of malloc, free and realloc of the freed address on a fresh arena no call is refused, and the address is live at no point after the free |
| Efence.Allocator.constructor | mnogosearch-sources/src/efence.c:279-412 | the arena starts with the slot table and one free slot, and is valid |
| Efence.Allocator.Carve | mnogosearch-sources/src/efence.c:540-671 | best fit, splitting or new memory; no other live slot changes and at most two unused slots are taken |
| Efence.Allocator.ArrangePages | mnogosearch-sources/src/efence.c:624-668 | exactly the guard page of the new slot is inaccessible |
| Efence.Allocator.AllocateMoreSlots | mnogosearch-sources/src/efence.c:418-446 | the table moves to a larger buffer through the allocator itself, keeping the live buffers, and leaves at least seven unused slots; the new state is that of the reference |
| Efence.Allocator.Memalign | mnogosearch-sources/src/efence.c:470-683 | abort exactly for zero bytes where those are not allowed; otherwise a new buffer joins the live ones, of the bytes asked for or, with the guard page above, of the next multiple of the alignment, in an interval with no page too many; the first aligned address behind it is closed; best fit in the table after it grew if it had to, and at least five unused slots remain; the internal errors are unreachable |
| Efence.Allocator.JoinPrevious | mnogosearch-sources/src/efence.c:795-807 | joining to the slot below leaves no free slot below |
| Efence.Allocator.JoinNext | mnogosearch-sources/src/efence.c:808-815 | joining to the slot above leaves no free slot above |
| Efence.Allocator.UdmFree | mnogosearch-sources/src/efence.c:740-824 | exactly addresses of live buffers are accepted that no earlier slot hides; the buffer leaves the live ones, its memory is closed, and free neighbours are joined |
| Efence.Allocator.UdmRealloc | mnogosearch-sources/src/efence.c:826-871 | the new buffer holds the old bytes and then zeros, and replaces the old one; abort exactly for zero bytes that are not allowed, and for an address that is hidden or is neither live nor that of the next buffer |
| Efence.Allocator.Step | mnogosearch-sources/src/efence.c:470-871 | for any call: exactly when it aborts, which state it leads to, and which buffer, of which size and at which address, joins or leaves the live ones; with EF_PROTECT_FREE one that leaves is locked |
| Efence.Allocator.Run | mnogosearch-sources/src/efence.c:470-871 | every run is carried out up to the first call that is refused; the arena stays valid, and each call on the way has its effect on the live buffers |
| ProtectFree.NextLocks | mnogosearch-sources/src/efence.c:112-123 | with EF_PROTECT_FREE no call unlocks memory that was freed, and the buffer that goes is locked with its guard page |
| ProtectFree.LiveIsNotLocked | mnogosearch-sources/src/efence.c:112-123 | no live buffer lies in locked memory |
| Efence.LockedForGood | mnogosearch-sources/src/efence.c:112-123 | over every run with EF_PROTECT_FREE memory that was freed is never handed out again |
| Efence.ReallocateFreed | mnogosearch-sources/src/efence.c:826-871 | allocate, free, reallocate the freed address: the program is not stopped and gets an address at which no buffer is live |
| Efence.FreeLiveBuffer | mnogosearch-sources/src/efence.c:470-774 | the allocator carries out six of those seven calls and stops at the free of a live buffer |
| Base64.CharsAndValues | mnogosearch-sources/src/base64.c:24-264 | the encoding alphabet and the decoding map invert each other |
| Base64.AlphabetIsRfc4648 | mnogosearch-sources/src/base64.c:24-264 | the alphabet is table 1 of RFC 4648, the pad is the equals sign, and which characters are spaces |
| Base64.EncodeBytes | mnogosearch-sources/src/base64.c:140-173 | the loop computes the padded encoding of RFC 4648 section 4 |
| Base64.GroupIsBigEndian | mnogosearch-sources/src/base64.c:140-173 | the four characters of a group are its 24 bits, six at a time, the highest first |
| Base64.TestVectors | mnogosearch-sources/src/base64.c:140-173 | the test vectors of RFC 4648 section 10 |
| Base64.FromBase64.SkipSpaces | mnogosearch-sources/src/base64.c:300-312 | spaces are skipped, and the end of the text inside a group is an error |
| Base64.FromBase64.Getch | mnogosearch-sources/src/base64.c:348-398 | which characters are accepted at each place of a group, what they add, and which are errors |
| Base64.Base64Decode | mnogosearch-sources/src/base64.c:419-463 | the streaming decoder returns the value of the text without its spaces, or an error exactly when it has none |
| Base64.AcceptsWellFormed | mnogosearch-sources/src/base64.c:419-463 | with one chunk exactly well-formed text is accepted: whole groups of the alphabet, at most two pads at the very end |
| Base64.AcceptsWholeGroups | mnogosearch-sources/src/base64.c:419-463 | where several chunks are allowed exactly the texts of whole groups are accepted, each of which may end in pads |
| Base64.DecodeInvertsEncode | mnogosearch-sources/src/base64.c:140-463 | decoding inverts encoding |
| Base64.ChunksConcat | mnogosearch-sources/src/base64.c:443-451 | with several chunks allowed decoding a concatenation concatenates |
| Base64.SpacedChunks | mnogosearch-sources/src/base64.c:419-463 | and spaces may stand anywhere |
| Base64.SimpleDecode | mnogosearch-sources/src/base64.c:197-216 | three bytes for every four characters; the text is read to behind its end exactly when it is not whole groups and the length counts more groups than it has |
| Base64.SimpleDecodeOfEncode | mnogosearch-sources/src/base64.c:140-216 | on encoded text these are the input and a zero byte for every pad |
| Calendar.FormulaIsDayNumber | mnogosearch-sources/src/date.c:236-257 | the closed formula on years from March counts days one by one from the epoch |
| Calendar.SecondsAreCounted | mnogosearch-sources/src/date.c:236-265 | with a 64-bit time_t the conversion is 86400 seconds a day and the time of day, for every real date from 1970 on |
| Calendar.AcceptsRealDates | mnogosearch-sources/src/date.c:523-543 | with month number 1 or more the checks accept exactly the real Gregorian dates, but for 29 February of multiples of 400 before 1900 |
| HttpDate.CheckMask | mnogosearch-sources/src/date.c:182-223 | a text passes if and only if it fits the mask, a star swallowing the rest |
| HttpDate.ScanMonthName | mnogosearch-sources/src/date.c:316-324 | the number of the month of this name, 12 for none |
| HttpDate.MonthNames | mnogosearch-sources/src/date.c:302-324 | the twelve names and their numbers |
| HttpDate.HttpDateToTime | mnogosearch-sources/src/date.c:387-555 | the parser computes the meaning of the text, form by form |
| HttpDate.ThreeFormsAgree | mnogosearch-sources/src/date.c:339-386 | the three forms of RFC 9110 section 5.6.7 of one instant from 1970 to 2069 mean the same: days counted from the epoch and the time of day |
| HttpDate.OffsetIsTakenOff | mnogosearch-sources/src/date.c:327-337 | in both forms with a zone an offset east of Greenwich is taken off, one to the west added |
| HttpDate.ShortDayForm | mnogosearch-sources/src/date.c:478-489 | a day of one digit is read as the form with two |
| HttpDate.IsoOffsetIsIgnored | mnogosearch-sources/src/date.c:422-442 | yyyy-mm-ddThh:mm:ss with Z, a fraction or an offset: always the time as of Greenwich |
| HttpDate.DottedDateValue | mnogosearch-sources/src/date.c:410-421 | dd.mm.yyyy means the same as yyyy-mm-dd |
| HttpDate.TimestampValue | mnogosearch-sources/src/date.c:443-450 | ten digits are the seconds in decimal, if they fit |
| HttpDate.IsoDateValue | mnogosearch-sources/src/date.c:400-409 | yyyy-mm-dd with month 1 or more: the first second of a real date, and no date otherwise |
| HttpDate.OutOfBoundsIff | mnogosearch-sources/src/date.c:387-555 | exactly the dates without a weekday in one of the three forms whose month field is 00 while the other fields are accepted, and timestamps of 2^31 or more, have no value |
| HttpDate.MonthZeroReadsOutside | mnogosearch-sources/src/date.c:400-409 | yyyy-00-dd is such a date for every year from 1970 and every day number |
| Duration.DurationToSeconds | mnogosearch-sources/src/date.c:584-642 | the loop computes the value of the text |
| Duration.SecondsOfWritten | mnogosearch-sources/src/date.c:584-642 | a written list of numbers with units is read as its total |
| Duration.UnitsAre | mnogosearch-sources/src/date.c:584-642 | a minute is 60 seconds, an hour 60 minutes, a day 24 hours, a month 30 days, a year 365; no other letter is a unit, and a number alone is seconds |
| Duration.SignedNumber | mnogosearch-sources/src/date.c:584-642 | a sign and spaces may stand before a number |
| Duration.MixedIsRefused | mnogosearch-sources/src/date.c:584-642 | a number without unit behind one with a unit is an error |
| Crc32.TableIsSerial | mnogosearch-sources/src/crc32.c:21-88 | every table entry is what eight single-bit steps make of its index |
| Crc32.StepIsSerial | mnogosearch-sources/src/crc32.c:15-15 | the table step equals eight single-bit steps of the polynomial on the register mixed with the byte |
| Crc32.UdmCrc32 | mnogosearch-sources/src/crc32.c:90-98 | the checksum of RFC 1952 section 8, computed bit by bit |
| Crc32.CheckValue | mnogosearch-sources/src/crc32.c:90-98 | the checksum of 123456789 is 0xCBF43926 |
| Crc32.Update | mnogosearch-sources/src/crc32.c:100-108 | continuing a checksum over a second part gives the checksum of both; from 0 it is the checksum |
| Crc32.UpdateContinues | mnogosearch-sources/src/crc32.c:90-108 | the same as a statement about all splits of all messages |
| Crc32.UpdateStr | mnogosearch-sources/src/crc32.c:111-119 | the bytes up to the terminating zero |
| Crc32.UpdateUnicode | mnogosearch-sources/src/crc32.c:122-136 | two bytes of every character, high byte first |
| Crc32.BytesOfCharacter | mnogosearch-sources/src/crc32.c:122-136 | the two bytes are the low 16 bits of the character |
| Segmenter.ChineseList.FindWord | mnogosearch-sources/src/chinese.c:94-107 | the loop of the binary search computes its reference |
| Segmenter.FindIsMembership | mnogosearch-sources/src/chinese.c:94-107 | in a sorted dictionary the lookup accepts exactly the words |
| Segmenter.ChineseList.AddWord | mnogosearch-sources/src/chinese.c:109-135 | word, total and length table after an addition at the end |
| Segmenter.AddKeeps | mnogosearch-sources/src/chinese.c:109-135 | an addition keeps the length table a bound of every word and the total the sum of the frequencies |
| Segmenter.ChineseList.Load | mnogosearch-sources/src/chinese.c:137-172 | loading adds every word and sorts: the dictionary holds exactly the words, in order, and its table bounds them |
| Segmenter.SortedIsStrict | mnogosearch-sources/src/chinese.c:71-77 | a sorted dictionary without repeated words is what the lookup needs |
| Segmenter.ChineseList.NextToken | mnogosearch-sources/src/chinese.c:225-253 | the longest prefix the lookup accepts, or one character that becomes a word |
| Segmenter.PickIsLongestWord | mnogosearch-sources/src/chinese.c:225-253 | from a sorted dictionary the token is the longest word the rest starts with, or one character |
| Segmenter.OpenPaths.TakeFirstOpen | mnogosearch-sources/src/chinese.c:206-219 | the first path that is not at the end is unlinked from the array-linked list |
| Segmenter.OpenPaths.Insert | mnogosearch-sources/src/chinese.c:255-310 | the new path goes to the end, or replaces the first one of its position together with all behind it, or is left out when that one is worth as much; the arrays get its values |
| Segmenter.SegmentProcess | mnogosearch-sources/src/chinese.c:175-329 | the list holds at most one path, so the result is greedy; a found word of frequency 0 leaves none and the result is read outside its array |
| Segmenter.GreedySpellsLine | mnogosearch-sources/src/chinese.c:255-266 | the result is the tokens with a space before each, and the tokens are the line |
| Segmenter.RemovingSpacesGivesLine | mnogosearch-sources/src/chinese.c:255-266 | removing the spaces gives back the line |
| Segmenter.SegmentsEveryLineIff | mnogosearch-sources/src/chinese.c:175-329 | from a sorted dictionary every line, copied or searched, is segmented if and only if no word has frequency 0 |
| Segmenter.AsciiIsCopied | mnogosearch-sources/src/chinese.c:175-200 | a line that starts with an ASCII character comes back as it is |
| Segmenter.FailingLine | mnogosearch-sources/src/chinese.c:255-329 | the line that fails for a word of frequency 0, also if the word starts in ASCII |

## Left out

- SQL text, escaping, table locking and renaming, and the atomicity of conversion: tables are values and every database operation is one step.
- Compression of rows with zlib and the zint4 lists of url data.
- `UdmStrHash32` and character classes: the hash is an arbitrary function, character classes are those of the C locale.
- Malformed or truncated index bytes: the readers are modelled on rows that the packers write; the codec alone is modelled on all bytes.
- The experimental conversion with word pairs, word distances and delta tables, and the partial conversion.
- The section number in a search of the raw table, which is read behind the record; live search is modelled per document, word and position.
- Phrase.MergeMultiWord: says nothing about the section length of a match, because the code leaves the old entry's.
- LiveIndex.Tables.Search: weights of sections and the restriction to one section are not modelled, because both only filter the hits.
- Columns.EntriesSayTheColumn: assumes of a document what the indexer guarantees (positions from 1 to 0x1FFFFF, no word twice at one position) and, where section lengths are saved, that the step from a word's last position to the length is below 0x200000 and that no word stands at all 0x1FFFFF positions of a section, because the encoder has no code for other steps and counts.
- RowTheorems.PackThenUnpack: requires a readable header and, for the variable delta, differences below 0x200000; what is read of other rows is stated about the reference reading of the main loop (ReadBack.ReadRow), with coordinates and without a limit, not about the method with its arrays.
- ReadBack.ReadRowOf: bytes that udm_coord_get skips without setting its result, and reads behind the row, end the reference reading as undefined, because the code then uses a variable that was never set.
- IndexSearch.FindWord: with compression on it requires that domain of the group searched; a short last delta record is not among what it returns, because the reader drops it.
- Efence.Allocator.Memalign: sizes do not wrap around at 2^64, a page holds at least seven slots, EF_FILL, threads and failing system calls are not modelled, and the free rest of a chunk created later is not claimed inaccessible, because nothing closes it.
- Efence.Allocator.UdmFree: the arena is initialised when it is constructed, so the abort for a free before the first allocation is not modelled.
- Efence.Allocator.UdmRealloc: a refused call may read closed memory when it copies, before the address is refused; either way the result is the abort.
- MultiRows.ConvertToBlob: listed url_ids are below 0x80000000, because urlid_t is signed; section lengths are not part of the rows, because this conversion writes none.
- Duration.DurationToSeconds: the saturation of strtol at the range of long is not modelled.
- HttpDate.HttpDateToTime: a timestamp beyond the range of int has no value, because atoi does not define one.
- Segmenter.ChineseList.Load: starts from the words read; lines, comments and character sets of the dictionary file are not modelled.
- Segmenter.SegmentProcess: the growth of the path arrays is not modelled; the dictionary is not sorted again after unknown characters were added, so statements on words hold for the sorted dictionary.
- MultiCache.Cache.Add: failing allocations are not modelled.
- Word distance scoring, ranking, excerpts, configuration, protocols, bindings, logging and timers.
