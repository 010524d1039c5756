# Exif directory codec of GPSBabel's exif module, in Dafny

This project models the part of GPSBabel's `exif.cc` that reads, edits
and rewrites the TIFF image inside a JPEG APP1 "Exif" segment:

- the field-type table (`exif_type_size`, the BYTE/WORD/LONG type classes);
- the reader: `exif_examine_app`'s header checks, `exif_read_app` and
  `exif_read_ifd`, with the sub-directory pointers captured while reading;
- the lookups `exif_find_ifd` and `exif_find_tag`;
- the edits `exif_put_value`, `exif_put_long`, `exif_put_str` and
  `exif_remove_tag`;
- the writer: `exif_ifd_size`, `exif_write_value` and `exif_write_ifd`;
- the layout part of `exif_write_apps`:
  - the GPS tags put in place;
  - directories sorted by number;
  - sub-directory pointers set to the offset the 16-bit running `len` reaches;
  - the thumbnail offset updated;
  - entries sorted by id;
  - the image written: header, directories, four zero bytes, thumbnail;
- `exif_gcd` and the reduction step of `exif_dec2frac`;
- the short name a waypoint gets from a file name.

Bytes are the subset type `byte` of `int`. The host is taken to be
little-endian. A file in "MM" order is converted by reversing every unit
of the field's width (`Bytes.Reorder`, its own inverse). A directory list
(`App`) replaces the global `exif_app`. Every operation is a pure
function over immutable values:

- a fatal error in the source is a `Fatal` outcome;
- a C++ integer that wraps is reduced explicitly: the 16-bit `len`,
  entry count and put size, and the 32-bit product of width and count.

The main results are these.

- Reading back: what `exif_write_ifd` writes reads back with
  `exif_read_ifd` as the same entries. Each out-of-line payload is found at
  the offset the writer assigned it (`RoundTrip.WriteThenRead`).
- Layout: in the image `exif_write_apps` writes, every sub-directory
  pointer, the thumbnail offset and IFD0's next pointer name the position
  where the written bytes actually are, for directories whose out-of-line
  payloads are of the types the writer emits (codes 1 to 13) (`LayoutFacts.PointersLocate`,
  `LayoutFacts.ThumbnailLocates`, `LayoutFacts.NextLocates`,
  `LayoutFacts.TiffDirectoryAt`).
- Edits: every put changes exactly the looked-up entry and leaves every
  other lookup alone. The put grows an entry by the corrected rule of
  Findings row 2; the put as written is modelled beside it, and
  `MutationFacts.PutAsWrittenDiffers` pins down where the two differ.

## Model

| member | source | states |
|---|---|---|
| FieldTypes.TypeSize | exif.cc:213-251 | Width exists exactly for codes 1..18 and is 1, 2, 4 or 8; any other code is the "Unknown data type" fatal error |
| FieldTypes.TypeSizeTable | exif.cc:217-245 | The whole width table, code by code, and no width outside 1..18 |
| FieldTypes.TypeClassesAgree | exif.cc:89-91 | BYTE_TYPE codes are exactly the width-1 codes; WORD_TYPE codes have width 2, LONG_TYPE codes width 4, rationals width 8; an inline encoder's unit is the type's width |
| FieldTypes.PayloadUnitDividesWidth | exif.cc:498-527 | The unit the reader converts a payload in divides the element width, so whole elements are whole units |
| Bytes.Get16Put16 | exif.cc:1147 | A 16-bit value written in either byte order reads back unchanged wherever it sits |
| Bytes.Get32Put32 | exif.cc:1155 | The same for 32-bit values |
| Bytes.Get16Meaning | exif.cc:606-611 | In "MM" order the first byte is the high one; in "II" order it is the low one |
| Bytes.ReorderInvolution | exif.cc:498-527 | Converting a run to host order and back (or the reverse) is the identity |
| Bytes.ReorderJoin | exif.cc:500-527 | Converting element by element is converting the whole payload, when each element is a whole number of units |
| Directory.FindIfd | exif.cc:623-633 | The first directory of the number: it has that kind, none before it does, and None exactly when no directory has the kind |
| Directory.FindTagIndex | exif.cc:640-645 | The first entry with the id: none before it carries the id, and None exactly when none does |
| Directory.LookupTag | exif.cc:640-645 | Found exactly when an entry carries the id; the entry found carries it and is one of the list's |
| Directory.FindTag | exif.cc:636-648 | Found exactly when the directory kind exists and its first directory holds the id; the result is an entry of that directory with that id |
| Directory.FindTagIndexUnique | exif.cc:640-645 | With distinct ids the lookup finds the one entry that carries the id, wherever it is |
| Reader.ReadEntry | exif.cc:437-470 | One 12-byte entry: id, type, count and 32-bit-wrapped size decoded. Inline payloads are converted by their type's unit and remembered as `original`; larger ones keep the offset, also as `original`. A short buffer, an unknown type or an inline type without decoder is fatal |
| Reader.ReadEntries | exif.cc:437-483 | `n` entries decoded from consecutive 12-byte slots that all lie in the buffer |
| Reader.ReadEntriesAt | exif.cc:437-446 | Entry `i` of the list is the entry decoded at 12 * i past the count |
| Reader.Capture | exif.cc:472-482 | Only IFD0's Exif (0x8769) and GPS (0x8825) tags and the EXIF directory's Interop tag (0xA005) update a pointer, each its own; each always does |
| Reader.Resolve | exif.cc:490-528 | A payload over four bytes at a nonzero offset is fetched and converted by its unit, and fails, as truncation, exactly when it runs past the image or is of a non-byte type with 2^16 or more elements (the 16-bit counter never reaches the count); any other entry is left as it was; nothing but the data changes |
| Reader.ResolveAllAt | exif.cc:490-528 | Fetching the payloads of a list fetches each entry's on its own |
| Reader.ReadIfd | exif.cc:394-551 | Count 0 gives an empty directory without reading further. Otherwise there are count entries, followed by the next pointer. Only IFD0 can change the Exif/GPS pointers and only the EXIF directory the Interop pointer |
| Reader.ReadLinked | exif.cc:575-586 | A zero pointer reads nothing; otherwise exactly one directory of the kind, the one at the pointer |
| Reader.CheckHeader | exif.cc:597-612 | Accepts exactly "Exif\0\0" followed by "II" or "MM", and reports "MM" as big-endian |
| Reader.HeaderWords | exif.cc:598-611 | The words the source compares (0x66697845, 0, 0x4949, 0x4D4D) match exactly the header bytes |
| Reader.ExamineApp | exif.cc:593-620 | A segment is read only when its header checks pass, and then as the image after the six marker bytes, in the byte order the header names |
| Reader.ReadApp | exif.cc:554-590 | An image shorter than its 8-byte header is truncated; a read gives one to five directories, IFD0 first (ReaderFacts.ReadAppShape states which ones) |
| ReaderFacts.ReadIfdParts | exif.cc:437-528 | A non-empty directory read is its entries with their payloads fetched, and its pointers are those captured from the entries |
| ReaderFacts.ReadIfdTag | exif.cc:437-470 | Tag `i` of a directory read is decoded from its own entry slot |
| ReaderFacts.CaptureAllIsLast | exif.cc:472-482 | After a directory, each captured pointer is the value of the last entry carrying its tag, or the earlier value if none does |
| ReaderFacts.ReadIfdPointers | exif.cc:472-482 | The pointers after exif_read_ifd, per directory kind, as the last such entry gives them |
| ReaderFacts.AppendLinked | exif.cc:575-586 | Each directory read through a pointer keeps the list ascending by number |
| ReaderFacts.ReadAppShape | exif.cc:554-590 | IFD0 (at the header's offset) comes first and the list is ascending. IFD1 is there exactly when IFD0's next pointer is nonzero; EXIF and GPS exactly when IFD0's last such tag is nonzero; Interop exactly when the EXIF directory's last Interop tag is nonzero |
| Mutation.Overwrite | exif.cc:1033 | The memcpy: the window holds the new bytes and every byte outside it is kept |
| Mutation.RemoveAt | exif.cc:999 | removeOne: the entries before stay, those after move up by one, one fewer in all |
| Mutation.PutSize | exif.cc:976-980 | Zero when there is no data, no element or a negative index; always below 2^16 |
| Mutation.NewTag | exif.cc:987-995 | A created entry has the id, type, count and size asked for, and a zero buffer of at least four bytes |
| Mutation.Grow | exif.cc:1001-1005 | Corrected growth: the buffer keeps its bytes and is zero-extended to the extent; size and count rise whenever the extent passes the recorded size; an entry already large enough is untouched |
| Mutation.GrowAsWritten | exif.cc:1001-1005 | Growth as written: the buffer keeps its old bytes and reaches the extent |
| Mutation.GrowAsWrittenLosesCount | exif.cc:1001-1005 | An ASCII entry of count 2 overwritten with 3 characters keeps count and size 2 as written; the corrected step records 3 |
| Mutation.Store | exif.cc:1031-1034 | Only the data changes: the window at `index` elements holds the stored bytes, everything else is kept |
| Mutation.PutInIfd | exif.cc:974-1035 | The put on one directory keeps its kind and next pointer; its entries change as MutationFacts.PutRemoves, PutCreates and PutUpdates state, with the corrected growth |
| Mutation.PutInIfdAsWritten | exif.cc:974-1035 | The put on one directory as written, growing by GrowAsWritten; it keeps the kind and next pointer, and MutationFacts.PutAsWrittenDiffers relates it to the corrected put |
| Mutation.Target | exif.cc:965-972 | The directory worked on exists afterwards: the list as it was when the kind is present, with an empty one appended otherwise |
| Mutation.PutValue | exif.cc:960-1037 | An unknown type is fatal. Otherwise only the first directory of the kind changes (appended if missing), by the one-directory put with the corrected growth; every other directory and all kinds stay in place |
| Mutation.FindIfdAppend | exif.cc:966-969 | Appending a directory never moves the first directory of a kind already there |
| MutationFacts.RemoveAtIsWithout | exif.cc:997-999 | With distinct ids, removing the found entry is removing every entry with the id |
| MutationFacts.LookupAfterRemove | exif.cc:999 | Dropping an entry leaves the lookup of every other id alone |
| MutationFacts.PutAsWrittenDiffers | exif.cc:1001-1005 | The put as written and the corrected put give the same directory except for the size and count of the grown entry. They differ exactly when the extent passes the entry's recorded size but not its buffer; then the source keeps the old size and count, and the corrected put records the extent |
| MutationFacts.PutStrAsWrittenKeepsCount | exif.cc:1001-1005 | put_str("12") over an ASCII entry holding "8": as written the entry keeps count and size 2 with "12\0" in its buffer; the corrected put records 3 |
| MutationFacts.PutRemoves | exif.cc:997-1000 | A store of size 0 leaves a directory without the id unchanged. Otherwise it drops one entry, the one found, and the count drops by one in 16 bits. With distinct ids nothing with the id remains |
| MutationFacts.PutCreates | exif.cc:982-995 | A new entry is appended after the others with the id, type, count index+count and size asked for. Its window holds the data and everything else is zero; the count rises by one in 16 bits |
| MutationFacts.PutUpdates | exif.cc:1001-1034 | An existing entry stays in place with its type, offset and original value. With the corrected growth, size and count become the extent and index + count exactly when the extent passes the recorded size or the buffer; otherwise both are kept. The entry holds the data in the window, keeps its old bytes elsewhere and gets zeros in new room. Every other entry and the count are unchanged |
| MutationFacts.PutKeepsOtherIds | exif.cc:971-1035 | A put never changes the lookup of another id in the directory |
| MutationFacts.PutThenLookup | exif.cc:976-1034 | After a put of nonzero size the id is found holding the data at its index, with (corrected growth) a size covering the extent; after a removal with distinct ids it is not found |
| MutationFacts.PutKeepsInvariant | exif.cc:982-1000 | A put keeps ids distinct, and keeps the count equal to the number of entries below the 16-bit limit |
| MutationFacts.PutValueFrame | exif.cc:960-1037 | On the whole list, a put leaves every lookup of another kind or another id as it was |
| MutationFacts.PutValueThenFind | exif.cc:960-1037 | exif_find_tag after exif_put_value finds the data stored, with (corrected growth) a size covering the extent, or, after a removal with distinct ids, nothing |
| Setters.PutValueFrameAll | exif.cc:960-1037 | Every lookup other than the one stored is unchanged, for all kinds and ids at once |
| Setters.PutLong | exif.cc:1073-1076 | The tag holds the value's 32-bit two's-complement pattern at its index; a negative index removes it; nothing else changes |
| Setters.StoreLong | exif.cc:1073-1076 | exif_put_long is exif_put_value of one LONG, with the same results |
| Setters.PutStr | exif.cc:1050-1054 | The ASCII tag holds the string and its NUL at the start, with (corrected growth) a size covering both; no string removes the tag; nothing else changes |
| Setters.StoreString | exif.cc:1050-1054 | exif_put_str is exif_put_value of strlen+1 ASCII characters, with the same results |
| Setters.RemoveTag | exif.cc:1079-1082 | Afterwards the directory exists and, with distinct ids in it, the tag is gone; nothing else changes |
| Setters.PutStrNoneIsRemove | exif.cc:1050-1054 | Putting no string is exactly exif_remove_tag, though it passes the ASCII type |
| Writer.IfdSize | exif.cc:343-360 | The size is computed in 32 bits; WriterFacts.WriteIfdSize equates it with the bytes exif_write_ifd writes when it does not wrap |
| Writer.WriteValue | exif.cc:1122-1142 | An out-of-line entry writes its offset. An inline one writes four bytes that convert back to its data by its type's unit, and fails exactly when its type has no inline encoder |
| Writer.EncodeEntry | exif.cc:1153-1165 | Exactly 12 bytes, written exactly when the value field can be written |
| Writer.EncodeEntriesOk | exif.cc:1150-1166 | The entry list is written exactly when every entry is |
| Writer.Layout | exif.cc:1148-1162 | Every entry gets laid out, and the running offset only grows; WriterFacts.LayoutEnd, LayoutBounds and LayoutDisjoint say where each payload goes |
| Writer.LayoutKeeps | exif.cc:1156-1162 | The layout changes nothing but the offsets of out-of-line entries |
| WriterFacts.LayoutEnd | exif.cc:1156-1161 | From an even start, the offsets advance by the padded payload total |
| WriterFacts.LayoutOffsetsEven | exif.cc:1159-1161 | Every assigned payload offset is even |
| WriterFacts.LayoutBounds | exif.cc:1156-1161 | Each payload range lies between the start of the area and the final offset |
| WriterFacts.LayoutDisjoint | exif.cc:1156-1161 | Payload ranges never overlap and follow entry order |
| Writer.ElementBytes | exif.cc:1183-1203 | A converted element has the element's length; Writer.ElementIsReorder says which bytes |
| Writer.ElementIsReorder | exif.cc:1183-1206 | Each element is written converted by its type's unit, as the reader takes it in |
| Writer.ElementsAreReorder | exif.cc:1182-1209 | The element loop, advancing size/count bytes each turn, writes exactly the conversion of the payload bytes |
| Writer.PayloadBytes | exif.cc:1177-1209 | An out-of-line payload is written at its full size; Writer.PayloadIsReorder says which bytes |
| Writer.PayloadIsReorder | exif.cc:1180-1209 | The payload written is the file-order form of the data, the form exif_read_ifd converts back |
| Writer.ElementBytesAsWritten | exif.cc:1183-1206 | As written, a type with a converter writes its element, and any other type writes nothing to the output |
| Writer.PayloadBytesAsWritten | exif.cc:1179-1208 | As written, byte types and converted types write the payload, and types 14-18 write nothing |
| Writer.ElementsAsWritten | exif.cc:1182-1209 | The element loop as written agrees with the corrected one for converted types, and is empty for the others |
| Writer.PayloadAsWrittenDropsLong8 | exif.cc:1204-1206 | A LONG8 entry's eight payload bytes never reach the output as written; the corrected loop writes all eight |
| Writer.ConvertedTypes | exif.cc:1179-1208 | The known types the loop copies raw or converts are exactly codes 1 to 13, the ones Writer.Writable admits out of line |
| Writer.PayloadAsWrittenWritable | exif.cc:1177-1209 | For every tag the writer admits, the loop as written emits exactly the payload the model writes, at its full size |
| Writer.PaddedShape | exif.cc:1210-1212 | A payload's share of the area is its bytes, then zero padding |
| Writer.IfdBytes | exif.cc:1147-1172 | The directory image starts with the count, and is 6 bytes longer than its entries and area (count, then the 4-byte next field) |
| Writer.WriteIfd | exif.cc:1145-1215 | The directory handed back is the input with the offsets the writer assigned; the bytes are stated by WriterFacts.WriteIfdParts and RoundTrip.WriteThenRead |
| WriterFacts.PayloadsLength | exif.cc:1174-1213 | The area written is as long as the offsets advanced |
| WriterFacts.InlineOnlyNoArea | exif.cc:1174-1213 | The payload area is empty exactly when every value of the directory sits inline |
| WriterFacts.PayloadPlaced | exif.cc:1156-1213 | Every out-of-line payload lands at the offset its entry announces |
| WriterFacts.WriteIfdSize | exif.cc:1145-1215 | From an even position, the written directory is 6 + 12·count + padded payload bytes long. This equals exif_ifd_size when it does not wrap. A set next pointer names the position just past the directory |
| WriterFacts.WriteIfdNext | exif.cc:1168-1172 | The next field holds the offset past the area when the flag is set, zero otherwise |
| WriterFacts.WriteIfdParts | exif.cc:1145-1215 | The written directory is its count, the laid-out entries, the next field and the payload area, in that order |
| WriterFacts.WriteIfdOk | exif.cc:1138-1140 | A directory is written exactly when every inline value has an encoder; otherwise exif_write_value's fatal error ends the write |
| WriterFacts.LaidEncodesIff | exif.cc:1150-1166 | The laid-out entries encode exactly when every inline value has an encoder |
| RoundTrip.EntryDecodes | exif.cc:444-470 | An entry written by the writer decodes to the entry announced |
| RoundTrip.PayloadFromBytes | exif.cc:490-528 | A payload written in file order is fetched back as the entry's data |
| RoundTrip.CountAndNext | exif.cc:404 | The count and next pointer read from a stored directory are those written |
| RoundTrip.RecoveredSame | exif.cc:1145-1215 | What the reader recovers of a placed entry agrees with the entry written |
| RoundTrip.StoredReadsBack | exif.cc:394-551 | A stored directory image reads back as exactly the recovered entries, with the count and next pointer written and the pointers captured from the entries |
| RoundTrip.ImageReadsBack | exif.cc:394-551 | A stored directory image reads back entry by entry as the entries placed, payloads at their offsets |
| RoundTrip.WriteThenRead | exif.cc:1145-1215 | What exif_write_ifd writes, found at its position, reads back with exif_read_ifd as the same count, entries and next pointer. Each out-of-line payload is at the offset assigned |
| RoundTrip.WriteThenReadEmpty | exif.cc:402-435 | An empty directory is written as a zero count and the next pointer. The reader stops at the zero count, so it comes back as the empty directory with next pointer 0, and the written pointer is recovered exactly when none was set |
| Sorting.SortSortsAndPermutes | exif.cc:1235 | The sort returns a sorted permutation of its input |
| Sorting.SortedUnique | exif.cc:1110-1119 | With distinct keys any sorted permutation is this one, so std::sort's freedom with equal keys never matters |
| Sorting.SortDistinct | exif.cc:1259 | Distinct keys come out strictly ascending |
| Sorting.SortIdempotent | exif.cc:1235 | Sorting twice is sorting once |
| Footprints.PayloadTotalEven | exif.cc:350-356 | Padded payload sizes add up to an even number |
| Footprints.PayloadTotalSort | exif.cc:1259 | Entry order does not change the payload area's size |
| Footprints.SortedTagsSound | exif.cc:1257-1260 | Sorting the entries keeps a directory's size and soundness |
| Footprints.SortedTagsLookup | exif.cc:1259 | Sorting entries with distinct ids keeps every lookup |
| Footprints.PutFourSound | exif.cc:1241-1245 | A four-byte put at element 0 keeps a sound directory sound, keeps its size when the entry is there and keeps ids distinct |
| AppWriter.Advance | exif.cc:1248 | The running offset stays below 2^16, as the `uint16_t` `len` does; LayoutFacts.OffsetAtSum gives its value |
| AppWriter.PointerTag | exif.cc:1240-1246 | Each sub-directory's pointer lives in a directory of smaller number: GPS and EXIF in IFD0, Interop in EXIF |
| AppWriter.PointerStep | exif.cc:1240-1246 | One turn of the pointer loop keeps the directory kinds in place |
| AppWriter.PointerPass | exif.cc:1237-1249 | The loop keeps the directory kinds in place and its offset below 2^16 |
| AppWriter.PassKeeps | exif.cc:1237-1249 | The pointer loop keeps every directory sound, its size, ids and kinds distinct, and every pointer tag in place |
| AppWriter.PutLongKeeps | exif.cc:1241-1245 | exif_put_long into a present entry keeps soundness, sizes, distinct ids and kinds |
| AppWriter.PutLongPointers | exif.cc:1241-1245 | A pointer store keeps every pointer tag present |
| AppWriter.GpsPutsKinds | exif.cc:1232-1233 | After the GPS puts the kinds are those before, plus IFD0 and GPS |
| AppWriter.GpsPointerPut | exif.cc:1232 | After the GPS puts IFD0 holds the GPS pointer tag |
| AppWriter.GpsPutsFrame | exif.cc:1232-1233 | The GPS puts leave every other lookup alone |
| AppWriter.GpsPutsSound | exif.cc:1232-1233 | The GPS puts keep directories sound, ids distinct and kinds distinct |
| AppWriter.GpsPutsPointers | exif.cc:1232-1233 | After the GPS puts every sub-directory present has its pointer tag |
| AppWriter.GpsPuts | exif.cc:1232-1233 | After the two puts the GPS directory holds GPSVersionID with the bytes 2.0.0.0 |
| AppWriter.VersionStored | exif.cc:1233 | The version put leaves the four version bytes in the GPS directory |
| AppWriter.Prepare | exif.cc:1232-1235 | After the GPS puts and the sort, IFD0 and GPS exist and so do the loop's store targets |
| AppWriter.SortIfdsKeeps | exif.cc:1235 | Sorting distinct kinds makes them strictly ascending, keeps soundness and distinct ids and keeps every lookup |
| AppWriter.PrepareSound | exif.cc:1232-1235 | After the GPS puts and the sort, directories are sound, ids distinct, kinds ascending and pointer tags present |
| AppWriter.SortTagsAt | exif.cc:1257-1260 | The entry sort sorts each directory's entries and changes nothing else |
| AppWriter.SortTags | exif.cc:1257-1260 | The entry sort keeps the directory kinds in place |
| AppWriter.SortTagsKeeps | exif.cc:1257-1260 | The entry sort keeps sizes, soundness and distinct ids, and with distinct ids every lookup |
| AppWriter.ThumbStore | exif.cc:1253-1255 | The thumbnail store keeps the directory kinds in place |
| AppWriter.LayOut | exif.cc:1229-1260 | From a directory list meeting LayOutReady, the laid-out directories are sound and strictly ascending |
| AppWriter.LayOutSorted | exif.cc:1235 | The laid-out directories ascend by number whatever the input |
| AppWriter.StagesSound | exif.cc:1237-1260 | The pointer loop, the thumbnail store and the entry sort keep sound directories sound |
| AppWriter.TiffHeader | exif.cc:1265-1267 | The header is 8 bytes; LayoutFacts.HeaderReadsBack shows the reader accepts it |
| AppWriter.WriteIfds | exif.cc:1269-1276 | No directories write nothing; otherwise the first directory is written first, at the start position |
| AppWriter.WriteTiff | exif.cc:1265-1286 | The image is written exactly when its directories are; it starts with the 8-byte header and ends with four zero bytes and the thumbnail |
| LayoutFacts.HeaderReadsBack | exif.cc:1265-1267 | The written header passes exif_examine_app's checks with the byte order written, holds 42, and announces the first directory at offset 8 |
| LayoutFacts.SizeSumExact | exif.cc:1248 | Without 32-bit overflow the sum of exif_ifd_size values is the bytes written |
| LayoutFacts.OffsetAtSum | exif.cc:1237-1249 | The loop's offset at a directory is its start plus the sizes before it, in 16 bits |
| LayoutFacts.PutLongPoints | exif.cc:1241-1245 | After the store, the sub-directory's pointer tag holds the offset |
| LayoutFacts.PassSetsPoint | exif.cc:1237-1249 | After the loop, each sub-directory's pointer holds the offset the loop reached at that directory |
| LayoutFacts.PassLength | exif.cc:1237-1251 | The loop ends at the start plus every size, in 16 bits |
| LayoutFacts.StagesPoint | exif.cc:1237-1260 | After the layout stages each sub-directory's pointer holds its loop offset |
| LayoutFacts.ThumbStoreValue | exif.cc:1253-1255 | The thumbnail offset entry, when present, holds the value stored |
| LayoutFacts.StagesThumb | exif.cc:1251-1255 | After the stages the thumbnail offset holds the loop's final offset plus 4 |
| LayoutFacts.LayOutStages | exif.cc:1229-1260 | The layout keeps the sorted list's kinds and sizes; the result is sound, with distinct ids and ascending kinds |
| LayoutFacts.OffsetExact | exif.cc:1248 | Without 16-bit wrap, the loop's offset at a directory is 8 plus the bytes written before it |
| LayoutFacts.WrittenFootprint | exif.cc:1145-1215 | From an even position, a sound directory is written in exactly its footprint |
| Chains.ChainLength | exif.cc:1269-1276 | Directories written back to back take the sum of their sizes |
| Chains.ChainAt | exif.cc:1269-1276 | Each directory is written where the previous ones end, as written from there |
| LayoutFacts.WriteIfdsLength | exif.cc:1269-1276 | The directory area is the sum of the footprints |
| LayoutFacts.WriteIfdsAt | exif.cc:1269-1276 | Directory `k` sits after the footprints of those before it |
| LayoutFacts.IfdsWindow | exif.cc:1269-1276 | Directory `k`'s bytes in the area are exif_write_ifd's output for that position |
| LayoutFacts.TiffShape | exif.cc:1265-1278 | The image is the header, the directories, four zero bytes and the thumbnail |
| LayoutFacts.TiffIfds | exif.cc:1265-1274 | The directory area starts at offset 8 |
| LayoutFacts.TiffParts | exif.cc:1265-1286 | The image's length is 8 + the footprints + 4 + thumbnail, and it ends with the thumbnail |
| LayoutFacts.TiffDirectoryAt | exif.cc:1269-1276 | Directory `k` sits in the image at 8 plus the footprints before it, as exif_write_ifd wrote it there |
| LayoutFacts.WrittenNext | exif.cc:1168-1172 | The next field after the entries names the position just past the directory when flagged, else zero |
| LayoutFacts.DirectoryNext | exif.cc:1272-1274 | Directory `j`'s next field names the start of the following directory exactly when IFD0 is followed by IFD1, else zero |
| LayoutFacts.IfdsNext | exif.cc:1269-1276 | The same next field, in the directory area |
| LayoutFacts.NextLocates | exif.cc:1269-1276 | In the image, IFD0's next field names where IFD1 is written; every other next field is zero |
| LayoutFacts.FirstIsIfd0 | exif.cc:1232-1235 | After the layout, IFD0 is the first directory written |
| LayoutFacts.PrepareHasIfd0 | exif.cc:1232 | The GPS pointer put creates IFD0 when it is missing |
| LayoutFacts.PointersLocate | exif.cc:1237-1276 | With no 16-bit wrap, each sub-directory's pointer holds 8 plus the bytes before its directory: where the image has it |
| LayoutFacts.ThumbnailLocates | exif.cc:1251-1286 | With no 16-bit wrap, the thumbnail offset holds 8 + all directories + 4: where the thumbnail is copied |
| Rational.ExifGcd | exif.cc:894-907 | The result divides both arguments and every common divisor divides it; it is zero only for (0, 0) |
| Rational.GcdUnique | exif.cc:894-907 | Two greatest common divisors of a pair are equal, so exif_gcd returns the gcd |
| Rational.ReduceFraction | exif.cc:950-956 | Same ratio, neither part grows, the denominator stays positive, and the result is in lowest terms |
| Rational.LowestTerms | exif.cc:952-956 | After dividing by the gcd the only common divisor left is 1 |
| ShortName.LastIn | exif.cc:875 | strrchr: the last occurrence in the range, or none there |
| ShortName.PastLast | exif.cc:875-883 | One strip step: past the last separator of the kind, with none of it left after |
| ShortName.BaseStart | exif.cc:874-883 | The base starts after the last ':', after the last '\' past that, after the last '/' past that |
| ShortName.BaseAtUnique | exif.cc:874-883 | Only one position meets that description |
| ShortName.FirstIn | exif.cc:884 | strchr: the first occurrence, or none |
| ShortName.Stem | exif.cc:884-886 | The prefix before the first dot, unless the dot is the first character, in which case nothing is cut |
| ShortName.ShortName | exif.cc:870-889 | A prefix of the base name holding no separator: cut just before the first dot when that dot is not the first character, otherwise the whole base |

## Left out

- File I/O, the JPEG marker walk (`exif_load_apps`), segment framing and
  the length word: the image is a byte sequence. Reading past its end is
  the fatal `Truncated`, since gbfile.cc is not part of this model.
- Floating point: FLOAT and DOUBLE are moved as bytes. The rational branch
  of `exif_put_value` takes the 8 bytes the caller computed.
  `exif_put_double`, `exif_put_coord` and the decimal expansion in
  `exif_dec2frac` are left out; only its gcd reduction is modelled.
- Time stamps, coordinates, datum, user comment and the waypoint matching
  that consumes the reader's output.
- The thumbnail copy: its bytes are a parameter of `AppWriter.WriteTiff`.
- Mutation.PutValue: requires the extent to fit 16 bits and the data to be
  long enough (`PutFits`). Beyond that the source's `uint16_t` size wraps
  and `memcpy` writes outside the buffer, which C++ leaves undefined.
- Mutation.PutValue: grows an existing entry by the corrected step
  (`Mutation.Grow`, Findings row 2), not by the test at exif.cc:1001. The
  put as written is `Mutation.PutInIfdAsWritten`;
  `MutationFacts.PutAsWrittenDiffers` shows that the two differ only in the
  grown entry's size and count, and only when the new extent passes the
  recorded size but fits the buffer.
- MutationFacts.PutUpdates: its clause that the size covers the extent
  holds for the corrected growth only. As written the size stays put
  when the buffer already reaches the extent.
- MutationFacts.PutThenLookup: the same size clause, corrected growth only.
- MutationFacts.PutValueThenFind: the same size clause, corrected growth only.
- Setters.PutStr: the same size clause, corrected growth only; it also
  inherits the 16-bit bound: |s| + 1 < 2^16.
- Setters.StoreString: the same size clause, corrected growth only.
- Setters.PutLong: inherits that bound: (index + 1) * 4 < 2^16.
- Reader.Resolve: a non-byte out-of-line entry of 2^16 or more elements
  becomes the fatal `Truncated`. The source's 16-bit counter never
  reaches the count, so its loop reads on until the file ends. The bytes
  it writes past the payload buffer on the way are not modelled.
- Writer.WriteIfd: takes only the tags `Writer.Writable` admits. Out-of-line
  payloads of types 14 to 18 are excluded, because the source writes them
  to the input file (Findings row 1). Non-byte payloads of 2^16 or more
  elements are excluded, because the 16-bit counter at exif.cc:1182 never
  reaches the count. Out-of-line entries whose buffer is shorter than
  their size, such as one read at offset 0 (exif.cc:492 skips the fetch
  and keeps the 4-byte buffer of exif.cc:448), are excluded, because the
  source reads past the buffer at exif.cc:1181. On what it admits, the
  bytes written are those the loop as written emits
  (`Writer.PayloadAsWrittenWritable`).
- WriterFacts.PayloadsLength: inherits the Writer.WriteIfd restriction.
- WriterFacts.PayloadPlaced: inherits the Writer.WriteIfd restriction.
- WriterFacts.WriteIfdSize: inherits the Writer.WriteIfd restriction.
- RoundTrip.WriteThenRead: inherits the Writer.WriteIfd restriction
  (`RoundTrip.Encodable` includes `Writer.Writable`). It excludes empty
  directories, because for them the round trip does not hold: the reader
  returns at the zero count without reading the next pointer, so a set
  pointer is lost (`RoundTrip.WriteThenReadEmpty`).
- LayoutFacts.WrittenFootprint: inherits the Writer.WriteIfd restriction.
- LayoutFacts.WriteIfdsLength: inherits the Writer.WriteIfd restriction.
- LayoutFacts.WriteIfdsAt: inherits the Writer.WriteIfd restriction.
- LayoutFacts.IfdsWindow: inherits the Writer.WriteIfd restriction.
- LayoutFacts.TiffParts: inherits the Writer.WriteIfd restriction.
- LayoutFacts.TiffDirectoryAt: inherits the Writer.WriteIfd restriction.
- LayoutFacts.NextLocates: inherits the Writer.WriteIfd restriction.
- AppWriter.PointerPass: assumes the directories the loop stores into
  exist (`PassTargets`). Otherwise the put appends to the list the
  range-for is walking, which is undefined.
  AppWriter.Prepare and AppWriter.LayOut require an Interop directory to
  come with an EXIF directory for the same reason: the Interop pointer
  is stored into the EXIF directory.
- AppWriter.LayOut: its guarantees rest on an assumption about the input
  list (`LayOutReady`): sound directories, distinct ids and kinds, room for
  the GPS tags, and pointer tags for the EXIF and Interop directories. The
  reader guarantees distinct kinds and the pointer tags, but not the rest.
  It excludes three kinds of reader output:
  - Directories with a repeated id: `std::sort`'s order among equal
    keys is open, so the written layout is not determined.
  - Out-of-line entries with a buffer shorter than their size (one read
    at offset 0): the writer reads past the buffer (see Writer.WriteIfd).
  - IFD0 or GPS directories of 0xFFFF entries: adding a GPS tag wraps
    the 16-bit entry count.
- LayoutFacts.PointersLocate: stated for layouts that end below 2^16
  bytes. Past that, the model's offset wraps as the source's `uint16_t`
  `len` does, so the pointers no longer name the right place.
- LayoutFacts.PointersLocate: also inherits the Writer.WriteIfd restriction.
- LayoutFacts.ThumbnailLocates: the same 2^16 bound, and the
  Writer.WriteIfd restriction.
- Rational.ExifGcd: excludes INT_MIN, whose `abs` is undefined.
- Sorting.SortBy: insertion sort stands in for `std::sort`. It agrees
  whenever keys are distinct (`Sorting.SortedUnique`); with equal keys the
  source leaves the order open.

## Findings

| source | as written | input that shows it | evidently intended | confidence | as-written member | corrected member |
|---|---|---|---|---|---|---|
| exif.cc:1204-1206 | the default case writes each element of types 14-18 to `fin`, the input file, not `fout` | a LONG8 entry (type 16) with one 8-byte value: the entry announces 8 payload bytes, none are written, and every later payload is misplaced | write the element to `fout`; the model's writer emits these types only inline | high, not executed | Writer.PayloadAsWrittenDropsLong8 | Writer.PayloadIsReorder |
| exif.cc:1001-1005 | an existing entry grows only when the new extent passes its buffer length; its recorded size and count are not checked | an ASCII entry "8\0" (count 2, 4-byte buffer) overwritten with "12\0": count and size stay 2, so the NUL is not covered | raise count and size whenever the extent passes the recorded size | medium, not executed | MutationFacts.PutStrAsWrittenKeepsCount | Mutation.Grow |
