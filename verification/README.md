# A verified model of the fwupd Android test app's marshaller

The test daemon turns GLib `GVariant` values into Android parcels, so that a client that knows
only the declared type can read them. The declared type is the variant's: an AIDL client, whose
interface has no unsigned types, takes the same bits of a byte or a uint32 as signed. This project models that marshaller, the sized
parcelables with back-patched sizes, the printers of the Kotlin client and the daemon's
listener list, and proves what they promise.

`dafny verify dfyconfig.toml` checks everything.

## What is modelled

- `Bytes`: C integer conversions, little-endian words, length-prefixed blobs.
- `Layout`: the bytes of scalars, arrays and dictionaries written out one by one.
- `Variants`: variant values and types. A dictionary `a{sv}` is an array of entries.
- `Bundles`, `Vardict`, `Narrowing`, `Collisions`: the persistable bundle as a map in canonical
  listing, the fold that `poc_vardict_to_bundle` performs, what of a dictionary it keeps, and
  which dictionaries it makes equal.
- `BundleFormat`, `Encoding`, `Decoding`: the bytes of a value, a reader driven by the type
  alone, and exactly what that reader can tell about the value.
- `Parcels`, `Objects`, `Writer`: the parcel with its cursor, the iterator and the bundle as
  objects updated in place, and the C functions with their loops, callbacks and mutual
  recursion, proved against the pure functions above. `Transmission` joins both ends.
- `SizedParcelables`: reserve, write, seek back, patch, restore, at any nesting depth.
- `Lines`, `Printer`, `Indentation`, `Outline`, `PrinterExamples`, `Legible`: the printers and
  the lines they produce, for texts with or without line breaks of their own.
- `Listeners`: the listener array and the trigger loops over whole runs, in the build with the
  binder NDK, whose device trigger has three device messages.

## Assumptions about libraries that are not part of this model

The NDK parcel and bundle libraries and GLib are foreign to the repository. The model takes
from them:

- words are little-endian (`android_amd64_cross_file.ini:11`); booleans and bytes take a whole
  word, a byte sign-extended; strings and byte arrays are an int32 length and the bytes, padded
  to a whole word; other arrays are an int32 count and the elements;
- `AParcel_writeParcelableArray` calls its element writer for index 0, 1, ... in order;
- a bundle `put` replaces an earlier value of its key, and a bundle is serialised as its number
  of entries and then, in key order, each key, a type tag and the value;
- the library's lengths and positions are int32 values: a negative length or position is
  refused, and the C callers narrow their counts to fit;
- writes do not run out of memory, so that no other status than OK arises from them;
- GLib values are well typed and their strings hold no NUL.

Two things depend on the platform, so the writer takes them as a parameter:

- `fwupd_poc_binder.c:298` reads a uint64 with the int64 getter. A getter that checks the type
  answers 0; one that does not keeps the bits, which is what the code intends.
- `fwupd_poc_binder.c:307` passes a length next to the getter call that sets it, and C leaves
  open which is evaluated first. The compiler of `android_amd64_cross_file.ini:19` goes from
  left to right, which is the order that works.

Both can only hurt a value that is itself a uint64 or a string; `TransmittedIffUndisturbed`
says exactly when.

## Findings

- Entries of an unsupported type (byte arrays, say) are dropped from a dictionary, so that the
  client of a one-entry dictionary may see an empty bundle (`DroppedEntryIsNotShown`), or an
  earlier value of the same key (`EarlierEntryShowsThrough`).
- An int16 below 0 does not survive `poc_vardict_to_bundle`: its bits are read as unsigned
  (`NegativeInt16IsLost`). The sample dictionary has such a value, `max_u16`, declared with the
  int16 code `n` (`fwupd_poc_binder.c:438`).
- A uint32 from 2^31 up, such as the sample's `max_u32`, and a 64-bit scalar outside the int32
  range are stored as the congruent int32 (`LargeUint32IsLost`, `LargeInt64IsLost`,
  `LargeUint64IsLost`).
- `ConversionFaithfulIffExact` and `ClientSeesValue` give the exact condition for all of these
  together, through vectors and nested dictionaries.
- The printers break the indentation of blank lines and of array elements in bundles that have
  line breaks of their own: a non-empty leaf of white space in `printArray`
  (`BlankLeafIsMisplaced`), an empty line inside a text two levels deep or more
  (`EmptyInnerLineIsMisplaced`), the second line of a string in a bundle's string array
  (`BrokenElementIsMisplaced`). `IndentationIsNesting` gives the exact condition for all texts.
- Values of a class the writer does not handle (16-bit integers, tuples, maybes, boxed
  variants, object paths and the like) vanish with an OK status: alone nothing is written
  (`TupleVanishes`), and an array of them is a bare count (`Int16ElementVanishes`,
  `ExactReach`), so that different arrays of one length are written alike
  (`Int16ArraysCollide`).
- A string or an array other than of booleans with a length from 2^31 to 2^32 - 1 is refused by
  the library, which the writer does not look at: nothing is written and the answer is OK
  (`Refused` in the contract of `WriteVariant`).
- A sized write that starts from 2^31 on is not caught by the assertion: the seek back fails
  unchecked and the size lands behind the fields (`WriteSized`).

## Model

| member | source | states |
|---|---|---|
| Objects.GVariantIter.NextValue | fwupd_poc_binder.c:223-224 | yields the children one by one in order, then the null that ends the iteration |
| Objects.PersistableBundle.PutInt | fwupd_poc_binder.c:141-154 | an int put replaces the value of its key and no other, with the argument narrowed to the congruent int32 |
| Objects.PersistableBundle.PutPersistableBundle | fwupd_poc_binder.c:194-196 | the child's contents are copied under the key |
| Bundles.LookupPut | fwupd_poc_binder.c:138-199 | a put is seen at its own key and nowhere else |
| Bundles.LookupsDetermineBundle | fwupd_poc_binder.c:121-217 | two bundles with the same value under every key are the same bundle |
| Writer.PutConverted | fwupd_poc_binder.c:136-213 | one turn of the loop puts the conversion of the value, or leaves the bundle alone where it only warns |
| Writer.PutConvertedArray | fwupd_poc_binder.c:166-200 | the inner switch over element classes, recursing into dictionaries |
| Writer.VardictToBundle | fwupd_poc_binder.c:121-217 | the loop over the shared iterator returns a fresh bundle holding the fold of the conversions over all entries |
| Vardict.BundleLoopMeaning | fwupd_poc_binder.c:129-214 | the bundle has exactly the keys with a supported entry, each with the conversion of its last supported entry |
| Vardict.SameBundleIffSameEffect | fwupd_poc_binder.c:129-214 | two dictionaries give the same bundle if and only if every key's last supported entry converts alike |
| Vardict.UnsupportedIgnored | fwupd_poc_binder.c:198-212 | unsupported entries neither add nor erase anything |
| Vardict.SupportIsByType | fwupd_poc_binder.c:136-212 | whether an entry is converted depends on the type of its value alone |
| Narrowing.ConversionFaithfulIffExact | fwupd_poc_binder.c:136-213 | a value reaches the bundle's reader as the same value if and only if its type is supported, its integers fit their slots and no int16 is negative, through vectors and nested dictionaries |
| Narrowing.DictFaithfulIffExact | fwupd_poc_binder.c:121-217 | the bundle has every key of the dictionary with the value of its last entry, supported or not, if and only if the last entry of every key is exact |
| Narrowing.StoredIsCongruent | fwupd_poc_binder.c:141-155 | the stored int32 is congruent to the original modulo 2^8, 2^16 or 2^32 by type |
| Narrowing.StoredNumber | fwupd_poc_binder.c:141-155 | an int16 below 0 is stored with 2^16 added, a uint32 from 2^31 up with 2^32 taken off, every other number that fits an int32 as it is |
| Narrowing.ScalarCollisions | fwupd_poc_binder.c:137-158 | two scalars of one type are stored alike if and only if they are equal, or are 64-bit and congruent modulo 2^32 |
| Narrowing.VectorsDoNotCollide | fwupd_poc_binder.c:166-191 | two vectors of one supported type stored alike are equal |
| Narrowing.EverySlotIsReached | fwupd_poc_binder.c:148-183 | every int32 and every vector of int32 or int64 is stored for a value of each type of that width, so that with the two rows above these conversions are one to one and onto |
| Narrowing.NegativeInt16IsLost | fwupd_poc_binder.c:144-147 | the int16 -1 is stored as 65535 |
| Narrowing.LargeUint32IsLost | fwupd_poc_binder.c:148-151 | the uint32 2^32 - 1 is stored as -1 |
| Narrowing.LargeInt64IsLost | fwupd_poc_binder.c:152-155 | the int64 2^31 is stored as -2^31 |
| Narrowing.LargeUint64IsLost | fwupd_poc_binder.c:152-155 | the uint64 2^32 is stored as 0 |
| Narrowing.UnsupportedEntryIsDropped | fwupd_poc_binder.c:198-199 | a dictionary whose only value is a byte array becomes an empty bundle, which does not match it |
| Narrowing.EarlierEntryShowsThrough | fwupd_poc_binder.c:198-199 | an unsupported entry leaves the earlier value of its key in the bundle |
| Collisions.AlikeIffSameConversion | fwupd_poc_binder.c:136-200 | two supported values are stored alike if and only if they are equal up to signedness, scalar width and, in dictionaries, everything but the last supported entry of each key |
| Collisions.DictsAlike | fwupd_poc_binder.c:121-217 | two dictionaries give the same bundle if and only if they have supported entries for the same keys and the last ones are alike, recursively |
| Bytes.Int32Layout | android_amd64_cross_file.ini:11 | a word is its four bytes, least significant first |
| Bytes.Int64Layout | android_amd64_cross_file.ini:11 | a 64-bit word is the four bytes of its low half and then those of its high half, each least significant first |
| Bytes.BlobLayout | fwupd_poc_binder.c:341-344 | a blob is its length, its bytes and zeros up to the next whole word |
| Layout.ByteLayout | fwupd_poc_binder.c:285-287 | a byte n is the bytes n, s, s, s, where s is 0 below 128 and 255 from 128 on |
| Layout.BoolLayout | fwupd_poc_binder.c:282-284 | true is the bytes 1, 0, 0, 0 and false four zeros |
| Layout.WordLayout | fwupd_poc_binder.c:288-293 | a 32-bit integer, signed or not, is the four bytes of its bit pattern |
| Layout.LongLayout | fwupd_poc_binder.c:294-302 | a 64-bit integer, signed or not, and a double are the eight bytes of their bit pattern |
| Layout.StringLayout | fwupd_poc_binder.c:303-308 | a string is the four bytes of its length, its own bytes, and fewer than four zeros |
| Layout.ArrayLayout | fwupd_poc_binder.c:316-377 | an array is the four bytes of its count and then, without gap, the encodings of its elements in order |
| Layout.BoolArrayLayout | fwupd_poc_binder.c:332-339 | element i of a boolean array is the bytes 1, 0, 0, 0 or four zeros at offset 4 + 4i |
| Layout.ByteArrayLayout | fwupd_poc_binder.c:341-344 | element i of a byte array is the byte at offset 4 + i, and zeros follow the last |
| Layout.BoolVectorLayout | fwupd_poc_binder.c:170-173 | a boolean vector in a bundle holds the bytes 1, 0, 0, 0 or four zeros for each element |
| Layout.DictLayout | fwupd_poc_binder.c:319-330 | a dictionary begins with the bytes 1, 0, 0, 0 and the number of its different supported keys |
| Layout.SampleLayout | fwupd_poc_binder.c:319-330 | all bytes of a dictionary with the keys b, a, b: one entry each, in key order, with the later value of b |
| Bundles.LessAtFirstDifference | fwupd_poc_binder.c:319-330 | the key order goes by the first differing byte, the smaller first, and a key comes before its continuations |
| BundleFormat.BundleRoundTrip | fwupd_poc_binder.c:319-330 | a serialised bundle below 2^31 bytes is read back with all nested bundles, whatever bytes follow |
| Encoding.SizeExact | fwupd_poc_binder.c:257-403 | a recursive size function is exact for every value; everything written is whole words |
| Encoding.CountBoundedBySize | fwupd_poc_binder.c:370-375 | a handled array holds no more elements than a quarter of its bytes |
| Decoding.RoundTrip | fwupd_poc_binder.c:257-403 | for every value of every type whose counts fit an int32 and any bytes behind it, a reader that knows the type gets the view of the value and consumes exactly its bytes |
| Decoding.SmallParcelFits | fwupd_poc_binder.c:257-403 | for a handled type every count fits its int32 as soon as the encoding is below 2^31 bytes |
| Decoding.SameBytesIffSameView | fwupd_poc_binder.c:257-403 | two values of one type whose counts fit are written alike if and only if their views are equal |
| Decoding.PrefixFree | fwupd_poc_binder.c:257-403 | among values whose counts fit no encoding is a proper prefix of another of the same type |
| Decoding.UniqueSplitting | fwupd_poc_binder.c:316-377 | concatenated encodings of values of a handled type whose counts fit split in one way only, even without a count |
| Decoding.ExactReach | fwupd_poc_binder.c:281-385 | among values whose counts fit the writer distinguishes all of a handled type without dictionaries, dictionaries up to likeness of their last supported entries, and of unhandled types only the array lengths |
| Decoding.Int16ArraysCollide | fwupd_poc_binder.c:370-388 | two different int16 arrays of one length are written alike, as the count alone |
| Parcels.OverwriteTwice | fwupd_poc_binder.c:985-1020 | two writes at the moving cursor are one write of both |
| Parcels.OverwritePatched | fwupd_poc_binder.c:1013-1018 | writing again over the head of an earlier write replaces the head only |
| Parcels.OverwriteFrame | fwupd_poc_binder.c:985-1020 | a write touches nothing before the cursor or behind its own end, and at the end of the buffer it appends |
| Parcels.Parcel.Marshal | fwupd_poc_binder.c:1023-1025 | the buffer receives exactly the requested bytes of the parcel, or nothing |
| Writer.StringElement | fwupd_poc_binder.c:231-245 | the getter returns the text at the index with its length narrowed to an int32, exact below 2^31 |
| Writer.BooleanElement | fwupd_poc_binder.c:247-254 | the getter returns the boolean at the index |
| Writer.WriteStringArray | fwupd_poc_binder.c:366-369 | if the counts fit, the index-driven getters write the count and the children in order; a refused count writes nothing |
| Writer.WriteBoolArray | fwupd_poc_binder.c:332-339 | if the counts fit, the index-driven getters write the count and the children in order, child i as the bytes 1, 0, 0, 0 or four zeros at offset 4 + 4i from the cursor; a refused count writes nothing |
| Writer.FixedWords4 | fwupd_poc_binder.c:345-352 | a bulk write of 32-bit memory is the children written one by one |
| Writer.FixedWords8 | fwupd_poc_binder.c:353-365 | a bulk write of 64-bit memory is the children written one by one |
| Writer.WriteVariant | fwupd_poc_binder.c:257-403 | the recursive writer terminates and, if every count fits an int32, keeps every byte before its cursor and writes exactly the encoding of the value, up to the two platform-dependent scalars; a byte leaves itself and three copies of its sign (0 or 255), a boolean 1 or 0 and three zeros; a value refused for its own length leaves the parcel as it was, with OK unless it is an array of booleans |
| Writer.WriteArray | fwupd_poc_binder.c:316-377 | every branch over the element class writes the one array encoding, or, for a count the library refuses, nothing |
| Writer.WriteFlaggedBundle | fwupd_poc_binder.c:319-330 | flag and converted bundle are the encoding of the dictionary |
| Writer.ArrayElementWriter | fwupd_poc_binder.c:219-229 | ignoring its index, the callback writes the next child of the shared iterator and advances it by one, while nested arrays use iterators of their own |
| Writer.WriteParcelableArray | fwupd_poc_binder.c:370-375 | before call i the iterator has consumed exactly i children, so child i is written, and if the counts fit all are consumed at the end; a refused count writes nothing |
| Writer.WriteGVariantElement | fwupd_poc_binder.c:405-424 | the element writer by index leaves the encoding of that dictionary |
| Writer.WriteDictArray | fwupd_poc_binder.c:405-424 | below 2^31 dictionaries the array written through it is byte for byte the one the recursive writer leaves for the `aa{sv}` value |
| Transmission.TransmittedIffUndisturbed | fwupd_poc_binder.c:297-308 | a reader gets the view of a value whose counts fit if and only if it is not a non-zero uint64 under a checking getter nor a non-empty string under right-to-left evaluation |
| Transmission.ClientSeesValue | fwupd_poc_binder.c:119-403 | for every value of every type whose counts fit: the client reads a result and stops behind the value, and the result shows the very value sent, every dictionary key with its last value included, if and only if the platform leaves it alone, every part of it is of a handled class, and in every dictionary the last entry of each key is of a supported type with integers that fit |
| Transmission.ScalarReadBack | fwupd_poc_binder.c:282-302 | a reader of each numeric type gets the number itself, 1 and 0 for a boolean and the bit pattern for a double |
| Transmission.ClientSeesHandledValue | fwupd_poc_binder.c:119-403 | for a handled type the same with the parcel below 2^31 bytes as the only condition on counts, and every part written |
| Transmission.TupleVanishes | fwupd_poc_binder.c:378-382 | nothing is written for a tuple and nothing read |
| Transmission.Int16ElementVanishes | fwupd_poc_binder.c:370-388 | an array of one int16 is read as an array of nothing |
| Transmission.DroppedEntryIsNotShown | fwupd_poc_binder.c:198-199 | a client reads an empty bundle for a dictionary whose only value is a byte array |
| Transmission.CheckedGetterLosesUint64 | fwupd_poc_binder.c:298 | under a checking getter the uint64 1 arrives as 0 |
| Transmission.LateLengthLosesString | fwupd_poc_binder.c:307 | when the length is read first a text arrives empty |
| Transmission.MarshalReply | fwupd_poc_binder.c:607-619 | the marshalled buffer is the whole parcel, status header and encoding, of the predicted size |
| SizedParcelables.SizeArithmetic | fwupd_poc_binder.c:986-1016 | on int32 positions the seek back works and `end >= start` holds exactly below 2^31 bytes, where the size is exact |
| SizedParcelables.WriteSized | fwupd_poc_binder.c:985-1020 | reserve, write, patch and restore leave the finished bytes with the true size and the cursor at their end exactly when that end is below 2^31; from a start below 2^31 the assertion catches all other cases, from a later one it passes and the size is appended |
| SizedParcelables.WriteField | fwupd_poc_binder.c:981-1020 | the same for a field that may itself be a nullable parcelable, at any depth; what the forward writes alone put down is the unpatched bytes |
| SizedParcelables.WriteFields | fwupd_poc_binder.c:993-1007 | the fields are written in order behind each other |
| SizedParcelables.MarshalDevice | fwupd_poc_binder.c:976-1025 | the buffer sent for a device is the bytes 1, 0, 0, 0, the size, the id, the ido and the path, in this order, and a reader of the declared fields gets them back in this order |
| SizedParcelables.SlotsHold | fwupd_poc_binder.c:1013-1018 | wherever the parcelable lands, every size slot at every depth holds the distance from the slot to the end of its own content |
| SizedParcelables.PatchesStayInSlots | fwupd_poc_binder.c:1013-1020 | the finished bytes and those of the forward writes alone have the same size and differ in no byte outside the size slots |
| SizedParcelables.SlotsReserved | fwupd_poc_binder.c:987-990 | before any patch every size slot, at every depth, holds four zeros |
| SizedParcelables.SizedRoundTrip | client/app/src/main/aidl/org/freedesktop/fwupdpoc/DeepExample.aidl:5-9 | below 2^31 bytes a reader gets its declared fields and lands behind the whole parcelable, even when further fields follow at any depth |
| SizedParcelables.InstanceRoundTrip | client/app/src/main/aidl/org/freedesktop/fwupdpoc/Device.aidl:3-7 | with exactly the declared fields a parcelable below 2^31 bytes is read back unchanged |
| SizedParcelables.ExamplesAreInstances | client/app/src/main/aidl/org/freedesktop/fwupdpoc/DeepExample.aidl:5-9 | device and deep example, with or without the nullable part, are of their declared kinds |
| SizedParcelables.DeepExampleNullLayout | client/app/src/main/aidl/org/freedesktop/fwupdpoc/DeepExample.aidl:5-9 | without its nullable part a deep example is flag, size, four zeros, id and example, and is read back as such |
| SizedParcelables.DeepExampleLayout | client/app/src/main/aidl/org/freedesktop/fwupdpoc/DeepExample.aidl:5-9 | with it, the part stands before the id with a flag and a size of its own, and is read back as such |
| Lines.LinesOfJoin | client/app/src/main/kotlin/org/freedesktop/fwupd/client/MainActivity.kt:118-135 | splitting joined one-line texts gives the texts back |
| Lines.LinesOfConcat | client/app/src/main/kotlin/org/freedesktop/fwupd/client/MainActivity.kt:105-118 | the lines of two texts in a row, unless the seam tears a line break, are theirs with the last running on into the first |
| Lines.IndentsByTwo | client/app/src/main/kotlin/org/freedesktop/fwupd/client/MainActivity.kt:134 | a line is indented by exactly two spaces if and only if it is empty or not blank |
| Printer.PrintBundle | client/app/src/main/kotlin/org/freedesktop/fwupd/client/MainActivity.kt:90-122 | the nested loops that build `out` produce the recursive text |
| Indentation.TextIsLines | client/app/src/main/kotlin/org/freedesktop/fwupd/client/MainActivity.kt:90-140 | for every tree, whatever its texts, the lines of the printed text are those of the parts, a child's lines re-indented at every level |
| Outline.IndentationIsNesting | client/app/src/main/kotlin/org/freedesktop/fwupd/client/MainActivity.kt:90-140 | for every tree, whatever its texts: each printed line is a line of its text behind two spaces per nesting level, if and only if no text line is blank where it is re-indented (an empty one: more than once) and the elements of arrays in bundles have no line breaks |
| PrinterExamples.OneLineDrawable | client/app/src/main/kotlin/org/freedesktop/fwupd/client/MainActivity.kt:90-140 | when no text has a line break, that condition is that no leaf printed by `printArray` is non-empty white space |
| PrinterExamples.BlankLeafIsMisplaced | client/app/src/main/kotlin/org/freedesktop/fwupd/client/MainActivity.kt:127-135 | an array of the one leaf " " is printed with too little indentation |
| PrinterExamples.BrokenElementIsMisplaced | client/app/src/main/kotlin/org/freedesktop/fwupd/client/MainActivity.kt:106-108 | the second line of a string in a bundle's array stands one level too far out |
| PrinterExamples.EmptyInnerLineIsMisplaced | client/app/src/main/kotlin/org/freedesktop/fwupd/client/MainActivity.kt:134 | an empty line inside a text two levels deep is not indented twice |
| Outline.BlockGivesBackChild | client/app/src/main/kotlin/org/freedesktop/fwupd/client/MainActivity.kt:123-140 | an element's lines inside its array, one indent less and without the comma, are the element's own print, exactly when no non-empty line of it is blank |
| Outline.LineCountExact | client/app/src/main/kotlin/org/freedesktop/fwupd/client/MainActivity.kt:90-140 | an array prints 2 lines plus those of its elements (3 when empty), a bundle the lines of its head and of its entries and 1, line breaks in texts included |
| Legible.WhiteSpace | client/app/src/main/kotlin/org/freedesktop/fwupd/client/MainActivity.kt:118-134 | the characters that count as blank, one by one; no printable ASCII character but the space is among them |
| Legible.LegibleIsDrawn | client/app/src/main/kotlin/org/freedesktop/fwupd/client/MainActivity.kt:90-140 | when every text is empty or has a visible ASCII character on each of its lines, and elements of arrays in bundles are on one line, each printed line is its text line behind two spaces per level |
| Legible.SpacesAre | client/app/src/main/kotlin/org/freedesktop/fwupd/client/MainActivity.kt:118-134 | the indent of d levels is 2d characters, all of them spaces |
| Legible.LeafStandsIndented | client/app/src/main/kotlin/org/freedesktop/fwupd/client/MainActivity.kt:90-140 | whatever else is printed, a one-line leaf with a visible character stands on a line of its own with its comma, behind its key if it has one and two spaces for every level |
| Legible.IndentedLines | client/app/src/main/kotlin/org/freedesktop/fwupd/client/MainActivity.kt:134 | indenting "", " " and a tab gives two spaces, longer white space stays as it is, "3" and " 3" move by two |
| Legible.LineBreaks | client/app/src/main/kotlin/org/freedesktop/fwupd/client/MainActivity.kt:118-134 | lines end at all three kinds of line break |
| Legible.SmallArrays | client/app/src/main/kotlin/org/freedesktop/fwupd/client/MainActivity.kt:123-140 | the whole text printed for arrays of no, one and two leaves |
| Legible.LeafBundle | client/app/src/main/kotlin/org/freedesktop/fwupd/client/MainActivity.kt:90-122 | the whole text printed for a bundle of one leaf |
| Legible.VectorBundle | client/app/src/main/kotlin/org/freedesktop/fwupd/client/MainActivity.kt:105-111 | the whole text printed for a bundle of one array |
| Legible.NestedBundle | client/app/src/main/kotlin/org/freedesktop/fwupd/client/MainActivity.kt:112-114 | the whole text printed for a bundle in a bundle |
| Listeners.Daemon.HandleCall | fwupd_poc_binder.c:863-1125 | after every call the listener array and the messages sent are those of the whole history; an add appends the listener and sends nothing, a remove changes nothing, and a trigger sends its messages, written out, to every registration |
| Listeners.Daemon.NotifyChange | fwupd_poc_binder.c:871-957 | OnChanged, OnParams, OnBundles, in this order, to one registration after the other |
| Listeners.Daemon.NotifyDeviceAdded | fwupd_poc_binder.c:961-1124 | three OnDeviceAdded and then two OnDeepExample to one registration after the other |
| Listeners.ChangeLogAt | fwupd_poc_binder.c:871-954 | messages 3i, 3i + 1 and 3i + 2 of a change are OnChanged, OnParams and OnBundles to registration i, and there are no others |
| Listeners.DeviceLogAt | fwupd_poc_binder.c:961-1122 | messages 5i to 5i + 2 of a device trigger are OnDeviceAdded and 5i + 3, 5i + 4 OnDeepExample to registration i, and there are no others |
| Listeners.RegistrationReceives | fwupd_poc_binder.c:863-960 | over every run a registration receives the whole group of every trigger after it was added, in order, and nothing else |
| Listeners.RegistrationStep | fwupd_poc_binder.c:863-1122 | a new registration has received nothing; each later change adds OnChanged, OnParams, OnBundles, each device trigger its five messages, adds and removes nothing |
| Listeners.RunByPosition | fwupd_poc_binder.c:863-1122 | over every run the messages of call i stand behind three for each earlier change and five for each earlier device trigger since the add, and the total leaves room for nothing else |
| Listeners.ClientReceives | fwupd_poc_binder.c:863-960 | over every run a client object gets, per trigger, one whole group for each time it had been added, never interleaved |
| Listeners.ClientStep | fwupd_poc_binder.c:863-1122 | an object added n times before a call receives the messages of that trigger, written out, n times in a row behind what it had |
| Listeners.NeverAdded | fwupd_poc_binder.c:863-1122 | over every run an object that was never added receives nothing |
| Listeners.RemovesChangeNothing | fwupd_poc_binder.c:868-870 | a run sends the same messages with and without its removes |

## Left out

- Binder registration, service manager, presence callbacks, netlink, main loops and file descriptors: input and output over foreign libraries.
- The request handlers' calls to `gp_parcel_write_variant` and `gp_vardict_to_persistable_bundle`: both live in another repository; the `poc_` functions of this one are modelled.
- The `libgbinder` struct and hand-appended attempts for devices (only the messages they send are in `Listeners`): experiments with hard-coded sizes, several marked as not working.
- Writes that fail for want of memory.
- Dictionaries of other types than `a{sv}`: iterating them with the `{&sv}` format is a programming error in GLib.
- The conversion of UTF-8 texts to UTF-16 inside the parcel library: a text is the bytes it is given.
- The bytes of the status header: they are the library's, and an input of `MarshalReply`.
- The meaning of doubles: a double is its 64-bit pattern.
- Reference counts and the freeing of parcels, variants and buffers.
- The order in which a C compiler evaluates arguments elsewhere: no other call depends on it.
- `printBundle(null)` and `printArray(null)`, which print `(null)`, and the text of `toString`, which is an input.
- Listeners added while a trigger is being sent, and sends that do not return.
- WriteSized, WriteField, WriteFields: once positions reach 2^31 it is said whether the write passes and where the cursor ends, but not which bytes are left, and from 2^32 on nothing.
- WriteVariant, WriteArray, WriteStringArray, WriteBoolArray, ArrayElementWriter, WriteParcelableArray, WriteDictArray: nothing is said about the bytes when a count from 2^32 up is narrowed to a smaller one, nor about what is left of an array when one of its elements is refused.
- PutConvertedArray, VardictToBundle: the bundle takes vectors whole; that a vector's count from 2^31 up would be narrowed on the way is not modelled.
- MarshalReply: the handler at these lines writes its value with `gp_parcel_write_variant` of the other repository; the member has the `poc_` writer in its place, and a value whose counts fit an int32.
- `MainService.kt`, `simple_fd_svc.c`, `poc_service_list.c`: the same listener list again, and short sequences of foreign calls.
