# msgpack11: the codec, its value order, and the benchmark generator

A Dafny model of the C++ library msgpack11 and of the C and C++ benchmark code beside it, with proofs.
`dafny verify dfyconfig.toml` checks the whole project.

**The codec** (`msgpack11.cpp`). A value is a datatype (`Values`). `dump` is a set of methods that append to an output
stream; each is proved to append the function `Encoding.Encode` of its value, on hosts of either byte order. `parse` is a
set of methods on an input stream with a position, an eof bit and a fail bit, driven by the 256-entry handler table; each
is proved to do what the recursive reading `Decoding.Parse` says, on every input and in every failure. What the library
promises is then proved about `Encode` and `Parse`: round trip, exact depth limit, detection of truncation, independence of
what follows, `parse_multi`, that re-serialising never grows, and which pair of a repeated map key survives. The formats of
the MessagePack specification are also written out as a grammar with a meaning (`Grammar`), and parse is proved to accept
exactly its texts and to return what they denote.

**The order of values**, which is also the order of map keys. Integers of different types are compared as doubles. The
conversion is defined on integers (round to nearest, ties to even; IEEE 754-2008, section 4.3.1) and floats are decoded from
their bits, so `Equals` and `Less` are total and concrete. Integers of any two types turn out to compare as mathematics
does. A float is *tame* when it is not a NaN and not *absorbing*, where a float is absorbing when it is a multiple of four,
at least 2^53 away from zero, and within reach of a 64-bit integer. On values with tame floats only, `operator<` is a strict
weak order and `operator==` is its incomparability. Conversely, a value with any other float anywhere in it is no sound map
key: it is tied, neither being less, with two values of which one is less than the other. `operator==` and equality of
bytes part exactly where a number stands at the same place as a number of another class or as the zero of opposite sign.

**The benchmark.** The generator's two passes over memory (adding up the size of a tree, then copying it depth-first into
one chunk), its multiply-with-carry random numbers, and the hash check: the hash of a struct tree equals the hash of what
comes back after packing, dumping and parsing it.

Terms: `Height(v)` counts levels of nesting, 1 for a leaf or an empty container; `MAX_LEVELS` is 201, the outermost value and
200 levels below it. `Writable(v)` says that every integer fits its C++ type and every length fits 32 bits. `Ordered(v)` says
that the entries of every map are in the iteration order of a `std::map`. `Norm(v)` is `v` with every integer retyped to the
type parse gives it. A `Result` is `Ok(value, position after it)` or `Err(end of data?, position)`.

Where the code and its documentation disagree, the code is modelled: `msgpack11.hpp:210` allows whitespace between values of
`parse_multi`, but every byte below 0x80 between two encodings is read as an integer, so nothing may separate them
(`SeparatorsAreIntegers`); `generator.c:39` says the forced bits keep both
words of a seed from UINT_MAX-1, which fails for the first word (`SeedAvoids` gives the exact seeds); `hash.h:129` says
that nil cannot hash like another simple type, but integers can (`NilCollides` gives them all).

## Model

| member | source | states |
|---|---|---|
| Ieee754.RoundExact | msgpack11.cpp:488 | converting an integer of magnitude up to 2^53 to double loses nothing |
| Ieee754.RoundMonotone | msgpack11.cpp:488 | converting integers to double never reverses their order |
| FloatLaws.Float64Ladder | msgpack11.cpp:488 | the bits of doubles without a formula: 1.0, counting from the smallest, doubling with the exponent, infinity, NaN and the sign bit, which together leave no choice |
| FloatLaws.Float32Ladder | msgpack11.cpp:488 | the same for floats |
| FloatLaws.NearestDouble | msgpack11.cpp:488 | converting an integer yields a double no other double is nearer to, and of two equally near ones the one with lowest bit 0 |
| FloatLaws.RoundedIsDouble | msgpack11.cpp:488 | what a 64-bit integer converts to is the value of some double |
| FloatKeys.TameComparesExactly | msgpack11.cpp:440-484 | for a tame float and any 64-bit integer the three comparisons by way of doubles agree with the numbers themselves |
| FloatKeys.AbsorbsTwoIntegers | msgpack11.cpp:440-461 | every absorbing float is the double of two different 64-bit integers |
| NumberOrder.IntegersCompareExactly | msgpack11.cpp:411-619 | for every pair of the eight integer types, equals and less are = and < on the integers held |
| NumberOrder.Int64SurvivesUint64 | msgpack11.cpp:604-607 | an INT64 passed on as uint64_t to an int64_t parameter arrives unchanged |
| NumberOrder.NumbersCompareExactly | msgpack11.cpp:440-484 | tame numbers of any types compare as points of the extended real line |
| NumberOrder.NumbersOnTheLine | msgpack11.cpp:440-484 | finite numbers compare as reals, -infinity is below and +infinity above all else, for tame numbers and for any two floats without NaN |
| NumberOrder.NanIsUnordered | msgpack11.cpp:440-484 | a NaN is neither less than nor equal to any number, either way round |
| NumberOrder.SoundExactlyWhenTame | msgpack11.cpp:440-461 | a float equals itself and at most one integer value exactly when it is tame |
| NumberOrder.SoundKeyExactlyWhenTame | msgpack11.cpp:463-484 | under operator<, the integers tied with a float are tied with each other exactly when the float is tame |
| NumberOrder.EqualityIsNotTransitive | msgpack11.cpp:526-543 | the double 2^53 equals both INT64 2^53 and INT64 2^53 + 1, which differ |
| ValueOrder.LessIsCompare | msgpack11.cpp:397-405 | on tame values, nested ones included, less and equals are "below" and "equal" of a three-way comparison by class, exact number and content |
| ValueOrder.CompareFlip | msgpack11.hpp:225-228 | the three-way comparison is antisymmetric on all values |
| ValueOrder.CompareChain | msgpack11.hpp:58 | the three-way comparison is transitive on tame values, and equal values are interchangeable in it |
| ValueOrder.LessIsStrictWeakOrder | msgpack11.hpp:58 | operator< on tame values is irreflexive and transitive, so is incomparability, and operator== holds exactly when neither value is less |
| KeyOrder.Twins | msgpack11.cpp:397-405 | every value is tied with tame values that keep its shape; if it is not tame, with two of which one is less than the other |
| KeyOrder.SoundKeyExactlyWhenTame | msgpack11.hpp:58 | any comparable values tied with a value are tied with each other exactly when all its floats, at every depth, are tame |
| KeyOrder.SoundKeyAmongMapsExactlyWhenTame | msgpack11.hpp:58 | the same when all maps inside the values are in iteration order and those inside the key have tame keys |
| KeyOrder.SoundWithUntameInnerKey | msgpack11.hpp:58 | without that condition on inner keys it fails: the ordered map with keys [0, 0], [NaN, 1] and [0, 2] is not tame, yet all ordered comparable values tied with it are tied |
| NormOrder.ComparisonsOfNorm | msgpack11.cpp:440-619 | retyping integers changes no answer of operator< or operator==, for any typed values |
| NormOrder.BuildMapOfSorted | msgpack11.cpp:885-894 | inserting entries in iteration order rebuilds the map: no insertion collides |
| MapLaws.FirstPairWins | msgpack11.cpp:885-894 | with tame keys the parsed map is strictly sorted and holds exactly the first pair, in wire order, of every class of equal keys |
| MapLaws.BuildMapSorted | msgpack11.cpp:885-894 | a parsed map whose own keys are tame is sorted, whatever keys were dropped |
| Encoding.EncodeOfNorm | msgpack11.cpp:115-213 | the bytes of a value do not depend on the integer types in it |
| Encoding.FirstByteOfInt | msgpack11.cpp:115-213 | the first byte and the length of every integer's encoding, by its number: unsigned formats from 128 up, signed ones below -32 |
| HostOrder.LoadStored | msgpack11.cpp:75-99 | storing a number and loading it again is the identity on hosts of either byte order |
| Bytes.BigEndianDigit | msgpack11.cpp:81-99 | byte i of a number on the wire is its base-256 digit of that rank |
| Dumper.DumpData | msgpack11.cpp:81-99 | on either host the loop writes the base-256 digits, most significant first |
| Dumper.DumpNull | msgpack11.cpp:101-103 | appends the encoding of null |
| Dumper.DumpFloat | msgpack11.cpp:105-108 | appends the marker and the four bytes of the float's bits |
| Dumper.DumpDouble | msgpack11.cpp:110-113 | appends the marker and the eight bytes of the double's bits |
| Dumper.DumpBool | msgpack11.cpp:215-218 | appends the one byte of the boolean |
| Dumper.DumpU8 | msgpack11.cpp:115-121 | appends the one integer encoding of the number |
| Dumper.DumpU16 | msgpack11.cpp:123-133 | the same, handing small numbers to the 8-bit overload |
| Dumper.DumpU32 | msgpack11.cpp:135-145 | the same, handing small numbers to the 16-bit overload |
| Dumper.DumpU64 | msgpack11.cpp:147-157 | the same, handing small numbers to the 32-bit overload |
| Dumper.DumpI8 | msgpack11.cpp:159-165 | the same for a signed byte |
| Dumper.DumpI16 | msgpack11.cpp:167-181 | the same, handing numbers on to the signed 8-bit or unsigned 16-bit overload |
| Dumper.DumpI32 | msgpack11.cpp:183-197 | the same, handing numbers on to the signed 16-bit or unsigned 32-bit overload |
| Dumper.DumpI64 | msgpack11.cpp:199-213 | the same, handing numbers on to the signed 32-bit or unsigned 64-bit overload |
| Dumper.DumpInt | msgpack11.cpp:115-213 | all eight overloads append the same bytes for the same number |
| Dumper.DumpString | msgpack11.cpp:220-250 | appends header and bytes, or throws and appends nothing, exactly from 2^32 bytes on |
| Dumper.DumpBinary | msgpack11.cpp:307-329 | appends header and bytes, or throws and appends nothing, exactly from 2^32 bytes on |
| Dumper.DumpExtension | msgpack11.cpp:331-369 | appends header, type byte and data, or throws and appends nothing, exactly from 2^32 bytes on |
| Dumper.DumpArrayLength | msgpack11.cpp:253-272 | appends the header, or throws and appends nothing, exactly from 2^32 items on |
| Dumper.DumpArray | msgpack11.cpp:252-277 | appends header and items in order; throws exactly when a length in it does not fit 32 bits, having written all that comes before that length |
| Dumper.DumpObjectLength | msgpack11.cpp:280-299 | appends the header, or throws and appends nothing, exactly from 2^32 entries on |
| Dumper.DumpObject | msgpack11.cpp:279-305 | appends header and entries in iteration order; throws exactly when a length in it does not fit 32 bits, having written all that comes before that length |
| Dumper.Dump | msgpack11.cpp:372-375 | operator<< appends exactly the encoding of the value, or throws exactly when some length does not fit 32 bits, having written what comes before the first such length |
| Interrupted.WrittenInFull | msgpack11.cpp:220-369 | where no length is too long, what would be written before a throw is the whole encoding |
| Interrupted.WrittenDoesNotParse | msgpack11.cpp:253-305 | what was written before a throw is not read back as a value at any number of levels |
| DispatchTable.ReachedSlotsAreOwned | msgpack11.cpp:1000-1013 | every slot below the largest bound has a first entry whose bound is at or above it |
| DispatchTable.FillTable | msgpack11.cpp:1000-1013 | for any template the fill loop gives each slot the handler of the first entry whose bound is at or above it, and leaves the slots beyond all bounds alone |
| DispatchTable.TemplateMatchesFormats | msgpack11.cpp:964-998 | for each of the 256 first bytes that entry is the format of the MessagePack specification |
| DispatchTable.BuildTable | msgpack11.cpp:963-1014 | the finished table is the specification's format table; the four null entries reach no slot |
| InputStream.IStream.Get | msgpack11.cpp:815 | get() returns the next byte; past the end it sets eof and fail; on a bad stream it only sets fail |
| InputStream.IStream.Read | msgpack11.cpp:857 | read() fills the buffer, or fills as much as there is and sets eof and fail with the position at the end; on a bad stream it only sets fail |
| InputStream.IStream.Tellg | msgpack11.cpp:1069-1073 | tellg() is the position, or -1 on a stream that is not good |
| Parser.Fail | msgpack11.cpp:830-833 | sets the fail bit, moves nothing, gives Null |
| Parser.ReadBytes | msgpack11.cpp:801-824 | on either host reads the big-endian number, or 0 on any failure |
| Parser.LoadedNumber | msgpack11.cpp:808-817 | bytes stored through the moving pointer load as the number on the wire, on either host |
| Parser.ParseStringImpl | msgpack11.cpp:854-859 | refines the reading of a string of known length |
| Parser.ParseBinaryImpl | msgpack11.cpp:903-908 | refines the reading of a binary of known length |
| Parser.ParseExtensionImpl | msgpack11.cpp:917-925 | refines the reading of an extension of known length |
| Parser.ParseArrayImpl | msgpack11.cpp:868-876 | the loop refines the reading of consecutive items; after a failure neither position nor eof bit changes any more, though the loop runs on |
| Parser.ParseObjectImpl | msgpack11.cpp:885-894 | the loop refines the reading of consecutive pairs and the map built from them; a failure sticks in the same way |
| Parser.RunLeafHandler | msgpack11.cpp:835-956 | every handler of a value without parts refines the reading of its format |
| Parser.RunContainerHandler | msgpack11.cpp:878-939 | every handler of an array or map refines the reading of its format |
| Parser.RunHandler | msgpack11.cpp:1027 | the handler found in the table refines the reading of what follows the first byte |
| Parser.ParseMsgpack | msgpack11.cpp:1016-1033 | on a good stream returns the value of the reading, or Null with the stream failed for the same reason and at the same place; on a bad stream moves nothing and returns Null; ends on every input |
| Prefixes.ParseElsewhere | msgpack11.cpp:962-1033 | the bytes a successful parse used give the same value at any place in any string |
| Prefixes.ParseOfPrefix | msgpack11.cpp:802-824 | cut anywhere inside those bytes, the parse fails with eof at the cut |
| Prefixes.ParseIgnoresTheRest | msgpack11.cpp:1043-1045 | what follows a successfully parsed value has no influence on it |
| Grammar.SpelledIsRead | msgpack11.cpp:847-1033 | any serialised object, with any header the specification allows for its lengths, is read as what it denotes wherever it stands, or fails without eof if too deep |
| Grammar.ParsedIsSpelled | msgpack11.cpp:847-1033 | whatever parse accepts is such a serialised object and the result is what it denotes |
| Grammar.UnusedByte | msgpack11.cpp:835-837 | 0xc1 fails at once and not for want of data |
| RoundTrip.LeafRead | msgpack11.cpp:101-369 | an encoded value without parts is read back retyped, using exactly its bytes, wherever it stands |
| RoundTrip.ReadBack | msgpack11.cpp:101-1033 | for any value and any number of levels: read back in full if it is not too high, failing without eof if it is |
| RoundTrip.ItemsReadBack | msgpack11.cpp:868-894 | the same for consecutive values |
| Reserialise.ParsedFits | msgpack11.cpp:847-956 | any successful parse returns a value with integers in range, lengths below 2^32, and no higher than the levels left |
| Reserialise.ParsedGrowth | msgpack11.cpp:868-956 | any successful parse used at least as many bytes as the encoding of its result has |
| Reserialise.ParsedOrdered | msgpack11.cpp:885-894 | every map in a parsed value with tame keys is in iteration order |
| SelfEquality.EqualsItself | msgpack11.cpp:397-400 | a value equals itself exactly when it contains no NaN |
| SelfEquality.EqualsItsNorm | msgpack11.cpp:440-461 | a value equals its retyped form, either way round, exactly when it contains no NaN |
| FloatBits.Float64Injective | msgpack11.cpp:450-452 | doubles that denote the same number have the same bits or are both zero |
| FloatBits.Float32Injective | msgpack11.cpp:450-452 | the same for floats |
| SelfEquality.EqualAndAlikeIsSameNorm | msgpack11.cpp:397-484 | values are equal with numbers of like class and zeros of like sign at like places exactly when they are NaN-free and identical up to integer types |
| SelfEquality.EqualsIsSameNorm | msgpack11.cpp:397-543 | float-free values are equal exactly when they are identical up to integer types |
| Codec.DumpThenParse | test/basic.cpp:29-46 | dump then parse, with anything behind, gives back the retyped value and stops at its end; that value equals the original exactly when there is no NaN |
| Codec.ParseAcceptsTheFormat | msgpack11.cpp:962-1055 | parse accepts exactly the language of the MessagePack specification up to the depth limit and returns what the text denotes |
| Codec.DumpIsSpelled | msgpack11.cpp:101-369 | dump writes a text of the format that denotes the retyped value |
| Codec.DumpIsShortest | msgpack11.cpp:101-369 | no text of the format with that meaning is shorter |
| Codec.DepthThreshold | msgpack11.cpp:1016-1019 | what dump wrote parses exactly when it nests at most 200 levels below the outermost, and otherwise fails without eof |
| Codec.ResultsAreShallow | msgpack11.cpp:1016-1019 | no successful parse returns anything deeper |
| Codec.TruncationIsDetected | test/incomplete_data.cpp:34-39 | every proper prefix of the bytes of a value fails with the end of the buffer as the reason |
| Codec.EncodingsArePrefixFree | msgpack11.cpp:101-369 | no encoding is a proper prefix of another, at any depth |
| Codec.SameBytesExactlyWhenSameNorm | msgpack11.cpp:101-369 | two values are written alike exactly when they agree up to integer types |
| Codec.EqualityIsByteEquality | msgpack11.cpp:396-484 | for float-free values operator== is equality of the dumped bytes |
| Codec.EqualityAndBytes | msgpack11.cpp:396-484 | values are equal and alike in number classes and signs of zero, place by place, exactly when their bytes agree and they have no NaN |
| Codec.SameBytesAreEqual | msgpack11.cpp:396-484 | equal bytes of NaN-free values mean equal values |
| Codec.EqualFloatWithOtherBytes | msgpack11.cpp:440-461 | the double 2^53 and the integer 2^53 are equal but written differently |
| Codec.InterruptedDumpIsDetected | msgpack11.cpp:220-369 | what a dump that threw has written never parses |
| Codec.ReserialisingNeverGrows | msgpack11.cpp:868-956 | dumping what was parsed takes no more bytes than parsing consumed, redundant headers and repeated keys included |
| Codec.ReserialisingIsStable | msgpack11.cpp:115-369 | after one parse and dump of a value with tame keys, a second reproduces the same bytes |
| ParseApi.ParseStream | msgpack11.cpp:1047-1055 | err becomes "end of buffer." or "format error." exactly on failure and is untouched on success |
| ParseApi.ParseWhole | msgpack11.cpp:1057-1060 | the same for a whole string |
| ParseApi.ParseTruncated | test/incomplete_data.cpp:34-39 | a string cut short inside its value gives Null and "end of buffer." |
| ParseApi.ParseMultiLoop | msgpack11.cpp:1063-1078 | the loop ends and returns the values, stop position and error of the successive reading; the stop position is assigned only when something parsed |
| ParseApi.MultiIsSuccessive | msgpack11.cpp:1069-1075 | on any input the values are the successive successful parses, the stop position is the end of the last, and reading stopped at the end of the string or where parse fails |
| ParseApi.MultiOfDumps | msgpack11.cpp:1069-1075 | encodings back to back at the end of a string come back as all their values |
| ParseApi.DumpsThenParseMulti | test/multi.cpp:24-40 | parse_multi of concatenated dumps returns every value, with the stop position at the total length |
| ParseApi.SeparatorsAreIntegers | msgpack11.hpp:210 | any run of bytes below 0x80, whitespace included, between encodings comes back as one integer per byte; the values come back alone exactly when the run is empty |
| ParseApi.DumpAndParse | test/basic.cpp:29-46 | dumping on one host and parsing on another, of either byte order each, returns the retyped value, or Null with "format error." when it is too deep |
| Hashing.HashStrLoop | benchmark/src/common/hash.h:87-126 | the loop over words and the fall-through switch over the rest hash the string as zero-padded little-endian words |
| HashLaws.StepLaw | benchmark/src/common/hash.h:54-57 | hashing 0 multiplies by 31 modulo 2^32, and two words leave hashes that differ in the bits the words differ in |
| HashLaws.PastMatters | benchmark/src/common/hash.h:54-57 | different hashes stay different after the same word |
| HashLaws.OneWordIsNoticed | benchmark/src/common/hash.h:54-57 | two lists of words that differ in exactly one word hash differently from every start |
| HashLaws.HashIsFold | benchmark/src/hash/hash-object.c:28-81 | the hash of a struct tree is the fold of its 32-bit words, listed from the tree alone |
| HashLaws.ValueHashIsFold | benchmark/src/msgpack11-unpack.cpp:31-86 | a parsed value is hashed exactly when it has no binary, extension or non-string key, and then to the fold of its words |
| HashLaws.ChangeIsNoticed | benchmark/src/hash/hash-object.c:28-81 | one flipped boolean, one changed half of an integer or one changed byte of a string anywhere in a tree changes the hash |
| HashLaws.NilCollides | benchmark/src/common/hash.h:128-132 | from every start, for every high half, exactly one low half makes an unsigned integer hash like nil |
| BenchObject.HashObject | benchmark/src/hash/hash-object.c:28-81 | the walk over the structs leaves the reference hash in the accumulator |
| BenchObject.HashArray | benchmark/src/hash/hash-object.c:54-60 | the loop over array elements, then the count |
| BenchObject.HashMap | benchmark/src/hash/hash-object.c:62-74 | the loop over keys and values, then the count |
| ValueHash.HashParsed | benchmark/src/msgpack11-unpack.cpp:31-86 | the walk over a parsed value computes its hash, or throws on binaries, extensions and non-string keys |
| Packing.PackObject | benchmark/src/msgpack11-pack.cpp:31-69 | packing fills arrays in place and maps by assignment as the packing function says |
| Packing.PackArray | benchmark/src/msgpack11-pack.cpp:45-52 | the elements of an array in order |
| Packing.PackMap | benchmark/src/msgpack11-pack.cpp:53-63 | the entries of a map by assignment under each key |
| Packing.PackCleanMap | benchmark/src/msgpack11-pack.cpp:53-63 | with strictly increasing keys every entry is kept, in order |
| Packing.CleanPacksWell | benchmark/src/msgpack11-pack.cpp:31-69 | a generated tree packs to a typed, short, ordered value of the same height |
| Packing.IntHashesAgree | benchmark/src/msgpack11-unpack.cpp:41-56 | an integer hashes alike in the type it was packed with and the type it is parsed with |
| Packing.HashesAgree | benchmark/src/msgpack11-unpack.cpp:31-86 | the hash of the retyped packed tree is the hash of the structs, from any initial hash |
| Packing.HashSurvivesTheWire | benchmark/src/msgpack11-unpack.cpp:88-104 | pack, dump, parse and hash of a generated tree within the depth limit gives the hash of the structs |
| PackLaws.WireMirrors | benchmark/src/msgpack11-pack.cpp:31-69 | what comes back over the wire mirrors the struct tree scalar by scalar, text by text and child by child, doubles by their bits |
| PackLaws.PackMirrors | benchmark/src/msgpack11-pack.cpp:31-69 | the packed value mirrors the tree |
| PackLaws.PackDetermines | benchmark/src/msgpack11-pack.cpp:31-69 | generated trees that are packed alike are equal |
| PackLaws.LastAssignmentWins | benchmark/src/msgpack11-pack.cpp:53-63 | a packed map is in order and holds under each key the value assigned last, also when keys repeat |
| Memory.PutFrame | benchmark/src/common/generator.c:311 | a write changes only the cells it overlaps |
| Memory.PutClears | benchmark/src/common/generator.c:311 | a write leaves nothing else in the bytes it covers |
| Pool.ObjectAlign | benchmark/src/common/generator.c:188-191 | the mask expression is the next multiple of the alignment |
| Pool.AccountSize | benchmark/src/common/generator.c:193-294 | object_init adds exactly the bytes the copy of the tree will need |
| Pool.AccountElements | benchmark/src/common/generator.c:246-247 | the same over the elements of an array |
| Pool.AccountEntries | benchmark/src/common/generator.c:278-287 | the same over the keys and values of a map |
| Pool.ObjectCopy | benchmark/src/common/generator.c:310-332 | *dest becomes the root of the same tree laid out depth-first from the cursor on; the cursor advances by its size; nothing but *dest and those bytes is written |
| Pool.CopyContainer | benchmark/src/common/generator.c:313-323 | the same for a map or an array |
| Pool.CopyChildren | benchmark/src/common/generator.c:316-317 | after the loop every child is in its slot with its descendants in its own range, earlier siblings intact |
| Pool.CopyChars | benchmark/src/common/generator.c:327 | the string and its terminator arrive; nothing else is written |
| Pool.LaidFrame | benchmark/src/common/generator.c:316-323 | a laid-out tree survives all writes away from its bytes |
| Pool.LaidInChunk | benchmark/src/common/generator.c:350-351 | a tree laid out in a chunk depends on nothing outside it, so freeing the source is harmless |
| Pool.RegionsInOrder | benchmark/src/common/generator.h:78-79 | the regions of the layout are aligned, pairwise disjoint, and inside the bytes of the tree |
| Pool.HandedIsRegions | benchmark/src/common/generator.c:313-327 | following the pointers stored in memory from the copied root reaches exactly the regions of the layout, in order |
| Pool.LaidHolds | benchmark/src/common/generator.c:310-332 | a laid-out tree reads from memory as that tree |
| Pool.MemoryDetermines | benchmark/src/common/generator.c:310-332 | memory at an address reads as at most one tree, so source and copy are equal |
| Pool.CreateFlat | benchmark/src/common/generator.c:334-357 | the copy fills one chunk of the accounted size exactly, root first; every pointer in it leads to an aligned region of its own inside the chunk; the source is intact and nothing outside the chunk is written |
| Random.Generator.Next | benchmark/src/common/generator.c:30-36 | one step in wrapping 64-bit arithmetic, returning the new value |
| Random.Generator.Seed | benchmark/src/common/generator.c:38-42 | the start state of a seed, with no zero word, no carry of 2^32 - 2, and within the space for a 32-bit seed |
| Random.ProductDoesNotWrap | benchmark/src/common/generator.c:32 | product plus carry always fits 64 bits |
| Random.StepEntersSpace | benchmark/src/common/generator.c:30-36 | a step ends with a carry below the multiplier from every state but those with the largest value and an oversized carry |
| Random.BackUndoesStep | benchmark/src/common/generator.c:30-36 | a step within the space can be undone by dividing |
| Random.StepUndoesBack | benchmark/src/common/generator.c:30-36 | every state of the space is reached by a step from the space |
| Random.RunsAreReversible | benchmark/src/common/generator.c:30-36 | any run can be followed back to its start |
| Random.FirstRepeatIsTheStart | benchmark/src/common/generator.c:30-36 | the first state a run meets twice is its start |
| Random.StillExactlyThere | benchmark/src/common/generator.c:30-36 | a step stands still at exactly two states, given as numbers |
| Random.StillFromTheStart | benchmark/src/common/generator.c:30-36 | a run that ever stands still has done so from its start |
| Random.SeededRunsNeverStandStill | benchmark/src/common/generator.c:30-42 | no run from any seed ever stands still |
| Random.SeededRunsStayInSpace | benchmark/src/common/generator.c:38-42 | from a 32-bit seed at once, from any seed after one step, every state is in the space |
| Random.SeedAvoids | benchmark/src/common/generator.c:39-41 | neither word starts at 0 and the carry never at 2^32 - 2; the value starts at 2^32 - 2 exactly for the seeds described |
| Random.SeedsStartAlike | benchmark/src/common/generator.c:38-42 | two seeds give the same start exactly when they agree in all bits but 0, 8, 48 and 52 |
| Random.SeedCanBeUintMaxMinusOne | benchmark/src/common/generator.c:39-41 | a seed whose value does start at 2^32 - 2 |

## Left out

- Maps.Insert: models the search of `std::map` as a scan for the first larger key; the tree search gives the same place only
  when the comparator is a strict weak order, that is for tame keys.
- InputStream.IStream.Read: badbit, locales and stream exceptions are not modelled.
- DispatchTable.BuildTable: the table is built for each call of parse instead of once in a static.
- Codec.EqualityIsByteEquality: for float-free values only; Codec.EqualityAndBytes covers all values.
- KeyOrder.SoundKeyAmongMapsExactlyWhenTame: only for keys whose own maps have tame keys, because an untame key squeezed
  between two neighbours can be harmless (KeyOrder.SoundWithUntameInnerKey).
- Allocation failure (`reserve`, `resize`, `malloc`), `shared_ptr` sharing, constructors, accessors, `operator[]`, `has_shape`
  and the `is_*` predicates: no part in the codec or the order.
- Quieting of signalling NaNs when a float passes through a register: floats keep their bits.
- `parse` on a null pointer (`msgpack11.hpp:202-209`).
- `random_inverse`, `random_type`, `random_key`, `random_string`, `qsort` and `object_teardown` in the generator: the tree is
  arbitrary, with strictly sorted keys and matching lengths where a result needs them.
- Pool.CreateFlat: addresses and sizes are unbounded; `object_t` has 16 bytes and alignment 8, as on 64-bit hosts.
- BenchObject.HashObject: the structs are read as a tree value; Pool shows that the flattened memory holds that tree.
- ValueHash.HashParsed: a map key that is not a string counts as a failure, as with assertions enabled.
- Timing, file loading, the msgpack-c benchmarks, `buffer.h`, `results.py`, build files: input, output and external libraries.
