# Verified model of rmw_cyclonedds_cpp

This project models the parts of the Cyclone DDS binding for ROS 2 in which one piece of code silently relies on
another, and proves what they rely on.

**The CDR codec.** A writer, a reader, a size calculator, a size-bound calculator and a key extractor walk the same
runtime type tree. Wherever the image of a value in memory already is its image on the wire, they replace the walk by a
memory copy. `Cdr` defines the plain encoding and decoding of values without any shortcut (CORBA 3.0.3 section 15.3,
DDS-XTypes 1.3 section 7.4.1, encoding version 1). `NativeMemory` defines values in memory. `WriterPaths`,
`ReaderPaths` and `KeyPaths` define what the code does, every shortcut included, and prove when that is the plain
encoding. `Writer`, `CdrWriter`, `Reader`, `CdrReader` and `KeyReader` hold the cursors and the walks as they are
programmed, with their loops and buffers, proved to do exactly what those functions say. `SizeWalk` and `SizeBounds`
treat the bounds on serialized sizes, `Keys` and `RequestKeys` the serialized keys. `Reach` says at which residues the
parts of an encoding can begin, and from that on which types the bulk copies do no harm to keys; `KeyOut` and
`ReachExact` prove that condition exact, `KeyBulk`, `KeyBulkRead` and `KeyedPairs` settle single runs of elements.
`BuiltTypes` draws the consequences of the bounds that the type builder sets. `CdrReader` and `KeyReader` together are
the source's one reader class, split because its two halves write to different things. `ByteSwap` ties the
shift-and-mask swaps of words to the reversal of bytes that the other modules use.

**Serialized data.** `Serdata` holds the buffers of the DDS stack: padding, reassembly of fragments, keys made from
samples and keys found in messages. `KeyHash` compares and hashes keys (DDSI-RTPS 2.3 section 9.6.3.8).

**Wait sets.** `Waitset` models the cache of attached entities and the scan that reports what was triggered, as the
class and loops they are; `WaitsetRuns` the runs of a process in which entities come and go, addresses are used again
and waits are in progress.

**Services.** `ServiceRouting` models requests and responses over a transport that loses, duplicates and reorders.

**Names.** `Names` prints and parses the names of types and topics on the wire.

Values are free of byte order: a primitive is its little-endian numeral. Modes are `Sample` (everything) and `Key` (in
a struct with key members, those only). Exceptions are results. The byte order of the machine is a parameter
throughout, so every statement about two machines covers equal and unequal byte orders. Where the code writes beyond a
buffer, the model counts the bytes that go beyond it (`Writer.WriteCursor.Overrun`) instead of excluding the case.

## Where the code does not do what it is for

Each of these is kept as programmed; the lemmas named give the exact condition under which it does no harm, or a
concrete case in which it does.

- The bulk copy of the second and later elements ignores key mode, in all three walks. The writer then emits bytes
  outside the key (`ReachExact.KeyCodingExact`, `KeyBulk.BulkKeyExact`, `KeyBulk.SecondPairWhole`), the reader
  overwrites members outside the key (`KeyBulkRead.BulkLoadExact`, `KeyBulkRead.SecondPairOverwritten`), and extraction
  emits them (`ReachExact.ExtractionExact`, `KeyBulkRead.BulkExtractExact`, `KeyBulkRead.SecondPairExtracted`).
  Theorems about keys carry the guard `Reach.KeySafe`, which a caller can evaluate on the type, and which is exact for
  writing keys and for extracting them from samples.
- The walk for size bounds does honour key mode, so that what the bulk copies emit may exceed the maximum
  (`KeyBulk.BulkBoundExact`, `KeyBulkRead.BulkExtractBoundExact`). Where the bounds are equal the buffer of a key is
  allocated with that size, and making the key writes beyond it (`KeyedPairs.PairsKeyOverruns`: for four pairs 11 bytes
  go into 10). Where keys are copied because of that maximum, a received key within its bounds is copied beyond the
  hash (`KeyedPairs.PairsHashOverruns`: on a big-endian machine 25 bytes of 13 pairs go into 16).
- The walk for size bounds adds two elements too many to every repetition, so that a size taken from equal bounds may
  be too large (`CdrWriter.ReportedSizeExact`, `CdrWriter.FixedArrayOverstated`). Because of that a key made from a
  sample may differ from the same key received (`KeyHash.MadeEqualsReceived`), and keys that never exceed 16 bytes may
  be hashed where they should be copied (`KeyHash.ShortKeysCopied`, `KeyHash.SixteenOctetsNotCopied`).
- No reader checks the bounds of sequences, but the decision to copy a key instead of hashing it relies on them: a
  received key with a sequence beyond its bound is copied beyond the hash (`KeyHash.NoOverrunExact`,
  `KeyHash.LongKeyOverruns`). Strings do no such harm, since every string is given the largest bound there is and keys
  with strings are always digested (`BuiltTypes.TextUnbounded`).
- Key extraction in the other byte order leaves wide characters in native order (`Keys.BigEndianKeyExact`), so that
  machines of different byte order digest different bytes of keys with wide strings (`KeyHash.HashInputsExact`,
  `KeyHash.HashesAgree`). Copied keys have no wide strings and are right (`KeyHash.CopiedKeyIsHash`).
- Key extraction from a request skips 8 of the 16 bytes of the request header; no type with keys escapes that
  (`RequestKeys.RequestKeyExact`, `Keys.RequestKeyIsSequenceNumber`).
- The sequence number of a request is never byte-swapped (`CdrReader.RequestHeaderRoundTrip`,
  `CdrReader.SequenceNumberGarbled`, `ServiceRouting.NumberSeen`); on the way back that repairs itself
  (`CdrReader.HeaderComesBack`, `ServiceRouting.ResponsesComeHome`).
- A wait that fails on an invalid event leaves the wait set marked as in use (`Waitset.CddsWaitset.Wait`,
  `WaitsetRuns.StuckForGood`, reached in `WaitsetRuns.StuckRun`).
- A wait that has been entered but has not yet looked at its cache is passed over when caches are cleaned, so that an
  entity destroyed just then is still named in the cache and its memory is read (`WaitsetRuns.StalePointerExact`,
  reached in `WaitsetRuns.StaleRun`).
- A message type with a request suffix anywhere in its wire name, or whose name ends like that of a response, passes
  for a service type (`Names.MessageIsNoService`, `Names.MessagesTakenForServices`).

The types in these examples satisfy `Types.Built`: the type builder makes them.

## Model

| member | source | states |
|---|---|---|
| ByteSwap.SwapReverses | rmw_cyclonedds_cpp/src/Serialization.cpp:49-70 | each of the three shift-and-mask swaps reverses the bytes that its word has in memory, on machines of either byte order |
| TrivCache.ComputeTriv | rmw_cyclonedds_cpp/src/trivsercache.hpp:121-211 | the test with its offset loop decides exactly when every leaf is aligned and there are no gaps |
| TrivCache.TrivShift | rmw_cyclonedds_cpp/src/trivsercache.hpp:153-174 | a type that is trivially serialized at one offset is so at exactly those offsets that differ by a multiple of its largest primitive alignment, through nested structs and arrays |
| TrivCache.ManyTrivEverywhere | rmw_cyclonedds_cpp/src/trivsercache.hpp:153-174 | trivially serialized at an offset and one element further on implies it at every element |
| TrivCache.TriviallySerializedCache.Register | rmw_cyclonedds_cpp/src/trivsercache.hpp:73-118 | registration terminates although it recurses while entries hold provisional answers, only adds entries, and leaves every type it added with the right answer at all eight alignments |
| TrivCache.TriviallySerializedCache.constructor | rmw_cyclonedds_cpp/src/trivsercache.hpp:66-70 | the filled cache answers every lookup at every type below the root, and equals the uncached recursive test |
| Cdr.RoundTrip | rmw_cyclonedds_cpp/src/Serialization.cpp:903-1093 | decoding an encoding in any byte order, from any offset and in either mode, gives back the value and ends where the encoding ends |
| Cdr.DecConsumesSize | rmw_cyclonedds_cpp/src/Serialization.cpp:700-738 | on any input at all a decoded value is well typed and the bytes consumed are as many as its encoding takes |
| NativeMemory.TrivImage | rmw_cyclonedds_cpp/src/Serialization.cpp:535-545 | where a type is trivially serialized, the bytes in memory are the encoding of the value |
| NativeMemory.TrivDecEnd | rmw_cyclonedds_cpp/src/Serialization.cpp:1081-1093 | there decoding fails just when fewer than the size in memory are left, and otherwise consumes that many, in either byte order |
| NativeMemory.TrivStore | rmw_cyclonedds_cpp/src/Serialization.cpp:1081-1093 | there copying the input into memory is the same as decoding it and storing the value |
| NativeMemory.StoreValueOf | rmw_cyclonedds_cpp/src/Serialization.cpp:1064-1079 | reading back what was stored gives the value, cut down to the members the mode selects |
| NativeMemory.StoreFrame | rmw_cyclonedds_cpp/src/Serialization.cpp:1064-1079 | storing a value changes no memory outside the members the mode selects |
| WriterPaths.CodedIsPlain | rmw_cyclonedds_cpp/src/Serialization.cpp:463-562 | the optimised writer emits the plain aligned encoding: for every type tree, memory and offset in sample mode, and in key mode wherever the type says that no key walk reaches a bulk copy that leaves members out |
| Reach.EncReaches | rmw_cyclonedds_cpp/src/Serialization.cpp:463-562 | whatever the value, its encoding ends at one of the residues of the largest alignment that the type says it may end at |
| Reach.AnyNumberWithin | rmw_cyclonedds_cpp/src/Serialization.cpp:463-495 | however many elements a sequence has, they begin where as many elements as there are residues can begin |
| ReachExact.KeyCodingExact | rmw_cyclonedds_cpp/src/Serialization.cpp:463-562 | the writer emits the plain encoding of the key of every object of a type if and only if the type says that the key walk is safe at the offset where it begins |
| ReachExact.UnsafeMemory | rmw_cyclonedds_cpp/src/Serialization.cpp:485-488 | otherwise two objects with the same key exist of which different keys are written |
| ReachExact.Reached | rmw_cyclonedds_cpp/src/Serialization.cpp:463-562 | every residue that the type says an encoding may end at is one where the encoding of some value ends |
| KeyBulk.BulkKeyExact | rmw_cyclonedds_cpp/src/Serialization.cpp:463-495 | keyed elements come out as the plain key encoding, whatever they hold, if and only if the bulk copy is not taken after the first one or no key walk leaves a member out |
| KeyBulk.BulkKeyLeaks | rmw_cyclonedds_cpp/src/Serialization.cpp:485-488 | otherwise two memories with the same key exist of which at most one is encoded right |
| KeyBulk.SecondPairWhole | rmw_cyclonedds_cpp/src/Serialization.cpp:485-488 | of two pairs with one key octet each, three bytes go out instead of two |
| KeyBulk.BulkBoundExact | rmw_cyclonedds_cpp/src/Serialization.cpp:463-495 | keyed elements within their bounds stay within the walk for the maximum, whatever they hold, if and only if the bulk copy is not taken after the first one or what it copies is not more than that walk adds for the others |
| KeyBulkRead.BulkLoadExact | rmw_cyclonedds_cpp/src/Serialization.cpp:997-1029 | reading keyed elements leaves the same memory as decoding and storing their keys, for every input and memory, if and only if bytes are swapped, the bulk copy is not taken after the first element, or no key walk leaves a member out |
| KeyBulkRead.SecondPairOverwritten | rmw_cyclonedds_cpp/src/Serialization.cpp:1021-1022 | reading the keys of two pairs overwrites the octet of the second pair that is not part of a key |
| KeyBulkRead.BulkExtractExact | rmw_cyclonedds_cpp/src/Serialization.cpp:1210-1242 | extraction emits the plain encoding of the keys of consecutive elements, from samples as from keys and for every input, under the same condition with either side swapped |
| KeyBulkRead.SecondPairExtracted | rmw_cyclonedds_cpp/src/Serialization.cpp:1231-1236 | from a sample of two pairs three bytes are extracted, the last of which is not part of a key |
| KeyBulkRead.BulkExtractBoundExact | rmw_cyclonedds_cpp/src/Serialization.cpp:1210-1242 | what is extracted from keyed elements within their bounds stays within the walk for the maximum, whatever the input, if and only if something is swapped, the bulk copy is not taken after the first element, or what it copies is not more than that walk adds for the others |
| Writer.WriteCursor.PutBytes | rmw_cyclonedds_cpp/src/Serialization.cpp:125-196 | the buffer holds what was emitted so far, as far as it reaches, and behind it what it held before; a cursor without a buffer counts the same |
| Writer.Serializer.Any | rmw_cyclonedds_cpp/src/Serialization.cpp:535-545 | appends exactly the bytes that the function of memory says, copying when the cache allows it |
| Writer.Serializer.Members | rmw_cyclonedds_cpp/src/Serialization.cpp:547-562 | appends the selected members, in order |
| Writer.Serializer.Many | rmw_cyclonedds_cpp/src/Serialization.cpp:463-495 | appends the first element and then the others, in bulk or one by one |
| SizeWalk.EndPeriodic | rmw_cyclonedds_cpp/src/Serialization.cpp:564-685 | the walk ends at the same residue of the largest alignment wherever it starts, and starting points that agree modulo it stay the same distance apart |
| SizeWalk.SameStride | rmw_cyclonedds_cpp/src/Serialization.cpp:612-619 | after a first element the next one adds the same number of bytes, a multiple of its largest alignment, wherever the first one started |
| SizeWalk.StrideStandsForAll | rmw_cyclonedds_cpp/src/Serialization.cpp:597-627 | multiplying the stride of the second element gives the offset that walking every element gives |
| SizeWalk.ManyIsIterated | rmw_cyclonedds_cpp/src/Serialization.cpp:597-627 | with the repeat count read as the number of elements left the walk is exact, and with the one programmed it only adds |
| SizeBounds.UpperBound | rmw_cyclonedds_cpp/src/Serialization.cpp:564-685 | no encoding of a value within its bounds ends after the walk for the maximum |
| SizeBounds.LowerBound | rmw_cyclonedds_cpp/src/Serialization.cpp:564-685 | with the exact repeat count, none ends before the walk for the minimum |
| SizeBounds.EmptyAttainsMinimum | rmw_cyclonedds_cpp/src/Serialization.cpp:564-685 | the value with every string and sequence empty attains that minimum |
| SizeBounds.FullAttainsMaximum | rmw_cyclonedds_cpp/src/Serialization.cpp:564-685 | with the exact repeat count, the value with every string and sequence at its bound attains the maximum |
| CdrWriter.CheckingSizeCursor.Advance | rmw_cyclonedds_cpp/src/Serialization.cpp:144-169 | the offset never exceeds 32 bits; the step that would exceed it is the exception |
| CdrWriter.BoundRepeat | rmw_cyclonedds_cpp/src/Serialization.cpp:619-624 | the product that is added never wraps, and giving up on one beyond 64 bits never hides a result that fits 32 bits |
| CdrWriter.BoundWalkMany | rmw_cyclonedds_cpp/src/Serialization.cpp:597-627 | succeeds exactly when no count is too large and the exact sum fits 32 bits, and then stands at that sum |
| CdrWriter.BoundWalk | rmw_cyclonedds_cpp/src/Serialization.cpp:659-685 | the same for every type |
| CdrWriter.CDRWriter.ComputeBound | rmw_cyclonedds_cpp/src/Serialization.cpp:318-332 | the stored bound, with headers, or the mark for no bound |
| CdrWriter.CDRWriter.GetSerializedSize | rmw_cyclonedds_cpp/src/Serialization.cpp:274-285 | the size reported for a value: the common bound, or the length of what would be written |
| CdrWriter.CDRWriter.GetSerializedSizeEstimate | rmw_cyclonedds_cpp/src/Serialization.cpp:287-299 | the estimate for a value |
| CdrWriter.EstimateIsClose | rmw_cyclonedds_cpp/src/Serialization.cpp:287-299 | the estimate suffices for every value within its bounds, and is exact, at most 1024, or less than twice the minimum |
| CdrWriter.CDRWriter.Serialize | rmw_cyclonedds_cpp/src/Serialization.cpp:311-349 | fills the front of the buffer with encoding header, request header and body and leaves the rest alone; what the buffer has no room for is counted |
| CdrWriter.StreamBetween | rmw_cyclonedds_cpp/src/Serialization.cpp:318-349 | the length of a stream lies between the exact minimum and any maximum |
| CdrWriter.MaximumCovers | rmw_cyclonedds_cpp/src/Serialization.cpp:306-332 | for every value within its bounds the bytes written are at most the stored maximum |
| CdrWriter.ExactBoundsFixSize | rmw_cyclonedds_cpp/src/Serialization.cpp:274-285 | with the exact repeat count, the bounds are equal if and only if every value within its bounds is serialized to the same size |
| CdrWriter.FullSource | rmw_cyclonedds_cpp/src/Serialization.cpp:301-349 | with the key walk safe, some object of every type is serialized to exactly the exact maximum |
| CdrWriter.ReportedSizeExact | rmw_cyclonedds_cpp/src/Serialization.cpp:274-285 | the reported size is right for every value within its bounds if and only if the stored bounds differ, or they agree with the exact minimum and exist or belong to a type whose exact bounds are equal |
| CdrWriter.FixedArrayOverstated | rmw_cyclonedds_cpp/src/Serialization.cpp:615-624 | for four octets ten bytes are reported and eight written |
| Reader.DeserializeCursor.Take | rmw_cyclonedds_cpp/src/Serialization.cpp:718-726 | takes the next bytes or reports truncated input, and never leaves the input |
| Reader.DeserializeCursor.TakeAligned | rmw_cyclonedds_cpp/src/Serialization.cpp:101-111 | the same after skipping exactly the padding that the offset needs |
| Reader.Deserializer.Any | rmw_cyclonedds_cpp/src/Serialization.cpp:1081-1093 | leaves memory and cursor as the function of input and memory says, or fails exactly when it does |
| Reader.Deserializer.Many | rmw_cyclonedds_cpp/src/Serialization.cpp:997-1029 | the same for consecutive elements, in bulk or one by one |
| Reader.Deserializer.Members | rmw_cyclonedds_cpp/src/Serialization.cpp:1064-1079 | the same for the selected members of a struct |
| ReaderPaths.LoadIsPlain | rmw_cyclonedds_cpp/src/Serialization.cpp:997-1093 | the optimised reader fails on exactly the inputs on which plain decoding fails, and otherwise leaves the same memory and ends at the same offset, whichever mix of paths was taken |
| CdrReader.CDRReader.Deserialize | rmw_cyclonedds_cpp/src/Serialization.cpp:757-836 | header check, choice of byte order, request header and body of a whole message |
| CdrReader.MessageRoundTrip | rmw_cyclonedds_cpp/src/Serialization.cpp:757-836 | what one machine writes another one reads, whatever their byte orders: the reader accepts it, sees the same value, in key mode the same key, and changes nothing else |
| CdrReader.RequestHeaderRoundTrip | rmw_cyclonedds_cpp/src/Serialization.cpp:820-829 | of the request header the guid always survives, the sequence number if and only if the byte orders agree or its bytes are a palindrome |
| CdrReader.HeaderCrosses | rmw_cyclonedds_cpp/src/Serialization.cpp:820-829 | the header that a reader fills in is the one sent with the sequence number turned round if the byte orders differ |
| CdrReader.SequenceNumberGarbled | rmw_cyclonedds_cpp/src/Serialization.cpp:824-827 | a sequence number of one arrives as another number |
| CdrReader.HeaderComesBack | rmw_cyclonedds_cpp/src/Serialization.cpp:820-829 | a request header that a service sends back reaches the client as it was sent, sequence number included, for any two byte orders |
| CdrReader.AnyInput | rmw_cyclonedds_cpp/src/Serialization.cpp:700-738 | on any byte string the reader fails or stores a well-typed value that lies inside the input and takes exactly the bytes its encoding takes |
| CdrReader.KeyReadKeepsRest | rmw_cyclonedds_cpp/src/Serialization.cpp:1064-1079 | reading a key, from any input, leaves everything outside the key as it was: members of nested structs, and those of the elements that a sequence keeps |
| CdrReader.StoreKeepsRest | rmw_cyclonedds_cpp/src/Serialization.cpp:997-1079 | the same for storing any value in key mode into an object of any type |
| KeyPaths.InStep | rmw_cyclonedds_cpp/src/Serialization.cpp:1226-1236 | after a first element source and destination offsets agree modulo the largest alignment of the element, so that what may be copied out of the one may be copied into the other |
| KeyPaths.TrivReencode | rmw_cyclonedds_cpp/src/Serialization.cpp:1231-1236 | re-encoding a trivially serialized value at an offset that suits it reproduces the input bytes |
| KeyPaths.ExtractIsPlain | rmw_cyclonedds_cpp/src/Serialization.cpp:1107-1334 | extraction with its shortcuts refuses exactly what plain decoding refuses, ends where it ends, and emits the plain encoding of the key of the decoded value |
| KeyReader.KeyExtractor.Any | rmw_cyclonedds_cpp/src/Serialization.cpp:1319-1334 | appends to the output and moves the cursor as the function of the input says |
| KeyReader.KeyExtractor.Many | rmw_cyclonedds_cpp/src/Serialization.cpp:1210-1242 | the same for consecutive elements |
| KeyReader.KeyExtractor.Field | rmw_cyclonedds_cpp/src/Serialization.cpp:1289-1317 | the same for one member, which is extracted, skipped or not there according to the mode |
| KeyReader.KeyExtractor.WideString | rmw_cyclonedds_cpp/src/Serialization.cpp:1182-1208 | the length goes out in destination order, the characters in native order |
| KeyReader.KeyCDRReader.ExtractKey | rmw_cyclonedds_cpp/src/Serialization.cpp:765-772 | the key of a whole message in native order, or the exception |
| KeyReader.KeyCDRReader.ExtractKeyBigEndian | rmw_cyclonedds_cpp/src/Serialization.cpp:774-781 | the same with numbers in big-endian order |
| Keys.KeyOfStream | rmw_cyclonedds_cpp/src/Serialization.cpp:845-879 | from a sample or a key of either byte order, padded at the end or not, extraction gives the header and the key of the value that was written |
| Keys.ExtractedKeyIsSerializedKey | rmw_cyclonedds_cpp/src/Serialization.cpp:845-879 | the extracted key is byte for byte what the writer produces in key mode for any object with the same key |
| KeyOut.ExtractIsOut | rmw_cyclonedds_cpp/src/Serialization.cpp:1107-1334 | where nothing is swapped, what extraction emits of a sample is a function of the value in it, bulk copies included |
| ReachExact.ExtractionExact | rmw_cyclonedds_cpp/src/Serialization.cpp:1210-1242 | between machines of one byte order the key extracted from a sample is the key of the object written, whatever the object, if and only if the type says that a key walk over its samples is safe |
| Keys.SkipIsSound | rmw_cyclonedds_cpp/src/Serialization.cpp:1319-1334 | skipping a field ends exactly where decoding it as a whole would end, fails exactly where that fails, and emits nothing |
| Keys.SerializedKeyIdentifies | rmw_cyclonedds_cpp/src/Serialization.cpp:845-879 | serialized keys that agree as bytes are keys of equal values |
| RequestKeys.RequestKeyExact | rmw_cyclonedds_cpp/src/Serialization.cpp:869-876 | for every type with keys and any two byte orders, the key extracted from a serialized sample is the key of the message, whatever the message, if and only if the type is not one of requests |
| RequestKeys.RequestKeyWrong | rmw_cyclonedds_cpp/src/Serialization.cpp:869-876 | for every type with keys and every client there is a request, numbered zero, from which another key is extracted, or none |
| RequestKeys.MarkedEarly | rmw_cyclonedds_cpp/src/Serialization.cpp:869-876 | a message that is zero but for the first number or length of its key, decoded eight zeros early, is refused or shows another key |
| Keys.RequestKeyIsSequenceNumber | rmw_cyclonedds_cpp/src/Serialization.cpp:869-871 | for a message of one key octet it is the first byte of the sequence number |
| Keys.WideOrderShows | rmw_cyclonedds_cpp/src/Serialization.cpp:1200-1206 | encodings that differ in the order of wide characters only have the same length, and are equal if and only if every such character has two equal bytes |
| Keys.BigEndianKeyExact | rmw_cyclonedds_cpp/src/Serialization.cpp:774-781 | extraction into big-endian order gives the big-endian encoding of the key of every sample or key that can be sent, whatever the padding, if and only if the machine is big-endian or no wide string is part of the key |
| Keys.BigEndianKeyOf | rmw_cyclonedds_cpp/src/Serialization.cpp:774-781 | for one message it does so if and only if the machine is big-endian or no wide character of the key has two different bytes |
| Serdata.PaddingCompletes | rmw_cyclonedds_cpp/src/serdata.cpp:65-69 | the padding computed with wrap-around completes the size to a multiple of 4 |
| Serdata.SerdataRmw.Resize | rmw_cyclonedds_cpp/src/serdata.cpp:57-73 | a fresh buffer of the padded size whose padding is zero, none for size 0 |
| Serdata.FirstFragmentWins | rmw_cyclonedds_cpp/src/serdata.cpp:233-249 | byte by byte, what is reassembled comes from the first fragment that reaches beyond it |
| Serdata.AssembledIsOriginal | rmw_cyclonedds_cpp/src/serdata.cpp:225-258 | any chain of overlapping fragments of a payload without gaps assembles to the payload |
| Serdata.FromSer | rmw_cyclonedds_cpp/src/serdata.cpp:225-258 | the buffer is the assembled payload followed by zero padding, never written beyond its size, and the key is the one found in it |
| Serdata.FromSerIov | rmw_cyclonedds_cpp/src/serdata.cpp:260-281 | the same for a message that comes in pieces |
| Serdata.SerdataRmw.SetKeyFromSer | rmw_cyclonedds_cpp/src/serdata.cpp:130-145 | the key is the extracted one; when extraction fails it stays what it was |
| Serdata.SerdataRmw.SetKeyFromSample | rmw_cyclonedds_cpp/src/serdata.cpp:117-128 | the key is the serialized one in a zeroed buffer of the reported size, and how far writing it runs beyond that buffer |
| Serdata.FromSample | rmw_cyclonedds_cpp/src/serdata.cpp:293-308 | data and key of a sample made from memory, and how far writing them runs beyond their buffers |
| KeyHash.EqKey | rmw_cyclonedds_cpp/src/serdata.cpp:109-115 | compares contents, size included |
| KeyHash.ReceivedKeysEqual | rmw_cyclonedds_cpp/src/serdata.cpp:109-145 | keys that were received are equal as bytes if and only if they are equal as values, whatever the byte orders of the writers and whether samples or keys were sent |
| KeyHash.MadeEqualsReceived | rmw_cyclonedds_cpp/src/serdata.cpp:109-145 | the key made from a sample equals the one received for the same value if and only if the reported size of the key is right |
| KeyHash.InBoundsFits | rmw_cyclonedds_cpp/src/serdata.cpp:117-128 | on a type whose keyed structs are never copied in bulk, a value within its bounds fits the buffer of the reported size, and so does the key made from it |
| KeyedPairs.PairsKeyOverruns | rmw_cyclonedds_cpp/src/serdata.cpp:117-128 | for a key of n pairs n + 6 bytes are reported and 2n + 3 written, so that with more than three pairs n - 3 go beyond the buffer |
| KeyHash.GetKeyhash | rmw_cyclonedds_cpp/src/serdata.cpp:577-603 | the hash of a key: zeros without keys, else the big-endian key padded with zeros or its digest; and how far copying runs beyond the 16 bytes |
| KeyHash.HashOverrunExact | rmw_cyclonedds_cpp/src/serdata.cpp:590-593 | where the key walk is safe, copying a key runs beyond the hash by exactly what its encoding has beyond 16 bytes, which for keys within their bounds is nothing |
| KeyHash.NoOverrunExact | rmw_cyclonedds_cpp/src/serdata.cpp:590-593 | for a built type no key that can be sent is copied beyond the hash if and only if keys of the type are not copied or no sequence is part of them |
| BuiltTypes.TextUnbounded | rmw_cyclonedds_cpp/src/TypeSupport2.cpp:172-177 | every string has the largest bound there is, so that a string in the key takes the maximum beyond 4 GiB and the key is digested |
| KeyHash.LongKeyOverruns | rmw_cyclonedds_cpp/src/serdata.cpp:590-593 | a received sequence of a hundred octets, declared to have at most four, is copied 88 bytes beyond the hash |
| KeyedPairs.PairsHashOverruns | rmw_cyclonedds_cpp/src/serdata.cpp:590-593 | on a big-endian machine the key received for 9 to 14 pairs, all within their bounds, is copied beyond the hash |
| KeyHash.CopiedKeyFits | rmw_cyclonedds_cpp/src/serdata.cpp:590-593 | a key within its bounds that is copied takes at most 16 bytes, where the key walk is safe |
| KeyHash.CopiedKeyIsHash | rmw_cyclonedds_cpp/src/serdata.cpp:587-593 | for a built type a copied key is the big-endian key followed by zeros, on every machine, whatever key can be sent |
| KeyHash.HashesAgree | rmw_cyclonedds_cpp/src/serdata.cpp:577-603 | machines of different byte orders hash the same key of a built type alike if no wide character in it has two different bytes, and only then unless the digests of the two inputs collide |
| KeyHash.HashInputsExact | rmw_cyclonedds_cpp/src/serdata.cpp:577-603 | machines of different byte orders hash the same bytes of every key of a type if and only if no wide string is part of it |
| KeyHash.HashedDifferently | rmw_cyclonedds_cpp/src/serdata.cpp:577-603 | for every type with a wide string in its key, a key of which they hash different bytes |
| KeyHash.ShortKeysCopied | rmw_cyclonedds_cpp/src/serdata.cpp:590-593 | keys that are copied are all of at most 16 bytes; that keys are copied exactly when all of a type are that short holds if and only if the two elements that the walk adds to every repetition do not carry the maximum across 16 bytes |
| KeyHash.SixteenOctetsNotCopied | rmw_cyclonedds_cpp/src/serdata.cpp:590-593 | a key of sixteen octets serializes to 16 bytes but is not copied |
| Waitset.RequireReattach | rmw_cyclonedds_cpp/src/rmw_node.cpp:4373-4385 | says yes exactly when the cached pointers are not the ones listed |
| Waitset.RequireReattachEvents | rmw_cyclonedds_cpp/src/rmw_node.cpp:4387-4407 | the same for events, by entity and type |
| Waitset.GatherEventEntities | rmw_cyclonedds_cpp/src/rmw_node.cpp:4451-4491 | succeeds exactly when every entity is valid and every needed mask can be set, and then yields the entities with a supported event |
| Waitset.CddsWaitset.Detach | rmw_cyclonedds_cpp/src/rmw_node.cpp:4409-4434 | detaches exactly what is cached and empties the cache |
| Waitset.CddsWaitset.Prepare | rmw_cyclonedds_cpp/src/rmw_node.cpp:4537-4617 | leaves the attachments alone if the cache names the same entities, else detaches and attaches all with their positions as tokens, and fails exactly on an invalid event |
| Waitset.CddsWaitset.Scan | rmw_cyclonedds_cpp/src/rmw_node.cpp:4634-4652 | one list of the merge: an entry survives exactly when its position is among the triggers, and the index never passes the sentinel |
| Waitset.HandleActiveEvents | rmw_cyclonedds_cpp/src/rmw_node.cpp:4493-4514 | an event stays listed exactly when it is supported and has occurred, or when an invalid entity ended the pass before |
| Waitset.CddsWaitset.Wait | rmw_cyclonedds_cpp/src/rmw_node.cpp:4516-4700 | a whole wait: what it reports, which guard conditions it resets, which events stay listed and whether it timed out; what is attached and cached after it; and that the wait set stays marked as in use exactly when the call was refused or failed, and in what state |
| Waitset.CleanWaitsetCaches | rmw_cyclonedds_cpp/src/rmw_node.cpp:4436-4449 | every wait set that is not in use drops its cache, the others are left alone |
| Waitset.TokenIsFirst | rmw_cyclonedds_cpp/src/rmw_node.cpp:4548-4587 | the token of a handle is the first position at which it is listed |
| Waitset.TriggeredPosition | rmw_cyclonedds_cpp/src/rmw_node.cpp:4626-4632 | a position is among the triggers exactly when its handle is active and listed there first |
| WaitsetRuns.StepKeepsInv | rmw_cyclonedds_cpp/src/rmw_node.cpp:4409-4449 | every step of creation, destruction and waiting keeps the link between caches, objects and attachments |
| WaitsetRuns.CacheIsCoherent | rmw_cyclonedds_cpp/src/rmw_node.cpp:4537-4617 | in every run, whenever the cache is found to serve and all the while a wait is going on, attachments and tokens are what a full detach and reattach would install |
| WaitsetRuns.TriggeredIsReported | rmw_cyclonedds_cpp/src/rmw_node.cpp:4626-4685 | in every run an entry is reported if and only if its entity is triggered and not listed before |
| WaitsetRuns.StuckForGood | rmw_cyclonedds_cpp/src/rmw_node.cpp:4597-4601 | a wait set whose wait failed never lets another wait begin and is never cleaned |
| WaitsetRuns.StuckRun | rmw_cyclonedds_cpp/src/rmw_node.cpp:4465-4468 | a run that ends so: the entity of the only event waited for is not valid |
| WaitsetRuns.StalePointerExact | rmw_cyclonedds_cpp/src/rmw_node.cpp:4409-4449 | in every run, a pointer in the cache of a wait that was entered leads to the object that was cached, until the cache is looked at, if and only if that object was not destroyed since the wait was entered |
| WaitsetRuns.StaleRun | rmw_cyclonedds_cpp/src/rmw_node.cpp:4409-4449 | a run in which a wait has to detach what its cache names although the object is gone |
| ServiceRouting.CddsCS.TakeResponseRequest | rmw_cyclonedds_cpp/src/rmw_node.cpp:4770-4810 | takes the first valid sample that passes the filter and drops those before it |
| ServiceRouting.RequestCounter.SendRequest | rmw_cyclonedds_cpp/src/rmw_node.cpp:5027-5058 | stamps the n-th request of the process with the guid of the client and n modulo 2^32 |
| ServiceRouting.HeaderReturns | rmw_cyclonedds_cpp/src/rmw_node.cpp:4961-4986 | taking a request and answering it reproduces its header |
| ServiceRouting.NumbersCollide | rmw_cyclonedds_cpp/src/rmw_node.cpp:5031-5042 | two requests of a process carry the same number exactly when their distance is a multiple of 2^32 |
| ServiceRouting.ResponsesComeHome | rmw_cyclonedds_cpp/src/rmw_node.cpp:4770-4825 | in every run with loss, duplication and reordering, and for any byte orders, a response a client takes carries its own guid and the number of a request it sent itself, which the answering service took, if under another number |
| ServiceRouting.NumberSeen | rmw_cyclonedds_cpp/src/Serialization.cpp:820-829 | the service sees the number that was sent if and only if the byte orders agree or the number is zero |
| ServiceRouting.HeadersTellApart | rmw_cyclonedds_cpp/src/rmw_node.cpp:5040-5042 | in every run two requests carry the same header if and only if they come from one client at a distance that is a multiple of 2^32 |
| ServiceRouting.ResponseIdentifiesRequest | rmw_cyclonedds_cpp/src/rmw_node.cpp:5040-5042 | while a process issues at most 2^32 requests, a response belongs to exactly one of them |
| Names.GetTypeNameImpl | rmw_cyclonedds_cpp/src/type_name.cpp:46-73 | the wire name of a type, with the namespace separators replaced in place |
| Names.MangleNamespace | rmw_cyclonedds_cpp/src/type_name.cpp:55-61 | the loop replaces every separator from left to right |
| Names.NamespaceMangled | rmw_cyclonedds_cpp/src/type_name.cpp:54-61 | the C and the C++ spelling of a namespace come out the same |
| Names.TypeRoundTrip | rmw_cyclonedds_cpp/src/demangle.cpp:64-86 | demangling a wire name gives the namespace with slashes and the name if and only if no component of the namespace ends in `dds_` |
| Names.DemangleServiceTypeOnly | rmw_cyclonedds_cpp/src/demangle.cpp:147-191 | the loop over the suffixes finds the position that the service type ends at |
| Names.ServiceTypeRoundTrip | rmw_cyclonedds_cpp/src/demangle.cpp:147-191 | request and response type demangle to the service type if and only if no component of the namespace ends in `dds_` |
| Names.MessageIsNoService | rmw_cyclonedds_cpp/src/demangle.cpp:158-178 | a message type is not taken for a service type if and only if no request suffix occurs in its wire name and its name does not end like that of a response, but for the name of which nothing is left |
| Names.MessagesTakenForServices | rmw_cyclonedds_cpp/src/demangle.cpp:158-178 | three message types are taken for service types: a suffix in the name, one in the namespace, and the name of a response |
| Names.TopicRoundTrip | rmw_cyclonedds_cpp/src/demangle.cpp:89-145 | request and reply topics give back the service name, and plain topics theirs, if and only if the name begins with a slash; neither kind passes for the other |

## Left out

- ReaderPaths.LoadIsPlain: unswapped, the guard `KeySafe` is sufficient for reading keys; what is exact is the
  condition for one array or sequence at a given offset (`KeyBulkRead.BulkLoadExact`).
- KeyPaths.ExtractIsPlain: unswapped, the guard is exact for samples (`ReachExact.ExtractionExact`) and sufficient for
  serialized keys, for which the condition on one array or sequence is exact (`KeyBulkRead.BulkExtractExact`).
- CdrWriter.StreamBetween: in key mode under the guard, without which keys are not plain encodings
  (`ReachExact.KeyCodingExact`); for single runs of elements `KeyBulk.BulkBoundExact` is exact.
- CdrWriter.MaximumCovers: likewise, and a type that fails it is `KeyedPairs.PairsKeyOverruns`.
- CdrWriter.EstimateIsClose: likewise, and only where the maximum exists, since otherwise there is nothing to estimate
  from.
- CdrWriter.ExactBoundsFixSize: the same guard in key mode.
- CdrWriter.FullSource: the same guard in key mode.
- CdrWriter.ReportedSizeExact: the same guard in key mode.
- CdrReader.MessageRoundTrip: the same guard in key mode.
- CdrReader.KeyReadKeepsRest: the same guard; without it the claim may fail (`KeyBulkRead.SecondPairOverwritten`).
- Keys.KeyOfStream: the same guard, and types that are not requests; for requests it fails
  (`RequestKeys.RequestKeyExact`).
- Keys.ExtractedKeyIsSerializedKey: the same.
- Keys.SerializedKeyIdentifies: the same.
- Keys.BigEndianKeyExact: the same.
- Keys.BigEndianKeyOf: the same.
- RequestKeys.RequestKeyExact: the guard `KeySafe` only.
- RequestKeys.RequestKeyWrong: the request carries the number zero, which a process comes to after 2^32 requests;
  whether there is such a message for every other number is not settled, except for a single octet
  (`Keys.RequestKeyIsSequenceNumber`).
- KeyHash.ReceivedKeysEqual: the guard and types that are not requests, as for the extraction of keys.
- KeyHash.MadeEqualsReceived: the same.
- KeyHash.InBoundsFits: the same; without the guard it fails (`KeyedPairs.PairsKeyOverruns`).
- KeyHash.HashOverrunExact: the same; without the guard keys within their bounds overrun too
  (`KeyedPairs.PairsHashOverruns`).
- KeyHash.CopiedKeyFits: the same.
- KeyHash.NoOverrunExact: the same.
- KeyHash.CopiedKeyIsHash: the same.
- KeyHash.HashesAgree: the same.
- KeyHash.ShortKeysCopied: the same.
- Writer.WriteCursor.PutBytes: bytes beyond a buffer are counted; what they overwrite is not modelled.
- Waitset.CddsWaitset.Wait: the dummy guard condition of every wait set and the passing of time; events are listed by
  value, so that their nulling is a result.
- Serdata.FromSample: the bytes between the stream and an overstated size are not initialised, and nothing is said
  about them.
- WaitsetRuns.CacheIsCoherent: the entities of events are attached in an order that is not fixed, and the status masks
  that several wait sets may set on one entity are not tracked.
- The type tree is taken as built, with the guarantees of `Types.WellFormed`; the lookup of type supports and dynamic
  types are foreign calls. Primitives have the size in memory that they have on the wire, as on all supported
  platforms.
- The cache of trivial serialization is indexed by the structure of a type instead of its address.
- The three write cursors of the writer are one class with an optional buffer; the overloads of the walks are methods
  chosen by the constructor of the type.
- Resizing a sequence keeps the elements below the new size and creates empty ones; capacities and allocation failures
  are not modelled, nor is the state of a destination after an exception.
- Sizes and offsets are unbounded integers except where the source checks or wraps them.
- The digest and the hash of keys are uninterpreted; the hash over the key for the instance lookup is not modelled.
- WaitsetRuns.StalePointerExact: says which runs come to read a freed object; what such a read does is modelled as
  finding no handle.
- A service's wait for the client's reader before it answers, timestamps and blocked-request reports.
- Loans and shared memory, printing, QoS, the graph cache, discovery, taking sequences of samples, logging.
- The library function that replaces all occurrences of a string is modelled as replacing them from left to right
  without overlaps.
