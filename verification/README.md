# A verified model of the LXMF Lite codec

This project models the no-allocation LXMF codec (`src/lxmf.rs`), its propagation-client helpers
(`src/propagation.rs`) and its resumable proof of work (`src/stamp.rs`), and proves what they promise.

## What is modelled

- **The MessagePack walker.** `MessagePack` defines the concrete syntax of the format (section "Formats" of
  the MessagePack specification, without extension types) as trees; `Walker` has the bounded walker over
  unbounded integers and shows that it accepts exactly the encodings of trees within the nesting limit;
  `CheckedWalker` has the walker as the code runs it, with loops and checked machine arithmetic, and counts its
  own invocations; `Unambiguous` shows that no byte string encodes two trees.
- **Readers of fields.** `Readers` and `IntDecoders` have the string and integer decoders, `FieldMap` the finite
  maps behind a fields slice, `Validators` the two duplicate-key validators and the two lookups as loops,
  `KeyedMaps` what all four mean read off the items of a tree, `Faults` which error a refusal gives,
  `AudioFields` the native audio field, `ArrayLists` the item iterator and the message lists.
- **Building and parsing.** `FieldSet` has the 256-bit id set, admission and the canonical field order;
  `Encoder` the one encoder over a byte writer and a counting writer; `Message` what is signed and what a
  parser answers; `Codec` the builders and parsers over the caller's buffers; `FieldMessages` the size
  admission; `Shortest` the tree of a built message; `RoundTrip` the inversion of the builder by the parser;
  `Authenticity` what an accepted message is, and what builders sign.
- **Delivery.** `Delivery` has stamp appending and sealing in place, `Sealing` what both accept and whom a packet is
  for, `Uploads` the overlapping upload wrapping, `Lifecycle` the composition of build, stamp and seal, and `Exchange`
  the whole documented sequence as one method.
- **Proof of work.** `Workblocks` has the streamed block, the value function and the nonce arithmetic;
  `StampSearches` the search object, its state machine and its runs.

The primitives of the crates this one builds on (SHA-256, identity and destination hashes, HKDF, Ed25519, the
packet cipher) are unknown functions passed as parameters (`Crypto`, `Kdf`, `Ecies`), as are the sizes those
crates fix (the largest plaintext of a packet, the offset of the plaintext in a frame, the cipher's overhead).
A streaming hash state is the byte string absorbed so far. A timestamp is its eight bytes, and a machine word is
given by its largest value, at least 2^32 - 1. The only assumption on signatures is `KeysMatch`: a public key
verifies what its private key signs (section 5.1 of RFC 8032). Of the packet cipher three things are assumed, each
only where a theorem names it: `Ecies.Valid`, a frame has room for its plaintext and encrypting it keeps its length;
`Ecies.Opens`, the secret of the key that was encrypted to opens the frame to its plaintext, under the same identity
hash; and `Ecies.Succeeds`, encryption does not fail on a frame of the length it asked for.

## Main results

- A skip succeeds with an end exactly when one tree's encoding, nested no deeper than the limit, stands there
  (`SkipIsGrammar`); so it depends on nothing but the bytes it consumed, wherever they stand and whatever
  follows (`SkipLocal`). At any width of at least 32 bits the checked code answers the same, map counts whose
  double overflows included, and costs at most one call a byte (`CheckedSkipValue`).
- Both validators accept exactly the maps of at most 64 pairwise distinct integer keys (`ValidatorsAgree`,
  `ValidatorsMeaning`), with at most 2,016 comparisons; both lookups are lookups in the finite map of the tree
  (`FieldLookupMeaning`, `TextLookupMeaning`).
- Whatever the field builder accepts, in any order, the parser reads back, each field under its id and no
  other (`FullRoundTrip`); it succeeds exactly when the counted size fits (`BuildLinkWithFields`).
- A parser accepts a message just when it is laid out as the format says, names the source's key, and that key
  verifies the signature over destination, source, four elements and their hash; the view is what was signed
  (`AcceptedLink`, `AcceptedDecrypted`, `PayloadIsGrammar`), and every refusal has the error of the first check that
  fails (`LinkRefusals`, `DecryptedRefusals`, `PayloadRefusals`, `ValidatorRefusals`, `AdmissionRefusals`).
- A built message is the one tree of its parts, fields in ascending id order, and no encoding of those parts is
  shorter (`MessageIsTree`, `MessageIsShortest`).
- The two parsers are one format, error for error (`OneWireFormat`). Stamps and suffixes never change what is
  read (`StampTransparency`). Built, stamped and sealed, a packet is opened by the holder of the ratchet's secret, or
  of the base key when there is no ratchet, and reads as it was built (`EndToEnd`, `BuildStampSeal`).
- A search completes with the first nonce from its seed for which the hash over the whole block is below
  2^(256 - cost), and is exhausted just when none within the limit is (`SearchMeaning`).
- However budgets slice a search, it ends as one sequential search ends (`ScheduleIndependence`), in time
  (`EndsInTime`).

## Where the code and its documentation differ

The documentation of `build_link_with_fields` (`src/lxmf.rs:1156-1158`) says that its result accepts
`append_recipient_stamp` and that `seal_opportunistic` turns it into a packet. The builder checks each value at
depth 1, as the parser does, but stamping and sealing walk from the outer array, where the same value sits at
depth 2. The model follows the code: a built message can be stamped, given room and a stamp of a known length, if and
only if every field value is also complete at depth 2 (`StampAcceptsBuilt`, `SealAcceptsBuilt`), and `BuiltButNotStampable` is a
message that is built and parsed but neither stamped nor sealed.

## Model

| member | source | states |
|---|---|---|
| Walker.SkipValue | src/lxmf.rs:359-429 | the only error is a malformed payload, and a successful end is strictly past the start and within the buffer |
| Walker.SkipEncoded | src/lxmf.rs:359-429 | the encoding of a tree, anywhere in a buffer, is skipped to its exact end if it fits under the depth limit, and refused otherwise |
| Walker.SkipSound | src/lxmf.rs:359-436 | every successful skip consumed the encoding of a tree within the depth limit |
| Walker.SkipIsGrammar | src/lxmf.rs:353-436 | a skip returns an end if and only if the bytes up to it are one complete value nested within the limit |
| Walker.SkipLocal | src/lxmf.rs:353-436 | a successful skip gives the same verdict at any position of any buffer that holds the same bytes, and at any smaller depth |
| CheckedWalker.CheckedLenAt | src/lxmf.rs:367-379 | the shift-and-add loop over at most four bytes never loses a bit: it returns the big-endian number, or refuses a short buffer |
| CheckedWalker.CheckedSkipValue | src/lxmf.rs:353-429 | at every width of at least 32 bits the checked code returns what the walker over unbounded integers returns, in at most one call a byte of the buffer plus one |
| CheckedWalker.CheckedSkipPairs | src/lxmf.rs:387-389 | a map count whose double leaves the word is refused, and the unbounded walker refuses it too |
| CheckedWalker.CheckedSkipN | src/lxmf.rs:431-436 | the item loop agrees with recursion over the items, and a success costs at most one call a byte consumed |
| Unambiguous.OneTree | src/lxmf.rs:359-429 | two trees whose encodings stand at the same place are equal |
| Readers.CheckedReadBin | src/lxmf.rs:441-468 | at machine width the string reader returns what the unbounded one returns |
| Readers.ReadBinIsGrammar | src/lxmf.rs:438-468 | a bin or str is read, with its body and end, if and only if such a tree stands there |
| Readers.DecodeFieldId | src/lxmf.rs:1575-1602 | the sign-and-shift loop gives the two's-complement or unsigned number, and the final range check never refuses it |
| Readers.FieldIdIsGrammar | src/lxmf.rs:1574-1602 | an integer is read if and only if an integer tree stands there, and it is that tree's number, whatever its encoding |
| Readers.IntegerRange | src/lxmf.rs:483-491 | every 1, 2, 4 or 8-byte integer lies in the range of a field id, and its sign is its top bit |
| IntDecoders.AudioIntegerAgrees | src/lxmf.rs:1484-1501 | the zero-high-bytes test accepts exactly the integers 0..255 of the full decoder, with the same width |
| IntDecoders.UnsignedAgrees | src/propagation.rs:199-213 | on integer markers the propagation decoder is the full decoder restricted to non-negatives |
| IntDecoders.ReadNumberAgrees | src/lxmf.rs:1458-1482 | the 64-bit shift-left, shift-right sign extension gives the full decoder's integer, before it is widened |
| FieldMap.EntriesEncoded | src/lxmf.rs:1350-1359 | on the encoding of an entry list the walk succeeds if and only if keys are admitted and new and values fit |
| FieldMap.EntriesOkMeaning | src/lxmf.rs:1342-1391 | that is: pairs, with pairwise distinct keys, and values within the nesting limit |
| FieldMap.ValidatorsAgree | src/lxmf.rs:1342-1391 | the two validators accept the same slices with a readable map header: the encodings of maps of at most 64 distinct integer keys |
| FieldMap.FieldLookupRefinesMap | src/lxmf.rs:1325-1337 | a field is found with a value if and only if the slice encodes a unique-key map sending that number to it |
| FieldMap.TextLookupRefinesMap | src/lxmf.rs:1516-1558 | a text key is found with a value if and only if it is UTF-8 and the slice encodes a unique-key map of integers and texts sending it there |
| FieldMap.AsMapAt | src/lxmf.rs:1325-1337 | the finite map of an entry list sends its i-th key to its i-th value |
| Validators.ValidateFields | src/lxmf.rs:1342-1364 | the scratch-backed loop's answer, error included, is a function of the slice alone, with at most 2,016 comparisons |
| Validators.ValidateFieldsWithoutScratch | src/lxmf.rs:1365-1391 | the quadratic loop answers the same entry check over re-read keys, with at most 2,016 comparisons |
| Validators.RepeatsBefore | src/lxmf.rs:1375-1383 | the inner loop finds a repeated key if and only if the key is among those before it |
| Validators.LookUpField | src/lxmf.rs:1325-1337 | the lookup loop computes the specified lookup |
| Validators.LookUpText | src/lxmf.rs:1516-1544 | the one-pass validation and search computes the specified text lookup, with at most 2,016 comparisons |
| KeyedMaps.EntriesOkIsKeyed | src/lxmf.rs:1350-1359 | an entry list is in order just when its items alternate allowed keys, no two the same integer or the same text, and values within the limit |
| KeyedMaps.ValidatorsMeaning | src/lxmf.rs:1342-1391 | with a readable map header both validators accept exactly the maps of at most 64 entries with pairwise different integer keys |
| KeyedMaps.FieldLookupMeaning | src/lxmf.rs:1325-1337 | a field is found just when some entry of such a map has that integer, in any encoding, as its key, and the value is that entry's |
| KeyedMaps.TextLookupMeaning | src/lxmf.rs:1516-1558 | a text is found just when it is UTF-8 and some entry of a map of integer and UTF-8 keys has it, as a str and never a bin, for key |
| Faults.EntriesRefused | src/lxmf.rs:1350-1363 | an entry list is refused with the error of its first entry at fault: unreadable key, repeated key, incomplete value, or bytes left over |
| Faults.ValidatorRefusals | src/lxmf.rs:1342-1391 | both validators refuse more than 64 entries first, the scratch-backed one then more than could stand in the slice, and then give the first fault's error; a slice without map header passes the one and is malformed to the other |
| ArrayLists.OpenArray | src/propagation.rs:145-169 | an iterator is returned if and only if the bytes are exactly one array within the limit, and it holds that array's items |
| ArrayLists.ArrayItems.Next | src/propagation.rs:180-190 | yields the encoding of the next item and moves past it; stops only when no item is left |
| ArrayLists.ArrayHeaderOfTree | src/propagation.rs:148-169 | the header read is the array's own, and header and items make up the input |
| ArrayLists.AvailableAt | src/propagation.rs:101-115 | answers if and only if every item is a 32-byte string; then the id at the index, if any, and the count |
| ArrayLists.FetchedMessageOfArray | src/propagation.rs:119-128 | an empty array gives nothing, an array of one string its body, any other array is refused |
| ArrayLists.FetchedMessageRefuses | src/propagation.rs:119-128 | anything but one array is refused |
| FieldSet.EncodedFieldSet | src/lxmf.rs:260-277 | the bitset loop admits exactly the admissible lists, with the first error met, and its bitset holds exactly the ids given |
| FieldSet.AdmitMeaning | src/lxmf.rs:255-277 | admission means at most 64 entries, distinct ids, and each value exactly one complete value at depth 1 |
| Faults.AdmissionRefusals | src/lxmf.rs:260-277 | a refused list has more than 64 entries, or gets the error of the first entry that repeats an id, or whose value is not complete |
| Faults.CompleteIsGrammar | src/lxmf.rs:271-274 | a value is complete just when it is the encoding of one tree nested at most seven levels |
| FieldSet.SetBitHas | src/lxmf.rs:265-270 | setting one bit of the 32-byte set adds that id and no other |
| FieldSet.EmitIsAscending | src/lxmf.rs:233-250 | the nested id and entry loops write the list sorted by id, each entry once |
| FieldSet.CanonicalIsPermutation | src/lxmf.rs:230-250 | that list is strictly ascending and a permutation of the given one, so the header count is the number of entries |
| FieldSet.OrderDoesNotMatter | src/lxmf.rs:230-277 | a permutation of an admitted list is admitted and written as the same bytes |
| Encoder.SliceWriter.Put | src/lxmf.rs:135-147 | appends within the window or refuses and changes nothing; bytes outside the window are never touched |
| Encoder.WriteBin | src/lxmf.rs:171-184 | over either writer: the shortest bin header and the body, or a refusal exactly when the length or the room is lacking |
| Encoder.WriteFieldsHeader | src/lxmf.rs:186-195 | the map header of a count up to 64, or a refusal |
| Encoder.WriteEntries | src/lxmf.rs:233-250 | the loops over ids and entries write or count the specified entries, or refuse exactly when the room is lacking |
| Encoder.WritePayload | src/lxmf.rs:205-253 | over either writer the encoder succeeds exactly when everything is encodable and fits, and then has written or counted the specified payload |
| Encoder.SizeIsLength | src/lxmf.rs:118-169 | the count from lengths alone is the length of what is written |
| Encoder.PackedLen | src/lxmf.rs:279-313 | the counting run returns the exact packed size, or TooLong exactly when a length or the sum leaves its range |
| Encoder.PackPayload | src/lxmf.rs:337-351 | the writing run puts exactly the payload into its window, or refuses; the rest of the buffer is untouched |
| Shortest.MessageIsTree | src/lxmf.rs:205-253 | the text of an accepted message is the encoding of one tree: timestamp, title and content as bins, and a map of the given fields in strictly ascending id order with their values verbatim |
| Shortest.KeyIsShortest | src/lxmf.rs:239-243 | every id is written in the only shortest encoding of its number |
| Shortest.BinIsShortest | src/lxmf.rs:171-184 | every body is written under its only shortest bin header, up to 2^32 - 1 bytes |
| Shortest.MessageIsShortest | src/lxmf.rs:231-247 | no encoding of the same four elements is shorter than the text of the message |
| Message.OneWireFormat | src/lxmf.rs:962-1041 | parse_decrypted on a plaintext equals parse_link on its destination followed by it, error for error |
| Message.OnePackedFormat | src/lxmf.rs:561-582 | a packed message is the destination followed by the opportunistic plaintext |
| Message.DecodeLocal | src/lxmf.rs:1274-1291 | the decoded parts depend only on the bytes up to the end of the fields, under any marker of four or more elements |
| Message.StampTransparency | src/lxmf.rs:1274-1316 | changing the array marker to any of four or more elements and replacing all behind the fields leaves the accepted view identical |
| Authenticity.FieldsElement | src/lxmf.rs:1288-1288 | a complete fields element is refused only as a map with more than 64 entries, a key that is no integer, or a repeated one; what is no map passes |
| Authenticity.PayloadIsGrammar | src/lxmf.rs:1274-1288 | a payload decodes just when it is a marker of four to fifteen elements, a float64, two strings and an allowed fields element, and to exactly those parts |
| Authenticity.PayloadRefusals | src/lxmf.rs:1274-1288 | a payload that is laid out otherwise is malformed, and one that is not gets the error of its fields element |
| Authenticity.AcceptedLink | src/lxmf.rs:1245-1316 | a message is accepted if and only if it is addressed to the reader, decodes, fits scratch, names the delivery destination of the source key, and that key verifies the signature over destination, source, four elements and their hash; the id is that hash and the view what was signed |
| Authenticity.LinkRefusals | src/lxmf.rs:1252-1305 | each refusal of a link message has the error of the first check that fails, a bad signature last |
| Authenticity.AcceptedDecrypted | src/lxmf.rs:962-1041 | a plaintext is accepted if and only if it decodes, fits one packet, and is signed by the named source for the reader's own destination |
| Authenticity.DecryptedRefusals | src/lxmf.rs:970-1030 | each refusal of a plaintext has the error of the first check that fails |
| Authenticity.BuiltIsSigned | src/lxmf.rs:1221-1232 | a built message carries the signer's destination and its signature over destination, source, payload and the hash of the three, and that hash is the message id |
| Codec.BuildLink | src/lxmf.rs:1189-1236 | succeeds exactly when payload, out and scratch suffice; writes exactly the message, destination and id, and on failure none of them, with the code's error |
| Codec.BuildPlaintext | src/lxmf.rs:534-583 | succeeds exactly when the payload fits one packet and the output; otherwise TooLong, with every result untouched |
| Codec.Decode | src/lxmf.rs:1274-1288 | the in-order decoding with scratch-backed validation computes the specified parts or error |
| Codec.ParseLinkMessage | src/lxmf.rs:1245-1316 | the parser's answer is a function of the message, the keys and the room in scratch, whatever the scratch held |
| Codec.ParseDecryptedMessage | src/lxmf.rs:962-1041 | likewise for the decrypted packet |
| FieldMessages.PackedLenWithFields | src/lxmf.rs:320-335 | returns the admission error, or the exact size of the canonical message, or TooLong |
| Shortest.SizeIsMessage | src/lxmf.rs:315-335 | the size granted is exactly the length of the packed message, refused as too long just when a body exceeds bin32 or the sum the word |
| FieldMessages.BuildLinkWithFields | src/lxmf.rs:1161-1187 | with N from the size admission, succeeds if and only if out has N bytes and scratch N - 32; writes exactly N bytes; a failure changes no result and has the admission's or the builder's error |
| FieldMessages.OrderDoesNotMatterForMessage | src/lxmf.rs:230-250 | every permutation of an accepted field list makes the identical message |
| RoundTrip.EntryTrees | src/lxmf.rs:236-249 | the entries written are the encodings of key and value trees, in order |
| RoundTrip.FieldsTree | src/lxmf.rs:255-277 | the fields element of an accepted list encodes a unique-key map with exactly those ids and values, one level below the limit just when every value is complete at depth 2 |
| RoundTrip.DecodeText | src/lxmf.rs:1274-1291 | the payload of an accepted message decodes to the timestamp, title, content and fields it was made from |
| RoundTrip.FullRoundTrip | src/lxmf.rs:1245-1316 | for matching keys and enough scratch the parser accepts every built message with the same timestamp bits, title, content, source and id; each field is found under its id and nothing under any other |
| AudioFields.ReadAudioIsGrammar | src/lxmf.rs:1406-1422 | a value reads as a mode and a sound if and only if it encodes an array of a one-byte integer, in any encoding, and a bin |
| AudioFields.AudioFieldMeaning | src/lxmf.rs:1393-1423 | audio is answered exactly for such a field in a unique-key map, and nothing exactly for a unique-key map without the field |
| AudioFields.AudioIsField | src/lxmf.rs:217-229 | the audio arm writes the message the field builder would write for that one field |
| AudioFields.TextIsNoField | src/lxmf.rs:216 | the text arm writes the message the field builder would write for no fields |
| AudioFields.AudioRoundTrip | src/lxmf.rs:1400-1423 | the audio reader gives back the mode and sound that were built |
| Delivery.AppendRecipientStamp | src/propagation.rs:296-320 | on success the buffer holds the message with a five-element marker and the stamp behind it; every error leaves it unchanged |
| Sealing.StampVerdictMeaning | src/propagation.rs:301-314 | accepted are exactly the messages that carry one complete four-element array, with a stamp of 16 or 32 bytes, when both fit; any other stamp length is malformed |
| Delivery.StampMakesFive | src/propagation.rs:293-320 | a stamped message keeps its addresses and signature and carries exactly one complete five-element array: the same four elements, then the stamp as a bin |
| Delivery.StampKeepsMessage | src/propagation.rs:293-295 | stamping never changes what the recipient's parser answers |
| Delivery.CopyWithin | src/lxmf.rs:838 | an overlapping move places the old source bytes and changes nothing else |
| Delivery.MoveAndEncrypt | src/lxmf.rs:838-851 | the cipher is given the frame that holds exactly old bytes 16..packed_len at the plaintext offset, and the buffer behind the frame is untouched |
| Delivery.SealOpportunistic | src/lxmf.rs:810-852 | every error before the move leaves the buffer unchanged, in the code's order of checks; after it the buffer is the cipher's frame |
| Sealing.SealVerdictMeaning | src/lxmf.rs:818-837 | the cipher is reached exactly for a message that carries one array of four or five elements, is addressed to this recipient and fits one packet; otherwise the first check that fails gives the error |
| Sealing.SealedTo | src/lxmf.rs:838-850 | the packet is one encryption of the message without its destination, to the ratchet or else the first half of the recipient's key, under the recipient's identity hash, with the caller's entropy |
| Sealing.SealedOpens | src/lxmf.rs:838-850 | the holder of the secret of that key opens the sealed buffer to exactly old bytes 16..packed_len |
| Lifecycle.FramePlaintext | src/lxmf.rs:838-851 | the frame has the cipher's length and holds old bytes 16..packed_len at the plaintext offset |
| Lifecycle.StampAcceptsBuilt | src/lxmf.rs:1156-1158 | a built message can be stamped if and only if every field value is complete at depth 2, the stamp has 16 or 32 bytes, and both fit; the first two failures are malformed, the last a short buffer |
| Lifecycle.SealAcceptsBuilt | src/lxmf.rs:817-839 | an unstamped built message passes sealing's framing and destination checks if and only if every field value is complete at depth 2 |
| Lifecycle.SealAcceptsStamped | src/lxmf.rs:817-839 | every stamped message passes them |
| Lifecycle.BuiltButNotStampable | src/lxmf.rs:1156-1158 | a message with one field seven arrays deep is built and parsed, and neither stamped nor sealed |
| Lifecycle.NestedLimits | src/lxmf.rs:271-272 | nested arrays are admitted as a value up to seven deep and stay stampable up to six |
| Lifecycle.EndToEnd | src/lxmf.rs:810-852 | built, stamped and sealed, the packet is opened by the holder of the ratchet's secret, or of the base key without a ratchet, to the stamped message, and that parses to the view of what was built |
| Lifecycle.StampedReads | src/propagation.rs:293-295 | a stamped message without its destination parses to the view of what was built |
| Exchange.StampAndSeal | src/lxmf.rs:803-804 | on a built message both steps succeed exactly at depth 2, within the buffer and one packet, when the cipher does, and the result opens to the message with that stamp |
| Exchange.BuildStampSeal | src/lxmf.rs:781-806 | the documented sequence succeeds exactly when admission, both buffers, depth 2 and packet size allow and the cipher does; the recipient opens it to the message with the ticket stamp of its id, and reads what was built |
| Uploads.WrapUpload | src/propagation.rs:411-448 | the buffer becomes exactly the encoding of the two-element upload of old bytes and stamp, on both sides of the 255/256 boundary; errors leave it unchanged |
| Uploads.FiniteMeaning | src/propagation.rs:417-417 | a timestamp is finite just when its eleven exponent bits, as a number, are not 0x7ff |
| Uploads.WrapVerdictMeaning | src/propagation.rs:417-435 | exactly infinities, NaNs and entries too short or not in the buffer are malformed, entries beyond bin16 too long; otherwise the length of the upload is granted if it fits |
| Uploads.UploadReads | src/propagation.rs:119-128 | the second item of an upload is read back as the entry |
| Workblocks.PackRoundInto | src/stamp.rs:111-123 | writes the canonical unsigned integer of the round |
| Workblocks.PackRoundReads | src/stamp.rs:110-123 | a packed round reads back as that number, with nothing left over |
| Workblocks.PackRoundIsShortest | src/stamp.rs:110-123 | no integer encoding of the round number is shorter |
| Workblocks.ChunkMeaning | src/stamp.rs:77-85 | a chunk is HKDF expanded from the material under the hash of the material and the round as the shortest unsigned integer |
| Workblocks.BlockLayout | src/stamp.rs:75-90 | the block of n rounds is the n chunks one behind the other, in the order of their rounds |
| Workblocks.BlockUnique | src/stamp.rs:75-90 | nothing else is laid out so |
| Workblocks.Workblock.Advance | src/stamp.rs:73-91 | absorbs the next chunks, exactly as many as the budget and the remaining rounds allow |
| Workblocks.Workblock.Value | src/stamp.rs:93-108 | the loop returns the leading zero bits of the hash of the block and the stamp, once all rounds are done |
| Workblocks.LeadingZerosMeaning | src/stamp.rs:93-108 | a value is at least c if and only if the hash, as a big-endian number, is below 2^(bits - c) |
| Workblocks.IncrementInPlace | src/stamp.rs:226-232 | the in-place carry loop is the increment |
| Workblocks.IncrementValue | src/stamp.rs:226-232 | the increment adds one, modulo 256 to the length |
| Workblocks.NonceIsSum | src/stamp.rs:146-151 | the i-th nonce is seed + i modulo 2^256 |
| Workblocks.NoncesDistinct | src/stamp.rs:146-151 | all nonces of one search are pairwise distinct |
| StampSearches.StampSearch.constructor | src/stamp.rs:152-179 | starts complete at cost zero, exhausted at limit zero, and preparing otherwise |
| StampSearches.StampSearch.Slice | src/stamp.rs:201-245 | one call is one transition of the state machine, and keeps the object valid |
| StampSearches.StampSearch.Search | src/stamp.rs:216-240 | the attempt loop is the specified scan of the next nonces |
| StampSearches.StampSearch.CancelSearch | src/stamp.rs:190-197 | cancels active searches and changes nothing else |
| StampSearches.RunKeeps | src/stamp.rs:152-245 | every state of every run keeps the invariant: no earlier nonce reached the cost, and each progress means what it says |
| StampSearches.StepWithinBudgets | src/stamp.rs:199-245 | no call exceeds either budget or does both kinds of work; preparation takes exactly the rounds allowed or left, and a search that stays active takes exactly the attempts allowed |
| StampSearches.TerminalIsStable | src/stamp.rs:189-242 | terminal states never change |
| StampSearches.CancelMeaning | src/stamp.rs:189-197 | a cancellation ends a preparing or searching search at once, and changes nothing else and no terminal state |
| StampSearches.StaysCancelled | src/stamp.rs:189-245 | a search stopped while active is cancelled for the rest of every run, its attempts as they were |
| StampSearches.NothingToSearch | src/stamp.rs:152-179 | at cost zero every run is complete with the zero stamp and value zero, at limit zero exhausted, without any work |
| StampSearches.FirstHit | src/stamp.rs:216-240 | the sequential search returns the least attempt from its start that reaches the cost, or none when there is none |
| StampSearches.SearchMeaning | src/stamp.rs:201-245 | in every run a completed search holds the first nonce seed + i whose hash over the whole block is, as a big-endian number, below 2^(256 - cost), with i + 1 attempts and the exact zero bits as value; an exhausted one has tried exactly the limit and none was below |
| StampSearches.ScheduleIndependence | src/stamp.rs:152-245 | every run that ended uncancelled, whatever its budgets, ended with the nonce, value and attempts of the sequential search, or exhausted with the limit when nothing hits |
| StampSearches.EndsInTime | src/stamp.rs:201-245 | with both budgets positive the end is reached within rounds + limit calls |

## Left out

- Crypto: the insides of SHA-256, HKDF, Ed25519 and the packet cipher are in crates that are not part of this model; no secrecy or collision claim is made.
- Decryption, ratchet rings, peeking and hints (`src/lxmf.rs:888-960`, `src/lxmf.rs:1043-1083`) and `encrypt_message`, `decrypt_message` (`src/propagation.rs:322-404`): their content is the contract of the cipher crate.
- Floating point: the float arms of `unsigned` and `read_number`, ticket expiry and the byte limit of a get request; floats are carried as bytes, and only finiteness is decided, from the exponent bits.
- IntDecoders.UnsignedAgrees, IntDecoders.ReadNumberAgrees: cover every marker but the two float ones, for the same reason.
- Readers of node announcements, delivery costs, ticket fields, responses and get requests: straight-line uses of the same readers, which would only add easy members.
- The UTF-8 decoder is an unknown predicate on byte strings.
- Public wrappers that only forward their arguments.
- Additions that cannot overflow, because both operands are slice lengths (`src/lxmf.rs:136-139`, `src/propagation.rs:309-311`, `src/propagation.rs:423-434`), are plain additions; the walker, the string reader, the integer reader and the counting writer have their checked arithmetic.
- Delivery.CopyWithin: the library's move is modelled as a copy of the old source bytes, not byte by byte.
- Encoder.WritePayload: says nothing of what a failed run leaves inside its window, which is working memory of the builders.
- Counter widths of the search (`u16` rounds, `u64` attempts): counters are unbounded (the cost is a byte), and never pass the rounds or the limit they start with.
- Validators.ValidateFields: counts a scratch scan as one comparison for every key stored before, an upper bound on what the library's search makes.
- The generic writer is one class of two cases, a byte writer and a counting writer, in place of a type parameter.
