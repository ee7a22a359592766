# A verified model of the gdx codecs and their neighbours

This project models, in Dafny, the schema-driven binary codec of the gdx
repository's `utils` package, and the small self-contained pieces of logic
around it.

**The codec.** The codec has three parts:

- **Schemas.** A `CodecBuilder` is a record with ordered fields. `Int`, `Str`,
  `ArraySerializable` and `OptionalSerializable` describe the other shapes.
- **The routine generator.** It walks the schema tree, collects the nodes it
  meets in an identity `Set`, and emits one named encoder or decoder routine
  per node that needs one.
- **The runtime buffers.** `Encoder` writes big-endian integers, 16-bit
  lengths and 8-bit characters into a growable `ArrayBuffer`. `Decoder`
  reads them back with a cursor.

**What is proved about the codec.** The emitted routines are modelled by what
they do, not by their text:

- `Codecs.Encode` is the byte string the emitted encoder writes.
- `Codecs.Decode` is what the emitted decoder reads.
- The methods of `CodecRuntime` run the routines against the `Encoder` and
  `Decoder` classes and are proved to write and read exactly those bytes.
- `decode(encode(v))` gives back `v` in the form the decoder builds:
  - 32-bit numbers;
  - 8-bit characters;
  - `null` optionals read back as `undefined`.
- A value already in that form comes back unchanged.

**Smaller parts.** The model also covers:

- **`FrontCodecs`:** the earlier codec of the front-end test page. It uses a
  FIFO of numbers in place of bytes.
- **`Wordle`, `WordleCounter`, `WordleWords` and `WordleExamples`:** Wordle
  feedback (`Correctness::check` and its `CharCounter`), the base-3 mask
  number, history filtering, and the repository's feedback tests.
- **`RelativeImports`:** `pathResolve`, `adjustImport` and
  `parseFilesImports` of the relative-import fixer. They sit on
  `JsStrings`, a model of the JavaScript string operations they use.
- **`MyGraphs` and `FileSystemTrees`:** the `MyNode` graph of the dependency
  visualisation:
  - shortest paths, preorder, search by id and links;
  - `turnIntoDAG`;
  - the tree built from file paths.
- **`SpaceIndex`:** the uniform-grid spatial index `GridIndex`.
- **`DependencyGraphs`:** the pure helpers of the dependency-graph exporter.
  These are the cycle test, `adjustFileName`, `flatGraph`, `uniqueBy` and the
  two CSV files.
- **`LogState`:** the connection-status plugin of the log viewer. It has a
  TypeScript version and a JavaScript version.
- **`DownSampling`:** the `DownSampler` latch of the kite filter.

**How state is modelled.** State the source changes in place is a Dafny
`class` whose methods state the new state:

- the encoder's buffer is an `array`;
- the grid's bucket `Map` is an insertion-ordered map value (`JsMaps.JsMap`);
- the `MyNode` objects are a heap map from references to node fields.

Recursive and pure code is modelled by functions and lemmas.

**The presence flag.** An optional's presence flag is written by
`encoder.int(hasValue ? 1 : 0)`, so it takes 4 bytes, not the single byte a
flag might suggest. The model follows the code.

## Model

| member | source | states |
|---|---|---|
| Wire.ToInt32 | packages/utils/src/codecs/codecs.ts:309-313 | the number `setInt32` stores is in [-2^31, 2^31) and congruent to the argument modulo 2^32 |
| Wire.Int32Bytes | packages/utils/src/codecs/codecs.ts:309-313 | `int` writes exactly 4 bytes |
| Wire.Uint16Bytes | packages/utils/src/codecs/codecs.ts:321-325 | `word` writes exactly 2 bytes |
| Wire.Uint8Bytes | packages/utils/src/codecs/codecs.ts:315-319 | `byte` writes exactly 1 byte |
| Wire.ReadInt32 | packages/utils/src/codecs/codecs.ts:352-356 | `getInt32` succeeds exactly when 4 bytes remain at the cursor (past the end `DataView` throws) and yields a signed 32-bit number |
| Wire.ReadUint16 | packages/utils/src/codecs/codecs.ts:358-362 | `getUint16` succeeds exactly when 2 bytes remain and yields a number below 65536 |
| Wire.ReadUint8 | packages/utils/src/codecs/codecs.ts:364-368 | `getUint8` succeeds exactly when 1 byte remains and yields a number below 256 |
| Wire.Latin1Bytes | packages/utils/src/codecs/codecs.ts:333-338 | one byte per UTF-16 code unit, the unit modulo 256 |
| Wire.StringBytes | packages/utils/src/codecs/codecs.ts:333-338 | a string takes its 2-byte length plus one byte per code unit |
| Wire.BytesToUnits | packages/utils/src/codecs/codecs.ts:370-377 | `String.fromCharCode` of each byte read gives a code unit equal to that byte |
| Wire.ReadString | packages/utils/src/codecs/codecs.ts:370-377 | a successful string read ends right after the length prefix and the characters it announces, within the buffer |
| Wire.Latin1Units | packages/utils/src/codecs/codecs.ts:370-377 | the decoded string has one code unit per encoded one, reduced modulo 256 |
| Wire.Int32RoundTrip | packages/utils/src/codecs/codecs.ts:352-356 | reading 4 bytes written by `int(v)` gives `v` wrapped to 32 bits |
| Wire.Uint16RoundTrip | packages/utils/src/codecs/codecs.ts:358-362 | reading 2 bytes written by `word(v)` gives `v` modulo 65536 |
| Wire.Uint8RoundTrip | packages/utils/src/codecs/codecs.ts:364-368 | reading the byte written by `byte(v)` gives `v` modulo 256 |
| Wire.StringRoundTrip | packages/utils/src/codecs/codecs.ts:370-377 | a string shorter than 65536 reads back as its code units modulo 256, and the cursor stops right after it |
| CodecBuffers.Encoder.constructor | packages/utils/src/codecs/codecs.ts:304-307 | a new encoder has an empty cursor and a 128-byte buffer that may grow to 10,000,000 bytes |
| CodecBuffers.Encoder.ResizeIfNeeded | packages/utils/src/codecs/codecs.ts:327-331 | no change when `n` more bytes fit; otherwise the length becomes twice the old length plus `n`, or the call fails and nothing changes when that passes the maximum; on success `n` bytes fit |
| CodecBuffers.Encoder.Put | packages/utils/src/codecs/codecs.ts:327-331 | a write appends its bytes after the cursor, or fails with nothing written, and cannot fail while the buffer is at most a quarter full |
| CodecBuffers.Encoder.Int | packages/utils/src/codecs/codecs.ts:309-313 | appends the 4 big-endian bytes of `value`, moves the cursor by 4, and leaves earlier bytes alone |
| CodecBuffers.Encoder.Word | packages/utils/src/codecs/codecs.ts:321-325 | appends the 2 big-endian bytes of `value` and moves the cursor by 2 |
| CodecBuffers.Encoder.Byte | packages/utils/src/codecs/codecs.ts:315-319 | appends the byte of `value` and moves the cursor by 1 |
| CodecBuffers.Encoder.String | packages/utils/src/codecs/codecs.ts:333-338 | appends the length word and one byte per character; a failed resize leaves a prefix of those bytes |
| CodecBuffers.Encoder.GetBuffer | packages/utils/src/codecs/codecs.ts:340-342 | the whole buffer: the bytes written, then zeros up to its length |
| CodecBuffers.Decoder.constructor | packages/utils/src/codecs/codecs.ts:348-350 | a decoder over the buffer's bytes, cursor at 0 |
| CodecBuffers.Decoder.Int | packages/utils/src/codecs/codecs.ts:352-356 | reads `getInt32` at the cursor and moves it by 4, or fails without moving it |
| CodecBuffers.Decoder.Word | packages/utils/src/codecs/codecs.ts:358-362 | reads `getUint16` at the cursor and moves it by 2, or fails without moving it |
| CodecBuffers.Decoder.Byte | packages/utils/src/codecs/codecs.ts:364-368 | reads `getUint8` at the cursor and moves it by 1, or fails without moving it |
| CodecBuffers.Decoder.String | packages/utils/src/codecs/codecs.ts:370-377 | the character loop returns exactly the string `ReadString` describes and stops where it stops; it fails exactly when that read fails |
| CodecBuffers.PrimitiveRoundTrips | packages/utils/src/codecs/codecs.ts:352-368 | each of `int`, `word` and `byte` reads back what the matching encoder call wrote |
| Codecs.Children | packages/utils/src/codecs/codecs.ts:37-39 | no children for `Int` and `Str`, the item for arrays and optionals, the field nodes in `add` order for records; each child is a proper sub-schema |
| Codecs.Decode | packages/utils/src/codecs/codecs.ts:113-127 | a successful decode never moves the cursor back or past the end of the buffer |
| Codecs.DecodeItems | packages/utils/src/codecs/codecs.ts:219-230 | the item loop reads exactly the announced number of items |
| Codecs.RoundTrip | packages/utils/src/codecs/codecs.ts:99-127 | for every value of the schema's type whose strings and arrays fit the wire, decoding the bytes written for it, wherever they sit in the buffer, gives its canonical form and stops right after them |
| Codecs.RoundTripArray | packages/utils/src/codecs/codecs.ts:209-230 | an array reads back as its count, then its items in index order |
| Codecs.RoundTripPresent | packages/utils/src/codecs/codecs.ts:266-287 | a present optional reads back as the flag 1, then its item |
| Codecs.ExactConformsAndFits | packages/utils/src/codecs/codecs.ts:99-127 | a value in decoded form is accepted by the encoder and fits the wire |
| Codecs.CanonicalOfExact | packages/utils/src/codecs/codecs.ts:266-276 | decoding changes nothing in a value already in decoded form |
| Codecs.ExactRoundTrip | packages/utils/src/codecs/codecs.ts:99-127 | `decode(encode(v)) == v` for every value in decoded form, and decoding stops right after its bytes |
| Codecs.FieldNamesStep | packages/utils/src/codecs/codecs.ts:119-121 | the decoded object gains the name of each field in turn |
| Codegen.Preorder | packages/utils/src/codecs/codecs.ts:80-85 | `traverse` visits the node itself first |
| Codegen.Records | packages/utils/src/codecs/codecs.ts:80-83 | only record nodes (the only ones with `topLevelEncoderCode`) are collected by the encoder traversal, and all of them are |
| Codegen.TraverseRecords | packages/utils/src/codecs/codecs.ts:79-86 | the encoder's `traverse` adds the record nodes of the subtree to the set in visiting order |
| Codegen.TraverseAll | packages/utils/src/codecs/codecs.ts:130-135 | the decoder's `traverse` adds every node of the subtree to the set in visiting order |
| Codegen.InsertAllIsFirstVisits | packages/utils/src/codecs/codecs.ts:130-135 | the identity set holds exactly the first visit of each node, in first-visit order |
| Codegen.DeclsOf | packages/utils/src/codecs/codecs.ts:136-146 | only nodes that have a declaration of the kind get one |
| Codegen.EmitDecls | packages/utils/src/codecs/codecs.ts:137-146 | the `forEach` over the set pushes the declaration of each collected node that has one, in set order |
| Codegen.GenerateEncoderCode | packages/utils/src/codecs/codecs.ts:78-97 | one `<Name>_encoder_fn` per collected record node, and the root's routine comes first and is exported |
| Codegen.GenerateDecoderCode | packages/utils/src/codecs/codecs.ts:129-154 | the type declarations, then the decoder routines, in set order; the root's `<Name>_decoder_func` is declared and exported |
| Codegen.EncoderRootFirst | packages/utils/src/codecs/codecs.ts:79-86 | the root record is the first node the encoder collects |
| Codegen.DecoderRootFirst | packages/utils/src/codecs/codecs.ts:130-135 | the root is the first node the decoder collects |
| Codegen.EncoderNodesExact | packages/utils/src/codecs/codecs.ts:79-90 | the encoder emits one routine per reachable record: no record twice, every record reached, nothing else |
| Codegen.DecoderNodesExact | packages/utils/src/codecs/codecs.ts:130-135 | the decoder collects every reachable node exactly once, in the order of first visits |
| Codegen.SameNameCollides | packages/utils/src/codecs/codecs.ts:219-233 | two different reachable nodes with the same routine name each get a routine of that name |
| Codegen.UnnamedArraysCollide | packages/utils/src/codecs/codecs.ts:219-233 | two arrays built without a name both declare `undefined_array_item_decoder_func` |
| Codegen.FindDuplicate | packages/utils/src/codecs/codecs.ts:136-146 | no duplicate exactly when all declared names differ; a reported name is declared twice |
| Codegen.GenerateCheckedDecoderCode | packages/utils/src/codecs/codecs.ts:129-154 | the decoder module with its names checked: produced only when every name is declared once, otherwise the clashing name is reported |
| Codegen.CheckedRefusesUnnamedArrays | packages/utils/src/codecs/codecs.ts:219-233 | the checked generator refuses the schema with two unnamed arrays |
| Codegen.ModuleFunctions | packages/utils/src/codecs/codecs.ts:63-71 | the run-time declarations of the file `generateFile` builds are routines only (decoder routines, then encoder routines); the type declarations are erased by transpiling |
| Codegen.SameNameDoesNotLoad | packages/utils/src/codecs/codecs.ts:51-61 | two different reached nodes with the same routine name keep the imported module from loading |
| Codegen.UnnamedArraysDoNotLoad | packages/utils/src/codecs/codecs.ts:51-61 | the module generated for the schema with two unnamed arrays does not load |
| CodecRuntime.EncodeValue | packages/utils/src/codecs/codecs.ts:177-293 | the code each node emits appends exactly `Encode(s, v)` to the encoder; a failed resize leaves a prefix of it; it cannot fail while the buffer stays under a quarter of its maximum |
| CodecRuntime.EncodeOptional | packages/utils/src/codecs/codecs.ts:278-287 | the inline optional block writes the flag and, when present, the item |
| CodecRuntime.EncodeArray | packages/utils/src/codecs/codecs.ts:209-217 | the inline array block writes the count, then each item in index order |
| CodecRuntime.EncodeRecord | packages/utils/src/codecs/codecs.ts:99-111 | `<Name>_encoder_fn` writes each field in `add` order |
| CodecRuntime.DecodeValue | packages/utils/src/codecs/codecs.ts:177-293 | the code each node emits reads exactly what `Decode` describes, moves the cursor to where it stops, and fails with the same error |
| CodecRuntime.Test | packages/utils/src/codecs/codecs.ts:41-61 | `test(obj)` rejects exactly when the generated module declares a function name twice and so fails to load; a module that loads returns the canonical form of `obj` when the encoding has room in the buffer, and `obj` itself when it is in decoded form |
| CodecBuilding.CodecBuilder.constructor | packages/utils/src/codecs/codecs.ts:8-11 | a new builder is a record with the given name and no fields |
| CodecBuilding.CodecBuilder.Node | packages/utils/src/codecs/codecs.ts:8-11 | the builder stands for the record node of its name and current fields |
| CodecBuilding.CodecBuilder.Add | packages/utils/src/codecs/codecs.ts:73-76 | `add` appends one field and keeps the earlier ones in order |
| CodecBuilding.BuildPoint | packages/utils/src/codecs/codecs.ts:73-76 | two chained `add` calls give the fields in call order |
| CodecBuilding.PointLayout | packages/utils/src/codecs/codecs.ts:309-313 | `{x: 42, y: -7}` is the 8 bytes `00 00 00 2a ff ff ff f9` and decodes back to itself |
| CodecBuilding.ItemLayout | packages/utils/src/codecs/codecs.ts:333-338 | `{name: "ok", tags: [1, 2, 3]}` is 20 bytes and decodes back to itself |
| CodecBuilding.OptionalLayout | packages/utils/src/codecs/codecs.ts:278-287 | a missing, `undefined` or `null` optional is the flag 0 alone and reads back as `undefined`; a present one is the flag 1 and the item |
| CodecBuilding.MaybeDecode | packages/utils/src/codecs/codecs.ts:266-276 | four zero bytes decode to the optional left `undefined` |
| FrontCodecs.CodecBuilder.constructor | packages/front/src/pages/codecs/codecs.test.ts:56-57 | a new builder has no fields |
| FrontCodecs.CodecBuilder.Snapshot | packages/front/src/pages/codecs/codecs.test.ts:56-57 | the codec the generated routines interpret is the current field list |
| FrontCodecs.CodecBuilder.AddInt | packages/front/src/pages/codecs/codecs.test.ts:75-78 | `addInt` appends an int field |
| FrontCodecs.CodecBuilder.AddArray | packages/front/src/pages/codecs/codecs.test.ts:80-83 | `addArray` appends an array field over the item builder's fields |
| FrontCodecs.CodecBuilder.AddCodec | packages/front/src/pages/codecs/codecs.test.ts:85-88 | `addCodec` appends a nested-codec field |
| FrontCodecs.Shift | packages/front/src/pages/codecs/codecs.test.ts:173-175 | `shift()` gives the head and the rest, or `undefined` on an empty buffer |
| FrontCodecs.Encoder.Int | packages/front/src/pages/codecs/codecs.test.ts:162-164 | `int` pushes the value onto the end |
| FrontCodecs.Encoder.GetBuffer | packages/front/src/pages/codecs/codecs.test.ts:166-168 | the buffer as pushed |
| FrontCodecs.Decoder.Int | packages/front/src/pages/codecs/codecs.test.ts:173-175 | `int` removes and returns the head |
| FrontCodecs.Nums | packages/front/src/pages/codecs/codecs.test.ts:159-176 | the numbers pushed, as the values read back |
| FrontCodecs.FifoOrder | packages/front/src/pages/codecs/codecs.test.ts:159-176 | shifting as many times as numbers were pushed returns them in push order and leaves what followed |
| FrontCodecs.Assign | packages/front/src/pages/codecs/codecs.test.ts:124 | `obj.<name> = x` sets that property and keeps every other |
| FrontCodecs.ExactIsEncodable | packages/front/src/pages/codecs/codecs.test.ts:90-113 | the encoder accepts every value of the shape the decoder builds |
| FrontCodecs.RoundTrip | packages/front/src/pages/codecs/codecs.test.ts:90-141 | the generated decoder inverts the generated encoder on every value of exact shape, whatever follows in the buffer |
| FrontCodecs.WholeValueRoundTrip | packages/front/src/pages/codecs/codecs.test.ts:121-122 | an int field without a name reads the whole value back as one number |
| FrontCodecs.RoundTripField | packages/front/src/pages/codecs/codecs.test.ts:120-134 | a named field reads back its property and sets it on the object |
| FrontCodecs.RoundTripItems | packages/front/src/pages/codecs/codecs.test.ts:129-134 | the item loop reads back each item in order |
| FrontCodecs.RunEncoder | packages/front/src/pages/codecs/codecs.test.ts:90-113 | the evaluated encoder pushes exactly `Encode(c, obj)` |
| FrontCodecs.RunDecoder | packages/front/src/pages/codecs/codecs.test.ts:115-141 | the evaluated decoder returns what `Decode` describes and leaves what it leaves, or throws exactly when `Decode` fails |
| FrontCodecs.BuildTestCodec | packages/front/src/pages/codecs/codecs.test.ts:3-12 | the builder calls of the test give the expected outer codec |
| FrontCodecs.TestObjectIsExact | packages/front/src/pages/codecs/codecs.test.ts:17-22 | the test object has exactly the shape of the test codec |
| FrontCodecs.CodecsTest | packages/front/src/pages/codecs/codecs.test.ts:16-30 | the decoded object equals the one encoded |
| Wordle.Feedback | crate/src/Wordle.rs:133-153 | the reference mask: five marks, each the mark of its position |
| Wordle.FeedbackFromStep | crate/src/Wordle.rs:144-151 | the mask is built position by position, left to right |
| Wordle.Find | crate/src/Wordle.rs:116-123 | the first slot holding the letter, or past the end when there is none |
| Wordle.DecrementedCounts | crate/src/Wordle.rs:125-129 | `decrement` lowers the count of that letter by one and no other; it is a no-op on an absent letter |
| Wordle.FixedCounts | crate/src/Wordle.rs:99-113 | a counter that does not reuse a slot holding 0 counts each letter as often as it occurs |
| Wordle.ScanIsFeedback | crate/src/Wordle.rs:143-151 | the left-to-right scan with an exact counter yields the reference marks |
| Wordle.FixedScanIsFeedback | crate/src/Wordle.rs:133-153 | `check` with the corrected counter equals the reference feedback for every answer and guess |
| Wordle.AsWrittenAgrees | crate/src/Wordle.rs:99-113 | as written, `check` is right whenever no position is correct and the answer has no byte 0 |
| Wordle.AsWrittenCorrectIffEqual | crate/src/Wordle.rs:136-141 | a position is `Correct` exactly when the letters match, so `check(w, w)` is all `Correct` |
| WordleCounter.CharCounter.constructor | crate/src/Wordle.rs:99-113 | `CharCounter::new` gives the tally of the word as written, zero slots included |
| WordleCounter.CharCounter.FromLetters | crate/src/Wordle.rs:99-113 | the corrected counter gives the tally of the letters, each in its own slot |
| WordleCounter.CharCounter.FindCount | crate/src/Wordle.rs:116-123 | `find_count` returns the count of the first slot holding the letter, 0 when absent |
| WordleCounter.CharCounter.Decrement | crate/src/Wordle.rs:125-129 | `decrement` lowers that letter's count, and does nothing when it is absent |
| WordleCounter.Place | crate/src/Wordle.rs:102-111 | the inner loop of `CharCounter::new` inserts one letter into the arrays |
| WordleCounter.PlaceFixed | crate/src/Wordle.rs:102-111 | the corrected insertion |
| WordleCounter.MarkMisplaced | crate/src/Wordle.rs:144-151 | the second pass turns the mask into the scan of the counter |
| WordleCounter.CheckAsWritten | crate/src/Wordle.rs:133-153 | `check` as written computes the as-written feedback |
| WordleCounter.Check | crate/src/Wordle.rs:133-153 | the corrected `check` computes the reference feedback |
| WordleWords.MaskRadixRoundTrip | crate/src/Wordle.rs:155-159 | the mask number is Σ mask[i]·3^i, and decoding it in base 3 gives the mask back |
| WordleWords.MaskRadixBound | crate/src/Wordle.rs:155-159 | a 5-mark mask number lies in [0, 243) |
| WordleWords.MaskRadixInjective | crate/src/Wordle.rs:155-159 | two masks of the same length have the same number exactly when they are equal |
| WordleWords.FilterWith | crate/src/Wordle.rs:162-172 | filtering never adds words |
| WordleWords.FilterWithMembers | crate/src/Wordle.rs:162-172 | a word is kept exactly when it was there and every guess matches it and differs from it |
| WordleWords.FilterWithHistory | crate/src/Wordle.rs:162-172 | filtering by two histories in a row is filtering by their concatenation |
| WordleWords.GuessedWordsRemoved | crate/src/Wordle.rs:168 | no guessed word survives the filter |
| WordleWords.Str5 | crate/src/Wordle.rs:174-176 | `str5` succeeds exactly on 5 bytes and returns them |
| WordleExamples.CheckHelloThere | crate/src/Wordle.rs:183-187 | the reference feedback of `check("hello","there")` is `[W,M,M,W,W]` |
| WordleExamples.ThereFleesFeedback | crate/src/Wordle.rs:189-193 | the reference feedback of `check("there","flees")` is `[W,W,C,M,W]` |
| WordleExamples.AabcdAfagtFeedback | crate/src/Wordle.rs:196-198 | the reference feedback of `check("aabcd","afagt")` is `[C,W,M,W,W]` |
| WordleExamples.AjbcdAfagtFeedback | crate/src/Wordle.rs:199-200 | the reference feedback of `check("ajbcd","afagt")` is `[C,W,W,W,W]` |
| WordleExamples.TestCheck | crate/src/Wordle.rs:183-187 | the test passes both as written and corrected |
| WordleExamples.CheckTwoLetters | crate/src/Wordle.rs:189-193 | the test passes both as written and corrected |
| WordleExamples.CheckTwoLettersOneCorrect | crate/src/Wordle.rs:195-201 | both assertions of the test pass as written and corrected |
| WordleExamples.AsWrittenOvercounts | crate/src/Wordle.rs:99-113 | as written, `check("xbcde","xcbbc")` marks a fourth letter `Misplaced` where the answer has no letter left for it |
| JsStrings.IndexOf | packages/front/src/pages/RelativeImportFixer/relativeFixer.ts:40 | `indexOf`: the first occurrence, or -1 exactly when there is none |
| JsStrings.FindChar | packages/front/src/pages/RelativeImportFixer/relativeFixer.ts:19 | the first position of the separator, with no separator before it |
| JsStrings.Split | packages/front/src/pages/RelativeImportFixer/relativeFixer.ts:19 | `split` gives at least one piece, and no piece holds the separator |
| JsStrings.JoinSplit | packages/front/src/pages/RelativeImportFixer/relativeFixer.ts:52-62 | joining the pieces of a split gives the string back |
| JsStrings.SplitJoin | packages/front/src/pages/RelativeImportFixer/relativeFixer.ts:28 | splitting a join of separator-free pieces gives the pieces back |
| JsStrings.ReplaceFirst | packages/front/src/pages/RelativeImportFixer/relativeFixer.ts:40 | `replace` with a string pattern: unchanged when the pattern is absent, otherwise the first occurrence replaced, `$` patterns expanded |
| JsStrings.ReplacePrefix | packages/front/src/pages/RelativeImportFixer/relativeFixer.ts:38-41 | replacing a prefix by a `$`-free text puts that text in front of the rest |
| RelativeImports.Normalize | packages/front/src/pages/RelativeImportFixer/relativeFixer.ts:19-26 | normalisation keeps only clean segments taken from its input |
| RelativeImports.ResolvedIsClean | packages/front/src/pages/RelativeImportFixer/relativeFixer.ts:19-28 | a resolved relative path starts with `/` and holds no empty, `.` or `..` segment |
| RelativeImports.ResolveResets | packages/front/src/pages/RelativeImportFixer/relativeFixer.ts:9-16 | an argument starting with `/` discards everything before it |
| RelativeImports.NormalizeDots | packages/front/src/pages/RelativeImportFixer/relativeFixer.ts:20-24 | `..` removes the previous segment and is a no-op at the root; `.` and empty segments are dropped |
| RelativeImports.NormalizeIdempotent | packages/front/src/pages/RelativeImportFixer/relativeFixer.ts:19-26 | normalising twice is normalising once |
| RelativeImports.AdjustImportCases | packages/front/src/pages/RelativeImportFixer/relativeFixer.ts:37-43 | an import resolving under `subPath` gets `alias` in place of that prefix; any other is kept as written |
| RelativeImports.AdjustImportExample | packages/front/tests/ImportAdjusts.test.ts:5-6 | `('/hello/hi/foo/bar/baz', '../hi.ts', '/hello/hi')` gives `@ALIAS@/foo/bar/hi.ts` |
| RelativeImports.MatchAt | packages/front/src/pages/RelativeImportFixer/relativeFixer.ts:58 | a match of `from\s+'(.+)'` captures a non-empty text within one line |
| RelativeImports.ImportPathOfSimpleLine | packages/front/src/pages/RelativeImportFixer/relativeFixer.ts:58 | on `… from '<path>'` the captured group is the path |
| RelativeImports.RewriteLines | packages/front/src/pages/RelativeImportFixer/relativeFixer.ts:53-61 | the `map` succeeds exactly when every line does, and then rewrites each line in place |
| RelativeImports.ParseFilesImports | packages/front/src/pages/RelativeImportFixer/relativeFixer.ts:52-62 | fails exactly when some `import` line has no `from '...'` part |
| RelativeImports.ParseWithoutImports | packages/front/src/pages/RelativeImportFixer/relativeFixer.ts:52-62 | a file without `import` lines comes back unchanged |
| RelativeImports.ParseKeepsLines | packages/front/src/pages/RelativeImportFixer/relativeFixer.ts:52-62 | the result has as many lines as the file, and every line not starting with `import` is unchanged |
| DependencyGraphs.CircularIffAncestor | packages/dependency_graph/src/DependencyGraph.ts:105-113 | a dependency is circular exactly when the path is that of the node or of one of its ancestors |
| DependencyGraphs.AdjustFileName | packages/dependency_graph/src/DependencyGraph.ts:149-158 | the adjusted name is a prefix of the name |
| DependencyGraphs.AdjustVueModule | packages/dependency_graph/src/DependencyGraph.ts:149-158 | `Foo.vue.ts` becomes `Foo.vue`, and `Foo.vue` stays |
| DependencyGraphs.AdjustOtherNames | packages/dependency_graph/src/DependencyGraph.ts:149-158 | a name without `.vue` is unchanged |
| DependencyGraphs.FlatGraph | packages/dependency_graph/src/DependencyGraph.ts:160-165 | the flattening lists the root first |
| DependencyGraphs.FlatGraphSize | packages/dependency_graph/src/DependencyGraph.ts:160-165 | the flattening has one entry per node of the tree |
| DependencyGraphs.FlatGraphHasChildren | packages/dependency_graph/src/DependencyGraph.ts:160-165 | every node of a child's flattening is in the parent's |
| DependencyGraphs.UniqueBy | packages/dependency_graph/src/DependencyGraph.ts:211-222 | the `filter` with its `seen` set returns `Unique` |
| DependencyGraphs.UniqueDistinct | packages/dependency_graph/src/DependencyGraph.ts:211-222 | no two kept elements share a key |
| DependencyGraphs.UniqueKeys | packages/dependency_graph/src/DependencyGraph.ts:211-222 | no key is lost |
| DependencyGraphs.UniqueCount | packages/dependency_graph/src/DependencyGraph.ts:211-222 | one element is kept per key |
| DependencyGraphs.UniqueKeepsFirst | packages/dependency_graph/src/DependencyGraph.ts:211-222 | the first element with each key is kept |
| DependencyGraphs.UniqueInOrder | packages/dependency_graph/src/DependencyGraph.ts:211-222 | the kept elements appear in their original order |
| DependencyGraphs.NameRows | packages/dependency_graph/src/DependencyGraph.ts:186-192 | one row per node, in order |
| DependencyGraphs.CSVNamesLines | packages/dependency_graph/src/DependencyGraph.ts:182-196 | `names.csv` is the header, one line per distinct file path, and an empty line after the trailing newline |
| DependencyGraphs.EdgeLines | packages/dependency_graph/src/DependencyGraph.ts:201-203 | one `parent;child` line per child, in order |
| DependencyGraphs.Links | packages/dependency_graph/src/DependencyGraph.ts:200-204 | one line per edge of each unique node |
| DependencyGraphs.AsWrittenLinksHeader | packages/dependency_graph/src/DependencyGraph.ts:206 | the links file's header is `source,target`: one column when read with the `;` of its rows |
| DependencyGraphs.LinksFixedLines | packages/dependency_graph/src/DependencyGraph.ts:198-209 | with the header `source;target`, every line has two columns, one line per edge |
| JsMaps.JsMap.Set | packages/front/src/pages/logview/LogStatePlugins.ts:18 | `Map.set` binds the key and keeps the others; a new key goes to the end of the insertion order |
| JsMaps.JsMap.Entries | packages/front/src/pages/logview/LogStatePlugins.ts:23 | `entries()` lists the bindings in insertion order |
| JsMaps.Empty | packages/front/src/pages/logview/LogStatePlugins.ts:9 | an empty map binds nothing |
| LogState.ResetClears | packages/front/src/pages/logview/LogStatePlugins.ts:7-11 | a `ProductOpen` line forgets every server |
| LogState.OtherLinesIgnored | packages/front/src/pages/logview/LogStatePlugins.ts:12-17 | a line not about the main socket, or mentioning neither `Logged` nor `lost`, changes nothing |
| LogState.StatusLineSets | packages/front/src/pages/logview/LogStatePlugins.ts:14-19 | a status line sets its server to whether it says `Logged`, keeps the others and their order |
| LogState.ServerKindBetweenBars | packages/front/src/pages/logview/LogStatePlugins.ts:17 | the server kind is the text between the first and the second `\|` |
| LogState.NoBarNoKind | packages/front/src/pages/logview/LogStatePlugins.ts:17 | a message without `\|` has no kind, so the entry goes under `undefined` |
| LogState.ConnectionStatePlugin.constructor | packages/front/src/pages/logview/LogStatePlugins.ts:4 | the status map starts empty |
| LogState.ConnectionStatePlugin.OnLog | packages/front/src/pages/logview/LogStatePlugins.ts:6-20 | `onLog` (the same in the JavaScript version, lines 12-26) moves the map to its next status |
| LogState.ConnectionStatePlugin.Format | packages/front/src/pages/logview/LogStatePlugins.ts:22-36 | one child per server in insertion order, keyed `connection, <server>`, labelled `<server> Connected` or `<server> Disconnected` |
| LogState.ConnectionStatePlugin.FormatWithIcons | packages/front/src/pages/logview/LogStatePlugins.js:32-46 | one child per server in insertion order, keyed `connection_<server>`, labelled with the server, with the check or cross icon |
| LogState.ConnectedIsRendered | packages/front/src/pages/logview/LogStatePlugins.ts:22-36 | a server recorded as connected is rendered as connected |
| LogState.LoggedLineShowsConnected | packages/front/src/pages/logview/LogStatePlugins.ts:14-36 | after a `Logged` line, the rendering shows that server as connected |
| DownSampling.LastLatch | packages/front/src/components/kite/IIRFilter.ts:158 | the last call number so far at which the sampler latched, or 0 |
| DownSampling.LatchedIsLastLatch | packages/front/src/components/kite/IIRFilter.ts:146-163 | the output is the sample of the last latching call, or 0 before any |
| DownSampling.FactorOnePassesThrough | packages/front/src/components/kite/IIRFilter.ts:158 | with factor 1 every call returns its own input |
| DownSampling.FactorZeroHoldsZero | packages/front/src/components/kite/IIRFilter.ts:158 | with factor 0 (`count % 0` is `NaN`) nothing latches and the output stays 0 |
| DownSampling.DownSampler.constructor | packages/front/src/components/kite/IIRFilter.ts:151-154 | a new sampler holds 0 and has counted nothing |
| DownSampling.DownSampler.Process | packages/front/src/components/kite/IIRFilter.ts:156-162 | each call counts one more sample, latches it when the count is a multiple of the factor, and returns the latched sample |
| SpaceIndex.Ceil | packages/front/src/pages/spaceIndex/GridIndex.ts:10 | `Math.ceil`: the least integer not below its argument |
| SpaceIndex.RowExact | packages/front/src/pages/spaceIndex/GridIndex.ts:45-48 | the inner loop visits exactly the cells of its column within the range |
| SpaceIndex.CellsExact | packages/front/src/pages/spaceIndex/GridIndex.ts:44-49 | the nested loops visit exactly the cells of the rectangle |
| SpaceIndex.Near | packages/front/src/pages/spaceIndex/GridIndex.ts:26-30 | the entities of a bucket nearer than `r` |
| SpaceIndex.FoundExact | packages/front/src/pages/spaceIndex/GridIndex.ts:23-34 | an entity is yielded exactly when it is in a visited bucket and nearer than `r` |
| SpaceIndex.IndexIn | packages/front/src/pages/spaceIndex/GridIndex.ts:67 | `indexOf`: the first position of the entity, or -1 exactly when it is absent |
| SpaceIndex.CellKeys | packages/front/src/pages/spaceIndex/GridIndex.ts:53-57 | inside the grid two cells share a key only when they are the same cell; the key of `(i, N)` is that of `(i + 1, 0)` |
| SpaceIndex.GridIndex.constructor | packages/front/src/pages/spaceIndex/GridIndex.ts:9-11 | an empty grid of `ceil(gridSize / cellSize)` cells a side |
| SpaceIndex.GridIndex.Insert | packages/front/src/pages/spaceIndex/GridIndex.ts:13-21 | appends the entity to its cell's bucket, creating it when absent; no other bucket changes; the stored multiset gains the entity |
| SpaceIndex.GridIndex.Remove | packages/front/src/pages/spaceIndex/GridIndex.ts:64-70 | removes the first occurrence from the bucket of the given position and nothing else, or does nothing when it is not there; the stored multiset loses exactly that entity |
| SpaceIndex.GridIndex.QueryBuckets | packages/front/src/pages/spaceIndex/GridIndex.ts:36-51 | visits exactly the clamped cells of the square around `pos`, column by column |
| SpaceIndex.GridIndex.Query | packages/front/src/pages/spaceIndex/GridIndex.ts:23-34 | yields exactly the entities of the visited buckets strictly nearer than `r` |
| SpaceIndex.GridIndex.QueryMeaning | packages/front/src/pages/spaceIndex/GridIndex.ts:23-34 | the entities found are those of the visited cells within `r` |
| SpaceIndex.GridIndex.NearIsVisited | packages/front/src/pages/spaceIndex/GridIndex.ts:36-51 | an entity stored under its position inside the grid and nearer than `r` is in a visited bucket |
| MyGraphs.ReduceLastShortest | packages/front/src/pages/DataVisualizationGraph/MyGraph.ts:31-34 | the `reduce` returns a path of minimum length, the last of that length |
| MyGraphs.FoundIsPath | packages/front/src/pages/DataVisualizationGraph/MyGraph.ts:14-29 | a path found runs along edges from the node to the target |
| MyGraphs.NotFoundIffUnreachable | packages/front/src/pages/DataVisualizationGraph/MyGraph.ts:14-30 | `null` exactly when the target is unreachable |
| MyGraphs.FoundIsShortest | packages/front/src/pages/DataVisualizationGraph/MyGraph.ts:14-35 | no path to the target is shorter than the one found |
| MyGraphs.FoundIsLastShortest | packages/front/src/pages/DataVisualizationGraph/MyGraph.ts:31-35 | on ties the later child's path wins |
| MyGraphs.Preorder | packages/front/src/pages/DataVisualizationGraph/MyGraph.ts:102-107 | `iter` yields the node first, and only nodes of the graph |
| MyGraphs.PreorderIsReachable | packages/front/src/pages/DataVisualizationGraph/MyGraph.ts:102-107 | `iter` yields exactly the reachable nodes |
| MyGraphs.FirstWithId | packages/front/src/pages/DataVisualizationGraph/MyGraph.ts:76-87 | the first node of a sequence with the id, or none exactly when none has it |
| MyGraphs.FindIsFirstInPreorder | packages/front/src/pages/DataVisualizationGraph/MyGraph.ts:76-87 | `findNodeById` returns the first preorder node with that id |
| MyGraphs.LinksFollowPreorder | packages/front/src/pages/DataVisualizationGraph/MyGraph.ts:93-100 | `getLinks` has one entry per non-root preorder node, in preorder, each an edge into it |
| MyGraphs.WithChild | packages/front/src/pages/DataVisualizationGraph/MyGraph.ts:4-8 | `addChild` appends the child only when no child has its id; no other node changes |
| MyGraphs.WithChildKeepsDistinct | packages/front/src/pages/DataVisualizationGraph/MyGraph.ts:4-8 | child ids stay pairwise distinct |
| MyGraphs.WithoutChildren | packages/front/src/pages/DataVisualizationGraph/MyGraph.ts:89-91 | `clearChildren` empties that node's children and changes nothing else |
| MyGraphs.ClearedIsLeaf | packages/front/src/pages/DataVisualizationGraph/MyGraph.ts:89-91 | a cleared node iterates to itself alone and has no links |
| MyGraphs.RecordAllKeepsFirstShortest | packages/front/src/pages/DataVisualizationGraph/MyGraph.ts:47-52 | each visited id ends with the first of its shortest paths (strict `>`), and no other id is recorded |
| MyGraphs.RecordedArePaths | packages/front/src/pages/DataVisualizationGraph/MyGraph.ts:42-57 | every recorded path is a path of the graph from the root |
| MyGraphs.FindShortestPaths | packages/front/src/pages/DataVisualizationGraph/MyGraph.ts:42-56 | the recursive walk records the visits in depth-first order |
| MyGraphs.MyNodeHeap.constructor | packages/front/src/pages/DataVisualizationGraph/MyGraph.ts:2 | the nodes as given |
| MyGraphs.MyNodeHeap.AddChild | packages/front/src/pages/DataVisualizationGraph/MyGraph.ts:4-8 | the heap after `addChild` |
| MyGraphs.MyNodeHeap.ClearChildren | packages/front/src/pages/DataVisualizationGraph/MyGraph.ts:89-91 | the heap after `clearChildren` |
| MyGraphs.MyNodeHeap.ClearAll | packages/front/src/pages/DataVisualizationGraph/MyGraph.ts:58-60 | every iterated node is cleared and the others are unchanged |
| MyGraphs.MyNodeHeap.Link | packages/front/src/pages/DataVisualizationGraph/MyGraph.ts:63-67 | the edge is added exactly when `root` does not reach the child yet (the heap becomes `WithChild` of the old one), and nothing changes otherwise; with unique ids the child is reachable afterwards |
| MyGraphs.MyNodeHeap.AddPath | packages/front/src/pages/DataVisualizationGraph/MyGraph.ts:62-68 | with unique ids the end of the path is reachable from the root afterwards |
| MyGraphs.MyNodeHeap.AddPaths | packages/front/src/pages/DataVisualizationGraph/MyGraph.ts:61-69 | with unique ids the end of every recorded path is reachable afterwards |
| MyGraphs.MyNodeHeap.TurnIntoDAG | packages/front/src/pages/DataVisualizationGraph/MyGraph.ts:38-74 | returns the recorded shortest paths; the new graph keeps only old edges, leaves unreachable nodes alone, and with unique ids still reaches every recorded target |
| FileSystemTrees.Parent | packages/front/src/pages/DataVisualizationGraph/MyGraph.ts:130 | the parent id is shorter than a non-empty id |
| FileSystemTrees.PrefixParent | packages/front/src/pages/DataVisualizationGraph/MyGraph.ts:125-130 | the parent of a prefix of `i + 1` pieces is the prefix of `i` pieces |
| FileSystemTrees.FirstBranching | packages/front/src/pages/DataVisualizationGraph/MyGraph.ts:138-148 | a node returned has more than one child |
| FileSystemTrees.FirstBranchingIsFirstFork | packages/front/src/pages/DataVisualizationGraph/MyGraph.ts:138-148 | returns `m` exactly when `m` ends the single-child chain and has more than one child |
| FileSystemTrees.FirstBranchingNone | packages/front/src/pages/DataVisualizationGraph/MyGraph.ts:138-148 | returns `null` exactly when the single-child chain ends at a leaf |
| FileSystemTrees.AddPiece | packages/front/src/pages/DataVisualizationGraph/MyGraph.ts:125-133 | one prefix is added as a child of its parent when new |
| FileSystemTrees.AddFile | packages/front/src/pages/DataVisualizationGraph/MyGraph.ts:123-134 | every prefix of the file is a node hanging from its parent |
| FileSystemTrees.FromFileSystemArr | packages/front/src/pages/DataVisualizationGraph/MyGraph.ts:109-150 | the nodes are exactly the prefixes of the files, `""` and `C:`; each prefix hangs from its parent; the result is the first fork below `C:` |
| FileSystemTrees.FileHangsFromFolders | packages/front/src/pages/DataVisualizationGraph/MyGraph.ts:122-135 | each prefix of each file is a child of the prefix one piece shorter |

## Left out

- The compile and load step of the codec is modelled only by its outcome: the `data:` URL `import` rejects exactly when the module declares a function name twice (`Codegen.Loads`). TypeScript `transpileModule`, `prettier` and `eval` in the front test are foreign tools. Other ways the generated text could fail to parse, such as a field name that is not an identifier, are not modelled. The routines are modelled by what they do, not by their text.
- CodecBuilding.CodecBuilder.Add: a field holds its schema node as a value, a snapshot taken when the field is added. In the source the field holds a reference to the builder, so a nested builder extended after it was added is seen extended at generation time; the model does not capture that aliasing.
- CodecBuilding.CodecBuilder.Add: a builder added into itself, directly or through other nodes, makes `traverse` recurse without end in the source. Schemas are finite trees here, so such a cyclic schema cannot be expressed.
- FrontCodecs.CodecBuilder.AddArray: the item builder's fields are copied when the field is added. The source keeps a reference, so later additions to the item builder, or a builder added into itself, are not captured.
- FrontCodecs.CodecBuilder.AddCodec: the nested builder's fields are copied when the field is added, with the same aliasing and cycles left out as for `AddArray`.
- The utils codec test's `objectToEncode` is not in decoded form: it has no `notPresent` property, and decoding adds `notPresent: undefined`. Jest's `toEqual` ignores properties that are `undefined`, so the test compares up to those; the model compares exactly, and `Codecs.RoundTrip` gives the canonical form with `notPresent` set to `undefined`. That test's schema also does not load: its four arrays are built without a name, and `Codegen.SameNameDoesNotLoad` applies to any two of them. `Codegen.UnnamedArraysDoNotLoad` shows it on a schema with two of those arrays. So its `test` call rejects.
- `typeName`, `typeDeclaration` and the routine bodies are not modelled as text. Only the declared names matter to the generator and are modelled.
- Numbers are integers. A non-integral or non-finite number passed to `encoder.int` is not modelled, and neither is the JavaScript number limit on array lengths.
- The `Encoder`'s `ArrayBuffer` is modelled as an array at its maximum capacity plus a length. A resize past the maximum throws a `RangeError`; here that is a failed write (`ok == false`).
- CodecRuntime.EncodeValue: the guarantee that no resize fails is stated only while the buffer stays under a quarter of its maximum. Beyond that the contract says only that the bytes written are a prefix of the encoding.
- Strings are sequences of UTF-16 code units. Code points, surrogates and normalisation are not modelled.
- The `Wordle` struct methods (`simulate`, `play`, `calc_best_guesses`, `entropy_of`) and the guessing strategy are left out. They rest on serde and floating-point entropy.
- WordleWords.FilterWith: `Guess::matches` lives in a file that is not part of this model, so it is a parameter.
- WordleWords.Str5: a panic is modelled as `None`.
- The `names.csv` rows use `toLocaleLowerCase` and `path.dirname`. These are parameters of the model, since they are host library calls.
- `getDependencyGraph`, `exportToCSV`, the module resolver and all file I/O are left out.
- `GridIndex.drawQuery` is left out because it only draws on a canvas.
- Positions in `GridIndex` are exact reals. An entity's `position()` is passed to `insert` and `remove`, and to `query` as a function, because entities are foreign objects.
- SpaceIndex.GridIndex.constructor requires `cellSize > 0`. With `cellSize` 0 the source computes `Infinity` and `NaN` keys, which are not modelled.
- The query's distance test `d < r` is stated as `dx² + dy² < r²` for `r > 0`. A negative `r` finds nothing in both.
- A position outside `[0, gridSize)` gets a key that can alias another cell, since `x * N + y` is not injective there. The model computes the same keys. SpaceIndex.CellKeys shows the aliasing, and NearIsVisited is stated only for positions inside the grid.
- `MyGraph` is modelled on acyclic graphs, witnessed by a ghost rank that decreases along every edge. On a cycle the source recurses without end.
- MyGraphs.MyNodeHeap.TurnIntoDAG: the reachability of the recorded targets afterwards is proved only when node ids are unique. With two nodes of the same id, `addChild` can refuse an edge. That the result is a tree is not proved.
- The generator `iter()` is modelled as the sequence it yields. Laziness is not modelled.
- FileSystemTrees.FromFileSystemArr returns the forked node's id together with the whole tree of ids. The source returns the node object.
- `allFolders` in `fromFileSystemArr` is only ever written, so it is left out.
- A file path starting with `/` makes the node `""` its own child (a self-loop), because the parent of `""` is `""`. That node is not reachable from `C:`, so the result is unaffected. The model records the edge from `""` to its first pieces but proves the tree shape only for the other nodes.
- `DownSampler` factors that are not integers are not modelled. A negative integer factor behaves as in the source (JavaScript `%` truncates, and `count % factor == 0` tests divisibility either way).
- The other parts of the repository are outside this model: the renderers, WebGPU, workers, reactive stores, the Chart and misc utilities, and the raytracer and drawing crates.

## Findings

| source | as written | input that shows it | evidently intended | confidence | as-written member | corrected member |
|---|---|---|---|---|---|---|
| crate/src/Wordle.rs:99-113 | `CharCounter::new` treats byte 0, which `check` writes for each correct position, as an empty slot. The zeros are tallied in the first free slot, and the next new letter overwrites that slot and inherits its count | `check("xbcde", "xcbbc")` gives `[C,M,M,M,W]`: the answer has one `b` left, yet both `b`s of the guess are marked `Misplaced` | `[C,M,M,W,W]`: each answer letter not matched in place is used for at most one `Misplaced` | not executed | WordleExamples.AsWrittenOvercounts | Wordle.FixedScanIsFeedback |
| packages/utils/src/codecs/codecs.ts:219-233 | array decoder routines are named `${this.name}_array_item_decoder_func`, and the test builds `new ArraySerializable(Int)` with no name | the test schema's unnamed arrays all declare `undefined_array_item_decoder_func`, so the generated module declares one name twice | one routine name per node | not executed | Codegen.UnnamedArraysDoNotLoad | Codegen.GenerateCheckedDecoderCode |
| packages/dependency_graph/src/DependencyGraph.ts:206 | the links header is `source,target`, while every row is `parent;child` | any graph: the header reads as one column under the `;` separator of the rows | a `source;target` header | not executed | DependencyGraphs.AsWrittenLinksHeader | DependencyGraphs.LinksFixedLines |
