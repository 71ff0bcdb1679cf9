# Verified models of the algorithms behind the firmware

Dafny models of the parts of this firmware tree that carry real invariants, with machine-checked proofs of what they
promise. `dafny verify dfyconfig.toml` checks everything.

- **ArduinoJson 6.10** (embedded configuration: 32-bit `UInt` and `Float`, 16-byte slots, no `\u` decoding). The memory
  pool is a class whose two ends move towards each other; collections are linked lists with 16-bit relative offsets in it.
  The JSON and MessagePack parsers are classes that read characters one at a time and build the lists; the serializers
  walk them. Each is proved against a small functional description (`JsonGrammar`, `JsonPrinter`, `MsgPackGrammar`), and
  the laws are proved about those: parsing in place refines parsing with copies, both formats round-trip, memory is
  accounted for to the byte, recursion is bounded by the nesting limit, a deep copy uses exactly `memoryUsage()`. What the
  descriptions accept and write is stated a second time without them, byte by byte: `JsonText` and `MsgPackText` are
  grammars of the two formats that the parsers decide exactly (`JsonLanguage`, `MsgPackLanguage`), `JsonPrefix`,
  `JsonRefusal` and `MsgPackPrefix` tell what failures mean, `JsonLayout` and `MsgPackShortest` what the serializers
  choose among the texts of a document, and `DocumentEquality` when two documents are equal.
- **I2C command scheduler** (`I2cPlan`, `I2cQueue`). `fillCmdQueue` cuts the command stream of a queue into windows of 16
  hardware commands. Over any number of calls the windows carry exactly the stream.
- **ESP32 image builder** (`EspImage`, `EspImageFile`, `EspImageLayout`, `EspImageSave`, `EspImageLoad`,
  `EspImageChecksum`) and **SLIP** (`Slip`) of `esptool.py`: the layout loop, its termination, exactly when its assertion
  fails, the file it writes and reading it back; framing under any chunking. `EspImageContents` and `EspImageReading` say
  what is in an image file from its bytes and the addresses of the segments alone.
- **Partition table tool** (`Partitions`, `PartitionBinary`): placement, overlap check and binary codec; `PartitionBytes`
  is the format byte by byte.
- **SPI divider search**, **unbiased random** and the **circular buffer** of the Arduino core (`SpiClock`,
  `UnbiasedRandom`, `CircularBuffer`).

Two results are about code that does not quite do what its neighbourhood suggests.

- `ESP32FirmwareImage.save` can stop at its own alignment assertion on a legal image.
  `EspImageLayout.AssertionFailsExactly` gives the exact condition for every image: in front of some flash segment the RAM
  segments run out one header short of its place in the page. The condition is computed from addresses and lengths
  (`EspImageLayout.Fails`), before anything is written. `WithoutRam` specialises it to images without RAM segments,
  `ClashNeverLaid` shows which neighbouring flash segments defeat any RAM, and `AssertionCanFail` and `RamCanFail` name
  sections that trigger it.
- `cbuf::resize(n)` accepts a size for which n + 1 is the number of bytes held, and then leaves the end position outside
  the buffer. `CircularBuffer.Cbuf.Resize` proves the object stays well formed in every other case and in no other.

Further plausible claims that are false have an exact condition as well: a partition name longer than its field
(`PartitionBinary.RoundTripExactly`), negative zero and large negative integers in MessagePack
(`MsgPackTheorems.IntegersThatSurvive`, and `ComesBackExactly` for whole documents), comparison of a document with its
copy when keys repeat (`DocumentCompare.EqualItselfExactly`). For a negative size in a partition CSV there is an example
in which a later row overlaps an earlier one (`Partitions.NegativeSizeOverlaps`) and a condition on the rows that rules it
out (`NoNegativeSize` with `PlacementIsSound`), which is sufficient and not necessary: a negative size may do no harm.

`resizeAdd(n)` makes room for n + 1 bytes more, and the comment in `esp32-hal-spi.c` on `clkcnt_h` does not describe what
the search stores there; the models follow the code.

## Conventions

Bytes are integers from 0 to 255. Values outside the model come in as parameters: decimal floating point conversion, the
hash functions, the random draws, the chunks a port delivers. `hide` statements only tell the verifier which definitions a
proof does not need.

## Model

| member | source | states |
|---|---|---|
| JsonGrammar.Parse | main/lib/ArduinoJson-v6.10.0.h:4314-4327 | total on every text; progress within the text; success means nesting at most the limit and pool bytes used equal the cost of the value |
| JsonGrammar.ParseItems | main/lib/ArduinoJson-v6.10.0.h:4346-4364 | the element loop keeps the same account of depth and pool bytes, one slot for each element |
| JsonGrammar.ParseMembers | main/lib/ArduinoJson-v6.10.0.h:4365-4392 | likewise for object members, whose keys cost pool bytes in copying mode |
| JsonGrammar.Skip | main/lib/ArduinoJson-v6.10.0.h:4531-4576 | spaces and both kinds of comment are passed over; success stops at a character inside the text, errors are IncompleteInput or InvalidInput |
| JsonGrammar.Quoted | main/lib/ArduinoJson-v6.10.0.h:4414-4447 | a quoted string is NUL-free and strictly shorter than the text that spells it, so its terminator fits in place |
| JsonGrammar.Unquoted | main/lib/ArduinoJson-v6.10.0.h:4448-4464 | an unquoted key is the run of word characters itself |
| JsonGrammar.ParseToken | main/lib/ArduinoJson-v6.10.0.h:4465-4503 | keywords and numbers take no pool memory and never report NoMemory or TooDeep |
| JsonLanguage.ParsesExactly | main/lib/ArduinoJson-v6.10.0.h:4303-4503 | the parser returns a document at a position if and only if the bytes up to there spell it, in a grammar given independently byte by byte (the four spaces, both comments, both quotes, every escape, unquoted keys, signs, the 63-character word), and it nests within the limit and fits the pool |
| JsonLanguage.RefusedOnlyForSize | main/lib/ArduinoJson-v6.10.0.h:4303-4413 | a spelled document is accepted at its end and exact cost, or refused as TooDeep or NoMemory, each only when limit or pool is too small |
| JsonPrefix.PrefixIsIncomplete | main/lib/ArduinoJson-v6.10.0.h:4328-4576 | every accepted text of a string, array or object is IncompleteInput when cut anywhere before its end, cuts right behind a slash or sign aside; what follows the end changes nothing |
| JsonPrefix.UnfairCuts | main/lib/ArduinoJson-v6.10.0.h:4465-4576 | behind a slash or a sign the code is InvalidInput, so that exception is needed |
| JsonRefusal.CodeTells | main/lib/ArduinoJson-v6.10.0.h:4303-4576 | every failure anywhere is explained where the reader stopped: IncompleteInput at the end or behind a miscounted keyword, NotSupported at an escaped u, InvalidInput at a character that is neither the end nor blank or behind a bad word or slash, TooDeep at an opening bracket; a limit above the text length and 17 pool bytes per character are always enough |
| JsonPrefix.WrongStart | main/lib/ArduinoJson-v6.10.0.h:4314-4327 | a character that starts no value is InvalidInput |
| JsonPrefix.UnicodeIsNotSupported | main/lib/ArduinoJson-v6.10.0.h:4425-4433 | an escaped u anywhere in a string is NotSupported |
| JsonPrefix.WrongAfterElement | main/lib/ArduinoJson-v6.10.0.h:4346-4364 | behind the first element of an array anything but a comma or the bracket is InvalidInput |
| JsonPrefix.WrongAfterKey | main/lib/ArduinoJson-v6.10.0.h:4365-4392 | behind the first key of an object anything but a colon is InvalidInput |
| JsonInPlace.ParseInPlace | main/lib/ArduinoJson-v6.10.0.h:3922-3944 | unless copying runs out of memory, in-place parsing gives the same code, value and position with at least as much room left, for every text, limit and pool |
| JsonRoundTrip.ReadDecimal | main/lib/ArduinoJson-v6.10.0.h:4828-4837 | the digit loop undoes the digit writer for every UInt, and goes on with whatever follows |
| JsonRoundTrip.QuotedShown | main/lib/ArduinoJson-v6.10.0.h:4785-4803 | a NUL-free string written with escapes is read back exactly |
| JsonRoundTrip.RoundTrip | main/lib/ArduinoJson-v6.10.0.h:4875-4998 | either rendering found anywhere in a text, at any indentation, parses to exactly the value at exactly its cost, or is TooDeep beyond the limit |
| JsonLayout.DecimalIs | main/lib/ArduinoJson-v6.10.0.h:4828-4837 | the numeral consists of digits, has the value of the number and no leading zero |
| JsonLayout.DecimalIsOnly | main/lib/ArduinoJson-v6.10.0.h:4828-4837 | there is no other such numeral |
| JsonLayout.CompactIs | main/lib/ArduinoJson-v6.10.0.h:4875-4935 | the compact text is the brackets around the elements joined by commas, keys and colons in front, strings quoted with exactly the six escapes |
| JsonLayout.PrettyIs | main/lib/ArduinoJson-v6.10.0.h:4948-4998 | the pretty text is its lines joined by CR LF: two blanks per level, a comma behind every element but the last, colon and blank behind a key; as long as the 8-bit nesting counter does not wrap around |
| JsonTheorems.WriteThenParse | main/lib/ArduinoJson-v6.10.0.h:4314-4503 | printing then parsing is the identity up to string ownership, for any following text that cannot extend a number or word; TooDeep exactly when nesting exceeds the limit |
| JsonTheorems.ParsedIsPlain | main/lib/ArduinoJson-v6.10.0.h:4393-4413 | everything a successful parse without floats produces lies in the domain of the round trip |
| JsonTheorems.Reparse | main/lib/ArduinoJson-v6.10.0.h:4303-4503 | parse, print, parse gives the first result again in the same pool: comments, quotes and spacing vanish in one step |
| JsonTheorems.ComesBackExactly | main/lib/ArduinoJson-v6.10.0.h:4303-4998 | a document without floats within limit and pool comes back if and only if the text can carry it |
| Document.LinkIsExact | main/lib/ArduinoJson-v6.10.0.h:457-492 | a 16-bit relative link leads where it was set if and only if the slots are at most 32768 apart |
| Document.JsonDocument.AddSlot | main/lib/ArduinoJson-v6.10.0.h:3429-3441 | fails exactly when the pool lacks a slot, changing nothing; else takes one slot from the right end and links it behind the tail, all other slots unchanged |
| DocumentLaws.LayDenotes | main/lib/ArduinoJson-v6.10.0.h:457-492 | slots laid out in allocation order, followed through their relative links, denote the document |
| DocumentLaws.Grow | main/lib/ArduinoJson-v6.10.0.h:3429-3450 | adding a member and building its value extends the list by that member and keeps all earlier ones |
| Footprint.LaySlots | main/lib/ArduinoJson-v6.10.0.h:539-615 | the slots reachable from the root are each slot allocated, once |
| Footprint.LayTexts | main/lib/ArduinoJson-v6.10.0.h:539-615 | the strings reachable from the root lie one behind the other without overlap |
| TextInput.Input.Next | main/lib/ArduinoJson-v6.10.0.h:4328-4345 | reading yields the original text although the buffer behind the cursor has been overwritten |
| TextInput.Input.StartString | main/lib/ArduinoJson-v6.10.0.h:3877-3944 | a new string starts at the end of the finished ones |
| TextInput.Input.Append | main/lib/ArduinoJson-v6.10.0.h:3885-3929 | the string grows by the character, unread input and finished strings stay as they are |
| TextInput.Input.Complete | main/lib/ArduinoJson-v6.10.0.h:3896-3934 | succeeds in copying mode exactly when string and terminator fit, in place always; the finished bytes stand at the start mark |
| TextInput.Input.ParseQuotedString | main/lib/ArduinoJson-v6.10.0.h:4414-4447 | error, position, stored text and pool use are those of the grammar, in both string modes |
| TextInput.Input.ParseNonQuotedString | main/lib/ArduinoJson-v6.10.0.h:4448-4464 | likewise for unquoted keys |
| TextInput.Input.SkipSpacesAndComments | main/lib/ArduinoJson-v6.10.0.h:4531-4576 | the comment loops end where the grammar says, with the same error |
| TextInput.Input.ReadToken | main/lib/ArduinoJson-v6.10.0.h:4465-4480 | the buffered token is the run of word characters, at most 63 |
| JsonDeserializer.ReadNumber | main/lib/ArduinoJson-v6.10.0.h:3665-3696 | the digit loop with its two overflow guards classifies every token as the grammar does |
| JsonDeserializer.Deserializer.ParseNumericValue | main/lib/ArduinoJson-v6.10.0.h:4465-4503 | the variant holds the leaf of the grammar, nothing else in the pool changes |
| JsonDeserializer.Deserializer.ParseStringValue | main/lib/ArduinoJson-v6.10.0.h:4407-4413 | the variant denotes the string read |
| JsonDeserializer.Deserializer.ParseElements | main/lib/ArduinoJson-v6.10.0.h:4346-4364 | the list in the pool holds the elements of the grammar, complete or up to the error, and the limit is restored |
| JsonDeserializer.Deserializer.ParsePairs | main/lib/ArduinoJson-v6.10.0.h:4365-4392 | the same for object members, keyless slot of a failed key included |
| JsonDeserializer.Deserializer.Parse | main/lib/ArduinoJson-v6.10.0.h:4314-4327 | terminates on every input; error, value built, position, room and restored nesting limit are those of the grammar, on success and on error |
| JsonApi.DeserializeJson | main/lib/ArduinoJson-v6.10.0.h:4221-4250 | the cleared document denotes the value of the grammar, every slot of the pool belongs to it, the copied-from input is untouched |
| JsonApi.NothingOverlaps | main/lib/ArduinoJson-v6.10.0.h:586-615 | after any parse the pool ends have not crossed and live slots and strings are disjoint |
| JsonApi.PoolIsAccountedFor | main/lib/ArduinoJson-v6.10.0.h:3541-3556 | after a successful parse with copies pool.size() is memoryUsage() of the root; in place it is the slots alone; nesting() is at most the limit |
| JsonApi.ParseBothWays | main/lib/ArduinoJson-v6.10.0.h:3910-3944 | on one terminated text, unless copying reports NoMemory, both modes return the same code and documents denoting the same value |
| JsonApi.SerializeJson | main/lib/ArduinoJson-v6.10.0.h:4678-4710 | the buffer gets the rendering, cut to its size, and a terminator; the result is the number of characters |
| JsonApi.PrintAndParse | main/lib/ArduinoJson-v6.10.0.h:4303-4998 | document to text to document, through the pools and buffers themselves: the same value, exactly its cost used, or TooDeep |
| JsonSerializer.DigitsOf | main/lib/ArduinoJson-v6.10.0.h:4828-4837 | the backwards digit loop yields the decimal numeral |
| JsonSerializer.Serializer.WriteOwned | main/lib/ArduinoJson-v6.10.0.h:4785-4803 | quotes, escapes and characters of the stored string, in order |
| JsonSerializer.Serializer.VisitCompact | main/lib/ArduinoJson-v6.10.0.h:4875-4901 | following the links writes the compact rendering of the list |
| JsonSerializer.Serializer.VisitPretty | main/lib/ArduinoJson-v6.10.0.h:4959-4998 | writes the indented rendering and restores the nesting counter |
| JsonSerializer.Serializer.Accept | main/lib/ArduinoJson-v6.10.0.h:4875-4935 | the output grows by exactly the rendering of the value the variant denotes |
| TextWriter.StaticStringWriter.Write | main/lib/ArduinoJson-v6.10.0.h:4630-4653 | the buffer holds the longest prefix of all output that fits, terminated; the count is what was stored now |
| MsgPackGrammar.Decode | main/lib/ArduinoJson-v6.10.0.h:5069-5143 | total; success stays in the input, within the limit, and within the pool |
| MsgPackLanguage.DecodesExactly | main/lib/ArduinoJson-v6.10.0.h:5059-5301 | the decoder returns a document at a position if and only if the bytes up to there are a message for it, in a relation that gives every tag and byte order independently, including the forms the encoder never writes |
| MsgPackLanguage.IntegerIs | main/lib/ArduinoJson-v6.10.0.h:5069-5143 | an integer is read if and only if the bytes are a fixed form, or one of the tags CC to CE and D0 to D2 and the big-endian bytes of the number modulo its width; a signed form gives the number with its sign |
| MsgPackLanguage.MessageDecodes | main/lib/ArduinoJson-v6.10.0.h:5059-5301 | a message anywhere in the input is decoded to its end and cost, or refused as TooDeep or NoMemory, each only when limit or pool is too small |
| MsgPackPrefix.PrefixIsIncomplete | main/lib/ArduinoJson-v6.10.0.h:5145-5181 | every proper prefix of an accepted message is IncompleteInput; what follows the end changes nothing |
| MsgPackPrefix.Unsupported | main/lib/ArduinoJson-v6.10.0.h:5069-5143 | 64-bit integers, binary and extension types are NotSupported |
| MsgPackPrefix.KeysAreStrings | main/lib/ArduinoJson-v6.10.0.h:5266-5301 | a key that is no string is NotSupported |
| MsgPackRoundTrip.NegativeRead | main/lib/ArduinoJson-v6.10.0.h:5405-5425 | every negative integer down to -2^31 is read back with its sign from the shortest form the encoder chose |
| MsgPackRoundTrip.TextHeadRead | main/lib/ArduinoJson-v6.10.0.h:5385-5401 | each of the four string headers gives its size back |
| MsgPackRoundTrip.RoundTrip | main/lib/ArduinoJson-v6.10.0.h:5334-5466 | an encoding found anywhere decodes to the value, position and cost, or TooDeep beyond the limit |
| MsgPackShortest.PositiveForm | main/lib/ArduinoJson-v6.10.0.h:5426-5446 | which of the five forms a positive integer takes, with its big-endian bytes |
| MsgPackShortest.NegativeForm | main/lib/ArduinoJson-v6.10.0.h:5405-5425 | which of the four forms a negative integer takes, with the big-endian bytes of its two's complement |
| MsgPackShortest.EncodingIsMessage | main/lib/ArduinoJson-v6.10.0.h:5334-5466 | what the encoder writes is a message for the document |
| MsgPackShortest.EncodingIsShortest | main/lib/ArduinoJson-v6.10.0.h:5334-5466 | no message for a document is shorter than the one the encoder writes |
| MsgPackTheorems.EncodeThenDecode | main/lib/ArduinoJson-v6.10.0.h:5069-5143 | decoding consumes exactly the encoding, whatever follows, and returns the value with its strings owned |
| MsgPackTheorems.IntegersThatSurvive | main/lib/ArduinoJson-v6.10.0.h:5405-5425 | an integer survives if and only if it is not negative or its magnitude is 1 to 2^31 |
| MsgPackTheorems.DecodedIsEncodable | main/lib/ArduinoJson-v6.10.0.h:5069-5143 | everything a successful decode produces lies in the domain of the round trip |
| MsgPackTheorems.Redecode | main/lib/ArduinoJson-v6.10.0.h:5059-5466 | decode, encode, decode gives the first result again in the same pool |
| MsgPackTheorems.ComesBackExactly | main/lib/ArduinoJson-v6.10.0.h:5059-5466 | a document within limit and pool comes back if and only if the format can carry it |
| MsgPackTheorems.DecodeInPlace | main/lib/ArduinoJson-v6.10.0.h:5236-5246 | unless copying runs out of memory, decoding in place gives the same code, value and position |
| MsgPackDeserializer.Deserializer.ReadInteger | main/lib/ArduinoJson-v6.10.0.h:5153-5181 | big-endian bytes become the number, or nothing is claimed when they are not all there |
| MsgPackDeserializer.Deserializer.TakeString | main/lib/ArduinoJson-v6.10.0.h:5236-5246 | the bytes are stored with a terminator; in place the header byte already consumed pays for it |
| MsgPackDeserializer.Deserializer.ParseMembers | main/lib/ArduinoJson-v6.10.0.h:5248-5301 | the counted loop builds the list of the grammar, and leaves the nesting limit lowered by the collections open at an error |
| MsgPackDeserializer.Deserializer.Parse | main/lib/ArduinoJson-v6.10.0.h:5069-5143 | error, value built, position and room are those of the grammar; the nesting limit is restored on success and stays lowered by the collections still open on an error |
| MsgPackSerializer.Serializer.VisitNegativeInteger | main/lib/ArduinoJson-v6.10.0.h:5405-5425 | the shortest form, or nothing above 2^31 |
| DocumentWalk.SlotSize | main/lib/ArduinoJson-v6.10.0.h:1509-1516 | counts the members by following the links |
| MsgPackSerializer.Serializer.Accept | main/lib/ArduinoJson-v6.10.0.h:5338-5466 | the output grows by exactly the encoding of the value the variant denotes |
| MsgPackApi.DeserializeMsgPack | main/lib/ArduinoJson-v6.10.0.h:5308-5330 | the document denotes the value of the grammar; the copied-from input is untouched |
| MsgPackApi.DecodeBothWays | main/lib/ArduinoJson-v6.10.0.h:5236-5246 | on one message, unless copying reports NoMemory, both modes return the same code and the same value |
| MsgPackApi.SerializeMsgPack | main/lib/ArduinoJson-v6.10.0.h:5471-5479 | the buffer gets the encoding, cut to its size |
| MsgPackApi.EncodeAndDecode | main/lib/ArduinoJson-v6.10.0.h:5059-5466 | document to bytes to document, through the pools and buffers themselves: the same value, exactly its cost used, or TooDeep |
| DeepCopy.MemoryUsage | main/lib/ArduinoJson-v6.10.0.h:1430-1442 | following links and strings gives slots and owned string bytes of the value |
| DeepCopy.NestingOf | main/lib/ArduinoJson-v6.10.0.h:3549-3556 | following the links gives the depth of the value |
| DeepCopy.Get | main/lib/ArduinoJson-v6.10.0.h:3499-3506 | finds the first member with that key, or none if there is none |
| DeepCopy.Equals | main/lib/ArduinoJson-v6.10.0.h:1268-1293 | decides equality of the values denoted, floats by their bits with NaN apart, object members by key |
| DeepCopy.CopyVariant | main/lib/ArduinoJson-v6.10.0.h:1251-1267 | succeeds exactly when the pool has memoryUsage() left, uses exactly that and builds the same value |
| DeepCopy.CopyDocument | main/lib/ArduinoJson-v6.10.0.h:3459-3476 | a copy into a fresh pool succeeds if and only if the capacity is at least memoryUsage(), and denotes the same value |
| DeepCopy.CopyAndCompare | main/lib/ArduinoJson-v6.10.0.h:3477-3498 | the copy equals the original if and only if it holds no NaN and members repeating a key equal the first; with distinct keys, if and only if it holds no NaN |
| DocumentCompare.EqualItself | main/lib/ArduinoJson-v6.10.0.h:1268-1293 | with distinct keys a value equals itself if and only if it holds no NaN |
| DocumentEquality.EqualIsSame | main/lib/ArduinoJson-v6.10.0.h:1268-1293 | values without floats and objects are equal if and only if they are the same value, string ownership included |
| DocumentEquality.FloatsAre | main/lib/ArduinoJson-v6.10.0.h:1268-1293 | two floats are equal if and only if neither is a NaN and they have the same bits or are both zeros |
| DocumentEquality.EqualIsMatching | main/lib/ArduinoJson-v6.10.0.h:3477-3498 | with distinct keys on the right, equality is: arrays element by element, objects of the same size whose members match by key text |
| DocumentEquality.OneToOne | main/lib/ArduinoJson-v6.10.0.h:3477-3486 | and the members of equal objects match one to one |
| DocumentEquality.EqualIsSymmetric | main/lib/ArduinoJson-v6.10.0.h:3477-3498 | with distinct keys on both sides equality is symmetric |
| DocumentCompare.EqualItselfExactly | main/lib/ArduinoJson-v6.10.0.h:1268-1293 | any value equals itself if and only if it holds no NaN and members repeating a key equal the first |
| DocumentCompare.DuplicateKeysDiffer | main/lib/ArduinoJson-v6.10.0.h:3477-3486 | an object with a duplicate key that does not equal itself |
| I2cPlan.DataIsExact | components/arduino-esp32/cores/esp32/esp32-hal-i2c.c:557-581 | data comes in blocks of 255 bytes and one last block of 1 to 255; a read ends in one more block of a single byte, the only unacknowledged one; writes check the acknowledge |
| I2cPlan.BlocksAreData | components/arduino-esp32/cores/esp32/esp32-hal-i2c.c:557-581 | there is no other such division of the length |
| I2cPlan.PlanIsExact | components/arduino-esp32/cores/esp32/esp32-hal-i2c.c:518-592 | a transaction is START, the address write with the acknowledge checked, its data blocks, and STOP if it asks for one |
| I2cPlan.PendingIsShaped | components/arduino-esp32/cores/esp32/esp32-hal-i2c.c:518-592 | in the stream owed a transfer follows every START and a START every STOP, nothing is filler |
| I2cPlan.DoubledMeaning | components/arduino-esp32/cores/esp32/esp32-hal-i2c.c:594-618 | repeating a transfer with no bytes does not change the stream |
| I2cPlan.NoStartBeforeEnd | components/arduino-esp32/cores/esp32/esp32-hal-i2c.c:522-554 | in a well-formed window START is never in slot 14 |
| I2cQueue.I2c.AddQueue | components/arduino-esp32/cores/esp32/esp32-hal-i2c.c:1019-1075 | the stream owed grows at its end by exactly the commands of the new transaction; two address bytes for the ten-bit range |
| I2cQueue.I2c.IssueHead | components/arduino-esp32/cores/esp32/esp32-hal-i2c.c:519-536 | START and address go out together, unless START would land in slot 14 |
| I2cQueue.I2c.IssueData | components/arduino-esp32/cores/esp32/esp32-hal-i2c.c:556-592 | the next data, NAK read and STOP owed go out in order as far as slot 14; room left means the entry is complete |
| I2cQueue.I2c.Stretch | components/arduino-esp32/cores/esp32/esp32-hal-i2c.c:594-618 | the commands move down behind a zero-byte copy of some transfer, nothing else changes |
| I2cQueue.StretchIsSafe | components/arduino-esp32/cores/esp32/esp32-hal-i2c.c:594-628 | there is a transfer to stretch, so the failure branch is never reached, and any choice leaves a well-formed window with the same meaning |
| I2cQueue.I2c.FillCmdQueue | components/arduino-esp32/cores/esp32/esp32-hal-i2c.c:494-650 | a well-formed window that, fillers erased, is exactly the next part of the stream; END in slot 15 unless every entry is finished, and then STOP at the end if the last one asks for it; progress unless nothing was owed |
| I2cQueue.I2c.RunQueue | components/arduino-esp32/cores/esp32/esp32-hal-i2c.c:494-650 | for any queue repeated calls terminate, wherever the handler moves queuePos up to the first unfinished entry, and the windows together carry exactly the commands of the queued transactions |
| EspImage.AlignmentDataNeeded | components/arduino-esp32/tools/esptool.py:1641-1657 | zero exactly when the position is right or the gap is one header wide with address below 16 in its page; otherwise padding of that length makes it right |
| EspImage.Overhang | components/arduino-esp32/tools/esptool.py:1725-1733 | with these zeros the segment ends at least 0x24 into its last page |
| EspImage.SecurePadLands | components/arduino-esp32/tools/esptool.py:1684-1705 | for every position the secure padding leaves 16 bytes for the checksum and the signed image ends on a page, so the closing assertion holds |
| EspImage.CutMeans | components/arduino-esp32/tools/esptool.py:1256-1266 | pieces of a cut fall into one address-contiguous run per segment, joining up to its data |
| EspImageSave.SharedOut | components/arduino-esp32/tools/esptool.py:1602-1626 | flash and RAM lists are in address order and share out the segments, each by whether its address is in 0x3F400000 to 0x3F7FFFFF or 0x400D0000 to 0x403FFFFF |
| EspImageSave.CollisionExactly | components/arduino-esp32/tools/esptool.py:1628-1639 | the check of neighbours fires if and only if two of the given segments lie in one flash page |
| EspImageSave.NeighboursSuffice | components/arduino-esp32/tools/esptool.py:1628-1639 | comparing neighbours finds every two flash segments in one page |
| EspImageSave.SplitImage | components/arduino-esp32/tools/esptool.py:1256-1266 | head and rest partition the data, and the load address of the rest moves by the length asked for even when there is less |
| EspImageSave.SaveSegment | components/arduino-esp32/tools/esptool.py:1348-1354 | appends header and data and updates the checksum, or refuses numbers that do not fit |
| EspImageSave.SaveRamPiece | components/arduino-esp32/tools/esptool.py:1663-1671 | padding with RAM data keeps the account of segments and strictly uses up RAM |
| EspImageSave.SaveFlashSegment | components/arduino-esp32/tools/esptool.py:1725-1733 | the segment at its place, extended by zeros only |
| EspImageSave.LayOut | components/arduino-esp32/tools/esptool.py:1659-1677 | terminates; all flash segments placed on their pages, RAM cut without loss, at most 2 flash + ram pieces; stops at the assertion only when one header fits |
| EspImageSave.Save | components/arduino-esp32/tools/esptool.py:1613-1723 | what is saved holds every given segment, told from the bytes of the file and the addresses (`FileHolds`: the two next rows, for some order of the segments); SamePage exactly when two of them lie in one flash page; the alignment assertion fails exactly on the segments that `Fails` describes; other failures only for stated causes |
| EspImageContents.LayoutHolds | components/arduino-esp32/tools/esptool.py:1659-1681 | in a good layout every segment at a flash address stands unsplit, its data at an offset congruent to its address modulo 65536, followed by at most 0x24 zeros and ending at least 0x24 into its last page; every other segment is an address-contiguous run of pieces in file order; no piece serves two, and the rest are zeros at address 0 |
| EspImageContents.ImageShows | components/arduino-esp32/tools/esptool.py:1348-1380 | the bytes of the file: magic, count and settings, drive strengths two to a byte, address and length of each segment low byte first, its data, zeros up to a checksum byte whose every bit is that of 0xEF flipped once per data byte that has it, and the digest of all before |
| EspImageLayout.ClashNeverLaid | components/arduino-esp32/tools/esptool.py:1641-1677 | two neighbouring flash segments whose gap is one header wide cannot be laid out, whatever RAM there is; within the 32-bit address space it is the assertion that fails |
| EspImageLayout.AssertionFailsExactly | components/arduino-esp32/tools/esptool.py:1641-1677 | for all flash and RAM segments: the assertion fails if and only if, computed from addresses and lengths, the RAM in front of some flash segment runs out one header short |
| EspImageLayout.FailsInMemory | components/arduino-esp32/tools/esptool.py:1659-1677 | within the 32-bit address space that condition is just about the RAM in front of each flash segment, taken in turn |
| EspImageLayout.WithoutRam | components/arduino-esp32/tools/esptool.py:1641-1677 | without RAM segments the assertion fails if and only if two neighbouring flash segments clash |
| EspImageLayout.AssertionCanFail | components/arduino-esp32/tools/esptool.py:1672-1674 | a concrete legal pair of flash sections for which it fails with any RAM |
| EspImageLayout.RamCanFail | components/arduino-esp32/tools/esptool.py:1663-1674 | a single flash section and a RAM section for which it fails, though nothing clashes |
| EspImageLoad.LoadSegments | components/arduino-esp32/tools/esptool.py:1311-1321 | the loading loop reads the segments of the format, or its error |
| EspImageLoad.CalculateChecksum | components/arduino-esp32/tools/esptool.py:1363-1371 | exclusive or of the magic and all segment data |
| EspImageLoad.Load | components/arduino-esp32/tools/esptool.py:1582-1600 | every field, the checksum and both digests are those of the format, errors in the order of the reads |
| EspImageReading.OpensExactly | components/arduino-esp32/tools/esptool.py:1582-1600 | a file is opened if and only if it has the magic, a digest field of 0 or 1, the segments it announces with headers low byte first, at most 16, and a checksum byte |
| EspImageReading.ContainedIsOpened | components/arduino-esp32/tools/esptool.py:1295-1600 | what it is opened as: the segments, zero-padded to words where they have an address, every setting from its byte, checksum and digests; more than 16 segments are refused |
| EspImageLoad.LoadSaved | components/arduino-esp32/tools/esptool.py:1582-1600 | an image of word-sized pieces loads as those pieces with right checksum and digest, or is refused beyond 16 |
| EspImageLoad.SaveThenLoad | components/arduino-esp32/tools/esptool.py:1582-1723 | for word-aligned segments: what save writes, load reads back, settings included; stored checksum and digest are those calculated |
| EspImageChecksum.ChecksumIgnoresLayout | components/arduino-esp32/tools/esptool.py:1363-1371 | the checksum of any good layout is calculate_checksum() of the segments as given, in their own order |
| Slip.TwoReplacesEscape | components/arduino-esp32/tools/esptool.py:280-285 | the two chained replacements are the per-byte escape of RFC 1055 |
| Slip.FrameShows | components/arduino-esp32/tools/esptool.py:280-285 | in a frame 0xC0 stands at both ends, and between them each byte as itself, 0xC0 as DB DC and 0xDB as DB DD, in order |
| Slip.Reader.Feed | components/arduino-esp32/tools/esptool.py:1862-1907 | a chunk has the effect of its bytes one by one; an empty one is a timeout naming what was awaited |
| Slip.Consumed | components/arduino-esp32/tools/esptool.py:1883-1907 | until an error, the bytes read are exactly the frames of the packets yielded and the start of one more |
| Slip.ReadsExactly | components/arduino-esp32/tools/esptool.py:1862-1907 | the reader yields these packets and nothing else if and only if the input is their frames |
| Slip.UnfinishedExactly | components/arduino-esp32/tools/esptool.py:1862-1907 | the reader is inside a packet if and only if the input is frames and the start of one more with these bytes |
| Slip.BadHeadExactly | components/arduino-esp32/tools/esptool.py:1883-1890 | it stops at a bad head if and only if the input is frames and a byte other than 0xC0, whatever follows |
| Slip.BadEscapeExactly | components/arduino-esp32/tools/esptool.py:1891-1901 | it stops at a bad escape if and only if the input is frames, the start of one more up to 0xDB, and a byte other than 0xDC and 0xDD |
| Slip.Receive | components/arduino-esp32/tools/esptool.py:1862-1907 | the same for any division into non-empty chunks: exactly which input gives the packets, which a bad head and which a bad escape |
| StableSort.SortedIsSorted | components/arduino-esp32/tools/gen_esp32part.py:188-194 | the sort gives a permutation in key order |
| StableSort.SortedIsStable | components/arduino-esp32/tools/gen_esp32part.py:188-194 | elements with the same key keep their order |
| Partitions.FromCsv | components/arduino-esp32/tools/gen_esp32part.py:108-127 | every row at its own offset or at the least aligned one behind the row before; stops at the first row that lies before it |
| Partitions.PlacedExactly | components/arduino-esp32/tools/gen_esp32part.py:108-127 | placing is: the row's own offset if it has one, not before the end of the one before; otherwise the next multiple of 0x10000 for an application and of 4 for anything else; the first follows the 0x1000 bytes of the table; a negative size gives the end |
| Partitions.Verify | components/arduino-esp32/tools/gen_esp32part.py:170-194 | accepts exactly the tables that pass all checks (next row); otherwise names a violated one, the first misaligned row where that is the reason |
| Partitions.PassesExactly | components/arduino-esp32/tools/gen_esp32part.py:170-194 | a table that passes is on its boundaries (0x10000 or 4, sizes too when secured), has different names, lies behind the partition table and has no overlap; with positive sizes every such table passes |
| Partitions.NeighboursDecide | components/arduino-esp32/tools/gen_esp32part.py:187-194 | passing the neighbour check means pairwise disjoint, and with positive sizes the converse |
| Partitions.PlacementIsSound | components/arduino-esp32/tools/gen_esp32part.py:108-127 | without negative resolved sizes a placed table is in order and passes the overlap and table-end checks |
| Partitions.NegativeSize | components/arduino-esp32/tools/gen_esp32part.py:118-125 | the start of a placed row is computed from the row and the end before it, and the size is negative exactly when the row asks for an end before that start |
| Partitions.NoNegativeSize | components/arduino-esp32/tools/gen_esp32part.py:108-127 | no placed size is negative exactly when no row asks for an end before its start |
| Partitions.NegativeSizeOverlaps | components/arduino-esp32/tools/gen_esp32part.py:108-127 | a negative resolved size can let a later row be placed over an earlier one |
| PartitionBytes.EntryShows | components/arduino-esp32/tools/gen_esp32part.py:384-391 | the 32 bytes of an entry: AA 50, type, subtype, offset and size low byte first, 16 bytes of name cut or filled with NUL, and bit 0 of the flags for encryption |
| PartitionBinary.ReadWritten | components/arduino-esp32/tools/gen_esp32part.py:362-391 | an entry read back is the entry, its name as far as the field keeps it |
| PartitionBinary.NameSurvives | components/arduino-esp32/tools/gen_esp32part.py:362-370 | a name survives if and only if it has at most 16 bytes and no NUL |
| PartitionBytes.ToBinaryShows | components/arduino-esp32/tools/gen_esp32part.py:226-233 | an accepted table takes 3072 bytes: its entries, with MD5 the row EB EB, 14 times FF and the digest of the bytes before it, and FF to the end |
| PartitionBytes.DecodesExactly | components/arduino-esp32/tools/gen_esp32part.py:206-224 | a file is read as a table if and only if its rows are entries meaning the partitions, with right digests of the entries so far among them, up to an erased row; told byte by byte for any file |
| PartitionBytes.EntryIsRead | components/arduino-esp32/tools/gen_esp32part.py:362-382 | an entry from any 32 bytes: numbers low byte first, the name up to its first NUL, and only bit 0 of the flags |
| PartitionBytes.Refusals | components/arduino-esp32/tools/gen_esp32part.py:206-224 | what refuses a file is the first row that is none of these: a wrong digest, an unknown row, an incomplete row, or no erased row before the end |
| PartitionBinary.FromBinary | components/arduino-esp32/tools/gen_esp32part.py:206-224 | the loop with its running hash decodes as specified, for every input |
| PartitionBinary.RoundTrip | components/arduino-esp32/tools/gen_esp32part.py:206-233 | to_binary accepts exactly tables in range with at most 94 rows (95 without MD5), and from_binary returns them, the running hash matching |
| PartitionBinary.RoundTripExactly | components/arduino-esp32/tools/gen_esp32part.py:206-233 | the table itself comes back, flags included, if and only if every name fits |
| SpiClock.RegisterRoundTrip | components/arduino-esp32/cores/esp32/esp32-hal-spi.c:1024-1042 | divider and pre-divider are read back from a register built from them |
| SpiClock.FieldsDecide | components/arduino-esp32/cores/esp32/esp32-hal-spi.c:1024-1042 | of the five fields only divider and pre-divider decide the frequency, apb / ((pre + 1) * (n + 1)) |
| SpiClock.ProbesSuffice | components/arduino-esp32/cores/esp32/esp32-hal-spi.c:1071-1080 | whatever any of the 8192 pre-dividers reaches without passing the frequency, one of the four probes reaches |
| SpiClock.Search | components/arduino-esp32/cores/esp32/esp32-hal-spi.c:1063-1090 | the inner loop accounts for its four probes, stopping early only on an exact match, and keeps the first divider that comes closest |
| SpiClock.FrequencyToClockDiv | components/arduino-esp32/cores/esp32/esp32-hal-spi.c:1044-1097 | the register found gives the highest frequency not above the one asked for over all dividers 1 to 63 and pre-dividers 0 to 8191, no smaller divider gives it, the high phase is half the period rounded up and the other fields are zero; the two special cases |
| UnbiasedRandom.ThresholdOf | components/arduino-esp32/cores/esp32/WMath.cpp:44-49 | the subtractions and division give 2^32 modulo howbig |
| UnbiasedRandom.Random | components/arduino-esp32/cores/esp32/WMath.cpp:38-57 | the first draw whose low word reaches the threshold decides, all before it were rejected, and the result is how often 2^32 goes into its product with howbig |
| UnbiasedRandom.AcceptedRun | components/arduino-esp32/cores/esp32/WMath.cpp:38-57 | the accepted draws of a result are a run of consecutive numbers |
| UnbiasedRandom.Unbiased | components/arduino-esp32/cores/esp32/WMath.cpp:38-57 | every result below howbig comes from exactly 2^32 / howbig accepted draws |
| UnbiasedRandom.RandomBetween | components/arduino-esp32/cores/esp32/WMath.cpp:59-66 | the lower end of an empty range, without a draw; otherwise the first acceptable draw decides, all before it were rejected, and the value lies in the range |
| CircularBuffer.Cbuf.Available | components/arduino-esp32/cores/esp32/cbuf.cpp:72-78 | the number of bytes held |
| CircularBuffer.Cbuf.RoomLeft | components/arduino-esp32/cores/esp32/cbuf.cpp:85-91 | available() + room() is always size - 1 |
| CircularBuffer.Cbuf.Full | components/arduino-esp32/cores/esp32/cbuf.h:46-49 | full exactly when there is no room |
| CircularBuffer.Cbuf.Read | components/arduino-esp32/cores/esp32/cbuf.cpp:119-128 | returns and removes the oldest byte, or -1 |
| CircularBuffer.Cbuf.Write | components/arduino-esp32/cores/esp32/cbuf.cpp:147-156 | appends the byte, or nothing when full |
| CircularBuffer.Cbuf.PeekBytes | components/arduino-esp32/cores/esp32/cbuf.cpp:102-117 | copies the oldest bytes, the rest of the destination and the buffer unchanged |
| CircularBuffer.Cbuf.ReadBytes | components/arduino-esp32/cores/esp32/cbuf.cpp:130-145 | copies the oldest bytes out and removes exactly them |
| CircularBuffer.Cbuf.WriteBytes | components/arduino-esp32/cores/esp32/cbuf.cpp:158-173 | appends as many bytes as there is room for |
| CircularBuffer.Cbuf.Remove | components/arduino-esp32/cores/esp32/cbuf.cpp:181-196 | drops the oldest bytes and returns how many are left |
| CircularBuffer.Cbuf.Resize | components/arduino-esp32/cores/esp32/cbuf.cpp:38-70 | refuses when n + 1 is below the bytes held; otherwise keeps the contents; the result is well formed if and only if n + 1 is not the bytes held |
| CircularBuffer.Cbuf.ResizeAdd | components/arduino-esp32/cores/esp32/cbuf.cpp:33-36 | contents kept, size up by one more than asked |
| CircularBuffer.WriteAllIsEach | components/arduino-esp32/cores/esp32/cbuf.cpp:158-173 | a bulk write equals single writes |
| CircularBuffer.ReadAllIsEach | components/arduino-esp32/cores/esp32/cbuf.cpp:130-145 | a bulk read equals single reads |
| CircularBuffer.Cbuf.Perform | components/arduino-esp32/cores/esp32/cbuf.cpp:33-196 | every operation does to the ring what it does to the abstract queue, and returns the same |
| CircularBuffer.Cbuf.Run | components/arduino-esp32/cores/esp32/cbuf.cpp:33-196 | over every run of operations the ring behaves as the queue |

## Left out

- Decimal floating point: fractions, exponents, integers beyond 32 bits, and printing floats; conversions are parameters, floats travel as 32-bit patterns.
- Raw (`serialized`) JSON values, `\u` decoding, and object keys that are null other than the keyless slot of a failed parse.
- The Arduino `String` and stream writers; output goes to a fixed buffer of at least one byte.
- Removing members, index access, and the other editing calls of JsonDocument.
- JsonApi.DeserializeJson: pool capacities are at most 32768 slots, because a relative link holds 16 bits; slots are kept as a sequence beside the string bytes, 16 bytes of capacity each.
- MsgPackGrammar.Decode: a string with an embedded NUL denotes its part before it, as the library's C strings do, so its pool use is a bound and not an equality.
- MsgPackDeserializer.Deserializer.Parse: the input has a known end.
- I2C entries with `dataOnly` set, the ten-bit read sequence, interrupts, FIFO filling and every register but the command list.
- I2cQueue.I2c.RunQueue: without STOP in the last transaction the last window may end in neither STOP nor END, or hold nothing; what the hardware makes of that is not modelled.
- The digest patch of an ELF file into an image, ESP8266 images, and everything in esptool that talks to a chip.
- CSV text: variables, keywords and messages; rows come parsed. Warnings about odd names are not modelled, and names are bytes.
- UnbiasedRandom.Random: howbig is not negative, and draws come from a finite list, so running out of draws is an outcome.
- UnbiasedRandom.RandomBetween: the width of the range is below 2^31, where the subtraction in the code does not overflow.
- SpiClock.FrequencyToClockDiv: the bus clock is at least 524288 Hz and below 2^31, where no division by zero and no sign change can occur.
- Allocation failure in cbuf and in the I2C queue, and the destructor.
- WString, Timer, the application code in `main/src`, and the other peripheral drivers: easy members or plumbing.
