# Models of the message server, the multipart codec, the state machines and the base library

This project models five parts of the repository and proves what they are for.

1. **The packet codec** (`Wrappers`, `Bytes`, `Varint`, `Utf8`, `Wire`, `Packet`, `PacketLaws`, `EnvelopeLaws`,
   `PacketMessages`, `FieldBytes`). The generated Protocol Buffers code for `Heartbeat`, `Itemlist`, `Location`,
   `File`, `FileTransferStatus` and the `Message` envelope with its oneof, and the runtime's readers and writers
   under it. `Packet` says on values what parsing, serialising and merging mean; `PacketMessages` holds the
   classes whose methods do it step by step and are proved against `Packet`; the laws are proved about `Packet`,
   and `FieldBytes` says what its bytes are, tag by tag.
   The wire format is that of the Protocol Buffers Encoding guide, sections "Base 128 Varints", "More Integer
   Types", "Length-Delimited Records" and "Last One Wins".
2. **The file transfer** (`Framing`, `FileTransfer`, `TransferLaws`, `MapServer`, `ServerLaws`, `DownloadLaws`).
   Splitting into packets of 1200 bytes, the eight-byte header, cutting the stream by the length field,
   collecting packets and writing the file, and the message handler with the exceptions it lets through. Its
   main theorems are `ServerLaws.UploadEndToEnd`, `ServerLaws.UploadOutcome` and
   `DownloadLaws.DownloadEndToEnd`.
3. **Multipart messages** (`MultipartCodec`, `Multipart`). The ZeroMQ multipart encoding of
   rfc.zeromq.org/spec/50 and sending and receiving over a queue of frames.
4. **State machines** (`Calculator`, `CalculatorLaws`, `Elevators`). The calculator under hfsm2 and the
   elevator with its motor under TinyFSM.
5. **libhv base** (`Url`, `UrlLaws`, `GrowableArray`). The URL splitter and the growable array.

Every specification function the laws pass through on both sides is tied down once more without it: tags, byte
order, packet numbers, flags, positions and key presses appear as literal values (`FieldBytes`,
`Framing.HeaderBytes`, `TransferLaws.PacketsAre`, `TransferLaws.StepRule`, `DownloadLaws.RequestedAre`,
`Elevators.Reactions`, `GrowableArray.FromTheEnd` and others in the table).

Objects that the source updates in place are classes with the same fields; loops are loops. A method's
contract ties the new state to a specification function of the old one, and the laws are about that function.
`dafny verify dfyconfig.toml` checks everything.

## What the proofs found

- Re-serialising is a normal form only if the payload still fits: a five-byte varint of 2^31 in an `int32`
  field is written back as ten bytes (`EnvelopeLaws.GrowthExample`), so a payload within ten bytes of the
  parser's size limit can grow past it (`EnvelopeLaws.NormalFormFails`).
  `EnvelopeLaws.ReserialisingIsNormalForm` gives the exact condition, and `EnvelopeLaws.NormalFormOfShortInput`
  shows it holds for every input shorter than that.
- An upload is written, once and whole, exactly if every packet fits the 2 MB package limit and both names are
  UTF-8; otherwise nothing is written (`ServerLaws.UploadOutcome`). A packet over the limit drops the connection
  (`ServerLaws.DroppedExample`). A name that is not UTF-8 stops the parser, whose verdict the handler ignores: it
  goes on with a packet total of zero and throws when it converts the path to wide characters
  (`ServerLaws.BadNameExample`). Nothing in hxMapServer.cpp catches it.
- A download request that stopped at a bad last name is dispatched all the same and throws before the first
  reply (`DownloadLaws.BadLastItem`). One that parses never throws; its files arrive up to the first packet over
  the limit (`DownloadLaws.DownloadEndToEnd`).
- The receiver keys uploads by file name without the map name. Two interleaved uploads of one file name can
  leave neither of them written (`TransferLaws.SameNameCollides`); one after the other they are both written
  whole (`TransferLaws.OneAfterTheOther`), and so are any with distinct names (`TransferLaws.InterleavedUploads`),
  if the names are UTF-8.
- `multipart_t::send` takes a part off the object before offering it to the socket, so a refused first part is
  lost (`Multipart.MultipartMessage.Send`).
- A bounded receive that throws leaves the other parts of the message pending, where the next receive takes
  them for a message of their own; a bound of zero throws before anything is read.
- In hfsm2 (FSM/HFSM2_demo/include/hfsm2/machine.hpp:11751-11780, 12494-12527) changing to the active
  composite re-enters it and returns it to its first child, which is a plain re-enter if that child was
  active. `On::react(Clear)` relies on it.
- The URL grammar at Net/modules/libhv-1.3.2/base/hbase.h:119 is read both more narrowly and more widely than
  RFC 3986, section 3: "://" is taken anywhere in the string, a query needs a path before it and a fragment a
  query, and a port that is not digits is summed up all the same. `UrlLaws.WellFormed` is the exact grammar.
- A URL port of digits from 65536 on wraps (`UrlLaws.PortIsItsValue`).

## Model

| member | source | states |
|---|---|---|
| Bytes.BigEndianIsPositional | zmqDemo/modules/cppzmq-4.10.0/zmq_addon.hpp:90-102 | four bytes are the digits of the number to the base 256, most significant first |
| Bytes.BigEndianOrder | zmqDemo/modules/cppzmq-4.10.0/zmq_addon.hpp:90-102 | of two numbers the one whose first differing byte is less is the less |
| Utf8.TextIsValid | mapUdpServer/modules/protobuf/src/google/protobuf/stubs/structurally_valid.cc:557-564 | every sequence of Unicode scalar values, encoded, is valid |
| Utf8.ValidIsText | mapUdpServer/modules/protobuf/src/google/protobuf/stubs/structurally_valid.cc:557-564 | every valid string is the encoding of some sequence of Unicode scalar values, so no surrogate, overlong form or broken character is |
| Varint.ScanEncode | mapUdpServer/modules/protobuf/src/google/protobuf/parse_context.h:538-552 | a varint followed by anything reads back as its value and its own length |
| Varint.ScanIsLonger | mapUdpServer/modules/protobuf/src/google/protobuf/parse_context.cc:308-338 | whatever varint is read, the minimal encoding of its value is no longer than what was read |
| Varint.ScanExtend | mapUdpServer/modules/protobuf/src/google/protobuf/parse_context.cc:308-338 | a varint that reads in some bytes reads the same with more bytes behind it |
| Varint.EncodeIsBase128 | mapUdpServer/modules/protobuf/src/google/protobuf/parse_context.cc:288-295 | byte i of a varint holds the seven bits of place i, and the continuation bit unless it is the last |
| Varint.VarintExamples | mapUdpServer/modules/protobuf/src/google/protobuf/parse_context.cc:288-295 | 1 is 01 and 150 is 96 01; every negative int32 is written as its 64-bit two's complement in ten bytes |
| Varint.ScanIsSum | mapUdpServer/modules/protobuf/src/google/protobuf/parse_context.cc:308-338 | a varint in any form is the sum of its bytes' low seven bits, scaled by place; there is none if no byte within the limit ends it |
| Varint.SizeRule | mapUdpServer/modules/protobuf/src/google/protobuf/parse_context.cc:351-369 | a length in any form of up to five bytes is its sum, refused above INT_MAX - 16 |
| Varint.ReadTag | mapUdpServer/modules/protobuf/src/google/protobuf/parse_context.h:561-577 | the wrapping two-byte fast path and the fallback read the reduced sum of the first five bytes, or fail exactly if none of them ends the varint |
| Varint.ReadTagFallback | mapUdpServer/modules/protobuf/src/google/protobuf/parse_context.cc:340-349 | the loop completes the started wrapping sum to the tag value, or fails |
| Varint.VarintParseSlow32 | mapUdpServer/modules/protobuf/src/google/protobuf/parse_context.cc:308-325 | ten bytes are accepted, and the result is the value reduced to 32 bits although the sum runs with wrap-around |
| Varint.VarintParseSlow64 | mapUdpServer/modules/protobuf/src/google/protobuf/parse_context.cc:327-338 | the same at 64 bits |
| Varint.ReadVarint32 | mapUdpServer/modules/protobuf/src/google/protobuf/parse_context.h:728-732 | reads a varint and keeps its low 32 bits; fails exactly if no byte of ten ends it |
| Varint.ReadVarint64 | mapUdpServer/modules/protobuf/src/google/protobuf/parse_context.h:722-726 | reads a varint and keeps its low 64 bits |
| Varint.ReadSizeFallback | mapUdpServer/modules/protobuf/src/google/protobuf/parse_context.cc:351-369 | a length of up to five bytes is its value; refused exactly from INT_MAX - 15 on or if no fifth byte below 8 ends it |
| Varint.ReadSize | mapUdpServer/modules/protobuf/src/google/protobuf/parse_context.h:705-715 | a length prefix is its value, or refused |
| Varint.WriteVarint | mapUdpServer/modules/protobuf/src/google/protobuf/parse_context.cc:288-295 | appends the minimal varint of the value |
| Varint.VarintSizeIsLength | mapUdpServer/modules/protobuf/src/google/protobuf/io/coded_stream.h:1728-1762 | the size formula (9 log2 + 73) / 64 is the length of the minimal varint for every 64-bit value |
| Wire.NextOfEncoded | mapUdpServer/modules/protobuf/src/google/protobuf/parse_context.h:882-925 | an encoded record followed by anything reads back as itself |
| Wire.NextIsCanonical | mapUdpServer/modules/protobuf/src/google/protobuf/parse_context.h:882-925 | re-encoding a record that was read is never longer, and reads as the same record |
| Wire.NextExtends | mapUdpServer/modules/protobuf/src/google/protobuf/parse_context.h:882-925 | a record that reads in some bytes reads the same with more bytes behind it |
| Wire.RecordsOfEncoded | mapUdpServer/modules/protobuf/src/google/protobuf/parse_context.h:928-943 | an encoded list of records reads back as the list |
| Wire.RecordsAreCanonical | mapUdpServer/modules/protobuf/src/google/protobuf/parse_context.h:928-943 | re-encoding all records of an accepted input gives an accepted input of the same records |
| Wire.RecordsOfConcat | mapUdpServer/modules/protobuf/src/google/protobuf/parse_context.h:928-943 | the records of a concatenation are the records of both pieces, if the first is accepted |
| Wire.InlineGreedyStringParser | mapUdpServer/modules/protobuf/src/google/protobuf/parse_context.cc:391-396 | a length-delimited string is exactly the declared bytes, refused if they are not there |
| Wire.UnknownFieldParse | mapUdpServer/modules/protobuf/src/google/protobuf/parse_context.cc:538-542 | an unknown field is appended to the kept bytes in re-encoded form; unreadable ones fail |
| PacketLaws.AbsorbFields | mapUdpServer/protoMessage/header.pb.cc:981-1125 | absorbing the fields a body writes, in order, is merging the body in |
| PacketLaws.ParseOfSerialize | mapUdpServer/protoMessage/header.pb.cc:981-1125 | parsing the serialisation of b into any x of the same kind gives the merge of x and b |
| PacketLaws.RoundTrip | mapUdpServer/protoMessage/header.pb.cc:253-1432 | parse undoes serialise for every body with valid text, negative and zero numbers included |
| PacketLaws.ParseKeeps | mapUdpServer/protoMessage/header.pb.cc:1043-1056 | whatever is parsed leaves text valid and the kept unknown bytes readable and truly unknown |
| PacketLaws.MergeKeeps | mapUdpServer/protoMessage/header.pb.cc:1187-1213 | merging keeps the same two invariants |
| PacketLaws.UnknownAppend | mapUdpServer/protoMessage/header.pb.cc:1043-1056 | an unknown record appended to the kept bytes leaves them readable and unknown |
| EnvelopeLaws.ParseMessageOfSerialize | mapUdpServer/protoMessage/header.pb.cc:1767-1899 | parsing the serialisation of b into any x is x merged with b, through the nested payload and oneof switches |
| EnvelopeLaws.RoundTripMessage | mapUdpServer/protoMessage/header.pb.cc:1767-1899 | parse undoes serialise for every envelope, with an empty payload and with none |
| EnvelopeLaws.ParseMessageConcat | mapUdpServer/protoMessage/header.pb.cc:1767-1843 | parsing a concatenation is parsing the pieces one after the other |
| EnvelopeLaws.ConcatenationIsMerge | mapUdpServer/protoMessage/header.pb.cc:1969-2010 | parsing the concatenation of two serialisations is the merge of the two messages |
| EnvelopeLaws.ParseMessageKeeps | mapUdpServer/protoMessage/header.pb.cc:1767-1843 | every parsed envelope has valid text and readable, truly unknown kept bytes |
| EnvelopeLaws.ReserialisingIsNormalForm | mapUdpServer/protoMessage/header.pb.cc:1767-1899 | for every accepted input parse(serialise(parse)) is parse, if and only if the whole re-serialises within INT_MAX bytes and the payload within the size the parser accepts; otherwise there is no second parse |
| EnvelopeLaws.NormalFormFails | mapUdpServer/protoMessage/header.pb.cc:1767-1899 | an accepted input whose serialisation is refused |
| EnvelopeLaws.NormalFormOfShortInput | mapUdpServer/protoMessage/header.pb.cc:1767-1899 | the condition holds for every accepted input of up to eleven bytes less than the size limit |
| EnvelopeLaws.ReserialisedSize | mapUdpServer/protoMessage/header.pb.cc:1845-1899 | re-serialised, the nested payload is at most ten bytes longer than the input and the whole envelope at most twenty-seven |
| EnvelopeLaws.UnknownsKeptInOrder | mapUdpServer/protoMessage/header.pb.cc:1825-1836 | the kept bytes of a parsed envelope are its unknown records, re-encoded, in arrival order |
| EnvelopeLaws.GrowthExample | mapUdpServer/protoMessage/header.pb.cc:1013-1019 | an accepted input whose payload re-serialises five bytes longer than it was |
| FieldBytes.BodyBytes | mapUdpServer/protoMessage/header.pb.cc:292-1432 | each body byte by byte: tags 10; 10 per item; 9, 17, 25; 10, 18, 26, 32, 40, 50; 8, 16, 26, with nothing written for a default value, and the unknown bytes behind |
| FieldBytes.EnvelopeIs | mapUdpServer/protoMessage/header.pb.cc:1845-1899 | the envelope byte by byte: tag 8 and the type unless it is zero, then 18, 26, 34, 42 or 50, the length and the body for heartbeat, item list, location, file and transfer status |
| FieldBytes.DelimitedRead | mapUdpServer/modules/protobuf/src/google/protobuf/parse_context.h:882-925 | a one-byte tag of wire type 2 takes exactly the declared bytes, and is refused above INT_MAX - 16 or if they are not there |
| FieldBytes.NumberRead | mapUdpServer/modules/protobuf/src/google/protobuf/parse_context.h:882-925 | a one-byte tag of wire type 0 takes a varint of up to ten bytes in any form, modulo 2^64 |
| FieldBytes.FixedRead | mapUdpServer/modules/protobuf/src/google/protobuf/parse_context.h:882-925 | wire types 1 and 5 take eight and four bytes |
| FieldBytes.NoRecord | mapUdpServer/modules/protobuf/src/google/protobuf/parse_context.h:882-925 | field number zero, end-group tags and wire types 6 and 7 begin no record |
| FieldBytes.TextsRead | mapUdpServer/protoMessage/header.pb.cc:253-1396 | tag 10 replaces the node's id of a heartbeat, tag 10 adds an item, tag 26 replaces a transfer's file name; text that is not UTF-8 is stored and stops the parse |
| FieldBytes.FileTextsRead | mapUdpServer/protoMessage/header.pb.cc:987-1041 | tags 10, 18 and 50 replace map name, file name and checksum of a file packet, checked to be UTF-8; 26 replaces its content, unchecked |
| FieldBytes.FileNumbersRead | mapUdpServer/protoMessage/header.pb.cc:1019-1034 | tags 32 and 40 replace number and total by the low 32 bits of any varint |
| FieldBytes.StatusNumbersRead | mapUdpServer/protoMessage/header.pb.cc:1349-1364 | tags 8 and 16 replace index and total of a transfer status likewise |
| FieldBytes.RealsRead | mapUdpServer/protoMessage/header.pb.cc:652-675 | tags 9, 17 and 25 replace x, y and yaw by the next eight bytes |
| FieldBytes.OthersKept | mapUdpServer/protoMessage/header.pb.cc:1043-1056 | a record behind any other tag goes to the unknown bytes as it would be written, and changes nothing else |
| FieldBytes.TypeRead | mapUdpServer/protoMessage/header.pb.cc:1773-1780 | tag 8 sets the type to the low 32 bits of any varint |
| FieldBytes.PayloadsRead | mapUdpServer/protoMessage/header.pb.cc:1781-1820 | tags 18, 26, 34, 42 and 50 bring a heartbeat, an item list, a location, a file and a transfer status, parsed into the payload held if it is of that kind and into a fresh one in its place if not |
| FieldBytes.OthersKeptInMessage | mapUdpServer/protoMessage/header.pb.cc:1825-1836 | a record behind any other tag goes to the envelope's unknown bytes |
| FieldBytes.FileExample | mapUdpServer/protoMessage/header.pb.cc:1065-1125 | all eighteen bytes of one file packet in its envelope |
| PacketMessages.Heartbeat.InternalParse | mapUdpServer/protoMessage/header.pb.cc:253-290 | the tag loop over the bytes ends in the specified parse of a heartbeat into the old fields, or fails exactly where it does, with the fields that were read, bad text included, left in place |
| PacketMessages.Heartbeat.InternalSerialize | mapUdpServer/protoMessage/header.pb.cc:292-314 | appends the serialisation of the current fields |
| PacketMessages.Heartbeat.ByteSizeLong | mapUdpServer/protoMessage/header.pb.cc:316-337 | returns and caches the length of the serialisation, or a number over INT_MAX exactly if the length is |
| PacketMessages.Heartbeat.MergeFrom | mapUdpServer/protoMessage/header.pb.cc:345-356 | the new fields are the merge of the old ones and the other object, which is unchanged |
| PacketMessages.Heartbeat.CopyFrom | mapUdpServer/protoMessage/header.pb.cc:358-363 | the fields become those of the other object; copying an object to itself changes nothing |
| PacketMessages.Heartbeat.Clear | mapUdpServer/protoMessage/header.pb.cc:243-251 | the fields become those of an empty body |
| PacketMessages.Itemlist.InternalParse | mapUdpServer/protoMessage/header.pb.cc:446-488 | the tag loop over the bytes ends in the specified parse of repeated items into the old fields, or fails exactly where it does, with the fields that were read, bad text included, left in place |
| PacketMessages.Itemlist.InternalSerialize | mapUdpServer/protoMessage/header.pb.cc:490-512 | appends the serialisation of the current fields |
| PacketMessages.Itemlist.ByteSizeLong | mapUdpServer/protoMessage/header.pb.cc:514-536 | returns and caches the length of the serialisation, or a number over INT_MAX exactly if the length is |
| PacketMessages.Itemlist.MergeFrom | mapUdpServer/protoMessage/header.pb.cc:544-553 | the new fields are the merge of the old ones and the other object, which is unchanged |
| PacketMessages.Itemlist.CopyFrom | mapUdpServer/protoMessage/header.pb.cc:555-560 | the fields become those of the other object; copying an object to itself changes nothing |
| PacketMessages.Itemlist.Clear | mapUdpServer/protoMessage/header.pb.cc:436-444 | the fields become those of an empty body |
| PacketMessages.Location.InternalParse | mapUdpServer/protoMessage/header.pb.cc:646-697 | the tag loop over the bytes ends in the specified parse of three raw doubles into the old fields, or fails exactly where it does, with the fields that were read, bad text included, left in place |
| PacketMessages.Location.InternalSerialize | mapUdpServer/protoMessage/header.pb.cc:699-741 | appends the serialisation of the current fields |
| PacketMessages.Location.ByteSizeLong | mapUdpServer/protoMessage/header.pb.cc:743-784 | returns and caches the length of the serialisation, or a number over INT_MAX exactly if the length is |
| PacketMessages.Location.MergeFrom | mapUdpServer/protoMessage/header.pb.cc:792-821 | the new fields are the merge of the old ones and the other object, which is unchanged |
| PacketMessages.Location.CopyFrom | mapUdpServer/protoMessage/header.pb.cc:823-828 | the fields become those of the other object; copying an object to itself changes nothing |
| PacketMessages.Location.Clear | mapUdpServer/protoMessage/header.pb.cc:634-644 | the fields become those of an empty body |
| PacketMessages.File.InternalParse | mapUdpServer/protoMessage/header.pb.cc:981-1063 | the tag loop over the bytes ends in the specified parse of a file packet into the old fields, or fails exactly where it does, with the fields that were read, bad text included, left in place |
| PacketMessages.File.InternalSerialize | mapUdpServer/protoMessage/header.pb.cc:1065-1125 | appends the serialisation of the current fields |
| PacketMessages.File.ByteSizeLong | mapUdpServer/protoMessage/header.pb.cc:1127-1179 | returns and caches the length of the serialisation, or a number over INT_MAX exactly if the length is |
| PacketMessages.File.MergeFrom | mapUdpServer/protoMessage/header.pb.cc:1187-1213 | the new fields are the merge of the old ones and the other object, which is unchanged |
| PacketMessages.File.CopyFrom | mapUdpServer/protoMessage/header.pb.cc:1215-1220 | the fields become those of the other object; copying an object to itself changes nothing |
| PacketMessages.File.Clear | mapUdpServer/protoMessage/header.pb.cc:965-979 | the fields become those of an empty body |
| PacketMessages.FileTransferStatus.InternalParse | mapUdpServer/protoMessage/header.pb.cc:1343-1396 | the tag loop over the bytes ends in the specified parse of a transfer status into the old fields, or fails exactly where it does, with the fields that were read, bad text included, left in place |
| PacketMessages.FileTransferStatus.InternalSerialize | mapUdpServer/protoMessage/header.pb.cc:1398-1432 | appends the serialisation of the current fields |
| PacketMessages.FileTransferStatus.ByteSizeLong | mapUdpServer/protoMessage/header.pb.cc:1434-1465 | returns and caches the length of the serialisation, or a number over INT_MAX exactly if the length is |
| PacketMessages.FileTransferStatus.MergeFrom | mapUdpServer/protoMessage/header.pb.cc:1473-1490 | the new fields are the merge of the old ones and the other object, which is unchanged |
| PacketMessages.FileTransferStatus.CopyFrom | mapUdpServer/protoMessage/header.pb.cc:1492-1497 | the fields become those of the other object; copying an object to itself changes nothing |
| PacketMessages.FileTransferStatus.Clear | mapUdpServer/protoMessage/header.pb.cc:1330-1341 | the fields become those of an empty body |
| PacketMessages.Message.ClearPayload | mapUdpServer/protoMessage/header.pb.cc:1715-1753 | the oneof becomes unset, whatever it held |
| PacketMessages.Message.Clear | mapUdpServer/protoMessage/header.pb.cc:1756-1765 | the envelope becomes empty |
| PacketMessages.Message.MutableHeartbeat | mapUdpServer/protoMessage/header.pb.h:1775-1782 | returns the live heartbeat: the one held, or a fresh empty one after dropping any other payload |
| PacketMessages.Message.MutableItemlist | mapUdpServer/protoMessage/header.pb.h:1849-1856 | returns the live item list: the one held, or a fresh empty one after dropping any other payload |
| PacketMessages.Message.MutableLocation | mapUdpServer/protoMessage/header.pb.h:1923-1930 | returns the live location: the one held, or a fresh empty one after dropping any other payload |
| PacketMessages.Message.MutableFile | mapUdpServer/protoMessage/header.pb.h:1997-2004 | returns the live file: the one held, or a fresh empty one after dropping any other payload |
| PacketMessages.Message.MutableFileTransferStatus | mapUdpServer/protoMessage/header.pb.h:2071-2078 | returns the live transfer status: the one held, or a fresh empty one after dropping any other payload |
| PacketMessages.Message.InternalParse | mapUdpServer/protoMessage/header.pb.cc:1767-1843 | the envelope loop with nested submessages ends in the specified parse into the old value, or fails exactly where it does; stopped by bad text it leaves what was read up to and with it |
| PacketMessages.Message.ByteSizeLong | mapUdpServer/protoMessage/header.pb.cc:1901-1961 | returns the length of the serialisation, or a number over INT_MAX exactly if the length is; up to INT_MAX every cached child size is left exact for the serialiser |
| PacketMessages.Message.InternalSerialize | mapUdpServer/protoMessage/header.pb.cc:1845-1899 | with cached sizes in place, appends exactly the serialisation, the nested length prefix taken from the cache |
| PacketMessages.Message.MergeFrom | mapUdpServer/protoMessage/header.pb.cc:1969-2010 | the new value is the merge, switching the oneof where the other has another payload |
| PacketMessages.Message.CopyFrom | mapUdpServer/protoMessage/header.pb.cc:2012-2017 | the value becomes that of the other envelope |
| PacketMessages.Message.ParseFromString | mapUdpServer/modules/protobuf/src/google/protobuf/message_lite.cc:308-310 | clears, then parses the bytes into the empty envelope |
| PacketMessages.Message.SerializeToString | mapUdpServer/modules/protobuf/src/google/protobuf/message_lite.cc:461-464 | gives the serialisation, or fails and gives nothing if it is over INT_MAX bytes |
| Framing.SerializeU32 | mapUdpServer/modules/libhv-1.3.2/base/hendian.h:208-223 | the byte-reversing loop leaves the big-endian bytes of the value and nothing else changed |
| Framing.ToBigEndianByteStream | mapUdpServer/hxMapServer.cpp:30-39 | magic number, 32-bit length and data, in a fresh buffer |
| Framing.HeaderBytes | mapUdpServer/hxMapServer.cpp:30-39 | a frame begins 12 34 56 78, then the length most significant byte first, then the data |
| Framing.LengthFieldRule | mapUdpServer/modules/libhv-1.3.2/event/unpack.c:106-174 | the cut with its numbers: nothing below eight bytes; the length in bytes 4 to 7, most significant first, plus eight in 32 bits; dropped above 2 MB; else the package once it is complete |
| Framing.UnpackByLengthField | mapUdpServer/modules/libhv-1.3.2/event/unpack.c:106-174 | one pass over the buffered bytes delivers the complete packages, keeps the rest, or drops the connection |
| Framing.CutConcat | mapUdpServer/modules/libhv-1.3.2/event/unpack.c:106-174 | cutting a concatenation is cutting the first piece and feeding the second to what remains |
| Framing.ChunksDoNotMatter | mapUdpServer/modules/libhv-1.3.2/event/unpack.c:106-174 | any chopping of a stream delivers the packages of the whole stream |
| Framing.CutOfFrames | mapUdpServer/hxMapServer.cpp:276-285 | frames within the limit laid end to end are cut into themselves, whatever follows |
| Framing.CutStopsAt | mapUdpServer/modules/libhv-1.3.2/event/unpack.c:156-171 | the first frame over the limit drops the connection, the ones before it are delivered |
| FileTransfer.HxFile.SetInfo | mapUdpServer/hxMapServer.cpp:54-63 | the first packet fixes the metadata; later calls change nothing |
| FileTransfer.HxFile.ReceivePacket | mapUdpServer/hxMapServer.cpp:66-88 | stores the packet and assembles exactly when enough have arrived, the total compared as an unsigned 64-bit number; tells a write from a wait and from an exception |
| FileTransfer.HxFile.AssembleAndSaveFile | mapUdpServer/hxMapServer.cpp:175-197 | throws, with nothing changed, if the path does not convert; otherwise, if the file opens, one write of the packets in order, absent ones inserted empty, and the packets cleared |
| FileTransfer.ConvertsIffText | mapUdpServer/hxMapServer.cpp:177-179 | a path under an ASCII root converts exactly if the map name and the file name are both UTF-8 |
| FileTransfer.HxFile.SplitToVector | mapUdpServer/hxMapServer.cpp:91-158 | throws if the path does not convert; otherwise appends the framed packets of the file, one empty packet numbered 1 of 1 for an empty file, nothing if it cannot be read |
| FileTransfer.SplitContent | mapUdpServer/hxMapServer.cpp:117-125 | the offset loop cuts the content into pieces of 1200 bytes and a last shorter one |
| FileTransfer.SendPackets | mapUdpServer/hxMapServer.cpp:130-155 | reusing one message object, each packet goes out as a fresh message would |
| TransferLaws.ChunksConcat | mapUdpServer/hxMapServer.cpp:117-125 | the pieces laid end to end are the content |
| TransferLaws.ChunkCount | mapUdpServer/hxMapServer.cpp:119-125 | there are size / 1200 pieces, rounded up |
| TransferLaws.ChunkAt | mapUdpServer/hxMapServer.cpp:117-125 | piece i is the 1200 bytes from 1200 i on, or what is left there |
| TransferLaws.PacketsAre | mapUdpServer/hxMapServer.cpp:117-150 | each packet with every field: numbered from 0 with the count as total and no checksum; one packet 1 of 1 for an empty file |
| TransferLaws.UploadStep | mapUdpServer/hxMapServer.cpp:65-88 | one packet of an upload: a write is the whole file, made exactly when all numbers are held, the path converts and the file opens, exactly when the entry goes |
| TransferLaws.EveryWriteIsTheFile | mapUdpServer/hxMapServer.cpp:324-339 | in any order, with any repetition, opens failing, other uploads between: every write under the name is the whole file and stored keys stay the split's own |
| TransferLaws.Projection | mapUdpServer/hxMapServer.cpp:335-338 | what a run does under one name is what that name's events do alone |
| TransferLaws.ExactlyOnce | mapUdpServer/hxMapServer.cpp:324-339 | each packet once, in any order, gives exactly one write of the whole file and leaves the other entries as they were, or no write and a lasting entry if the path does not convert |
| TransferLaws.WrittenIffAllArrive | mapUdpServer/hxMapServer.cpp:65-88 | with opens succeeding and any repetition, something is written exactly if every packet arrives and the path converts |
| TransferLaws.NotYet | mapUdpServer/hxMapServer.cpp:74-76 | fewer events than packets make no write |
| TransferLaws.StepRule | mapUdpServer/hxMapServer.cpp:54-88 | one packet of any kind, with a name or without: the metadata fixed by the first, the place taken, and the file made of places 0 to total - 1 once there are as many packets as a total that is not negative says, the path converting and the file opening |
| TransferLaws.InterleavedUploads | mapUdpServer/hxMapServer.cpp:220-339 | uploads with distinct names interleaved in any way: one write per file whose path converts, nothing else written, and entries left for exactly the others |
| TransferLaws.OneAfterTheOther | mapUdpServer/hxMapServer.cpp:220-339 | uploads that share a file name, under different maps or the same, are each written whole, in order, if each is complete before the next begins |
| TransferLaws.SameNameCollides | mapUdpServer/hxMapServer.cpp:335-338 | two uploads of one file name under two maps, each packet delivered once but interleaved: neither file is ever written |
| MapServer.Server.At | mapUdpServer/hxMapServer.cpp:335 | operator[] gives the entry under the name, a fresh one if there is none, and changes nothing else |
| MapServer.Server.Deliver | mapUdpServer/hxMapServer.cpp:335-337 | metadata first, then the packet; only the one entry changes |
| MapServer.Server.Erase | mapUdpServer/hxMapServer.cpp:338 | exactly the named entry goes |
| MapServer.Server.OnUpload | mapUdpServer/hxMapServer.cpp:324-339 | one upload message takes the receiver through one step and logs its write; an exception passes by the erasing |
| MapServer.Server.OnMessage | mapUdpServer/hxMapServer.cpp:297-345 | one package, parsed and dispatched whether or not parsing stopped at bad text: the new receiver state, the writes logged, and the replies sent or the exception thrown |
| MapServer.OnReceiveMapRequest | mapUdpServer/hxMapServer.cpp:382-396 | the framed serialisation of the map list |
| MapServer.OnReceiveDownloadMapRequest | mapUdpServer/hxMapServer.cpp:398-412 | the framed packets of the requested files that can be read, in request order; throws exactly if some path does not convert |
| MapServer.CStr | mapUdpServer/hxMapServer.cpp:315-317 | a requested file name is the item up to its first NUL: a prefix without NUL that ends there or is all of it |
| ServerLaws.ServeIsRun | mapUdpServer/hxMapServer.cpp:297-345 | framed packets, served one by one, are a run of the receiver up to the first that throws |
| ServerLaws.StreamIsRun | mapUdpServer/hxMapServer.cpp:274-345 | packets sent as one stream and received in any pieces are a run of the receiver up to the first that throws |
| ServerLaws.TextNeverThrows | mapUdpServer/hxMapServer.cpp:324-338 | packets whose names are UTF-8, meeting no entry whose map name is not, never throw |
| ServerLaws.UploadEndToEnd | mapUdpServer/hxMapServer.cpp:91-345 | split, serialise, frame, stream, cut, parse, collect: the original bytes are written once and the receiver is as before, for every content, the empty one included, and any receiver without an entry of that name |
| ServerLaws.ShortNamesTravel | mapUdpServer/hxMapServer.cpp:278 | the size condition holds if the two names together stay 1300 bytes below the package limit |
| ServerLaws.BrokenMessage | mapUdpServer/hxMapServer.cpp:298-330 | a packet with a name that is not UTF-8 stops the parser there and leaves the handler the names read so far and nothing else |
| ServerLaws.BrokenStep | mapUdpServer/hxMapServer.cpp:174-179 | the handler then counts zero packets as enough, and throws when it converts the path, whatever the opening would do |
| ServerLaws.UploadOutcome | mapUdpServer/hxMapServer.cpp:174-345 | for every upload with a file name and fewer than 2^31 packets: exactly one write, of the whole file, if every packet fits a package and both names are UTF-8, and no write at all otherwise |
| ServerLaws.DroppedExample | mapUdpServer/hxMapServer.cpp:278 | an upload whose name fills a package gets nothing through |
| ServerLaws.BadNameExample | mapUdpServer/hxMapServer.cpp:174-179 | an upload that fits but has a name that is not UTF-8 ends in an exception with nothing written |
| DownloadLaws.Dispatch | mapUdpServer/hxMapServer.cpp:300-344 | type 2 is answered by the map list, type 4 with a file is a receiver step, any other type or payload, or an empty item list, does nothing |
| DownloadLaws.RequestedAre | mapUdpServer/hxMapServer.cpp:313-317 | the names asked for are the items behind the first, each up to its first NUL, and the items themselves if they have none |
| DownloadLaws.RequestRead | mapUdpServer/hxMapServer.cpp:298-313 | the bytes 8, 4, 26, the length and the items are read as a request for those items |
| DownloadLaws.AnswerIs | mapUdpServer/hxMapServer.cpp:315-320 | the answer holds a file exactly if it is in the store under the map and one of the names, and all in the order asked |
| DownloadLaws.RequestThrows | mapUdpServer/hxMapServer.cpp:91-96 | a request throws exactly if it names a file and the map name or some file name, up to its first NUL, is not UTF-8 |
| DownloadLaws.BadLastItem | mapUdpServer/hxMapServer.cpp:309-321 | an item list whose last name is not UTF-8 throws before any reply is written, the files before it unsent |
| DownloadLaws.DownloadOutcome | mapUdpServer/hxMapServer.cpp:309-322 | for any request whose names fit a package: an exception and no replies, or replies from which a peer running the same receiver writes the files asked for up to the first packet over the limit; all of them, in item order, exactly if every packet fits |
| DownloadLaws.DownloadEndToEnd | mapUdpServer/hxMapServer.cpp:298-322 | a request that arrived in a package never throws; on the replies, in any pieces, a peer running the same receiver writes the file of the store for exactly those items behind the first that have one, in item order, if and only if every packet fits a package, its other entries as they were; otherwise a proper prefix of them |
| DownloadLaws.MapListRoundTrip | mapUdpServer/hxMapServer.cpp:382-396 | the map list sent parses back to itself |
| DownloadLaws.MapListBytes | mapUdpServer/hxMapServer.cpp:382-396 | the map list message is these 39 bytes: type 2 and four names |
| DownloadLaws.MapListServed | mapUdpServer/hxMapServer.cpp:297-304 | a package of any header and the two bytes of type 2 is answered by exactly that list behind its header |
| MultipartCodec.WriteNetworkOrder | zmqDemo/modules/cppzmq-4.10.0/zmq_addon.hpp:77-88 | the four bytes at the place are the big-endian value, nothing else changes |
| MultipartCodec.ReadU32NetworkOrder | zmqDemo/modules/cppzmq-4.10.0/zmq_addon.hpp:90-102 | the big-endian value of four bytes |
| MultipartCodec.EncodedSize | zmqDemo/modules/cppzmq-4.10.0/zmq_addon.hpp:222-234 | the first pass computes the exact length of the encoding, or fails exactly if a part is 2^32 bytes or more |
| MultipartCodec.WriteSize | zmqDemo/modules/cppzmq-4.10.0/zmq_addon.hpp:243-251 | the short or long size form at the place |
| MultipartCodec.WritePart | zmqDemo/modules/cppzmq-4.10.0/zmq_addon.hpp:238-254 | one part at the place, everything before it unchanged |
| MultipartCodec.Encode | zmqDemo/modules/cppzmq-4.10.0/zmq_addon.hpp:220-258 | the buffer of the computed size is filled exactly by the encoding |
| MultipartCodec.Decode | zmqDemo/modules/cppzmq-4.10.0/zmq_addon.hpp:275-302 | appends the decoded parts up to the end or the first overflow, never reading past the limit |
| MultipartCodec.PartBytes | zmqDemo/modules/cppzmq-4.10.0/zmq_addon.hpp:236-254 | a part of up to 254 bytes is its size in one byte and its data; any other has FF and the size in four bytes, most significant first |
| MultipartCodec.LongFormRead | zmqDemo/modules/cppzmq-4.10.0/zmq_addon.hpp:280-297 | the five-byte form is read whatever the size in it |
| MultipartCodec.DecodeEncodeRoundTrip | zmqDemo/modules/cppzmq-4.10.0/zmq_addon.hpp:220-302 | decode undoes encode for all part lists with parts below 2^32 bytes |
| MultipartCodec.DecodeOfPrefix | zmqDemo/modules/cppzmq-4.10.0/zmq_addon.hpp:280-302 | any prefix of an encoding gives the parts wholly in it and is accepted exactly on a part boundary |
| MultipartCodec.Reencoding | zmqDemo/modules/cppzmq-4.10.0/zmq_addon.hpp:280-302 | for every accepted input, encoding the parts is no longer, decodes to them, and is the input exactly if every size was in shortest form |
| Multipart.SendMultipart | zmqDemo/modules/cppzmq-4.10.0/zmq_addon.hpp:169-190 | all parts queued with the more flag, the count returned, or nothing queued |
| Multipart.RecvMultipart | zmqDemo/modules/cppzmq-4.10.0/zmq_addon.hpp:45-69 | the next message whole; with a bound, exactly the first n parts before the throw, the others left pending |
| Multipart.MultipartMessage.Recv | zmqDemo/modules/cppzmq-4.10.0/zmq_addon.hpp:396-413 | the next message replaces the parts; false and empty if there is none |
| Multipart.MultipartMessage.Send | zmqDemo/modules/cppzmq-4.10.0/zmq_addon.hpp:416-434 | all parts sent as one message and the object emptied; a refused first part is lost |
| Multipart.MultipartMessage.Prepend | zmqDemo/modules/cppzmq-4.10.0/zmq_addon.hpp:437-441 | the other's parts come to the front in their order, and the other is emptied |
| Multipart.MultipartMessage.Append | zmqDemo/modules/cppzmq-4.10.0/zmq_addon.hpp:444-448 | the other's parts come to the back in their order, and the other is emptied |
| Multipart.MultipartMessage.Clone | zmqDemo/modules/cppzmq-4.10.0/zmq_addon.hpp:573-579 | a fresh object with the same parts |
| Multipart.MultipartMessage.Equal | zmqDemo/modules/cppzmq-4.10.0/zmq_addon.hpp:620-628 | true exactly if both hold the same parts |
| Multipart.MultipartMessage.DecodeAppend | zmqDemo/modules/cppzmq-4.10.0/zmq_addon.hpp:641-644 | the decoded parts are appended |
| Multipart.FlagsOfMessage | zmqDemo/modules/cppzmq-4.10.0/zmq_addon.hpp:177-189 | every frame but the last carries the more flag, and the last does exactly for sndmore |
| Multipart.FirstLengthIs | zmqDemo/modules/cppzmq-4.10.0/zmq_addon.hpp:36-66 | the next message is the frames up to and with the first without the more flag |
| Multipart.SendReceive | zmqDemo/modules/cppzmq-4.10.0/zmq_addon.hpp:396-434 | non-empty multiparts sent in a row are received in order, ahead of what was queued behind them |
| Multipart.SendReceiveDrains | zmqDemo/modules/cppzmq-4.10.0/zmq_addon.hpp:396-434 | receiving as often as was sent empties the channel |
| Multipart.SendKeepsAtomic | zmqDemo/modules/cppzmq-4.10.0/zmq_addon.hpp:169-190 | sending whole messages keeps the queue made of complete messages |
| Multipart.SndmoreJoins | zmqDemo/modules/cppzmq-4.10.0/zmq_addon.hpp:178-181 | a message sent with sndmore and the next one are received as one |
| Calculator.Add | FSM/HFSM2_demo/src/calculator/main.cpp:126-131 | the sum of two numbers with a sign bit |
| Calculator.Mul | FSM/HFSM2_demo/src/calculator/main.cpp:133-135 | their product |
| Calculator.Div | FSM/HFSM2_demo/src/calculator/main.cpp:138-142 | their quotient, the divisor not being zero of either sign |
| Calculator.Performed | FSM/HFSM2_demo/src/calculator/main.cpp:120-149 | an operation is carried out exactly if there is an operator and it is not a division by zero |
| Calculator.Calc.InsertInOperand1 | FSM/HFSM2_demo/src/calculator/main.cpp:90-103 | a digit goes behind the last one, before or behind the point, keeping the sign |
| Calculator.Calc.InsertInOperand2 | FSM/HFSM2_demo/src/calculator/main.cpp:105-118 | the same for the second operand, whose test for a fraction is written differently |
| Calculator.Calc.PerformOp | FSM/HFSM2_demo/src/calculator/main.cpp:120-149 | the result is left in the first operand; refused divisions change nothing |
| Calculator.Calc.Change | FSM/HFSM2_demo/include/hfsm2/machine.hpp:12494-12527 | a change to a leaf exits the old one and enters it, or only re-enters it if it is active |
| Calculator.Calc.ReactClear | FSM/HFSM2_demo/include/hfsm2/machine.hpp:11751-11778 | a change to the active composite On re-enters it and returns it to Begin |
| Calculator.Calc.React | FSM/HFSM2_demo/src/calculator/main.cpp:197-816 | one event in one state: the new state and the new operands, operator and weight |
| CalculatorLaws.StepKeeps | FSM/HFSM2_demo/src/calculator/main.cpp:66-816 | every event keeps the invariant: weight a power of ten above one in a fraction and one elsewhere, Error only with DIVIDE by zero, Result only with a performable operation |
| CalculatorLaws.Reachable | FSM/HFSM2_demo/src/calculator/main.cpp:167-816 | the invariant holds after any events from power-up |
| CalculatorLaws.EntryIsDecimal | FSM/HFSM2_demo/src/calculator/main.cpp:270-816 | any number typed from Begin, or behind an operator, ends in exactly its decimal value with its sign, and touches nothing else |
| CalculatorLaws.FracKey | FSM/HFSM2_demo/src/calculator/main.cpp:484-520 | a digit behind the point counts with the next decimal weight |
| CalculatorLaws.IntKey | FSM/HFSM2_demo/src/calculator/main.cpp:404-480 | a digit before the point shifts the number, a leading zero leaving it zero |
| CalculatorLaws.ClearEntryUndoes | FSM/HFSM2_demo/src/calculator/main.cpp:346-391 | CE takes back everything typed since the start or the operator |
| CalculatorLaws.EntryAfterResult | FSM/HFSM2_demo/src/calculator/main.cpp:242-283 | a number without a minus sign typed at a result is its decimal value, as if typed at the start |
| CalculatorLaws.ErrorStays | FSM/HFSM2_demo/src/calculator/main.cpp:525-538 | Error ignores every key but C and off |
| CalculatorLaws.PowerOn | FSM/HFSM2_demo/src/calculator/main.cpp:201-221 | switching on sets operands, operator and weight whatever was left from before |
| CalculatorLaws.ClearIsPowerOn | FSM/HFSM2_demo/src/calculator/main.cpp:211-231 | C in any state but Off gives the machine just switched on |
| CalculatorLaws.ClearStartsOver | FSM/HFSM2_demo/src/calculator/main.cpp:211-231 | whatever is typed behind C gives what it gives from power-up |
| CalculatorLaws.ClearedExpression | FSM/HFSM2_demo/src/calculator/main.cpp:211-231 | a whole expression behind C, in Error too, shows its left-to-right value |
| CalculatorLaws.OffAndOn | FSM/HFSM2_demo/src/calculator/main.cpp:197-239 | switching off and on gives the machine just switched on, from every state |
| CalculatorLaws.IgnoredKeys | FSM/HFSM2_demo/src/calculator/main.cpp:197-816 | the keys that do nothing, state by state |
| CalculatorLaws.OperatorReplaced | FSM/HFSM2_demo/src/calculator/main.cpp:581-592 | of two operators in a row the second counts, unless it is the sign of the next number |
| CalculatorLaws.OperatorAtStart | FSM/HFSM2_demo/src/calculator/main.cpp:270-283 | an operator other than minus pressed first takes zero for the first number |
| CalculatorLaws.PressedIsPending | FSM/HFSM2_demo/src/calculator/main.cpp:651-677 | after any terms typed behind a number or a result, all but the last is worked out, or Error is shown |
| CalculatorLaws.NumberIsPending | FSM/HFSM2_demo/src/calculator/main.cpp:381-399 | a number typed at the start can be calculated with at its decimal value |
| CalculatorLaws.ExpressionValue | FSM/HFSM2_demo/src/calculator/main.cpp:651-694 | terms typed behind a number or an earlier result and = show the value from left to right, and Error exactly for a division by zero on the way |
| CalculatorLaws.TypedExpression | FSM/HFSM2_demo/src/calculator/main.cpp:270-694 | so does a whole expression typed from the start |
| CalculatorLaws.EqualsRepeats | FSM/HFSM2_demo/src/calculator/main.cpp:301-323 | each further = counts as the last term typed once more, and never fails |
| CalculatorLaws.TwoDigits | FSM/HFSM2_demo/src/calculator/main.cpp:106-150 | one digit, an operator, another digit, each with a minus sign or not, and =: the sum, difference, product or quotient, or Error for a division by zero |
| CalculatorLaws.DecimalExample | FSM/HFSM2_demo/src/calculator/main.cpp:78-104 | 1 2 . 5 puts 12.5 into the first operand |
| Elevators.Motor.Dispatch | FSM/office_demo_elevator/src/motor.cpp:42-52 | each motor event sets state and direction; other events change neither |
| Elevators.Motor.Enter | FSM/office_demo_elevator/src/motor.cpp:10-35 | entering a state sets its direction |
| Elevators.Elevator.Start | FSM/office_demo_elevator/include/tinyfsm.hpp:195-198 | both machines in their initial states, the motor stopped |
| Elevators.Elevator.SendEvent | FSM/office_demo_elevator/src/fsmlist.hpp:11-16 | one event with everything it sets off in both machines, nested dispatch terminating |
| Elevators.Elevator.Dispatch | FSM/office_demo_elevator/include/tinyfsm.hpp:124-127 | the elevator's reaction in its current state; motor events change nothing |
| Elevators.Elevator.ReactCall | FSM/office_demo_elevator/src/elevator.cpp:73-88 | a call sets the destination and, unless there already, the motor and the state |
| Elevators.Elevator.ReactFloorSensor | FSM/office_demo_elevator/src/elevator.cpp:44-58 | the expected floor is taken over and may be the last; any other means Panic |
| Elevators.Elevator.Transit | FSM/office_demo_elevator/include/tinyfsm.hpp:133-149 | exit, change of state, entry, for every state |
| Elevators.SentKeeps | FSM/office_demo_elevator/src/elevator.cpp:28-106 | every event keeps: Idle stopped at the destination, Moving towards it with the motor turning that way, Panic stopped; the floor expected next is always an int |
| Elevators.Reachable | FSM/office_demo_elevator/src/elevator.cpp:108-115 | the invariant holds after any events from the start |
| Elevators.Reactions | FSM/office_demo_elevator/src/elevator.cpp:28-106 | what a call, a floor report and an alarm do in Idle, Moving and Panic, with every field; an idle lift ignores floor reports and a moving one calls |
| Elevators.TripExample | FSM/office_demo_elevator/src/elevator.cpp:28-106 | a trip two floors down, and one up begun, report by report |
| Elevators.PanicIffFault | FSM/office_demo_elevator/src/elevator.cpp:44-50 | the lift is in Panic exactly if an alarm or an unexpected floor occurred in the run |
| Elevators.PanicIsFinal | FSM/office_demo_elevator/src/elevator.cpp:28-34 | in Panic nothing changes again |
| Elevators.OneFloorAtATime | FSM/office_demo_elevator/src/elevator.cpp:53-57 | the floor only ever moves by one, under a turning motor and the way it turns |
| Elevators.Progress | FSM/office_demo_elevator/src/elevator.cpp:44-58 | each expected report lowers the distance by one, calls on the way change nothing, and the lift rests exactly on arrival |
| Elevators.Underway | FSM/office_demo_elevator/src/elevator.cpp:73-102 | after k expected reports the lift is k floors on, whatever was called meanwhile |
| Elevators.Arrives | FSM/office_demo_elevator/src/elevator.cpp:53-57 | exactly as many reports as floors between bring the lift to rest at the floor called |
| Url.StrNChr | Net/modules/libhv-1.3.2/base/hbase.c:188-196 | the first occurrence within n characters, or none |
| Url.HUrl.ParseLogin | Net/modules/libhv-1.3.2/base/hbase.c:463-472 | user name and password of the stretch before the '@' |
| Url.HUrl.ParsePort | Net/modules/libhv-1.3.2/base/hbase.c:478-484 | the unsigned-short loop ends, and the port is the wrapped sum over the field |
| Url.HUrl.ParseAuthority | Net/modules/libhv-1.3.2/base/hbase.c:456-497 | login, host and port fields, default port 443 for https and 80 otherwise |
| Url.HUrl.ParsePath | Net/modules/libhv-1.3.2/base/hbase.c:499-517 | path, query and fragment fields |
| Url.ParseUrl | Net/modules/libhv-1.3.2/base/hbase.c:441-519 | codes -1, -2 and 0 with the struct unchanged, zeroed or filled; no offset or length needs more than sixteen bits |
| Url.HttpsHasScheme | Net/modules/libhv-1.3.2/base/hbase.c:489-493 | a string beginning https:// has its first :// there, so the test of the scheme's length is redundant |
| UrlLaws.UnparseOfParts | Net/modules/libhv-1.3.2/base/hbase.c:448-517 | every string is the concatenation of its parts and their separators, and the parts can be told apart |
| UrlLaws.PartsOfUnparse | Net/modules/libhv-1.3.2/base/hbase.c:448-517 | parts that can be told apart are read back from their concatenation |
| UrlLaws.ParseOfUnparse | Net/modules/libhv-1.3.2/base/hbase.c:448-517 | the parser places every part of a URL put together where it was put |
| UrlLaws.ParserPartitions | Net/modules/libhv-1.3.2/base/hbase.c:441-519 | for every string up to 65535 bytes the fields are the places of its own parts: ordered, disjoint, with exactly the separators between |
| UrlLaws.FieldsHoldParts | Net/modules/libhv-1.3.2/base/hbase.c:441-519 | each field is within bounds and holds its part; missing parts leave zeros |
| UrlLaws.PortIsItsValue | Net/modules/libhv-1.3.2/base/hbase.c:482-493 | a port of digits is its decimal value exactly if that is below 65536; without one it is the default |
| UrlLaws.PortIsSum | Net/modules/libhv-1.3.2/base/hbase.c:478-484 | the port of any characters is the sum of their distances from 0 as signed chars, scaled by ten, modulo 65536 |
| UrlLaws.FullExample | Net/modules/libhv-1.3.2/base/hbase.c:441-519 | all nine fields of a URL that has every part |
| UrlLaws.RepeatedExample | Net/modules/libhv-1.3.2/base/hbase.c:441-519 | all nine fields of a URL in which every separator is repeated: the first of each counts |
| GrowableArray.Array.constructor | Net/modules/libhv-1.3.2/base/array.h:64-68 | empty with the given capacity, which may be zero |
| GrowableArray.Array.At | Net/modules/libhv-1.3.2/base/array.h:48-54 | the element at a position counted from either end |
| GrowableArray.Array.Front | Net/modules/libhv-1.3.2/base/array.h:56-58 | the first element if there is one |
| GrowableArray.Array.Back | Net/modules/libhv-1.3.2/base/array.h:60-62 | the last element if there is one |
| GrowableArray.Array.Clear | Net/modules/libhv-1.3.2/base/array.h:70-73 | empty, the block zeroed |
| GrowableArray.Array.Cleanup | Net/modules/libhv-1.3.2/base/array.h:75-78 | empty with no capacity, from which it can grow again |
| GrowableArray.Array.Resize | Net/modules/libhv-1.3.2/base/array.h:80-84 | the contents stay, new places are zero, capacity zero means sixteen |
| GrowableArray.Array.DoubleResize | Net/modules/libhv-1.3.2/base/array.h:86-88 | the contents stay and there is room for one more, from capacity zero too |
| GrowableArray.Array.PushBack | Net/modules/libhv-1.3.2/base/array.h:90-96 | the element is appended |
| GrowableArray.Array.PopBack | Net/modules/libhv-1.3.2/base/array.h:98-101 | the last element goes |
| GrowableArray.Array.MoveUp | Net/modules/libhv-1.3.2/base/array.h:111-113 | the overlapping move towards the end |
| GrowableArray.Array.MoveDown | Net/modules/libhv-1.3.2/base/array.h:124-126 | the overlapping move towards the front |
| GrowableArray.Array.Add | Net/modules/libhv-1.3.2/base/array.h:103-116 | the element is inserted at a position counted from either end |
| GrowableArray.Array.Del | Net/modules/libhv-1.3.2/base/array.h:118-127 | the element at the position is removed, the others in order |
| GrowableArray.Array.DelNoMove | Net/modules/libhv-1.3.2/base/array.h:129-138 | the element at the position is replaced by the last |
| GrowableArray.Array.Swap | Net/modules/libhv-1.3.2/base/array.h:140-150 | the two elements change places |
| GrowableArray.RemoveUndoesInsert | Net/modules/libhv-1.3.2/base/array.h:103-127 | del undoes add at the same position |
| GrowableArray.InsertUndoesRemove | Net/modules/libhv-1.3.2/base/array.h:103-127 | add undoes del of the same element |
| GrowableArray.RemovalsAgree | Net/modules/libhv-1.3.2/base/array.h:118-138 | both removals take away exactly the one element, as a multiset |
| GrowableArray.SwapTwice | Net/modules/libhv-1.3.2/base/array.h:140-150 | swapping twice changes nothing, swapping once permutes |
| GrowableArray.InsertedAt | Net/modules/libhv-1.3.2/base/array.h:103-116 | element by element, adding moves what is behind one place up and nothing else |
| GrowableArray.RemovedAt | Net/modules/libhv-1.3.2/base/array.h:118-138 | element by element, del moves what is behind one place down; del_nomove only moves the last element |
| GrowableArray.SwappedAt | Net/modules/libhv-1.3.2/base/array.h:140-150 | element by element, swap exchanges two and leaves the others |
| GrowableArray.Positions | Net/modules/libhv-1.3.2/base/array.h:48-146 | the positions there are: -size to size - 1, and size too for add |
| GrowableArray.FromTheEnd | Net/modules/libhv-1.3.2/base/array.h:103-146 | for every operation position -k is position size - k |
| GrowableArray.LastIsMinusOne | Net/modules/libhv-1.3.2/base/array.h:90-138 | removing at -1 is popping, adding at the size is pushing, and after a push the element is at -1 |
| GrowableArray.Perform | Net/modules/libhv-1.3.2/base/array.h:90-150 | each operation on the block is the operation on the sequence |
| GrowableArray.PerformAll | Net/modules/libhv-1.3.2/base/array.h:48-150 | any run of allowed operations on the array is the same run on the sequence |

## Left out

- Utf8.Valid: the structural check of the runtime is written from the definition of UTF-8; the state table by which the runtime decides it is not part of this model.
- Wire.UnknownFieldParse: fields of the deprecated group wire types 3 and 4 are refused here, where the runtime keeps unknown groups.
- Wire.InlineGreedyStringParser: reading past the end of the input or of a submessage fails at once here; the runtime may notice only at the end of the current buffer, with the same verdict.
- PacketMessages.Message.InternalParse: what is left when parsing stops at bytes that are no record is not stated, because it depends on the reader's buffers (a string cut off by the end takes in bytes behind it); where parsing stops at bad text it is. The same holds of the other classes' InternalParse and of MapServer.Server.OnMessage.
- MapServer.Server.OnMessage: needs a package of at least a header; a shorter one, which only a wrapped length gives, makes the source's subtraction of the header size wrap. An item list without entries is ignored; the source reads item 0 unchecked. Each call is atomic; races between the server's ten threads on the receiver map are not modelled.
- PacketMessages.Location.InternalParse: doubles are eight raw bytes, and a field is written unless all are zero, as the source compares bits; their meaning as numbers is not modelled.
- Protocol Buffers arenas, ownership transfer, swap and descriptors: memory management without effect on values.
- FileTransfer.HxFile.AssembleAndSaveFile: the disk is a log of writes and opening a file a free choice; directories are left out, and so is a short read of the file being split. The conversion to wide characters is taken to reject exactly what Utf8.Valid rejects, and the root directory's own path to be ASCII; what the conversion gives is left out.
- ServerLaws.ServeIsRun: what the event loop does with an exception is not part of this model; serving a connection ends with it here. TransferLaws speaks of any run of calls, those after an exception included.
- The MD5 of a file, which is stored and never checked.
- Framing.UnpackByLengthField: a length that wraps to zero, on which the source delivers empty packages without end, ends the call as spinning here; lengths that wrap to 1 to 7 deliver such short packages, as in the source. A package over the limit drops the connection as soon as its header is there. The buffer's allocation is left out.
- Sockets, event loops, logging and the UDP heartbeat echo: I/O.
- Multipart.SendMultipart: the socket is a queue that accepts or refuses the first frame of a message and accepts the rest, as libzmq promises; libzmq itself is not part of this model.
- The ZeroMQ active poller and the thin wrappers of zmq.hpp: calls into foreign code.
- Calculator.Calc.React: numbers are exact reals with a sign bit, so rounding, overflow, infinities and the sign of a sum that is exactly zero under other rounding modes are not modelled; the sum of opposite numbers is +0. Display output is left out.
- Elevators.Elevator.SendEvent: console output and the maintenance and fire brigade calls, which only print, are left out.
- Url.ParseUrl: strstr and strchr are their specifications.
- GrowableArray.Array.Resize: memory is an array with an initial zero for fresh places and allocation always succeeds; sizes and positions are unbounded where the source mixes int and size_t, so arrays of 2^31 elements are not captured.
- GrowableArray.Array.Swap: positions outside the block, which the source does not check, are excluded.
- The linux/bin copy of the codec, the Google/Protobuf examples, the switch and traffic-light demos, the audio player, the logger, QtQuick, curl, xlnt, crash and version demos: copies, finite cases or I/O.
